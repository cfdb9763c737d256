/**
 * The operating system's print path as the agent sees it: a sink that
 * records every buffer handed to a printer, in order. On Windows an entry is
 * one `WritePrinter` call; on macOS it is one `lp -o raw` submission.
 */
module Transport {
  import opened EscPos

  datatype Write = Write(printer: string, data: seq<Byte>)

  class Spool {
    var log: seq<Write>

    constructor ()
      ensures log == []
    {
      log := [];
    }

    /** Hands data to the named printer. */
    method Send(printer: string, data: seq<Byte>)
      modifies this
      ensures log == old(log) + [Write(printer, data)]
    {
      log := log + [Write(printer, data)];
    }
  }

  /** One write to printer per chunk, in order. */
  function WritesTo(printer: string, chunks: seq<seq<Byte>>): (w: seq<Write>)
    ensures |w| == |chunks|
    ensures forall i | 0 <= i < |chunks| :: w[i] == Write(printer, chunks[i])
  {
    seq(|chunks|, i requires 0 <= i < |chunks| => Write(printer, chunks[i]))
  }

  /** The bytes printer receives from a log: the data written to it, concatenated. */
  function Received(log: seq<Write>, printer: string): seq<Byte>
  {
    if log == [] then []
    else (if log[0].printer == printer then log[0].data else []) + Received(log[1..], printer)
  }

  lemma {:induction false} ReceivedAppend(a: seq<Write>, b: seq<Write>, printer: string)
    ensures Received(a + b, printer) == Received(a, printer) + Received(b, printer)
  {
    if a == [] {
      assert a + b == b;
    } else {
      assert (a + b)[0] == a[0] && (a + b)[1..] == a[1..] + b;
      ReceivedAppend(a[1..], b, printer);
    }
  }
}
