/**
 * The Windows agent's raw-printing endpoints. Each `win32print.WritePrinter`
 * call on the open printer handle is one `Send` to the spool.
 */
module WindowsAgent {
  import opened Wrappers
  import opened EscPos
  import opened Logo
  import opened Job
  import opened Transport

  /** `/print/drawer`: the drawer-kick pulse alone, once a printer is selected. */
  method OpenDrawer(spool: Spool, selected: Option<string>) returns (status: Status)
    modifies spool
    ensures !Truthy(selected) ==> status == NoPrinterSelected && spool.log == old(spool.log)
    ensures Truthy(selected) ==>
              status == Printed && spool.log == old(spool.log) + [Write(selected.value, DrawerKick)]
  {
    if !Truthy(selected) {
      return NoPrinterSelected;
    }
    spool.Send(selected.value, DrawerKick);
    status := Printed;
  }

  /**
   * `/print/raw`: after the gates, one write for the drawer kick, three for
   * a successfully converted logo (centre, block, left), one for the receipt.
   * A rejected request writes nothing.
   */
  method PrintRawBytes(spool: Spool, selected: Option<string>, req: Request, b64: Base64Decoder, img: Imaging)
    returns (status: Status)
    modifies spool
    ensures var a := Admit(selected, req, b64);
      && (a.Rejected? ==> status == a.status && spool.log == old(spool.log))
      && (a.Admitted? ==>
            && status == Printed
            && spool.log == old(spool.log) + WritesTo(a.printer, JobChunks(a.receipt, LogoBytes(req, b64, img))))
  {
    if !Truthy(selected) {
      return NoPrinterSelected;
    }
    var printer := selected.value;
    if !Truthy(req.data) {
      return NoData;
    }
    var decoded := b64(req.data.value);
    if decoded.None? {
      return PrintError;
    }
    WriteSequence(spool, printer, decoded.value, req, b64, img);
    status := Printed;
  }

  /** The writes between `StartPagePrinter` and `EndPagePrinter`, in order. */
  method WriteSequence(spool: Spool, printer: string, receiptBytes: seq<Byte>, req: Request,
                       b64: Base64Decoder, img: Imaging)
    modifies spool
    ensures spool.log == old(spool.log) + WritesTo(printer, JobChunks(receiptBytes, LogoBytes(req, b64, img)))
  {
    ghost var before := spool.log;
    spool.Send(printer, DrawerKick);
    var logoBytes := ConvertRequestedLogo(req, b64, img);
    ghost var tail := LogoWrites(printer, logoBytes) + [Write(printer, receiptBytes)];
    WriteLogoAndReceipt(spool, printer, receiptBytes, logoBytes);
    assert spool.log == before + ([Write(printer, DrawerKick)] + tail);
    JobWrites(printer, receiptBytes, logoBytes);
  }

  /** The writes after the drawer kick: the framed logo block, if any, then the receipt. */
  method WriteLogoAndReceipt(spool: Spool, printer: string, receiptBytes: seq<Byte>, logoBytes: seq<Byte>)
    modifies spool
    ensures spool.log == old(spool.log) + LogoWrites(printer, logoBytes) + [Write(printer, receiptBytes)]
  {
    WriteLogo(spool, printer, logoBytes);
    spool.Send(printer, receiptBytes);
  }

  /** The three writes that frame a non-empty logo block; none for an empty one. */
  function LogoWrites(printer: string, logoBytes: seq<Byte>): (w: seq<Write>)
    ensures |w| == if logoBytes == [] then 0 else 3
  {
    if logoBytes != [] then [Write(printer, AlignCenter), Write(printer, logoBytes), Write(printer, AlignLeft)] else []
  }

  /** Centre alignment, the logo block, left alignment, when the block is non-empty. */
  method WriteLogo(spool: Spool, printer: string, logoBytes: seq<Byte>)
    modifies spool
    ensures spool.log == old(spool.log) + LogoWrites(printer, logoBytes)
  {
    if logoBytes != [] {
      spool.Send(printer, AlignCenter);
      spool.Send(printer, logoBytes);
      spool.Send(printer, AlignLeft);
    }
  }

  /** The writes of a job's chunks, one per segment. */
  lemma JobWrites(printer: string, receipt: seq<Byte>, logoBytes: seq<Byte>)
    ensures WritesTo(printer, JobChunks(receipt, logoBytes))
            == [Write(printer, DrawerKick)] + LogoWrites(printer, logoBytes) + [Write(printer, receipt)]
  {
  }

  /**
   * Writing the chunks one call at a time delivers to the printer exactly
   * their concatenation, the buffer the macOS agent sends in one call.
   */
  lemma {:induction false} WritesDeliverJoin(printer: string, chunks: seq<seq<Byte>>)
    ensures Received(WritesTo(printer, chunks), printer) == Join(chunks)
  {
    if chunks != [] {
      assert WritesTo(printer, chunks) == [Write(printer, chunks[0])] + WritesTo(printer, chunks[1..]);
      ReceivedAppend([Write(printer, chunks[0])], WritesTo(printer, chunks[1..]), printer);
      WritesDeliverJoin(printer, chunks[1..]);
      assert Received([Write(printer, chunks[0])], printer) == chunks[0] by {
        assert [Write(printer, chunks[0])][1..] == [];
      }
    }
  }
}
