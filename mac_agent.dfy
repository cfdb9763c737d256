/**
 * The macOS agent: the `/print/raw` handler, which joins the job's chunks
 * and hands them to `lp -o raw` in a single submission, and the `lpstat -p`
 * fallback of the printer listing.
 */
module MacAgent {
  import opened Wrappers
  import opened EscPos
  import opened Logo
  import opened Job
  import opened Transport
  import opened Text

  /**
   * `/print/raw`: after the gates, the chunks are collected in order, joined
   * and sent once. A rejected request sends nothing.
   */
  method PrintRawBytes(spool: Spool, selected: Option<string>, req: Request, b64: Base64Decoder, img: Imaging)
    returns (status: Status)
    modifies spool
    ensures var a := Admit(selected, req, b64);
      && (a.Rejected? ==> status == a.status && spool.log == old(spool.log))
      && (a.Admitted? ==>
            && status == Printed
            && spool.log == old(spool.log) + [Write(a.printer, JobBuffer(a.receipt, LogoBytes(req, b64, img)))])
  {
    if !Truthy(selected) {
      return NoPrinterSelected;
    }
    var printer := selected.value;
    if !Truthy(req.data) {
      return NoData;
    }
    var decoded := b64(req.data.value);
    if decoded.None? {
      return PrintError;
    }
    var finalBytes := AssembleJob(decoded.value, req, b64, img);
    spool.Send(printer, finalBytes);
    status := Printed;
  }

  /** The chunks appended in order and joined into the one buffer that is sent. */
  method AssembleJob(receiptBytes: seq<Byte>, req: Request, b64: Base64Decoder, img: Imaging)
    returns (finalBytes: seq<Byte>)
    ensures finalBytes == JobBuffer(receiptBytes, LogoBytes(req, b64, img))
  {
    var chunks: seq<seq<Byte>> := [];
    chunks := chunks + [DrawerKick];
    var logoBytes := ConvertRequestedLogo(req, b64, img);
    chunks := AppendLogoChunks(chunks, logoBytes);
    chunks := chunks + [receiptBytes];
    assert [] + [DrawerKick] == [DrawerKick];
    assert chunks == JobChunks(receiptBytes, logoBytes);
    finalBytes := Join(chunks);
  }

  /** Centre alignment, the logo block and left alignment appended, when the block is non-empty. */
  method AppendLogoChunks(chunks: seq<seq<Byte>>, logoBytes: seq<Byte>) returns (r: seq<seq<Byte>>)
    ensures logoBytes == [] ==> r == chunks
    ensures logoBytes != [] ==> r == chunks + [AlignCenter, logoBytes, AlignLeft]
  {
    r := chunks;
    if logoBytes != [] {
      r := r + [AlignCenter];
      r := r + [logoBytes];
      r := r + [AlignLeft];
    }
  }

  const PrinterPrefix: string := "printer "

  /** What one line of `lpstat -p` adds: the second word of a "printer " line that has one. */
  function LineContribution(line: string): (r: seq<string>)
    ensures |r| <= 1
    ensures r != [] ==> StartsWith(line, PrinterPrefix) && IsToken(r[0])
  {
    if StartsWith(line, PrinterPrefix) then
      var parts := Split(line);
      if |parts| >= 2 then [parts[1]] else []
    else []
  }

  /** The names the lines contribute, in line order. */
  function PrinterNames(lines: seq<string>): (names: seq<string>)
    ensures |names| <= |lines|
    ensures forall k | 0 <= k < |names| :: IsToken(names[k])
  {
    if lines == [] then [] else LineContribution(lines[0]) + PrinterNames(lines[1..])
  }

  lemma {:induction false} PrinterNamesAppend(a: seq<string>, b: seq<string>)
    ensures PrinterNames(a + b) == PrinterNames(a) + PrinterNames(b)
  {
    if a == [] {
      assert a + b == b;
    } else {
      assert (a + b)[0] == a[0] && (a + b)[1..] == a[1..] + b;
      PrinterNamesAppend(a[1..], b);
    }
  }

  /** The listing from the output of `lpstat -p`, None where the command fails. */
  function LpstatPrinters(out: Option<string>): (names: seq<string>)
    ensures out.None? ==> names == []
    ensures forall k | 0 <= k < |names| :: IsToken(names[k])
  {
    if out.None? then [] else PrinterNames(SplitLines(out.value))
  }

  /** The lpstat fallback of `list_cups_printers`. */
  method ListCupsPrinters(out: Option<string>) returns (names: seq<string>)
    ensures names == LpstatPrinters(out)
  {
    if out.None? {
      return [];
    }
    var lines := SplitLines(out.value);
    names := [];
    for i := 0 to |lines|
      invariant names == PrinterNames(lines[..i])
    {
      var line := lines[i];
      var added: seq<string> := [];
      if StartsWith(line, PrinterPrefix) {
        var parts := Split(line);
        if |parts| >= 2 {
          added := [parts[1]];
        }
      }
      assert added == LineContribution(line);
      PrinterNamesStep(lines, i);
      names := names + added;
    }
    assert lines[..|lines|] == lines;
  }

  lemma PrinterNamesStep(lines: seq<string>, i: nat)
    requires i < |lines|
    ensures PrinterNames(lines[..i + 1]) == PrinterNames(lines[..i]) + LineContribution(lines[i])
  {
    assert lines[..i + 1] == lines[..i] + [lines[i]];
    PrinterNamesAppend(lines[..i], [lines[i]]);
    assert [lines[i]][1..] == [];
  }

  /** A line that does not start with "printer " adds nothing. */
  lemma OtherLinesIgnored(lines: seq<string>, line: string)
    requires !StartsWith(line, PrinterPrefix)
    ensures PrinterNames(lines + [line]) == PrinterNames(lines)
  {
    PrinterNamesAppend(lines, [line]);
    assert [line][1..] == [];
  }

  /** The line lpstat prints for one printer, status text after the name. */
  function ListingLine(name: string, status: string): string
  {
    PrinterPrefix + name + status
  }

  /** A status text as lpstat prints it: on the same line, set off by whitespace. */
  predicate IsStatus(status: string)
  {
    NoLineBreak(status) && (status == [] || IsSpace(status[0]))
  }

  /** The output of `lpstat -p` for these printers, one line each with its own status. */
  function Listing(names: seq<string>, statuses: seq<string>): string
    requires |statuses| == |names|
  {
    if names == [] then []
    else ListingLine(names[0], statuses[0]) + "\n" + Listing(names[1..], statuses[1..])
  }

  /** A printer's line contributes exactly its name, whatever whitespace follows the prefix. */
  lemma ListingLineContribution(ws: string, name: string, status: string)
    requires forall j | 0 <= j < |ws| :: IsSpace(ws[j])
    requires IsToken(name) && IsStatus(status)
    ensures LineContribution(PrinterPrefix + ws + (name + status)) == [name]
  {
    var line := PrinterPrefix + ws + (name + status);
    assert line == PrinterPrefix + (ws + (name + status));
    assert StartsWith(line, PrinterPrefix);
    ListingLineWords(ws, name, status);
  }

  /** The words of a printer's line: "printer", the name, then the status's words. */
  lemma ListingLineWords(ws: string, name: string, status: string)
    requires forall j | 0 <= j < |ws| :: IsSpace(ws[j])
    requires IsToken(name) && IsStatus(status)
    ensures Split(PrinterPrefix + ws + (name + status)) == ["printer"] + ([name] + Split(status))
  {
    var gap := [' '] + ws;
    var rest := name + status;
    LineRegroup(ws, rest);
    SplitToken("printer", gap + rest);
    assert rest[0] == name[0];
    SplitAfterSpaces(gap, rest);
    SplitToken(name, status);
  }

  /** A printer's line is the word "printer", then whitespace, then the rest. */
  lemma LineRegroup(ws: string, rest: string)
    ensures PrinterPrefix + ws + rest == "printer" + (([' '] + ws) + rest)
    ensures IsToken("printer")
  {
    assert PrinterPrefix == "printer" + [' '];
  }

  /** A "printer " line with nothing but whitespace after the prefix adds no name. */
  lemma BarePrinterLine(ws: string)
    requires forall j | 0 <= j < |ws| :: IsSpace(ws[j])
    ensures LineContribution(PrinterPrefix + ws) == []
  {
    var line := PrinterPrefix + ws;
    assert line[..|PrinterPrefix|] == PrinterPrefix;
    assert IsToken("printer");
    assert line == "printer" + ([' '] + ws);
    SplitToken("printer", [' '] + ws);
    LeadingSpacesOf([' '] + ws, []);
    assert ([' '] + ws) + [] == [' '] + ws;
    assert |Split(line)| == 1;
  }

  /** A printer's line holds no line break: a name has no whitespace and the status no break. */
  lemma ListingLineUnbroken(name: string, status: string)
    requires IsToken(name) && IsStatus(status)
    ensures NoLineBreak(ListingLine(name, status))
  {
    var line := ListingLine(name, status);
    forall j | 0 <= j < |line| ensures !IsLineBreak(line[j]) {
      LineBreakIsSpace(line[j]);
    }
  }

  /** The first line contributes first, then the rest in order. */
  lemma PrinterNamesCons(line: string, rest: seq<string>)
    ensures PrinterNames([line] + rest) == LineContribution(line) + PrinterNames(rest)
  {
    assert ([line] + rest)[0] == line && ([line] + rest)[1..] == rest;
  }

  /** Parsing the listing of well-formed printer names gives back exactly those names, in order. */
  lemma {:induction false} ListingRoundTrip(names: seq<string>, statuses: seq<string>)
    requires |statuses| == |names|
    requires forall k | 0 <= k < |names| :: IsToken(names[k]) && IsStatus(statuses[k])
    ensures LpstatPrinters(Some(Listing(names, statuses))) == names
  {
    if names != [] {
      var name, status := names[0], statuses[0];
      var tailNames, tailStatuses := names[1..], statuses[1..];
      ListingTail(names, statuses);
      var tail := Listing(tailNames, tailStatuses);
      ListingHead(name, status, tail);
      assert Listing(names, statuses) == ListingLine(name, status) + "\n" + tail;
      ListingRoundTrip(tailNames, tailStatuses);
      assert PrinterNames(SplitLines(tail)) == tailNames;
      assert names == [name] + tailNames;
    }
  }

  /** The printers after the first are well formed too. */
  lemma ListingTail(names: seq<string>, statuses: seq<string>)
    requires |statuses| == |names| > 0
    requires forall k | 0 <= k < |names| :: IsToken(names[k]) && IsStatus(statuses[k])
    ensures IsToken(names[0]) && IsStatus(statuses[0])
    ensures forall k | 0 <= k < |names| - 1 :: IsToken(names[1..][k]) && IsStatus(statuses[1..][k])
  {
    assert forall k | 0 <= k < |names| - 1 :: names[1..][k] == names[k + 1] && statuses[1..][k] == statuses[k + 1];
  }

  /** A printer's line, then the rest of the listing: its name comes first. */
  lemma ListingHead(name: string, status: string, tail: string)
    requires IsToken(name) && IsStatus(status)
    ensures PrinterNames(SplitLines(ListingLine(name, status) + "\n" + tail))
            == [name] + PrinterNames(SplitLines(tail))
  {
    var line := ListingLine(name, status);
    ListingLineUnbroken(name, status);
    SplitLinesCons(line, tail);
    PrinterNamesCons(line, SplitLines(tail));
    ListingLineName(name, status);
  }

  /** The line lpstat prints for a printer contributes its name. */
  lemma ListingLineName(name: string, status: string)
    requires IsToken(name) && IsStatus(status)
    ensures LineContribution(ListingLine(name, status)) == [name]
  {
    assert ListingLine(name, status) == PrinterPrefix + [] + (name + status);
    ListingLineContribution([], name, status);
  }
}
