/**
 * The `/print/raw` request and the order of a raw job's bytes: drawer kick,
 * then the logo framed by centre and left alignment when there is one, then
 * the receipt exactly as the client sent it.
 */
module Job {
  import opened Wrappers
  import opened EscPos
  import opened Logo

  /**
   * The JSON body's fields: `data` (base64 receipt bytes), `logo` (base64 or
   * data-URL image) and the truth value of `printLogo` (False when absent).
   */
  datatype Request = Request(data: Option<string>, logo: Option<string>, printLogo: bool)

  /** Python truthiness of an optional string: present and non-empty. */
  predicate Truthy(s: Option<string>)
    ensures s.None? ==> !Truthy(s)
    ensures s == Some("") ==> !Truthy(s)
    ensures s.Some? && |s.value| > 0 ==> Truthy(s)
  {
    s.Some? && s.value != ""
  }

  /** `should_print_logo and b64_logo`: false unless `printLogo`, then the logo's truthiness. */
  predicate WantsLogo(req: Request)
    ensures !req.printLogo ==> !WantsLogo(req)
    ensures req.printLogo ==> (WantsLogo(req) <==> Truthy(req.logo))
  {
    req.printLogo && Truthy(req.logo)
  }

  /** The logo block the handler obtains: converted only when asked for, else none. */
  function LogoBytes(req: Request, b64: Base64Decoder, img: Imaging): (r: seq<Byte>)
    ensures !WantsLogo(req) ==> r == []
    ensures r != [] ==> WantsLogo(req) && |r| >= 8 && r[..4] == RasterCommand
  {
    if WantsLogo(req) then LogoRaster(req.logo.value, b64, img) else []
  }

  /** Runs the logo conversion when the request asks for a logo and has one. */
  method ConvertRequestedLogo(req: Request, b64: Base64Decoder, img: Imaging) returns (logoBytes: seq<Byte>)
    ensures logoBytes == LogoBytes(req, b64, img)
  {
    logoBytes := [];
    if req.printLogo && Truthy(req.logo) {
      logoBytes := ConvertImageToEscpos(req.logo.value, b64, img);
    }
  }

  /** The job's segments in order; an empty logo block brings no alignment codes. */
  function JobChunks(receipt: seq<Byte>, logoBytes: seq<Byte>): (chunks: seq<seq<Byte>>)
    ensures |chunks| == if logoBytes == [] then 2 else 5
    ensures chunks[0] == DrawerKick && chunks[|chunks| - 1] == receipt
  {
    [DrawerKick] + (if logoBytes != [] then [AlignCenter, logoBytes, AlignLeft] else []) + [receipt]
  }

  /** `b"".join(chunks)`. */
  function Join(chunks: seq<seq<Byte>>): (r: seq<Byte>)
    ensures chunks == [] ==> r == []
    ensures chunks != [] ==> |chunks[0]| <= |r| && r[..|chunks[0]|] == chunks[0]
    ensures |chunks| == 1 ==> r == chunks[0]
  {
    if chunks == [] then [] else chunks[0] + Join(chunks[1..])
  }

  lemma {:induction false} JoinAppend(a: seq<seq<Byte>>, b: seq<seq<Byte>>)
    ensures Join(a + b) == Join(a) + Join(b)
  {
    if a == [] {
      assert a + b == b;
    } else {
      assert (a + b)[0] == a[0] && (a + b)[1..] == a[1..] + b;
      JoinAppend(a[1..], b);
    }
  }

  /** The single contiguous buffer of a job. */
  function JobBuffer(receipt: seq<Byte>, logoBytes: seq<Byte>): (r: seq<Byte>)
    ensures |r| >= 5 && r[..5] == DrawerKick
  {
    Join(JobChunks(receipt, logoBytes))
  }

  /**
   * The buffer is the drawer kick, then centre + logo + left when the logo
   * block is non-empty, then the receipt bytes; with no logo block it is
   * exactly drawer kick + receipt.
   */
  lemma JobBufferLayout(receipt: seq<Byte>, logoBytes: seq<Byte>)
    ensures JobBuffer(receipt, logoBytes)
            == DrawerKick + (if logoBytes != [] then AlignCenter + logoBytes + AlignLeft else []) + receipt
    ensures |JobBuffer(receipt, logoBytes)|
            == |DrawerKick| + |receipt| + (if logoBytes != [] then |logoBytes| + 6 else 0)
    ensures JobBuffer(receipt, logoBytes)[..5] == DrawerKick
  {
    var middle := if logoBytes != [] then [AlignCenter, logoBytes, AlignLeft] else [];
    assert JobChunks(receipt, logoBytes) == [DrawerKick] + middle + [receipt];
    JoinAppend([DrawerKick] + middle, [receipt]);
    JoinAppend([DrawerKick], middle);
    JoinFrame(logoBytes);
  }

  /** The alignment frame around a non-empty logo block joins to centre + block + left. */
  lemma JoinFrame(logoBytes: seq<Byte>)
    ensures Join(if logoBytes != [] then [AlignCenter, logoBytes, AlignLeft] else [])
            == if logoBytes != [] then AlignCenter + logoBytes + AlignLeft else []
  {
    if logoBytes != [] {
      JoinAppend([AlignCenter], [logoBytes, AlignLeft]);
      JoinAppend([logoBytes], [AlignLeft]);
      assert [AlignCenter, logoBytes, AlignLeft] == [AlignCenter] + ([logoBytes] + [AlignLeft]);
    }
  }

  /**
   * A request without `printLogo`, without a logo, or whose logo fails to
   * convert yields drawer kick + receipt and nothing else.
   */
  lemma NoLogoJob(req: Request, b64: Base64Decoder, img: Imaging, receipt: seq<Byte>)
    requires !WantsLogo(req) || LogoRaster(req.logo.value, b64, img) == []
    ensures JobBuffer(receipt, LogoBytes(req, b64, img)) == DrawerKick + receipt
  {
    JobBufferLayout(receipt, LogoBytes(req, b64, img));
  }

  /** What the handler answers. */
  datatype Status = Printed | NoPrinterSelected | NoData | PrintError

  /** The HTTP status of each answer: 200 only on success, an error code otherwise. */
  function HttpCode(s: Status): (code: nat)
    ensures code == 200 <==> s == Printed
    ensures s != Printed ==> 400 <= code < 600
    ensures s == NoPrinterSelected ==> code == 404
    ensures s == NoData ==> code == 400
    ensures s == PrintError ==> code == 500
  {
    match s
    case Printed => 200
    case NoPrinterSelected => 404
    case NoData => 400
    case PrintError => 500
  }

  /**
   * The gates run before anything reaches a printer: a selected printer
   * (404 otherwise), a non-empty `data` field (400 otherwise) and a receipt
   * that base64-decodes (500 otherwise).
   */
  datatype Admission = Admitted(printer: string, receipt: seq<Byte>) | Rejected(status: Status)

  function Admit(selected: Option<string>, req: Request, b64: Base64Decoder): (a: Admission)
    ensures a.Admitted? <==> Truthy(selected) && Truthy(req.data) && b64(req.data.value).Some?
    ensures a.Admitted? ==> a.printer == selected.value && a.receipt == b64(req.data.value).value
    ensures a.Rejected? ==> a.status != Printed
    ensures a == Rejected(NoPrinterSelected) <==> !Truthy(selected)
    ensures a == Rejected(NoData) <==> Truthy(selected) && !Truthy(req.data)
  {
    if !Truthy(selected) then Rejected(NoPrinterSelected)
    else if !Truthy(req.data) then Rejected(NoData)
    else
      var receipt := b64(req.data.value);
      if receipt.None? then Rejected(PrintError) else Admitted(selected.value, receipt.value)
  }
}
