/**
 * `convert_image_to_escpos`: a base64 or data-URL logo string to a GS v 0
 * raster block, or the empty sequence when anything fails. The base64 codec
 * and Pillow (opening the image, resampling, compositing onto white,
 * greyscale) are parameters; what the agent does around them is modelled.
 */
module Logo {
  import opened Wrappers
  import opened EscPos
  import opened Raster

  /** Dot width of a standard 58 mm thermal printer. */
  const MaxWidth: nat := 384

  datatype Size = Size(width: nat, height: nat)

  /** `base64.b64decode`, None where it raises. */
  type Base64Decoder = string -> Option<seq<Byte>>

  /**
   * What the agent asks of Pillow: `openImage`, `Image.open`, gives the decoded image's
   * size (None where it raises); `render` resizes to the requested size if it
   * differs, pastes onto white and converts to greyscale (None where it
   * raises); `padBit` is the value `tobytes()` gives a row's pad bits.
   */
  datatype Imaging = Imaging(
    openImage: seq<Byte> -> Option<Size>,
    render: (seq<Byte>, Size) -> Option<Grey>,
    padBit: bool)

  /** The text after the first comma of s; s has one. */
  function AfterFirstComma(s: string): (r: string)
    requires ',' in s
    ensures |r| < |s| && r == s[|s| - |r|..]
    ensures s[|s| - |r| - 1] == ',' && ',' !in s[..|s| - |r| - 1]
    decreases |s|
  {
    if s[0] == ',' then s[1..] else AfterFirstComma(s[1..])
  }

  /**
   * `s.split(",", 1)[1]` when s holds a comma, s itself otherwise: the
   * result is the suffix of s after its first comma.
   */
  function StripDataUrlPrefix(s: string): (r: string)
    ensures |r| <= |s| && r == s[|s| - |r|..]
    ensures ',' !in s ==> r == s
    ensures ',' in s ==> |r| < |s| && s[|s| - |r| - 1] == ',' && ',' !in s[..|s| - |r| - 1]
  {
    if ',' in s then AfterFirstComma(s) else s
  }

  /** A data URL loses its header: whatever precedes the first comma. */
  lemma StripDataUrl(header: string, body: string)
    requires ',' !in header
    ensures StripDataUrlPrefix(header + [','] + body) == body
  {
    var s := header + [','] + body;
    assert s[|header|] == ',';
  }

  /** Stripping again changes the result exactly when a comma is left in it. */
  lemma StripTwice(s: string)
    ensures var r := StripDataUrlPrefix(s);
      StripDataUrlPrefix(r) == r <==> ',' !in r
  {
  }

  /** Stripping is not idempotent: "a,b,c" becomes "b,c" and then "c". */
  lemma StripNotIdempotent()
    ensures StripDataUrlPrefix("a,b,c") == "b,c"
    ensures StripDataUrlPrefix(StripDataUrlPrefix("a,b,c")) == "c"
  {
    assert "a,b,c" == "a" + [','] + "b,c";
    StripDataUrl("a", "b,c");
    assert "b,c" == "b" + [','] + "c";
    StripDataUrl("b", "c");
  }

  lemma DivisionBounds(a: nat, b: nat)
    requires b > 0
    ensures (a / b) * b <= a < (a / b + 1) * b
  {
  }

  /** A height scaled by 384 / width, for a width above 384, does not grow. */
  lemma ScaledDown(h: nat, height: nat, width: nat)
    requires width > MaxWidth && h * width <= height * MaxWidth
    ensures h <= height
  {
  }

  /**
   * The resize rule: no upscaling; a wider image becomes 384 wide with its
   * height scaled by the same factor and truncated.
   */
  function TargetSize(s: Size): (r: Size)
    ensures s.width <= MaxWidth ==> r == s
    ensures s.width > MaxWidth ==>
              && r.width == MaxWidth
              && r.height * s.width <= s.height * MaxWidth < (r.height + 1) * s.width
    ensures r.width <= MaxWidth && r.height <= s.height
  {
    if s.width > MaxWidth then
      var h := s.height * MaxWidth / s.width;
      DivisionBounds(s.height * MaxWidth, s.width);
      ScaledDown(h, s.height, s.width);
      Size(MaxWidth, h)
    else s
  }

  /** An 800 x 400 logo becomes 384 x 192. */
  lemma TargetSizeExample()
    ensures TargetSize(Size(800, 400)) == Size(384, 192)
  {
  }

  /** The whole conversion as a value: the raster block, or [] on any failure. */
  function LogoRaster(logo: string, b64: Base64Decoder, img: Imaging): (r: seq<Byte>)
    ensures r != [] ==> |r| >= 8 && r[..4] == RasterCommand
    ensures r != [] ==> b64(StripDataUrlPrefix(logo)).Some?
  {
    var decoded := b64(StripDataUrlPrefix(logo));
    if decoded.None? then []
    else
      var original := img.openImage(decoded.value);
      if original.None? then []
      else
        var rendered := img.render(decoded.value, TargetSize(original.value));
        if rendered.None? then [] else EncodeRaster(rendered.value, img.padBit)
  }

  /**
   * Every failure collapses to the empty result: a bad base64 string, an
   * image that does not open or render, a height that overflows 2 bytes.
   */
  lemma ConversionFailureIsEmpty(logo: string, b64: Base64Decoder, img: Imaging)
    ensures b64(StripDataUrlPrefix(logo)).None? ==> LogoRaster(logo, b64, img) == []
    ensures var decoded := b64(StripDataUrlPrefix(logo));
      decoded.Some? && img.openImage(decoded.value).None? ==> LogoRaster(logo, b64, img) == []
    ensures var decoded := b64(StripDataUrlPrefix(logo));
      decoded.Some? && img.openImage(decoded.value).Some? ==>
        var rendered := img.render(decoded.value, TargetSize(img.openImage(decoded.value).value));
        rendered.None? || rendered.value.height >= U16Limit ==> LogoRaster(logo, b64, img) == []
  {
  }

  /** Whether Pillow renders data at exactly the size it was asked for. */
  predicate RendersAtSize(img: Imaging, data: seq<Byte>, target: Size)
  {
    var rendered := img.render(data, target);
    rendered.Some? && rendered.value.width == target.width && rendered.value.height == target.height
  }

  /**
   * When every stage succeeds and Pillow honours the requested size, the
   * block is the 8-byte header for 384 or fewer dots (so at most 48 bytes a
   * row) followed by widthBytes * height payload bytes.
   */
  lemma LogoRasterShape(logo: string, b64: Base64Decoder, img: Imaging)
    requires b64(StripDataUrlPrefix(logo)).Some?
    requires img.openImage(b64(StripDataUrlPrefix(logo)).value).Some?
    requires var data := b64(StripDataUrlPrefix(logo)).value;
      RendersAtSize(img, data, TargetSize(img.openImage(data).value))
    requires TargetSize(img.openImage(b64(StripDataUrlPrefix(logo)).value).value).height < U16Limit
    ensures var data := b64(StripDataUrlPrefix(logo)).value;
      var target := TargetSize(img.openImage(data).value);
      var r := LogoRaster(logo, b64, img);
      && WidthBytes(target.width) <= 48
      && |r| == 8 + WidthBytes(target.width) * target.height
      && r[..4] == RasterCommand
      && FromLittleEndian16(r[4], r[5]) == WidthBytes(target.width)
      && FromLittleEndian16(r[6], r[7]) == target.height
  {
    var data := b64(StripDataUrlPrefix(logo)).value;
    var g := img.render(data, TargetSize(img.openImage(data).value)).value;
    EncodeRasterShape(g, img.padBit);
  }

  /**
   * The conversion as the agent runs it: the packed bitmap is copied into a
   * mutable buffer and every byte is XORed with 0xFF in place, then the
   * header is prepended.
   */
  method ConvertImageToEscpos(logo: string, b64: Base64Decoder, img: Imaging) returns (out: seq<Byte>)
    ensures out == LogoRaster(logo, b64, img)
  {
    var payload := StripDataUrlPrefix(logo);
    var decoded := b64(payload);
    if decoded.None? {
      return [];
    }
    var original := img.openImage(decoded.value);
    if original.None? {
      return [];
    }
    var rendered := img.render(decoded.value, TargetSize(original.value));
    if rendered.None? {
      return [];
    }
    out := EncodeGrey(rendered.value, img.padBit);
  }

  /**
   * The header and the in-place inversion: the header, or the empty result where a
   * dimension overflows `to_bytes(2, ...)`, then the packed bitmap copied into
   * a byte array and inverted in place.
   */
  method EncodeGrey(g: Grey, pad: bool) returns (out: seq<Byte>)
    ensures out == EncodeRaster(g, pad)
  {
    var widthBytes := WidthBytes(g.width);
    if widthBytes >= U16Limit || g.height >= U16Limit {
      return [];
    }
    var header := RasterHeader(widthBytes, g.height);
    var packed := PackRows(Monochrome(g), pad);
    var imgBytes := new Byte[|packed|](i requires 0 <= i < |packed| => packed[i]);
    assert imgBytes[..] == packed;
    InvertInPlace(imgBytes);
    out := header + imgBytes[..];
    assert out == RasterBlock(widthBytes, g.height, packed);
  }

  /** `img_bytes[i] ^= 0xFF` for every byte of the buffer, in place. */
  method InvertInPlace(a: array<Byte>)
    modifies a
    ensures a[..] == Inverted(old(a[..]))
  {
    for i := 0 to a.Length
      invariant forall j | 0 <= j < i :: a[j] == FlipBits(old(a[j]))
      invariant forall j | i <= j < a.Length :: a[j] == old(a[j])
    {
      a[i] := FlipBits(a[i]);
    }
  }
}
