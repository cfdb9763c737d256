/**
 * From a greyscale grid to an ESC/POS "GS v 0" raster block: threshold,
 * one bit per pixel packed most significant bit first with every row padded
 * to a byte boundary, the 8-byte header, and the XOR inversion of the payload.
 * A decoder for the block states what a printer reads back from it.
 */
module Raster {
  import opened Wrappers
  import opened EscPos

  /** Grey values strictly above this are white. */
  const ThresholdLevel: int := 190

  /** A greyscale image as Pillow hands it over after conversion to mode "L". */
  datatype GreyImage = GreyImage(width: nat, height: nat, rows: seq<seq<int>>) {
    predicate Valid() {
      && |rows| == height
      && forall y | 0 <= y < height ::
           && |rows[y]| == width
           && forall x | 0 <= x < width :: 0 <= rows[y][x] <= 255
    }
  }

  type Grey = g: GreyImage | g.Valid() witness GreyImage(0, 0, [])

  /** `im.point(lambda p: 255 if p > threshold else 0)`. */
  function ThresholdSample(p: int): (v: int)
    ensures v == 0 || v == 255
    ensures v == 255 <==> p > ThresholdLevel
  {
    if p > ThresholdLevel then 255 else 0
  }

  /**
   * Conversion to mode "1": true (bit 1) is white. Only the threshold's 0 and
   * 255 reach it, and they map to black and white exactly.
   */
  function WhiteBit(v: int): (white: bool)
    requires v == 0 || v == 255
    ensures white <==> v == 255
  {
    v >= 128
  }

  /** One bit per pixel, row-major; true is white. */
  type Bitmap = seq<seq<bool>>

  predicate HasWidth(rows: Bitmap, w: nat)
  {
    forall y | 0 <= y < |rows| :: |rows[y]| == w
  }

  /** The one-bit image of g: a pixel is white exactly when its grey value exceeds 190. */
  function Monochrome(g: Grey): (bmp: Bitmap)
    ensures |bmp| == g.height && HasWidth(bmp, g.width)
    ensures forall y, x | 0 <= y < g.height && 0 <= x < g.width ::
              bmp[y][x] <==> g.rows[y][x] > ThresholdLevel
  {
    seq(g.height, y requires 0 <= y < g.height =>
      seq(g.width, x requires 0 <= x < g.width => WhiteBit(ThresholdSample(g.rows[y][x]))))
  }

  /** `(width + 7) // 8`: the number of bytes that hold a row of width pixels. */
  function WidthBytes(w: nat): (n: nat)
    ensures w <= 8 * n < w + 8
  {
    (w + 7) / 8
  }

  /** A row extended with pad bits up to the next byte boundary. */
  function PadRow(row: seq<bool>, pad: bool): (r: seq<bool>)
    ensures |r| == 8 * WidthBytes(|row|)
    ensures forall x | 0 <= x < |r| :: r[x] == if x < |row| then row[x] else pad
  {
    row + seq(8 * WidthBytes(|row|) - |row|, _ => pad)
  }

  /** The number whose binary digits are bits, the first bit most significant. */
  function BitsValue(bits: seq<bool>): (v: nat)
    ensures v < Pow2(|bits|)
  {
    if bits == [] then 0
    else 2 * BitsValue(bits[..|bits| - 1]) + (if bits[|bits| - 1] then 1 else 0)
  }

  lemma {:induction false} BitsValueBit(bits: seq<bool>, j: nat)
    requires j < |bits|
    ensures LowBit(BitsValue(bits), j) == bits[|bits| - 1 - j]
  {
    if j > 0 {
      var prefix := bits[..|bits| - 1];
      assert BitsValue(bits) / 2 == BitsValue(prefix);
      BitsValueBit(prefix, j - 1);
    }
  }

  /** Eight bits into one byte, the first bit in the most significant place. */
  function PackByte(bits: seq<bool>): (b: Byte)
    requires |bits| == 8
    ensures forall k | 0 <= k < 8 :: BitOf(b, k) == bits[k]
  {
    assert Pow2(8) == 256;
    forall k | 0 <= k < 8 ensures LowBit(BitsValue(bits), 7 - k) == bits[k] {
      BitsValueBit(bits, 7 - k);
    }
    BitsValue(bits) as Byte
  }

  /** A bit string whose length is a multiple of 8, eight bits per byte. */
  function PackBits(bits: seq<bool>): (r: seq<Byte>)
    requires |bits| % 8 == 0
    ensures 8 * |r| == |bits|
    decreases |bits|
  {
    if bits == [] then [] else [PackByte(bits[..8])] + PackBits(bits[8..])
  }

  /** Bit i of the string is bit i % 8 of byte i / 8. */
  lemma {:induction false} PackBitsAt(bits: seq<bool>, i: nat)
    requires |bits| % 8 == 0 && i < |bits|
    ensures i / 8 < |PackBits(bits)|
    ensures BitOf(PackBits(bits)[i / 8], i % 8) == bits[i]
    decreases |bits|
  {
    if i < 8 {
      assert PackBits(bits)[0] == PackByte(bits[..8]);
    } else {
      PackBitsAt(bits[8..], i - 8);
      assert (i - 8) / 8 == i / 8 - 1 && (i - 8) % 8 == i % 8;
    }
  }

  /** `im.tobytes()` of a mode "1" image: each row padded and packed, rows in order. */
  function PackRows(rows: Bitmap, pad: bool): (r: seq<Byte>)
    ensures rows == [] ==> r == []
    ensures |rows| == 1 ==> r == PackBits(PadRow(rows[0], pad))
  {
    if rows == [] then [] else PackBits(PadRow(rows[0], pad)) + PackRows(rows[1..], pad)
  }

  /** Where row y of a bitmap starts in its packed bytes: y rows of widthBytes each. */
  function RowStart(y: nat, widthBytes: nat): (i: nat)
    ensures y > 0 ==> widthBytes <= i
  {
    if y == 0 then 0 else widthBytes + RowStart(y - 1, widthBytes)
  }

  /** Row y starts at byte y * widthBytes. */
  lemma {:induction false} RowStartProduct(y: nat, widthBytes: nat)
    ensures RowStart(y, widthBytes) == y * widthBytes
  {
    if y > 0 {
      RowStartProduct(y - 1, widthBytes);
    }
  }

  lemma {:induction false} PackRowsLength(rows: Bitmap, w: nat, pad: bool)
    requires HasWidth(rows, w)
    ensures |PackRows(rows, pad)| == RowStart(|rows|, WidthBytes(w))
  {
    if rows != [] {
      assert HasWidth(rows[1..], w);
      PackRowsLength(rows[1..], w, pad);
    }
  }

  /** The packed bytes of a non-empty bitmap: its first row's widthBytes bytes, then the rest. */
  lemma PackRowsCons(rows: Bitmap, w: nat, pad: bool)
    requires HasWidth(rows, w) && rows != []
    ensures |PackBits(PadRow(rows[0], pad))| == WidthBytes(w)
    ensures PackRows(rows, pad) == PackBits(PadRow(rows[0], pad)) + PackRows(rows[1..], pad)
    ensures HasWidth(rows[1..], w)
  {
  }

  /** Byte j of row y sits at y * widthBytes + j. */
  lemma {:induction false} PackRowsByte(rows: Bitmap, w: nat, pad: bool, y: nat, j: nat)
    requires HasWidth(rows, w) && y < |rows| && j < WidthBytes(w)
    ensures RowStart(y, WidthBytes(w)) + j < |PackRows(rows, pad)|
    ensures PackRows(rows, pad)[RowStart(y, WidthBytes(w)) + j] == PackBits(PadRow(rows[y], pad))[j]
  {
    PackRowsCons(rows, w, pad);
    if y > 0 {
      PackRowsByte(rows[1..], w, pad, y - 1, j);
      assert rows[1..][y - 1] == rows[y];
    }
  }

  /**
   * Pixel (y, x) is bit x % 8 of byte y * widthBytes + x / 8 (RowStartProduct
   * gives the product form); the bits past
   * the width up to the byte boundary are pad bits.
   */
  lemma PackRowsAt(rows: Bitmap, w: nat, pad: bool, y: nat, x: nat)
    requires HasWidth(rows, w) && y < |rows| && x < 8 * WidthBytes(w)
    ensures RowStart(y, WidthBytes(w)) + x / 8 < |PackRows(rows, pad)|
    ensures BitOf(PackRows(rows, pad)[RowStart(y, WidthBytes(w)) + x / 8], x % 8)
            == if x < w then rows[y][x] else pad
  {
    PackRowsByte(rows, w, pad, y, x / 8);
    PackBitsAt(PadRow(rows[y], pad), x);
  }

  /** The raster block's header: command, widthBytes and height, both little-endian. */
  function RasterHeader(widthBytes: nat, height: nat): (h: seq<Byte>)
    requires widthBytes < U16Limit && height < U16Limit
    ensures |h| == 8 && h[..4] == RasterCommand
    ensures FromLittleEndian16(h[4], h[5]) == widthBytes
    ensures FromLittleEndian16(h[6], h[7]) == height
  {
    RasterCommand + LittleEndian16(widthBytes) + LittleEndian16(height)
  }

  /**
   * The GS v 0 block for g, or the empty sequence where `to_bytes(2, ...)`
   * would overflow.
   */
  function EncodeRaster(g: Grey, pad: bool): (r: seq<Byte>)
    ensures r == [] <==> WidthBytes(g.width) >= U16Limit || g.height >= U16Limit
  {
    var widthBytes := WidthBytes(g.width);
    if widthBytes >= U16Limit || g.height >= U16Limit then []
    else RasterBlock(widthBytes, g.height, PackRows(Monochrome(g), pad))
  }

  /** The header followed by the inverted payload. */
  function RasterBlock(widthBytes: nat, height: nat, packed: seq<Byte>): (r: seq<Byte>)
    requires widthBytes < U16Limit && height < U16Limit
    ensures |r| == 8 + |packed| && r[..8] == RasterHeader(widthBytes, height)
    ensures forall i | 0 <= i < |packed| :: r[8 + i] == FlipBits(packed[i])
  {
    RasterHeader(widthBytes, height) + Inverted(packed)
  }

  /** What a printer reads from a raster block: its width in bytes, its height and its bitmap. */
  datatype RasterImage = RasterImage(widthBytes: nat, height: nat, bitmap: seq<Byte>)

  /** Reads a GS v 0 block back, undoing the payload inversion. */
  function DecodeRaster(block: seq<Byte>): Option<RasterImage>
  {
    if |block| < 8 || block[..4] != RasterCommand then None
    else
      var widthBytes := FromLittleEndian16(block[4], block[5]);
      var height := FromLittleEndian16(block[6], block[7]);
      if |block| != 8 + widthBytes * height then None
      else Some(RasterImage(widthBytes, height, Inverted(block[8..])))
  }

  /** A non-empty block is 8 header bytes followed by widthBytes * height payload bytes. */
  lemma EncodeRasterShape(g: Grey, pad: bool)
    requires WidthBytes(g.width) < U16Limit && g.height < U16Limit
    ensures var r := EncodeRaster(g, pad);
      && |r| == 8 + WidthBytes(g.width) * g.height
      && r[..4] == RasterCommand
      && FromLittleEndian16(r[4], r[5]) == WidthBytes(g.width)
      && FromLittleEndian16(r[6], r[7]) == g.height
  {
    PackRowsLength(Monochrome(g), g.width, pad);
    RowStartProduct(g.height, WidthBytes(g.width));
    var r := EncodeRaster(g, pad);
    assert r[..8] == RasterHeader(WidthBytes(g.width), g.height);
  }

  /**
   * Decoding an encoded block gives back its dimensions and, once the payload
   * is re-inverted, exactly the packed bitmap.
   */
  lemma DecodeEncode(g: Grey, pad: bool)
    requires WidthBytes(g.width) < U16Limit && g.height < U16Limit
    ensures DecodeRaster(EncodeRaster(g, pad))
            == Some(RasterImage(WidthBytes(g.width), g.height, PackRows(Monochrome(g), pad)))
  {
    EncodeRasterShape(g, pad);
    var header := RasterHeader(WidthBytes(g.width), g.height);
    var packed := PackRows(Monochrome(g), pad);
    var r := EncodeRaster(g, pad);
    assert r[8..] == Inverted(packed);
    InvertedTwice(packed);
  }

  /**
   * Whether a raster block sets the payload bit of pixel (y, x) of rows
   * widthBytes long: whether the printer prints a dot there.
   */
  predicate DotAt(block: seq<Byte>, widthBytes: nat, y: nat, x: nat)
  {
    var i := 8 + RowStart(y, widthBytes) + x / 8;
    i < |block| && BitOf(block[i], x % 8)
  }

  /** Payload byte i of the block is byte i of the packed bitmap, inverted. */
  lemma PayloadByte(g: Grey, pad: bool, i: nat)
    requires WidthBytes(g.width) < U16Limit && g.height < U16Limit
    requires i < |PackRows(Monochrome(g), pad)|
    ensures 8 + i < |EncodeRaster(g, pad)|
    ensures EncodeRaster(g, pad)[8 + i] == FlipBits(PackRows(Monochrome(g), pad)[i])
  {
    var packed := PackRows(Monochrome(g), pad);
    assert EncodeRaster(g, pad) == RasterBlock(WidthBytes(g.width), g.height, packed);
  }

  /** The dot at (y, x) is the inverse of the packed bitmap's bit there. */
  lemma EncodedBit(g: Grey, pad: bool, y: nat, x: nat)
    requires WidthBytes(g.width) < U16Limit && g.height < U16Limit
    requires y < g.height && x < 8 * WidthBytes(g.width)
    ensures RowStart(y, WidthBytes(g.width)) + x / 8 < |PackRows(Monochrome(g), pad)|
    ensures 8 + RowStart(y, WidthBytes(g.width)) + x / 8 < |EncodeRaster(g, pad)|
    ensures DotAt(EncodeRaster(g, pad), WidthBytes(g.width), y, x)
            == !BitOf(PackRows(Monochrome(g), pad)[RowStart(y, WidthBytes(g.width)) + x / 8], x % 8)
  {
    PackRowsAt(Monochrome(g), g.width, pad, y, x);
    PayloadByte(g, pad, RowStart(y, WidthBytes(g.width)) + x / 8);
  }

  /**
   * After inversion a pixel's bit is 1, a printed dot, exactly when its grey
   * value is 190 or less.
   */
  lemma EncodedPixel(g: Grey, pad: bool, y: nat, x: nat)
    requires WidthBytes(g.width) < U16Limit && g.height < U16Limit
    requires y < g.height && x < g.width
    ensures 8 + RowStart(y, WidthBytes(g.width)) + x / 8 < |EncodeRaster(g, pad)|
    ensures DotAt(EncodeRaster(g, pad), WidthBytes(g.width), y, x) <==> g.rows[y][x] <= ThresholdLevel
  {
    EncodedBit(g, pad, y, x);
    PackRowsAt(Monochrome(g), g.width, pad, y, x);
  }

  /** The bits of a row past its width print as the inverse of the pad bit. */
  lemma EncodedPadding(g: Grey, pad: bool, y: nat, x: nat)
    requires WidthBytes(g.width) < U16Limit && g.height < U16Limit
    requires y < g.height && g.width <= x < 8 * WidthBytes(g.width)
    ensures 8 + RowStart(y, WidthBytes(g.width)) + x / 8 < |EncodeRaster(g, pad)|
    ensures DotAt(EncodeRaster(g, pad), WidthBytes(g.width), y, x) == !pad
  {
    EncodedBit(g, pad, y, x);
    PackRowsAt(Monochrome(g), g.width, pad, y, x);
  }

  /** Exactly 190 is black and 191 is white. */
  lemma ThresholdBoundary()
    ensures !WhiteBit(ThresholdSample(ThresholdLevel))
    ensures WhiteBit(ThresholdSample(ThresholdLevel + 1))
  {
  }
}
