/**
 * Byte-level vocabulary of the Epson ESC/POS command set as the print agent
 * uses it: the fixed command sequences, 16-bit little-endian fields and the
 * bitwise view of a byte.
 */
module EscPos {
  newtype Byte = x: int | 0 <= x < 256

  /** ESC p 0 25 250: pulse the cash-drawer kick connector on pin 2. */
  const DrawerKick: seq<Byte> := [0x1B, 0x70, 0x00, 0x19, 0xFA]

  /** ESC a 1: centre justification. */
  const AlignCenter: seq<Byte> := [0x1B, 0x61, 0x01]

  /** ESC a 0: left justification. */
  const AlignLeft: seq<Byte> := [0x1B, 0x61, 0x00]

  /** GS v 0 with m = 0: print a raster bit image at normal density. */
  const RasterCommand: seq<Byte> := [0x1D, 0x76, 0x30, 0x00]

  /** One more than the largest value a 2-byte field holds. */
  const U16Limit: nat := 0x1_0000

  /** The value of the 16-bit little-endian field lo, hi. */
  function FromLittleEndian16(lo: Byte, hi: Byte): (n: nat)
    ensures n < U16Limit
  {
    lo as nat + 256 * hi as nat
  }

  /** `n.to_bytes(2, "little")`; larger values overflow, so callers check first. */
  function LittleEndian16(n: nat): (r: seq<Byte>)
    requires n < U16Limit
    ensures |r| == 2 && FromLittleEndian16(r[0], r[1]) == n
  {
    [(n % 256) as Byte, (n / 256) as Byte]
  }

  function Pow2(m: nat): (p: nat)
    ensures p >= 1
  {
    if m == 0 then 1 else 2 * Pow2(m - 1)
  }

  /** Bit j of v, counting from the least significant bit (j = 0). */
  predicate LowBit(v: nat, j: nat)
  {
    if j == 0 then v % 2 == 1 else LowBit(v / 2, j - 1)
  }

  /** Bit k of b, counting from the most significant bit (k = 0). */
  predicate BitOf(b: Byte, k: nat)
    requires k < 8
  {
    LowBit(b as nat, 7 - k)
  }

  /** In an m-bit value, subtracting from all ones flips each of the m bits. */
  lemma {:induction false} ComplementBit(m: nat, v: nat, j: nat)
    requires v < Pow2(m) && j < m
    ensures LowBit(Pow2(m) - 1 - v, j) == !LowBit(v, j)
  {
    var half := Pow2(m - 1);
    var q, r := v / 2, v % 2;
    assert Pow2(m) - 1 - v == 2 * (half - 1 - q) + (1 - r);
    if j > 0 {
      assert (Pow2(m) - 1 - v) / 2 == half - 1 - q;
      ComplementBit(m - 1, q, j - 1);
    }
  }

  /** `b ^ 0xFF`: on an 8-bit value, XOR with all ones is 255 - b. */
  function FlipBits(b: Byte): (r: Byte)
    ensures forall k | 0 <= k < 8 :: BitOf(r, k) == !BitOf(b, k)
  {
    assert Pow2(8) == 256;
    forall k | 0 <= k < 8 ensures BitOf(255 - b, k) == !BitOf(b, k) {
      ComplementBit(8, b as nat, 7 - k);
    }
    255 - b
  }

  /** Every byte of s XORed with 0xFF. */
  function Inverted(s: seq<Byte>): (r: seq<Byte>)
    ensures |r| == |s|
  {
    seq(|s|, i requires 0 <= i < |s| => FlipBits(s[i]))
  }

  /** Inverting twice gives back the original bytes. */
  lemma InvertedTwice(s: seq<Byte>)
    ensures |Inverted(s)| == |s|
    ensures Inverted(Inverted(s)) == s
  {
  }
}
