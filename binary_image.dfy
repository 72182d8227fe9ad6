/** The packed one-bit-per-pixel image (BinaryImage): every row is a run of
    32-bit words, and pixel x of a row is bit `(1 << 31) >> (x & 31)` of
    word `x >> 5`, i.e. the most significant bit comes first. A set bit is a
    black (foreground) pixel. */
module BinaryImages {

  datatype BinaryImage = BinaryImage(width: nat, height: nat, wordsPerLine: nat, lines: seq<seq<bv32>>)
  {
    /** The representation invariant: one row per line, each row exactly
        wordsPerLine words long, and enough words for width bits. */
    predicate Valid() {
      && |lines| == height
      && width <= wordsPerLine * 32
      && forall y :: 0 <= y < |lines| ==> |lines[y]| == wordsPerLine
    }

    /** A pass over w columns and h rows stays inside this image's words. */
    predicate Covers(w: nat, h: nat) {
      Valid() && h <= height && w <= wordsPerLine * 32
    }
  }

  /** `uint32_t(1) << 31`, the mask of the first pixel of a word. */
  const Msb: bv32 := 0x8000_0000

  /** `x & 31`: the position of pixel x inside its word. */
  function Offset(x: nat): bv5 {
    (x % 32) as bv5
  }

  /** The test `line[x >> 5] & (msb >> (x & 31))` of every routine. */
  predicate BitSet(line: seq<bv32>, x: nat)
    requires x / 32 < |line|
  {
    line[x / 32] & (Msb >> Offset(x)) != 0
  }

  /** Pixel (y, x) of an image that covers it. */
  predicate PixelSet(b: BinaryImage, y: nat, x: nat)
    requires b.Valid() && y < b.height && x < b.wordsPerLine * 32
  {
    BitSet(b.lines[y], x)
  }

  /** Shifting the word down by `31 - (x & 31)` and masking with 1 yields
      the same bit the mask test looks at. */
  lemma ShiftedBit(word: bv32, s: bv5)
    ensures (word >> (31 - s)) & 1 == (if word & (Msb >> s) != 0 then 1 else 0)
  {
  }

  /** The colour the mono routines derive from the word that holds pixel x:
      the bit is shifted down, masked to 0 or 1, decremented with 32-bit
      wrap-around and OR-ed with 0xff000000. A set bit gives opaque black,
      a clear bit gives 0xffffffff (opaque white). */
  function MonoColor(word: bv32, s: bv5): (r: bv32)
    ensures word & (Msb >> s) != 0 ==> r == 0xff00_0000
    ensures word & (Msb >> s) == 0 ==> r == 0xffff_ffff
  {
    var tmp := (word >> (31 - s)) & 1;
    ShiftedBit(word, s);
    (tmp - 1) | 0xff00_0000
  }

  /** `static_cast<uint8_t>`: the low byte of a 32-bit value. */
  function Low8(v: bv32): bv8 {
    (v & 0xff) as bv8
  }

  /** `static_cast<uint32_t>` of a 32-bit value: the value itself. */
  function Same32(v: bv32): bv32 {
    v
  }
}
