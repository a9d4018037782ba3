/** The 2-pixels-per-byte packing loop of `PaperPowerOn::draw_framebuffer`
    (src/paper.rs): each output byte holds the top four bits of an even
    column's pixel in its low nibble and those of the next column's pixel in
    its high nibble. */
module Paper {
  import opened Wrappers
  import opened Fb

  /** Bytes per packed row. */
  const HALF: int := WIDTH / 2

  /** `v >> 4` on a u8. */
  function Shr4(v: u8): (r: u8)
    ensures r < 16 && v == 16 * r + v % 16
  {
    v / 16
  }

  /** `v << 4` on a u8: the bits shifted past bit 7 are lost. */
  function Shl4(v: u8): (r: u8)
    ensures r % 16 == 0
    ensures v < 16 ==> r == 16 * v
  {
    (v * 16) % 256
  }

  /** Bitwise `|` of two naturals, one bit at a time from the lowest: the
      result has every bit of either operand, so it is at least each of them,
      and no carries, so it is at most their sum. */
  function BitOr(a: nat, b: nat): (r: nat)
    ensures a <= r && b <= r && r <= a + b
  {
    if a == 0 then b
    else if b == 0 then a
    else 2 * BitOr(a / 2, b / 2) + (if a % 2 == 1 || b % 2 == 1 then 1 else 0)
  }

  function Pow2(k: nat): (r: nat)
    ensures r >= 1
  {
    if k == 0 then 1 else 2 * Pow2(k - 1)
  }

  /** Or-ing a value whose low k bits are clear with one below 2^k is
      addition: the bits do not overlap. */
  lemma {:induction false} BitOrDisjoint(h: nat, l: nat, k: nat)
    requires l < Pow2(k)
    ensures BitOr(h * Pow2(k), l) == h * Pow2(k) + l
  {
    var a := h * Pow2(k);
    if a == 0 || l == 0 {
    } else {
      assert k > 0;
      assert a == 2 * (h * Pow2(k - 1));
      assert a / 2 == h * Pow2(k - 1) && a % 2 == 0;
      BitOrDisjoint(h, l / 2, k - 1);
    }
  }

  /** One packed byte, as the loop computes it: `r << 4 | l` with
      `l = left >> 4` and `r = right >> 4`. */
  function PackByte(left: u8, right: u8): (r: nat)
    ensures r == 16 * Shr4(right) + Shr4(left)
  {
    BitOrDisjoint(right / 16, left / 16, 4);
    BitOr(Shl4(Shr4(right)), Shr4(left))
  }

  /** The low nibble of a packed byte is the left pixel's top four bits and
      the high nibble the right pixel's. */
  lemma PackByteNibbles(left: u8, right: u8)
    ensures PackByte(left, right) == 16 * (right / 16) + left / 16
    ensures PackByte(left, right) < 256
    ensures PackByte(left, right) % 16 == left / 16 && PackByte(left, right) / 16 == right / 16
  {
    var hi, lo := right / 16, left / 16;
    var b := PackByte(left, right);
    assert b == 16 * hi + lo && 0 <= lo < 16;
    assert b % 16 == lo && b / 16 == hi;
  }

  /** The packed image of a buffer: byte k packs pixels 2k and 2k+1. */
  function Packed(s: seq<int>): (t: seq<int>)
    requires PixelsOk(s)
    ensures |t| == SIZE / 2
  {
    seq(SIZE / 2, k requires 0 <= k < SIZE / 2 => PackByte(s[2 * k], s[2 * k + 1]))
  }

  /** Byte k of the packed image holds the top four bits of pixel 2k in its
      low nibble and those of pixel 2k + 1 in its high nibble. */
  lemma PackedEntry(s: seq<int>, k: int)
    requires PixelsOk(s)
    requires 0 <= k < SIZE / 2
    ensures Packed(s)[k] < 256
    ensures Packed(s)[k] % 16 == s[2 * k] / 16 && Packed(s)[k] / 16 == s[2 * k + 1] / 16
  {
    assert Packed(s)[k] == PackByte(s[2 * k], s[2 * k + 1]);
    PackByteNibbles(s[2 * k], s[2 * k + 1]);
  }

  /** `get(2x, y)` and `get(2x + 1, y)` read the two pixels of packed byte
      y * (WIDTH / 2) + x. */
  lemma {:induction false} PairLookup(s: seq<int>, x: int, y: int)
    requires |s| == SIZE
    requires 0 <= x < HALF && 0 <= y < HEIGHT
    ensures 0 <= y * HALF + x < SIZE / 2
    ensures Lookup(s, 2 * x, y) == Some(s[2 * (y * HALF + x)])
    ensures Lookup(s, 2 * x + 1, y) == Some(s[2 * (y * HALF + x) + 1])
  {
    assert 2 * (y * HALF + x) == y * WIDTH + 2 * x;
    CheckedIndexSucceeds(2 * x, y);
    CheckedIndexSucceeds(2 * x + 1, y);
  }

  /** Byte y * (WIDTH / 2) + x of the packed image holds `get(2x, y) >> 4`
      in its low nibble and `get(2x + 1, y) >> 4` in its high nibble. */
  lemma {:induction false} PackedAt(s: seq<int>, x: int, y: int)
    requires PixelsOk(s)
    requires 0 <= x < HALF && 0 <= y < HEIGHT
    ensures Lookup(s, 2 * x, y).Some? && Lookup(s, 2 * x + 1, y).Some?
    ensures 0 <= y * HALF + x < SIZE / 2
    ensures Packed(s)[y * HALF + x] % 16 == Lookup(s, 2 * x, y).value / 16
    ensures Packed(s)[y * HALF + x] / 16 == Lookup(s, 2 * x + 1, y).value / 16
    ensures Packed(s)[y * HALF + x] < 256
  {
    PairLookup(s, x, y);
    PackedEntry(s, y * HALF + x);
  }

  /** An all-white buffer packs to 0xFF everywhere, an all-black one to 0x00. */
  lemma {:induction false} PackedExtremes(s: seq<int>)
    requires PixelsOk(s)
    ensures s == Blank() ==> forall k :: 0 <= k < SIZE / 2 ==> Packed(s)[k] == 0xFF
    ensures (forall i :: 0 <= i < SIZE ==> s[i] == BLACK) ==> forall k :: 0 <= k < SIZE / 2 ==> Packed(s)[k] == 0x00
  {
    PackByteNibbles(WHITE, WHITE);
    PackByteNibbles(BLACK, BLACK);
  }

  /** The packing loop of `draw_framebuffer`: allocate `WIDTH / 2 * HEIGHT`
      zero bytes and fill them row by row, each index exactly once. */
  method PackFramebuffer(fb: Framebuffer) returns (packed: array<int>)
    requires fb.Valid()
    ensures fresh(packed)
    ensures packed[..] == Packed(fb.data[..])
  {
    ghost var s := fb.data[..];
    assert WIDTH % 2 == 0;
    packed := new int[WIDTH / 2 * HEIGHT](_ => 0);
    var y := 0;
    while y < HEIGHT
      invariant 0 <= y <= HEIGHT
      invariant fb.Valid() && fb.data[..] == s
      invariant forall k :: 0 <= k < y * HALF ==> packed[k] == Packed(s)[k]
    {
      PackRow(fb, packed, y, s);
      y := y + 1;
    }
  }

  /** The inner loop of the packing loop for row y: it writes exactly the
      bytes y * (WIDTH / 2) .. y * (WIDTH / 2) + WIDTH / 2 - 1, each to its
      packed value. */
  method PackRow(fb: Framebuffer, packed: array<int>, y: int, ghost s: seq<int>)
    requires fb.Valid() && fb.data[..] == s
    requires packed.Length == SIZE / 2 && 0 <= y < HEIGHT
    modifies packed
    ensures forall k :: 0 <= k < packed.Length ==>
      packed[k] == if y * HALF <= k < y * HALF + HALF then Packed(s)[k] else old(packed[k])
  {
    var x := 0;
    while x < WIDTH / 2
      invariant 0 <= x <= HALF
      invariant forall k :: 0 <= k < packed.Length ==>
        packed[k] == if y * HALF <= k < y * HALF + x then Packed(s)[k] else old(packed[k])
    {
      var packedIdx := y * (WIDTH / 2) + x;
      PairLookup(s, x, y);
      assert fb.Get(2 * x, y) == Lookup(s, 2 * x, y) && fb.Get(2 * x + 1, y) == Lookup(s, 2 * x + 1, y);
      var l := Shr4(fb.Get(2 * x, y).value);
      var r := Shr4(fb.Get(2 * x + 1, y).value);
      var combined := BitOr(Shl4(r), l);
      assert combined == Packed(s)[packedIdx];
      packed[packedIdx] := combined;
      x := x + 1;
    }
  }
}
