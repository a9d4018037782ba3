/** The grayscale canvas of src/fb.rs: WIDTH x HEIGHT bytes stored row-major,
    255 is white and 0 is black. */
module Fb {
  import opened Wrappers

  /** Rust's `i32`, the type of every coordinate. */
  type i32 = v: int | -0x8000_0000 <= v < 0x8000_0000
  /** Rust's `u8`, the type of a pixel. */
  type u8 = v: int | 0 <= v < 0x100

  const WIDTH: int := 960
  const HEIGHT: int := 540
  /** Number of pixels, the length of the buffer. */
  const SIZE: int := WIDTH * HEIGHT
  const WHITE: u8 := 255
  const BLACK: u8 := 0

  datatype Paint = Darken | Lighten

  datatype Rect = Rect(x: i32, y: i32, w: i32, h: i32)

  predicate InI32(v: int) {
    -0x8000_0000 <= v < 0x8000_0000
  }

  /** The canvas test of `inside`: a point on the canvas has a linear index
      inside the buffer, and its row offset cannot overflow i32. */
  predicate Inside(x: int, y: int)
    ensures Inside(x, y) ==> InI32(y * WIDTH) && 0 <= y * WIDTH + x < SIZE
  {
    0 <= x < WIDTH && 0 <= y < HEIGHT
  }

  /** Column and row of the pixel stored at linear index i. */
  function Col(i: int): int { i % WIDTH }
  function Row(i: int): int { i / WIDTH }

  /** A buffer the firmware can hold: SIZE samples, each a byte. */
  ghost predicate PixelsOk(s: seq<int>) {
    |s| == SIZE && forall i :: 0 <= i < |s| ==> 0 <= s[i] < 0x100
  }

  /** The all-white buffer of `new` and `clear`. */
  function Blank(): seq<int> {
    seq(SIZE, _ => WHITE)
  }

  /** The position lookup shared by `get` and `set`: `y * WIDTH` and then `+ x`
      are checked i32 operations, the sum must convert to `usize` (be
      non-negative) and must index the buffer. None is the `expect` panic. */
  function CheckedIndex(x: i32, y: i32): (r: Option<nat>)
    ensures r.Some? ==> r.value < SIZE
  {
    var scaled := y * WIDTH;
    if !InI32(scaled) then None
    else
      var sum := scaled + x;
      if !InI32(sum) then None
      else if sum < 0 then None
      else if sum >= SIZE then None
      else Some(sum)
  }

  /** `get` on a buffer with contents s; None is the panic. */
  function Lookup(s: seq<int>, x: i32, y: i32): (r: Option<int>)
    requires |s| == SIZE
    ensures r.Some? <==> InI32(y * WIDTH) && 0 <= y * WIDTH + x < SIZE
    ensures Inside(x, y) ==> r == Some(s[y * WIDTH + x])
  {
    match CheckedIndex(x, y)
    case Some(i) => Some(s[i])
    case None => None
  }

  /** `get`/`set` succeed exactly when `y * WIDTH` does not overflow i32 and
      `y * WIDTH + x` lies in [0, SIZE); the overflow check of the sum never
      fires on its own. */
  lemma CheckedIndexSucceeds(x: i32, y: i32)
    ensures CheckedIndex(x, y).Some? <==> InI32(y * WIDTH) && 0 <= y * WIDTH + x < SIZE
    ensures CheckedIndex(x, y).Some? ==> CheckedIndex(x, y).value == y * WIDTH + x
  {
  }

  /** The coordinates decoded from an index are the ones that produced it. */
  lemma {:induction false} IndexCoords(x: int, y: int)
    requires Inside(x, y)
    ensures 0 <= y * WIDTH + x < SIZE
    ensures Col(y * WIDTH + x) == x && Row(y * WIDTH + x) == y
  {
    var i := y * WIDTH + x;
    assert i == WIDTH * y + x;
    assert i / WIDTH == y && i % WIDTH == x;
  }

  /** Every index of the buffer is the index of an on-canvas pixel. */
  lemma {:induction false} CoordsOfIndex(i: int)
    requires 0 <= i < SIZE
    ensures Inside(Col(i), Row(i)) && i == Row(i) * WIDTH + Col(i)
  {
  }

  /** `inside(x, y)` holds exactly for the points whose checked index exists
      and decodes back to (x, y); any other point either panics or aliases a
      different pixel. */
  lemma InsideIffOwnPixel(x: i32, y: i32)
    ensures Inside(x, y) <==>
      (CheckedIndex(x, y).Some? && Col(CheckedIndex(x, y).value) == x && Row(CheckedIndex(x, y).value) == y)
  {
    if Inside(x, y) {
      IndexCoords(x, y);
    } else if CheckedIndex(x, y).Some? {
      CoordsOfIndex(CheckedIndex(x, y).value);
    }
  }

  /** The panic is about the linear index, not the canvas: (-1, 1) is off the
      canvas yet reads the last pixel of row 0. */
  lemma OffCanvasAliases(s: seq<int>)
    requires |s| == SIZE
    ensures !Inside(-1, 1) && Lookup(s, -1, 1) == Some(s[WIDTH - 1])
  {
  }

  /** `y * WIDTH` overflowing i32 panics even when `y * WIDTH + x`, computed
      exactly, would be a valid index. */
  lemma MulOverflowPanics()
    ensures 0 <= 2236963 * WIDTH + (-0x8000_0000) < SIZE
    ensures CheckedIndex(-0x8000_0000, 2236963) == None
  {
  }

  /** Rust's `saturating_sub` (Darken) and `saturating_add` (Lighten) on u8. */
  function Saturate(p: Paint, before: u8, v: u8): (r: u8)
    ensures p == Darken ==> r == Clamp(before - v) && r <= before
    ensures p == Lighten ==> r == Clamp(before + v) && r >= before
    ensures v == 0 ==> r == before
  {
    match p
    case Darken => if before < v then 0 else before - v
    case Lighten => if before > 255 - v then 255 else before + v
  }

  /** The byte range limits, applied to an exact integer. */
  function Clamp(z: int): int {
    if z < 0 then 0 else if z > 255 then 255 else z
  }

  /** Painting with the full intensity `u8::MAX` drives a pixel to the
      paint's extreme, whatever it was. */
  function Extreme(p: Paint): u8 {
    match p
    case Darken => BLACK
    case Lighten => WHITE
  }

  lemma SaturateFull(p: Paint, before: u8)
    ensures Saturate(p, before, 255) == Extreme(p)
    ensures Saturate(p, Extreme(p), 255) == Extreme(p)
  {
  }

  /** The contents after `paint(p, x, y, v)`: the pixel at column x and row y,
      if there is one, is saturated; every other pixel keeps its value. */
  function Painted(s: seq<int>, p: Paint, x: int, y: int, v: u8): seq<int>
    requires PixelsOk(s)
  {
    seq(SIZE, i requires 0 <= i < SIZE => if Col(i) == x && Row(i) == y then Saturate(p, s[i], v) else s[i])
  }

  /** `paint` keeps every sample a byte, and off the canvas changes nothing. */
  lemma {:induction false} PaintedSpec(s: seq<int>, p: Paint, x: int, y: int, v: u8)
    requires PixelsOk(s)
    ensures PixelsOk(Painted(s, p, x, y, v))
    ensures !Inside(x, y) ==> Painted(s, p, x, y, v) == s
    ensures Inside(x, y) ==> Painted(s, p, x, y, v) == s[y * WIDTH + x := Saturate(p, s[y * WIDTH + x], v)]
  {
    var r := Painted(s, p, x, y, v);
    if !Inside(x, y) {
      forall i | 0 <= i < SIZE ensures r[i] == s[i] {
        CoordsOfIndex(i);
      }
    } else {
      IndexCoords(x, y);
      forall i | 0 <= i < SIZE
        ensures r[i] == s[y * WIDTH + x := Saturate(p, s[y * WIDTH + x], v)][i]
      {
        CoordsOfIndex(i);
      }
    }
  }

  predicate InRect(r: Rect, x: int, y: int) {
    r.x <= x < r.x + r.w && r.y <= y < r.y + r.h
  }

  /** The contents after `rect(p, r)`: every pixel of the canvas inside the
      half-open rectangle takes the paint's extreme, every other keeps its
      value. */
  function Filled(s: seq<int>, p: Paint, r: Rect): (t: seq<int>)
    requires |s| == SIZE
    ensures |t| == SIZE
  {
    seq(SIZE, i requires 0 <= i < SIZE => if InRect(r, Col(i), Row(i)) then Extreme(p) else s[i])
  }

  /** `rect` is idempotent and an empty rectangle changes nothing. */
  lemma {:induction false} FilledIdempotent(s: seq<int>, p: Paint, r: Rect)
    requires |s| == SIZE
    ensures Filled(Filled(s, p, r), p, r) == Filled(s, p, r)
    ensures r.w <= 0 || r.h <= 0 ==> Filled(s, p, r) == s
  {
    var once := Filled(s, p, r);
    assert forall i | 0 <= i < SIZE :: Filled(once, p, r)[i] == once[i];
    if r.w <= 0 || r.h <= 0 {
      assert forall i | 0 <= i < SIZE :: once[i] == s[i];
    }
  }

  /** `rect` keeps every sample a byte. */
  lemma FilledPixelsOk(s: seq<int>, p: Paint, r: Rect)
    requires PixelsOk(s)
    ensures PixelsOk(Filled(s, p, r))
  {
  }

  /** The part of a rectangle the nested loops of `rect` have painted once
      columns [r.x, px) are done and column px is done for rows [r.y, py). */
  predicate Painting(r: Rect, px: int, py: int, c: int, row: int) {
    (r.x <= c < px && r.y <= row < r.y + r.h) || (c == px && r.y <= row < py)
  }

  class Framebuffer {
    var data: array<int>

    ghost predicate Valid()
      reads this, data
    {
      PixelsOk(data[..])
    }

    /** `Framebuffer::new`: a fresh all-white buffer. */
    constructor ()
      ensures Valid() && fresh(data)
      ensures data[..] == Blank()
    {
      data := new int[SIZE](_ => WHITE);
    }

    /** `clear`: fill the buffer with white. */
    method Clear()
      requires Valid()
      modifies data
      ensures Valid()
      ensures data[..] == Blank()
    {
      forall i | 0 <= i < data.Length {
        data[i] := WHITE;
      }
    }

    /** `get`; None is the "position outside framebuffer" panic. */
    function Get(x: i32, y: i32): (r: Option<u8>)
      reads this, data
      requires Valid()
      ensures r.Some? <==> CheckedIndex(x, y).Some?
      ensures Inside(x, y) ==> r == Some(data[y * WIDTH + x])
    {
      match CheckedIndex(x, y)
      case Some(i) => Some(data[i])
      case None => None
    }

    /** `set`; ok is false exactly where the Rust code panics, and then
        nothing is written. */
    method Set(x: i32, y: i32, val: u8) returns (ok: bool)
      requires Valid()
      modifies data
      ensures Valid()
      ensures ok <==> CheckedIndex(x, y).Some?
      ensures ok ==> data[..] == old(data[..])[CheckedIndex(x, y).value := val]
      ensures !ok ==> data[..] == old(data[..])
    {
      var pos := CheckedIndex(x, y);
      if pos.Some? {
        data[pos.value] := val;
        ok := true;
      } else {
        ok := false;
      }
    }

    /** `paint`: saturating darken or lighten of one on-canvas pixel. */
    method Paint(p: Paint, x: i32, y: i32, val: u8)
      requires Valid()
      modifies data
      ensures Valid()
      ensures data[..] == Painted(old(data[..]), p, x, y, val)
    {
      PaintedSpec(data[..], p, x, y, val);
      if Inside(x, y) {
        var before := Get(x, y).value;
        var after := Saturate(p, before, val);
        var _ := Set(x, y, after);
      }
    }

    /** `rect`: paint every point of [x, x+w) x [y, y+h) with `u8::MAX`,
        column by column; points off the canvas are clipped by `paint`. */
    method Rect(p: Paint, r: Rect)
      requires Valid()
      requires InI32(r.x + r.w) && (r.w > 0 ==> InI32(r.y + r.h))
      modifies data
      ensures Valid()
      ensures data[..] == Filled(old(data[..]), p, r)
    {
      ghost var s := data[..];
      var px := r.x;
      while px < r.x + r.w
        invariant r.x <= px && (r.w > 0 ==> px <= r.x + r.w) && (r.w <= 0 ==> px == r.x)
        invariant Valid()
        invariant forall i :: 0 <= i < SIZE ==>
          data[i] == if Painting(r, px, r.y, Col(i), Row(i)) then Extreme(p) else s[i]
      {
        var py := r.y;
        while py < r.y + r.h
          invariant r.y <= py && (r.h > 0 ==> py <= r.y + r.h) && (r.h <= 0 ==> py == r.y)
          invariant Valid()
          invariant forall i :: 0 <= i < SIZE ==>
            data[i] == if Painting(r, px, py, Col(i), Row(i)) then Extreme(p) else s[i]
        {
          ghost var before := data[..];
          Paint(p, px, py, 255);
          forall i | 0 <= i < SIZE
            ensures data[i] == if Painting(r, px, py + 1, Col(i), Row(i)) then Extreme(p) else s[i]
          {
            assert data[i] == Painted(before, p, px, py, 255)[i];
          }
          py := py + 1;
        }
        assert forall c, row :: Painting(r, px, py, c, row) == Painting(r, px + 1, r.y, c, row);
        px := px + 1;
      }
      assert forall i | 0 <= i < SIZE :: data[..][i] == Filled(s, p, r)[i];
    }
  }
}
