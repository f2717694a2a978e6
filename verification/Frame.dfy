/**
 * Pixel geometry of captured frames: undoing the eight `wl_output.transform` values and
 * flipping rows. A pixel is one group of four bytes, so pixel `i` is at byte `4 * i`.
 */
module Frame {
  import opened Common

  datatype Pixel = Pixel(r: Byte, g: Byte, b: Byte, a: Byte)

  datatype Transform =
    Normal | Rotated90 | Rotated180 | Rotated270 | Flipped | Flipped90 | Flipped180 | Flipped270 | Unknown

  datatype Point = Point(x: nat, y: nat)
  datatype Size = Size(w: nat, h: nat)

  predicate Inside(p: Point, s: Size) {
    p.x < s.w && p.y < s.h
  }

  predicate SwapsAxes(t: Transform) {
    t.Rotated90? || t.Rotated270? || t.Flipped90? || t.Flipped270?
  }

  /** The size of the buffer `t` makes of an image, and of the image it came from. */
  function Turned(t: Transform, s: Size): Size {
    if SwapsAxes(t) then Size(s.h, s.w) else s
  }

  /** Where the upright pixel `p` of an image of size `s` ends up in the buffer. */
  function Forward(t: Transform, p: Point, s: Size): (q: Point)
    requires Inside(p, s)
    ensures Inside(q, Turned(t, s))
  {
    match t
    case Normal => p
    case Rotated90 => Point(p.y, s.w - 1 - p.x)
    case Rotated180 => Point(s.w - 1 - p.x, s.h - 1 - p.y)
    case Rotated270 => Point(s.h - 1 - p.y, p.x)
    case Flipped => Point(s.w - 1 - p.x, p.y)
    case Flipped90 => Point(p.y, p.x)
    case Flipped180 => Point(p.x, s.h - 1 - p.y)
    case Flipped270 => Point(s.h - 1 - p.y, s.w - 1 - p.x)
    case Unknown => p
  }

  /** 90 and 270 undo each other; the rest undo themselves. */
  function Inverse(t: Transform): Transform {
    match t
    case Rotated90 => Rotated270
    case Rotated270 => Rotated90
    case _ => t
  }

  lemma ForwardInverts(t: Transform, p: Point, s: Size)
    requires Inside(p, s)
    ensures Turned(Inverse(t), Turned(t, s)) == s
    ensures Forward(Inverse(t), Forward(t, p, s), Turned(t, s)) == p
  {
  }

  /** `forward` is a bijection from the image onto the buffer. */
  lemma ForwardIsBijection(t: Transform, s: Size, p: Point, p': Point, q: Point)
    requires Inside(p, s) && Inside(p', s) && Inside(q, Turned(t, s))
    ensures Forward(t, p, s) == Forward(t, p', s) ==> p == p'
    ensures var back := Forward(Inverse(t), q, Turned(t, s)); Inside(back, s) && Forward(t, back, s) == q
  {
  }

  // ----- Which way the image turns -----

  /** Twice the distance of a pixel from the centre, to the right and downwards. */
  function Right(p: Point, s: Size): int {
    2 * p.x - (s.w - 1)
  }

  function Down(p: Point, s: Size): int {
    2 * p.y - (s.h - 1)
  }

  /** 90 is a quarter turn counter-clockwise about the centre: what was right is up. */
  lemma QuarterTurn(p: Point, s: Size)
    requires Inside(p, s)
    ensures var q, t := Forward(Rotated90, p, s), Turned(Rotated90, s);
            t == Size(s.h, s.w) && Down(q, t) == -Right(p, s) && Right(q, t) == Down(p, s)
  {
  }

  /** `flipped` mirrors about the vertical axis. */
  lemma Mirror(p: Point, s: Size)
    requires Inside(p, s)
    ensures var q := Forward(Flipped, p, s);
            Turned(Flipped, s) == s && Right(q, s) == -Right(p, s) && Down(q, s) == Down(p, s)
  {
  }

  /** 180 is two quarter turns and 270 three; `flipped_N` is `flipped` and then N. */
  lemma TurnsCompose(p: Point, s: Size)
    requires Inside(p, s)
    ensures var once := Forward(Rotated90, p, s);
            var twice := Forward(Rotated90, once, Turned(Rotated90, s));
            && Forward(Rotated180, p, s) == twice
            && Forward(Rotated270, p, s) == Forward(Rotated90, twice, s)
            && Forward(Normal, p, s) == p && Forward(Unknown, p, s) == p
    ensures var m := Forward(Flipped, p, s);
            && Forward(Flipped90, p, s) == Forward(Rotated90, m, s)
            && Forward(Flipped180, p, s) == Forward(Rotated180, m, s)
            && Forward(Flipped270, p, s) == Forward(Rotated270, m, s)
  {
  }

  // ----- Row-major indices -----

  function Index(p: Point, s: Size): (i: nat)
    requires Inside(p, s)
    ensures i < s.w * s.h
  {
    RowFits(p.y, s.h, s.w);
    p.y * s.w + p.x
  }

  function Place(i: nat, s: Size): (p: Point)
    requires i < s.w * s.h
    ensures Inside(p, s) && Index(p, s) == i
  {
    assert s.w > 0;
    RowOf(i, s.w, s.h);
    Point(i % s.w, i / s.w)
  }

  lemma RowFits(y: nat, h: nat, w: nat)
    requires y < h
    ensures y * w + w <= w * h
  {
    assert (y + 1) * w <= h * w;
  }

  lemma RowOf(i: nat, w: nat, h: nat)
    requires 0 < w && i < w * h
    ensures i / w < h && i == (i / w) * w + i % w
  {
    var y := i / w;
    assert i == w * y + i % w;
    assert y >= h ==> w * y >= w * h;
  }

  lemma PlaceOf(p: Point, s: Size)
    requires Inside(p, s)
    ensures Index(p, s) < s.w * s.h && Place(Index(p, s), s) == p
  {
    DivMod(p.y, p.x, s.w);
  }

  lemma DivMod(y: nat, x: nat, w: nat)
    requires x < w
    ensures (y * w + x) / w == y && (y * w + x) % w == x
  {
    var i := y * w + x;
    var q := i / w;
    assert i == w * q + i % w;
    assert w * (q - y) == x - i % w;
    NearZero(w, q - y);
  }

  // ----- Undoing a transform -----

  /** Index in the buffer of the pixel that belongs at upright index `i`. */
  function Source(t: Transform, i: nat, up: Size): (j: nat)
    requires i < up.w * up.h
    ensures j < Turned(t, up).w * Turned(t, up).h
  {
    Index(Forward(t, Place(i, up), up), Turned(t, up))
  }

  function Untransformed(buf: seq<Pixel>, s: Size, t: Transform): (out: seq<Pixel>)
    requires |buf| == s.w * s.h
    ensures |out| == Turned(t, s).w * Turned(t, s).h
  {
    var up := Turned(t, s);
    assert Turned(t, up) == s;
    seq(up.w * up.h, i requires 0 <= i < up.w * up.h => buf[Source(t, i, up)])
  }

  /** The gather step for one pixel of row `y`. */
  lemma RowSource(t: Transform, up: Size, y: nat, x: nat, at: nat)
    requires x < up.w && y < up.h && at == y * up.w
    ensures at + x < up.w * up.h
    ensures Source(t, at + x, up) == Index(Forward(t, Point(x, y), up), Turned(t, up))
  {
    RowFits(y, up.h, up.w);
    PlaceOf(Point(x, y), up);
  }

  lemma NextRow(y: nat, w: nat, at: nat)
    requires at == y * w
    ensures at + w == (y + 1) * w
  {
  }

  /** The first `n` pixels of the output are in place. */
  ghost predicate InPlace(buf: seq<Pixel>, out: seq<Pixel>, t: Transform, up: Size, n: nat)
    requires |buf| == Turned(t, up).w * Turned(t, up).h && |out| == up.w * up.h
  {
    n <= |out| && forall i: nat :: i < n ==> out[i] == buf[Source(t, i, up)]
  }

  lemma AllInPlace(buf: seq<Pixel>, out: seq<Pixel>, s: Size, t: Transform, up: Size)
    requires up == Turned(t, s) && |buf| == s.w * s.h && |out| == up.w * up.h
    requires InPlace(buf, out, t, up, |out|)
    ensures out == Untransformed(buf, s, t)
  {
  }

  lemma OneMore(buf: seq<Pixel>, before: seq<Pixel>, after: seq<Pixel>, t: Transform, up: Size, n: nat)
    requires |buf| == Turned(t, up).w * Turned(t, up).h && |before| == |after| == up.w * up.h
    requires InPlace(buf, before, t, up, n) && n < |before| && after == before[n := buf[Source(t, n, up)]]
    ensures InPlace(buf, after, t, up, n + 1)
  {
  }

  /** The inner loop: row `y` of the upright image, at `at` in the output. */
  method GatherRow(buf: array<Pixel>, out: array<Pixel>, s: Size, t: Transform, up: Size, y: nat, at: nat)
    requires buf != out && up == Turned(t, s) && buf.Length == s.w * s.h && out.Length == up.w * up.h
    requires y < up.h && at == y * up.w && at + up.w <= out.Length
    requires InPlace(buf[..], out[..], t, up, at)
    modifies out
    ensures InPlace(buf[..], out[..], t, up, at + up.w)
  {
    for x := 0 to up.w
      invariant InPlace(buf[..], out[..], t, up, at + x)
    {
      RowSource(t, up, y, x, at);
      ghost var before := out[..];
      var from := Forward(t, Point(x, y), up);
      out[at + x] := buf[Index(from, s)];
      OneMore(buf[..], before, out[..], t, up, at + x);
    }
  }

  /** The outer loop. */
  method GatherRows(buf: array<Pixel>, out: array<Pixel>, s: Size, t: Transform, up: Size)
    requires buf != out && up == Turned(t, s) && buf.Length == s.w * s.h && out.Length == up.w * up.h
    modifies out
    ensures InPlace(buf[..], out[..], t, up, out.Length)
  {
    var at := 0;
    for y := 0 to up.h
      invariant at == y * up.w && InPlace(buf[..], out[..], t, up, at)
    {
      RowFits(y, up.h, up.w);
      GatherRow(buf, out, s, t, up, y, at);
      NextRow(y, up.w, at);
      at := at + up.w;
    }
    assert at == out.Length;
  }

  method Untransform(buf: array<Pixel>, s: Size, t: Transform) returns (out: array<Pixel>, up: Size)
    requires buf.Length == s.w * s.h
    ensures up == Turned(t, s)
    ensures out[..] == Untransformed(buf[..], s, t)
  {
    up := if SwapsAxes(t) then Size(s.h, s.w) else s;
    out := new Pixel[up.w * up.h];
    GatherRows(buf, out, s, t, up);
    AllInPlace(buf[..], out[..], s, t, up);
  }

  /** `buf` is what applying `t` to the image gives. */
  ghost predicate Applied(img: seq<Pixel>, up: Size, t: Transform, buf: seq<Pixel>) {
    && |img| == up.w * up.h
    && |buf| == Turned(t, up).w * Turned(t, up).h
    && forall p: Point :: Inside(p, up) ==> buf[Index(Forward(t, p, up), Turned(t, up))] == img[Index(p, up)]
  }

  /** Undoing gives exactly the one image to which the transform was applied. */
  lemma UndoesExactly(img: seq<Pixel>, up: Size, t: Transform, buf: seq<Pixel>)
    requires |img| == up.w * up.h && |buf| == Turned(t, up).w * Turned(t, up).h
    ensures Turned(t, Turned(t, up)) == up
    ensures Untransformed(buf, Turned(t, up), t) == img <==> Applied(img, up, t, buf)
  {
    var out := Untransformed(buf, Turned(t, up), t);
    forall p: Point | Inside(p, up)
      ensures out[Index(p, up)] == buf[Index(Forward(t, p, up), Turned(t, up))]
    {
      PlaceOf(p, up);
    }
    if Applied(img, up, t, buf) {
      forall i | 0 <= i < |img|
        ensures out[i] == img[i]
      {
        assert Inside(Place(i, up), up);
      }
    }
  }

  lemma SourceTwice(i: nat, s: Size, t: Transform)
    requires i < s.w * s.h
    ensures var up := Turned(t, s);
            && Turned(Inverse(t), s) == up && Turned(t, up) == s
            && Source(t, Source(Inverse(t), i, s), up) == i
  {
    var p := Place(i, s);
    var q := Forward(Inverse(t), p, s);
    PlaceOf(q, Turned(t, s));
    ForwardInverts(Inverse(t), p, s);
    assert Inverse(Inverse(t)) == t;
  }

  /** Undoing `t` and then its inverse restores the buffer, for every size. */
  lemma UndoTwice(buf: seq<Pixel>, s: Size, t: Transform)
    requires |buf| == s.w * s.h
    ensures Turned(Inverse(t), Turned(t, s)) == s
    ensures Untransformed(Untransformed(buf, s, t), Turned(t, s), Inverse(t)) == buf
  {
    var twice := Untransformed(Untransformed(buf, s, t), Turned(t, s), Inverse(t));
    forall i: nat | i < |buf|
      ensures twice[i] == buf[i]
    {
      SourceTwice(i, s, t);
    }
  }

  // ----- Flipping rows -----

  lemma FlippedRow(s: Size, y: nat, i: nat)
    requires y < s.h && y * s.w <= i < y * s.w + s.w
    ensures i < s.w * s.h
    ensures Source(Flipped180, i, s) == (s.h - 1 - y) * s.w + (i - y * s.w)
  {
    RowFits(y, s.h, s.w);
    PlaceOf(Point(i - y * s.w, y), s);
  }

  /** `copy_from_slice` of `n` pixels from `src` on to `dst` on. */
  method CopyRow(img: array<Pixel>, out: array<Pixel>, src: nat, dst: nat, n: nat)
    requires img != out && src + n <= img.Length && dst + n <= out.Length
    modifies out
    ensures forall i :: dst <= i < dst + n ==> out[i] == img[src + (i - dst)]
    ensures forall i :: 0 <= i < dst ==> out[i] == old(out[i])
  {
    forall x | 0 <= x < n {
      out[dst + x] := img[src + x];
    }
  }

  method FlipRows(img: array<Pixel>, s: Size) returns (out: array<Pixel>)
    requires img.Length == s.w * s.h
    ensures out[..] == Untransformed(img[..], s, Flipped180)
  {
    out := new Pixel[img.Length];
    var at := 0;
    for y := 0 to s.h
      invariant at == y * s.w && InPlace(img[..], out[..], Flipped180, s, at)
    {
      FlipRow(img, out, s, y, at);
      NextRow(y, s.w, at);
      at := at + s.w;
    }
    assert at == s.w * s.h;
    AllInPlace(img[..], out[..], s, Flipped180, s);
  }

  /** Row `y` of the flipped image is row `h - 1 - y` of the other. */
  method FlipRow(img: array<Pixel>, out: array<Pixel>, s: Size, y: nat, at: nat)
    requires img != out && img.Length == out.Length == s.w * s.h && y < s.h && at == y * s.w
    requires InPlace(img[..], out[..], Flipped180, s, at)
    modifies out
    ensures InPlace(img[..], out[..], Flipped180, s, at + s.w)
  {
    RowFits(y, s.h, s.w);
    RowFits(s.h - 1 - y, s.h, s.w);
    CopyRow(img, out, (s.h - 1 - y) * s.w, at, s.w);
    forall i: nat | at <= i < at + s.w
      ensures out[i] == img[Source(Flipped180, i, s)]
    {
      FlippedRow(s, y, i);
    }
  }

  /** Flipping is its own inverse. */
  lemma FlipTwice(img: seq<Pixel>, s: Size)
    requires |img| == s.w * s.h
    ensures Untransformed(Untransformed(img, s, Flipped180), s, Flipped180) == img
  {
    UndoTwice(img, s, Flipped180);
  }

  // ----- u32 arithmetic -----

  /** The byte offset the code computes in u32 arithmetic. */
  function ByteOffset(p: Point, s: Size): nat
    requires Inside(p, s)
  {
    Index(p, s) * 4
  }

  ghost predicate AllOffsetsFit(s: Size) {
    forall p: Point :: Inside(p, s) ==> ByteOffset(p, s) < 0x1_0000_0000
  }

  /** No offset overflows exactly when the frame has at most 2^30 pixels. */
  lemma OffsetsFitExactly(s: Size)
    requires s.w > 0 && s.h > 0
    ensures AllOffsetsFit(s) <==> s.w * s.h <= 0x4000_0000
  {
    var last := Point(s.w - 1, s.h - 1);
    assert Index(last, s) == s.w * s.h - 1 by {
      assert (s.h - 1) * s.w == s.h * s.w - s.w;
    }
    if AllOffsetsFit(s) {
      assert ByteOffset(last, s) < 0x1_0000_0000;
    }
  }

  /** Frames read from a pool that passed the shm size check are well within that. */
  lemma PoolLimitFits(s: Size, stride: nat)
    requires s.w > 0 && s.h > 0 && s.w * 4 <= stride && stride * s.h <= 0x7fff_ffff
    ensures AllOffsetsFit(s) && AllOffsetsFit(Size(s.h, s.w))
  {
    assert (s.w * 4) * s.h <= stride * s.h;
    assert (s.w * 4) * s.h == 4 * (s.w * s.h);
    OffsetsFitExactly(s);
    assert s.h * s.w == s.w * s.h;
    OffsetsFitExactly(Size(s.h, s.w));
  }
}
