/** The midpoint ellipse: the incremental error terms, the exact set of pixels that the two
    passes draw, and the one pair of radii for which they never end. */
module Ellipses {
  import opened Pixels
  import opened FrameBuffers

  /** The loop variables of the first pass; those of the second with x and y exchanged. */
  datatype Pass = Pass(x: int, y: int, error: int, xchange: int, ychange: int, stoppingx: int, stoppingy: int)

  function Start(a: int, b: int): Pass {
    Pass(a, 0, 0, b * b * (1 - 2 * a), a * a, 2 * b * b * a, 0)
  }

  predicate Running(s: Pass) { s.stoppingx >= s.stoppingy }

  /** One iteration; A and B are the squared radii. */
  function Step(A: int, B: int, s: Pass): Pass {
    var y := s.y + 1;
    var stoppingy := s.stoppingy + 2 * A;
    var error := s.error + s.ychange;
    var ychange := s.ychange + 2 * A;
    if 2 * error + s.xchange > 0 then
      Pass(s.x - 1, y, error + s.xchange, s.xchange + 2 * B, ychange, s.stoppingx - 2 * B, stoppingy)
    else
      Pass(s.x, y, error, s.xchange, ychange, s.stoppingx, stoppingy)
  }

  function After(a: int, b: int, n: nat): Pass {
    if n == 0 then Start(a, b) else Step(a * a, b * b, After(a, b, n - 1))
  }

  /** The first n iterations all take place. */
  ghost predicate RunsFor(a: int, b: int, n: nat) {
    forall m: nat | m < n :: Running(After(a, b, m))
  }

  // ---------- closed forms ----------

  /** b^2 x^2 + a^2 y^2 - a^2 b^2, with A = a^2 and B = b^2. */
  function Error(A: int, B: int, x: int, y: int): int {
    B * (x * x) + A * (y * y) - A * B
  }

  ghost predicate Closed(A: int, B: int, s: Pass) {
    && s.error == Error(A, B, s.x, s.y)
    && s.stoppingx == 2 * (B * s.x) && s.stoppingy == 2 * (A * s.y)
    && s.xchange == B - s.stoppingx && s.ychange == A + s.stoppingy
  }

  lemma StartClosed(a: int, b: int)
    ensures Closed(a * a, b * b, Start(a, b))
  {
    var B := b * b;
    assert B * (1 - 2 * a) == B - 2 * (B * a);
    assert 2 * b * b * a == 2 * (B * a);
  }

  lemma ErrorSteps(A: int, B: int, x: int, y: int)
    ensures Error(A, B, x, y + 1) == Error(A, B, x, y) + A + 2 * (A * y)
    ensures Error(A, B, x - 1, y) == Error(A, B, x, y) + B - 2 * (B * x)
    ensures A * (y + 1) == A * y + A && B * (x - 1) == B * x - B
  {
    assert A * ((y + 1) * (y + 1)) == A * (y * y) + 2 * (A * y) + A;
    assert B * ((x - 1) * (x - 1)) == B * (x * x) - 2 * (B * x) + B;
  }

  lemma StepClosed(A: int, B: int, s: Pass)
    requires Closed(A, B, s)
    ensures Closed(A, B, Step(A, B, s))
  {
    ErrorSteps(A, B, s.x, s.y);
    ErrorSteps(A, B, s.x, s.y + 1);
  }

  /** After any number of iterations the incremental variables equal their closed forms. */
  lemma {:induction false} AlwaysClosed(a: int, b: int, n: nat)
    ensures Closed(a * a, b * b, After(a, b, n)) && After(a, b, n).y == n
  {
    if n == 0 {
      StartClosed(a, b);
    } else {
      AlwaysClosed(a, b, n - 1);
      StepClosed(a * a, b * b, After(a, b, n - 1));
    }
  }

  // ---------- the best pixel of a row ----------

  /** (x, y) is the pixel of row y nearest to the ellipse in the sense of the error term:
      the next pixel outwards is further off, the next one inwards is not nearer. */
  predicate Best(A: int, B: int, x: int, y: int) {
    Error(A, B, x, y) + Error(A, B, x - 1, y) <= 0 < Error(A, B, x + 1, y) + Error(A, B, x, y)
  }

  /** How far a pixel is off the ellipse, in the measure of the error term. */
  function Off(A: int, B: int, x: int, y: int): nat {
    var e := Error(A, B, x, y);
    if e < 0 then -e else e
  }

  /** No column is nearer, and the columns further out are further off. */
  ghost predicate Nearest(A: int, B: int, x: int, y: int) {
    forall i: nat :: Off(A, B, x, y) <= Off(A, B, i, y) && (i > x ==> Off(A, B, x, y) < Off(A, B, i, y))
  }

  lemma {:induction false} ErrorGrows(A: int, B: int, i: nat, j: nat, y: int)
    requires B > 0 && i < j
    ensures Error(A, B, i, y) < Error(A, B, j, y)
    decreases j
  {
    ErrorSteps(A, B, j, y);
    MulLe(1, j, B);
    if i < j - 1 { ErrorGrows(A, B, i, j - 1, y); }
  }

  lemma BestThere(A: int, B: int, x: nat, y: int, i: nat)
    requires B > 0 && 1 <= x && Best(A, B, x, y)
    ensures Off(A, B, x, y) <= Off(A, B, i, y) && (i > x ==> Off(A, B, x, y) < Off(A, B, i, y))
  {
    ErrorGrows(A, B, x - 1, x, y);
    ErrorGrows(A, B, x, x + 1, y);
    if i < x - 1 { ErrorGrows(A, B, i, x - 1, y); }
    if i > x + 1 { ErrorGrows(A, B, x + 1, i, y); }
  }

  /** The best pixel is the one nearest to the ellipse in its row, the outer of two that are equally
      near. */
  lemma BestIsNearest(A: int, B: int, x: nat, y: int)
    requires B > 0 && 1 <= x
    ensures Best(A, B, x, y) <==> Nearest(A, B, x, y)
  {
    if Best(A, B, x, y) {
      forall i: nat ensures Off(A, B, x, y) <= Off(A, B, i, y) && (i > x ==> Off(A, B, x, y) < Off(A, B, i, y)) {
        BestThere(A, B, x, y, i);
      }
    }
    if Nearest(A, B, x, y) {
      ErrorGrows(A, B, x - 1, x, y);
      ErrorGrows(A, B, x, x + 1, y);
      assert Off(A, B, x, y) <= Off(A, B, x - 1, y) && Off(A, B, x, y) < Off(A, B, x + 1, y);
    }
  }

  /** The pixels of the first pass, as offsets in the first quadrant. */
  ghost function FirstPoints(a: int, b: int): Region {
    if a == 0 || b == 0 then Dot(a, 0)
    else if a < 0 then iset{}
    else iset x, y | 0 <= x && 0 <= y && Best(a * a, b * b, x, y) && b * b * x >= a * a * y :: (x, y)
  }

  /** What holds between iterations. */
  ghost predicate Tracks(a: int, b: int, s: Pass) {
    if a == 0 || b == 0 then (s.y == 0 ==> s.x == a) && (s.y > 0 ==> !Running(s))
    else if a < 0 then !Running(s)
    else OnBest(b * b, s)
  }

  /** The pixel stood on is the best of its row, at least while the pass runs. */
  predicate OnBest(B: int, s: Pass) {
    && 0 <= s.x
    && (Running(s) ==> 1 <= s.x && 2 * s.error + s.xchange <= 0)
    && 2 * s.error - s.xchange + 2 * B > 0
  }

  lemma Square(a: int)
    ensures a * a >= 0 && (a != 0 ==> a * a >= 1)
  {
    if a > 0 { MulLe(1, a, a); }
    if a < 0 { MulLe(1, -a, -a); assert (-a) * (-a) == a * a; }
  }

  lemma MulLe(i: int, j: int, k: int)
    requires i <= j && 0 <= k
    ensures i * k <= j * k
  {
    assert (j - i) * k >= 0;
  }

  lemma Positive(B: int, x: int)
    requires B >= 0 && B * x >= 1
    ensures x >= 1
  {
    if x <= 0 { MulLe(x, 0, B); }
  }

  lemma StartTracks(a: int, b: int)
    ensures Tracks(a, b, Start(a, b))
  {
    StartClosed(a, b);
    Square(a);
    Square(b);
    if a < 0 && b != 0 {
      MulLe(a, -1, b * b);
    }
    if a > 0 && b != 0 {
      MulLe(1, a, b * b);
    }
  }

  lemma StepOnBest(A: int, B: int, s: Pass)
    requires A >= 1 && B >= 1 && Closed(A, B, s) && Running(s) && s.y >= 0 && OnBest(B, s)
    ensures OnBest(B, Step(A, B, s))
  {
    StepClosed(A, B, s);
    MulLe(0, s.y, A);
    var t := Step(A, B, s);
    if Running(t) {
      MulLe(1, t.y, A);
      Positive(B, t.x);
    }
  }

  lemma StepTracks(a: int, b: int, s: Pass)
    requires Closed(a * a, b * b, s) && Tracks(a, b, s) && Running(s) && s.y >= 0 && (a != 0 || b != 0)
    ensures Tracks(a, b, Step(a * a, b * b, s))
    ensures var t := Step(a * a, b * b, s); t.stoppingx - t.stoppingy < s.stoppingx - s.stoppingy
  {
    Square(a);
    Square(b);
    if a != 0 && b != 0 { StepOnBest(a * a, b * b, s); }
  }

  // ---------- what is drawn ----------

  /** The decision term: the errors of two neighbouring pixels of a row, added. */
  function Pair(A: int, B: int, x: int, y: int): int {
    Error(A, B, x, y) + Error(A, B, x - 1, y)
  }

  lemma PairGrows(A: int, B: int, i: int, j: int, y: int)
    requires 0 <= B && 1 <= i <= j
    ensures Pair(A, B, i, y) <= Pair(A, B, j, y)
    decreases j - i
  {
    if i < j {
      PairGrows(A, B, i, j - 1, y);
      ErrorSteps(A, B, j, y);
      ErrorSteps(A, B, j - 1, y);
      MulLe(1, j, B);
    }
  }

  lemma PairGrowsDown(A: int, B: int, x: int, y: int, z: int)
    requires 0 <= A && 0 <= y <= z
    ensures Pair(A, B, x, y) <= Pair(A, B, x, z)
  {
    MulLe(y, z, y);
    MulLe(y, z, z);
    MulLe(y * y, z * z, A);
  }

  lemma PairIsTest(A: int, B: int, s: Pass)
    requires Closed(A, B, s)
    ensures Pair(A, B, s.x, s.y) == 2 * s.error + s.xchange
    ensures Pair(A, B, s.x + 1, s.y) == 2 * s.error - s.xchange + 2 * B
  {
    ErrorSteps(A, B, s.x, s.y);
    ErrorSteps(A, B, s.x + 1, s.y);
  }

  lemma BestUnique(A: int, B: int, x1: int, x2: int, y: int)
    requires 0 <= B && 0 <= x1 && 0 <= x2 && Best(A, B, x1, y) && Best(A, B, x2, y)
    ensures x1 == x2
  {
    if x1 < x2 { PairGrows(A, B, x1 + 1, x2, y); }
    if x2 < x1 { PairGrows(A, B, x2 + 1, x1, y); }
  }

  /** While the pass runs it stands on the one point of its row. */
  lemma StandsOnPoint(a: int, b: int, s: Pass, x: int)
    requires Closed(a * a, b * b, s) && Tracks(a, b, s) && Running(s) && s.y >= 0
    ensures (x, s.y) in FirstPoints(a, b) <==> x == s.x
  {
    if a != 0 && b != 0 {
      var A, B := a * a, b * b;
      Square(b);
      PairIsTest(A, B, s);
      assert Best(A, B, s.x, s.y);
      if 0 <= x && Best(A, B, x, s.y) { BestUnique(A, B, x, s.x, s.y); }
    }
  }

  /** Left of the turning point the slope is too steep for any lower row. */
  lemma NoLowerPoint(A: int, B: int, sx: int, sy: int, x: int, y: int)
    requires 1 <= A && 1 <= B && 0 <= sx && 0 <= x && 0 <= sy <= y
    requires B * sx < A * sy && Pair(A, B, sx + 1, sy) > 0 && Pair(A, B, x, y) <= 0
    ensures B * x < A * y
  {
    PairGrowsDown(A, B, x, sy, y);
    if sx < x { PairGrows(A, B, sx + 1, x, sy); }
    MulLe(x, sx, B);
    MulLe(sy, y, A);
  }

  /** When the pass has stopped no point is left. */
  lemma StopsAfterLast(a: int, b: int, s: Pass, x: int, y: int)
    requires Closed(a * a, b * b, s) && Tracks(a, b, s) && !Running(s) && 0 <= s.y <= y
    ensures (x, y) !in FirstPoints(a, b)
  {
    if a == 0 || b == 0 {
      if s.y == 0 { Degenerate(a, b); }
    } else if a > 0 {
      Square(a);
      Square(b);
      PairIsTest(a * a, b * b, s);
      if 0 <= x && Pair(a * a, b * b, x, y) <= 0 {
        NoLowerPoint(a * a, b * b, s.x, s.y, x, y);
      }
    }
  }

  lemma Degenerate(a: int, b: int)
    requires a == 0 || b == 0
    ensures b * b * a == 0
  {
  }

  /** Every iteration, as long as the pass runs, keeps both invariants. */
  lemma {:induction false} AlwaysTracks(a: int, b: int, n: nat)
    requires a != 0 || b != 0
    requires RunsFor(a, b, n)
    ensures Closed(a * a, b * b, After(a, b, n)) && Tracks(a, b, After(a, b, n)) && After(a, b, n).y == n
  {
    AlwaysClosed(a, b, n);
    if n == 0 {
      StartTracks(a, b);
    } else {
      AlwaysTracks(a, b, n - 1);
      StepTracks(a, b, After(a, b, n - 1));
    }
  }

  /** With both radii zero the first pass never ends. */
  lemma {:induction false} ZeroRadiiNeverEnd(n: nat)
    ensures Running(After(0, 0, n))
    ensures After(0, 0, n).stoppingx == 0 && After(0, 0, n).stoppingy == 0
    ensures After(0, 0, n).error == 0 && After(0, 0, n).xchange == 0 && After(0, 0, n).ychange == 0
  {
    if n > 0 { ZeroRadiiNeverEnd(n - 1); }
  }

  /** A pass still running after n iterations has used up n of its initial margin. */
  lemma {:induction false} MarginShrinks(a: int, b: int, n: nat)
    requires a != 0 || b != 0
    requires RunsFor(a, b, n)
    ensures After(a, b, n).stoppingx - After(a, b, n).stoppingy <= Start(a, b).stoppingx - n
  {
    if n > 0 {
      MarginShrinks(a, b, n - 1);
      AlwaysTracks(a, b, n - 1);
      StepTracks(a, b, After(a, b, n - 1));
    }
  }

  lemma MustEnd(a: int, b: int, n: nat)
    requires (a != 0 || b != 0) && n > Start(a, b).stoppingx
    ensures exists m: nat :: !Running(After(a, b, m))
  {
    if RunsFor(a, b, n) {
      MarginShrinks(a, b, n);
      assert !Running(After(a, b, n));
    }
  }

  /** The pass ends for exactly the radii that are not both zero. */
  lemma EndsUnlessBothZero(a: int, b: int)
    ensures (exists n: nat :: !Running(After(a, b, n))) <==> a != 0 || b != 0
  {
    if a == 0 && b == 0 {
      forall n: nat ensures Running(After(a, b, n)) { ZeroRadiiNeverEnd(n); }
    } else {
      var margin := Start(a, b).stoppingx;
      MustEnd(a, b, if margin < 0 then 0 else margin + 1);
    }
  }

  // ---------- drawing ----------

  ghost function Maybe(c: bool, r: Region): Region { if c then r else iset{} }

  /** The pixels that draw_ellipse_points touches for one offset: the mirror images in the
      quadrants asked for, as dots or as spans from the vertical axis. */
  ghost function Quadrants(cx: int, cy: int, x: int, y: int, mask: bv8): Region {
    if mask & 0x10 != 0 then Spans(cx, cy, x, y, FlagsOf(mask)) else Dots(cx, cy, x, y, FlagsOf(mask))
  }

  datatype Flags = Flags(q1: bool, q2: bool, q3: bool, q4: bool)

  function FlagsOf(mask: bv8): Flags {
    Flags(mask & 0x01 != 0, mask & 0x02 != 0, mask & 0x04 != 0, mask & 0x08 != 0)
  }

  ghost function Spans(cx: int, cy: int, x: int, y: int, f: Flags): Region {
    SpanPair(cx, cx - x, cy - y, x, f.q1, f.q2) + SpanPair(cx - x, cx, cy + y, x, f.q3, f.q4)
  }

  ghost function Dots(cx: int, cy: int, x: int, y: int, f: Flags): Region {
    DotPair(cx + x, cx - x, cy - y, f.q1, f.q2) + DotPair(cx - x, cx + x, cy + y, f.q3, f.q4)
  }

  ghost function SpanPair(x1: int, x2: int, y: int, x: int, q1: bool, q2: bool): Region {
    Maybe(q1, Rect(x1, y, x + 1, 1)) + Maybe(q2, Rect(x2, y, x + 1, 1))
  }

  ghost function DotPair(x1: int, x2: int, y: int, q1: bool, q2: bool): Region {
    Maybe(q1, Dot(x1, y)) + Maybe(q2, Dot(x2, y))
  }

  method DrawSpanPair(fb: FrameBuffer, x1: int, x2: int, y: int, x: int, q1: bool, q2: bool, col: Color)
    requires fb.Valid()
    modifies fb.buf
    ensures fb.Paints(SpanPair(x1, x2, y, x, q1, q2), col)
  {
    ghost var s := fb.buf[..];
    FillIf(fb, x1, y, x + 1, col, q1);
    ghost var t := fb.buf[..];
    FillIf(fb, x2, y, x + 1, col, q2);
    PaintTwice(fb.Geometry(), s, t, fb.buf[..], Maybe(q1, Rect(x1, y, x + 1, 1)), Maybe(q2, Rect(x2, y, x + 1, 1)),
               col);
  }

  method DrawDotPair(fb: FrameBuffer, x1: int, x2: int, y: int, q1: bool, q2: bool, col: Color)
    requires fb.Valid()
    modifies fb.buf
    ensures fb.Paints(DotPair(x1, x2, y, q1, q2), col)
  {
    ghost var s := fb.buf[..];
    fb.SetPixelChecked(x1, y, col, q1);
    ghost var t := fb.buf[..];
    fb.SetPixelChecked(x2, y, col, q2);
    PaintTwice(fb.Geometry(), s, t, fb.buf[..], Maybe(q1, Dot(x1, y)), Maybe(q2, Dot(x2, y)), col);
  }

  method FillIf(fb: FrameBuffer, x: int, y: int, w: int, col: Color, draw: bool)
    requires fb.Valid()
    modifies fb.buf
    ensures fb.Paints(Maybe(draw, Rect(x, y, w, 1)), col)
  {
    if draw {
      fb.FillRect(x, y, w, 1, col);
    } else {
      PaintNothing(fb.Geometry(), fb.buf[..], col);
    }
  }

  lemma SpansPainted(fb: FrameBuffer, s: seq<bv8>, t: seq<bv8>, u: seq<bv8>, cx: int, cy: int, x: int, y: int,
                     f: Flags, col: Color)
    requires fb.Valid() && |s| == fb.buf.Length
    requires Painted(fb.Geometry(), s, t, SpanPair(cx, cx - x, cy - y, x, f.q1, f.q2), col)
    requires Painted(fb.Geometry(), t, u, SpanPair(cx - x, cx, cy + y, x, f.q3, f.q4), col)
    ensures Painted(fb.Geometry(), s, u, Spans(cx, cy, x, y, f), col)
  {
    PaintTwice(fb.Geometry(), s, t, u, SpanPair(cx, cx - x, cy - y, x, f.q1, f.q2),
               SpanPair(cx - x, cx, cy + y, x, f.q3, f.q4), col);
  }

  lemma DotsPainted(fb: FrameBuffer, s: seq<bv8>, t: seq<bv8>, u: seq<bv8>, cx: int, cy: int, x: int, y: int,
                    f: Flags, col: Color)
    requires fb.Valid() && |s| == fb.buf.Length
    requires Painted(fb.Geometry(), s, t, DotPair(cx + x, cx - x, cy - y, f.q1, f.q2), col)
    requires Painted(fb.Geometry(), t, u, DotPair(cx - x, cx + x, cy + y, f.q3, f.q4), col)
    ensures Painted(fb.Geometry(), s, u, Dots(cx, cy, x, y, f), col)
  {
    PaintTwice(fb.Geometry(), s, t, u, DotPair(cx + x, cx - x, cy - y, f.q1, f.q2),
               DotPair(cx - x, cx + x, cy + y, f.q3, f.q4), col);
  }

  method DrawSpans(fb: FrameBuffer, cx: int, cy: int, x: int, y: int, f: Flags, col: Color)
    requires fb.Valid()
    modifies fb.buf
    ensures fb.Paints(Spans(cx, cy, x, y, f), col)
  {
    ghost var s := fb.buf[..];
    DrawSpanPair(fb, cx, cx - x, cy - y, x, f.q1, f.q2, col);
    ghost var t := fb.buf[..];
    DrawSpanPair(fb, cx - x, cx, cy + y, x, f.q3, f.q4, col);
    SpansPainted(fb, s, t, fb.buf[..], cx, cy, x, y, f, col);
  }

  method DrawDots(fb: FrameBuffer, cx: int, cy: int, x: int, y: int, f: Flags, col: Color)
    requires fb.Valid()
    modifies fb.buf
    ensures fb.Paints(Dots(cx, cy, x, y, f), col)
  {
    ghost var s := fb.buf[..];
    DrawDotPair(fb, cx + x, cx - x, cy - y, f.q1, f.q2, col);
    ghost var t := fb.buf[..];
    DrawDotPair(fb, cx - x, cx + x, cy + y, f.q3, f.q4, col);
    DotsPainted(fb, s, t, fb.buf[..], cx, cy, x, y, f, col);
  }

  method DrawEllipsePoints(fb: FrameBuffer, cx: int, cy: int, x: int, y: int, col: Color, mask: bv8)
    requires fb.Valid()
    modifies fb.buf
    ensures fb.Paints(Quadrants(cx, cy, x, y, mask), col)
  {
    if mask & 0x10 != 0 {
      DrawSpans(fb, cx, cy, x, y, FlagsOf(mask), col);
    } else {
      DrawDots(fb, cx, cy, x, y, FlagsOf(mask), col);
    }
  }

  /** The pixels drawn for a set of offsets. */
  ghost function Drawn(cx: int, cy: int, points: Region, mask: bv8): Region {
    iset p, q | p in points && q in Quadrants(cx, cy, p.0, p.1, mask) :: q
  }

  ghost function Above(points: Region, y: int): Region {
    iset p | p in points && p.1 < y
  }

  ghost function Flip(points: Region): Region {
    iset p | p in points :: (p.1, p.0)
  }

  /** The second pass is the first with the axes exchanged. */
  ghost function SecondPoints(a: int, b: int): Region {
    Flip(FirstPoints(b, a))
  }

  lemma DrawnMore(cx: int, cy: int, points: Region, x: int, y: int, mask: bv8)
    ensures Drawn(cx, cy, points, mask) + Quadrants(cx, cy, x, y, mask) == Drawn(cx, cy, points + Dot(x, y), mask)
  {
    assert (x, y) in points + Dot(x, y);
  }

  lemma AboveRow(points: Region, x: int, y: int)
    requires forall i :: (i, y) in points <==> i == x
    ensures Above(points, y + 1) == Above(points, y) + Dot(x, y)
    ensures Flip(Above(points, y + 1)) == Flip(Above(points, y)) + Dot(y, x)
  {
    assert (x, y) in points;
    forall p ensures p in Above(points, y + 1) <==> p in Above(points, y) + Dot(x, y) {
      if p.1 == y {
        assert p == (p.0, y);
        assert (p.0, y) in points <==> p.0 == x;
      }
    }
  }

  /** The first loop of framebuf_ellipse: it ends, and has drawn exactly the best pixel of
      every row down to where the slope turns. */
  method FirstPass(fb: FrameBuffer, cx: int, cy: int, a: int, b: int, col: Color, mask: bv8)
    requires fb.Valid() && (a != 0 || b != 0)
    modifies fb.buf
    ensures fb.Paints(Drawn(cx, cy, FirstPoints(a, b), mask), col)
  {
    ghost var s := fb.buf[..];
    var twoASquare, twoBSquare := 2 * a * a, 2 * b * b;
    assert twoASquare == 2 * (a * a) && twoBSquare == 2 * (b * b);
    var x, y := a, 0;
    var xchange, ychange := b * b * (1 - 2 * a), a * a;
    var error := 0;
    var stoppingx, stoppingy := twoBSquare * a, 0;
    NoneDrawn(fb, s, cx, cy, a, b, col, mask);
    while stoppingx >= stoppingy
      invariant y >= 0 && RunsFor(a, b, y)
      invariant Pass(x, y, error, xchange, ychange, stoppingx, stoppingy) == After(a, b, y)
      invariant Painted(fb.Geometry(), s, fb.buf[..], Drawn(cx, cy, Above(FirstPoints(a, b), y), mask), col)
      decreases stoppingx - stoppingy
    {
      ghost var t := fb.buf[..];
      DrawEllipsePoints(fb, cx, cy, x, y, col, mask);
      DrawOne(fb, s, t, fb.buf[..], cx, cy, Above(FirstPoints(a, b), y), x, y, col, mask);
      DrawsRow(a, b, y);
      StepShrinks(a, b, y);
      y := y + 1;
      stoppingy := stoppingy + twoASquare;
      error := error + ychange;
      ychange := ychange + twoASquare;
      if 2 * error + xchange > 0 {
        x := x - 1;
        stoppingx := stoppingx - twoBSquare;
        error := error + xchange;
        xchange := xchange + twoBSquare;
      }
    }
    AllDrawn(a, b, y);
  }

  lemma StepShrinks(a: int, b: int, n: nat)
    requires (a != 0 || b != 0) && RunsFor(a, b, n) && Running(After(a, b, n))
    ensures RunsFor(a, b, n + 1)
    ensures After(a, b, n + 1) == Step(a * a, b * b, After(a, b, n))
    ensures After(a, b, n + 1).stoppingx - After(a, b, n + 1).stoppingy
              < After(a, b, n).stoppingx - After(a, b, n).stoppingy
  {
    AlwaysTracks(a, b, n);
    StepTracks(a, b, After(a, b, n));
  }

  lemma NoneDrawn(fb: FrameBuffer, s: seq<bv8>, cx: int, cy: int, a: int, b: int, col: Color, mask: bv8)
    requires fb.Valid() && |s| == fb.buf.Length
    ensures Painted(fb.Geometry(), s, s, Drawn(cx, cy, Above(FirstPoints(a, b), 0), mask), col)
    ensures Painted(fb.Geometry(), s, s, Drawn(cx, cy, Flip(Above(FirstPoints(a, b), 0)), mask), col)
  {
    assert Above(FirstPoints(a, b), 0) == iset{};
    PaintNothing(fb.Geometry(), s, col);
  }

  /** The row that iteration n draws. */
  lemma DrawsRow(a: int, b: int, n: nat)
    requires (a != 0 || b != 0) && RunsFor(a, b, n) && Running(After(a, b, n))
    ensures var x := After(a, b, n).x;
            && Above(FirstPoints(a, b), n + 1) == Above(FirstPoints(a, b), n) + Dot(x, n)
            && Flip(Above(FirstPoints(a, b), n + 1)) == Flip(Above(FirstPoints(a, b), n)) + Dot(n, x)
  {
    var points, at := FirstPoints(a, b), After(a, b, n);
    AlwaysTracks(a, b, n);
    forall i ensures (i, n) in points <==> i == at.x { StandsOnPoint(a, b, at, i); }
    AboveRow(points, at.x, n);
  }

  lemma DrawOne(fb: FrameBuffer, s: seq<bv8>, t: seq<bv8>, u: seq<bv8>, cx: int, cy: int, points: Region, x: int,
                y: int, col: Color, mask: bv8)
    requires fb.Valid() && |s| == fb.buf.Length
    requires Painted(fb.Geometry(), s, t, Drawn(cx, cy, points, mask), col)
    requires Painted(fb.Geometry(), t, u, Quadrants(cx, cy, x, y, mask), col)
    ensures Painted(fb.Geometry(), s, u, Drawn(cx, cy, points + Dot(x, y), mask), col)
  {
    DrawnMore(cx, cy, points, x, y, mask);
    PaintTwice(fb.Geometry(), s, t, u, Drawn(cx, cy, points, mask), Quadrants(cx, cy, x, y, mask), col);
  }

  /** The stopped pass has drawn every point. */
  lemma AllDrawn(a: int, b: int, n: nat)
    requires (a != 0 || b != 0) && RunsFor(a, b, n) && !Running(After(a, b, n))
    ensures Above(FirstPoints(a, b), n) == FirstPoints(a, b)
  {
    var points, at := FirstPoints(a, b), After(a, b, n);
    AlwaysTracks(a, b, n);
    forall p | p in points ensures p.1 < n {
      if n <= p.1 { StopsAfterLast(a, b, at, p.0, p.1); }
    }
  }

  /** The second loop of framebuf_ellipse: the best pixel of every column. */
  method SecondPass(fb: FrameBuffer, cx: int, cy: int, a: int, b: int, col: Color, mask: bv8)
    requires fb.Valid() && (a != 0 || b != 0)
    modifies fb.buf
    ensures fb.Paints(Drawn(cx, cy, SecondPoints(a, b), mask), col)
  {
    ghost var s := fb.buf[..];
    var twoASquare, twoBSquare := 2 * a * a, 2 * b * b;
    assert twoASquare == 2 * (a * a) && twoBSquare == 2 * (b * b);
    var x, y := 0, b;
    var xchange, ychange := b * b, a * a * (1 - 2 * b);
    var error := 0;
    var stoppingx, stoppingy := 0, twoASquare * b;
    NoneDrawn(fb, s, cx, cy, b, a, col, mask);
    while stoppingx <= stoppingy
      invariant x >= 0 && RunsFor(b, a, x)
      invariant Pass(y, x, error, ychange, xchange, stoppingy, stoppingx) == After(b, a, x)
      invariant Painted(fb.Geometry(), s, fb.buf[..], Drawn(cx, cy, Flip(Above(FirstPoints(b, a), x)), mask), col)
      decreases stoppingy - stoppingx
    {
      ghost var t := fb.buf[..];
      DrawEllipsePoints(fb, cx, cy, x, y, col, mask);
      DrawOne(fb, s, t, fb.buf[..], cx, cy, Flip(Above(FirstPoints(b, a), x)), x, y, col, mask);
      DrawsRow(b, a, x);
      StepShrinks(b, a, x);
      x := x + 1;
      stoppingx := stoppingx + twoBSquare;
      error := error + xchange;
      xchange := xchange + twoBSquare;
      if 2 * error + ychange > 0 {
        y := y - 1;
        stoppingy := stoppingy - twoASquare;
        error := error + ychange;
        ychange := ychange + twoASquare;
      }
    }
    AllDrawn(b, a, x);
  }

  lemma RightOfEllipse(a: nat, b: nat, x: nat, y: nat)
    requires 1 <= b && a < x
    ensures Pair(a * a, b * b, x, y) > 0
  {
    var A, B := a * a, b * b;
    Square(b);
    PairGrowsDown(A, B, x, 0, y);
    PairGrows(A, B, a + 1, x, 0);
    ErrorSteps(A, B, a + 1, 0);
    assert Error(A, B, a, 0) == 0;
    MulLe(0, a, B);
    assert B * (a + 1) == B * a + B;
  }

  lemma BelowEllipse(a: nat, b: nat, x: nat, y: nat)
    requires 1 <= a && b < y
    ensures Pair(a * a, b * b, x, y) > 0
  {
    var A, B := a * a, b * b;
    Square(a);
    Square(x);
    Square(x - 1);
    MulLe(b + 1, y, y);
    MulLe(b + 1, y, b + 1);
    assert y * y >= B + 1;
    MulLe(B + 1, y * y, A);
    MulLe(0, x * x, B);
    MulLe(0, (x - 1) * (x - 1), B);
    assert (B + 1) * A == A * B + A && y * y * A == A * (y * y);
  }

  /** The drawn offsets stay inside the bounding box of the radii. */
  lemma PointsInBox(a: nat, b: nat, x: int, y: int)
    requires (x, y) in FirstPoints(a, b)
    ensures 0 <= x <= a && 0 <= y <= b
  {
    if a != 0 && b != 0 {
      if a < x { RightOfEllipse(a, b, x, y); }
      if b < y { BelowEllipse(a, b, x, y); }
    }
  }

  // ---------- quadrants and filling ----------

  /** Bit 4 asks for filling; bits 0 to 3 select quadrants (all four by default). */
  function EllipseMask(fill: bool, quadrants: bv8): bv8 {
    (if fill then 0x10 else 0) | (quadrants & 0x0f)
  }

  /** `d` pixels from the axis: at the offset, or on the way to it. */
  predicate Reached(fill: bool, d: int, x: int) { if fill then 0 <= d <= x else d == x }

  /** Pixel (u, v) belongs to offset (x, y): bit 0 is the quadrant right of and above the centre, bit 1
      left and above, bit 2 left and below, bit 3 right and below. */
  predicate Mirrored(cx: int, cy: int, x: int, y: int, fill: bool, quadrants: bv8, u: int, v: int) {
    || (quadrants & 0x01 != 0 && v == cy - y && Reached(fill, u - cx, x))
    || (quadrants & 0x02 != 0 && v == cy - y && Reached(fill, cx - u, x))
    || (quadrants & 0x04 != 0 && v == cy + y && Reached(fill, cx - u, x))
    || (quadrants & 0x08 != 0 && v == cy + y && Reached(fill, u - cx, x))
  }

  /** The pixels of an ellipse. */
  ghost function Shape(cx: int, cy: int, points: Region, fill: bool, quadrants: bv8): Region {
    iset p: (int, int), u: int, v: int | p in points && Mirrored(cx, cy, p.0, p.1, fill, quadrants, u, v) :: (u, v)
  }

  lemma MaskBits(fill: bool, q: bv8)
    ensures var m := EllipseMask(fill, q);
            && (m & 0x10 != 0 <==> fill) && (m & 0x01 != 0 <==> q & 0x01 != 0) && (m & 0x02 != 0 <==> q & 0x02 != 0)
            && (m & 0x04 != 0 <==> q & 0x04 != 0) && (m & 0x08 != 0 <==> q & 0x08 != 0)
  {
  }

  lemma QuadrantsAre(cx: int, cy: int, x: int, y: int, fill: bool, q: bv8, u: int, v: int)
    ensures (u, v) in Quadrants(cx, cy, x, y, EllipseMask(fill, q)) <==> Mirrored(cx, cy, x, y, fill, q, u, v)
  {
    MaskBits(fill, q);
  }

  lemma DrawnIsShape(cx: int, cy: int, points: Region, fill: bool, q: bv8)
    ensures Drawn(cx, cy, points, EllipseMask(fill, q)) == Shape(cx, cy, points, fill, q)
  {
    var drawn, shape := Drawn(cx, cy, points, EllipseMask(fill, q)), Shape(cx, cy, points, fill, q);
    forall w: (int, int) ensures w in drawn <==> w in shape {
      forall p | p in points
        ensures w in Quadrants(cx, cy, p.0, p.1, EllipseMask(fill, q)) <==>
                Mirrored(cx, cy, p.0, p.1, fill, q, w.0, w.1)
      {
        QuadrantsAre(cx, cy, p.0, p.1, fill, q, w.0, w.1);
      }
    }
  }

  /** The points of both passes. */
  ghost function Points(a: int, b: int): Region { FirstPoints(a, b) + SecondPoints(a, b) }

  lemma OffsetsInBox(a: nat, b: nat, x: int, y: int)
    requires (x, y) in Points(a, b)
    ensures 0 <= x <= a && 0 <= y <= b
  {
    if (x, y) in FirstPoints(a, b) {
      PointsInBox(a, b, x, y);
    } else {
      PointsInBox(b, a, y, x);
    }
  }

  /** The ends of both axes are among the points. */
  lemma AxesDrawn(a: nat, b: nat)
    requires a != 0 || b != 0
    ensures (a, 0) in Points(a, b) && (0, b) in Points(a, b)
  {
    EndDrawn(a, b);
    EndDrawn(b, a);
    assert (b, 0) in FirstPoints(b, a);
  }

  lemma EndDrawn(a: nat, b: nat)
    requires a != 0 || b != 0
    ensures (a, 0) in FirstPoints(a, b)
  {
    assert RunsFor(a, b, 0) && After(a, b, 0) == Start(a, b);
    assert 2 * b * b * a >= 0;
    DrawsRow(a, b, 0);
    assert (a, 0) in Above(FirstPoints(a, b), 1);
  }

  /** With all quadrants, which is the default, the ellipse is symmetric in both axes. */
  lemma ShapeIsSymmetric(cx: int, cy: int, points: Region, fill: bool, u: int, v: int)
    ensures var s := Shape(cx, cy, points, fill, 0x0f);
            ((u, v) in s <==> (2 * cx - u, v) in s) && ((u, v) in s <==> (u, 2 * cy - v) in s)
  {
    var s := Shape(cx, cy, points, fill, 0x0f);
    ShapeTurns(cx, cy, points, fill, u, v);
    ShapeTurns(cx, cy, points, fill, 2 * cx - u, v);
    ShapeTurns(cx, cy, points, fill, u, 2 * cy - v);
    assert 2 * cx - (2 * cx - u) == u && 2 * cy - (2 * cy - v) == v;
  }

  lemma ShapeTurns(cx: int, cy: int, points: Region, fill: bool, u: int, v: int)
    ensures var s := Shape(cx, cy, points, fill, 0x0f);
            (u, v) in s ==> (2 * cx - u, v) in s && (u, 2 * cy - v) in s
  {
    if (u, v) in Shape(cx, cy, points, fill, 0x0f) {
      var p :| p in points && Mirrored(cx, cy, p.0, p.1, fill, 0x0f, u, v);
      assert Mirrored(cx, cy, p.0, p.1, fill, 0x0f, 2 * cx - u, v);
      assert Mirrored(cx, cy, p.0, p.1, fill, 0x0f, u, 2 * cy - v);
    }
  }

  lemma InShape(cx: int, cy: int, points: Region, x: int, y: int, fill: bool, q: bv8, u: int, v: int)
    requires (x, y) in points && Mirrored(cx, cy, x, y, fill, q, u, v)
    ensures (u, v) in Shape(cx, cy, points, fill, q)
  {
    var p := (x, y);
    assert p in points && Mirrored(cx, cy, p.0, p.1, fill, q, u, v);
  }

  /** It has every point with its mirror images. */
  lemma ShapeHasPoints(cx: int, cy: int, a: nat, b: nat, fill: bool, x: int, y: int)
    requires (x, y) in Points(a, b)
    ensures var s := Shape(cx, cy, Points(a, b), fill, 0x0f);
            && (cx + x, cy - y) in s && (cx - x, cy - y) in s && (cx - x, cy + y) in s && (cx + x, cy + y) in s
  {
    OffsetsInBox(a, b, x, y);
    InShape(cx, cy, Points(a, b), x, y, fill, 0x0f, cx + x, cy - y);
    InShape(cx, cy, Points(a, b), x, y, fill, 0x0f, cx - x, cy - y);
    InShape(cx, cy, Points(a, b), x, y, fill, 0x0f, cx - x, cy + y);
    InShape(cx, cy, Points(a, b), x, y, fill, 0x0f, cx + x, cy + y);
  }

  /** When it is filled, a row has a pixel if and only if the pixel is between a point of the row and
      the mirror image of the point. */
  lemma ShapeIsFilled(cx: int, cy: int, a: nat, b: nat, u: int, v: int)
    ensures (u, v) in Shape(cx, cy, Points(a, b), true, 0x0f) <==>
            exists p | p in Points(a, b) :: (v == cy - p.1 || v == cy + p.1) && cx - p.0 <= u <= cx + p.0
  {
    forall p | p in Points(a, b) && (v == cy - p.1 || v == cy + p.1) && cx - p.0 <= u <= cx + p.0
      ensures Mirrored(cx, cy, p.0, p.1, true, 0x0f, u, v)
    {
      OffsetsInBox(a, b, p.0, p.1);
    }
    forall p | p in Points(a, b) && Mirrored(cx, cy, p.0, p.1, true, 0x0f, u, v)
      ensures (v == cy - p.1 || v == cy + p.1) && cx - p.0 <= u <= cx + p.0
    {
      OffsetsInBox(a, b, p.0, p.1);
    }
  }

  /** When it is not, the pixels are the points and their mirror images. */
  lemma ShapeIsOutline(cx: int, cy: int, points: Region, u: int, v: int)
    ensures (u, v) in Shape(cx, cy, points, false, 0x0f) <==>
            exists p | p in points :: (u == cx - p.0 || u == cx + p.0) && (v == cy - p.1 || v == cy + p.1)
  {
    forall p | p in points
      ensures (u == cx - p.0 || u == cx + p.0) && (v == cy - p.1 || v == cy + p.1) <==>
              Mirrored(cx, cy, p.0, p.1, false, 0x0f, u, v)
    {
    }
  }

  /** One quadrant alone is that quarter of the whole. */
  lemma QuarterOfShape(cx: int, cy: int, a: nat, b: nat, fill: bool, u: int, v: int)
    ensures var points := Points(a, b);
            var whole := (u, v) in Shape(cx, cy, points, fill, 0x0f);
            && ((u, v) in Shape(cx, cy, points, fill, 0x01) <==> whole && cx <= u && v <= cy)
            && ((u, v) in Shape(cx, cy, points, fill, 0x02) <==> whole && u <= cx && v <= cy)
            && ((u, v) in Shape(cx, cy, points, fill, 0x04) <==> whole && u <= cx && cy <= v)
            && ((u, v) in Shape(cx, cy, points, fill, 0x08) <==> whole && cx <= u && cy <= v)
  {
    var points := Points(a, b);
    forall p | p in points
      ensures Mirrored(cx, cy, p.0, p.1, fill, 0x01, u, v) <==>
              Mirrored(cx, cy, p.0, p.1, fill, 0x0f, u, v) && cx <= u && v <= cy
      ensures Mirrored(cx, cy, p.0, p.1, fill, 0x02, u, v) <==>
              Mirrored(cx, cy, p.0, p.1, fill, 0x0f, u, v) && u <= cx && v <= cy
      ensures Mirrored(cx, cy, p.0, p.1, fill, 0x04, u, v) <==>
              Mirrored(cx, cy, p.0, p.1, fill, 0x0f, u, v) && u <= cx && cy <= v
      ensures Mirrored(cx, cy, p.0, p.1, fill, 0x08, u, v) <==>
              Mirrored(cx, cy, p.0, p.1, fill, 0x0f, u, v) && cx <= u && cy <= v
    {
      OffsetsInBox(a, b, p.0, p.1);
    }
  }

  /** Several quadrants are drawn as one after the other. */
  lemma QuadrantsJoin(cx: int, cy: int, points: Region, fill: bool, q: bv8)
    ensures Shape(cx, cy, points, fill, q)
         == Shape(cx, cy, points, fill, q & 0x01) + Shape(cx, cy, points, fill, q & 0x02)
            + Shape(cx, cy, points, fill, q & 0x04) + Shape(cx, cy, points, fill, q & 0x08)
  {
  }

  /** framebuf_ellipse, for radii that are not both zero. */
  method Ellipse(fb: FrameBuffer, cx: int, cy: int, a: int, b: int, col: Color, fill: bool, quadrants: bv8)
    requires fb.Valid() && (a != 0 || b != 0)
    modifies fb.buf
    ensures fb.Paints(Shape(cx, cy, Points(a, b), fill, quadrants), col)
  {
    ghost var s := fb.buf[..];
    var mask := EllipseMask(fill, quadrants);
    FirstPass(fb, cx, cy, a, b, col, mask);
    ghost var t := fb.buf[..];
    SecondPass(fb, cx, cy, a, b, col, mask);
    BothPasses(fb, s, t, fb.buf[..], cx, cy, a, b, col, fill, quadrants);
  }

  lemma BothPasses(fb: FrameBuffer, s: seq<bv8>, t: seq<bv8>, u: seq<bv8>, cx: int, cy: int, a: int, b: int,
                   col: Color, fill: bool, quadrants: bv8)
    requires fb.Valid() && |s| == fb.buf.Length
    requires Painted(fb.Geometry(), s, t, Drawn(cx, cy, FirstPoints(a, b), EllipseMask(fill, quadrants)), col)
    requires Painted(fb.Geometry(), t, u, Drawn(cx, cy, SecondPoints(a, b), EllipseMask(fill, quadrants)), col)
    ensures Painted(fb.Geometry(), s, u, Shape(cx, cy, Points(a, b), fill, quadrants), col)
  {
    var mask := EllipseMask(fill, quadrants);
    PaintTwice(fb.Geometry(), s, t, u, Drawn(cx, cy, FirstPoints(a, b), mask), Drawn(cx, cy, SecondPoints(a, b), mask),
               col);
    assert Drawn(cx, cy, FirstPoints(a, b), mask) + Drawn(cx, cy, SecondPoints(a, b), mask)
        == Drawn(cx, cy, Points(a, b), mask);
    DrawnIsShape(cx, cy, Points(a, b), fill, quadrants);
  }
}
