/** Bresenham's line, with the closed form of the offset it has reached at each step. */
module Lines {
  import opened Pixels
  import opened FrameBuffers

  function Abs(a: int): nat { if a < 0 then -a else a }

  function Sign(a: int): int { if a > 0 then 1 else -1 }

  /** p / major rounded to the nearest integer, halves up. */
  function Nearest(p: nat, major: nat): nat
    requires major > 0
  {
    (2 * p + major) / (2 * major)
  }

  /** How far the minor coordinate has moved after i steps along the major axis. */
  function Offset(i: nat, minor: nat, major: nat): nat
    requires major > 0
  {
    Nearest(minor * i, major)
  }

  /** The number of steps of the walk. */
  function Steps(x1: int, y1: int, x2: int, y2: int): nat {
    Max(Abs(x2 - x1), Abs(y2 - y1))
  }

  /** k steps in the direction of a sign. */
  function Along(sign: int, k: int): int { if sign == 1 then k else -k }

  /** The i-th point of the segment. */
  function LinePoint(x1: int, y1: int, x2: int, y2: int, i: nat): (int, int)
  {
    var dx, dy := Abs(x2 - x1), Abs(y2 - y1);
    var sx, sy := Sign(x2 - x1), Sign(y2 - y1);
    if dx == 0 && dy == 0 then (x2, y2)
    else if dy > dx then (x1 + Along(sx, Offset(i, dx, dy)), y1 + Along(sy, i))
    else (x1 + Along(sx, i), y1 + Along(sy, Offset(i, dy, dx)))
  }

  ghost function LinePoints(x1: int, y1: int, x2: int, y2: int, n: nat): Region {
    iset i: nat | i < n :: LinePoint(x1, y1, x2, y2, i)
  }

  lemma MulStep(d: nat, a: nat, b: nat)
    requires a < b
    ensures d * a + d <= d * b
  {
    var k := b - a - 1;
    assert d * b == d * a + d + d * k;
  }

  lemma FloorIs(n: nat, d: nat, m: nat)
    requires d > 0 && d * m <= n < d * m + d
    ensures n / d == m
  {
    var q := n / d;
    if q < m { MulStep(d, q, m); }
    if m < q { MulStep(d, m, q); }
  }

  lemma NearestIs(p: nat, major: nat, m: nat)
    requires major > 0 && 2 * (major * m) <= 2 * p + major < 2 * (major * m) + 2 * major
    ensures Nearest(p, major) == m
  {
    assert 2 * major * m == 2 * (major * m);
    FloorIs(2 * p + major, 2 * major, m);
  }

  lemma NearestBounds(p: nat, major: nat)
    requires major > 0
    ensures 2 * (major * Nearest(p, major)) <= 2 * p + major < 2 * (major * Nearest(p, major)) + 2 * major
  {
    var m := Nearest(p, major);
    assert 2 * major * m == 2 * (major * m);
  }

  lemma OffsetWithinHalf(i: nat, minor: nat, major: nat)
    requires major > 0
    ensures Abs(2 * (major * Offset(i, minor, major)) - 2 * (minor * i)) <= major
  {
    NearestBounds(minor * i, major);
  }

  /** Where the segment passes exactly between two pixels the one further on is taken. */
  lemma HalvesGoOn(i: nat, minor: nat, major: nat, m: nat)
    requires major > 0 && 2 * (minor * i) == 2 * (major * m) + major
    ensures Offset(i, minor, major) == m + 1
  {
    assert major * (m + 1) == major * m + major;
    NearestIs(minor * i, major, m + 1);
  }

  lemma OffsetsTouch(i: nat, minor: nat, major: nat)
    requires major > 0 && minor <= major
    ensures Offset(i, minor, major) <= Offset(i + 1, minor, major) <= Offset(i, minor, major) + 1
  {
    var p, m := minor * i, Offset(i, minor, major);
    NearestBounds(p, major);
    assert minor * (i + 1) == p + minor;
    if 2 * (p + minor) + major < 2 * (major * m) + 2 * major {
      NearestIs(p + minor, major, m);
    } else {
      assert major * (m + 1) == major * m + major;
      NearestIs(p + minor, major, m + 1);
    }
  }

  /** The i-th point is i pixels from the start along the major axis, and within half a pixel of the
      true segment along the other. */
  lemma WithinHalfPixel(x1: int, y1: int, x2: int, y2: int, i: nat)
    requires i <= Steps(x1, y1, x2, y2)
    ensures var p := LinePoint(x1, y1, x2, y2, i);
            if Abs(y2 - y1) > Abs(x2 - x1) then
              p.1 == y1 + Along(Sign(y2 - y1), i)
              && 2 * Abs((p.0 - x1) * (y2 - y1) - (p.1 - y1) * (x2 - x1)) <= Abs(y2 - y1)
            else
              p.0 == x1 + Along(Sign(x2 - x1), i)
              && 2 * Abs((p.1 - y1) * (x2 - x1) - (p.0 - x1) * (y2 - y1)) <= Abs(x2 - x1)
  {
    var p := LinePoint(x1, y1, x2, y2, i);
    var dx, dy := Abs(x2 - x1), Abs(y2 - y1);
    if dy > dx {
      OffsetWithinHalf(i, dx, dy);
      Turned(Sign(y2 - y1), Sign(x2 - x1), i, Offset(i, dx, dy), dy, dx);
    } else if dx > 0 {
      OffsetWithinHalf(i, dy, dx);
      Turned(Sign(x2 - x1), Sign(y2 - y1), i, Offset(i, dy, dx), dx, dy);
    }
  }

  /** The distance from the segment does not depend on the direction. */
  lemma Turned(sa: int, sb: int, i: int, m: int, da: int, db: int)
    requires sa in {-1, 1} && sb in {-1, 1}
    ensures Abs(Along(sb, m) * Along(sa, da) - Along(sa, i) * Along(sb, db)) == Abs(da * m - db * i)
  {
    var a, b := m * da, i * db;
    assert -m * da == -a && m * -da == -a && -m * -da == a;
    assert -i * db == -b && i * -db == -b && -i * -db == b;
  }

  /** Successive points differ by at most one pixel on each axis, and they do differ. */
  lemma NeighboursTouch(x1: int, y1: int, x2: int, y2: int, i: nat)
    requires i < Steps(x1, y1, x2, y2)
    ensures var p, q := LinePoint(x1, y1, x2, y2, i), LinePoint(x1, y1, x2, y2, i + 1);
            Abs(q.0 - p.0) <= 1 && Abs(q.1 - p.1) <= 1 && p != q
  {
    OffsetsTouch(i, Min(Abs(x2 - x1), Abs(y2 - y1)), Steps(x1, y1, x2, y2));
  }

  lemma OffsetEnds(minor: nat, major: nat)
    requires major > 0
    ensures Offset(0, minor, major) == 0 && Offset(major, minor, major) == minor
  {
    NearestIs(0, major, 0);
    NearestIs(minor * major, major, minor);
  }

  lemma SignedDistance(a: int, b: int)
    ensures a + Along(Sign(b - a), Abs(b - a)) == b
  {
  }

  /** The walk starts and ends exactly on the end points. */
  lemma WalkEndsExactly(x1: int, y1: int, x2: int, y2: int)
    ensures LinePoint(x1, y1, x2, y2, 0) == (x1, y1)
    ensures LinePoint(x1, y1, x2, y2, Steps(x1, y1, x2, y2)) == (x2, y2)
  {
    var dx, dy := Abs(x2 - x1), Abs(y2 - y1);
    SignedDistance(x1, x2);
    SignedDistance(y1, y2);
    if Max(dx, dy) > 0 { OffsetEnds(Min(dx, dy), Max(dx, dy)); }
  }

  /** The error term after the inner loop decides the next offset. */
  lemma OffsetIs(i: nat, minor: nat, major: nat, m: nat, e: int)
    requires major > 0 && e == 2 * (minor * i) - major - 2 * (major * m) && -2 * major <= e < 0
    ensures Offset(i, minor, major) == m
  {
    NearestIs(minor * i, major, m);
  }

  lemma ErrorStep(i: nat, minor: nat, major: nat, m: nat, e: int)
    requires e == 2 * (minor * i) - major - 2 * (major * m)
    ensures e + 2 * minor == 2 * (minor * (i + 1)) - major - 2 * (major * m)
  {
    assert minor * (i + 1) == minor * i + minor;
  }

  /** The error term before the inner loop: not below -2 * major. */
  lemma ErrorBound(i: nat, minor: nat, major: nat, e: int)
    requires major > 0
    requires e == 2 * (minor * (i + 1)) - major - 2 * (major * Offset(i, minor, major))
    ensures -2 * major <= e
  {
    NearestBounds(minor * i, major);
    assert minor * (i + 1) == minor * i + minor;
  }

  /** The inner loop of line: one minor step for each 2 * dx taken off the error term. */
  method StepMinor(e0: int, y0: int, sy: int, dx: nat, ghost dy: nat, ghost i: nat, ghost m0: nat)
    returns (e: int, y: int, ghost m: nat)
    requires dx > 0 && sy in {-1, 1}
    requires e0 == 2 * (dy * i) - dx - 2 * (dx * m0) && -2 * dx <= e0
    ensures -2 * dx <= e < 0
    ensures e == 2 * (dy * i) - dx - 2 * (dx * m)
    ensures y - Along(sy, m) == y0 - Along(sy, m0)
  {
    e, y, m := e0, y0, m0;
    while e >= 0
      invariant -2 * dx <= e
      invariant e == 2 * (dy * i) - dx - 2 * (dx * m)
      invariant y - Along(sy, m) == y0 - Along(sy, m0)
    {
      y := y + sy;
      e := e - 2 * dx;
      assert dx * (m + 1) == dx * m + dx;
      m := m + 1;
    }
  }

  /** The variables of line after its prologue: `a` runs along the major axis. */
  ghost predicate Prepared(x1: int, y1: int, x2: int, y2: int,
                           a: int, b: int, da: int, db: int, sa: int, sb: int, steep: bool)
  {
    && steep == (Abs(y2 - y1) > Abs(x2 - x1))
    && if steep then
         a == y1 && b == x1 && da == Abs(y2 - y1) && db == Abs(x2 - x1) && sa == Sign(y2 - y1) && sb == Sign(x2 - x1)
       else
         a == x1 && b == y1 && da == Abs(x2 - x1) && db == Abs(y2 - y1) && sa == Sign(x2 - x1) && sb == Sign(y2 - y1)
  }

  lemma PreparedPoint(x1: int, y1: int, x2: int, y2: int,
                      a: int, b: int, da: int, db: int, sa: int, sb: int, steep: bool, i: nat)
    requires Prepared(x1, y1, x2, y2, a, b, da, db, sa, sb, steep) && i < da
    ensures var major, minor := a + Along(sa, i), b + Along(sb, Offset(i, db, da));
            LinePoint(x1, y1, x2, y2, i) == if steep then (minor, major) else (major, minor)
  {
  }

  /** The main loop of line. */
  method Walk(fb: FrameBuffer, ghost x1: int, ghost y1: int, ghost x2: int, ghost y2: int,
              a0: int, b0: int, da: nat, db: nat, sa: int, sb: int, steep: bool, col: Color)
    requires fb.Valid() && Prepared(x1, y1, x2, y2, a0, b0, da, db, sa, sb, steep)
    modifies fb.buf
    ensures fb.Paints(LinePoints(x1, y1, x2, y2, da), col)
  {
    var a, b := a0, b0;
    var e := 2 * db - da;
    ghost var s := fb.buf[..];
    ghost var m := 0;
    PaintNothing(fb.Geometry(), s, col);
    assert LinePoints(x1, y1, x2, y2, 0) == iset{};
    if da > 0 { OffsetEnds(db, da); }
    for i := 0 to da
      invariant e == 2 * (db * (i + 1)) - da - 2 * (da * m)
      invariant da > 0 ==> m == Offset(i, db, da)
      invariant a == a0 + Along(sa, i) && b == b0 + Along(sb, m)
      invariant Painted(fb.Geometry(), s, fb.buf[..], LinePoints(x1, y1, x2, y2, i), col)
    {
      ghost var t := fb.buf[..];
      PreparedPoint(x1, y1, x2, y2, a0, b0, da, db, sa, sb, steep, i);
      if steep {
        fb.SetPixelChecked(b, a, col, true);
      } else {
        fb.SetPixelChecked(a, b, col, true);
      }
      NextPoint(fb, s, t, fb.buf[..], x1, y1, x2, y2, i, col);
      ErrorBound(i, db, da, e);
      e, b, m := StepMinor(e, b, sb, da, db, i + 1, m);
      a := a + sa;
      OffsetIs(i + 1, db, da, m, e);
      ErrorStep(i + 1, db, da, m, e);
      e := e + 2 * db;
    }
  }

  /** line: any end points, clipped pixel by pixel. */
  method Line(fb: FrameBuffer, fromX: int, fromY: int, x2: int, y2: int, col: Color)
    requires fb.Valid()
    modifies fb.buf
    ensures fb.Paints(LinePoints(fromX, fromY, x2, y2, Steps(fromX, fromY, x2, y2) + 1), col)
  {
    var x1, y1 := fromX, fromY;
    var dx, sx := x2 - x1, 1;
    if !(dx > 0) {
      dx, sx := -dx, -1;
    }
    var dy, sy := y2 - y1, 1;
    if !(dy > 0) {
      dy, sy := -dy, -1;
    }
    var steep := false;
    if dy > dx {
      x1, y1 := y1, x1;
      dx, dy := dy, dx;
      sx, sy := sy, sx;
      steep := true;
    }
    ghost var s := fb.buf[..];
    Walk(fb, fromX, fromY, x2, y2, x1, y1, dx, dy, sx, sy, steep, col);
    ghost var t := fb.buf[..];
    WalkEndsExactly(fromX, fromY, x2, y2);
    fb.SetPixelChecked(x2, y2, col, true);
    NextPoint(fb, s, t, fb.buf[..], fromX, fromY, x2, y2, dx, col);
  }

  lemma NextPoint(fb: FrameBuffer, s: seq<bv8>, t: seq<bv8>, u: seq<bv8>,
                  x1: int, y1: int, x2: int, y2: int, i: nat, col: Color)
    requires fb.Valid() && |s| == fb.buf.Length
    requires Painted(fb.Geometry(), s, t, LinePoints(x1, y1, x2, y2, i), col)
    requires var p := LinePoint(x1, y1, x2, y2, i); Painted(fb.Geometry(), t, u, Dot(p.0, p.1), col)
    ensures Painted(fb.Geometry(), s, u, LinePoints(x1, y1, x2, y2, i + 1), col)
  {
    var p := LinePoint(x1, y1, x2, y2, i);
    PaintTwice(fb.Geometry(), s, t, u, LinePoints(x1, y1, x2, y2, i), Dot(p.0, p.1), col);
    assert LinePoints(x1, y1, x2, y2, i + 1) == LinePoints(x1, y1, x2, y2, i) + Dot(p.0, p.1);
  }
}
