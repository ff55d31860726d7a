/** Polygons and ellipses in 32-bit two's complement arithmetic: the coordinates and radii for which the
    variables of their loops are the integers of `Polygons` and `Ellipses`, and some for which they are
    not. */
module WordRanges {
  import opened Polygons
  import opened Ellipses

  const LIMIT := 0x8000_0000

  predicate InWord(n: int) { -LIMIT <= n < LIMIT }

  /** The value that is stored for `n`. */
  function Word(n: int): (w: int)
    ensures InWord(w) && (InWord(n) ==> w == n)
  {
    (n + LIMIT) % (2 * LIMIT) - LIMIT
  }

  /** It differs from `n` by a multiple of 2^32. */
  lemma WordIs(n: int)
    ensures -0x8000_0000 <= Word(n) <= 0x7fff_ffff && (n - Word(n)) % 0x1_0000_0000 == 0
  {
  }

  // ---------- nodes of polygons ----------

  /** The node as it is computed. */
  function NodeWord(x1: int, y1: int, x2: int, y2: int, row: int): int
    requires Word(y2 - y1) != 0
  {
    var p := Word(Word(32 * Word(x2 - x1)) * Word(row - y1));
    var q := Word(TruncDiv(p, Word(y2 - y1)));
    TruncDiv(Word(Word(Word(32 * x1) + q) + 16), 32)
  }

  /** The one intermediate value that may leave the range. */
  function Product(x1: int, y1: int, x2: int, row: int): int { 32 * (x2 - x1) * (row - y1) }

  /** The columns and rows with which the others stay in it. */
  predicate Near(x: int, y: int) { -0x200_0000 < x < 0x200_0000 && -0x2000_0000 <= y < 0x2000_0000 }

  /** A part of `w` lies between 0 and `w`. */
  lemma QuotientWithin(w: int, r: int, h: int)
    requires h != 0 && (0 <= r <= h || h <= r <= 0)
    ensures var q := TruncDiv(w * r, h); if w >= 0 then 0 <= q <= w else w <= q <= 0
  {
    if h < 0 {
      QuotientFlipped(w * r, h);
      assert -(w * r) == w * -r;
      QuotientUpwards(w, -r, -h);
    } else {
      QuotientUpwards(w, r, h);
    }
  }

  lemma QuotientFlipped(p: int, h: int)
    requires h < 0
    ensures TruncDiv(p, h) == TruncDiv(-p, -h)
  {
    if p == 0 { assert 0 / -h == 0; }
  }

  lemma QuotientUpwards(w: int, r: int, h: int)
    requires h > 0 && 0 <= r <= h
    ensures var q := TruncDiv(w * r, h); if w >= 0 then 0 <= q <= w else w <= q <= 0
  {
    if w >= 0 {
      FloorWithin(w, r, h);
    } else {
      FloorWithin(-w, r, h);
      assert w * r == -(-w * r);
      assert TruncDiv(w * r, h) == -(-w * r / h) by {
        if w * r == 0 { assert 0 / h == 0; }
      }
    }
  }

  lemma FloorWithin(w: int, r: int, h: int)
    requires w >= 0 && 0 <= r <= h && h > 0
    ensures 0 <= w * r / h <= w && w * r >= 0
  {
    MulLe(r, h, w);
    MulLe(0, r, w);
    FloorBelow(w * r, w, h);
  }

  lemma FloorBelow(p: int, w: int, h: int)
    requires 0 <= p <= h * w && h > 0
    ensures p / h <= w
  {
    var q := p / h;
    assert p == h * q + p % h;
    assert h * (w + 1) == h * w + h;
    if q > w { MulLe(w + 1, q, h); }
  }

  /** For an edge that crosses the row the node is as in `Polygons` if the product fits. */
  lemma NodeFits(x1: int, y1: int, x2: int, y2: int, row: int)
    requires Near(x1, y1) && Near(x2, y2) && CrossesRow(y1, y2, row) && InWord(Product(x1, y1, x2, row))
    ensures Word(y2 - y1) == y2 - y1 && NodeWord(x1, y1, x2, y2, row) == NodeAt(x1, y1, x2, y2, row)
  {
    var w, r, h := 32 * (x2 - x1), row - y1, y2 - y1;
    QuotientWithin(w, r, h);
    assert InWord(w) && InWord(r) && InWord(h);
    assert Word(w * r) == w * r;
  }

  /** Coordinates for which it always does. */
  predicate Moderate(x: int, y: int) { -4095 <= x <= 4095 && -4095 <= y <= 4095 }

  lemma ModerateFits(x1: int, y1: int, x2: int, y2: int, row: int)
    requires Moderate(x1, y1) && Moderate(x2, y2) && CrossesRow(y1, y2, row)
    ensures InWord(Product(x1, y1, x2, row))
  {
    var w, r := x2 - x1, row - y1;
    ProductWithin(w, r, 8190, 8190);
    assert Product(x1, y1, x2, row) == 32 * (w * r) by { assert 32 * w * r == 32 * (w * r); }
    assert 32 * (8190 * 8190) < LIMIT;
  }

  lemma ProductWithin(a: int, b: int, m: int, n: int)
    requires -m <= a <= m && -n <= b <= n
    ensures -(m * n) <= a * b <= m * n
  {
    var c, d := if a >= 0 then a else -a, if b >= 0 then b else -b;
    MulLe(c, m, d);
    MulLe(d, n, m);
    assert a * b == c * d || a * b == -(c * d);
  }

  /** The nodes of the first k edges, as they are computed. */
  function NodesWord(d: Vertices, row: int, k: nat): seq<int>
    requires k <= Count(d) && forall i | 0 <= i < Count(d) :: Near(X(d, i), Y(d, i))
  {
    if k == 0 then []
    else
      var i, nodes := Count(d) - k, NodesWord(d, row, k - 1);
      if EdgeCrosses(d, i, row)
      then nodes + [NodeWord(X(d, From(d, i)), Y(d, From(d, i)), X(d, i), Y(d, i), row)]
      else nodes
  }

  /** A polygon with moderate coordinates has the nodes of `Polygons` on every row. */
  lemma {:induction false} ModerateNodes(d: Vertices, row: int, k: nat)
    requires k <= Count(d) && forall i | 0 <= i < Count(d) :: Moderate(X(d, i), Y(d, i))
    ensures forall i | 0 <= i < Count(d) :: Near(X(d, i), Y(d, i))
    ensures NodesWord(d, row, k) == Nodes(d, row, k)
    decreases k
  {
    if k > 0 {
      ModerateNodes(d, row, k - 1);
      var i := Count(d) - k;
      if EdgeCrosses(d, i, row) {
        var j := From(d, i);
        ModerateFits(X(d, j), Y(d, j), X(d, i), Y(d, i), row);
        NodeFits(X(d, j), Y(d, j), X(d, i), Y(d, i), row);
      }
    }
  }

  /** An edge within 16-bit coordinates whose node is lost: the product is 2^32. */
  lemma LongEdgeWraps()
    ensures NodeAt(0, 0, 16384, 8193, 8192) == 16382 && NodeWord(0, 0, 16384, 8193, 8192) == 0
  {
    assert 4294967296 / 8193 == 524224;
  }

  // ---------- ellipses ----------

  function StartWord(a: int, b: int): Pass {
    Pass(a, 0, 0, Word(Word(b * b) * Word(1 - Word(2 * a))), Word(a * a), Word(TwiceSquare(b) * a), 0)
  }

  /** two_asquare, two_bsquare */
  function TwiceSquare(a: int): int { Word(Word(2 * a) * a) }

  function StepWord(twoA: int, twoB: int, s: Pass): Pass {
    var y := Word(s.y + 1);
    var stoppingy := Word(s.stoppingy + twoA);
    var error := Word(s.error + s.ychange);
    var ychange := Word(s.ychange + twoA);
    if Word(Word(2 * error) + s.xchange) > 0 then
      Pass(Word(s.x - 1), y, Word(error + s.xchange), Word(s.xchange + twoB), ychange, Word(s.stoppingx - twoB),
           stoppingy)
    else
      Pass(s.x, y, error, s.xchange, ychange, s.stoppingx, stoppingy)
  }

  function AfterWord(a: int, b: int, n: nat): Pass {
    if n == 0 then StartWord(a, b) else StepWord(TwiceSquare(a), TwiceSquare(b), AfterWord(a, b, n - 1))
  }

  /** The radii for which all terms stay in the range. */
  predicate Small(a: int, b: int) { -700 <= a <= 700 && -700 <= b <= 700 }

  lemma SquaresSmall(a: int, b: int)
    requires Small(a, b)
    ensures 0 <= a * a <= 490000 && 0 <= b * b <= 490000 && -343000000 <= b * b * a <= 343000000
  {
    ProductWithin(a, a, 700, 700);
    ProductWithin(b, b, 700, 700);
    Square(a);
    Square(b);
    ProductWithin(b * b, a, 490000, 700);
  }

  lemma StartFits(a: int, b: int)
    requires Small(a, b)
    ensures StartWord(a, b) == Start(a, b) && TwiceSquare(a) == 2 * (a * a) && TwiceSquare(b) == 2 * (b * b)
  {
    SquaresSmall(a, b);
    var A, B := a * a, b * b;
    assert TwiceSquare(a) == 2 * A by { assert 2 * a * a == 2 * A; }
    assert TwiceSquare(b) == 2 * B by { assert 2 * b * b == 2 * B; }
    assert Word(Word(B) * Word(1 - Word(2 * a))) == B * (1 - 2 * a) by { assert B * (1 - 2 * a) == B - 2 * (B * a); }
    assert Word(2 * B * a) == 2 * b * b * a by { assert 2 * b * b * a == 2 * B * a == 2 * (B * a); }
  }

  /** The values between two iterations, when the products of the squared radii with x and y are at most P. */
  predicate Bounded(A: int, B: int, P: int, s: Pass) {
    && 0 <= s.stoppingx <= 2 * P && 0 <= s.stoppingy <= 2 * P && s.xchange == B - s.stoppingx
    && s.ychange == A + s.stoppingy && -P - B <= s.error <= P && -701 <= s.x <= 701 && 0 <= s.y <= P
  }

  lemma StepFits(A: int, B: int, P: int, s: Pass)
    requires 0 <= A <= 490000 && 0 <= B <= 490000 && 0 <= P <= 343000000 && Bounded(A, B, P, s)
    ensures StepWord(2 * A, 2 * B, s) == Step(A, B, s)
  {
  }

  /** x only goes down. */
  lemma {:induction false} NotRightOf(a: int, b: int, n: nat)
    ensures After(a, b, n).x <= a
  {
    if n > 0 { NotRightOf(a, b, n - 1); }
  }

  lemma BestBounded(A: int, B: int, a: int, s: Pass)
    requires A >= 1 && B >= 1 && Closed(A, B, s) && OnBest(B, s) && Running(s) && s.y >= 0 && s.x <= a <= 700
    ensures Bounded(A, B, B * a, s)
  {
    MulLe(s.x, a, B);
    MulLe(0, s.x, B);
    MulLe(0, s.y, A);
    MulLe(1, A, s.y);
  }

  lemma FlatBounded(A: int, B: int, a: int, s: Pass)
    requires A == a * a && B >= 0 && B * a == 0 && -700 <= a <= 700 && Closed(A, B, s) && s.y == 0 && s.x == a
    ensures Bounded(A, B, 0, s)
  {
    assert A * 0 == 0 && A * (0 * 0) == 0;
    assert Error(A, B, a, 0) == B * A - A * B == 0;
  }

  lemma RunningFits(a: int, b: int, s: Pass)
    requires Small(a, b) && Closed(a * a, b * b, s) && Tracks(a, b, s) && Running(s) && s.y >= 0 && s.x <= a
    ensures StepWord(2 * (a * a), 2 * (b * b), s) == Step(a * a, b * b, s)
  {
    SquaresSmall(a, b);
    if a == 0 || b == 0 {
      Degenerate(a, b);
      FlatFits(a * a, b * b, a, s);
    } else {
      Square(a);
      Square(b);
      BestFits(a * a, b * b, a, s);
    }
  }

  lemma FlatFits(A: int, B: int, a: int, s: Pass)
    requires A == a * a && 0 <= A <= 490000 && 0 <= B <= 490000 && B * a == 0 && -700 <= a <= 700
    requires Closed(A, B, s) && s.y == 0 && s.x == a
    ensures StepWord(2 * A, 2 * B, s) == Step(A, B, s)
  {
    FlatBounded(A, B, a, s);
    StepFits(A, B, 0, s);
  }

  lemma BestFits(A: int, B: int, a: int, s: Pass)
    requires 1 <= A <= 490000 && 1 <= B <= 490000 && 0 <= a <= 700 && B * a <= 343000000
    requires Closed(A, B, s) && OnBest(B, s) && Running(s) && s.y >= 0 && s.x <= a
    ensures StepWord(2 * A, 2 * B, s) == Step(A, B, s)
  {
    BestBounded(A, B, a, s);
    MulLe(0, a, B);
    StepFits(A, B, B * a, s);
  }

  /** For small radii the loop goes through the same states in words, to its end. */
  lemma {:induction false} SmallRadiiAgree(a: int, b: int, n: nat)
    requires Small(a, b) && (a != 0 || b != 0) && RunsFor(a, b, n)
    ensures AfterWord(a, b, n) == After(a, b, n)
  {
    if n == 0 {
      StartFits(a, b);
    } else {
      var s := After(a, b, n - 1);
      assert AfterWord(a, b, n - 1) == s by { SmallRadiiAgree(a, b, n - 1); }
      NextWord(a, b, n - 1);
    }
  }

  lemma NextWord(a: int, b: int, n: nat)
    requires Small(a, b) && (a != 0 || b != 0) && RunsFor(a, b, n) && Running(After(a, b, n))
    requires AfterWord(a, b, n) == After(a, b, n)
    ensures AfterWord(a, b, n + 1) == After(a, b, n + 1)
  {
    StartFits(a, b);
    NextFits(a, b, n);
  }

  lemma NextFits(a: int, b: int, n: nat)
    requires Small(a, b) && (a != 0 || b != 0) && RunsFor(a, b, n) && Running(After(a, b, n))
    ensures StepWord(2 * (a * a), 2 * (b * b), After(a, b, n)) == Step(a * a, b * b, After(a, b, n))
  {
    AlwaysTracks(a, b, n);
    NotRightOf(a, b, n);
    RunningFits(a, b, After(a, b, n));
  }

  /** With both radii 65536 all squares are 0 modulo 2^32: the loop never ends. */
  lemma {:induction false} LargeRadiiNeverEnd(n: nat)
    ensures Running(AfterWord(0x10000, 0x10000, n))
  {
    LargeRadiiStay(n);
  }

  predicate AllZero(s: Pass) {
    s.stoppingx == 0 && s.stoppingy == 0 && s.error == 0 && s.xchange == 0 && s.ychange == 0
  }

  lemma ZeroStays(s: Pass)
    requires AllZero(s)
    ensures AllZero(StepWord(0, 0, s))
  {
  }

  lemma LargeSquares()
    ensures TwiceSquare(0x10000) == 0 && AllZero(StartWord(0x10000, 0x10000))
  {
    assert Word(0x10000 * 0x10000) == 0 && Word(2 * 0x10000) == 0x20000 && Word(0x20000 * 0x10000) == 0;
  }

  lemma {:induction false} LargeRadiiStay(n: nat)
    ensures AllZero(AfterWord(0x10000, 0x10000, n))
  {
    LargeSquares();
    if n > 0 {
      LargeRadiiStay(n - 1);
      ZeroStays(AfterWord(0x10000, 0x10000, n - 1));
    }
  }
}
