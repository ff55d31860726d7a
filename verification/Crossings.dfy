/** Where the nodes of the polygon fill lie on the plane: how far from the edges, when they move with
    the polygon, and which pixels between them are inside. */
module Crossings {
  import opened Pixels
  import opened FrameBuffers
  import opened Lines
  import opened Polygons

  // ---------- one edge ----------

  /** The node in thirty-seconds of a pixel, before the last division. */
  function Fine(x1: int, y1: int, x2: int, y2: int, row: int): int
    requires y1 != y2
  {
    32 * x1 + TruncDiv(32 * (x2 - x1) * (row - y1), y2 - y1) + 16
  }

  /** How far right of column u the edge meets the middle of the row, times the height of the edge. */
  function Beyond(x1: int, y1: int, x2: int, y2: int, row: int, u: int): int {
    var a := (x1 - u) * (y2 - y1) + (x2 - x1) * (row - y1);
    if y1 < y2 then a else -a
  }

  lemma FloorNear(a: int, b: int)
    requires b > 0
    ensures 0 <= a - (a / b) * b < b
  {
    assert a == b * (a / b) + a % b;
  }

  lemma TruncDivNear(a: int, b: int)
    requires b != 0
    ensures Abs(a - TruncDiv(a, b) * b) < Abs(b)
  {
    var m, c := if (a >= 0) == (b > 0) == (b > 0) then a else -a, Abs(b);
    FloorNear(m, c);
    Signs(m / c, c);
  }

  lemma Signs(q: int, c: int)
    ensures q * -c == -(q * c) && -q * c == -(q * c) && -q * -c == q * c
  {
  }

  lemma Spread(a: int, u: int, h: int, p: int, q: int)
    ensures 32 * ((a - u) * h + p) == (32 * a + q - 32 * u) * h + (32 * p - q * h)
  {
  }

  /** `c` heights and a rest that is less than a height. */
  lemma LessThanOneOff(c: int, h: int, e: int)
    requires h != 0 && Abs(e) < Abs(h)
    ensures (c - 1) * Abs(h) < (if h > 0 then c * h + e else -(c * h + e)) < (c + 1) * Abs(h)
  {
    Signs(c, Abs(h));
    var m: int := Abs(h);
    assert (c - 1) * m == c * m - m && (c + 1) * m == c * m + m;
  }

  /** The fine node is less than one unit off the edge. */
  lemma FineNear(x1: int, y1: int, x2: int, y2: int, row: int, u: int)
    requires y1 != y2
    ensures var n, h := Fine(x1, y1, x2, y2, row), Abs(y2 - y1);
            (n - 32 * u - 17) * h < 32 * Beyond(x1, y1, x2, y2, row, u) < (n - 32 * u - 15) * h
  {
    var h, p := y2 - y1, (x2 - x1) * (row - y1);
    var q := TruncDiv(32 * (x2 - x1) * (row - y1), h);
    assert 32 * (x2 - x1) * (row - y1) == 32 * p;
    TruncDivNear(32 * p, h);
    Spread(x1, u, h, p, q);
    LessThanOneOff(32 * x1 + q - 32 * u, h, 32 * p - q * h);
  }

  /** A node is within seventeen thirty-seconds of a pixel of its edge, unless the fine node is negative:
      then the division rounds the other way, and the node is between fifteen thirty-seconds and one and
      a half pixels right of the edge. */
  lemma NodeNear(x1: int, y1: int, x2: int, y2: int, row: int)
    requires y1 != y2
    ensures var b, h := 32 * Beyond(x1, y1, x2, y2, row, NodeAt(x1, y1, x2, y2, row)), Abs(y2 - y1);
            if Fine(x1, y1, x2, y2, row) >= 0 then -17 * h < b < 16 * h else -48 * h < b < -15 * h
  {
    var n, u, h := Fine(x1, y1, x2, y2, row), NodeAt(x1, y1, x2, y2, row), Abs(y2 - y1);
    FineNear(x1, y1, x2, y2, row, u);
    if n >= 0 {
      assert 0 <= n - 32 * u <= 31;
      Scaled(n - 32 * u - 17, -17, h);
      Scaled(16, n - 32 * u - 15, h);
    } else {
      assert -31 <= n - 32 * u <= 0;
      Scaled(n - 32 * u - 17, -48, h);
      Scaled(-15, n - 32 * u - 15, h);
    }
  }

  lemma Scaled(a: int, b: int, h: nat)
    requires a >= b
    ensures a * h >= b * h
  {
  }

  lemma Rounded(n: int)
    ensures var u := TruncDiv(n, 32); if n >= 0 then 0 <= n - 32 * u < 32 else -32 < n - 32 * u <= 0
  {
  }

  /** A node lies on the same side of a pixel as its edge, or, when the fine node is negative and the
      edge is left of the pixel, on the pixel. */
  lemma NodeSide(x1: int, y1: int, x2: int, y2: int, row: int, u: int)
    requires y1 != y2
    ensures var b, h, node := 32 * Beyond(x1, y1, x2, y2, row, u), Abs(y2 - y1), NodeAt(x1, y1, x2, y2, row);
            && (b <= -17 * h ==> node <= u && (node == u ==> Fine(x1, y1, x2, y2, row) < 0))
            && (16 * h <= b ==> node > u)
  {
    var n, h := Fine(x1, y1, x2, y2, row), Abs(y2 - y1);
    FineNear(x1, y1, x2, y2, row, u);
    if n - 32 * u >= 0 { Scaled(n - 32 * u - 17, -17, h); }
    if n - 32 * u <= 31 { Scaled(16, n - 32 * u - 15, h); }
    Rounded(n);
  }

  /** Moving an edge by whole pixels moves its node with it if and only if the fine node keeps its
      sign, or needs no rounding. */
  lemma NodeMoves(x1: int, y1: int, x2: int, y2: int, row: int, t: int)
    requires y1 != y2
    ensures var n := Fine(x1, y1, x2, y2, row);
            NodeAt(x1 + t, y1, x2 + t, y2, row) == NodeAt(x1, y1, x2, y2, row) + t
            <==> (n >= 0 <==> n + 32 * t >= 0) || n % 32 == 0
  {
    assert (x2 + t) - (x1 + t) == x2 - x1;
    RoundMoves(Fine(x1, y1, x2, y2, row), t);
  }

  lemma RoundMoves(n: int, t: int)
    ensures TruncDiv(n + 32 * t, 32) == TruncDiv(n, 32) + t <==> (n >= 0 <==> n + 32 * t >= 0) || n % 32 == 0
  {
    Rounded(n);
    Rounded(n + 32 * t);
  }

  // ---------- one row ----------

  function EdgeFine(d: Vertices, i: nat, row: int): int
    requires i < Count(d) && EdgeCrosses(d, i, row)
  {
    Fine(X(d, From(d, i)), Y(d, From(d, i)), X(d, i), Y(d, i), row)
  }

  function EdgeBeyond(d: Vertices, i: nat, row: int, u: int): int
    requires i < Count(d)
  {
    Beyond(X(d, From(d, i)), Y(d, From(d, i)), X(d, i), Y(d, i), row, u)
  }

  /** No crossing of the row is left of the first column by more than half a pixel. */
  ghost predicate NotLeft(d: Vertices, row: int) {
    forall i: nat | i < Count(d) && EdgeCrosses(d, i, row) :: EdgeFine(d, i, row) >= 0
  }

  /** No edge passes through the pixel at the middle of the row. */
  ghost predicate Clear(d: Vertices, row: int, u: int) {
    forall i: nat | i < Count(d) && EdgeCrosses(d, i, row) ::
      var b, h := 32 * EdgeBeyond(d, i, row, u), Abs(Y(d, i) - Y(d, From(d, i)));
      b <= -17 * h || 16 * h <= b
  }

  /** How many of the first k edges scanned cross the row left of column u. */
  function CrossingsLeft(d: Vertices, row: int, u: int, k: nat): nat
    requires k <= Count(d)
  {
    if k == 0 then 0
    else
      var i := Count(d) - k;
      CrossingsLeft(d, row, u, k - 1) + if EdgeCrosses(d, i, row) && EdgeBeyond(d, i, row, u) < 0 then 1 else 0
  }

  lemma {:induction false} AtOrLeftAppend(s: seq<int>, n: int, u: int)
    ensures AtOrLeft(s + [n], u) == AtOrLeft(s, u) + if n <= u then 1 else 0
  {
    if s == [] {
      assert s + [n] == [n];
    } else {
      assert (s + [n])[1..] == s[1..] + [n];
      AtOrLeftAppend(s[1..], n, u);
    }
  }

  /** An edge that crosses the row left of column u has its node there: it has been rounded right. */
  ghost predicate Stray(d: Vertices, row: int, u: int) {
    exists i: nat :: i < Count(d) && EdgeCrosses(d, i, row) && EdgeNode(d, i, row) == u && EdgeFine(d, i, row) < 0
                     && EdgeBeyond(d, i, row, u) < 0
  }

  /** The pixel is inside: an odd number of edges cross its row left of it. */
  predicate Inside(d: Vertices, row: int, u: int) { CrossingsLeft(d, row, u, Count(d)) % 2 == 1 }

  lemma EdgeSide(d: Vertices, i: nat, row: int, u: int)
    requires i < Count(d) && EdgeCrosses(d, i, row) && Clear(d, row, u)
    ensures EdgeNode(d, i, row) <= u <==> EdgeBeyond(d, i, row, u) < 0
    ensures EdgeNode(d, i, row) == u ==> Stray(d, row, u)
  {
    var b, h := 32 * EdgeBeyond(d, i, row, u), Abs(Y(d, i) - Y(d, From(d, i)));
    assert b <= -17 * h || 16 * h <= b;
    NodeSide(X(d, From(d, i)), Y(d, From(d, i)), X(d, i), Y(d, i), row, u);
  }

  lemma {:induction false} NodesAreCrossings(d: Vertices, row: int, u: int, k: nat)
    requires k <= Count(d) && Clear(d, row, u)
    ensures AtOrLeft(Nodes(d, row, k), u) == CrossingsLeft(d, row, u, k)
    ensures u in Nodes(d, row, k) ==> Stray(d, row, u)
    decreases k
  {
    if k > 0 {
      var i := Count(d) - k;
      NodesAreCrossings(d, row, u, k - 1);
      MoreNodes(d, row, k - 1);
      if EdgeCrosses(d, i, row) {
        EdgeSide(d, i, row, u);
        NodeAppended(Nodes(d, row, k - 1), EdgeNode(d, i, row), u, Nodes(d, row, k));
      }
    }
  }

  lemma NodeAppended(s: seq<int>, n: int, u: int, t: seq<int>)
    requires t == s + [n]
    ensures AtOrLeft(t, u) == AtOrLeft(s, u) + if n <= u then 1 else 0
    ensures u in t <==> u in s || u == n
  {
    AtOrLeftAppend(s, n, u);
  }

  lemma {:induction false} EdgeNodeIn(d: Vertices, row: int, i: nat, k: nat)
    requires i < Count(d) && EdgeCrosses(d, i, row) && Count(d) - i <= k <= Count(d)
    ensures EdgeNode(d, i, row) in Nodes(d, row, k)
    decreases k
  {
    MoreNodes(d, row, k - 1);
    if Count(d) - i < k { EdgeNodeIn(d, row, i, k - 1); }
  }

  /** A pixel that no edge passes through is filled exactly when it is inside, or a lower end, or the
      stray node of an edge left of it. */
  lemma FillsInside(d: Vertices, row: int, u: int)
    requires Clear(d, row, u)
    ensures (u, row) in RowPoints(d, row)
            <==> Inside(d, row, u) || Stray(d, row, u) || (u, row) in LowerEnds(d, row, Count(d))
  {
    NodesAreCrossings(d, row, u, Count(d));
    if Stray(d, row, u) {
      var i: nat :| i < Count(d) && EdgeCrosses(d, i, row) && EdgeNode(d, i, row) == u && EdgeFine(d, i, row) < 0
                    && EdgeBeyond(d, i, row, u) < 0;
      EdgeNodeIn(d, row, i, Count(d));
    }
  }

  /** The fill is right about such a pixel if and only if no stray node stands on it that is outside. */
  lemma FillsRightly(d: Vertices, row: int, u: int)
    requires Clear(d, row, u)
    ensures ((u, row) in RowPoints(d, row) <==> Inside(d, row, u) || (u, row) in LowerEnds(d, row, Count(d)))
            <==> (Stray(d, row, u) ==> Inside(d, row, u) || (u, row) in LowerEnds(d, row, Count(d)))
  {
    FillsInside(d, row, u);
  }

  /** Where no crossing is left of the first column, there are no stray nodes. */
  lemma NoStrays(d: Vertices, row: int, u: int)
    requires NotLeft(d, row)
    ensures !Stray(d, row, u)
  {
  }

  /** The whole polygon, pixel by pixel. */
  lemma FilledRightly(d: Vertices, u: int, y: int)
    requires Clear(d, y, u)
    ensures (u, y) in FilledPoints(d) <==> Inside(d, y, u) || Stray(d, y, u) || (u, y) in LowerEnds(d, y, Count(d))
  {
    FillsInside(d, y, u);
    forall row | (u, y) in RowPoints(d, row) ensures row == y { InOwnRow(d, row, u, y); }
  }

  lemma InOwnRow(d: Vertices, row: int, u: int, y: int)
    requires (u, y) in RowPoints(d, row)
    ensures row == y
  {
    forall i: nat | i < Count(d) && (u, y) in LowerEnd(d, i, row) ensures row == y { }
  }

  // ---------- polygons right of the first column ----------

  lemma TruncAtLeast(a: int, b: int, m: int)
    requires b != 0 && m <= 0 && (if b > 0 then m * b <= a else a <= m * b)
    ensures TruncDiv(a, b) >= m
  {
    TruncDivNear(a, b);
    var q := TruncDiv(a, b);
    if q < m {
      if b > 0 { Scaled(m, q + 1, b); } else { Scaled(m, q + 1, -b); }
    }
  }

  lemma BetweenEnds(x1: int, x2: int, r: int, h: int)
    requires x1 >= 0 && x2 >= 0 && (0 <= r <= h || h <= r <= 0)
    ensures if h > 0 then -32 * x1 * h <= 32 * (x2 - x1) * r else h == 0 || 32 * (x2 - x1) * r <= -32 * x1 * h
  {
    if h > 0 {
      assert (x2 - x1) * r + x1 * h == x2 * r + x1 * (h - r);
      assert x2 * r >= 0 && x1 * (h - r) >= 0;
    } else {
      assert -((x2 - x1) * r + x1 * h) == x2 * (-r) + x1 * (r - h);
      assert x2 * (-r) >= 0 && x1 * (r - h) >= 0;
    }
  }

  lemma FineOfPositive(x1: int, y1: int, x2: int, y2: int, row: int)
    requires x1 >= 0 && x2 >= 0 && CrossesRow(y1, y2, row)
    ensures Fine(x1, y1, x2, y2, row) >= 16
  {
    BetweenEnds(x1, x2, row - y1, y2 - y1);
    TruncAtLeast(32 * (x2 - x1) * (row - y1), y2 - y1, -32 * x1);
  }

  /** A polygon without negative columns. */
  lemma PositiveNotLeft(d: Vertices, row: int)
    requires forall i: nat | i < Count(d) :: X(d, i) >= 0
    ensures NotLeft(d, row)
  {
    forall i: nat | i < Count(d) && EdgeCrosses(d, i, row) ensures EdgeFine(d, i, row) >= 0 {
      FineOfPositive(X(d, From(d, i)), Y(d, From(d, i)), X(d, i), Y(d, i), row);
    }
  }

  // ---------- moving a polygon ----------

  /** The polygon t columns further right. */
  function Moved(d: Vertices, t: int): Vertices {
    seq(|d|, j requires 0 <= j < |d| => if j % 2 == 0 then d[j] + t else d[j])
  }

  function AllMoved(s: seq<int>, t: int): seq<int> {
    seq(|s|, j requires 0 <= j < |s| => s[j] + t)
  }

  lemma VertexMoved(d: Vertices, t: int, i: nat)
    requires i < Count(d)
    ensures X(Moved(d, t), i) == X(d, i) + t && Y(Moved(d, t), i) == Y(d, i) && From(Moved(d, t), i) == From(d, i)
  {
  }

  /** Every node of the row moves with its edge. */
  ghost predicate NodesKeepPlace(d: Vertices, t: int, row: int) {
    forall i: nat | i < Count(d) && EdgeCrosses(d, i, row) ::
      (EdgeFine(d, i, row) >= 0 <==> EdgeFine(d, i, row) + 32 * t >= 0) || EdgeFine(d, i, row) % 32 == 0
  }

  lemma EdgeMoves(d: Vertices, t: int, row: int, i: nat)
    requires i < Count(d) && NodesKeepPlace(d, t, row)
    ensures EdgeCrosses(Moved(d, t), i, row) <==> EdgeCrosses(d, i, row)
    ensures EdgeCrosses(d, i, row) ==> EdgeNode(Moved(d, t), i, row) == EdgeNode(d, i, row) + t
  {
    VertexMoved(d, t, i);
    VertexMoved(d, t, From(d, i));
    if EdgeCrosses(d, i, row) {
      NodeMoves(X(d, From(d, i)), Y(d, From(d, i)), X(d, i), Y(d, i), row, t);
      assert EdgeFine(d, i, row) == EdgeFine(d, i, row);
    }
  }

  lemma MovedAppended(s: seq<int>, n: int, t: int, longer: seq<int>, moved: seq<int>)
    requires longer == s + [n] && moved == AllMoved(s, t) + [n + t]
    ensures moved == AllMoved(longer, t)
  {
  }

  datatype Crossing = Nowhere | At(node: int)

  /** Where the edges cross the row. */
  function Crossings(d: Vertices, row: int): seq<Crossing> {
    seq(Count(d), i requires 0 <= i < Count(d) => if EdgeCrosses(d, i, row) then At(EdgeNode(d, i, row)) else Nowhere)
  }

  /** The nodes of the last k edges, the last one first. */
  function Collected(cs: seq<Crossing>, k: nat): seq<int>
    requires k <= |cs|
  {
    if k == 0 then []
    else
      var c := cs[|cs| - k];
      Collected(cs, k - 1) + if c.At? then [c.node] else []
  }

  lemma {:induction false} NodesCollected(d: Vertices, row: int, k: nat)
    requires k <= Count(d)
    ensures Nodes(d, row, k) == Collected(Crossings(d, row), k)
    decreases k
  {
    if k > 0 {
      var cs, i := Crossings(d, row), Count(d) - k;
      NodesCollected(d, row, k - 1);
      assert cs[|cs| - k] == if EdgeCrosses(d, i, row) then At(EdgeNode(d, i, row)) else Nowhere;
      assert Collected(cs, k) == Collected(cs, k - 1) + if cs[i].At? then [cs[i].node] else [];
      MoreNodes(d, row, k - 1);
    }
  }

  lemma {:induction false} CollectedMove(cs: seq<Crossing>, ds: seq<Crossing>, t: int, k: nat)
    requires k <= |cs| == |ds|
    requires forall i | 0 <= i < |cs| :: ds[i] == if cs[i].At? then At(cs[i].node + t) else Nowhere
    ensures Collected(ds, k) == AllMoved(Collected(cs, k), t)
    decreases k
  {
    if k > 0 {
      CollectedMove(cs, ds, t, k - 1);
      var c := cs[|cs| - k];
      if c.At? { MovedAppended(Collected(cs, k - 1), c.node, t, Collected(cs, k), Collected(ds, k)); }
    }
  }

  lemma NodesMove(d: Vertices, t: int, row: int)
    requires NodesKeepPlace(d, t, row)
    ensures Nodes(Moved(d, t), row, Count(d)) == AllMoved(Nodes(d, row, Count(d)), t)
  {
    var cs, ds := Crossings(d, row), Crossings(Moved(d, t), row);
    forall i: nat | i < Count(d) ensures ds[i] == if cs[i].At? then At(cs[i].node + t) else Nowhere {
      EdgeMoves(d, t, row, i);
    }
    NodesCollected(d, row, Count(d));
    NodesCollected(Moved(d, t), row, Count(d));
    CollectedMove(cs, ds, t, Count(d));
  }

  lemma {:induction false} AtOrLeftMoved(s: seq<int>, t: int, u: int)
    ensures AtOrLeft(AllMoved(s, t), u) == AtOrLeft(s, u - t)
  {
    if s != [] {
      assert AllMoved(s, t)[1..] == AllMoved(s[1..], t);
      AtOrLeftMoved(s[1..], t, u);
    }
  }

  lemma EvenOddMoved(s: seq<int>, t: int, u: int)
    ensures EvenOdd(AllMoved(s, t), u) <==> EvenOdd(s, u - t)
  {
    AtOrLeftMoved(s, t, u);
    var m := AllMoved(s, t);
    if u - t in s {
      var j :| 0 <= j < |s| && s[j] == u - t;
      assert m[j] == u;
    }
  }

  lemma LowerEndMoved(d: Vertices, t: int, row: int, i: nat, u: int, y: int)
    requires i < Count(d)
    ensures (u, y) in LowerEnd(Moved(d, t), i, row) <==> (u - t, y) in LowerEnd(d, i, row)
  {
    VertexMoved(d, t, i);
    VertexMoved(d, t, From(d, i));
  }

  lemma LowerEndsMoved(d: Vertices, t: int, row: int, u: int, y: int)
    ensures (u, y) in LowerEnds(Moved(d, t), row, Count(d)) <==> (u - t, y) in LowerEnds(d, row, Count(d))
  {
    forall i: nat | i < Count(d)
      ensures (u, y) in LowerEnd(Moved(d, t), i, row) <==> (u - t, y) in LowerEnd(d, i, row)
    {
      LowerEndMoved(d, t, row, i, u, y);
    }
  }

  /** Then the filled pixels of the row move, too. */
  lemma RowMoves(d: Vertices, t: int, row: int, u: int, y: int)
    requires NodesKeepPlace(d, t, row)
    ensures (u, y) in RowPoints(Moved(d, t), row) <==> (u - t, y) in RowPoints(d, row)
  {
    NodesMove(d, t, row);
    EvenOddMoved(Nodes(d, row, Count(d)), t, u);
    LowerEndsMoved(d, t, row, u, y);
  }

  /** A square around the origin, of ten by ten pixels, and the same square without negative columns. */
  function Square(left: int): Vertices { [left, -5, left, 5, left + 10, 5, left + 10, -5] }

  lemma FourEdges(d: Vertices, row: int)
    requires Count(d) == 4
    requires EdgeCrosses(d, 0, row) && !EdgeCrosses(d, 1, row) && EdgeCrosses(d, 2, row) && !EdgeCrosses(d, 3, row)
    ensures Nodes(d, row, 4) == [EdgeNode(d, 2, row), EdgeNode(d, 0, row)]
  {
    MoreNodes(d, row, 0);
    MoreNodes(d, row, 1);
    MoreNodes(d, row, 2);
    MoreNodes(d, row, 3);
  }

  lemma SquareEdges(left: int, u: int)
    ensures var d := Square(left);
            && Count(d) == 4 && EdgeCrosses(d, 0, 0) && !EdgeCrosses(d, 1, 0) && EdgeCrosses(d, 2, 0)
               && !EdgeCrosses(d, 3, 0)
            && EdgeBeyond(d, 0, 0, u) == 10 * (left - u) && EdgeBeyond(d, 2, 0, u) == 10 * (left + 10 - u)
            && EdgeNode(d, 0, 0) == TruncDiv(32 * left + 16, 32) && EdgeNode(d, 2, 0) == TruncDiv(32 * left + 336, 32)
  {
  }

  lemma NoLowerEnds(d: Vertices, row: int)
    requires forall i: nat | i < Count(d) :: row != Max(Y(d, From(d, i)), Y(d, i))
    ensures LowerEnds(d, row, Count(d)) == iset{}
  {
    forall i: nat | i < Count(d) ensures LowerEnd(d, i, row) == iset{} { }
  }

  lemma SquareNodes(left: int)
    ensures Nodes(Square(left), 0, 4) == [TruncDiv(32 * left + 336, 32), TruncDiv(32 * left + 16, 32)]
  {
    SquareEdges(left, 0);
    FourEdges(Square(left), 0);
  }

  lemma SquareEnds(left: int)
    ensures LowerEnds(Square(left), 0, 4) == iset{}
  {
    NoLowerEnds(Square(left), 0);
  }

  lemma SquareMoved()
    ensures Moved(Square(-5), 5) == Square(0)
  {
  }

  lemma TwoNodes(a: int, b: int, u: int)
    ensures EvenOdd([a, b], u) <==> a <= u < b || b <= u < a || u == a || u == b
  {
    assert [a, b][1..] == [b] && [b][1..] == [];
    assert AtOrLeft([b], u) == if b <= u then 1 else 0;
  }

  lemma SquareRow(left: int, u: int)
    ensures (u, 0) in RowPoints(Square(left), 0)
            <==> EvenOdd([TruncDiv(32 * left + 336, 32), TruncDiv(32 * left + 16, 32)], u)
  {
    SquareNodes(left);
    SquareEnds(left);
  }

  lemma SquareColumns(left: int, a: int, b: int, u: int)
    requires a == TruncDiv(32 * left + 336, 32) && b == TruncDiv(32 * left + 16, 32)
    ensures (u, 0) in RowPoints(Square(left), 0) <==> a <= u < b || b <= u < a || u == a || u == b
  {
    SquareRow(left, u);
    TwoNodes(a, b, u);
  }

  /** Around the origin the left column of the square is missing. */
  lemma SquareCut()
    ensures (-5, 0) !in RowPoints(Square(-5), 0) && (0, 0) in RowPoints(Square(0), 0)
    ensures Moved(Square(-5), 5) == Square(0)
  {
    SquareColumns(-5, 5, -4, -5);
    SquareColumns(0, 10, 0, 0);
    SquareMoved();
  }

  lemma CountFour(d: Vertices, row: int, u: int)
    requires Count(d) == 4
    requires EdgeCrosses(d, 0, row) && !EdgeCrosses(d, 1, row) && EdgeCrosses(d, 2, row) && !EdgeCrosses(d, 3, row)
    ensures CrossingsLeft(d, row, u, 4)
              == (if EdgeBeyond(d, 2, row, u) < 0 then 1 else 0) + (if EdgeBeyond(d, 0, row, u) < 0 then 1 else 0)
  {
    assert CrossingsLeft(d, row, u, 1) == 0;
    assert CrossingsLeft(d, row, u, 3) == CrossingsLeft(d, row, u, 2);
  }

  lemma SquareClear(left: int, u: int)
    requires u < left || left + 10 < u
    ensures Clear(Square(left), 0, u) && !Inside(Square(left), 0, u)
    ensures LowerEnds(Square(left), 0, 4) == iset{}
  {
    SquareEnds(left);
    SquareEdges(left, u);
    CountFour(Square(left), 0, u);
  }

  /** A square that ends at column -5 is filled up to column -4, which is outside it. */
  lemma SquareTooWide()
    ensures var d := Square(-15);
            Clear(d, 0, -4) && !Inside(d, 0, -4) && (-4, 0) !in LowerEnds(d, 0, Count(d)) && (-4, 0) in RowPoints(d, 0)
  {
    SquareClear(-15, -4);
    SquareColumns(-15, -4, -14, -4);
  }
}
