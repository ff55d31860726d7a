/** Scan-line polygon fill: the crossings of a scan line come in pairs, the step-back sort
    orders them, and the filled pixels are those of the even-odd rule. */
module Polygons {
  import opened Pixels
  import opened FrameBuffers
  import opened Lines

  // ---------- vertices and crossings ----------

  /** Coordinates as the array holds them: x0, y0, x1, y1, ...; an odd last value is ignored. */
  type Vertices = seq<int>

  function Count(d: Vertices): nat { |d| / 2 }

  function X(d: Vertices, i: nat): int
    requires i < Count(d)
  {
    d[2 * i]
  }

  function Y(d: Vertices, i: nat): int
    requires i < Count(d)
  {
    d[2 * i + 1]
  }

  /** Edge i runs from the vertex after i (cyclically) to vertex i. */
  function From(d: Vertices, i: nat): (r: nat)
    requires i < Count(d)
    ensures r < Count(d)
  {
    if i + 1 == Count(d) then 0 else i + 1
  }

  /** C division: towards zero. */
  function TruncDiv(a: int, b: int): int
    requires b != 0
  {
    if (a >= 0) == (b > 0) then (if b > 0 then a / b else (-a) / (-b))
    else -(if b > 0 then (-a) / b else a / (-b))
  }

  predicate CrossesRow(y1: int, y2: int, row: int) {
    (y1 > row && y2 <= row) || (y1 <= row && y2 > row)
  }

  function NodeAt(x1: int, y1: int, x2: int, y2: int, row: int): int
    requires y1 != y2
  {
    TruncDiv(32 * x1 + TruncDiv(32 * (x2 - x1) * (row - y1), y2 - y1) + 16, 32)
  }

  predicate EdgeCrosses(d: Vertices, i: nat, row: int)
    requires i < Count(d)
  {
    CrossesRow(Y(d, From(d, i)), Y(d, i), row)
  }

  /** The nodes of the first k edges scanned, which are those of the last k vertices. */
  function Nodes(d: Vertices, row: int, k: nat): seq<int>
    requires k <= Count(d)
  {
    if k == 0 then []
    else
      var i, nodes := Count(d) - k, Nodes(d, row, k - 1);
      if EdgeCrosses(d, i, row)
      then nodes + [NodeAt(X(d, From(d, i)), Y(d, From(d, i)), X(d, i), Y(d, i), row)]
      else nodes
  }

  predicate Over(d: Vertices, i: nat, row: int)
    requires i < Count(d)
  {
    Y(d, i) > row
  }

  lemma NodesLength(d: Vertices, row: int, k: nat)
    requires 1 <= k <= Count(d)
    ensures |Nodes(d, row, k)| == |Nodes(d, row, k - 1)| + if EdgeCrosses(d, Count(d) - k, row) then 1 else 0
  {
  }

  lemma OneMoreParity(n: nat)
    ensures (n + 1) % 2 == 1 <==> n % 2 != 1
  {
  }

  /** Scanning back from vertex 0, the number of nodes tells the side of the line one is on. */
  lemma {:induction false} NodeParity(d: Vertices, row: int, k: nat)
    requires 1 <= k <= Count(d)
    ensures |Nodes(d, row, k)| <= k
    ensures |Nodes(d, row, k)| % 2 == 1 <==> Over(d, 0, row) != Over(d, Count(d) - k, row)
  {
    NodesLength(d, row, k);
    if k > 1 {
      NodeParity(d, row, k - 1);
      OneMoreParity(|Nodes(d, row, k - 1)|);
    }
  }

  /** The edges close a cycle, so the nodes of a row pair up and fit the array. */
  lemma NodesPairUp(d: Vertices, row: int)
    requires Count(d) > 0
    ensures |Nodes(d, row, Count(d))| % 2 == 0 && |Nodes(d, row, Count(d))| <= Count(d)
  {
    NodeParity(d, row, Count(d));
  }

  // ---------- counting ----------

  /** How many of the nodes lie at or left of u. */
  function AtOrLeft(s: seq<int>, u: int): nat {
    if s == [] then 0 else (if s[0] <= u then 1 else 0) + AtOrLeft(s[1..], u)
  }

  function Inversions(s: seq<int>): nat {
    if s == [] then 0 else AtOrLeft(s[1..], s[0] - 1) + Inversions(s[1..])
  }

  predicate Sorted(s: seq<int>) {
    forall i, j | 0 <= i < j < |s| :: s[i] <= s[j]
  }

  function Swapped(s: seq<int>, i: nat): seq<int>
    requires i + 1 < |s|
  {
    s[i := s[i + 1]][i + 1 := s[i]]
  }

  lemma SwapTail(s: seq<int>, i: nat)
    requires 0 < i && i + 1 < |s|
    ensures Swapped(s, i)[1..] == Swapped(s[1..], i - 1) && Swapped(s, i)[0] == s[0]
  {
  }

  lemma SwapHead(s: seq<int>)
    requires 2 <= |s|
    ensures Swapped(s, 0)[0] == s[1] && Swapped(s, 0)[1..][0] == s[0]
    ensures Swapped(s, 0)[1..][1..] == s[2..] == s[1..][1..]
  {
  }

  lemma {:induction false} SwapKeepsCount(s: seq<int>, i: nat, u: int)
    requires i + 1 < |s|
    ensures AtOrLeft(Swapped(s, i), u) == AtOrLeft(s, u)
  {
    if i == 0 {
      SwapHead(s);
    } else {
      SwapTail(s, i);
      SwapKeepsCount(s[1..], i - 1, u);
    }
  }

  /** Swapping neighbours that are out of order removes exactly one inversion. */
  lemma {:induction false} SwapRemovesInversion(s: seq<int>, i: nat)
    requires i + 1 < |s| && s[i] > s[i + 1]
    ensures Inversions(Swapped(s, i)) == Inversions(s) - 1
  {
    if i == 0 {
      SwapHead(s);
    } else {
      SwapTail(s, i);
      SwapKeepsCount(s[1..], i - 1, s[0] - 1);
      SwapRemovesInversion(s[1..], i - 1);
    }
  }

  /** The same nodes, in any order. */
  ghost predicate SameNodes(s: seq<int>, t: seq<int>) {
    |s| == |t| && multiset(s) == multiset(t) && forall u :: AtOrLeft(s, u) == AtOrLeft(t, u)
  }

  lemma SwapSameNodes(s: seq<int>, i: nat)
    requires i + 1 < |s|
    ensures SameNodes(s, Swapped(s, i))
  {
    forall u ensures AtOrLeft(s, u) == AtOrLeft(Swapped(s, i), u) { SwapKeepsCount(s, i, u); }
  }

  lemma SameNodesTransitive(s: seq<int>, t: seq<int>, u: seq<int>)
    requires SameNodes(s, t) && SameNodes(t, u)
    ensures SameNodes(s, u)
  {
  }

  method SwapNodes(nodes: array<int>, ghost n: nat, i: nat)
    requires i + 1 < n <= nodes.Length && nodes[i] > nodes[i + 1]
    modifies nodes
    ensures nodes[..i] == old(nodes[..i]) && nodes[n..] == old(nodes[n..])
    ensures SameNodes(old(nodes[..n]), nodes[..n])
    ensures Inversions(nodes[..n]) < Inversions(old(nodes[..n]))
  {
    ghost var s := nodes[..n];
    SwapSameNodes(s, i);
    SwapRemovesInversion(s, i);
    var swap := nodes[i];
    nodes[i] := nodes[i + 1];
    nodes[i + 1] := swap;
    assert nodes[..n] == Swapped(s, i);
  }

  lemma SortedLonger(s: seq<int>, i: nat)
    requires 0 < i < |s| && Sorted(s[..i]) && s[i - 1] <= s[i]
    ensures Sorted(s[..i + 1])
  {
    var t := s[..i];
    assert t[i - 1] == s[i - 1];
    assert s[..i + 1] == t + [s[i]];
  }

  /** The body of the sorting loop. */
  method SortStep(nodes: array<int>, ghost n: nat, i: nat) returns (i': nat)
    requires i + 1 < n <= nodes.Length && Sorted(nodes[..i + 1])
    modifies nodes
    ensures i' < n && Sorted(nodes[..i' + 1])
    ensures SameNodes(old(nodes[..n]), nodes[..n]) && nodes[n..] == old(nodes[n..])
    ensures Inversions(nodes[..n]) < Inversions(old(nodes[..n])) || (nodes[..n] == old(nodes[..n]) && i' == i + 1)
  {
    if nodes[i] > nodes[i + 1] {
      ghost var left := nodes[..i];
      assert Sorted(left) by { assert left == nodes[..i + 1][..i]; }
      SwapNodes(nodes, n, i);
      assert nodes[..i] == left;
      i' := i;
      if i != 0 {
        i' := i - 1;
        assert nodes[..i' + 1] == left;
      }
    } else {
      SortedLonger(nodes[..], i + 1);
      i' := i + 1;
    }
  }

  /** The step-back sort: every swap removes an inversion, every other step moves right. */
  method SortNodes(nodes: array<int>, n: nat)
    requires n <= nodes.Length
    modifies nodes
    ensures Sorted(nodes[..n]) && SameNodes(old(nodes[..n]), nodes[..n])
    ensures nodes[n..] == old(nodes[n..])
  {
    ghost var s := nodes[..n];
    var i := 0;
    while i < n - 1
      invariant 0 <= i && (n > 0 ==> i < n) && (n == 0 ==> i == 0)
      invariant Sorted(nodes[..if n > 0 then i + 1 else 0])
      invariant SameNodes(s, nodes[..n]) && nodes[n..] == old(nodes[n..])
      decreases Inversions(nodes[..n]), n - i
    {
      ghost var t := nodes[..n];
      i := SortStep(nodes, n, i);
      SameNodesTransitive(s, t, nodes[..n]);
    }
  }

  // ---------- the even-odd rule ----------

  /** A pixel of the row is filled when an odd number of nodes lies at or left of it, or on it. */
  predicate EvenOdd(s: seq<int>, u: int) {
    AtOrLeft(s, u) % 2 == 1 || u in s
  }

  predicate InPair(s: seq<int>, i: nat, u: int) {
    2 * i + 1 < |s| && s[2 * i] <= u <= s[2 * i + 1]
  }

  /** u lies within one of the first k pairs of nodes. */
  predicate InPairs(s: seq<int>, k: nat, u: int)
    requires 2 * k <= |s|
  {
    exists i: nat :: i < k && InPair(s, i, u)
  }

  lemma {:induction false} CountBefore(s: seq<int>, u: int)
    requires Sorted(s) && (s != [] ==> u < s[0])
    ensures AtOrLeft(s, u) == 0 && u !in s
  {
    if s != [] {
      if |s| > 1 { assert s[0] <= s[1]; }
      CountBefore(s[1..], u);
    }
  }

  lemma PairsTail(s: seq<int>, k: nat, u: int)
    requires 0 < k && 2 * k <= |s|
    ensures InPairs(s, k, u) <==> s[0] <= u <= s[1] || InPairs(s[2..], k - 1, u)
  {
    var t := s[2..];
    if InPairs(s, k, u) {
      var i: nat :| i < k && InPair(s, i, u);
      if i > 0 { assert InPair(t, i - 1, u); }
    }
    if InPairs(t, k - 1, u) {
      var i: nat :| i < k - 1 && InPair(t, i, u);
      assert InPair(s, i + 1, u);
    }
    if s[0] <= u <= s[1] { assert InPair(s, 0, u); }
  }

  /** Filling between the sorted pairs fills exactly the pixels of the even-odd rule. */
  lemma {:induction false} PairsAreEvenOdd(s: seq<int>, u: int)
    requires Sorted(s) && |s| % 2 == 0
    ensures InPairs(s, |s| / 2, u) <==> EvenOdd(s, u)
  {
    if s != [] {
      PairsTail(s, |s| / 2, u);
      var t := s[2..];
      assert s[1..][1..] == t;
      assert Sorted(t);
      if u < s[0] {
        CountBefore(s, u);
        CountBefore(t, u);
        PairsAreEvenOdd(t, u);
      } else if u < s[1] {
        CountBefore(s[1..], u);
      } else {
        PairsAreEvenOdd(t, u);
        assert AtOrLeft(s, u) == 2 + AtOrLeft(t, u);
        assert u in s <==> u == s[0] || u == s[1] || u in t;
      }
    }
  }

  lemma EvenOddOfSame(s: seq<int>, t: seq<int>, u: int)
    requires SameNodes(s, t)
    ensures EvenOdd(s, u) <==> EvenOdd(t, u)
  {
    assert u in s <==> u in multiset(s);
    assert u in t <==> u in multiset(t);
  }

  // ---------- the filled polygon ----------

  /** The pixels that edge i adds to the row besides its node: lower end points and level edges. */
  ghost function LowerEnd(d: Vertices, i: nat, row: int): Region
    requires i < Count(d)
  {
    var x1, y1, x2, y2 := X(d, From(d, i)), Y(d, From(d, i)), X(d, i), Y(d, i);
    if row != Max(y1, y2) then iset{}
    else if y1 < y2 then Dot(x2, row)
    else if y2 < y1 then Dot(x1, row)
    else Rect(Min(x1, x2), row, Abs(x2 - x1) + 1, 1)
  }

  ghost function LowerEnds(d: Vertices, row: int, k: nat): Region
    requires k <= Count(d)
  {
    iset i: nat, p | Count(d) - k <= i < Count(d) && p in LowerEnd(d, i, row) :: p
  }

  ghost function RowPoints(d: Vertices, row: int): Region {
    (iset u | EvenOdd(Nodes(d, row, Count(d)), u) :: (u, row)) + LowerEnds(d, row, Count(d))
  }

  /** All the pixels of the filled polygon: row by row the even-odd rule and the lower ends. */
  ghost function FilledPoints(d: Vertices): Region {
    iset row, p | p in RowPoints(d, row) :: p
  }

  ghost function Shift(x: int, y: int, r: Region): Region {
    iset p | p in r :: (x + p.0, y + p.1)
  }

  lemma LevelLine(x1: int, x2: int, y: int, i: nat)
    ensures LinePoint(x1, y, x2, y, i) == (x1 + Along(Sign(x2 - x1), i), y)
       || (x1 == x2 && LinePoint(x1, y, x2, y, i) == (x2, y))
  {
    if x1 != x2 { NearestIs(0, Abs(x2 - x1), 0); }
  }

  /** A level line is a run of pixels, whichever way it is drawn. */
  lemma LevelLineIsRect(x1: int, x2: int, y: int)
    ensures LinePoints(x1, y, x2, y, Steps(x1, y, x2, y) + 1) == Rect(Min(x1, x2), y, Abs(x2 - x1) + 1, 1)
  {
    var n := Steps(x1, y, x2, y) + 1;
    forall i: nat | i < n ensures LinePoint(x1, y, x2, y, i) in Rect(Min(x1, x2), y, Abs(x2 - x1) + 1, 1) {
      LevelLine(x1, x2, y, i);
    }
    forall p | p in Rect(Min(x1, x2), y, Abs(x2 - x1) + 1, 1) ensures p in LinePoints(x1, y, x2, y, n) {
      var i: nat := Abs(p.0 - x1);
      LevelLine(x1, x2, y, i);
      assert LinePoint(x1, y, x2, y, i) == p;
    }
  }

  lemma ShiftLevelLine(x: int, y: int, x1: int, x2: int, row: int)
    ensures LinePoints(x + x1, y + row, x + x2, y + row, Steps(x + x1, y + row, x + x2, y + row) + 1)
              == Shift(x, y, Rect(Min(x1, x2), row, Abs(x2 - x1) + 1, 1))
  {
    LevelLineIsRect(x + x1, x + x2, y + row);
    ShiftRect(x, y, Min(x1, x2), row, Abs(x2 - x1) + 1, 1);
  }

  lemma ShiftDot(x: int, y: int, i: int, j: int)
    ensures Shift(x, y, Dot(i, j)) == Dot(x + i, y + j)
  {
    assert (i, j) in Dot(i, j);
  }

  lemma ShiftUnion(x: int, y: int, r1: Region, r2: Region)
    ensures Shift(x, y, r1) + Shift(x, y, r2) == Shift(x, y, r1 + r2)
  {
  }

  lemma PaintShifted(fb: FrameBuffer, s: seq<bv8>, t: seq<bv8>, u: seq<bv8>, x: int, y: int, r1: Region, r2: Region,
                     col: Color)
    requires fb.Valid() && |s| == fb.buf.Length
    requires Painted(fb.Geometry(), s, t, Shift(x, y, r1), col) && Painted(fb.Geometry(), t, u, Shift(x, y, r2), col)
    ensures Painted(fb.Geometry(), s, u, Shift(x, y, r1 + r2), col)
  {
    PaintTwice(fb.Geometry(), s, t, u, Shift(x, y, r1), Shift(x, y, r2), col);
    ShiftUnion(x, y, r1, r2);
  }

  /** The pixels outside the nodes, edge by edge: the else-branch of the edge loop. */
  method DrawLowerEnd(fb: FrameBuffer, ghost d: Vertices, ghost i: nat, x: int, y: int,
                      px1: int, py1: int, px2: int, py2: int, row: int, col: Color)
    requires fb.Valid() && i < Count(d)
    requires px1 == X(d, From(d, i)) && py1 == Y(d, From(d, i)) && px2 == X(d, i) && py2 == Y(d, i)
    requires row == Max(py1, py2)
    modifies fb.buf
    ensures fb.Paints(Shift(x, y, LowerEnd(d, i, row)), col)
  {
    if py1 < py2 {
      assert Shift(x, y, LowerEnd(d, i, row)) == Dot(x + px2, y + py2) by { ShiftDot(x, y, px2, py2); }
      fb.SetPixelChecked(x + px2, y + py2, col, true);
    } else if py2 < py1 {
      assert Shift(x, y, LowerEnd(d, i, row)) == Dot(x + px1, y + py1) by { ShiftDot(x, y, px1, py1); }
      fb.SetPixelChecked(x + px1, y + py1, col, true);
    } else {
      assert LowerEnd(d, i, row) == Rect(Min(px1, px2), row, Abs(px2 - px1) + 1, 1);
      ShiftLevelLine(x, y, px1, px2, row);
      Line(fb, x + px1, y + py1, x + px2, y + py2, col);
    }
  }

  lemma EmptyShift(fb: FrameBuffer, s: seq<bv8>, x: int, y: int, r: Region, col: Color)
    requires fb.Valid() && |s| == fb.buf.Length && r == iset{}
    ensures Painted(fb.Geometry(), s, s, Shift(x, y, r), col)
  {
    assert Shift(x, y, r) == iset{};
    PaintNothing(fb.Geometry(), s, col);
  }

  function EdgeNode(d: Vertices, i: nat, row: int): int
    requires i < Count(d) && EdgeCrosses(d, i, row)
  {
    NodeAt(X(d, From(d, i)), Y(d, From(d, i)), X(d, i), Y(d, i), row)
  }

  lemma MoreNodes(d: Vertices, row: int, k: nat)
    requires k < Count(d)
    ensures var i := Count(d) - k - 1;
            Nodes(d, row, k + 1) ==
              if EdgeCrosses(d, i, row) then Nodes(d, row, k) + [EdgeNode(d, i, row)] else Nodes(d, row, k)
    ensures LowerEnds(d, row, k + 1) == LowerEnds(d, row, k) + LowerEnd(d, Count(d) - k - 1, row)
  {
  }

  /** The body of the edge loop: an edge adds a node, or a lower end, or nothing. */
  method ScanEdge(fb: FrameBuffer, ghost d: Vertices, ghost i: nat, x: int, y: int,
                  px1: int, py1: int, px2: int, py2: int, row: int, col: Color, nodes: array<int>, n0: nat)
    returns (n: nat)
    requires fb.Valid() && i < Count(d) && n0 < nodes.Length && nodes as object != fb.buf
    requires px1 == X(d, From(d, i)) && py1 == Y(d, From(d, i)) && px2 == X(d, i) && py2 == Y(d, i)
    modifies fb.buf, nodes
    ensures n <= n0 + 1
    ensures nodes[..n] == if EdgeCrosses(d, i, row) then old(nodes[..n0]) + [EdgeNode(d, i, row)] else old(nodes[..n0])
    ensures fb.Paints(Shift(x, y, LowerEnd(d, i, row)), col)
  {
    n := n0;
    if py1 != py2 && ((py1 > row && py2 <= row) || (py1 <= row && py2 > row)) {
      nodes[n] := TruncDiv(32 * px1 + TruncDiv(32 * (px2 - px1) * (row - py1), py2 - py1) + 16, 32);
      n := n + 1;
      EmptyShift(fb, fb.buf[..], x, y, LowerEnd(d, i, row), col);
    } else if row == Max(py1, py2) {
      DrawLowerEnd(fb, d, i, x, y, px1, py1, px2, py2, row, col);
    } else {
      EmptyShift(fb, fb.buf[..], x, y, LowerEnd(d, i, row), col);
    }
  }

  /** The edge loop of one scan line. */
  method ScanRow(fb: FrameBuffer, d: Vertices, x: int, y: int, row: int, col: Color, nodes: array<int>)
    returns (n: nat)
    requires fb.Valid() && 0 < Count(d) == nodes.Length && nodes as object != fb.buf
    modifies fb.buf, nodes
    ensures n <= nodes.Length && nodes[..n] == Nodes(d, row, Count(d))
    ensures fb.Paints(Shift(x, y, LowerEnds(d, row, Count(d))), col)
  {
    ghost var s := fb.buf[..];
    n := 0;
    var px1, py1 := d[0], d[1];
    var i := Count(d) * 2 - 1;
    ghost var k := 0;
    EmptyShift(fb, s, x, y, LowerEnds(d, row, 0), col);
    while i >= 0
      invariant k <= Count(d) && i == 2 * (Count(d) - k) - 1
      invariant k < Count(d) ==> px1 == X(d, From(d, Count(d) - k - 1)) && py1 == Y(d, From(d, Count(d) - k - 1))
      invariant n <= k && nodes[..n] == Nodes(d, row, k)
      invariant Painted(fb.Geometry(), s, fb.buf[..], Shift(x, y, LowerEnds(d, row, k)), col)
    {
      ghost var edge, t := Count(d) - k - 1, fb.buf[..];
      var py2, px2 := d[i], d[i - 1];
      i := i - 2;
      n := ScanEdge(fb, d, edge, x, y, px1, py1, px2, py2, row, col, nodes, n);
      MoreNodes(d, row, k);
      PaintShifted(fb, s, t, fb.buf[..], x, y, LowerEnds(d, row, k), LowerEnd(d, edge, row), col);
      px1, py1 := px2, py2;
      k := k + 1;
    }
  }

  ghost function PairSpans(s: seq<int>, k: nat, row: int): Region
    requires 2 * k <= |s|
  {
    iset u | InPairs(s, k, u) :: (u, row)
  }

  lemma MorePairs(s: seq<int>, k: nat, row: int)
    requires 2 * k + 1 < |s|
    ensures PairSpans(s, k + 1, row) == PairSpans(s, k, row) + Rect(s[2 * k], row, s[2 * k + 1] - s[2 * k] + 1, 1)
  {
    forall u ensures InPairs(s, k + 1, u) <==> InPairs(s, k, u) || s[2 * k] <= u <= s[2 * k + 1] {
      if s[2 * k] <= u <= s[2 * k + 1] { assert InPair(s, k, u); }
    }
    var left, right := PairSpans(s, k + 1, row), PairSpans(s, k, row)
        + Rect(s[2 * k], row, s[2 * k + 1] - s[2 * k] + 1, 1);
    forall p | p in left ensures p in right {
      assert InPairs(s, k + 1, p.0);
    }
    forall p | p in right ensures p in left {
      assert p in PairSpans(s, k, row) ==> InPairs(s, k, p.0);
      assert p == (p.0, row) && InPairs(s, k + 1, p.0);
    }
  }

  lemma ShiftRect(x: int, y: int, i: int, j: int, w: int, h: int)
    ensures Shift(x, y, Rect(i, j, w, h)) == Rect(x + i, y + j, w, h)
  {
    forall p | p in Rect(x + i, y + j, w, h) ensures p in Shift(x, y, Rect(i, j, w, h)) {
      assert (p.0 - x, p.1 - y) in Rect(i, j, w, h);
      assert p == (x + (p.0 - x), y + (p.1 - y));
    }
  }

  method FillPair(fb: FrameBuffer, x: int, y: int, row: int, col: Color, left: int, right: int)
    requires fb.Valid()
    modifies fb.buf
    ensures fb.Paints(Shift(x, y, Rect(left, row, right - left + 1, 1)), col)
  {
    ShiftRect(x, y, left, row, right - left + 1, 1);
    fb.FillRect(x + left, y + row, right - left + 1, 1, col);
  }

  lemma PairPainted(fb: FrameBuffer, s: seq<bv8>, t: seq<bv8>, u: seq<bv8>, x: int, y: int,
                    nodes: seq<int>, k: nat, row: int, col: Color)
    requires fb.Valid() && |s| == fb.buf.Length && 2 * k + 1 < |nodes|
    requires Painted(fb.Geometry(), s, t, Shift(x, y, PairSpans(nodes, k, row)), col)
    requires Painted(fb.Geometry(), t, u,
                     Shift(x, y, Rect(nodes[2 * k], row, nodes[2 * k + 1] - nodes[2 * k] + 1, 1)), col)
    ensures Painted(fb.Geometry(), s, u, Shift(x, y, PairSpans(nodes, k + 1, row)), col)
  {
    MorePairs(nodes, k, row);
    PaintShifted(fb, s, t, u, x, y, PairSpans(nodes, k, row),
                 Rect(nodes[2 * k], row, nodes[2 * k + 1] - nodes[2 * k] + 1, 1), col);
  }

  /** Fill between each pair of nodes. */
  method FillPairs(fb: FrameBuffer, x: int, y: int, row: int, col: Color, nodes: array<int>, n: nat)
    requires fb.Valid() && n <= nodes.Length && n % 2 == 0 && nodes as object != fb.buf
    modifies fb.buf
    ensures fb.Paints(Shift(x, y, PairSpans(nodes[..n], n / 2, row)), col)
  {
    ghost var s, sorted := fb.buf[..], nodes[..n];
    EmptyShift(fb, s, x, y, PairSpans(sorted, 0, row), col);
    var i := 0;
    ghost var k := 0;
    while i < n
      invariant i == 2 * k && i <= n && nodes[..n] == sorted
      invariant Painted(fb.Geometry(), s, fb.buf[..], Shift(x, y, PairSpans(sorted, k, row)), col)
    {
      ghost var t := fb.buf[..];
      FillPair(fb, x, y, row, col, nodes[i], nodes[i + 1]);
      PairPainted(fb, s, t, fb.buf[..], x, y, sorted, k, row, col);
      i := i + 2;
      k := k + 1;
    }
  }

  lemma SpansAreEvenOdd(d: Vertices, row: int, sorted: seq<int>)
    requires Count(d) > 0 && Sorted(sorted) && SameNodes(Nodes(d, row, Count(d)), sorted)
    ensures |sorted| % 2 == 0
    ensures LowerEnds(d, row, Count(d)) + PairSpans(sorted, |sorted| / 2, row) == RowPoints(d, row)
  {
    NodesPairUp(d, row);
    forall u ensures InPairs(sorted, |sorted| / 2, u) <==> EvenOdd(Nodes(d, row, Count(d)), u) {
      PairsAreEvenOdd(sorted, u);
      EvenOddOfSame(Nodes(d, row, Count(d)), sorted, u);
    }
  }

  lemma NoNodesNoSpans(d: Vertices, row: int)
    requires Nodes(d, row, Count(d)) == []
    ensures RowPoints(d, row) == LowerEnds(d, row, Count(d))
  {
  }

  /** One scan line: collect the nodes, sort them, fill between the pairs. */
  method FillRow(fb: FrameBuffer, d: Vertices, x: int, y: int, row: int, col: Color)
    requires fb.Valid() && Count(d) > 0
    modifies fb.buf
    ensures fb.Paints(Shift(x, y, RowPoints(d, row)), col)
  {
    ghost var s := fb.buf[..];
    var nodes := new int[Count(d)];
    var n := ScanRow(fb, d, x, y, row, col, nodes);
    if n == 0 {
      NoNodesNoSpans(d, row);
      return;
    }
    ghost var t := fb.buf[..];
    SortNodes(nodes, n);
    SpansAreEvenOdd(d, row, nodes[..n]);
    FillPairs(fb, x, y, row, col, nodes, n);
    PaintShifted(fb, s, t, fb.buf[..], x, y, LowerEnds(d, row, Count(d)), PairSpans(nodes[..n], n / 2, row), col);
  }

  // ---------- whole polygons ----------

  ghost function RowsPoints(d: Vertices, from: int, to: int): Region {
    iset row, p | from <= row < to && p in RowPoints(d, row) :: p
  }

  lemma MoreRows(d: Vertices, from: int, row: int)
    requires from <= row
    ensures RowsPoints(d, from, row + 1) == RowsPoints(d, from, row) + RowPoints(d, row)
  {
  }

  /** Rows without a vertex at or on either side have nothing to fill. */
  lemma {:induction false} NoNodesOutside(d: Vertices, row: int, k: nat)
    requires k <= Count(d)
    requires (forall i: nat | i < Count(d) :: Y(d, i) < row) || (forall i: nat | i < Count(d) :: row < Y(d, i))
    ensures Nodes(d, row, k) == []
  {
    if k > 0 { NoNodesOutside(d, row, k - 1); }
  }

  lemma EmptyOutside(d: Vertices, row: int)
    requires (forall i: nat | i < Count(d) :: Y(d, i) < row) || (forall i: nat | i < Count(d) :: row < Y(d, i))
    ensures RowPoints(d, row) == iset{}
  {
    NoNodesOutside(d, row, Count(d));
    forall i: nat | i < Count(d) ensures LowerEnd(d, i, row) == iset{} { }
  }

  lemma AllRows(d: Vertices, yMin: int, yMax: int)
    requires forall i: nat | i < Count(d) :: yMin <= Y(d, i) <= yMax
    ensures RowsPoints(d, yMin, yMax + 1) == FilledPoints(d)
  {
    forall p | p in FilledPoints(d) ensures p in RowsPoints(d, yMin, yMax + 1) {
      var row :| p in RowPoints(d, row);
      if row < yMin || yMax < row { EmptyOutside(d, row); }
    }
  }

  const INT_MAX := 0x7fff_ffff
  const INT_MIN := -0x8000_0000

  method VerticalExtent(d: Vertices) returns (yMin: int, yMax: int)
    requires forall i: nat | i < Count(d) :: INT_MIN <= Y(d, i) <= INT_MAX
    ensures forall i: nat | i < Count(d) :: yMin <= Y(d, i) <= yMax
    ensures Count(d) > 0 ==> yMin <= yMax
  {
    yMin, yMax := INT_MAX, INT_MIN;
    for i := 0 to Count(d)
      invariant forall j: nat | j < i :: yMin <= Y(d, j) <= yMax
      invariant i > 0 ==> yMin <= yMax
    {
      var py := d[i * 2 + 1];
      assert py == Y(d, i);
      yMin := Min(yMin, py);
      yMax := Max(yMax, py);
    }
  }

  method FillPoly(fb: FrameBuffer, d: Vertices, x: int, y: int, col: Color)
    requires fb.Valid() && Count(d) > 0
    requires forall i: nat | i < Count(d) :: INT_MIN <= Y(d, i) <= INT_MAX
    modifies fb.buf
    ensures fb.Paints(Shift(x, y, FilledPoints(d)), col)
  {
    ghost var s := fb.buf[..];
    var yMin, yMax := VerticalExtent(d);
    assert RowsPoints(d, yMin, yMin) == iset{};
    EmptyShift(fb, s, x, y, RowsPoints(d, yMin, yMin), col);
    for row := yMin to yMax + 1
      invariant Painted(fb.Geometry(), s, fb.buf[..], Shift(x, y, RowsPoints(d, yMin, row)), col)
    {
      ghost var t := fb.buf[..];
      FillRow(fb, d, x, y, row, col);
      MoreRows(d, yMin, row);
      PaintShifted(fb, s, t, fb.buf[..], x, y, RowsPoints(d, yMin, row), RowPoints(d, row), col);
    }
    AllRows(d, yMin, yMax);
  }

  /** Edge i as drawn by line. */
  ghost function EdgeLine(d: Vertices, x: int, y: int, i: nat): Region
    requires i < Count(d)
  {
    var x1, y1, x2, y2 := x + X(d, From(d, i)), y + Y(d, From(d, i)), x + X(d, i), y + Y(d, i);
    LinePoints(x1, y1, x2, y2, Steps(x1, y1, x2, y2) + 1)
  }

  ghost function Outline(d: Vertices, x: int, y: int, k: nat): Region
    requires k <= Count(d)
  {
    iset i: nat, p | Count(d) - k <= i < Count(d) && p in EdgeLine(d, x, y, i) :: p
  }

  lemma MoreOutline(d: Vertices, x: int, y: int, k: nat)
    requires k < Count(d)
    ensures Outline(d, x, y, k + 1) == Outline(d, x, y, k) + EdgeLine(d, x, y, Count(d) - k - 1)
  {
  }

  lemma OutlinePainted(fb: FrameBuffer, s: seq<bv8>, t: seq<bv8>, u: seq<bv8>, d: Vertices, x: int, y: int, k: nat,
                       col: Color)
    requires fb.Valid() && |s| == fb.buf.Length && k < Count(d)
    requires Painted(fb.Geometry(), s, t, Outline(d, x, y, k), col)
    requires Painted(fb.Geometry(), t, u, EdgeLine(d, x, y, Count(d) - k - 1), col)
    ensures Painted(fb.Geometry(), s, u, Outline(d, x, y, k + 1), col)
  {
    MoreOutline(d, x, y, k);
    PaintTwice(fb.Geometry(), s, t, u, Outline(d, x, y, k), EdgeLine(d, x, y, Count(d) - k - 1), col);
  }

  /** One edge more. */
  method OutlineEdge(fb: FrameBuffer, ghost s: seq<bv8>, ghost d: Vertices, x: int, y: int, ghost k: nat,
                     px1: int, py1: int, px2: int, py2: int, col: Color)
    requires fb.Valid() && |s| == fb.buf.Length && k < Count(d)
    requires var i := Count(d) - k - 1;
             px1 == X(d, From(d, i)) && py1 == Y(d, From(d, i)) && px2 == X(d, i) && py2 == Y(d, i)
    requires Painted(fb.Geometry(), s, fb.buf[..], Outline(d, x, y, k), col)
    modifies fb.buf
    ensures Painted(fb.Geometry(), s, fb.buf[..], Outline(d, x, y, k + 1), col)
  {
    ghost var t := fb.buf[..];
    Line(fb, x + px1, y + py1, x + px2, y + py2, col);
    OutlinePainted(fb, s, t, fb.buf[..], d, x, y, k, col);
  }

  method OutlinePoly(fb: FrameBuffer, d: Vertices, x: int, y: int, col: Color)
    requires fb.Valid() && Count(d) > 0
    modifies fb.buf
    ensures fb.Paints(Outline(d, x, y, Count(d)), col)
  {
    ghost var s := fb.buf[..];
    var px1, py1 := d[0], d[1];
    var i := Count(d) * 2 - 1;
    ghost var k := 0;
    PaintNothing(fb.Geometry(), s, col);
    assert Outline(d, x, y, 0) == iset{};
    while i >= 0
      invariant k <= Count(d) && i == 2 * (Count(d) - k) - 1
      invariant k < Count(d) ==> px1 == X(d, From(d, Count(d) - k - 1)) && py1 == Y(d, From(d, Count(d) - k - 1))
      invariant Painted(fb.Geometry(), s, fb.buf[..], Outline(d, x, y, k), col)
    {
      var py2, px2 := d[i], d[i - 1];
      i := i - 2;
      OutlineEdge(fb, s, d, x, y, k, px1, py1, px2, py2, col);
      px1, py1 := px2, py2;
      k := k + 1;
    }
  }

  /** framebuf_poly: nothing, the filled polygon, or its outline. */
  method Poly(fb: FrameBuffer, d: Vertices, x: int, y: int, col: Color, fill: bool)
    requires fb.Valid()
    requires forall i: nat | i < Count(d) :: -0x8000_0000 <= Y(d, i) <= 0x7fff_ffff
    modifies fb.buf
    ensures fb.Paints(if fill then Shift(x, y, FilledPoints(d)) else Outline(d, x, y, Count(d)), col)
  {
    if Count(d) == 0 {
      EmptyPolygon(d, x, y);
      PaintNothing(fb.Geometry(), fb.buf[..], col);
      return;
    }
    if fill {
      FillPoly(fb, d, x, y, col);
    } else {
      OutlinePoly(fb, d, x, y, col);
    }
  }

  lemma EmptyPolygon(d: Vertices, x: int, y: int)
    requires Count(d) == 0
    ensures Shift(x, y, FilledPoints(d)) == iset{} && Outline(d, x, y, 0) == iset{}
  {
    forall row ensures RowPoints(d, row) == iset{} { }
  }

  // ---------- polygons as lists of points ----------

  /** The coordinates of the points, x before y. */
  function Coordinates(points: seq<(int, int)>): (d: Vertices)
    ensures |d| == 2 * |points|
  {
    seq(2 * |points|, k requires 0 <= k < 2 * |points| => if k % 2 == 0 then points[k / 2].0 else points[k / 2].1)
  }

  /** Vertex i is point i, and its edge comes from the next point, from the first after the last. */
  lemma PointsAre(points: seq<(int, int)>, i: nat)
    requires i < |points|
    ensures var d := Coordinates(points);
            && Count(d) == |points| && X(d, i) == points[i].0 && Y(d, i) == points[i].1
            && From(d, i) == (i + 1) % |points|
  {
    assert 2 * i / 2 == i && (2 * i + 1) / 2 == i;
    assert i + 1 == |points| ==> (i + 1) % |points| == 0;
  }

  /** An odd coordinate at the end is ignored. */
  lemma OddIgnored(d: Vertices, last: int, i: nat)
    requires |d| % 2 == 0 && i < Count(d)
    ensures Count(d + [last]) == Count(d) && X(d + [last], i) == X(d, i) && Y(d + [last], i) == Y(d, i)
  {
  }

  /** The line to point i from the next one, from the first to the last. */
  ghost function Segment(points: seq<(int, int)>, x: int, y: int, i: nat): Region
    requires i < |points|
  {
    var a, b := points[(i + 1) % |points|], points[i];
    LinePoints(x + a.0, y + a.1, x + b.0, y + b.1, Steps(x + a.0, y + a.1, x + b.0, y + b.1) + 1)
  }

  lemma EdgeIsSegment(points: seq<(int, int)>, x: int, y: int, i: nat)
    requires i < |points|
    ensures Count(Coordinates(points)) == |points|
    ensures EdgeLine(Coordinates(points), x, y, i) == Segment(points, x, y, i)
  {
    PointsAre(points, i);
    PointsAre(points, (i + 1) % |points|);
  }

  lemma InOutline(d: Vertices, x: int, y: int, i: nat, p: (int, int))
    requires i < Count(d) && p in EdgeLine(d, x, y, i)
    ensures p in Outline(d, x, y, Count(d))
  {
  }

  lemma OfOutline(d: Vertices, x: int, y: int, p: (int, int)) returns (i: nat)
    requires p in Outline(d, x, y, Count(d))
    ensures i < Count(d) && p in EdgeLine(d, x, y, i)
  {
    i :| i < Count(d) && p in EdgeLine(d, x, y, i);
  }

  /** The outline is drawn point by point: the lines between neighbours, and the closing one. */
  lemma OutlineIs(points: seq<(int, int)>, x: int, y: int, p: (int, int))
    requires points != []
    ensures Count(Coordinates(points)) == |points|
    ensures p in Outline(Coordinates(points), x, y, |points|) <==>
            exists i: nat | i < |points| :: p in Segment(points, x, y, i)
  {
    var d := Coordinates(points);
    PointsAre(points, 0);
    if p in Outline(d, x, y, |points|) {
      var i := OfOutline(d, x, y, p);
      EdgeIsSegment(points, x, y, i);
    }
    if i: nat :| i < |points| && p in Segment(points, x, y, i) {
      EdgeIsSegment(points, x, y, i);
      InOutline(d, x, y, i, p);
    }
  }

  /** Every point is on it. */
  lemma PointsDrawn(points: seq<(int, int)>, x: int, y: int, i: nat)
    requires i < |points|
    ensures Count(Coordinates(points)) == |points|
    ensures (x + points[i].0, y + points[i].1) in Outline(Coordinates(points), x, y, |points|)
  {
    var p, a := (x + points[i].0, y + points[i].1), points[(i + 1) % |points|];
    OutlineIs(points, x, y, p);
    WalkEndsExactly(x + a.0, y + a.1, p.0, p.1);
    assert p in Segment(points, x, y, i);
  }
}
