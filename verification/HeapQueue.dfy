/** The heap of `heapq`: a list in which every item is at most its two children's. */
module HeapQueue {

  /** A list item: its place in the order, and the rest of it. */
  datatype Item = Item(key: int, rest: int)

  predicate Less(a: Item, b: Item) { a.key < b.key }

  // ---------- heap order ----------

  function Parent(c: nat): nat
    requires c > 0
  {
    (c - 1) / 2
  }

  predicate OrderedAt(s: seq<Item>, c: nat)
    requires 0 < c < |s|
  {
    !Less(s[c], s[Parent(c)])
  }

  /** The heap order below every position from `start` on. */
  ghost predicate HeapFrom(s: seq<Item>, start: nat) {
    forall c | 0 < c < |s| && start <= Parent(c) :: OrderedAt(s, c)
  }

  ghost predicate IsHeap(s: seq<Item>) { HeapFrom(s, 0) }

  /** `j` lies in the subtree of `a`. */
  predicate Below(a: nat, j: nat) { j == a || (j > a && Below(a, Parent(j))) }

  /** Nothing moved outside the subtree of `start`, nothing was lost or made up. */
  ghost predicate Rearranged(s: seq<Item>, t: seq<Item>, start: nat) {
    && |t| == |s| && multiset(t) == multiset(s)
    && forall j | 0 <= j < |s| && !Below(start, j) :: t[j] == s[j]
  }

  lemma {:induction false} RootIsLeast(s: seq<Item>, j: nat)
    requires IsHeap(s) && j < |s|
    ensures s[0].key <= s[j].key
  {
    if j > 0 {
      RootIsLeast(s, Parent(j));
      assert OrderedAt(s, j);
    }
  }

  // ---------- one item on its way ----------

  /** Ordered but for the pair above `hole`. */
  ghost predicate ButAbove(s: seq<Item>, start: nat, hole: nat) {
    forall c | 0 < c < |s| && start <= Parent(c) && c != hole :: OrderedAt(s, c)
  }

  /** Ordered but for the pairs above and below `hole`. */
  ghost predicate ButAround(s: seq<Item>, start: nat, hole: nat) {
    forall c | 0 < c < |s| && start <= Parent(c) && c != hole && Parent(c) != hole :: OrderedAt(s, c)
  }

  /** The children of `hole` are ordered with its parent. */
  ghost predicate Bridged(s: seq<Item>, start: nat, hole: nat)
    requires hole < |s|
  {
    hole > start ==> forall c | hole < c < |s| && Parent(c) == hole :: !Less(s[c], s[Parent(hole)])
  }

  function Swap(s: seq<Item>, i: nat, j: nat): (t: seq<Item>)
    requires i < |s| && j < |s|
    ensures |t| == |s|
  {
    s[i := s[j]][j := s[i]]
  }

  lemma SwapRearranges(s: seq<Item>, t: seq<Item>, start: nat, i: nat, j: nat)
    requires Rearranged(s, t, start) && i < |t| && j < |t| && Below(start, i) && Below(start, j)
    ensures Rearranged(s, Swap(t, i, j), start)
  {
    SwapKeeps(t, i, j);
    var u := Swap(t, i, j);
    forall k | 0 <= k < |s| && !Below(start, k) ensures u[k] == s[k] { assert k != i && k != j; }
  }

  lemma SwapKeeps(t: seq<Item>, i: nat, j: nat)
    requires i < |t| && j < |t|
    ensures multiset(Swap(t, i, j)) == multiset(t)
  {
  }

  /** An item smaller than its parent changes places with it. */
  lemma UpStep(s: seq<Item>, start: nat, hole: nat)
    requires hole < |s| && Below(start, hole) && hole > start
    requires ButAbove(s, start, hole) && Bridged(s, start, hole) && Less(s[hole], s[Parent(hole)])
    ensures var up := Parent(hole); var t := Swap(s, hole, up);
            start <= up < hole && Below(start, up) && ButAbove(t, start, up) && Bridged(t, start, up)
  {
    var up := Parent(hole);
    var t := Swap(s, hole, up);
    assert start <= up && Below(start, up);
    forall c | 0 < c < |t| && start <= Parent(c) && c != up
      ensures OrderedAt(t, c)
    {
      if c != hole { assert OrderedAt(s, c); }
    }
    if up > start {
      assert Below(start, Parent(up));
      assert OrderedAt(s, up);
      forall c | up < c < |t| && Parent(c) == up
        ensures !Less(t[c], t[Parent(up)])
      {
        if c != hole { assert OrderedAt(s, c); }
      }
    }
  }

  /** The smaller child of `hole` changes places with it. */
  lemma DownStep(s: seq<Item>, start: nat, hole: nat, c: nat)
    requires Below(start, hole) && hole < c < |s| && Parent(c) == hole
    requires forall d | hole < d < |s| && Parent(d) == hole :: !Less(s[d], s[c])
    requires ButAround(s, start, hole) && Bridged(s, start, hole)
    ensures var t := Swap(s, hole, c);
            Below(start, c) && ButAround(t, start, c) && Bridged(t, start, c)
  {
    var t := Swap(s, hole, c);
    assert start <= hole;
    forall d | 0 < d < |t| && start <= Parent(d) && d != c && Parent(d) != c
      ensures OrderedAt(t, d)
    {
      if d != hole && Parent(d) != hole { assert OrderedAt(s, d); }
    }
    forall d | c < d < |t| && Parent(d) == c
      ensures !Less(t[d], t[Parent(c)])
    {
      assert OrderedAt(s, d);
    }
  }

  ghost predicate Sinking(was: seq<Item>, s: seq<Item>, start: nat, hole: nat) {
    && hole < |s| && Below(start, hole) && ButAround(s, start, hole) && Bridged(s, start, hole)
    && Rearranged(was, s, start)
  }

  lemma Sink(was: seq<Item>, s: seq<Item>, start: nat, hole: nat, c: nat)
    requires Sinking(was, s, start, hole) && hole < c < |s| && Parent(c) == hole
    requires c == 2 * hole + 1 ==> c + 1 < |s| ==> Less(s[c], s[c + 1])
    requires c == 2 * hole + 2 ==> !Less(s[c - 1], s[c])
    ensures Sinking(was, Swap(s, hole, c), start, c)
  {
    assert c == 2 * hole + 1 || c == 2 * hole + 2;
    DownStep(s, start, hole, c);
    SwapRearranges(was, s, start, hole, c);
  }

  ghost predicate Rising(was: seq<Item>, s: seq<Item>, start: nat, hole: nat) {
    && hole < |s| && Below(start, hole) && ButAbove(s, start, hole) && Bridged(s, start, hole)
    && Rearranged(was, s, start)
  }

  lemma Rise(was: seq<Item>, s: seq<Item>, start: nat, hole: nat)
    requires Rising(was, s, start, hole) && hole > start && Less(s[hole], s[Parent(hole)])
    ensures Parent(hole) < hole && Rising(was, Swap(s, hole, Parent(hole)), start, Parent(hole))
  {
    UpStep(s, start, hole);
    SwapRearranges(was, s, start, hole, Parent(hole));
  }

  lemma Risen(s: seq<Item>, start: nat, hole: nat)
    requires hole < |s| && ButAbove(s, start, hole) && hole > start && !Less(s[hole], s[Parent(hole)])
    ensures HeapFrom(s, start)
  {
    assert OrderedAt(s, hole);
  }

  datatype Popped = Popped(item: Item) | IndexError

  // ---------- the list ----------

  class Heap {
    var items: seq<Item>

    constructor (items: seq<Item>)
      ensures this.items == items
    {
      this.items := items;
    }

    /** heapq_heap_siftdown: the item at `pos` rises towards `start`. */
    method SiftDown(start: nat, pos: nat)
      requires pos < |items| && Below(start, pos)
      requires ButAbove(items, start, pos) && Bridged(items, start, pos)
      modifies this
      ensures HeapFrom(items, start) && Rearranged(old(items), items, start)
    {
      var item, p := items[pos], pos;
      ghost var t := items;
      while p > start
        invariant p < |items| && items[p := item] == t && t[p] == item && Rising(old(items), t, start, p)
      {
        var up := (p - 1) / 2;
        var parent := items[up];
        if Less(item, parent) {
          Rise(old(items), t, start, p);
          t := Swap(t, p, up);
          items := items[p := parent];
          p := up;
        } else {
          Risen(t, start, p);
          break;
        }
      }
      items := items[p := item];
      assert items == t;
    }

    /** heapq_heap_siftup: the item at `pos` sinks to a leaf, then rises to its place. */
    method SiftUp(pos: nat)
      requires pos < |items| && HeapFrom(items, pos + 1)
      modifies this
      ensures HeapFrom(items, pos) && Rearranged(old(items), items, pos)
    {
      var item, p, end := items[pos], pos, |items|;
      ghost var t := items;
      var child := 2 * p + 1;
      while child < end
        invariant child == 2 * p + 1 && p < end == |items| && Sinking(old(items), t, pos, p)
        invariant items[p := item] == t && t[p] == item
        decreases end - p
      {
        if child + 1 < end && !Less(items[child], items[child + 1]) {
          child := child + 1;
        }
        Sink(old(items), t, pos, p, child);
        t := Swap(t, p, child);
        items := items[p := items[child]];
        p := child;
        child := 2 * p + 1;
      }
      items := items[p := item];
      SiftDown(pos, p);
    }

    method Push(item: Item)
      requires IsHeap(items)
      modifies this
      ensures IsHeap(items) && multiset(items) == multiset(old(items)) + multiset{item}
    {
      items := items + [item];
      InRoot(|items| - 1);
      assert ButAbove(items, 0, |items| - 1) by { Appended(old(items), item); }
      SiftDown(0, |items| - 1);
    }

    method Pop() returns (r: Popped)
      requires IsHeap(items)
      modifies this
      ensures IsHeap(items) && (r == IndexError <==> old(items) == [])
      ensures r == IndexError ==> items == []
      ensures r.Popped? ==> multiset(old(items)) == multiset(items) + multiset{r.item}
      ensures r.Popped? ==> forall x | x in old(items) :: r.item.key <= x.key
    {
      if |items| == 0 {
        return IndexError;
      }
      var item, n := items[0], |items| - 1;
      forall x | x in items ensures item.key <= x.key {
        var j :| 0 <= j < |items| && items[j] == x;
        RootIsLeast(items, j);
      }
      Shrunk(items);
      items := items[0 := items[n]][..n];
      if n != 0 {
        SiftUp(0);
      }
      return Popped(item);
    }

    method Heapify()
      modifies this
      ensures IsHeap(items) && multiset(items) == multiset(old(items))
    {
      var i := |items| / 2;
      while i > 0
        invariant 0 <= i <= |items| == |old(items)| && HeapFrom(items, i) && multiset(items) == multiset(old(items))
      {
        i := i - 1;
        SiftUp(i);
      }
    }
  }

  /** A client: heapify, then pop until the list is empty. The items come out in order. */
  method Drain(h: Heap) returns (out: seq<Item>)
    modifies h
    ensures h.items == [] && multiset(out) == multiset(old(h.items))
    ensures forall i, j | 0 <= i < j < |out| :: out[i].key <= out[j].key
  {
    h.Heapify();
    out := [];
    while |h.items| > 0
      invariant IsHeap(h.items) && multiset(out) + multiset(h.items) == multiset(old(h.items))
      invariant forall i, j | 0 <= i < j < |out| :: out[i].key <= out[j].key
      invariant forall x, y | x in out && y in h.items :: x.key <= y.key
      decreases |h.items|
    {
      ghost var was := h.items;
      var r := h.Pop();
      Fewer(was, h.items, r.item);
      out := out + [r.item];
    }
  }

  lemma {:induction false} InRoot(j: nat)
    ensures Below(0, j)
  {
    if j > 0 { InRoot(Parent(j)); }
  }

  lemma Appended(s: seq<Item>, x: Item)
    requires IsHeap(s)
    ensures ButAbove(s + [x], 0, |s|)
  {
    forall c | 0 < c < |s| ensures OrderedAt(s + [x], c) { assert OrderedAt(s, c); }
  }

  /** The last item replaces the first. */
  lemma Shrunk(s: seq<Item>)
    requires s != [] && IsHeap(s)
    ensures var t := s[0 := s[|s| - 1]][..|s| - 1];
            HeapFrom(t, 1) && multiset(t) + multiset{s[0]} == multiset(s)
  {
    var n := |s| - 1;
    var t := s[0 := s[n]][..n];
    forall c | 0 < c < |t| && 1 <= Parent(c) ensures OrderedAt(t, c) { assert OrderedAt(s, c); }
    Exchanged(s, t);
  }

  lemma Exchanged(s: seq<Item>, t: seq<Item>)
    requires s != [] && t == s[0 := s[|s| - 1]][..|s| - 1]
    ensures multiset(t) + multiset{s[0]} == multiset(s)
  {
    var n := |s| - 1;
    var u := s[0 := s[n]][n := s[0]];
    assert u == t + [s[0]];
    assert multiset(u) == multiset(s);
  }

  lemma Fewer(s: seq<Item>, t: seq<Item>, x: Item)
    requires multiset(s) == multiset(t) + multiset{x}
    ensures |t| < |s| && x in s && forall y | y in t :: y in s
  {
    assert |multiset(s)| == |multiset(t)| + 1;
    assert x in multiset(s);
    forall y | y in t ensures y in s { assert y in multiset(t); assert y in multiset(s); }
  }
}
