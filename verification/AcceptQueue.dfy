/** The queue of connections that a listening socket has taken but not yet handed to its user:
    filled by the accept callback, emptied by `accept`, and thinned out by the error callback of a
    connection that dies while it waits. */
module AcceptQueue {

  /** A protocol control block; NULL marks an empty slot. */
  type Pcb = nat

  const NULL: Pcb := 0

  // ---------- the queue as a sequence ----------

  function Added(q: seq<Pcb>, room: nat, p: Pcb): seq<Pcb> {
    if |q| < room then q + [p] else q
  }

  /** `q` without the first `p`. */
  function Removed(q: seq<Pcb>, p: Pcb): (r: seq<Pcb>)
    ensures |r| <= |q| && forall x :: x in r ==> x in q
  {
    if q == [] then [] else if q[0] == p then q[1..] else [q[0]] + Removed(q[1..], p)
  }

  /** The place of the first `p`, or the length. */
  function Place(q: seq<Pcb>, p: Pcb): (r: nat)
    ensures r <= |q| && (r < |q| ==> q[r] == p) && forall i | 0 <= i < r :: q[i] != p
  {
    if q == [] || q[0] == p then 0 else 1 + Place(q[1..], p)
  }

  lemma {:induction false} RemovedAt(q: seq<Pcb>, p: Pcb)
    ensures var r := Place(q, p);
            Removed(q, p) == if r < |q| then q[..r] + q[r + 1..] else q
  {
    if q != [] && q[0] != p {
      RemovedAt(q[1..], p);
      CutLater(q, Place(q[1..], p));
    }
  }

  lemma CutLater(q: seq<Pcb>, r: nat)
    requires q != []
    ensures r < |q| - 1 ==> [q[0]] + (q[1..][..r] + q[1..][r + 1..]) == q[..r + 1] + q[r + 2..]
    ensures [q[0]] + q[1..] == q
  {
  }

  // ---------- the circular buffer ----------

  /** The `k`-th slot from `iget` on. */
  function At(iget: nat, k: nat, n: nat): nat
    requires iget < n && k <= n
  {
    if iget + k < n then iget + k else iget + k - n
  }

  function NextSlot(i: nat, alloc: nat): nat { if i + 1 >= alloc then 0 else i + 1 }

  function Slots(alloc: nat): nat { if alloc == 0 then 1 else alloc }

  lemma NextAt(iget: nat, k: nat, alloc: nat)
    requires iget < Slots(alloc) && k < Slots(alloc)
    ensures NextSlot(At(iget, k, Slots(alloc)), alloc) == At(iget, k + 1, Slots(alloc))
  {
  }

  /** How many slots the pass visits: those in use, or all when none is. */
  ghost function Last(c: nat, n: nat): nat { if c == 0 then n else c }

  /** The `j`-th slot after `k` of them have been visited, when the connection is the `r`-th. */
  ghost function Shifted(q: seq<Pcb>, r: nat, k: nat, j: nat): Pcb {
    if r <= j && j + 1 < k && j + 1 < |q| then q[j + 1] else if j < |q| then q[j] else NULL
  }

  class Listener {
    /** `array`, or `item` when `alloc` is zero */
    var slots: array<Pcb>
    var alloc: nat
    var iget: nat
    var iput: nat
    ghost var queue: seq<Pcb>

    ghost function Room(): nat
      reads this
    {
      Slots(alloc)
    }

    /** The waiting connections fill the slots from `iget` up to `iput`, cyclically, and all other
        slots are empty. */
    ghost predicate Valid()
      reads this, slots
    {
      && alloc < 256 && Room() <= slots.Length && iget < Room()
      && |queue| <= Room() && NULL !in queue
      && iput == At(iget, |queue|, Room())
      && forall k | 0 <= k < Room() :: slots[At(iget, k, Room())] == if k < |queue| then queue[k] else NULL
    }

    constructor ()
      ensures Valid() && fresh(slots) && queue == [] && Room() == 1
    {
      slots := new Pcb[1](i => NULL);
      alloc, iget, iput, queue := 0, 0, 0, [];
    }

    /** lwip_socket_listen. `alloc` has eight bits, and with `alloc` zero the slot is the word that
        also holds the address of the array (`address`, never zero): a backlog that is a multiple
        of 256 leaves a queue of one slot in which that address waits. */
    method Listen(backlog: int, address: Pcb)
      requires address != NULL
      modifies this
      ensures alloc == (if backlog <= 1 then 0 else backlog % 256)
      ensures fresh(slots) && Valid()
      ensures Room() == backlog <==> 1 <= backlog < 256
      ensures queue == if backlog < 256 || backlog % 256 != 0 then [] else [address]
    {
      var n := if backlog < 0 then 0 else backlog;
      if n <= 1 {
        alloc := 0;
        slots := new Pcb[1](i => NULL);
      } else {
        alloc := n % 256;
        if alloc == 0 {
          slots := new Pcb[1](i => address);
        } else {
          slots := new Pcb[n](i => NULL);
        }
      }
      iget, iput := 0, 0;
      queue := if slots[0] == NULL then [] else [address];
      assert slots[At(iget, 0, Room())] == slots[0];
    }

    /** _lwip_tcp_accept, for an arrival without an error */
    method OnAccept(p: Pcb) returns (ok: bool)
      requires Valid() && p != NULL
      modifies slots, `iput, `queue
      ensures Valid() && ok == (|old(queue)| < Room()) && queue == Added(old(queue), Room(), p)
    {
      assert At(iget, if |queue| < Room() then |queue| else 0, Room()) == iput;
      if slots[iput] == NULL {
        NextAt(iget, |queue|, alloc);
        slots[iput] := p;
        iput := NextSlot(iput, alloc);
        queue := queue + [p];
        return true;
      }
      return false;
    }

    /** `k` slots of the pass over the queue `q` are done, `i` is next, and `down` is the slot to
        be filled from the next one, once `p` has been found. */
    ghost predicate Passing(q: seq<Pcb>, p: Pcb, k: nat, i: nat, down: int)
      reads this, slots
    {
      var n, r := Room(), Place(q, p);
      && n <= slots.Length && iget < n && |q| <= n && NULL !in q
      && k <= Last(|q|, n) && i == At(iget, k, n)
      && down == (if r < k && r < |q| then At(iget, k - 1, n) else -1)
      && forall j | 0 <= j < n :: slots[At(iget, j, n)] == Shifted(q, r, k, j)
    }

    method Visit(p: Pcb, i: nat, down: int, ghost q: seq<Pcb>, ghost k: nat) returns (i': nat, down': int)
      requires p != NULL && Passing(q, p, k, i, down) && k < Last(|q|, Room())
      modifies slots
      ensures Passing(q, p, k + 1, i', down')
    {
      assert slots[i] == Shifted(q, Place(q, p), k, k);
      NextAt(iget, k, alloc);
      i' := NextSlot(i, alloc);
      if down == -1 {
        down' := if slots[i] == p then i else -1;
      } else {
        slots[down] := slots[i];
        down' := i;
      }
    }

    /** The gap has reached the end of the queue. */
    method Close(p: Pcb, down: nat)
      requires Passing(queue, p, |queue|, iput, down) && alloc < 256
      modifies slots, `iput, `queue
      ensures Valid() && queue == Removed(old(queue), p)
    {
      ghost var q := Removed(queue, p);
      ghost var c := |queue| - 1;
      GapAtEnd(queue, p);
      assert down == At(iget, c, Room());
      assert forall j | 0 <= j < Room() && j != c :: slots[At(iget, j, Room())] == if j < c then q[j] else NULL;
      slots[down] := NULL;
      iput := down;
      queue := q;
    }

    /** _lwip_tcp_err_unaccepted: one pass over the slots in use that closes the gap. */
    method OnError(p: Pcb)
      requires Valid() && p != NULL
      modifies slots, `iput, `queue
      ensures Valid() && queue == Removed(old(queue), p)
    {
      var down := -1;
      var i := iget;
      var first := true;
      ghost var k := 0;
      while first || i != iput
        invariant queue == old(queue) && iput == old(iput)
        invariant Passing(queue, p, k, i, down) && (first <==> k == 0)
        decreases Last(|queue|, Room()) - k
      {
        assert k < Last(|queue|, Room());
        i, down := Visit(p, i, down, queue, k);
        first := false;
        k := k + 1;
      }
      if down != -1 {
        Close(p, down);
      } else {
        RemovedAt(queue, p);
      }
    }

    /** lwip_socket_accept after its wait: the first connection, or NULL when there is none. */
    method Accept() returns (p: Pcb)
      requires Valid()
      modifies slots, `iget, `queue
      ensures Valid()
      ensures if old(queue) == [] then p == NULL && queue == [] else [p] + queue == old(queue)
    {
      assert At(iget, 0, Room()) == iget;
      p := slots[iget];
      if p == NULL {
        return;
      }
      ghost var was := iget;
      slots[iget] := NULL;
      NextAt(iget, 0, alloc);
      iget := NextSlot(iget, alloc);
      queue := queue[1..];
      forall j | 0 <= j < Room()
        ensures slots[At(iget, j, Room())] == if j < |queue| then queue[j] else NULL
      {
        if j + 1 < Room() {
          assert At(iget, j, Room()) == At(was, j + 1, Room());
        } else {
          assert At(iget, j, Room()) == was;
        }
      }
    }
  }

  /** Once all have been visited, the first ones are those of the shorter queue. */
  lemma GapAtEnd(q: seq<Pcb>, p: Pcb)
    requires Place(q, p) < |q|
    ensures |Removed(q, p)| == |q| - 1
    ensures forall j: nat | j != |q| - 1 ::
              Shifted(q, Place(q, p), |q|, j) == if j < |q| - 1 then Removed(q, p)[j] else NULL
  {
    RemovedAt(q, p);
  }

  // ---------- whole runs ----------

  /** The first accept on a listening socket that no connection has reached: nothing, or, for a
      backlog that is a multiple of 256, the address of the array. */
  method FirstAccept(s: Listener, backlog: int, address: Pcb) returns (p: Pcb)
    requires address != NULL
    modifies s
    ensures p == (if backlog < 256 || backlog % 256 != 0 then NULL else address)
    ensures s.Valid() && s.queue == []
  {
    s.Listen(backlog, address);
    p := s.Accept();
  }

  /** What can happen to a listening socket; `p` is not NULL. */
  datatype Event = Arrive(p: Pcb) | Fail(p: Pcb) | Take

  predicate Real(es: seq<Event>) { forall i | 0 <= i < |es| :: es[i].Take? || es[i].p != NULL }

  /** The books of a run: who was let in, who was handed out, who died waiting, who waits. */
  datatype Books = Books(accepted: seq<Pcb>, taken: seq<Pcb>, died: seq<Pcb>, queue: seq<Pcb>)

  const OPENED := Books([], [], [], [])

  function Entry(b: Books, room: nat, e: Event): Books {
    match e
    case Arrive(p) =>
      if |b.queue| < room then b.(accepted := b.accepted + [p], queue := b.queue + [p]) else b
    case Fail(p) =>
      if p in b.queue then b.(died := b.died + [p], queue := Removed(b.queue, p)) else b
    case Take =>
      if b.queue == [] then b else b.(taken := b.taken + [b.queue[0]], queue := b.queue[1..])
  }

  function Kept(room: nat, es: seq<Event>): Books {
    if es == [] then OPENED else Entry(Kept(room, es[..|es| - 1]), room, es[|es| - 1])
  }

  /** `a` is `b` with some items left out. */
  ghost predicate Within(a: seq<Pcb>, b: seq<Pcb>)
    decreases |b|
  {
    a == []
    || (b != [] && (Within(a, b[..|b| - 1]) || (a[|a| - 1] == b[|b| - 1] && Within(a[..|a| - 1], b[..|b| - 1]))))
  }

  lemma {:induction false} WithinGrows(a: seq<Pcb>, b: seq<Pcb>, p: Pcb)
    requires Within(a, b)
    ensures Within(a + [p], b + [p])
  {
    assert (a + [p])[..|a|] == a && (b + [p])[..|b|] == b;
  }

  lemma {:induction false} WithinWithout(a: seq<Pcb>, b: seq<Pcb>, i: nat)
    requires i < |a| && Within(a, b)
    ensures Within(a[..i] + a[i + 1..], b)
    decreases |b|
  {
    var c, n := a[..i] + a[i + 1..], |a| - 1;
    var b' := b[..|b| - 1];
    if Within(a, b') {
      WithinWithout(a, b', i);
    } else if i == n {
      assert c == a[..n];
    } else {
      WithinWithout(a[..n], b', i);
      assert c[..n - 1] == a[..n][..i] + a[..n][i + 1..];
      assert c[n - 1] == a[n];
    }
  }

  lemma {:induction false} RemovedCounts(q: seq<Pcb>, p: Pcb)
    requires p in q
    ensures multiset(Removed(q, p)) + multiset{p} == multiset(q)
  {
    assert q == [q[0]] + q[1..];
    if q[0] != p {
      RemovedCounts(q[1..], p);
    }
  }

  ghost predicate Counted(b: Books) {
    multiset(b.accepted) == multiset(b.taken) + multiset(b.died) + multiset(b.queue)
  }

  lemma EntryCounted(b: Books, room: nat, e: Event)
    requires Counted(b)
    ensures Counted(Entry(b, room, e))
  {
    if e.Fail? && e.p in b.queue {
      RemovedCounts(b.queue, e.p);
    } else if e.Take? && b.queue != [] {
      assert b.queue == [b.queue[0]] + b.queue[1..];
    }
  }

  ghost predicate Ordered(b: Books) { Within(b.taken + b.queue, b.accepted) }

  lemma EntryOrdered(b: Books, room: nat, e: Event)
    requires Ordered(b)
    ensures Ordered(Entry(b, room, e))
  {
    match e
    case Arrive(p) =>
      WithinGrows(b.taken + b.queue, b.accepted, p);
      assert b.taken + (b.queue + [p]) == b.taken + b.queue + [p];
    case Fail(p) =>
      if p in b.queue {
        FailOrdered(b, p);
      }
    case Take =>
      if b.queue != [] {
        assert b.taken + [b.queue[0]] + b.queue[1..] == b.taken + b.queue;
      }
  }

  lemma CutBehind(t: seq<Pcb>, q: seq<Pcb>, r: nat)
    requires r < |q|
    ensures (t + q)[..|t| + r] + (t + q)[|t| + r + 1..] == t + (q[..r] + q[r + 1..])
  {
    assert (t + q)[..|t| + r] == t + q[..r];
    assert (t + q)[|t| + r + 1..] == q[r + 1..];
    assert t + q[..r] + q[r + 1..] == t + (q[..r] + q[r + 1..]);
  }

  lemma RemovedBehind(t: seq<Pcb>, q: seq<Pcb>, p: Pcb)
    requires p in q
    ensures var all, i := t + q, |t| + Place(q, p); i < |all| && all[..i] + all[i + 1..] == t + Removed(q, p)
  {
    RemovedAt(q, p);
    CutBehind(t, q, Place(q, p));
  }

  lemma FailOrdered(b: Books, p: Pcb)
    requires Ordered(b) && p in b.queue
    ensures Within(b.taken + Removed(b.queue, p), b.accepted)
  {
    var all, i := b.taken + b.queue, |b.taken| + Place(b.queue, p);
    WithinWithout(all, b.accepted, i);
    RemovedBehind(b.taken, b.queue, p);
  }

  /** The books balance after every run of arrivals, failures and accepts, in any order: nobody is
      lost or handed out twice, and the connections handed out, then those still waiting, stand
      in the order of their arrival. */
  lemma {:induction false} BooksBalance(room: nat, es: seq<Event>)
    ensures var b := Kept(room, es); Counted(b) && Ordered(b) && |b.queue| <= room
  {
    if es != [] {
      var e, b := es[|es| - 1], Kept(room, es[..|es| - 1]);
      BooksBalance(room, es[..|es| - 1]);
      EntryCounted(b, room, e);
      EntryOrdered(b, room, e);
    }
  }

  /** Without failures the queue is first in, first out, with nothing left out. */
  lemma {:induction false} FirstInFirstOut(room: nat, es: seq<Event>)
    requires forall i | 0 <= i < |es| :: !es[i].Fail?
    ensures var b := Kept(room, es); b.taken + b.queue == b.accepted && b.died == []
  {
    if es != [] {
      var b := Kept(room, es[..|es| - 1]);
      FirstInFirstOut(room, es[..|es| - 1]);
      if es[|es| - 1].Take? && b.queue != [] {
        assert b.taken + [b.queue[0]] + b.queue[1..] == b.taken + b.queue;
      }
    }
  }

  /** A listening socket keeps exactly these books. */
  method Serve(s: Listener, es: seq<Event>) returns (taken: seq<Pcb>)
    requires s.Valid() && s.queue == [] && Real(es)
    modifies s, s.slots
    ensures s.Valid() && s.slots == old(s.slots) && s.Room() == old(s.Room())
    ensures taken == Kept(s.Room(), es).taken && s.queue == Kept(s.Room(), es).queue
  {
    taken := [];
    for i := 0 to |es|
      invariant s.Valid() && s.slots == old(s.slots) && s.alloc == old(s.alloc)
      invariant taken == Kept(s.Room(), es[..i]).taken && s.queue == Kept(s.Room(), es[..i]).queue
    {
      assert es[..i + 1][..i] == es[..i];
      match es[i]
      case Arrive(p) =>
        var _ := s.OnAccept(p);
      case Fail(p) =>
        NotThere(s.queue, p);
        s.OnError(p);
      case Take =>
        var p := s.Accept();
        if p != NULL {
          taken := taken + [p];
        }
    }
    assert es[..|es|] == es;
  }

  lemma {:induction false} NotThere(q: seq<Pcb>, p: Pcb)
    ensures p !in q ==> Removed(q, p) == q
  {
    RemovedAt(q, p);
  }
}
