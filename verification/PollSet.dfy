/** The set of objects that `poll` watches, in the build that keeps the descriptors in one array:
    slots are reused, the array grows, and when it moves every object's pointer into it moves too. */
module PollSet {

  datatype PollFd = PollFd(fd: int, events: nat, revents: nat)

  /** The identity of an object. */
  type Obj = int

  const NULL := 0
  const POLL_SET_ALLOC_INCREMENT := 4

  // ---------- sets of numbers ----------

  lemma {:induction false} RangeSize(n: nat, s: set<nat>)
    requires forall i: nat | i < n :: i in s
    ensures |s| >= n
  {
    if n > 0 {
      RangeSize(n - 1, s - {n - 1});
    }
  }

  lemma Inhabited(a: set<Obj>)
    requires a != {}
    ensures exists x :: x in a
  {
    assert (forall x :: x !in a) ==> a == {};
  }

  lemma SmallerSet(a: set<Obj>, b: set<Obj>)
    requires a <= b && a != b
    ensures |a| < |b| && exists x :: x in b && x !in a
  {
    assert b - a == {} ==> b <= a;
    Inhabited(b - a);
    var x :| x in b - a;
    assert a <= b - {x};
    SubsetSize(a, b - {x});
  }

  lemma {:induction false} SubsetSize(a: set<Obj>, b: set<Obj>)
    requires a <= b
    ensures |a| <= |b|
  {
    if a != {} {
      Inhabited(a);
      var x :| x in a;
      SubsetSize(a - {x}, b - {x});
    }
  }

  // ---------- what must hold ----------

  /** The state of a poll set. Objects are known by their identities, slots by their addresses,
      counted in slots. `fds` is each object's descriptor, -1 for none; `wanted` the events asked
      for; `owner` whose a slot is; `ptrs` each object's `pollfd`. */
  datatype View = View(ptrs: map<Obj, int>, nonFd: map<Obj, nat>, pollfds: seq<PollFd>,
                       base: nat, maxUsed: nat, used: nat,
                       fds: map<Obj, int>, wanted: map<Obj, nat>, owner: map<nat, Obj>)

  predicate HasFd(v: View, o: Obj) { o in v.fds && v.fds[o] >= 0 }

  ghost function Holders(v: View): set<Obj> { set o | o in v.fds && v.fds[o] >= 0 }

  /** An object's pointer leads to its own slot, which says its descriptor and its events. */
  ghost predicate Points(v: View, o: Obj) {
    && o in v.ptrs && o in v.fds && o in v.wanted && v.base <= v.ptrs[o] < v.base + v.maxUsed
       && v.maxUsed <= |v.pollfds|
    && var i := v.ptrs[o] - v.base;
       v.pollfds[i].fd == v.fds[o] && v.pollfds[i].events == v.wanted[o] && i in v.owner && v.owner[i] == o
  }

  ghost predicate Apart(v: View, o: Obj) {
    o in v.ptrs && o in v.fds && o in v.wanted && v.fds[o] == -1 && v.ptrs[o] == NULL && o in v.nonFd
    && v.nonFd[o] == v.wanted[o]
  }

  ghost predicate SlotKnown(v: View, i: nat)
    requires i < |v.pollfds|
  {
    if i in v.owner then HasFd(v, v.owner[i]) && Points(v, v.owner[i]) && v.ptrs[v.owner[i]] == v.base + i
    else v.pollfds[i].fd == -1
  }

  ghost predicate Placed(v: View, o: Obj) { if HasFd(v, o) then Points(v, o) else Apart(v, o) }

  ghost predicate ObjectsSound(v: View) {
    v.ptrs.Keys == v.fds.Keys == v.wanted.Keys && forall o | o in v.fds :: Placed(v, o)
  }

  ghost predicate SlotsSound(v: View) {
    && v.maxUsed <= |v.pollfds| && (v.base == NULL ==> v.pollfds == [])
    && (forall i: nat | i < v.maxUsed :: SlotKnown(v, i))
    && (forall i | i in v.owner :: i < v.maxUsed)
  }

  ghost predicate Sound(v: View) {
    SlotsSound(v) && ObjectsSound(v) && v.used == |v.owner| == |Holders(v)|
  }

  /** Two objects never share a slot. */
  lemma SlotsApart(v: View, o: Obj, p: Obj)
    requires Sound(v) && HasFd(v, o) && HasFd(v, p) && o != p
    ensures v.ptrs[o] != v.ptrs[p]
  {
    assert Points(v, o) && Points(v, p);
  }

  /** The assertion in poll_set_add_fd: with fewer slots used than touched, one is free. */
  lemma FreeSlot(v: View)
    requires Sound(v) && v.used < v.maxUsed
    ensures exists i :: 0 <= i < v.maxUsed && v.pollfds[i].fd == -1
  {
    if forall i: nat | i < v.maxUsed :: i in v.owner.Keys {
      RangeSize(v.maxUsed, v.owner.Keys);
    } else {
      var i: nat :| i < v.maxUsed && i !in v.owner.Keys;
      assert SlotKnown(v, i);
    }
  }

  // ---------- changes ----------

  /** A new object in slot `i`, which was free or untouched. */
  function WithFd(v: View, o: Obj, i: nat, fd: int, e: nat): View
    requires i < |v.pollfds|
  {
    v.(ptrs := v.ptrs[o := v.base + i], pollfds := v.pollfds[i := PollFd(fd, e, 0)],
       maxUsed := if i < v.maxUsed then v.maxUsed else i + 1, used := v.used + 1,
       fds := v.fds[o := fd], wanted := v.wanted[o := e], owner := v.owner[i := o])
  }

  /** Its two stages: the slot has the descriptor, then all the rest. */
  function Reserved(v: View, i: nat, fd: int): View
    requires i < |v.pollfds|
  {
    v.(pollfds := v.pollfds[i := v.pollfds[i].(fd := fd)], used := v.used + 1,
       maxUsed := if i < v.maxUsed then v.maxUsed else i + 1)
  }

  function Filled(v: View, o: Obj, i: nat, fd: int, e: nat): View
    requires i < |v.pollfds|
  {
    v.(ptrs := v.ptrs[o := v.base + i], pollfds := v.pollfds[i := v.pollfds[i].(events := e, revents := 0)],
       fds := v.fds[o := fd], wanted := v.wanted[o := e], owner := v.owner[i := o])
  }

  lemma FilledIs(v: View, o: Obj, i: nat, fd: int, e: nat)
    requires i < |v.pollfds|
    ensures Filled(Reserved(v, i, fd), o, i, fd, e) == WithFd(v, o, i, fd, e)
  {
    assert v.pollfds[i := v.pollfds[i].(fd := fd)][i := PollFd(fd, e, 0)] == v.pollfds[i := PollFd(fd, e, 0)];
  }

  ghost predicate Free(v: View, i: nat) {
    i < |v.pollfds| && i <= v.maxUsed && (i < v.maxUsed ==> v.pollfds[i].fd == -1)
  }

  lemma FreeHasNoOwner(v: View, i: nat)
    requires SlotsSound(v) && Free(v, i)
    ensures i !in v.owner
  {
    if i < v.maxUsed {
      assert SlotKnown(v, i);
      assert i in v.owner ==> Points(v, v.owner[i]);
    }
  }

  lemma WithFdPlaced(v: View, o: Obj, i: nat, fd: int, e: nat, p: Obj)
    requires Sound(v) && o !in v.fds && fd >= 0 && Free(v, i) && p in v.fds
    ensures Placed(WithFd(v, o, i, fd, e), p)
  {
    FreeHasNoOwner(v, i);
    assert Placed(v, p);
    assert HasFd(v, p) ==> Points(v, p);
  }

  lemma WithFdKnown(v: View, o: Obj, i: nat, fd: int, e: nat, k: nat)
    requires Sound(v) && o !in v.fds && fd >= 0 && Free(v, i) && k < v.maxUsed && k != i
    ensures SlotKnown(WithFd(v, o, i, fd, e), k)
  {
    assert SlotKnown(v, k);
    if k in v.owner {
      WithFdPlaced(v, o, i, fd, e, v.owner[k]);
    }
  }

  lemma WithFdCounts(v: View, o: Obj, i: nat, fd: int, e: nat)
    requires Sound(v) && o !in v.fds && fd >= 0 && Free(v, i)
    ensures var w := WithFd(v, o, i, fd, e); w.used == |w.owner| == |Holders(w)|
  {
    FreeHasNoOwner(v, i);
    OneOwnerMore(v.owner, i, o);
    OneHolderMore(v, WithFd(v, o, i, fd, e), o, fd);
  }

  lemma OneOwnerMore(owner: map<nat, Obj>, i: nat, o: Obj)
    requires i !in owner
    ensures |owner[i := o]| == |owner| + 1
  {
    var more := owner[i := o];
    assert more.Keys == owner.Keys + {i};
    assert |more| == |more.Keys| && |owner| == |owner.Keys|;
  }

  lemma OneHolderMore(v: View, w: View, o: Obj, fd: int)
    requires o !in v.fds && fd >= 0 && w.fds == v.fds[o := fd]
    ensures |Holders(w)| == |Holders(v)| + 1
  {
    assert Holders(w) == Holders(v) + {o};
  }

  lemma WithFdSound(v: View, o: Obj, i: nat, fd: int, e: nat)
    requires Sound(v) && o !in v.fds && fd >= 0 && Free(v, i)
    ensures Sound(WithFd(v, o, i, fd, e))
  {
    var w := WithFd(v, o, i, fd, e);
    assert Placed(w, o);
    forall p | p in w.fds ensures Placed(w, p) {
      if p != o { WithFdPlaced(v, o, i, fd, e, p); }
    }
    forall k: nat | k < w.maxUsed ensures SlotKnown(w, k) {
      if k != i { WithFdKnown(v, o, i, fd, e, k); }
    }
    WithFdCounts(v, o, i, fd, e);
  }

  /** A new object without a descriptor. */
  function WithoutFd(v: View, o: Obj, e: nat): View {
    v.(ptrs := v.ptrs[o := NULL], nonFd := v.nonFd[o := e], fds := v.fds[o := -1], wanted := v.wanted[o := e])
  }

  lemma WithoutFdSound(v: View, o: Obj, e: nat)
    requires Sound(v) && o !in v.fds
    ensures Sound(WithoutFd(v, o, e))
  {
    var w := WithoutFd(v, o, e);
    forall p | p in w.fds ensures Placed(w, p) {
      if p != o { assert Placed(v, p); }
    }
    forall k: nat | k < w.maxUsed ensures SlotKnown(w, k) {
      assert SlotKnown(v, k);
    }
    assert Holders(w) == Holders(v);
  }

  /** An object's events changed, through its pointer or beside it. */
  function WithEvents(v: View, o: Obj, e: nat): View
    requires o in v.ptrs && (v.ptrs[o] != NULL ==> v.base <= v.ptrs[o] < v.base + |v.pollfds|)
  {
    if v.ptrs[o] != NULL then
      var i := v.ptrs[o] - v.base;
      v.(pollfds := v.pollfds[i := v.pollfds[i].(events := e)], wanted := v.wanted[o := e])
    else v.(nonFd := v.nonFd[o := e], wanted := v.wanted[o := e])
  }

  lemma PointerInside(v: View, o: Obj)
    requires Sound(v) && o in v.ptrs
    ensures v.ptrs[o] != NULL <==> HasFd(v, o)
    ensures v.ptrs[o] != NULL ==> v.base <= v.ptrs[o] < v.base + v.maxUsed <= v.base + |v.pollfds|
  {
    assert o in v.fds;
    assert Placed(v, o);
  }

  lemma WithEventsSound(v: View, o: Obj, e: nat)
    requires Sound(v) && o in v.ptrs
    ensures v.ptrs[o] != NULL ==> v.base <= v.ptrs[o] < v.base + |v.pollfds|
    ensures Sound(WithEvents(v, o, e))
  {
    PointerInside(v, o);
    var w := WithEvents(v, o, e);
    forall p | p in w.fds ensures Placed(w, p) {
      assert Placed(v, p) && Placed(v, o);
      if HasFd(v, p) && HasFd(v, o) && p != o { SlotsApart(v, o, p); }
    }
    forall k: nat | k < w.maxUsed ensures SlotKnown(w, k) {
      assert SlotKnown(v, k);
      assert k in v.owner ==> Placed(w, v.owner[k]);
    }
    assert Holders(w) == Holders(v);
  }

  /** An object gone, its slot free. */
  function Removed(v: View, o: Obj): View
    requires o in v.ptrs && (v.ptrs[o] != NULL ==> v.base <= v.ptrs[o] < v.base + |v.pollfds| && v.used > 0)
  {
    var u := if v.ptrs[o] != NULL then Vacated(v, o) else v;
    u.(ptrs := v.ptrs - {o}, fds := v.fds - {o}, wanted := v.wanted - {o})
  }

  /** Its slot alone. */
  function Vacated(v: View, o: Obj): View
    requires o in v.ptrs && v.base <= v.ptrs[o] < v.base + |v.pollfds| && v.used > 0
  {
    var i := v.ptrs[o] - v.base;
    v.(pollfds := v.pollfds[i := v.pollfds[i].(fd := -1)], used := v.used - 1, owner := v.owner - {i})
  }

  lemma RemovedCounts(v: View, o: Obj)
    requires Sound(v) && o in v.ptrs && HasFd(v, o)
    ensures v.used > 0 && v.base <= v.ptrs[o] < v.base + |v.pollfds|
    ensures var w := Removed(v, o); w.used == |w.owner| == |Holders(w)|
  {
    PointerInside(v, o);
    assert Placed(v, o);
    var i := v.ptrs[o] - v.base;
    assert o in Holders(v);
    assert v.owner.Keys - {i} == (v.owner - {i}).Keys && |v.owner| == |v.owner.Keys|;
    var w := Removed(v, o);
    assert Holders(w) == Holders(v) - {o};
    assert |w.owner| == |w.owner.Keys|;
  }

  lemma RemovedSound(v: View, o: Obj)
    requires Sound(v) && o in v.ptrs
    ensures v.ptrs[o] != NULL ==> v.base <= v.ptrs[o] < v.base + |v.pollfds| && v.used > 0
    ensures Sound(Removed(v, o))
  {
    PointerInside(v, o);
    if HasFd(v, o) { RemovedCounts(v, o); }
    var w := Removed(v, o);
    if !HasFd(v, o) { assert Holders(w) == Holders(v); }
    forall p | p in w.fds ensures Placed(w, p) {
      assert Placed(v, p) && Placed(v, o);
      if HasFd(v, p) && HasFd(v, o) { SlotsApart(v, o, p); }
    }
    forall k: nat | k < w.maxUsed ensures SlotKnown(w, k) {
      assert SlotKnown(v, k) && Placed(v, o);
      assert k in w.owner ==> Placed(w, w.owner[k]);
    }
  }

  // ---------- growing ----------

  /** More slots behind the old ones, at the same place; an empty set has no place yet. */
  function InPlace(v: View, base: nat, extra: seq<PollFd>): View {
    v.(pollfds := v.pollfds + extra, base := base)
  }

  /** More slots at another place; every pointer is moved, NULL as well. */
  function Moved(v: View, base: nat, extra: seq<PollFd>): View {
    v.(pollfds := v.pollfds + extra, base := base, ptrs := MovedPtrs(v.ptrs, v.base, base))
  }

  function MovedPtrs(m: map<Obj, int>, from: int, to: int): map<Obj, int> { map o | o in m :: to + (m[o] - from) }

  lemma SameMap(a: map<Obj, int>, b: map<Obj, int>)
    requires a.Keys == b.Keys && forall o | o in a :: a[o] == b[o]
    ensures a == b
  {
    assert forall o | o in a.Keys :: a[o] == b[o];
  }

  /** The array as poll_set_add_fd leaves it: only a full one grows. */
  function Grown(v: View, renewed: nat, place: nat, extra: seq<PollFd>): View {
    if v.used < v.maxUsed || v.maxUsed < |v.pollfds| then v
    else if renewed != NULL then InPlace(v, renewed, extra) else Moved(v, place, extra)
  }

  predicate AllHaveFd(v: View) { forall o | o in v.fds :: HasFd(v, o) }

  lemma GrownSound(v: View, w: View, extra: seq<PollFd>)
    requires Sound(v) && w.base != NULL
    requires (w == InPlace(v, w.base, extra) && (w.base == v.base || v.base == NULL))
             || (w == Moved(v, w.base, extra) && AllHaveFd(v))
    ensures Sound(w)
  {
    assert Holders(w) == Holders(v);
    assert w.ptrs.Keys == v.ptrs.Keys;
    forall o | o in w.fds ensures Placed(w, o) {
      assert Placed(v, o) && HasFd(v, o) == HasFd(w, o);
    }
    forall k: nat | k < w.maxUsed ensures SlotKnown(w, k) {
      assert SlotKnown(v, k);
      assert k in v.owner ==> Placed(w, v.owner[k]);
    }
  }

  /** An object without a descriptor whose pointer is no longer NULL. */
  predicate Astray(v: View, o: Obj) { o in v.fds && o in v.ptrs && v.fds[o] == -1 && v.ptrs[o] != NULL }

  /** Some objects without a descriptor had NULL for a pointer; now they all have the distance that
      the array has moved. */
  ghost predicate LedAstray(v: View, w: View) {
    && !AllHaveFd(v) && v.base != w.base
    && forall o | o in v.fds && !HasFd(v, o) :: Astray(w, o) && w.ptrs[o] == w.base - v.base
  }

  /** Such a pointer leads into the array only if it was the first one. */
  lemma AstrayOutside(v: View, w: View, o: Obj)
    requires LedAstray(v, w) && o in v.fds && !HasFd(v, o)
    ensures w.base <= w.ptrs[o] <==> v.base == NULL
  {
    assert Astray(w, o);
  }

  /** A move leads every object without a descriptor astray. */
  lemma MovedAstray(v: View, base: nat, extra: seq<PollFd>, o: Obj)
    requires Sound(v) && base != v.base && o in v.fds && !HasFd(v, o)
    ensures Astray(Moved(v, base, extra), o) && Moved(v, base, extra).ptrs[o] == base - v.base
  {
    assert Placed(v, o);
  }

  lemma AstrayUnsound(v: View, o: Obj)
    requires Astray(v, o)
    ensures !Sound(v)
  {
    if Sound(v) {
      PointerInside(v, o);
    }
  }

  // ---------- the poll object ----------

  datatype Result = Done | NoEntry

  /** The slots in use, the slots ever used, and the slots there are, after one more descriptor. */
  function OneMore(used: nat, maxUsed: nat, alloc: nat): (nat, nat, nat) {
    if used < maxUsed then (used + 1, maxUsed, alloc)
    else (used + 1, maxUsed + 1, if maxUsed < alloc then alloc else alloc + POLL_SET_ALLOC_INCREMENT)
  }

  class Poller {
    var ptrs: map<Obj, int>
    var nonFd: map<Obj, nat>
    var pollfds: seq<PollFd>
    var base: nat
    var alloc: nat
    var maxUsed: nat
    var used: nat
    ghost var fds: map<Obj, int>
    ghost var wanted: map<Obj, nat>
    ghost var owner: map<nat, Obj>

    ghost function Now(): View
      reads this
    {
      View(ptrs, nonFd, pollfds, base, maxUsed, used, fds, wanted, owner)
    }

    ghost predicate Valid()
      reads this
    {
      alloc == |pollfds| && Sound(Now())
    }

    /** poll_set_init */
    constructor ()
      ensures Valid() && fds == map[] && wanted == map[] && (base, used, maxUsed, alloc) == (NULL, 0, 0, 0)
    {
      ptrs, nonFd, pollfds, base, alloc, maxUsed, used := map[], map[], [], NULL, 0, 0, 0;
      fds, wanted, owner := map[], map[], map[];
      new;
      assert Holders(Now()) == {};
    }

    /** poll_set_all_are_fds */
    method AllAreFds() returns (r: bool)
      requires Valid()
      ensures r <==> AllHaveFd(Now())
    {
      ghost var v := Now();
      ghost var all := v.fds.Keys;
      assert Holders(v) <= all && |ptrs| == |ptrs.Keys|;
      if Holders(v) != all {
        SmallerSet(Holders(v), all);
        var o :| o in all && o !in Holders(v);
        assert !HasFd(v, o);
      } else {
        forall o | o in v.fds ensures HasFd(v, o) { assert o in Holders(v); }
      }
      r := |ptrs| == used;
    }

    /** The loop that moves the pointers along with the array. */
    method Rebase(newBase: nat)
      modifies `ptrs
      ensures ptrs == MovedPtrs(old(ptrs), base, newBase)
    {
      var todo := ptrs.Keys;
      while todo != {}
        invariant ptrs.Keys == old(ptrs.Keys) && todo <= ptrs.Keys
        invariant forall o | o in ptrs :: ptrs[o] == if o in todo then old(ptrs)[o] else newBase + (old(ptrs)[o] - base)
        decreases |todo|
      {
        Inhabited(todo);
        var o :| o in todo;
        ptrs := ptrs[o := newBase + (ptrs[o] - base)];
        todo := todo - {o};
      }
      SameMap(ptrs, MovedPtrs(old(ptrs), base, newBase));
    }

    /** The growth in poll_set_add_fd. The environment decides what the reallocation gives
        (`renewed`, NULL when it fails), where new memory is, and what is in the new slots. */
    method Grow(renewed: nat, place: nat, extra: seq<PollFd>)
      requires alloc == |pollfds| && |extra| == POLL_SET_ALLOC_INCREMENT
      modifies `ptrs, `pollfds, `base, `alloc
      ensures alloc == |pollfds| == old(alloc) + POLL_SET_ALLOC_INCREMENT
      ensures Now() == if renewed != NULL then InPlace(old(Now()), renewed, extra) else Moved(old(Now()), place, extra)
    {
      var newFds := renewed;
      if newFds == NULL {
        newFds := place;
        Rebase(newFds);
      }
      pollfds := pollfds + extra;
      base := newFds;
      alloc := alloc + POLL_SET_ALLOC_INCREMENT;
    }

    /** The search for a free slot, which the sources assert to succeed. */
    method FindFree() returns (i: nat)
      requires Valid() && used < maxUsed
      ensures Free(Now(), i) && i < maxUsed
    {
      FreeSlot(Now());
      i := 0;
      while pollfds[i].fd != -1
        invariant i < maxUsed && forall k | 0 <= k < i :: pollfds[k].fd != -1
        decreases maxUsed - i
      {
        i := i + 1;
      }
    }

    ghost predicate Environment(renewed: nat, place: nat, extra: seq<PollFd>)
      reads this
    {
      && |extra| == POLL_SET_ALLOC_INCREMENT && (renewed == NULL || renewed == base || base == NULL)
      && place != NULL && place != base
    }

    /** poll_set_add_fd has to find another place for the array. */
    ghost predicate Moves(renewed: nat)
      reads this
    {
      used == maxUsed && maxUsed >= alloc && renewed == NULL
    }

    /** poll_set_add_fd: the address of a slot for `fd`, and the state `g` after growing. */
    method AddFd(fd: int, renewed: nat, place: nat, extra: seq<PollFd>) returns (slot: nat, ghost g: View)
      requires Valid() && fd >= 0 && Environment(renewed, place, extra)
      modifies `ptrs, `pollfds, `base, `alloc, `maxUsed, `used
      ensures alloc == |pollfds| && base == g.base <= slot && Free(g, slot - base) && g.base != NULL
      ensures g == Grown(old(Now()), renewed, place, extra)
      ensures Now() == Reserved(g, slot - base, fd)
      ensures (used, maxUsed, alloc) == OneMore(old(used), old(maxUsed), old(alloc))
    {
      UsedFits(Now());
      var i;
      if used == maxUsed {
        if maxUsed >= alloc {
          Grow(renewed, place, extra);
        }
        g := Now();
        i := maxUsed;
        maxUsed := maxUsed + 1;
      } else {
        g := Now();
        i := FindFree();
      }
      pollfds := pollfds[i := pollfds[i].(fd := fd)];
      used := used + 1;
      slot := base + i;
    }

    /** poll_obj_set_events */
    method SetEvents(obj: Obj, events: nat)
      requires Valid() && obj in ptrs
      modifies `pollfds, `nonFd, `wanted
      ensures Valid() && wanted == old(wanted)[obj := events]
    {
      WithEventsSound(Now(), obj, events);
      if ptrs[obj] != NULL {
        pollfds := pollfds[ptrs[obj] - base := pollfds[ptrs[obj] - base].(events := events)];
      } else {
        nonFd := nonFd[obj := events];
      }
      wanted := wanted[obj := events];
      assert Now() == WithEvents(old(Now()), obj, events);
    }

    /** The object takes the slot. */
    method Bind(obj: Obj, slot: nat, ghost fd: int, events: nat)
      requires base <= slot < base + |pollfds|
      modifies `ptrs, `pollfds, `fds, `wanted, `owner
      ensures |pollfds| == |old(pollfds)| && Now() == Filled(old(Now()), obj, slot - base, fd, events)
    {
      ptrs := ptrs[obj := slot];
      pollfds := pollfds[slot - base := pollfds[slot - base].(events := events, revents := 0)];
      fds, wanted, owner := fds[obj := fd], wanted[obj := events], owner[slot - base := obj];
    }

    /** The part of poll_set_add_obj for a new object that has a descriptor. */
    method AddWithFd(obj: Obj, fd: int, events: nat, renewed: nat, place: nat, extra: seq<PollFd>)
      requires Valid() && obj !in ptrs && fd >= 0 && Environment(renewed, place, extra)
      modifies this
      ensures fds == old(fds)[obj := fd] && wanted == old(wanted)[obj := events]
      ensures Valid() <==> !(old(Moves(renewed)) && !AllHaveFd(old(Now())))
      ensures !Valid() ==> LedAstray(old(Now()), Now())
      ensures (used, maxUsed, alloc) == OneMore(old(used), old(maxUsed), old(alloc))
    {
      ghost var v := Now();
      var slot;
      ghost var g;
      slot, g := AddFd(fd, renewed, place, extra);
      ghost var i := slot - base;
      Bind(obj, slot, fd, events);
      AddedOutcome(v, g, Now(), obj, i, fd, events, renewed, place, extra);
    }

    /** poll_set_add_obj for an object that is new to the set. `fd` is negative when it has no
        descriptor. */
    method AddNew(obj: Obj, fd: int, events: nat, renewed: nat, place: nat, extra: seq<PollFd>)
      requires Valid() && obj !in ptrs && Environment(renewed, place, extra)
      modifies this
      ensures fds == old(fds)[obj := if fd >= 0 then fd else -1] && wanted == old(wanted)[obj := events]
      ensures Valid() <==> !(fd >= 0 && old(Moves(renewed)) && !AllHaveFd(old(Now())))
      ensures !Valid() ==> LedAstray(old(Now()), Now())
      ensures (used, maxUsed, alloc) == if fd >= 0 then OneMore(old(used), old(maxUsed), old(alloc))
              else old((used, maxUsed, alloc))
    {
      if fd >= 0 {
        AddWithFd(obj, fd, events, renewed, place, extra);
      } else {
        WithoutFdSound(Now(), obj, events);
        ptrs := ptrs[obj := NULL];
        nonFd := nonFd[obj := events];
        fds, wanted := fds[obj := -1], wanted[obj := events];
        assert Now() == WithoutFd(old(Now()), obj, events);
      }
    }

    /** poll.register */
    method Register(obj: Obj, fd: int, events: nat, renewed: nat, place: nat, extra: seq<PollFd>)
      requires Valid() && Environment(renewed, place, extra)
      modifies this
      ensures wanted == old(wanted)[obj := events]
      ensures fds == if obj in old(fds) then old(fds) else old(fds)[obj := if fd >= 0 then fd else -1]
      ensures Valid() <==> obj in old(fds) || !(fd >= 0 && old(Moves(renewed)) && !AllHaveFd(old(Now())))
      ensures !Valid() ==> LedAstray(old(Now()), Now())
      ensures (used, maxUsed, alloc) ==
                if obj !in old(fds) && fd >= 0 then OneMore(old(used), old(maxUsed), old(alloc))
                else old((used, maxUsed, alloc))
    {
      if obj in ptrs {
        SetEvents(obj, events);
      } else {
        AddNew(obj, fd, events, renewed, place, extra);
      }
    }

    /** poll.modify */
    method Modify(obj: Obj, events: nat) returns (r: Result)
      requires Valid()
      modifies `pollfds, `nonFd, `wanted
      ensures Valid() && (r == NoEntry <==> obj !in fds)
      ensures wanted == if r == Done then old(wanted)[obj := events] else old(wanted)
    {
      if obj !in ptrs {
        return NoEntry;
      }
      SetEvents(obj, events);
      r := Done;
    }

    /** The slot of an object that goes. */
    method Release(obj: Obj)
      requires Valid() && obj in ptrs && ptrs[obj] != NULL
      modifies `pollfds, `used, `owner
      ensures alloc == |pollfds|
      ensures base <= ptrs[obj] < base + |old(pollfds)| && old(used) > 0
      ensures Now() == Vacated(old(Now()), obj)
    {
      RemovedSound(Now(), obj);
      ghost var i: nat := ptrs[obj] - base;
      pollfds := pollfds[ptrs[obj] - base := pollfds[ptrs[obj] - base].(fd := -1)];
      used := used - 1;
      owner := owner - {i};
    }

    /** poll.unregister: an object that is not there is not an error. */
    method Unregister(obj: Obj)
      requires Valid()
      modifies this
      ensures Valid() && fds == old(fds) - {obj} && wanted == old(wanted) - {obj}
    {
      if obj in ptrs {
        RemovedSound(Now(), obj);
        Remove(obj);
      } else {
        assert fds - {obj} == fds && wanted - {obj} == wanted;
      }
    }

    /** poll_set_remove of an object that is there. */
    method Remove(obj: Obj)
      requires Valid() && obj in ptrs
      modifies this
      ensures alloc == |pollfds| && Now() == Removed(old(Now()), obj)
    {
      if ptrs[obj] != NULL {
        Release(obj);
      }
      ptrs := ptrs - {obj};
      fds, wanted := fds - {obj}, wanted - {obj};
    }
  }

  lemma UsedFits(v: View)
    requires Sound(v)
    ensures v.used <= v.maxUsed
  {
    assert |v.owner| == |v.owner.Keys|;
    OwnersFit(v.owner.Keys, v.maxUsed);
  }

  lemma {:induction false} OwnersFit(s: set<nat>, n: nat)
    requires forall i | i in s :: i < n
    ensures |s| <= n
  {
    if n > 0 {
      OwnersFit(s - {n - 1}, n - 1);
    } else {
      assert s == {};
    }
  }

  lemma AddedAstray(v: View, o: Obj, i: nat, fd: int, e: nat, place: nat, extra: seq<PollFd>)
    requires Sound(v) && o !in v.fds && i < |v.pollfds| + |extra| && place != v.base && !AllHaveFd(v)
    ensures LedAstray(v, WithFd(Moved(v, place, extra), o, i, fd, e))
  {
    var w := WithFd(Moved(v, place, extra), o, i, fd, e);
    forall p | p in v.fds && !HasFd(v, p) ensures Astray(w, p) && w.ptrs[p] == w.base - v.base {
      MovedAstray(v, place, extra, p);
    }
  }

  /** What is left of soundness once the new object is in. */
  lemma AddedSound(v: View, g: View, o: Obj, i: nat, fd: int, e: nat, renewed: nat, place: nat, extra: seq<PollFd>)
    requires Sound(v) && o !in v.fds && fd >= 0 && Free(g, i)
    requires renewed == NULL || renewed == v.base || v.base == NULL
    requires place != NULL && place != v.base
    requires g == Grown(v, renewed, place, extra)
    ensures Sound(WithFd(g, o, i, fd, e))
            <==> (v.used == v.maxUsed && v.maxUsed >= |v.pollfds| && renewed == NULL ==> AllHaveFd(v))
    ensures !Sound(WithFd(g, o, i, fd, e)) ==> LedAstray(v, WithFd(g, o, i, fd, e))
  {
    UsedFits(v);
    if v.used == v.maxUsed && v.maxUsed >= |v.pollfds| && renewed == NULL && !AllHaveFd(v) {
      AddedAstray(v, o, i, fd, e, place, extra);
      var p :| p in v.fds && !HasFd(v, p);
      AstrayUnsound(WithFd(g, o, i, fd, e), p);
    } else {
      if g != v { GrownSound(v, g, extra); }
      WithFdSound(g, o, i, fd, e);
    }
  }

  /** The state once the new object has its slot. */
  lemma AddedOutcome(v: View, g: View, w: View, o: Obj, i: nat, fd: int, e: nat, renewed: nat, place: nat,
                     extra: seq<PollFd>)
    requires Sound(v) && o !in v.fds && fd >= 0 && Free(g, i) && w == Filled(Reserved(g, i, fd), o, i, fd, e)
    requires renewed == NULL || renewed == v.base || v.base == NULL
    requires place != NULL && place != v.base
    requires g == Grown(v, renewed, place, extra)
    ensures Sound(w) <==> !(v.used == v.maxUsed && v.maxUsed >= |v.pollfds| && renewed == NULL && !AllHaveFd(v))
    ensures !Sound(w) ==> LedAstray(v, w)
    ensures w.fds == v.fds[o := fd] && w.wanted == v.wanted[o := e]
  {
    FilledIs(g, o, i, fd, e);
    AddedSound(v, g, o, i, fd, e, renewed, place, extra);
  }

  // ---------- whole runs ----------

  /** What a program does with a poll object whose objects all have descriptors, and what the
      environment does when the array has to grow. */
  datatype Call =
    | Add(obj: Obj, fd: nat, events: nat, inPlace: bool, place: nat, extra: seq<PollFd>)
    | Change(obj: Obj, events: nat)
    | Drop(obj: Obj)

  datatype Watch = Watch(fds: map<Obj, int>, wanted: map<Obj, nat>)

  function Watched(calls: seq<Call>): Watch {
    if calls == [] then Watch(map[], map[])
    else
      var w := Watched(calls[..|calls| - 1]);
      match calls[|calls| - 1]
      case Add(obj, fd, events, _, _, _)
          => Watch(if obj in w.fds then w.fds else w.fds[obj := fd], w.wanted[obj := events])
      case Change(obj, events) => if obj in w.fds then w.(wanted := w.wanted[obj := events]) else w
      case Drop(obj) => Watch(w.fds - {obj}, w.wanted - {obj})
  }

  lemma OneCallMore(calls: seq<Call>, n: nat)
    requires n < |calls|
    ensures calls[..n + 1][..n] == calls[..n] && calls[..n + 1][n] == calls[n]
  {
  }

  /** One registration, wherever the environment puts the array. */
  method AddOne(p: Poller, obj: Obj, fd: nat, events: nat, inPlace: bool, place: nat, extra: seq<PollFd>)
    requires p.Valid() && AllHaveFd(p.Now()) && |extra| == POLL_SET_ALLOC_INCREMENT
    modifies p
    ensures p.Valid() && AllHaveFd(p.Now()) && p.wanted == old(p.wanted)[obj := events]
    ensures p.fds == if obj in old(p.fds) then old(p.fds) else old(p.fds)[obj := fd]
  {
    var other := if place == NULL || place == p.base then p.base + 1 else place;
    var renewed := if !inPlace then NULL else if p.base == NULL then other else p.base;
    p.Register(obj, fd, events, renewed, other, extra);
  }

  /** However often the array grows or moves, every object keeps its own slot with its descriptor
      and its events. */
  method Serve(p: Poller, calls: seq<Call>)
    requires p.Valid() && p.fds == map[] && p.wanted == map[]
    requires forall c | c in calls && c.Add? :: |c.extra| == POLL_SET_ALLOC_INCREMENT
    modifies p
    ensures p.Valid() && AllHaveFd(p.Now())
    ensures p.fds == Watched(calls).fds && p.wanted == Watched(calls).wanted
  {
    for n := 0 to |calls|
      invariant p.Valid() && AllHaveFd(p.Now())
      invariant p.fds == Watched(calls[..n]).fds && p.wanted == Watched(calls[..n]).wanted
    {
      OneCallMore(calls, n);
      match calls[n]
      case Add(obj, fd, events, inPlace, place, extra) =>
        AddOne(p, obj, fd, events, inPlace, place, extra);
      case Change(obj, events) =>
        var r := p.Modify(obj, events);
      case Drop(obj) =>
        p.Unregister(obj);
    }
    assert calls[..|calls|] == calls;
  }

  /** One object without a descriptor and five with one: when the array moves for the fifth, the
      first object is lost. */
  method LoseTrack(extra: seq<PollFd>) returns (p: Poller)
    requires |extra| == POLL_SET_ALLOC_INCREMENT
    ensures fresh(p) && !p.Valid() && Astray(p.Now(), 0)
  {
    p := new Poller();
    p.Register(0, -1, 1, 1, 1, extra);
    for i := 1 to 5
      invariant p.Valid() && fresh(p) && 0 in p.fds && !HasFd(p.Now(), 0)
      invariant forall k | k in p.fds :: k < i
      invariant (p.used, p.maxUsed, p.alloc) == (i - 1, i - 1, if i == 1 then 0 else 4)
    {
      p.Register(i, i, 1, if p.base == NULL then 1 else p.base, p.base + 1, extra);
    }
    p.Register(5, 5, 1, NULL, p.base + 1, extra);
  }
}
