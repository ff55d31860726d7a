/** The rings under interleaving: one producer and one consumer whose single loads and stores of
    `head`, `tail` and the buffer may alternate in any order. */
module RingSteps {
  import opened ByteSeqs
  import opened Rings

  /** Where the producer is inside its push of `data`. */
  datatype Producer =
    | Outside
    | NextKnown(data: byte, next: nat)   // `tail` is read
    | RoomSeen(data: byte, next: nat)    // `head` is read, and was not `next`
    | Stored(data: byte, next: nat)      // the byte is in the buffer

  /** Where the consumer is inside its pop. */
  datatype Consumer =
    | Away
    | HeadKnown(at: nat)                 // `head` is read
    | DataSeen(at: nat)                  // `tail` is read, and was not `at`
    | Loaded(at: nat, data: byte)        // the byte is out of the buffer

  /** The memory both sides share, where each side is, and what they have done. */
  datatype Machine = Machine(buf: seq<byte>, head: nat, tail: nat, p: Producer, c: Consumer,
                             pushed: seq<byte>, popped: seq<byte>)

  /** One load or store. `Push` starts with the byte the producer has next, and is ignored in
      the middle of a push, which knows its byte. */
  datatype Step = Push(data: byte) | Pop

  /** What a step reports to its side: nothing yet, or that the call returned. */
  datatype Report = Busy | Done | Full | Empty

  predicate InBounds(m: Machine) {
    m.head < |m.buf| && m.tail < |m.buf|
  }

  /** What each side has read are places in the buffer. */
  predicate InShape(m: Machine) {
    InBounds(m) && (m.p.Outside? || m.p.next < |m.buf|) && (m.c.Away? || m.c.at < |m.buf|)
  }

  /** ringbuf_push, one access at a time */
  function Produce(m: Machine, data: byte): (Machine, Report)
    requires InBounds(m)
  {
    match m.p
    case Outside => (m.(p := NextKnown(data, Next(m.tail, |m.buf|))), Busy)
    case NextKnown(d, next) => if next != m.head then (m.(p := RoomSeen(d, next)), Busy) else (m.(p := Outside), Full)
    case RoomSeen(d, next) => (m.(buf := m.buf[m.tail := d], p := Stored(d, next)), Busy)
    case Stored(d, next) => (m.(tail := next, p := Outside, pushed := m.pushed + [d]), Done)
  }

  /** ringbuf_pop, one access at a time */
  function Consume(m: Machine): (Machine, Report)
    requires InBounds(m)
    requires m.c.HeadKnown? || m.c.DataSeen? || m.c.Loaded? ==> m.c.at < |m.buf|
  {
    match m.c
    case Away => (m.(c := HeadKnown(m.head)), Busy)
    case HeadKnown(at) => if at == m.tail then (m.(c := Away), Empty) else (m.(c := DataSeen(at)), Busy)
    case DataSeen(at) => (m.(c := Loaded(at, m.buf[at])), Busy)
    case Loaded(at, d) => (m.(head := Next(at, |m.buf|), c := Away, popped := m.popped + [d]), Done)
  }

  /** The ring holds what was pushed and not yet popped, and each side's own knowledge still holds
      although the other side may have moved. */
  ghost predicate Safe(m: Machine) {
    InBounds(m) && Accounted(m) && ProducerKnows(m) && ConsumerKnows(m)
  }

  ghost predicate Accounted(m: Machine)
    requires InBounds(m)
  {
    m.pushed == m.popped + Held(m.buf, m.head, m.tail)
  }

  predicate ProducerKnows(m: Machine)
    requires InBounds(m)
  {
    match m.p
    case Outside => true
    case NextKnown(d, next) => next == Next(m.tail, |m.buf|)
    case RoomSeen(d, next) => next == Next(m.tail, |m.buf|) && next != m.head
    case Stored(d, next) => next == Next(m.tail, |m.buf|) && next != m.head && m.buf[m.tail] == d
  }

  predicate ConsumerKnows(m: Machine)
    requires InBounds(m)
  {
    match m.c
    case Away => true
    case HeadKnown(at) => at == m.head
    case DataSeen(at) => at == m.head && at != m.tail
    case Loaded(at, d) => at == m.head && at != m.tail && m.buf[at] == d
  }

  lemma SafeInShape(m: Machine)
    requires Safe(m)
    ensures InShape(m)
  {
    NextIs(m.tail, |m.buf|);
  }

  function Taken(m: Machine, s: Step): (Machine, Report)
    requires InShape(m)
  {
    if s.Push? then Produce(m, s.data) else Consume(m)
  }

  function Init(size: nat): Machine {
    Machine(seq(size, i => 0), 0, 0, Outside, Away, [], [])
  }

  /** The store of the byte, which the consumer does not see. */
  lemma StoreSafe(m: Machine)
    requires Safe(m) && m.p.RoomSeen?
    ensures Safe(Produce(m, m.p.data).0)
  {
    HeldPush(m.buf, m.head, m.tail, m.p.data);
  }

  /** The store of `tail`, which hands the byte over. */
  lemma PublishSafe(m: Machine)
    requires Safe(m) && m.p.Stored?
    ensures Safe(Produce(m, m.p.data).0)
  {
    var d, m' := m.p.data, Produce(m, m.p.data).0;
    NextIs(m.tail, |m.buf|);
    assert m.buf[m.tail := d] == m.buf;
    HeldPush(m.buf, m.head, m.tail, d);
    assert m'.pushed == m.popped + (Held(m.buf, m.head, m.tail) + [d]);
    HeldFull(m'.buf, m'.head, m'.tail);
  }

  lemma ProduceSafe(m: Machine, data: byte)
    requires Safe(m)
    ensures Safe(Produce(m, data).0)
  {
    if m.p.RoomSeen? {
      StoreSafe(m);
    } else if m.p.Stored? {
      PublishSafe(m);
    }
  }

  /** The store of `head`, which gives the slot back. */
  lemma ReleaseSafe(m: Machine)
    requires Safe(m) && m.c.Loaded?
    ensures Safe(Consume(m).0) && m.popped < m.pushed && m.c.data == m.pushed[|m.popped|]
  {
    HeldPop(m.buf, m.head, m.tail);
    NextIs(m.head, |m.buf|);
    var m' := Consume(m).0;
    assert m.pushed == m'.popped + Held(m.buf, m'.head, m.tail);
    ReleaseKeepsRoom(m);
  }

  /** The slot that the producer found free stays free while the consumer moves on. */
  lemma ReleaseKeepsRoom(m: Machine)
    requires Safe(m) && m.c.Loaded?
    ensures ProducerKnows(Consume(m).0)
  {
    NextIs(m.head, |m.buf|);
    NextIs(m.tail, |m.buf|);
  }

  lemma ConsumeSafe(m: Machine)
    requires Safe(m)
    ensures Safe(Consume(m).0)
  {
    if m.c.Loaded? {
      ReleaseSafe(m);
    }
  }

  /** Every single step is, seen from outside, nothing at all or one whole operation of a queue
      of at most `size - 1` bytes, and a call that fails does so while the queue is full or empty. */
  lemma StepRefinesQueue(m: Machine, s: Step)
    requires Safe(m)
    ensures InShape(m)
    ensures var (m', r) := Taken(m, s); var held := |m.pushed| - |m.popped|;
            && Safe(m') && |m'.buf| == |m.buf|
            && (r == Busy ==> m'.pushed == m.pushed && m'.popped == m.popped)
            && (r == Full ==> s.Push? && held == |m.buf| - 1 && m'.pushed == m.pushed && m'.popped == m.popped)
            && (r == Empty ==> s.Pop? && held == 0 && m'.pushed == m.pushed && m'.popped == m.popped)
            && (r == Done && s.Push? ==>
                  held < |m.buf| - 1 && m'.popped == m.popped && m'.pushed == m.pushed + [m.p.data])
            && (r == Done && s.Pop? ==>
                  held > 0 && m'.pushed == m.pushed && m'.popped == m.popped + [m.pushed[|m.popped|]])
  {
    SafeInShape(m);
    HeldFull(m.buf, m.head, m.tail);
    if s.Push? {
      ProduceSafe(m, s.data);
    } else {
      ConsumeSafe(m);
      if m.c.Loaded? { ReleaseSafe(m); }
    }
  }

  /** A call returns after at most four steps of its own side, whatever the other side does. */
  lemma CallsEnd(m: Machine, s: Step)
    requires InShape(m)
    ensures var (m', r) := Taken(m, s);
            && (s.Push? ==> m'.c == m.c && if r == Busy then Ahead(m'.p) < Ahead(m.p) else m'.p == Outside)
            && (s.Pop? ==> m'.p == m.p && if r == Busy then AheadPop(m'.c) < AheadPop(m.c) else m'.c == Away)
  {
  }

  function Ahead(p: Producer): nat {
    match p case Outside => 4 case NextKnown(_, _) => 3 case RoomSeen(_, _) => 2 case Stored(_, _) => 1
  }

  function AheadPop(c: Consumer): nat {
    match c case Away => 4 case HeadKnown(_) => 3 case DataSeen(_) => 2 case Loaded(_, _) => 1
  }

  function Run(size: nat, steps: seq<Step>): (m: Machine)
    requires size > 0
    ensures InShape(m) && |m.buf| == size
  {
    if steps == [] then Init(size)
    else
      var m, s := Run(size, steps[..|steps| - 1]), steps[|steps| - 1];
      InShapeStays(m, s);
      Taken(m, s).0
  }

  lemma InShapeStays(m: Machine, s: Step)
    requires InShape(m)
    ensures InShape(Taken(m, s).0) && |Taken(m, s).0.buf| == |m.buf|
  {
    NextIs(m.tail, |m.buf|);
    if m.c.Loaded? { NextIs(m.c.at, |m.buf|); }
  }

  /** In every interleaving the bytes popped are the first of the bytes pushed, in order, and at
      most `size - 1` bytes are in between. */
  lemma {:induction false} InOrder(size: nat, steps: seq<Step>)
    requires size > 0
    ensures var m := Run(size, steps);
            Safe(m) && m.popped <= m.pushed && |m.pushed| - |m.popped| < size
  {
    var m := Run(size, steps);
    if steps == [] {
      assert Held(m.buf, 0, 0) == [];
    } else {
      InOrder(size, steps[..|steps| - 1]);
      StepRefinesQueue(Run(size, steps[..|steps| - 1]), steps[|steps| - 1]);
    }
    assert m.pushed == m.popped + Held(m.buf, m.head, m.tail);
  }

  // ---------- space that was measured ----------

  function After(m: Machine, steps: seq<Step>): (m': Machine)
    requires InShape(m)
    ensures InShape(m') && |m'.buf| == |m.buf|
  {
    if steps == [] then m
    else
      var before, s := After(m, steps[..|steps| - 1]), steps[|steps| - 1];
      InShapeStays(before, s);
      Taken(before, s).0
  }

  /** How many bytes fit now. */
  function Room(m: Machine): int { |m.buf| - 1 - (|m.pushed| - |m.popped|) }

  /** ringbuf_available_space gives the room there is when it reads `head`. */
  lemma SpaceIsRoom(m: Machine)
    requires Safe(m)
    ensures |m.buf| - (m.tail + |m.buf| - m.head) % |m.buf| - 1 == Room(m)
  {
    var n := |Held(m.buf, m.head, m.tail)|;
    assert n == Count(m.head, m.tail, |m.buf|);
    if m.tail >= m.head { OneRound(n, |m.buf|); }
  }

  lemma OneRound(n: nat, size: nat)
    requires n < size
    ensures (n + size) % size == n
  {
  }

  lemma {:induction false} MovesOnly(m: Machine, steps: seq<Step>)
    requires Safe(m)
    ensures InShape(m)
    ensures var m' := After(m, steps); Safe(m') && |m.popped| <= |m'.popped| && |m.pushed| <= |m'.pushed|
  {
    SafeInShape(m);
    if steps != [] {
      MovesOnly(m, steps[..|steps| - 1]);
      StepRefinesQueue(After(m, steps[..|steps| - 1]), steps[|steps| - 1]);
    }
  }

  /** The room that the producer has once seen is its own: however the consumer moves in between,
      none of so many pushes can fail. */
  lemma SpaceLasts(m: Machine, steps: seq<Step>, s: Step)
    requires Safe(m)
    ensures InShape(m)
    ensures var m' := After(m, steps);
            |m'.pushed| - |m.pushed| < Room(m) ==> Taken(m', s).1 != Full
  {
    MovesOnly(m, steps);
    StepRefinesQueue(After(m, steps), s);
  }

  /** The data that the consumer has once seen is its own, too. */
  lemma DataLasts(m: Machine, steps: seq<Step>)
    requires Safe(m)
    ensures InShape(m)
    ensures var m' := After(m, steps);
            |m'.popped| - |m.popped| < |m.pushed| - |m.popped| ==> Taken(m', Pop).1 != Empty
  {
    MovesOnly(m, steps);
    StepRefinesQueue(After(m, steps), Pop);
  }

  // ---------- whole blocks ----------

  /** Whose access is next: the side that moves a block, or the other side. */
  datatype Turn = Ours | Theirs(data: byte)

  /** The producer copies a block, byte after byte, and takes no notice of what a push reports; how
      many pushes have returned. */
  function Copying(m: Machine, block: seq<byte>, turns: seq<Turn>): (r: (Machine, nat))
    requires InShape(m)
    ensures InShape(r.0) && |r.0.buf| == |m.buf|
    decreases turns
  {
    if turns == [] then (m, 0)
    else
      var (now, i) := Copying(m, block, turns[..|turns| - 1]);
      InShapeStays(now, Pop);
      if turns[|turns| - 1].Theirs? then (Consume(now).0, i)
      else if i >= |block| then (now, i)
      else
        InShapeStays(now, Push(block[i]));
        var (next, r) := Produce(now, block[i]);
        (next, if r == Busy then i else i + 1)
  }

  /** The byte that a push in progress has taken up. */
  predicate Pushing(m: Machine, block: seq<byte>, i: nat) { m.p.Outside? || (i < |block| && m.p.data == block[i]) }

  lemma BlockMore(block: seq<byte>, i: nat, before: seq<byte>)
    requires i < |block|
    ensures before + block[..i] + [block[i]] == before + block[..i + 1]
  {
  }

  /** A block for which there was room goes in whole and in order, however the consumer moves in
      between. */
  lemma {:induction false} BlockGoesIn(m: Machine, block: seq<byte>, turns: seq<Turn>)
    requires Safe(m) && m.p.Outside? && |block| <= Room(m)
    ensures InShape(m)
    ensures var (m', i) := Copying(m, block, turns);
            && Safe(m') && i <= |block| && m'.pushed == m.pushed + block[..i] && Pushing(m', block, i)
            && |m.popped| <= |m'.popped|
    decreases turns
  {
    SafeInShape(m);
    if turns != [] {
      BlockGoesIn(m, block, turns[..|turns| - 1]);
      var (now, i) := Copying(m, block, turns[..|turns| - 1]);
      if turns[|turns| - 1].Theirs? {
        StepRefinesQueue(now, Pop);
      } else if i < |block| {
        StepRefinesQueue(now, Push(block[i]));
        BlockMore(block, i, m.pushed);
      }
    }
  }

  /** The consumer takes out `n` bytes; how many pops have returned. */
  function Taking(m: Machine, n: nat, turns: seq<Turn>): (r: (Machine, nat))
    requires InShape(m)
    ensures InShape(r.0) && |r.0.buf| == |m.buf|
    decreases turns
  {
    if turns == [] then (m, 0)
    else
      var (now, i) := Taking(m, n, turns[..|turns| - 1]);
      InShapeStays(now, Pop);
      if turns[|turns| - 1].Theirs? then
        InShapeStays(now, Push(turns[|turns| - 1].data));
        (Produce(now, turns[|turns| - 1].data).0, i)
      else if i >= n then (now, i)
      else
        var (next, r) := Consume(now);
        (next, if r == Busy then i else i + 1)
  }

  /** `i` of the `n` bytes are out, and those behind them are there. */
  ghost predicate Took(m: Machine, n: nat, now: Machine, i: nat) {
    && Safe(now) && i <= n && |m.popped| + i <= |m.pushed| && m.pushed <= now.pushed
    && now.popped == m.pushed[..|m.popped| + i]
  }

  lemma TookWhilePushing(m: Machine, n: nat, now: Machine, i: nat, d: byte)
    requires Took(m, n, now, i)
    ensures InShape(now) && Took(m, n, Produce(now, d).0, i) && Produce(now, d).0.c == now.c
  {
    StepRefinesQueue(now, Push(d));
  }

  lemma TookOneMore(m: Machine, n: nat, now: Machine, i: nat)
    requires Took(m, n, now, i) && i < n <= |m.pushed| - |m.popped|
    ensures InShape(now)
    ensures var (next, r) := Consume(now);
            Took(m, n, next, if r == Busy then i else i + 1) && (r != Busy ==> next.c.Away?)
  {
    StepRefinesQueue(now, Pop);
    PrefixMore(m.pushed, now.pushed, |m.popped| + i);
  }

  /** Bytes that were there come out, all of them and in order, however the producer moves in between. */
  lemma {:induction false} BlockComesOut(m: Machine, n: nat, turns: seq<Turn>)
    requires Safe(m) && m.c.Away? && n <= |m.pushed| - |m.popped|
    ensures InShape(m)
    ensures var (m', i) := Taking(m, n, turns); Took(m, n, m', i) && (i == n ==> m'.c.Away?)
    decreases turns
  {
    SafeInShape(m);
    if turns == [] {
      assert m.pushed == m.popped + Held(m.buf, m.head, m.tail);
    } else {
      BlockComesOut(m, n, turns[..|turns| - 1]);
      var (now, i) := Taking(m, n, turns[..|turns| - 1]);
      if turns[|turns| - 1].Theirs? {
        TookWhilePushing(m, n, now, i, turns[|turns| - 1].data);
      } else if i < n {
        TookOneMore(m, n, now, i);
      }
    }
  }

  lemma PrefixMore(a: seq<byte>, b: seq<byte>, k: nat)
    requires a <= b && k < |a|
    ensures a[..k] + [b[k]] == a[..k + 1]
  {
  }

  // ---------- the keyboard ----------

  /** kbd_buffer_put, in the handler: no step of the reader comes between its steps. */
  function Put(m: Machine, d: byte): Machine
    requires Safe(m) && m.p == Outside
  {
    var (seen, r) := Produce(Produce(m, d).0, d);
    if r == Full then seen else Produce(Produce(seen, d).0, d).0
  }

  lemma PutIs(m: Machine, d: byte)
    requires Safe(m) && m.p == Outside
    ensures var m' := Put(m, d);
            && Safe(m') && m'.p == Outside && m'.c == m.c && m'.popped == m.popped && |m'.buf| == |m.buf|
            && m'.pushed == (if Room(m) > 0 then m.pushed + [d] else m.pushed) && Room(m) >= 0
  {
    var m1 := Produce(m, d).0;
    StepRefinesQueue(m, Push(d));
    StepRefinesQueue(m1, Push(d));
    HeldFull(m.buf, m.head, m.tail);
    var (m2, r) := Produce(m1, d);
    if r != Full {
      StepRefinesQueue(m2, Push(d));
      StepRefinesQueue(Produce(m2, d).0, Push(d));
    }
  }

  /** kbd_buffer_puts */
  ghost function Puts(m: Machine, s: seq<byte>): Machine
    requires Safe(m) && m.p == Outside
    decreases |s|
  {
    if s == [] then m else
      PutIs(m, s[0]);
      Puts(Put(m, s[0]), s[1..])
  }

  /** What does not fit is dropped from the end, byte by byte. */
  lemma {:induction false} PutsIs(m: Machine, s: seq<byte>)
    requires Safe(m) && m.p == Outside
    ensures var m' := Puts(m, s);
            && Safe(m') && m'.p == Outside && m'.c == m.c && m'.popped == m.popped && |m'.buf| == |m.buf|
            && 0 <= Room(m) && m'.pushed == m.pushed + s[..Least(|s|, Room(m))]
    decreases |s|
  {
    if s == [] {
      PutIs(m, 0);
    } else {
      var m1 := Put(m, s[0]);
      PutIs(m, s[0]);
      PutsIs(m1, s[1..]);
      if Room(m) > 0 {
        FirstFew(m.pushed, s, Least(|s|, Room(m)));
      }
    }
  }

  lemma FirstFew(a: seq<byte>, s: seq<byte>, n: nat)
    requires 0 < n <= |s|
    ensures a + s[..n] == a + [s[0]] + s[1..][..n - 1]
  {
  }

  /** The handler puts the bytes of one key, or keyboard_getc does its next access. */
  datatype KeyEvent = Key(bytes: seq<byte>) | Getc

  const KBD_BUFFER_SIZE := 256

  ghost function Typed(es: seq<KeyEvent>): (m: Machine)
    ensures Safe(m) && m.p == Outside && |m.buf| == KBD_BUFFER_SIZE
  {
    if es == [] then Init(KBD_BUFFER_SIZE)
    else
      var m, e := Typed(es[..|es| - 1]), es[|es| - 1];
      if e.Key? then PutsIs(m, e.bytes); Puts(m, e.bytes)
      else StepRefinesQueue(m, Pop); Consume(m).0
  }

  /** What the handler accepted: each key's bytes as far as they fitted at that moment. */
  ghost function Accepted(es: seq<KeyEvent>): seq<byte> {
    if es == [] then []
    else
      var m, e := Typed(es[..|es| - 1]), es[|es| - 1];
      PutIs(m, 0);
      Accepted(es[..|es| - 1]) + if e.Key? then e.bytes[..Least(|e.bytes|, Room(m))] else []
  }

  /** An interrupt between any two accesses of keyboard_getc never disturbs it: the reader gets
      the accepted bytes in order, and at most 255 of them wait. */
  lemma {:induction false} KeysInOrder(es: seq<KeyEvent>)
    ensures var m := Typed(es);
            m.pushed == Accepted(es) && m.popped <= m.pushed && |m.pushed| - |m.popped| <= 255
  {
    var m := Typed(es);
    assert m.pushed == m.popped + Held(m.buf, m.head, m.tail);
    if es != [] {
      var before, e := Typed(es[..|es| - 1]), es[|es| - 1];
      KeysInOrder(es[..|es| - 1]);
      if e.Key? {
        PutsIs(before, e.bytes);
      } else {
        StepRefinesQueue(before, Pop);
      }
    }
  }

  /** ESC [ A, which the handler puts for the Up key */
  const KEY_UP: seq<byte> := [0x1b, 0x5b, 0x41]

  /** A key of several bytes is accepted whole just when there is room for all of them; with room
      for one, the reader of an Up key is left with a bare escape. */
  lemma KeyWhole(es: seq<KeyEvent>, s: seq<byte>)
    ensures Accepted(es + [Key(s)]) == Accepted(es) + s <==> |s| <= Room(Typed(es))
    ensures Room(Typed(es)) == 1 ==> Accepted(es + [Key(KEY_UP)]) == Accepted(es) + [0x1b]
  {
    assert (es + [Key(s)])[..|es|] == es && (es + [Key(KEY_UP)])[..|es|] == es;
    PutIs(Typed(es), 0);
    assert |s[..Least(|s|, Room(Typed(es)))]| == Least(|s|, Room(Typed(es)));
  }

  /** `n` keys of one byte. */
  function Letters(n: nat): seq<KeyEvent> { seq(n, i => Key([0x61])) }

  lemma {:induction false} LettersFill(n: nat)
    requires n < KBD_BUFFER_SIZE
    ensures Room(Typed(Letters(n))) == KBD_BUFFER_SIZE - 1 - n
  {
    if n > 0 {
      LettersFill(n - 1);
      assert Letters(n) == Letters(n - 1) + [Key([0x61])];
      KeyTyped(Letters(n - 1), 0x61);
    }
  }

  lemma KeyTyped(es: seq<KeyEvent>, d: byte)
    ensures var m, m' := Typed(es), Typed(es + [Key([d])]);
            Room(m) > 0 ==> Room(m') == Room(m) - 1
  {
    assert (es + [Key([d])])[..|es|] == es;
    PutsIs(Typed(es), [d]);
    assert |[d][..1]| == 1;
  }

  /** An Up key after 254 letters that nobody has read. */
  lemma BareEscape()
    ensures Accepted(Letters(254) + [Key(KEY_UP)]) == Accepted(Letters(254)) + [0x1b]
  {
    LettersFill(254);
    KeyWhole(Letters(254), KEY_UP);
  }
}
