/** `select` merges three lists of objects into one poll set, with the events of each list. */
module SelectMasks {

  datatype Event = Rd | Wr | Err | Hup | Nval

  /** A mask of events, as the set of its bits; `|=` is `+`. */
  type Events = set<Event>

  /** The identity of an object. */
  datatype Obj = Obj(id: int)

  type Masks = map<Obj, Events>

  function Mask(m: Masks, o: Obj): Events { if o in m then m[o] else {} }

  // ---------- what is meant, and what is done ----------

  /** Every object of the list is to be polled for `e` besides what it is polled for already. */
  function Meant(m: Masks, list: seq<Obj>, e: Events): Masks
    decreases list
  {
    if list == [] then m else Meant(m[list[0] := Mask(m, list[0]) + e], list[1..], e)
  }

  /** poll_set_add_obj with or_events: the events of an object that is there already are added to
      the parameter, which then goes on to the next object. */
  function Added(m: Masks, list: seq<Obj>, c: Events): Masks
    decreases list
  {
    if list == [] then m
    else
      var c' := c + Mask(m, list[0]);
      Added(m[list[0] := c'], list[1..], c')
  }

  method AddObjs(m: Masks, list: seq<Obj>, events: Events) returns (r: Masks)
    ensures r == Added(m, list, events)
  {
    r := m;
    var e := events;
    assert list[0..] == list;
    for i := 0 to |list|
      invariant Added(r, list[i..], e) == Added(m, list, events)
    {
      assert list[i..][1..] == list[i + 1..];
      assert e + {} == e;
      if list[i] !in r {
        r := r[list[i] := e];
      } else {
        e := e + r[list[i]];
        r := r[list[i] := e];
      }
    }
  }

  // ---------- when they agree ----------

  /** Masks only grow. */
  lemma {:induction false} AddedGrows(m: Masks, list: seq<Obj>, c: Events, o: Obj)
    ensures Mask(m, o) <= Mask(Added(m, list, c), o)
    decreases list
  {
    if list != [] {
      var c' := c + Mask(m, list[0]);
      AddedGrows(m[list[0] := c'], list[1..], c', o);
    }
  }

  /** What is meant for one object. */
  lemma {:induction false} MeantMask(m: Masks, list: seq<Obj>, e: Events, o: Obj)
    ensures Mask(Meant(m, list, e), o) == if o in list then Mask(m, o) + e else Mask(m, o)
    decreases list
  {
    if list != [] {
      MeantMask(m[list[0] := Mask(m, list[0]) + e], list[1..], e, o);
    }
  }

  /** No object has events that a later one in the list does not get anyway. */
  ghost predicate Harmless(m: Masks, list: seq<Obj>, e: Events) {
    forall i, j | 0 <= i < j < |list| :: Mask(m, list[i]) <= Mask(m, list[j]) + e
  }

  /** Events carried along from before the list. */
  ghost predicate Covered(m: Masks, list: seq<Obj>, c: Events, e: Events) {
    forall j | 0 <= j < |list| :: c <= Mask(m, list[j]) + e
  }

  lemma HarmlessStep(m: Masks, list: seq<Obj>, e: Events)
    requires list != []
    ensures Harmless(m, list, e) <==> Covered(m, list[1..], Mask(m, list[0]), e) && Harmless(m, list[1..], e)
  {
    var rest := list[1..];
    if Covered(m, rest, Mask(m, list[0]), e) && Harmless(m, rest, e) {
      forall i, j | 0 <= i < j < |list| ensures Mask(m, list[i]) <= Mask(m, list[j]) + e {
        assert list[j] == rest[j - 1];
        if i > 0 { assert list[i] == rest[i - 1]; }
      }
    }
    if Harmless(m, list, e) {
      forall j | 0 <= j < |rest| ensures Mask(m, list[0]) <= Mask(m, rest[j]) + e {
        assert rest[j] == list[j + 1];
      }
      forall i, j | 0 <= i < j < |rest| ensures Mask(m, rest[i]) <= Mask(m, rest[j]) + e {
        assert rest[i] == list[i + 1] && rest[j] == list[j + 1];
      }
    }
  }

  /** Adding the events of the list to an object changes nothing in these conditions. */
  lemma ConditionsKeep(m: Masks, o: Obj, list: seq<Obj>, c: Events, e: Events)
    ensures var m' := m[o := Mask(m, o) + e];
            && (Covered(m', list, c, e) <==> Covered(m, list, c, e))
            && (Harmless(m', list, e) <==> Harmless(m, list, e))
  {
    var m' := m[o := Mask(m, o) + e];
    assert forall p :: Mask(m', p) + e == Mask(m, p) + e;
    assert forall p, q :: Mask(m', p) <= Mask(m, q) + e <==> Mask(m, p) <= Mask(m, q) + e;
  }

  /** `Added` does what is meant just when no events carried along reach an object that is not to
      have them. */
  lemma {:induction false} AgreesWhen(m: Masks, list: seq<Obj>, c: Events, e: Events)
    requires e <= c
    ensures Added(m, list, c) == Meant(m, list, e) <==> Covered(m, list, c, e) && Harmless(m, list, e)
    decreases list
  {
    if list != [] {
      var o, rest := list[0], list[1..];
      var c', m' := c + Mask(m, o), m[o := Mask(m, o) + e];
      HarmlessStep(m, list, e);
      ConditionsKeep(m, o, rest, c', e);
      if c <= Mask(m, o) + e {
        assert c' == Mask(m, o) + e;
        AgreesWhen(m', rest, c', e);
        CoveredMore(m, list, c, c', e);
      } else {
        AddedGrows(m[o := c'], rest, c', o);
        MeantMask(m, list, e, o);
        assert !(Mask(Added(m, list, c), o) <= Mask(Meant(m, list, e), o));
      }
    }
  }

  lemma CoveredMore(m: Masks, list: seq<Obj>, c: Events, c': Events, e: Events)
    requires list != [] && c' == c + Mask(m, list[0]) && c <= Mask(m, list[0]) + e
    ensures Covered(m, list, c, e) && Covered(m, list[1..], Mask(m, list[0]), e) <==> Covered(m, list[1..], c', e)
  {
    var rest := list[1..];
    if Covered(m, list, c, e) && Covered(m, rest, Mask(m, list[0]), e) {
      forall j | 0 <= j < |rest| ensures c' <= Mask(m, rest[j]) + e {
        assert rest[j] == list[j + 1];
      }
    }
    if Covered(m, rest, c', e) {
      forall j | 0 <= j < |list| ensures c <= Mask(m, list[j]) + e {
        if j > 0 { assert list[j] == rest[j - 1]; }
      }
      forall j | 0 <= j < |rest| ensures Mask(m, list[0]) <= Mask(m, rest[j]) + e {
        assert c' <= Mask(m, rest[j]) + e;
      }
    }
  }

  /** The list of objects to be polled for `e` is added as meant if and only if every object's
      earlier events are also those of all later ones, up to `e`. */
  lemma AddObjsAsMeant(m: Masks, list: seq<Obj>, e: Events)
    ensures Added(m, list, e) == Meant(m, list, e) <==> Harmless(m, list, e)
  {
    AgreesWhen(m, list, e, e);
  }

  lemma AddedOne(m: Masks, o: Obj, rest: seq<Obj>, c: Events)
    ensures Added(m, [o] + rest, c) == Added(m[o := c + Mask(m, o)], rest, c + Mask(m, o))
  {
    assert ([o] + rest)[1..] == rest;
  }

  /** select([a], [a, b], []): `b`, asked about for writing only, is polled for reading as well. */
  lemma ReadingLeaks(a: Obj, b: Obj)
    requires a != b
    ensures Mask(Added(Added(map[], [a], {Rd}), [a, b], {Wr}), b) == {Rd, Wr}
  {
    var none: Masks := map[];
    var both: Events := {Wr} + {Rd};
    assert [a] == [a] + [] && [a, b] == [a] + [b] && [b] == [b] + [];
    AddedOne(none, a, [], {Rd});
    assert {Rd} + Mask(none, a) == {Rd};
    var m := none[a := {Rd}];
    assert Added(none, [a], {Rd}) == m;
    AddedOne(m, a, [b], {Wr});
    AddedOne(m[a := both], b, [], both);
    assert both + Mask(m[a := both], b) == both == {Rd, Wr};
  }

  // ---------- a whole call ----------

  const READING: Events := {Rd}
  const WRITING: Events := {Wr}
  const TROUBLE: Events := {Err, Hup}

  /** The poll set of `select(r, w, x)`, as it is built and as it is meant. */
  function Merged(r: seq<Obj>, w: seq<Obj>, x: seq<Obj>): Masks {
    Added(Added(Added(map[], r, READING), w, WRITING), x, TROUBLE)
  }

  function Asked(r: seq<Obj>, w: seq<Obj>, x: seq<Obj>): Masks {
    Meant(Meant(Meant(map[], r, READING), w, WRITING), x, TROUBLE)
  }

  /** The events that an object is in the lists for. */
  function EventsIn(r: seq<Obj>, w: seq<Obj>, x: seq<Obj>, o: Obj): Events {
    (if o in r then READING else {}) + (if o in w then WRITING else {}) + (if o in x then TROUBLE else {})
  }

  lemma AskedMask(r: seq<Obj>, w: seq<Obj>, x: seq<Obj>, o: Obj)
    ensures Mask(Asked(r, w, x), o) == EventsIn(r, w, x, o)
  {
    var none: Masks := map[];
    var first := Meant(none, r, READING);
    var second := Meant(first, w, WRITING);
    MeantMask(none, r, READING, o);
    MeantMask(first, w, WRITING, o);
    MeantMask(second, x, TROUBLE, o);
  }

  /** In the list of writers, and in the third list, no object of an earlier list comes before one
      that is not in it. */
  ghost predicate InOrder(r: seq<Obj>, w: seq<Obj>, x: seq<Obj>) {
    && (forall i, j | 0 <= i < j < |w| :: w[i] in r ==> w[j] in r)
    && (forall i, j | 0 <= i < j < |x| :: (x[i] in r ==> x[j] in r) && (x[i] in w ==> x[j] in w))
  }

  lemma FirstListMeant(r: seq<Obj>)
    ensures Added(map[], r, READING) == Meant(map[], r, READING)
  {
    var none: Masks := map[];
    assert Harmless(none, r, READING);
    AddObjsAsMeant(none, r, READING);
  }

  lemma SecondHarmless(r: seq<Obj>, w: seq<Obj>)
    ensures Harmless(Meant(map[], r, READING), w, WRITING)
            <==> forall i, j | 0 <= i < j < |w| :: w[i] in r ==> w[j] in r
  {
    var none: Masks := map[];
    var m := Meant(none, r, READING);
    forall o ensures Mask(m, o) == if o in r then READING else {} { MeantMask(none, r, READING, o); }
    forall i, j | 0 <= i < j < |w|
      ensures Mask(m, w[i]) <= Mask(m, w[j]) + WRITING <==> (w[i] in r ==> w[j] in r)
    {
      if w[i] in r && w[j] !in r { assert Rd in Mask(m, w[i]) && Rd !in Mask(m, w[j]) + WRITING; }
    }
  }

  lemma ThirdHarmless(r: seq<Obj>, w: seq<Obj>, x: seq<Obj>)
    ensures Harmless(Meant(Meant(map[], r, READING), w, WRITING), x, TROUBLE)
            <==> forall i, j | 0 <= i < j < |x| :: (x[i] in r ==> x[j] in r) && (x[i] in w ==> x[j] in w)
  {
    var none: Masks := map[];
    var first := Meant(none, r, READING);
    var m := Meant(first, w, WRITING);
    forall o ensures Rd in Mask(m, o) <==> o in r
             ensures Wr in Mask(m, o) <==> o in w
             ensures Mask(m, o) <= READING + WRITING
    {
      MeantMask(none, r, READING, o);
      MeantMask(first, w, WRITING, o);
    }
    forall i, j | 0 <= i < j < |x|
      ensures Mask(m, x[i]) <= Mask(m, x[j]) + TROUBLE <==> (x[i] in r ==> x[j] in r) && (x[i] in w ==> x[j] in w)
    {
      if Mask(m, x[i]) <= Mask(m, x[j]) + TROUBLE {
        assert Rd in Mask(m, x[i]) ==> Rd in Mask(m, x[j]) + TROUBLE;
        assert Wr in Mask(m, x[i]) ==> Wr in Mask(m, x[j]) + TROUBLE;
      }
    }
  }

  /** What has gone wrong with the writers is not put right by the third list. */
  lemma SecondListStays(r: seq<Obj>, w: seq<Obj>, x: seq<Obj>)
    requires Merged(r, w, x) == Asked(r, w, x)
    ensures Added(Meant(map[], r, READING), w, WRITING) == Meant(Meant(map[], r, READING), w, WRITING)
  {
    var none: Masks := map[];
    var first := Meant(none, r, READING);
    FirstListMeant(r);
    var done := Added(first, w, WRITING);
    AgreesWhen(first, w, WRITING, WRITING);
    if done != Meant(first, w, WRITING) {
      SecondHarmless(r, w);
      var i, j :| 0 <= i < j < |w| && w[i] in r && w[j] !in r;
      MeantMask(none, r, READING, w[i]);
      CarriedOn(first, w, WRITING, i, j, Rd);
      AddedGrows(done, x, TROUBLE, w[j]);
      AskedMask(r, w, x, w[j]);
    }
  }

  /** The events of an object reach all later ones. */
  lemma {:induction false} CarriedOn(m: Masks, list: seq<Obj>, c: Events, i: nat, j: nat, e: Event)
    requires i < j < |list| && e in Mask(m, list[i])
    ensures e in Mask(Added(m, list, c), list[j])
    decreases list
  {
    var c' := c + Mask(m, list[0]);
    var m' := m[list[0] := c'];
    if i == 0 {
      Carried(m', list[1..], c', j - 1, e);
    } else {
      CarriedOn(m', list[1..], c', i - 1, j - 1, e);
    }
  }

  lemma {:induction false} Carried(m: Masks, list: seq<Obj>, c: Events, j: nat, e: Event)
    requires j < |list| && e in c
    ensures e in Mask(Added(m, list, c), list[j])
    decreases list
  {
    var c' := c + Mask(m, list[0]);
    var m' := m[list[0] := c'];
    if j == 0 {
      AddedGrows(m', list[1..], c', list[0]);
    } else {
      Carried(m', list[1..], c', j - 1, e);
    }
  }

  /** The poll set of a whole call is as meant exactly when the lists are in this order. */
  lemma MergedAsMeant(r: seq<Obj>, w: seq<Obj>, x: seq<Obj>)
    ensures Merged(r, w, x) == Asked(r, w, x) <==> InOrder(r, w, x)
  {
    var none: Masks := map[];
    var first := Meant(none, r, READING);
    var second := Meant(first, w, WRITING);
    FirstListMeant(r);
    SecondHarmless(r, w);
    ThirdHarmless(r, w, x);
    AddObjsAsMeant(first, w, WRITING);
    AddObjsAsMeant(second, x, TROUBLE);
    if Merged(r, w, x) == Asked(r, w, x) { SecondListStays(r, w, x); }
  }

  // ---------- how streams answer ----------

  /** The events of the third list: all but reading and writing. `select` asks for the first two. */
  const ALARMS: Events := {Err, Hup, Nval}

  const ALL: Events := {Rd, Wr, Err, Hup, Nval}

  /** What an ioctl gives for MP_STREAM_POLL. */
  datatype Reply = Ready(events: Events) | Error(code: int)

  /** The streams at one poll: the object and the events asked for give the reply. */
  type Ioctl = (Obj, Events) -> Reply

  /** What is the case with the streams. */
  type Streams = Obj -> Events

  /** A reply to `asked`: no event that is the case and was asked for is missing, none is made up, and
      those that were not asked for are volunteered ones. An invalid stream always says so. */
  ghost predicate Honest(volunteered: Events, state: Events, asked: Events, a: Reply) {
    && a.Ready? && state * asked <= a.events <= state * (asked + volunteered)
    && (Nval in state ==> Nval in a.events)
  }

  ghost predicate Truthful(volunteered: Events, ready: Streams, ioctl: Ioctl) {
    forall o, asked :: Honest(volunteered, ready(o), asked, ioctl(o, asked))
  }

  /** The states of a socket that lwip_socket_ioctl tells apart. */
  datatype SocketState = New | Open | PeerClosed | Reset | BadFd | Broken

  datatype Socket = Socket(state: SocketState, readable: bool, writable: bool)

  /** lwip_socket_ioctl. */
  function LwipPoll(s: Socket, asked: Events): Events {
    var ret := asked * ((if s.readable then READING else {}) + if s.writable then WRITING else {});
    match s.state
    case Open => ret
    case New => ret + {Hup}
    case PeerClosed => ret + asked * {Rd, Wr}
    case Reset => ret + asked * {Wr} + {Hup}
    case BadFd => ret + {Nval}
    case Broken => ret + {Err}
  }

  /** The answers event by event: reading and writing are answered when asked for, if the socket is
      ready or will never be again; a new or reset socket hangs up, a bad one is invalid, a broken one
      is in error, whatever is asked. */
  lemma LwipAnswers(s: Socket, asked: Events)
    ensures var a := LwipPoll(s, asked);
            && (Rd in a <==> Rd in asked && (s.readable || s.state == PeerClosed))
            && (Wr in a <==> Wr in asked && (s.writable || s.state == PeerClosed || s.state == Reset))
            && (Hup in a <==> s.state == New || s.state == Reset)
            && (Nval in a <==> s.state == BadFd) && (Err in a <==> s.state == Broken)
  {
  }

  lemma LwipHonest(s: Socket, asked: Events)
    ensures Honest(ALARMS, LwipPoll(s, ALL), asked, Ready(LwipPoll(s, asked)))
  {
    forall e | e in asked ensures e in ALL { match e case Rd => case Wr => case Err => case Hup => case Nval => }
  }

  /** The sockets of lwIP volunteer hanging up, errors and invalidity, and nothing else. */
  lemma LwipTruthful(sockets: Obj -> Socket)
    ensures Truthful(ALARMS, o => LwipPoll(sockets(o), ALL), (o, asked) => Ready(LwipPoll(sockets(o), asked)))
  {
    forall o, asked: Events
      ensures Honest(ALARMS, LwipPoll(sockets(o), ALL), asked, Ready(LwipPoll(sockets(o), asked)))
    {
      LwipHonest(sockets(o), asked);
    }
  }

  // ---------- what the call returns ----------

  function Answer(m: Masks, ioctl: Ioctl, o: Obj): Events {
    var a := ioctl(o, Mask(m, o));
    if a.Ready? then a.events else {}
  }

  /** The three lists that are returned, as sets. */
  datatype Returned = Returned(rs: set<Obj>, ws: set<Obj>, xs: set<Obj>)

  function Sorted(m: Masks, ioctl: Ioctl): Returned {
    Returned(set o | o in m && Rd in Answer(m, ioctl, o), set o | o in m && Wr in Answer(m, ioctl, o),
             set o | o in m && Answer(m, ioctl, o) - {Rd, Wr} != {})
  }

  /** What the documentation of `select` says: of each list the objects that are ready. */
  function Promised(r: seq<Obj>, w: seq<Obj>, x: seq<Obj>, ready: Streams): Returned {
    Returned(set o | o in r && Rd in ready(o), set o | o in w && Wr in ready(o),
             set o | o in x && ready(o) * ALARMS != {})
  }

  lemma {:induction false} AddedKeys(m: Masks, list: seq<Obj>, c: Events, o: Obj)
    ensures o in Added(m, list, c) <==> o in m || o in list
    decreases list
  {
    if list != [] { AddedKeys(m[list[0] := c + Mask(m, list[0])], list[1..], c + Mask(m, list[0]), o); }
  }

  lemma MergedKeys(r: seq<Obj>, w: seq<Obj>, x: seq<Obj>, o: Obj)
    ensures o in Merged(r, w, x) <==> o in r || o in w || o in x
  {
    var none: Masks := map[];
    AddedKeys(none, r, READING, o);
    AddedKeys(Added(none, r, READING), w, WRITING, o);
    AddedKeys(Added(Added(none, r, READING), w, WRITING), x, TROUBLE, o);
  }

  /** Every object is in the lists for the events that its stream may volunteer. */
  ghost predicate Expected(volunteered: Events, r: seq<Obj>, w: seq<Obj>, x: seq<Obj>) {
    forall o | o in r || o in w || o in x ::
      (Rd in volunteered ==> o in r) && (Wr in volunteered ==> o in w) && (volunteered * ALARMS != {} ==> o in x)
  }

  lemma ReadAnswered(volunteered: Events, ready: Streams, ioctl: Ioctl, r: seq<Obj>, w: seq<Obj>, x: seq<Obj>, o: Obj)
    requires Truthful(volunteered, ready, ioctl) && Expected(volunteered, r, w, x) && (o in r || o in w || o in x)
    ensures var a := ioctl(o, EventsIn(r, w, x, o)).events;
            && (Rd in a <==> o in r && Rd in ready(o)) && (Wr in a <==> o in w && Wr in ready(o))
  {
    assert Honest(volunteered, ready(o), EventsIn(r, w, x, o), ioctl(o, EventsIn(r, w, x, o)));
  }

  lemma AlarmAnswered(volunteered: Events, ready: Streams, ioctl: Ioctl, r: seq<Obj>, w: seq<Obj>, x: seq<Obj>, o: Obj)
    requires Truthful(volunteered, ready, ioctl) && Expected(volunteered, r, w, x) && (o in r || o in w || o in x)
    ensures ioctl(o, EventsIn(r, w, x, o)).events - {Rd, Wr} != {} <==> o in x && ready(o) * ALARMS != {}
  {
    var asked, a := EventsIn(r, w, x, o), ioctl(o, EventsIn(r, w, x, o)).events;
    assert Honest(volunteered, ready(o), asked, ioctl(o, asked));
    forall e | e in a - {Rd, Wr} ensures e in ready(o) * ALARMS && o in x {
      assert e in ALARMS by { match e case Rd => case Wr => case Err => case Hup => case Nval => }
      if e in volunteered { assert e in volunteered * ALARMS; } else { assert e in asked; }
    }
    forall e | e in ready(o) * ALARMS && o in x ensures e in a - {Rd, Wr} {
      assert e in TROUBLE || e == Nval;
    }
  }

  /** Lists that are merged as meant give what is promised. */
  lemma ReturnsPromised(volunteered: Events, ready: Streams, ioctl: Ioctl, r: seq<Obj>, w: seq<Obj>, x: seq<Obj>)
    requires Truthful(volunteered, ready, ioctl) && InOrder(r, w, x) && Expected(volunteered, r, w, x)
    ensures Sorted(Merged(r, w, x), ioctl) == Promised(r, w, x, ready)
  {
    var m := Merged(r, w, x);
    MergedAsMeant(r, w, x);
    forall o
      ensures o in m && Rd in Answer(m, ioctl, o) <==> o in r && Rd in ready(o)
      ensures o in m && Wr in Answer(m, ioctl, o) <==> o in w && Wr in ready(o)
      ensures o in m && Answer(m, ioctl, o) - {Rd, Wr} != {} <==> o in x && ready(o) * ALARMS != {}
    {
      AskedMask(r, w, x, o);
      MergedKeys(r, w, x, o);
      if o in m {
        assert Honest(volunteered, ready(o), Mask(m, o), ioctl(o, Mask(m, o)));
        ReadAnswered(volunteered, ready, ioctl, r, w, x, o);
        AlarmAnswered(volunteered, ready, ioctl, r, w, x, o);
      }
    }
  }

  lemma TroubleGiven(r: seq<Obj>, w: seq<Obj>, x: seq<Obj>, o: Obj)
    requires o in x
    ensures TROUBLE <= Mask(Merged(r, w, x), o)
  {
    var none: Masks := map[];
    var second := Added(Added(none, r, READING), w, WRITING);
    var j :| 0 <= j < |x| && x[j] == o;
    Carried(second, x, TROUBLE, j, Err);
    Carried(second, x, TROUBLE, j, Hup);
  }

  /** Masks hold no other events than `select` asks for. */
  lemma {:induction false} AddedWithin(m: Masks, list: seq<Obj>, c: Events, o: Obj, all: Events)
    requires c <= all && forall p :: Mask(m, p) <= all
    ensures Mask(Added(m, list, c), o) <= all
    decreases list
  {
    if list != [] {
      var c' := c + Mask(m, list[0]);
      var m' := m[list[0] := c'];
      forall p ensures Mask(m', p) <= all { assert Mask(m, p) <= all; }
      AddedWithin(m', list[1..], c', o, all);
    }
  }

  /** Streams with which everything is the case that `select` asks for, and which answer just that. */
  const LIVELY: Events := {Rd, Wr, Err, Hup}

  function Lively(o: Obj): Events { LIVELY }

  function AnswerAsked(o: Obj, asked: Events): Reply { Ready(LIVELY * asked) }

  lemma MaskWithin(r: seq<Obj>, w: seq<Obj>, x: seq<Obj>, o: Obj)
    ensures Mask(Merged(r, w, x), o) <= LIVELY
  {
    var none: Masks := map[];
    var first := Added(none, r, READING);
    var second := Added(first, w, WRITING);
    forall p ensures Mask(first, p) <= LIVELY { AddedWithin(none, r, READING, p, LIVELY); }
    forall p ensures Mask(second, p) <= LIVELY { AddedWithin(first, w, WRITING, p, LIVELY); }
    AddedWithin(second, x, TROUBLE, o, LIVELY);
  }

  lemma LivelyTruthful(volunteered: Events)
    ensures Truthful(volunteered, Lively, AnswerAsked)
  {
    forall o, asked: Events ensures Honest(volunteered, Lively(o), asked, AnswerAsked(o, asked)) { }
  }

  /** When everything is ready, the lists tell the masks. */
  lemma ReturnedTellsMasks(r: seq<Obj>, w: seq<Obj>, x: seq<Obj>, o: Obj)
    requires Sorted(Merged(r, w, x), AnswerAsked) == Promised(r, w, x, Lively)
    ensures Mask(Merged(r, w, x), o) == EventsIn(r, w, x, o)
  {
    var m := Merged(r, w, x);
    var got, due := Sorted(m, AnswerAsked), Promised(r, w, x, Lively);
    MergedKeys(r, w, x, o);
    MaskWithin(r, w, x, o);
    assert Answer(m, AnswerAsked, o) == Mask(m, o);
    if o in x { TroubleGiven(r, w, x, o); }
    assert o in got.rs <==> Rd in Mask(m, o);
    assert o in due.rs <==> o in r;
    assert o in got.ws <==> Wr in Mask(m, o);
    assert o in due.ws <==> o in w;
    assert o in got.xs <==> Mask(m, o) - {Rd, Wr} != {};
    assert Err in Lively(o) * ALARMS;
    assert o in due.xs <==> o in x;
    SameEvents(Mask(m, o), EventsIn(r, w, x, o));
  }

  lemma SameEvents(a: Events, b: Events)
    requires a <= LIVELY && b <= LIVELY && (Rd in a <==> Rd in b) && (Wr in a <==> Wr in b)
    requires TROUBLE <= b || b * TROUBLE == {}
    requires a - {Rd, Wr} != {} <==> TROUBLE <= b
    requires TROUBLE <= b ==> TROUBLE <= a
    ensures a == b
  {
    forall e ensures e in a <==> e in b {
      if e == Err || e == Hup {
        assert e in TROUBLE;
        assert e in a ==> e in a - {Rd, Wr};
        assert e in b ==> e in b * TROUBLE;
      }
    }
  }

  lemma PromisedInOrder(r: seq<Obj>, w: seq<Obj>, x: seq<Obj>)
    requires Sorted(Merged(r, w, x), AnswerAsked) == Promised(r, w, x, Lively)
    ensures InOrder(r, w, x)
  {
    forall o
      ensures o in Merged(r, w, x) <==> o in Asked(r, w, x)
      ensures Mask(Merged(r, w, x), o) == Mask(Asked(r, w, x), o)
    {
      MergedKeys(r, w, x, o);
      AskedKeys(r, w, x, o);
      ReturnedTellsMasks(r, w, x, o);
      AskedMask(r, w, x, o);
    }
    SameMasks(Merged(r, w, x), Asked(r, w, x));
    MergedAsMeant(r, w, x);
  }

  lemma {:induction false} MeantKeys(m: Masks, list: seq<Obj>, e: Events, o: Obj)
    ensures o in Meant(m, list, e) <==> o in m || o in list
    decreases list
  {
    if list != [] { MeantKeys(m[list[0] := Mask(m, list[0]) + e], list[1..], e, o); }
  }

  lemma AskedKeys(r: seq<Obj>, w: seq<Obj>, x: seq<Obj>, o: Obj)
    ensures o in Asked(r, w, x) <==> o in r || o in w || o in x
  {
    var none: Masks := map[];
    MeantKeys(none, r, READING, o);
    MeantKeys(Meant(none, r, READING), w, WRITING, o);
    MeantKeys(Meant(Meant(none, r, READING), w, WRITING), x, TROUBLE, o);
  }

  lemma SameMasks(a: Masks, b: Masks)
    requires forall o :: o in a <==> o in b
    requires forall o :: Mask(a, o) == Mask(b, o)
    ensures a == b
  {
    forall o | o in a ensures a[o] == b[o] { assert Mask(a, o) == Mask(b, o); }
  }

  /** Streams with which just `e` is the case, and which say so whatever they are asked. */
  function Only(e: Event): Streams { o => {e} }

  function Saying(e: Event): Ioctl { (o, asked) => Ready({e}) }

  lemma SayingTruthful(volunteered: Events, e: Event)
    requires e in volunteered
    ensures Truthful(volunteered, Only(e), Saying(e))
  {
    forall o, asked: Events ensures Honest(volunteered, Only(e)(o), asked, Saying(e)(o, asked)) { }
  }

  /** A volunteered event puts every object into the list of that event. */
  lemma PromisedExpected(r: seq<Obj>, w: seq<Obj>, x: seq<Obj>, o: Obj, e: Event)
    requires Sorted(Merged(r, w, x), Saying(e)) == Promised(r, w, x, Only(e)) && (o in r || o in w || o in x)
    ensures (e == Rd ==> o in r) && (e == Wr ==> o in w) && (e in ALARMS ==> o in x)
  {
    var m := Merged(r, w, x);
    var got, due := Sorted(m, Saying(e)), Promised(r, w, x, Only(e));
    MergedKeys(r, w, x, o);
    assert Answer(m, Saying(e), o) == {e};
    if e == Rd { assert o in got.rs && o in due.rs; }
    if e == Wr { assert o in got.ws && o in due.ws; }
    if e in ALARMS {
      assert e in Answer(m, Saying(e), o) - {Rd, Wr};
      assert o in got.xs && o in due.xs;
    }
  }

  /** Whatever truthful streams are polled, and whatever is the case with them, `select` returns what
      is promised. */
  ghost predicate KeepsPromise(volunteered: Events, r: seq<Obj>, w: seq<Obj>, x: seq<Obj>) {
    forall ready: Streams, ioctl: Ioctl | Truthful(volunteered, ready, ioctl) ::
      Sorted(Merged(r, w, x), ioctl) == Promised(r, w, x, ready)
  }

  /** `select` returns of each list the objects that are ready, for all streams that volunteer no more
      than these events, if and only if no object of an earlier list comes before one that is not in
      it, and all objects are in the lists of the volunteered events. */
  lemma SelectAsPromised(volunteered: Events, r: seq<Obj>, w: seq<Obj>, x: seq<Obj>)
    ensures KeepsPromise(volunteered, r, w, x) <==> InOrder(r, w, x) && Expected(volunteered, r, w, x)
  {
    if InOrder(r, w, x) && Expected(volunteered, r, w, x) {
      forall ready: Streams, ioctl: Ioctl | Truthful(volunteered, ready, ioctl)
        ensures Sorted(Merged(r, w, x), ioctl) == Promised(r, w, x, ready)
      {
        ReturnsPromised(volunteered, ready, ioctl, r, w, x);
      }
    }
    if KeepsPromise(volunteered, r, w, x) {
      LivelyTruthful(volunteered);
      PromisedInOrder(r, w, x);
      forall o, e | (o in r || o in w || o in x) && e in volunteered
        ensures (e == Rd ==> o in r) && (e == Wr ==> o in w) && (e in ALARMS ==> o in x)
      {
        SayingTruthful(volunteered, e);
        PromisedExpected(r, w, x, o, e);
      }
    }
  }

  /** Streams that answer just what they are asked. */
  lemma DiscreetAsPromised(r: seq<Obj>, w: seq<Obj>, x: seq<Obj>)
    ensures KeepsPromise({}, r, w, x) <==> InOrder(r, w, x)
  {
    SelectAsPromised({}, r, w, x);
  }

  /** Streams that volunteer trouble, as the sockets of lwIP do. */
  lemma SocketsAsPromised(r: seq<Obj>, w: seq<Obj>, x: seq<Obj>)
    ensures KeepsPromise(ALARMS, r, w, x) <==> InOrder(r, w, x) && forall o | o in r || o in w :: o in x
  {
    SelectAsPromised(ALARMS, r, w, x);
    assert Err in ALARMS * ALARMS;
  }

  // ---------- the program ----------

  /** The three lists for the answers that have come. */
  ghost function Of(revents: Masks): Returned {
    Returned(set o | o in revents && Rd in revents[o], set o | o in revents && Wr in revents[o],
             set o | o in revents && revents[o] - {Rd, Wr} != {})
  }

  /** Those that have answered anything. */
  ghost function Awake(revents: Masks): set<Obj> { set o | o in revents && revents[o] != {} }

  ghost function With(s: set<Obj>, o: Obj, b: bool): set<Obj> { if b then s + {o} else s }

  lemma OneMore(revents: Masks, o: Obj, ret: Events)
    requires o !in revents
    ensures var t, t' := Of(revents), Of(revents[o := ret]);
            && t'.rs == With(t.rs, o, Rd in ret) && t'.ws == With(t.ws, o, Wr in ret)
            && t'.xs == With(t.xs, o, ret - {Rd, Wr} != {})
            && o !in t.rs && o !in t.ws && o !in t.xs
    ensures Awake(revents[o := ret]) == With(Awake(revents), o, ret != {}) && o !in Awake(revents)
  {
  }

  /** How many objects are ready for each list. */
  datatype Counts = Counts(nr: nat, nw: nat, nx: nat)

  /** The counters after these answers. */
  ghost function Counted(before: Counts, t: Returned): Counts {
    Counts(before.nr + |t.rs|, before.nw + |t.ws|, before.nx + |t.xs|)
  }

  function Tally(c: Counts, ret: Events): Counts {
    Counts(if Rd in ret then c.nr + 1 else c.nr, if Wr in ret then c.nw + 1 else c.nw,
           if ret - {Rd, Wr} != {} then c.nx + 1 else c.nx)
  }

  lemma TallyCounts(before: Counts, revents: Masks, o: Obj, ret: Events)
    requires o !in revents
    ensures Tally(Counted(before, Of(revents)), ret) == Counted(before, Of(revents[o := ret]))
    ensures |Awake(revents[o := ret])| == |Awake(revents)| + if ret != {} then 1 else 0
  {
    OneMore(revents, o, ret);
  }

  /** The events that the streams answer, when none of them fails. */
  ghost function Answers(m: Masks, ioctl: Ioctl): Masks { map o | o in m :: Answer(m, ioctl, o) }

  ghost predicate Fails(m: Masks, ioctl: Ioctl) { exists o | o in m :: ioctl(o, m[o]).Error? }

  /** The same but for those still to be asked. */
  ghost function AnswersBut(m: Masks, ioctl: Ioctl, todo: set<Obj>): Masks {
    map o | o in m && o !in todo :: Answer(m, ioctl, o)
  }

  lemma OneAnswer(m: Masks, ioctl: Ioctl, todo: set<Obj>, o: Obj)
    requires o in m && o in todo
    ensures o !in AnswersBut(m, ioctl, todo)
    ensures AnswersBut(m, ioctl, todo - {o}) == AnswersBut(m, ioctl, todo)[o := Answer(m, ioctl, o)]
  {
  }

  lemma AllAnswers(m: Masks, ioctl: Ioctl)
    ensures AnswersBut(m, ioctl, m.Keys) == map[] && AnswersBut(m, ioctl, {}) == Answers(m, ioctl)
    ensures Awake(map[]) == {} && Of(map[]) == Returned({}, {}, {})
  {
  }

  datatype Polled = Raise(code: int) | Polled(nReady: nat, revents: Masks, counts: Counts)

  /** poll_set_poll_once over the whole set, in any order, with the counters as they are before. */
  method PollOnce(m: Masks, ioctl: Ioctl, before: Counts) returns (p: Polled)
    ensures p.Raise? <==> Fails(m, ioctl)
    ensures p.Raise? ==> exists o | o in m :: ioctl(o, m[o]) == Error(p.code)
    ensures p.Polled? ==> var all := Answers(m, ioctl); p == Polled(|Awake(all)|, all, Counted(before, Of(all)))
  {
    var nReady, revents, counts := 0, map[], before;
    var todo := m.Keys;
    AllAnswers(m, ioctl);
    while todo != {}
      invariant todo <= m.Keys && revents == AnswersBut(m, ioctl, todo)
      invariant forall o | o in m && o !in todo :: ioctl(o, m[o]).Ready?
      invariant nReady == |Awake(revents)| && counts == Counted(before, Of(revents))
      decreases |todo|
    {
      var o :| o in todo;
      var ret := ioctl(o, m[o]);
      if ret.Error? { return Raise(ret.code); }
      OneAnswer(m, ioctl, todo, o);
      TallyCounts(before, revents, o, ret.events);
      if ret.events != {} {
        nReady, counts := nReady + 1, Tally(counts, ret.events);
      }
      revents := revents[o := ret.events];
      todo := todo - {o};
    }
    p := Polled(nReady, revents, counts);
  }

  /** A poll while `select` waits: the streams, and whether the time is over after it. */
  datatype Round = Round(ioctl: Ioctl, expired: bool)

  ghost predicate Ends(m: Masks, round: Round) {
    Fails(m, round.ioctl) || Awake(Answers(m, round.ioctl)) != {} || round.expired
  }

  /** The round that ends the waiting: the first in which a stream fails, one is ready, or the time is
      over. */
  ghost function EndOf(m: Masks, rounds: seq<Round>): nat
    decreases rounds
  {
    if rounds == [] || Ends(m, rounds[0]) then 0 else 1 + EndOf(m, rounds[1..])
  }

  lemma {:induction false} EndOfIs(m: Masks, rounds: seq<Round>, k: nat)
    requires k <= |rounds| && forall i | 0 <= i < k :: !Ends(m, rounds[i])
    ensures EndOf(m, rounds) >= k && (k == |rounds| || Ends(m, rounds[k]) ==> EndOf(m, rounds) == k)
    decreases k
  {
    if k > 0 {
      assert !Ends(m, rounds[0]);
      forall i | 0 <= i < k - 1 ensures !Ends(m, rounds[1..][i]) { assert rounds[1..][i] == rounds[i + 1]; }
      EndOfIs(m, rounds[1..], k - 1);
    }
  }

  datatype Waited = Waiting | Raised(code: int) | Over(revents: Masks, counts: Counts)

  lemma NobodyCounts(before: Counts, revents: Masks)
    requires Awake(revents) == {}
    ensures Counted(before, Of(revents)) == before
  {
    var t := Of(revents);
    forall o | o in revents ensures o !in t.rs && o !in t.ws && o !in t.xs { assert o !in Awake(revents); }
    assert t == Returned({}, {}, {});
  }

  /** poll_set_poll_until_ready_or_timeout: the counters, which are never set back between two polls,
      are those of the last one. */
  method PollUntil(m: Masks, rounds: seq<Round>) returns (w: Waited)
    ensures var k := EndOf(m, rounds);
            if k >= |rounds| then w == Waiting
            else if Fails(m, rounds[k].ioctl)
            then w.Raised? && exists o | o in m :: rounds[k].ioctl(o, m[o]) == Error(w.code)
            else var all := Answers(m, rounds[k].ioctl); w == Over(all, Counted(Counts(0, 0, 0), Of(all)))
  {
    var counts := Counts(0, 0, 0);
    for i := 0 to |rounds|
      invariant counts == Counts(0, 0, 0) && forall j | 0 <= j < i :: !Ends(m, rounds[j])
    {
      EndOfIs(m, rounds, i);
      var p := PollOnce(m, rounds[i].ioctl, counts);
      if p.Raise? { return Raised(p.code); }
      if p.nReady > 0 || rounds[i].expired { return Over(p.revents, p.counts); }
      NobodyCounts(counts, p.revents);
      counts := p.counts;
    }
    EndOfIs(m, rounds, |rounds|);
    w := Waiting;
  }

  /** `list` has each object of the set once. */
  ghost predicate Lists(list: seq<Obj>, s: set<Obj>) { |list| == |s| && forall o :: o in list <==> o in s }

  method Append(list: seq<Obj>, o: Obj, b: bool, ghost s: set<Obj>) returns (r: seq<Obj>)
    requires Lists(list, s) && o !in s
    ensures Lists(r, With(s, o, b))
  {
    r := if b then list + [o] else list;
  }

  datatype Outcome = Pending | Raising(code: int) | Return(rs: seq<Obj>, ws: seq<Obj>, xs: seq<Obj>)

  ghost predicate Gives(ret: Outcome, t: Returned) {
    ret.Return? && Lists(ret.rs, t.rs) && Lists(ret.ws, t.ws) && Lists(ret.xs, t.xs)
  }

  /** The loop that fills the three lists: as many objects as were counted. */
  method Fill(revents: Masks) returns (ret: Outcome)
    ensures Gives(ret, Of(revents))
  {
    var rs, ws, xs := [], [], [];
    var todo := revents.Keys;
    ghost var seen: Masks := map[];
    while todo != {}
      invariant todo <= revents.Keys && seen == map o | o in revents && o !in todo :: revents[o]
      invariant Gives(Return(rs, ws, xs), Of(seen))
      decreases |todo|
    {
      var o :| o in todo;
      var e := revents[o];
      ghost var t := Of(seen);
      OneMore(seen, o, e);
      rs := Append(rs, o, Rd in e, t.rs);
      ws := Append(ws, o, Wr in e, t.ws);
      xs := Append(xs, o, e - {Rd, Wr} != {}, t.xs);
      seen := seen[o := e];
      todo := todo - {o};
    }
    assert seen == revents;
    ret := Return(rs, ws, xs);
  }

  lemma AnswersSorted(m: Masks, ioctl: Ioctl)
    ensures Of(Answers(m, ioctl)) == Sorted(m, ioctl)
  {
  }

  /** select_select: the lists are allocated for the numbers counted, and filled exactly. */
  method Select(r: seq<Obj>, w: seq<Obj>, x: seq<Obj>, rounds: seq<Round>) returns (ret: Outcome)
    ensures var m := Merged(r, w, x); var k := EndOf(m, rounds);
            if k >= |rounds| then ret == Pending
            else if Fails(m, rounds[k].ioctl)
            then ret.Raising? && exists o | o in m :: rounds[k].ioctl(o, m[o]) == Error(ret.code)
            else Gives(ret, Sorted(m, rounds[k].ioctl))
    ensures forall volunteered, ready | ret.Return? && InOrder(r, w, x) && Expected(volunteered, r, w, x)
              && Truthful(volunteered, ready, rounds[EndOf(Merged(r, w, x), rounds)].ioctl) ::
              Gives(ret, Promised(r, w, x, ready))
  {
    var m := AddObjs(map[], r, READING);
    m := AddObjs(m, w, WRITING);
    m := AddObjs(m, x, TROUBLE);
    var waited := PollUntil(m, rounds);
    match waited
    case Waiting => ret := Pending;
    case Raised(code) => ret := Raising(code);
    case Over(revents, counts) =>
      ghost var ioctl := rounds[EndOf(m, rounds)].ioctl;
      AnswersSorted(m, ioctl);
      ret := Fill(revents);
      assert counts == Counts(|ret.rs|, |ret.ws|, |ret.xs|);
      forall volunteered, ready
        | InOrder(r, w, x) && Expected(volunteered, r, w, x) && Truthful(volunteered, ready, ioctl)
        ensures Gives(ret, Promised(r, w, x, ready))
      {
        ReturnsPromised(volunteered, ready, ioctl, r, w, x);
      }
  }

  /** socket_ioctl for a new socket without a network interface. */
  function NewSocket(o: Obj, asked: Events): Reply { Ready({Hup, Wr}) }

  /** select([s], [], []) with such a socket: it is not in the first list that is returned, but in the
      two that were given empty. */
  method AskNewSocket(s: Obj) returns (ret: Outcome)
    ensures InOrder([s], [], []) && ret == Return([], [s], [s])
  {
    var rounds := [Round(NewSocket, false)];
    ghost var m := Merged([s], [], []);
    MergedKeys([s], [], [], s);
    assert Answers(m, NewSocket)[s] == {Hup, Wr};
    assert s in Awake(Answers(m, NewSocket));
    assert Ends(m, rounds[0]);
    ret := Select([s], [], [], rounds);
    forall o ensures o in m <==> o == s { MergedKeys([s], [], [], o); }
    assert Hup in Answer(m, NewSocket, s) - {Rd, Wr};
    assert Sorted(m, NewSocket) == Returned({}, {s}, {s});
    OneElement(ret.ws, s);
    OneElement(ret.xs, s);
  }

  lemma OneElement(list: seq<Obj>, s: Obj)
    requires Lists(list, {s})
    ensures list == [s]
  {
    assert list[0] in list;
  }
}
