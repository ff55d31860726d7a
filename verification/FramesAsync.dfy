/** Reading audio without waiting: the reader stops when the ring is empty, in the middle of a frame
    if need be, and begins with a new frame when it is called again. */
module FramesAsync {
  import opened ByteSeqs
  import opened Rings
  import opened Frames

  // ---------- one call ----------

  /** How many of the first `n` bytes of a frame are used. */
  function Used(places: seq<int>, n: nat): nat
    requires n <= |places|
  {
    if n == 0 then 0 else Used(places, n - 1) + if places[n - 1] != -1 then 1 else 0
  }

  /** The bytes of one sample after the first `n` bytes of its frame: those that have not come are
      what was there. */
  ghost function Begun(places: seq<int>, sample: nat, was: seq<byte>, frame: seq<byte>, n: nat): (s: seq<byte>)
    requires FrameMap(places, sample) && |was| == sample && n <= |frame| <= FRAME
    ensures |s| == sample
  {
    seq(sample, k requires 0 <= k < sample =>
      if From(places, sample, k) < n then frame[From(places, sample, k)] else was[k])
  }

  lemma FromIs(places: seq<int>, sample: nat, i: nat)
    requires FrameMap(places, sample) && i < FRAME && places[i] != -1
    ensures From(places, sample, places[i]) == i
  {
    assert places[From(places, sample, places[i])] == places[i];
  }

  lemma BegunMore(places: seq<int>, sample: nat, was: seq<byte>, frame: seq<byte>, n: nat)
    requires FrameMap(places, sample) && |was| == sample && n < |frame| <= FRAME
    ensures var s, t := Begun(places, sample, was, frame, n), Begun(places, sample, was, frame, n + 1);
            t == if places[n] == -1 then s else s[places[n] := frame[n]]
  {
    var s, t := Begun(places, sample, was, frame, n), Begun(places, sample, was, frame, n + 1);
    if places[n] != -1 { FromIs(places, sample, n); }
    forall k | 0 <= k < sample ensures t[k] == if places[n] == k then frame[n] else s[k] {
      if places[n] != k { assert From(places, sample, k) != n; }
    }
  }

  lemma BegunNothing(places: seq<int>, sample: nat, was: seq<byte>)
    requires FrameMap(places, sample) && |was| == sample
    ensures Begun(places, sample, was, [], 0) == was
  {
  }

  lemma BegunWhole(places: seq<int>, sample: nat, was: seq<byte>, frame: seq<byte>)
    requires FrameMap(places, sample) && |was| == sample && |frame| == FRAME
    ensures Begun(places, sample, was, frame, FRAME) == Picked(places, sample, frame)
  {
  }

  lemma {:induction false} UsedBound(places: seq<int>, n: nat)
    requires n <= |places|
    ensures Used(places, n) <= n
  {
    if n > 0 { UsedBound(places, n - 1); }
  }

  /** The places of the first `k` bytes of the sample in the frame. */
  ghost function Sources(places: seq<int>, k: int): set<int> {
    set i | 0 <= i < |places| && places[i] != -1 && places[i] < k
  }

  /** All bytes of a sample are used. */
  lemma UsedAll(places: seq<int>, sample: nat)
    requires FrameMap(places, sample)
    ensures Used(places, FRAME) == sample
  {
    UsedIsSize(places, FRAME);
    SourcesSize(places, sample, sample);
    assert (set i | 0 <= i < FRAME && places[i] != -1) == Sources(places, sample);
  }

  lemma {:induction false} UsedIsSize(places: seq<int>, n: nat)
    requires n <= |places|
    ensures Used(places, n) == |set i | 0 <= i < n && places[i] != -1|
  {
    var s := set i | 0 <= i < n && places[i] != -1;
    if n == 0 {
      assert s == {};
    } else {
      UsedIsSize(places, n - 1);
      var t := set i | 0 <= i < n - 1 && places[i] != -1;
      assert s == if places[n - 1] == -1 then t else t + {n - 1};
    }
  }

  lemma SourcesStep(places: seq<int>, sample: nat, k: nat)
    requires FrameMap(places, sample) && k < sample
    ensures var j := From(places, sample, k);
            j !in Sources(places, k) && Sources(places, k + 1) == Sources(places, k) + {j}
  {
    var j := From(places, sample, k);
    forall i | i in Sources(places, k + 1) && i != j ensures i in Sources(places, k) { FromIs(places, sample, i); }
  }

  lemma {:induction false} SourcesSize(places: seq<int>, sample: nat, k: nat)
    requires FrameMap(places, sample) && k <= sample
    ensures |Sources(places, k)| == k
  {
    if k == 0 {
      assert Sources(places, 0) == {};
    } else {
      SourcesSize(places, sample, k - 1);
      SourcesStep(places, sample, k - 1);
    }
  }

  /** One byte of the sample at `at`. */
  method StoreOne(app: array<byte>, at: nat, sample: nat, place: int, data: byte)
    requires at + sample <= app.Length && 0 <= place < sample
    modifies app
    ensures app[at..at + sample] == old(app[at..at + sample])[place := data]
    ensures app[..at] == old(app[..at]) && app[at + sample..] == old(app[at + sample..])
  {
    ghost var before := app[..];
    app[at + place] := data;
    OneStored(before, app[..], at, sample, place, data);
  }

  /** The inner loop of fill_appbuf_from_ringbuf, which ends early when the ring is empty. */
  method TakeUpTo(ring: Ring, app: array<byte>, at: nat, places: seq<int>, sample: nat) returns (n: nat, used: nat)
    requires ring.Valid() && FrameMap(places, sample) && at + sample <= app.Length && app != ring.buffer
    modifies ring`head, app
    ensures n == Least(FRAME, |old(ring.Contents())|) && used == Used(places, n)
    ensures ring.Valid() && ring.Contents() == old(ring.Contents())[n..]
    ensures app[at..at + sample] == Begun(places, sample, old(app[at..at + sample]), old(ring.Contents())[..n], n)
    ensures app[..at] == old(app[..at]) && app[at + sample..] == old(app[at + sample..])
  {
    ghost var raw, was, all := ring.Contents(), app[at..at + sample], app[..];
    ghost var frame := raw[..Least(FRAME, |raw|)];
    n, used := 0, 0;
    assert raw[0..] == raw;
    assert Begun(places, sample, was, frame, 0) == was;
    while n < FRAME
      invariant ring.Valid() && n <= |frame| && used == Used(places, n) && ring.Contents() == raw[n..]
      invariant app[at..at + sample] == Begun(places, sample, was, frame, n)
      invariant app[..at] == all[..at] && app[at + sample..] == all[at + sample..]
    {
      var ok, data := ring.Pop();
      if !ok {
        assert frame == raw[..n];
        return;
      }
      assert data == raw[n] && ring.Contents() == raw[n + 1..] by { HeadOf(raw, n, data, ring.Contents()); }
      BegunMore(places, sample, was, frame, n);
      if places[n] != -1 {
        StoreOne(app, at, sample, places[n], data);
        used := used + 1;
      }
      n := n + 1;
    }
    assert frame == raw[..n];
  }

  lemma OneStored(s: seq<byte>, t: seq<byte>, at: nat, sample: nat, k: nat, d: byte)
    requires at + sample <= |s| && k < sample && t == s[at + k := d]
    ensures t[at..at + sample] == s[at..at + sample][k := d]
    ensures t[..at] == s[..at] && t[at + sample..] == s[at + sample..]
  {
  }

  /** The buffer from `at` on, with what has come of the next frame. */
  ghost function Tail(places: seq<int>, sample: nat, was: seq<byte>, at: nat, frame: seq<byte>): seq<byte>
    requires FrameMap(places, sample) && |frame| <= FRAME && at + sample <= |was|
  {
    Begun(places, sample, was[at..at + sample], frame, |frame|) + was[at + sample..]
  }

  /** `n` bytes have been read: the samples of the whole frames, what has come of the next one, and
      then what was there. */
  ghost predicate Read(places: seq<int>, sample: nat, was: seq<byte>, app: seq<byte>, raw: seq<byte>, n: nat)
    requires FrameMap(places, sample) && n <= |raw|
  {
    var at, rest := Out(n, sample), n % FRAME;
    at <= |was| &&
    if rest == 0 then app == Samples(places, sample, raw[..n]) + was[at..]
    else
      at + sample <= |was|
      && app == Samples(places, sample, raw[..n - rest]) + Tail(places, sample, was, at, raw[n - rest..n])
  }

  lemma {:induction false} SamplesLength(places: seq<int>, sample: nat, raw: seq<byte>)
    requires FrameMap(places, sample)
    ensures |Samples(places, sample, raw)| == Out(|raw|, sample)
    decreases |raw|
  {
    if |raw| >= FRAME { SamplesLength(places, sample, raw[FRAME..]); }
  }

  /** One turn of the outer loop. */
  method ReadNext(ring: Ring, app: array<byte>, places: seq<int>, sample: nat, at: nat,
                  ghost was: seq<byte>, ghost raw: seq<byte>, ghost done: nat) returns (n: nat, used: nat)
    requires ring.Valid() && FrameMap(places, sample) && app != ring.buffer && at == Out(done, sample)
    requires at + sample <= app.Length == |was|
    requires done <= |raw| && done % FRAME == 0 && ring.Contents() == raw[done..]
             && Read(places, sample, was, app[..], raw, done)
    modifies ring`head, app
    ensures n == Least(FRAME, |raw| - done) && used == Used(places, n)
    ensures ring.Valid() && ring.Contents() == raw[done + n..] && Read(places, sample, was, app[..], raw, done + n)
  {
    ghost var before := app[..];
    n, used := TakeUpTo(ring, app, at, places, sample);
    assert ring.Contents() == raw[done + n..] by { Later(raw, done, n); }
    ghost var begun := Begun(places, sample, before[at..at + sample], raw[done..done + n], n);
    assert app[..] == before[..at] + (begun + before[at + sample..]) by {
      Later(raw, done, n);
      ThreeParts(app[..], at, sample);
    }
    ReadMore(places, sample, was, before, app[..], raw, done, n);
  }

  lemma Later(raw: seq<byte>, done: nat, n: nat)
    requires done + n <= |raw|
    ensures raw[done..][n..] == raw[done + n..] && raw[done..][..n] == raw[done..done + n]
  {
  }

  lemma ThreeParts(t: seq<byte>, at: nat, sample: nat)
    requires at + sample <= |t|
    ensures t == t[..at] + (t[at..at + sample] + t[at + sample..])
  {
  }

  /** The buffer that consists of samples and an old rest. */
  lemma OldRest(s: seq<byte>, samples: seq<byte>, was: seq<byte>, at: nat, sample: nat)
    requires at + sample <= |was| && |samples| == at && s == samples + was[at..]
    ensures s[..at] == samples && s[at..at + sample] == was[at..at + sample] && s[at + sample..] == was[at + sample..]
  {
    assert s[at..] == was[at..];
    assert s[at..at + sample] == s[at..][..sample];
    assert s[at + sample..] == s[at..][sample..];
  }

  lemma ReadMore(places: seq<int>, sample: nat, was: seq<byte>, s: seq<byte>, t: seq<byte>, raw: seq<byte>,
                 done: nat, n: nat)
    requires FrameMap(places, sample) && done + n <= |raw| && done % FRAME == 0 && n <= FRAME
    requires Out(done, sample) + sample <= |was| && |s| == |was| && Read(places, sample, was, s, raw, done)
    requires var at := Out(done, sample);
             t == s[..at] + (Begun(places, sample, s[at..at + sample], raw[done..done + n], n) + s[at + sample..])
    ensures Read(places, sample, was, t, raw, done + n)
  {
    var at, samples := Out(done, sample), Samples(places, sample, raw[..done]);
    assert t == samples + Tail(places, sample, was, at, raw[done..done + n]) by {
      SamplesLength(places, sample, raw[..done]);
      OldRest(s, samples, was, at, sample);
    }
    TailRead(places, sample, was, t, raw, done, n, at, samples);
  }

  lemma TailRead(places: seq<int>, sample: nat, was: seq<byte>, t: seq<byte>, raw: seq<byte>, done: nat, n: nat,
                 at: nat, samples: seq<byte>)
    requires FrameMap(places, sample) && done + n <= |raw| && done % FRAME == 0 && n <= FRAME
    requires at == Out(done, sample) && at + sample <= |was| && samples == Samples(places, sample, raw[..done])
    requires t == samples + Tail(places, sample, was, at, raw[done..done + n])
    ensures Read(places, sample, was, t, raw, done + n)
  {
    OutMore(done, n, sample);
    if n == FRAME {
      WholeFrame(places, sample, was, at, raw, done, samples);
    } else if n == 0 {
      NoFrame(places, sample, was, at);
      assert raw[done..done] == [];
    }
  }

  lemma WholeFrame(places: seq<int>, sample: nat, was: seq<byte>, at: nat, raw: seq<byte>, done: nat,
                   samples: seq<byte>)
    requires FrameMap(places, sample) && done + FRAME <= |raw| && done % FRAME == 0 && at + sample <= |was|
    requires samples == Samples(places, sample, raw[..done])
    ensures samples + Tail(places, sample, was, at, raw[done..done + FRAME])
         == Samples(places, sample, raw[..done + FRAME]) + was[at + sample..]
  {
    var frame := raw[done..done + FRAME];
    BegunWhole(places, sample, was[at..at + sample], frame);
    SamplesGrow(places, sample, raw, done);
    Associate(samples, Picked(places, sample, frame), was[at + sample..]);
  }

  lemma NoFrame(places: seq<int>, sample: nat, was: seq<byte>, at: nat)
    requires FrameMap(places, sample) && at + sample <= |was|
    ensures Tail(places, sample, was, at, []) == was[at..]
  {
    BegunNothing(places, sample, was[at..at + sample]);
    assert was[at..at + sample] + was[at + sample..] == was[at..];
  }

  lemma OutMore(done: nat, n: nat, sample: nat)
    requires done % FRAME == 0 && n <= FRAME
    ensures Out(done + n, sample) == if n == FRAME then Out(done, sample) + sample else Out(done, sample)
    ensures (done + n) % FRAME == if n == FRAME then 0 else n
  {
    OutIs(done + n, sample);
    OutIs(done, sample);
    Quotient(done, n);
    if n == FRAME { OutStep(done / FRAME + 1, sample); }
  }

  lemma Quotient(done: nat, n: nat)
    requires done % FRAME == 0 && n <= FRAME
    ensures (done + n) / FRAME == done / FRAME + (if n == FRAME then 1 else 0)
    ensures (done + n) % FRAME == if n == FRAME then 0 else n
  {
  }

  /** `n` of `needed` bytes have been read, and `copied` stored. */
  ghost predicate Reading(ring: Ring, app: seq<byte>, places: seq<int>, sample: nat, was: seq<byte>, raw: seq<byte>,
                          n: nat, copied: nat)
    requires FrameMap(places, sample) && ring.Valid()
    reads ring, ring.buffer
  {
    && n <= |raw| && ring.Contents() == raw[n..] && Read(places, sample, was, app, raw, n)
    && copied == Out(n, sample) + Used(places, n % FRAME)
  }

  /** One turn of the loop, in whole frames so far. */
  method ReadFrame(ring: Ring, app: array<byte>, places: seq<int>, sample: nat, at: nat,
                   ghost was: seq<byte>, ghost raw: seq<byte>, ghost done: nat) returns (n: nat, copied: nat)
    requires ring.Valid() && FrameMap(places, sample) && app != ring.buffer && at + sample <= app.Length == |was|
    requires done % FRAME == 0 && Reading(ring, app[..], places, sample, was, raw, done, at)
    modifies ring`head, app
    ensures ring.Valid() && n == Least(FRAME, |raw| - done)
    ensures Reading(ring, app[..], places, sample, was, raw, done + n, copied)
    ensures n == FRAME ==> copied == at + sample && (done + n) % FRAME == 0
  {
    var used;
    n, used := ReadNext(ring, app, places, sample, at, was, raw, done);
    OutMore(done, n, sample);
    UsedAll(places, sample);
    copied := at + used;
  }

  lemma NothingRead(places: seq<int>, sample: nat, was: seq<byte>, raw: seq<byte>)
    requires FrameMap(places, sample)
    ensures Read(places, sample, was, was, raw, 0) && raw[0..] == raw
  {
    assert raw[..0] == [];
  }

  /** `left` of `needed` bytes are left, in whole frames, and the samples of all others are stored. */
  ghost predicate Turning(length: nat, needed: nat, left: nat, done: nat, sample: nat, room: nat, copied: nat) {
    && left <= needed && left % FRAME == 0 && done == needed - left && done % FRAME == 0 && done <= length
    && copied + Out(left, sample) == room
  }

  lemma OneTurn(length: nat, needed: nat, left: nat, done: nat, sample: nat, room: nat, copied: nat, n: nat)
    requires Turning(length, needed, left, done, sample, room, copied) && left > 0 && n == Least(FRAME, length - done)
    ensures left >= FRAME && copied + sample <= room && done + n <= length
    ensures n < FRAME ==> done + n == Least(length, needed)
    ensures n == FRAME ==> Turning(length, needed, left - FRAME, done + n, sample, room, copied + sample)
  {
    assert left >= FRAME;
    assert Out(left, sample) == Out(left - FRAME, sample) + sample;
  }

  lemma RoomLeft(needed: nat, left: nat, sample: nat)
    requires 0 < left <= needed && left % FRAME == 0
    ensures left >= FRAME && Out(left, sample) >= sample
  {
  }

  /** One turn of the outer loop. */
  method Turn(ring: Ring, app: array<byte>, places: seq<int>, sample: nat, needed: nat, left: nat, at: nat,
              ghost was: seq<byte>, ghost raw: seq<byte>, ghost done: nat)
    returns (n: nat, copied: nat)
    requires ring.Valid() && FrameMap(places, sample) && app != ring.buffer && app.Length == |was| && left > 0
    requires Turning(|raw|, needed, left, done, sample, app.Length, at)
    requires Reading(ring, app[..], places, sample, was, raw, done, at)
    modifies ring`head, app
    ensures ring.Valid() && n <= FRAME && done + n <= |raw|
    ensures Reading(ring, app[..], places, sample, was, raw, done + n, copied)
    ensures n < FRAME ==> done + n == Least(|raw|, needed)
    ensures n == FRAME ==> left >= FRAME && Turning(|raw|, needed, left - FRAME, done + n, sample, app.Length, copied)
  {
    RoomLeft(needed, left, sample);
    n, copied := ReadFrame(ring, app, places, sample, at, was, raw, done);
    OneTurn(|raw|, needed, left, done, sample, app.Length, at, n);
  }

  /** The outer loop. */
  method ReadFrames(ring: Ring, app: array<byte>, places: seq<int>, sample: nat, needed: nat, ghost was: seq<byte>,
                    ghost raw: seq<byte>)
    returns (copied: nat)
    requires ring.Valid() && FrameMap(places, sample) && app != ring.buffer && needed % FRAME == 0
    requires Out(needed, sample) == app.Length == |was| && Reading(ring, app[..], places, sample, was, raw, 0, 0)
    modifies ring`head, app
    ensures ring.Valid() && Reading(ring, app[..], places, sample, was, raw, Least(|raw|, needed), copied)
  {
    var left: nat := needed;
    ghost var done: nat := 0;
    copied := 0;
    while left > 0
      invariant Turning(|raw|, needed, left, done, sample, app.Length, copied)
      invariant ring.Valid() && Reading(ring, app[..], places, sample, was, raw, done, copied)
    {
      var n;
      n, copied := Turn(ring, app, places, sample, needed, left, copied, was, raw, done);
      done := done + n;
      if n < FRAME {
        assert done == Least(|raw|, needed);
        return;
      }
      left := left - FRAME;
    }
    assert done == Least(|raw|, needed);
  }

  /** fill_appbuf_from_ringbuf for asyncio: as many bytes as there are, up to a full buffer. The
      number returned counts the bytes stored, those of an unfinished sample too. */
  method FillAsync(ring: Ring, app: array<byte>, places: seq<int>, sample: nat) returns (copied: nat)
    requires ring.Valid() && FrameMap(places, sample) && app != ring.buffer && app.Length % sample == 0
    modifies ring`head, app
    ensures ring.Valid()
    ensures var raw := old(ring.Contents());
            Reading(ring, app[..], places, sample, old(app[..]), raw, Least(|raw|, app.Length * (FRAME / sample)),
                    copied)
  {
    var needed := app.Length * (FRAME / sample);
    Needed(app.Length, sample);
    OutIs(needed, sample);
    NothingRead(places, sample, app[..], ring.Contents());
    copied := ReadFrames(ring, app, places, sample, needed, app[..], ring.Contents());
  }

  // ---------- the next call ----------

  /** Calls that end with whole frames deliver the samples of the stream. */
  lemma {:induction false} SamplesJoin(places: seq<int>, sample: nat, a: seq<byte>, b: seq<byte>)
    requires FrameMap(places, sample) && |a| % FRAME == 0
    ensures Samples(places, sample, a + b) == Samples(places, sample, a) + Samples(places, sample, b)
    decreases |a|
  {
    if a == [] {
      assert a + b == b;
    } else {
      assert (a + b)[..FRAME] == a[..FRAME] && (a + b)[FRAME..] == a[FRAME..] + b;
      SamplesJoin(places, sample, a[FRAME..], b);
      Associate(Picked(places, sample, a[..FRAME]), Samples(places, sample, a[FRAME..]), Samples(places, sample, b));
    }
  }

  lemma {:induction false} UsedGrows(places: seq<int>, n: nat, m: nat)
    requires n <= m <= |places|
    ensures Used(places, n) <= Used(places, m)
    decreases m
  {
    if n < m { UsedGrows(places, n, m - 1); }
  }

  /** Two frames, of which a first call reads `r` bytes; what it returns, and what a second call makes
      of the eight bytes that come next. */
  ghost function Delivered(places: seq<int>, sample: nat, was: seq<byte>, s: seq<byte>, r: nat): seq<byte>
    requires FrameMap(places, sample) && |was| == sample && |s| == 2 * FRAME && r < FRAME
  {
    UsedGrows(places, r, FRAME);
    UsedAll(places, sample);
    Begun(places, sample, was, s[..r], r)[..Used(places, r)] + Picked(places, sample, s[r..r + FRAME])
  }

  /** As many bytes of the two samples. */
  ghost function Due(places: seq<int>, sample: nat, s: seq<byte>, r: nat): seq<byte>
    requires FrameMap(places, sample) && |s| == 2 * FRAME && r < FRAME
  {
    UsedGrows(places, r, FRAME);
    UsedAll(places, sample);
    (Picked(places, sample, s[..FRAME]) + Picked(places, sample, s[FRAME..]))[..Used(places, r) + sample]
  }

  /** Where byte `m` of the samples comes from in the stream. */
  ghost function Origin(places: seq<int>, sample: nat, m: nat): nat
    requires FrameMap(places, sample) && m < 2 * sample
  {
    if m < sample then From(places, sample, m) else FRAME + From(places, sample, m - sample)
  }

  ghost predicate ComesNext(places: seq<int>, sample: nat, r: nat, e: nat, k: nat)
    requires FrameMap(places, sample) && e <= sample && k < sample
  {
    r + From(places, sample, k) == Origin(places, sample, e + k)
  }

  /** From its `r`-th byte on, of which `e` are used before, the map goes on as from its beginning. */
  ghost predicate GoesOnAfter(places: seq<int>, sample: nat, r: nat, e: nat)
    requires FrameMap(places, sample) && r < FRAME && e <= sample
  {
    && (forall k | 0 <= k < e :: From(places, sample, k) < r)
    && (forall k | 0 <= k < sample :: ComesNext(places, sample, r, e, k))
  }

  ghost predicate GoesOn(places: seq<int>, sample: nat, r: nat)
    requires FrameMap(places, sample) && r < FRAME
  {
    Used(places, r) <= sample && GoesOnAfter(places, sample, r, Used(places, r))
  }

  lemma UsedFits(places: seq<int>, sample: nat, r: nat)
    requires FrameMap(places, sample) && r < FRAME
    ensures Used(places, r) <= sample
  {
    UsedGrows(places, r, FRAME);
    UsedAll(places, sample);
  }

  lemma CutJoined(a: seq<byte>, b: seq<byte>, e: nat, m: nat)
    requires e <= |a| && m < e + |b|
    ensures (a[..e] + b)[m] == if m < e then a[m] else b[m - e]
  {
  }

  lemma PickedAt(places: seq<int>, sample: nat, s: seq<byte>, r: nat, k: nat)
    requires FrameMap(places, sample) && r + FRAME <= |s| && k < sample
    ensures Picked(places, sample, s[r..r + FRAME])[k] == s[r + From(places, sample, k)]
  {
  }

  lemma DeliveredIs(places: seq<int>, sample: nat, was: seq<byte>, s: seq<byte>, r: nat,
                    a: seq<byte>, b: seq<byte>, e: nat)
    requires FrameMap(places, sample) && |was| == sample && |s| == 2 * FRAME && r < FRAME
    requires a == Begun(places, sample, was, s[..r], r) && b == Picked(places, sample, s[r..r + FRAME])
    requires e == Used(places, r) <= sample
    ensures Delivered(places, sample, was, s, r) == a[..e] + b
  {
  }

  /** A byte that the second call picks. */
  lemma DeliveredNext(places: seq<int>, sample: nat, was: seq<byte>, s: seq<byte>, r: nat, e: nat, k: nat)
    requires FrameMap(places, sample) && |was| == sample && |s| == 2 * FRAME && r < FRAME && k < sample
    requires e == Used(places, r) <= sample
    ensures |Delivered(places, sample, was, s, r)| == e + sample
    ensures Delivered(places, sample, was, s, r)[e + k] == s[r + From(places, sample, k)]
  {
    var a, b := Begun(places, sample, was, s[..r], r), Picked(places, sample, s[r..r + FRAME]);
    DeliveredIs(places, sample, was, s, r, a, b, e);
    CutJoined(a, b, e, e + k);
    PickedAt(places, sample, s, r, k);
  }

  lemma BegunAt(places: seq<int>, sample: nat, was: seq<byte>, s: seq<byte>, r: nat, m: nat)
    requires FrameMap(places, sample) && |was| == sample && |s| == 2 * FRAME && r < FRAME && m < sample
    ensures var j := From(places, sample, m); Begun(places, sample, was, s[..r], r)[m] == if j < r then s[j] else was[m]
  {
  }

  /** A byte that the first call has stored, or not. */
  lemma DeliveredBegun(places: seq<int>, sample: nat, was: seq<byte>, s: seq<byte>, r: nat, e: nat, m: nat)
    requires FrameMap(places, sample) && |was| == sample && |s| == 2 * FRAME && r < FRAME && m < e
    requires e == Used(places, r) <= sample
    ensures |Delivered(places, sample, was, s, r)| == e + sample
    ensures var j := From(places, sample, m); Delivered(places, sample, was, s, r)[m] == if j < r then s[j] else was[m]
  {
    var a, b := Begun(places, sample, was, s[..r], r), Picked(places, sample, s[r..r + FRAME]);
    DeliveredIs(places, sample, was, s, r, a, b, e);
    CutJoined(a, b, e, m);
    BegunAt(places, sample, was, s, r, m);
  }

  lemma DueAt(places: seq<int>, sample: nat, s: seq<byte>, r: nat, m: nat)
    requires FrameMap(places, sample) && |s| == 2 * FRAME && r < FRAME && m < Used(places, r) + sample
    ensures Used(places, r) <= sample && |Due(places, sample, s, r)| == Used(places, r) + sample
    ensures Due(places, sample, s, r)[m] == s[Origin(places, sample, m)]
  {
    UsedGrows(places, r, FRAME);
    UsedAll(places, sample);
    CutJoined(Picked(places, sample, s[..FRAME]), Picked(places, sample, s[FRAME..]), sample, m);
  }

  function Marked(n: nat, i: int): (s: seq<byte>)
    ensures |s| == n
  {
    seq(n, j => if j == i then 1 else 0)
  }

  /** A byte of the sample that has not come yet is returned as it was. */
  lemma OldByteReturned(places: seq<int>, sample: nat, r: nat, k: nat)
    requires FrameMap(places, sample) && r < FRAME && k < Used(places, r) <= sample && From(places, sample, k) >= r
    ensures var was, s := Marked(sample, -1), Marked(2 * FRAME, From(places, sample, k));
            Delivered(places, sample, was, s, r) != Due(places, sample, s, r)
  {
    var was, s := Marked(sample, -1), Marked(2 * FRAME, From(places, sample, k));
    DeliveredBegun(places, sample, was, s, r, Used(places, r), k);
    DueAt(places, sample, s, r, k);
    assert Delivered(places, sample, was, s, r)[k] == 0 && Due(places, sample, s, r)[k] == 1;
  }

  /** A byte from another place. */
  lemma OtherByteReturned(places: seq<int>, sample: nat, r: nat, k: nat)
    requires FrameMap(places, sample) && r < FRAME && k < sample && Used(places, r) <= sample
    requires r + From(places, sample, k) != Origin(places, sample, Used(places, r) + k)
    ensures var was, s := Marked(sample, -1), Marked(2 * FRAME, Origin(places, sample, Used(places, r) + k));
            Delivered(places, sample, was, s, r) != Due(places, sample, s, r)
  {
    var e, was := Used(places, r), Marked(sample, -1);
    var i, j := r + From(places, sample, k), Origin(places, sample, e + k);
    var s := Marked(2 * FRAME, j);
    MarkedTells(2 * FRAME, j, i);
    assert |Delivered(places, sample, was, s, r)| == e + sample
        && Delivered(places, sample, was, s, r)[e + k] == s[i] by {
      DeliveredNext(places, sample, was, s, r, e, k);
    }
    assert |Due(places, sample, s, r)| == e + sample && Due(places, sample, s, r)[e + k] == s[j] by {
      DueAt(places, sample, s, r, e + k);
    }
  }

  lemma MarkedTells(n: nat, j: nat, i: nat)
    requires i < n && j < n && i != j
    ensures Marked(n, j)[i] != Marked(n, j)[j]
  {
  }

  ghost predicate Right(places: seq<int>, sample: nat, r: nat)
    requires FrameMap(places, sample) && r < FRAME
  {
    forall was, s | |was| == sample && |s| == 2 * FRAME ::
      Delivered(places, sample, was, s, r) == Due(places, sample, s, r)
  }

  lemma RightFor(places: seq<int>, sample: nat, r: nat, was: seq<byte>, s: seq<byte>)
    requires FrameMap(places, sample) && r < FRAME && Right(places, sample, r) && |was| == sample && |s| == 2 * FRAME
    ensures Delivered(places, sample, was, s, r) == Due(places, sample, s, r)
  {
  }

  lemma NeedsByte(places: seq<int>, sample: nat, r: nat, k: nat, was: seq<byte>, s: seq<byte>)
    requires FrameMap(places, sample) && r < FRAME && k < Used(places, r) <= sample
    requires was == Marked(sample, -1) && s == Marked(2 * FRAME, From(places, sample, k))
    requires Delivered(places, sample, was, s, r) == Due(places, sample, s, r)
    ensures From(places, sample, k) < r
  {
    if From(places, sample, k) >= r { OldByteReturned(places, sample, r, k); }
  }

  lemma NeedsPlace(places: seq<int>, sample: nat, r: nat, e: nat, k: nat, was: seq<byte>, s: seq<byte>)
    requires FrameMap(places, sample) && r < FRAME && k < sample && e == Used(places, r) <= sample
    requires was == Marked(sample, -1) && s == Marked(2 * FRAME, Origin(places, sample, e + k))
    requires Delivered(places, sample, was, s, r) == Due(places, sample, s, r)
    ensures ComesNext(places, sample, r, e, k)
  {
    if !ComesNext(places, sample, r, e, k) { OtherByteReturned(places, sample, r, k); }
  }

  lemma NeedsAll(places: seq<int>, sample: nat, r: nat, e: nat)
    requires FrameMap(places, sample) && r < FRAME && Right(places, sample, r) && e == Used(places, r) <= sample
    ensures GoesOnAfter(places, sample, r, e)
  {
    var was := Marked(sample, -1);
    forall k | 0 <= k < e ensures From(places, sample, k) < r {
      var s := Marked(2 * FRAME, From(places, sample, k));
      RightFor(places, sample, r, was, s);
      NeedsByte(places, sample, r, k, was, s);
    }
    forall k | 0 <= k < sample ensures ComesNext(places, sample, r, e, k) {
      var s := Marked(2 * FRAME, Origin(places, sample, e + k));
      RightFor(places, sample, r, was, s);
      NeedsPlace(places, sample, r, e, k, was, s);
    }
  }

  lemma RestartNeeds(places: seq<int>, sample: nat, r: nat)
    requires FrameMap(places, sample) && r < FRAME && Right(places, sample, r)
    ensures GoesOn(places, sample, r)
  {
    UsedFits(places, sample, r);
    NeedsAll(places, sample, r, Used(places, r));
  }

  lemma SameBegun(places: seq<int>, sample: nat, was: seq<byte>, s: seq<byte>, r: nat, e: nat, m: nat)
    requires FrameMap(places, sample) && r < FRAME && |was| == sample && |s| == 2 * FRAME
    requires e == Used(places, r) <= sample && GoesOnAfter(places, sample, r, e) && m < e
    ensures |Delivered(places, sample, was, s, r)| == |Due(places, sample, s, r)| == e + sample
    ensures Delivered(places, sample, was, s, r)[m] == Due(places, sample, s, r)[m]
  {
    DeliveredBegun(places, sample, was, s, r, e, m);
    DueAt(places, sample, s, r, m);
  }

  lemma SameNext(places: seq<int>, sample: nat, was: seq<byte>, s: seq<byte>, r: nat, e: nat, k: nat)
    requires FrameMap(places, sample) && r < FRAME && |was| == sample && |s| == 2 * FRAME
    requires e == Used(places, r) <= sample && GoesOnAfter(places, sample, r, e) && k < sample
    ensures |Delivered(places, sample, was, s, r)| == |Due(places, sample, s, r)| == e + sample
    ensures Delivered(places, sample, was, s, r)[e + k] == Due(places, sample, s, r)[e + k]
  {
    var i := s[r + From(places, sample, k)];
    assert |Delivered(places, sample, was, s, r)| == e + sample && Delivered(places, sample, was, s, r)[e + k] == i by {
      DeliveredNext(places, sample, was, s, r, e, k);
    }
    assert |Due(places, sample, s, r)| == e + sample && Due(places, sample, s, r)[e + k] == i by {
      OriginGoesOn(places, sample, r, e, k);
      DueAt(places, sample, s, r, e + k);
    }
  }

  lemma SameByte(places: seq<int>, sample: nat, was: seq<byte>, s: seq<byte>, r: nat, m: nat)
    requires FrameMap(places, sample) && r < FRAME && GoesOn(places, sample, r) && |was| == sample && |s| == 2 * FRAME
    requires m < Used(places, r) + sample
    ensures |Delivered(places, sample, was, s, r)| == |Due(places, sample, s, r)| == Used(places, r) + sample
    ensures Delivered(places, sample, was, s, r)[m] == Due(places, sample, s, r)[m]
  {
    var e := Used(places, r);
    if m < e { SameBegun(places, sample, was, s, r, e, m); } else { SameNext(places, sample, was, s, r, e, m - e); }
  }

  lemma OriginGoesOn(places: seq<int>, sample: nat, r: nat, e: nat, k: nat)
    requires FrameMap(places, sample) && r < FRAME && e <= sample && GoesOnAfter(places, sample, r, e) && k < sample
    ensures Origin(places, sample, e + k) == r + From(places, sample, k)
  {
    assert ComesNext(places, sample, r, e, k);
  }

  lemma SameBytes(a: seq<byte>, b: seq<byte>)
    requires |a| == |b| && forall m | 0 <= m < |a| :: a[m] == b[m]
    ensures a == b
  {
  }

  lemma RestartSuffices(places: seq<int>, sample: nat, was: seq<byte>, s: seq<byte>, r: nat)
    requires FrameMap(places, sample) && r < FRAME && GoesOn(places, sample, r) && |was| == sample && |s| == 2 * FRAME
    ensures Delivered(places, sample, was, s, r) == Due(places, sample, s, r)
  {
    var a, b := Delivered(places, sample, was, s, r), Due(places, sample, s, r);
    SameByte(places, sample, was, s, r, 0);
    forall m | 0 <= m < |a| ensures a[m] == b[m] { SameByte(places, sample, was, s, r, m); }
    SameBytes(a, b);
  }

  /** Whatever is in the stream, a call after one that stopped `r` bytes into a frame goes on with the
      samples if and only if the map goes on from there as from its beginning. */
  lemma RestartExactly(places: seq<int>, sample: nat, r: nat)
    requires FrameMap(places, sample) && r < FRAME
    ensures Right(places, sample, r) <==> GoesOn(places, sample, r)
  {
    if GoesOn(places, sample, r) {
      forall was, s | |was| == sample && |s| == 2 * FRAME
        ensures Delivered(places, sample, was, s, r) == Due(places, sample, s, r)
      {
        RestartSuffices(places, sample, was, s, r);
      }
    } else if Right(places, sample, r) {
      RestartNeeds(places, sample, r);
    }
  }

  /** At the end of a frame it always does. */
  lemma GoesOnWhole(places: seq<int>, sample: nat)
    requires FrameMap(places, sample)
    ensures GoesOn(places, sample, 0)
  {
  }

  /** A map for 16-bit mono: two of eight bytes are used. */
  const MONO: seq<int> := [-1, -1, 0, 1, -1, -1, -1, -1]

  lemma MonoIsMap()
    ensures FrameMap(MONO, 2) && From(MONO, 2, 0) == 2 && From(MONO, 2, 1) == 3
  {
    assert MONO[2] == 0 && MONO[3] == 1;
    assert Comes(MONO, 0) && Comes(MONO, 1);
    FromIs(MONO, 2, 2);
    FromIs(MONO, 2, 3);
  }

  lemma MonoUsed(r: nat)
    requires r < FRAME
    ensures Used(MONO, r) == if r <= 2 then 0 else if r == 3 then 1 else 2
  {
    assert Used(MONO, 0) == 0 && Used(MONO, 1) == 0 && Used(MONO, 2) == 0;
    assert Used(MONO, 3) == 1 && Used(MONO, 4) == 2 && Used(MONO, 5) == 2;
    assert Used(MONO, 6) == 2 && Used(MONO, 7) == 2;
  }

  /** With it only calls that end with a whole frame keep the samples right. */
  lemma MonoNeedsFrames(r: nat)
    requires r < FRAME
    ensures FrameMap(MONO, 2) && (GoesOn(MONO, 2, r) <==> r == 0)
  {
    MonoIsMap();
    MonoUsed(r);
    GoesOnWhole(MONO, 2);
    if GoesOn(MONO, 2, r) {
      var e := Used(MONO, r);
      assert ComesNext(MONO, 2, r, e, 0);
    }
  }

  // ---------- two calls ----------

  lemma SampleWhole(places: seq<int>, sample: nat, was: seq<byte>, app: seq<byte>, raw: seq<byte>)
    requires FrameMap(places, sample) && |was| == sample && |raw| == FRAME
    requires Read(places, sample, was, app, raw, FRAME) && Out(FRAME, sample) == sample
    ensures app == Begun(places, sample, was, raw, FRAME)
  {
    assert raw[..FRAME] == raw;
    SamplesGrow(places, sample, raw, 0);
    assert raw[0..FRAME] == raw && Samples(places, sample, raw[..0]) == [];
    BegunWhole(places, sample, was, raw);
    assert was[sample..] == [];
  }

  lemma SamplePart(places: seq<int>, sample: nat, was: seq<byte>, app: seq<byte>, raw: seq<byte>, n: nat)
    requires FrameMap(places, sample) && |was| == sample && n == |raw| < FRAME
    requires Read(places, sample, was, app, raw, n) && Out(n, sample) == 0 && n % FRAME == n
    ensures app == Begun(places, sample, was, raw, n)
  {
    if n == 0 {
      assert raw[..0] == [] && was[0..] == was;
      BegunNothing(places, sample, was);
    } else {
      assert n - n % FRAME == 0 && raw[..0] == [] && raw[0..n] == raw && was[0..0 + sample] == was;
      assert was[0 + sample..] == [];
    }
  }

  lemma OneSampleCount(places: seq<int>, sample: nat, n: nat)
    requires FrameMap(places, sample) && n <= FRAME
    ensures Out(n, sample) == (if n == FRAME then sample else 0) && n % FRAME == (if n == FRAME then 0 else n)
    ensures Out(n, sample) + Used(places, n % FRAME) == Used(places, n) <= sample
  {
    UsedAll(places, sample);
    UsedGrows(places, n, FRAME);
    OutMore(0, n, sample);
    assert Out(0, sample) == 0 && Used(places, 0) == 0;
  }

  /** What `FillAsync` has done with `n` bytes of a frame, or with a whole one, in a buffer for
      one sample. */
  lemma OneSample(places: seq<int>, sample: nat, was: seq<byte>, app: seq<byte>, raw: seq<byte>, n: nat)
    requires FrameMap(places, sample) && |was| == sample && n == |raw| <= FRAME
    requires Read(places, sample, was, app, raw, n)
    requires Out(n, sample) == (if n == FRAME then sample else 0) && n % FRAME == (if n == FRAME then 0 else n)
    ensures app == Begun(places, sample, was, raw, n)
  {
    if n == FRAME {
      SampleWhole(places, sample, was, app, raw);
    } else {
      SamplePart(places, sample, was, app, raw, n);
    }
  }

  /** Room for one sample. */
  method FillSample(ring: Ring, app: array<byte>, places: seq<int>, sample: nat) returns (copied: nat)
    requires ring.Valid() && FrameMap(places, sample) && app != ring.buffer && app.Length == sample
    requires |ring.Contents()| <= FRAME
    modifies ring`head, app
    ensures ring.Valid() && ring.Contents() == []
    ensures var raw := old(ring.Contents());
            copied == Used(places, |raw|) <= sample && app[..] == Begun(places, sample, old(app[..]), raw, |raw|)
  {
    ghost var raw, was := ring.Contents(), app[..];
    assert sample % sample == 0 && sample * (FRAME / sample) == FRAME;
    copied := FillAsync(ring, app, places, sample);
    OneSampleCount(places, sample, |raw|);
    OneSample(places, sample, was, app[..], raw, |raw|);
  }

  /** Two calls, each with room for one sample: the first finds `r` bytes of a frame in the ring, and
      eight more have come before the second. */
  method TwoCalls(ring: Ring, a: array<byte>, b: array<byte>, places: seq<int>, sample: nat, s: seq<byte>, r: nat)
    returns (got: seq<byte>)
    requires ring.Valid() && FrameMap(places, sample) && ring.buffer.Length > FRAME && |s| == 2 * FRAME && r < FRAME
    requires a.Length == b.Length == sample && a != b && a != ring.buffer && b != ring.buffer
    requires ring.Contents() == s[..r]
    modifies ring`head, ring`tail, ring.buffer, a, b
    ensures got == Delivered(places, sample, old(a[..]), s, r)
    ensures Right(places, sample, r) ==> got == Due(places, sample, s, r)
  {
    ghost var was := a[..];
    var m := FillSample(ring, a, places, sample);
    var k := ring.CopyIn(s[r..r + FRAME]);
    assert ring.Contents() == s[r..r + FRAME];
    var n := FillSample(ring, b, places, sample);
    UsedAll(places, sample);
    BegunWhole(places, sample, old(b[..]), s[r..r + FRAME]);
    got := a[..m] + b[..n];
    assert b[..n] == Picked(places, sample, s[r..r + FRAME]);
    if Right(places, sample, r) { RightFor(places, sample, r, was, s); }
  }

  const FIRST16: seq<byte> := [0, 1, 2, 3, 4, 5, 6, 7, 8, 9, 10, 11, 12, 13, 14, 15]

  /** 16-bit mono, with one stray byte at the first call: the bytes 3 and 4 of the stream come where the
      sample of the bytes 2 and 3 is due. */
  lemma StrayOffByOne(was: seq<byte>)
    requires |was| == 2
    ensures FrameMap(MONO, 2) && Delivered(MONO, 2, was, FIRST16, 1) == [3, 4] && Due(MONO, 2, FIRST16, 1) == [2, 3]
  {
    MonoIsMap();
    MonoUsed(1);
    var d, e := Delivered(MONO, 2, was, FIRST16, 1), Due(MONO, 2, FIRST16, 1);
    assert |d| == 2 && d[0] == FIRST16[3] && d[1] == FIRST16[4] by {
      DeliveredNext(MONO, 2, was, FIRST16, 1, 0, 0);
      DeliveredNext(MONO, 2, was, FIRST16, 1, 0, 1);
    }
    assert |e| == 2 && e[0] == FIRST16[2] && e[1] == FIRST16[3] by {
      DueAt(MONO, 2, FIRST16, 1, 0);
      DueAt(MONO, 2, FIRST16, 1, 1);
    }
  }

  method MonoStray() returns (got: seq<byte>)
    ensures FrameMap(MONO, 2) && got == [3, 4] && Due(MONO, 2, FIRST16, 1) == [2, 3]
  {
    MonoIsMap();
    var ring := new Ring(FRAME + 1);
    var k := ring.CopyIn(FIRST16[..1]);
    var a, b := new byte[2], new byte[2];
    ghost var was := a[..];
    got := TwoCalls(ring, a, b, MONO, 2, FIRST16, 1);
    StrayOffByOne(was);
  }
}
