/** Reading audio out of the ring: frames of eight bytes come in, and the bytes of a sample are
    picked out of each by the frame map of the format. */
module Frames {
  import opened ByteSeqs
  import opened Rings

  const FRAME := 8

  /** A row of i2s_frame_map: where each byte of a frame goes in the sample, -1 for nowhere. Every
      byte of the sample comes from exactly one byte of the frame. */
  ghost predicate FrameMap(places: seq<int>, sample: nat) {
    && |places| == FRAME && (sample == 2 || sample == 4 || sample == 8)
    && (forall i | 0 <= i < FRAME :: -1 <= places[i] < sample)
    && (forall i, j | 0 <= i < j < FRAME && places[i] == places[j] :: places[i] == -1)
    && (forall k | 0 <= k < sample :: Comes(places, k))
  }

  ghost predicate Comes(places: seq<int>, k: int) { exists i :: 0 <= i < |places| && places[i] == k }

  /** The byte of the frame that becomes byte `k` of the sample. */
  ghost function From(places: seq<int>, sample: nat, k: nat): (i: nat)
    requires FrameMap(places, sample) && k < sample
    ensures i < FRAME && places[i] == k
  {
    assert Comes(places, k);
    var i :| 0 <= i < |places| && places[i] == k;
    i
  }

  ghost function Picked(places: seq<int>, sample: nat, frame: seq<byte>): (s: seq<byte>)
    requires FrameMap(places, sample) && |frame| == FRAME
    ensures |s| == sample
  {
    seq(sample, k requires 0 <= k < sample => frame[From(places, sample, k)])
  }

  /** Byte i of the frame becomes the byte of the sample that the map says. */
  lemma PickedAt(places: seq<int>, sample: nat, frame: seq<byte>, i: nat)
    requires FrameMap(places, sample) && |frame| == 8 && i < 8 && places[i] != -1
    ensures Picked(places, sample, frame)[places[i]] == frame[i]
  {
    assert places[From(places, sample, places[i])] == places[i];
  }

  /** The samples of all whole frames. */
  ghost function Samples(places: seq<int>, sample: nat, raw: seq<byte>): seq<byte>
    requires FrameMap(places, sample)
  {
    if |raw| < FRAME then [] else Picked(places, sample, raw[..FRAME]) + Samples(places, sample, raw[FRAME..])
  }

  lemma {:induction false} SamplesGrow(places: seq<int>, sample: nat, raw: seq<byte>, n: nat)
    requires FrameMap(places, sample) && n % FRAME == 0 && n + FRAME <= |raw|
    ensures Samples(places, sample, raw[..n + FRAME])
         == Samples(places, sample, raw[..n]) + Picked(places, sample, raw[n..n + FRAME])
  {
    var long, short := raw[..n + FRAME], raw[..n];
    if n == 0 {
      assert long[..FRAME] == raw[n..n + FRAME] && long[FRAME..] == [];
    } else {
      var rest := raw[FRAME..];
      assert long[FRAME..] == rest[..n - FRAME + FRAME] && short[FRAME..] == rest[..n - FRAME];
      assert long[..FRAME] == short[..FRAME];
      assert rest[n - FRAME..n] == raw[n..n + FRAME];
      SamplesGrow(places, sample, rest, n - FRAME);
    }
  }

  /** Between `from` and `at` stand the samples, around them what was there. */
  ghost predicate Filled(was: seq<byte>, app: seq<byte>, from: nat, at: nat, samples: seq<byte>) {
    && |app| == |was| && from <= at <= |app|
    && app[..from] == was[..from] && app[at..] == was[at..] && app[from..at] == samples
  }

  /** The bytes of samples in `n` bytes of frames. */
  function Out(n: nat, sample: nat): nat {
    if n < FRAME then 0 else sample + Out(n - FRAME, sample)
  }

  lemma {:induction false} OutIs(n: nat, sample: nat)
    ensures Out(n, sample) == n / FRAME * sample
  {
    if n >= FRAME {
      OutIs(n - FRAME, sample);
      assert n / FRAME == (n - FRAME) / FRAME + 1;
      OutStep(n / FRAME, sample);
    } else {
      assert n / FRAME == 0;
    }
  }

  /** The bytes needed from the ring for the bytes still missing in the buffer. */
  lemma Needed(left: nat, sample: nat)
    requires (sample == 2 || sample == 4 || sample == 8) && left % sample == 0
    ensures left * (FRAME / sample) % FRAME == 0 && left * (FRAME / sample) / FRAME * sample == left
  {
    var q := left / sample;
    if sample == 2 {
      EightTimes(q, left * 4);
    } else if sample == 4 {
      EightTimes(q, left * 2);
    } else {
      EightTimes(q, left * 1);
    }
  }

  lemma EightTimes(q: nat, n: nat)
    requires n == 8 * q
    ensures n % FRAME == 0 && n / FRAME == q
  {
  }

  /** One frame: the inner loop of fill_appbuf_from_ringbuf_non_blocking. */
  method TakeFrame(ring: Ring, app: array<byte>, at: nat, places: seq<int>, sample: nat)
    requires ring.Valid() && |ring.Contents()| >= FRAME && FrameMap(places, sample) && at + sample <= app.Length
    requires app != ring.buffer
    modifies ring`head, app
    ensures ring.Valid() && ring.Contents() == old(ring.Contents())[FRAME..]
    ensures app[at..at + sample] == Picked(places, sample, old(ring.Contents())[..FRAME])
    ensures app[..at] == old(app[..at]) && app[at + sample..] == old(app[at + sample..])
  {
    ghost var raw := ring.Contents();
    for i := 0 to FRAME
      invariant ring.Valid() && ring.Contents() == raw[i..]
      invariant forall j | 0 <= j < i && places[j] != -1 :: app[at + places[j]] == raw[j]
      invariant forall k | 0 <= k < at || at + sample <= k < app.Length :: app[k] == old(app[k])
    {
      var ok, data := ring.Pop();
      assert data == raw[i] && ring.Contents() == raw[i + 1..] by { HeadOf(raw, i, data, ring.Contents()); }
      if places[i] != -1 {
        app[at + places[i]] := data;
      }
    }
    ghost var picked := Picked(places, sample, raw[..FRAME]);
    forall k | 0 <= k < sample ensures app[at + k] == picked[k] {
      var j := From(places, sample, k);
      assert app[at + places[j]] == raw[j];
    }
  }

  lemma HeadOf(raw: seq<byte>, i: nat, d: byte, rest: seq<byte>)
    requires i < |raw| && [d] + rest == raw[i..]
    ensures d == raw[i] && rest == raw[i + 1..]
  {
    assert ([d] + rest)[0] == raw[i..][0];
    assert ([d] + rest)[1..] == raw[i..][1..];
  }

  /** A buffer that several interrupts fill. */
  class Receiver {
    const ring: Ring
    const app: array<byte>
    const places: seq<int>
    /** appbuf_sample_size_in_bytes */
    const sample: nat
    /** SIZEOF_NON_BLOCKING_COPY_IN_BYTES, which the port sets to whole frames */
    const block: nat
    var index: nat
    var busy: bool

    ghost predicate Valid()
      reads this, ring
    {
      && ring.Valid() && FrameMap(places, sample) && app != ring.buffer && block % FRAME == 0
      && index <= app.Length && index % sample == 0 && app.Length % sample == 0
    }

    constructor (ring: Ring, app: array<byte>, places: seq<int>, sample: nat, block: nat)
      requires ring.Valid() && FrameMap(places, sample) && app != ring.buffer && block % FRAME == 0
               && app.Length % sample == 0
      ensures Valid() && this.ring == ring && this.app == app && this.places == places && this.sample == sample
              && this.block == block
      ensures index == 0 && busy
    {
      this.ring, this.app, this.places, this.sample, this.block := ring, app, places, sample, block;
      index, busy := 0, true;
    }

    /** How many bytes of the ring the next interrupt wants. */
    ghost function Wanted(): nat
      requires Valid()
      reads this, ring
    {
      Least(block, (app.Length - index) * (FRAME / sample))
    }

    /** `done` bytes of `raw` are out of the ring, their samples in the buffer from `index` to `at`. */
    ghost predicate Filling(was: seq<byte>, raw: seq<byte>, done: nat, at: nat)
      requires FrameMap(places, sample)
      reads this, app, ring, ring.buffer
    {
      && ring.Valid() && done <= |raw| && done % FRAME == 0 && ring.Contents() == raw[done..]
      && Filled(was, app[..], index, at, Samples(places, sample, raw[..done]))
    }

    /** One turn of the loop over the frames. */
    method TakeNext(at: nat, ghost was: seq<byte>, ghost raw: seq<byte>, ghost done: nat)
      requires FrameMap(places, sample) && app != ring.buffer && Filling(was, raw, done, at)
      requires done + FRAME <= |raw| && at + sample <= app.Length
      modifies ring`head, app
      ensures Filling(was, raw, done + FRAME, at + sample)
    {
      SamplesGrow(places, sample, raw, done);
      ghost var before, samples := app[..], Samples(places, sample, raw[..done]);
      TakeFrame(ring, app, at, places, sample);
      assert raw[done..][..FRAME] == raw[done..done + FRAME] && raw[done..][FRAME..] == raw[done + FRAME..];
      FilledMore(was, before, app[..], index, at, samples, Picked(places, sample, raw[done..done + FRAME]));
    }

    /** The loop over the frames. */
    method TakeFrames(needed: nat) returns (copied: nat)
      requires Valid() && needed <= |ring.Contents()| && needed % FRAME == 0
               && index + Out(needed, sample) <= app.Length
      modifies ring`head, app
      ensures copied == Out(needed, sample)
      ensures Filling(old(app[..]), old(ring.Contents()), needed, index + Out(needed, sample))
    {
      ghost var raw, was := ring.Contents(), app[..];
      var left, at: nat := needed, index;
      copied := 0;
      assert raw[..0] == [] && raw[0..] == raw && app[index..at] == [];
      while left > 0
        invariant index == old(index) && 0 <= left <= needed && left % FRAME == 0
        invariant copied + Out(left, sample) == Out(needed, sample) && at == index + copied
        invariant Filling(was, raw, needed - left, at)
      {
        FrameLess(needed, left, sample);
        TakeNext(at, was, raw, needed - left);
        copied := copied + sample;
        at := at + sample;
        left := left - FRAME;
      }
    }

    /** fill_appbuf_from_ringbuf_non_blocking: the next frames come in whole blocks or not at all. */
    method Interrupt()
      requires Valid() && busy
      modifies this`index, this`busy, ring`head, app
      ensures Valid()
      ensures var n := old(Wanted());
              if n <= |old(ring.Contents())|
              then && index == old(index) + Out(n, sample) && busy == (index < app.Length)
                   && ring.Contents() == old(ring.Contents())[n..]
                   && Filled(old(app[..]), app[..], old(index), index,
                             Samples(places, sample, old(ring.Contents())[..n]))
              else index == old(index) && busy && ring.Contents() == old(ring.Contents()) && app[..] == old(app[..])
    {
      var missing := (app.Length - index) * (FRAME / sample);
      var needed := if block < missing then block else missing;
      WantedFits(block, app.Length, index, sample);
      assert needed == Wanted();
      var available := ring.AvailableData();
      if available >= needed {
        var copied := TakeFrames(needed);
        index := index + copied;
        if index >= app.Length {
          busy := false;
        }
      }
    }
  }

  lemma FrameLess(needed: nat, left: nat, sample: nat)
    requires 0 < left <= needed && left % FRAME == 0 && needed % FRAME == 0
    ensures left >= FRAME && (left - FRAME) % FRAME == 0 && (needed - left) % FRAME == 0
    ensures (needed - left + FRAME) % FRAME == 0 && needed - (left - FRAME) == needed - left + FRAME
    ensures Out(left, sample) == Out(left - FRAME, sample) + sample
  {
  }

  lemma OutStep(q: nat, sample: nat)
    requires q > 0
    ensures q * sample == (q - 1) * sample + sample
  {
  }

  lemma FilledMore(was: seq<byte>, s: seq<byte>, t: seq<byte>, from: nat, at: nat, samples: seq<byte>, more: seq<byte>)
    requires Filled(was, s, from, at, samples) && at + |more| <= |s| == |t|
    requires t[..at] == s[..at] && t[at + |more|..] == s[at + |more|..] && t[at..at + |more|] == more
    ensures Filled(was, t, from, at + |more|, samples + more)
  {
    assert t[from..at] == t[..at][from..] && s[from..at] == s[..at][from..];
    assert t[..from] == t[..at][..from] && s[..from] == s[..at][..from];
    assert t[from..at + |more|] == t[from..at] + t[at..at + |more|];
    assert was[at + |more|..] == was[at..][|more|..] && s[at + |more|..] == s[at..][|more|..];
  }

  lemma WantedFits(block: nat, length: nat, index: nat, sample: nat)
    requires (sample == 2 || sample == 4 || sample == 8) && index <= length && block % FRAME == 0
    requires length % sample == 0 && index % sample == 0
    ensures var n := Least(block, (length - index) * (FRAME / sample));
            n % FRAME == 0 && index + Out(n, sample) <= length && (index + Out(n, sample)) % sample == 0
  {
    var left := length - index;
    var all := left * (FRAME / sample);
    Whole(length, index, sample);
    Needed(left, sample);
    var n := Least(block, all);
    OutIs(n, sample);
    OutMonotone(n / FRAME, all / FRAME, sample);
    Multiples(index, n / FRAME, sample);
  }

  lemma Whole(length: nat, index: nat, sample: nat)
    requires (sample == 2 || sample == 4 || sample == 8) && index <= length && length % sample == 0
             && index % sample == 0
    ensures (length - index) % sample == 0
  {
  }

  lemma OutMonotone(a: nat, b: nat, sample: nat)
    requires a <= b
    ensures a * sample <= b * sample
  {
  }

  lemma Multiples(index: nat, q: nat, sample: nat)
    requires (sample == 2 || sample == 4 || sample == 8) && index % sample == 0
    ensures (index + q * sample) % sample == 0
  {
    var j := index / sample;
    if sample == 2 {
      assert index + q * 2 == 2 * (j + q);
    } else if sample == 4 {
      assert index + q * 4 == 4 * (j + q);
    } else {
      assert index + q * 8 == 8 * (j + q);
    }
  }
}
