/** Ring buffers with one producer and one consumer: the audio ring, used by a thread and an
    interrupt, and the keyboard ring, used by an interrupt handler and the reader it interrupts. */
module Rings {
  import opened ByteSeqs

  // ---------- what a ring holds ----------

  /** One slot on, as the sources compute it. */
  function Next(i: nat, size: nat): nat
    requires size > 0
  {
    (i + 1) % size
  }

  function At(head: nat, k: nat, size: nat): nat
    requires head < size && k <= size
  {
    if head + k < size then head + k else head + k - size
  }

  function Count(head: nat, tail: nat, size: nat): (n: nat)
    requires head < size && tail < size
    ensures n < size && At(head, n, size) == tail
  {
    if tail >= head then tail - head else tail + size - head
  }

  /** The bytes from `head` up to `tail`, cyclically. */
  function Held(buf: seq<byte>, head: nat, tail: nat): (h: seq<byte>)
    requires head < |buf| && tail < |buf|
    ensures |h| == Count(head, tail, |buf|)
  {
    seq(Count(head, tail, |buf|), i requires 0 <= i < Count(head, tail, |buf|) => buf[At(head, i, |buf|)])
  }

  lemma NextIs(i: nat, size: nat)
    requires i < size
    ensures Next(i, size) == if i + 1 < size then i + 1 else 0
  {
  }

  /** A byte stored at `tail` and then taken in. */
  lemma HeldPush(buf: seq<byte>, head: nat, tail: nat, d: byte)
    requires head < |buf| && tail < |buf| && Next(tail, |buf|) != head
    ensures Held(buf[tail := d], head, tail) == Held(buf, head, tail)
    ensures Held(buf[tail := d], head, Next(tail, |buf|)) == Held(buf, head, tail) + [d]
  {
    NextIs(tail, |buf|);
  }

  lemma HeldPop(buf: seq<byte>, head: nat, tail: nat)
    requires head < |buf| && tail < |buf| && head != tail
    ensures Held(buf, head, tail) == [buf[head]] + Held(buf, Next(head, |buf|), tail)
  {
    NextIs(head, |buf|);
    var h, n := Held(buf, head, tail), Next(head, |buf|);
    forall i | 0 <= i < |h| ensures h[i] == ([buf[head]] + Held(buf, n, tail))[i] {
      if i > 0 { assert At(head, i, |buf|) == At(n, i - 1, |buf|); }
    }
  }

  lemma HeldFull(buf: seq<byte>, head: nat, tail: nat)
    requires head < |buf| && tail < |buf|
    ensures Next(tail, |buf|) == head <==> |Held(buf, head, tail)| == |buf| - 1
    ensures head == tail <==> Held(buf, head, tail) == []
  {
    NextIs(tail, |buf|);
  }

  lemma Difference(head: nat, tail: nat, size: nat)
    requires head < size && tail < size
    ensures (tail + size - head) % size == Count(head, tail, size)
  {
    if tail >= head { WholeTurn(tail - head, size); }
  }

  lemma WholeTurn(d: nat, size: nat)
    requires d < size
    ensures (d + size) % size == d
  {
    assert d + size == size * 1 + d;
  }

  // ---------- the ring used by one party at a time ----------

  class Ring {
    const buffer: array<byte>
    var head: nat
    var tail: nat

    ghost predicate Valid()
      reads this
    {
      head < buffer.Length && tail < buffer.Length
    }

    ghost function Contents(): seq<byte>
      requires Valid()
      reads this, buffer
    {
      Held(buffer[..], head, tail)
    }

    /** ringbuf_init */
    constructor (size: nat)
      requires size > 0
      ensures Valid() && fresh(buffer) && buffer.Length == size && Contents() == []
    {
      buffer := new byte[size];
      head, tail := 0, 0;
    }

    /** ringbuf_push */
    method Push(data: byte) returns (ok: bool)
      requires Valid()
      modifies buffer, `tail
      ensures Valid() && ok == (|old(Contents())| < buffer.Length - 1)
      ensures Contents() == if ok then old(Contents()) + [data] else old(Contents())
    {
      HeldFull(buffer[..], head, tail);
      var next := (tail + 1) % buffer.Length;
      if next != head {
        HeldPush(buffer[..], head, tail, data);
        buffer[tail] := data;
        assert buffer[..] == old(buffer[..])[tail := data];
        tail := next;
        return true;
      }
      return false;
    }

    /** ringbuf_pop; 0 stands for the untouched `*data`. */
    method Pop() returns (ok: bool, data: byte)
      requires Valid()
      modifies `head
      ensures Valid() && ok == (old(Contents()) != [])
      ensures if ok then [data] + Contents() == old(Contents()) else Contents() == old(Contents())
    {
      HeldFull(buffer[..], head, tail);
      if head == tail {
        return false, 0;
      }
      HeldPop(buffer[..], head, tail);
      data := buffer[head];
      head := (head + 1) % buffer.Length;
      ok := true;
    }

    /** ringbuf_available_data; the sources add `size` before the remainder because the
        difference may be negative. */
    method AvailableData() returns (n: nat)
      requires Valid()
      ensures n == |Contents()|
    {
      Difference(head, tail, buffer.Length);
      n := (tail + buffer.Length - head) % buffer.Length;
    }

    /** ringbuf_available_space */
    method AvailableSpace() returns (n: nat)
      requires Valid()
      ensures n == buffer.Length - 1 - |Contents()|
    {
      var d := AvailableData();
      n := buffer.Length - d - 1;
    }

    /** The loop of copy_appbuf_to_ringbuf_non_blocking. */
    method PushAll(app: seq<byte>, from: nat, n: nat)
      requires Valid() && from + n <= |app| && n <= buffer.Length - 1 - |Contents()|
      modifies this`tail, buffer
      ensures Valid() && Contents() == old(Contents()) + app[from..from + n]
    {
      assert Contents() == old(Contents()) + app[from..from];
      for i := 0 to n
        invariant Valid() && head == old(head)
        invariant Contents() == old(Contents()) + app[from..from + i]
      {
        var ok := Push(app[from + i]);
        GrowSlice(old(Contents()), app, from, i);
      }
    }

    /** copy_appbuf_to_ringbuf for asyncio: as much as fits. */
    method CopyIn(app: seq<byte>) returns (n: nat)
      requires Valid()
      modifies this`tail, buffer
      ensures Valid()
      ensures n == Least(|app|, buffer.Length - 1 - |old(Contents())|)
      ensures Contents() == old(Contents()) + app[0..n]
    {
      n := 0;
      assert Contents() == old(Contents()) + app[0..0];
      while n < |app|
        invariant Valid() && head == old(head) && n <= |app| && n <= buffer.Length - 1 - |old(Contents())|
        invariant Contents() == old(Contents()) + app[0..n]
      {
        var ok := Push(app[n]);
        if !ok {
          break;
        }
        GrowSlice(old(Contents()), app, 0, n);
        n := n + 1;
      }
    }
  }

  lemma GrowSlice(s: seq<byte>, app: seq<byte>, from: nat, i: nat)
    requires from + i < |app|
    ensures s + app[from..from + i] + [app[from + i]] == s + app[from..from + i + 1]
  {
  }

  function Least(a: int, b: int): int { if a < b then a else b }

  /** A copy that several interrupts carry on. */
  class Transfer {
    const ring: Ring
    const app: seq<byte>
    /** SIZEOF_NON_BLOCKING_COPY_IN_BYTES, which the port sets */
    const block: nat
    var index: nat
    var busy: bool

    ghost predicate Valid()
      reads this, ring
    {
      ring.Valid() && index <= |app|
    }

    constructor (ring: Ring, app: seq<byte>, block: nat)
      requires ring.Valid()
      ensures Valid() && this.ring == ring && this.app == app && this.block == block && index == 0 && busy
    {
      this.ring, this.app, this.block := ring, app, block;
      index, busy := 0, true;
    }

    /** copy_appbuf_to_ringbuf_non_blocking: the next block goes in whole or not at all. */
    method Interrupt()
      requires Valid() && busy
      modifies this`index, this`busy, ring`tail, ring.buffer
      ensures Valid()
      ensures var n := Least(block, |app| - old(index));
              if n <= ring.buffer.Length - 1 - |old(ring.Contents())|
              then && index == old(index) + n && busy == (index < |app|)
                   && ring.Contents() == old(ring.Contents()) + app[old(index)..index]
              else index == old(index) && busy && ring.Contents() == old(ring.Contents())
    {
      var left := |app| - index;
      var n := if block < left then block else left;
      var space := ring.AvailableSpace();
      if space >= n {
        ring.PushAll(app, index, n);
        index := index + n;
        if index >= |app| {
          busy := false;
        }
      }
    }
  }
}
