/** WebSocket framing (sections 5.2 and 5.3 of RFC 6455): a frame parser that can stop after any
    byte and resume, over a stream that delivers its bytes in any portions, and a frame writer. */
module WebSocket {
  import opened ByteSeqs

  // ---------- frames ----------

  /** A frame as its sender means it: `payload` is not masked. */
  datatype Frame = Frame(first: byte, long: bool, masked: bool, key: seq<byte>, payload: seq<byte>)

  const FRAME_CLOSE: byte := 8

  function Opcode(first: byte): byte { first & 0x0f }

  predicate IsControl(first: byte) { Opcode(first) >= FRAME_CLOSE }

  /** Section 5.5: the opcodes with the high bit set are those of control frames, and 8 is close. */
  lemma ControlBit(f: Frame)
    ensures IsControl(f.first) <==> f.first & 0x08 != 0
    ensures IsClose(f) <==> f.first & 0x0f == 0x08
  {
  }

  /** The frames that the reader takes: FIN set, below 64 KiB. */
  predicate Readable(f: Frame) {
    && f.first & 0x80 != 0
    && |f.key| == 4 && (!f.masked ==> f.key == [0, 0, 0, 0])
    && |f.payload| < 0x10000 && (!f.long ==> |f.payload| < 126)
  }

  function LengthByte(f: Frame): byte
    requires Readable(f)
  {
    Flagged(Length7(f), f.masked)
  }

  /** The seven-bit length: 126 announces two more bytes. */
  function Length7(f: Frame): byte
    requires Readable(f)
  {
    if f.long then 126 else |f.payload| as byte
  }

  function Flagged(n: byte, flag: bool): byte { n | (if flag then 0x80 else 0) }

  /** The optional part of the header: the extended length, then the masking key. */
  function Options(f: Frame): seq<byte>
    requires Readable(f)
  {
    (if f.long then [(|f.payload| / 256) as byte, (|f.payload| % 256) as byte] else [])
    + (if f.masked then f.key else [])
  }

  function Mask(key: seq<byte>, p: seq<byte>, at: nat): (m: seq<byte>)
    requires |key| == 4
    ensures |m| == |p| && forall i | 0 <= i < |p| :: m[i] == p[i] ^ key[(at + i) % 4]
  {
    seq(|p|, i requires 0 <= i < |p| => p[i] ^ key[(at + i) % 4])
  }

  function FrameBytes(f: Frame): seq<byte>
    requires Readable(f)
  {
    [f.first, LengthByte(f)] + Options(f) + Mask(f.key, f.payload, 0)
  }

  predicate AllReadable(fs: seq<Frame>) { forall i | 0 <= i < |fs| :: Readable(fs[i]) }

  function Wire(fs: seq<Frame>): seq<byte>
    requires AllReadable(fs)
  {
    if fs == [] then [] else FrameBytes(fs[0]) + Wire(fs[1..])
  }

  /** The payload as it is sent. */
  function Body(f: Frame): seq<byte>
    requires Readable(f)
  {
    Mask(f.key, f.payload, 0)
  }

  lemma UnmaskMasked(key: seq<byte>, p: seq<byte>, at: nat)
    requires |key| == 4
    ensures Mask(key, Mask(key, p, at), at) == p
  {
    forall i | 0 <= i < |p| ensures Mask(key, Mask(key, p, at), at)[i] == p[i] {
      XorTwice(p[i], key[(at + i) % 4]);
    }
  }

  lemma SevenBits(n: byte, flag: bool)
    requires n < 0x80
    ensures Flagged(n, flag) & 0x7f == n && (Flagged(n, flag) & 0x80 != 0 <==> flag)
  {
  }

  lemma SmallLength(n: nat)
    requires n < 126
    ensures (n as byte) < 126 && (n as byte) as nat == n
  {
    ByteRange(n);
    BelowMark(n as byte);
  }

  lemma BelowMark(b: byte)
    requires b as int < 126
    ensures b < 126
  {
  }

  /** The length byte gives back the length code and the mask flag. */
  lemma LengthByteSays(f: Frame)
    requires Readable(f)
    ensures LengthByte(f) & 0x7f == Length7(f)
    ensures LengthByte(f) & 0x80 != 0 <==> f.masked
    ensures Length7(f) <= 126 && (Length7(f) == 126 <==> f.long)
    ensures !f.long ==> Length7(f) as nat == |f.payload|
  {
    if !f.long { SmallLength(|f.payload|); }
    SevenBits(Length7(f), f.masked);
  }

  // ---------- the stream ----------

  datatype Status = Data(n: nat) | End | WouldBlock

  /** The socket: bytes to come, in portions that a schedule of the environment decides
      (zero: nothing yet), and bytes written. */
  class Socket {
    const input: seq<byte>
    var pos: nat
    var schedule: seq<nat>
    var output: seq<byte>

    ghost predicate Valid()
      reads this
    {
      pos <= |input|
    }

    /** The environment has had its turn. */
    static ghost predicate Tried(before: seq<nat>, after: seq<nat>) {
      |after| <= |before| && (after == [] || |after| < |before|)
    }

    /** Every turn brings a byte at least. */
    static ghost predicate Positive(schedule: seq<nat>) { forall i | 0 <= i < |schedule| :: schedule[i] > 0 }

    /** The turns since then, if none came to nothing, have brought a byte each, or the stream is at
        its end. */
    ghost predicate Steady(before: seq<nat>, from: nat)
      reads this
    {
      && |schedule| <= |before| && from <= pos
      && (Positive(before) ==> Positive(schedule) && (pos == |input| || |before| - |schedule| <= pos - from))
    }

    ghost function Unread(): seq<byte>
      reads this
      requires Valid()
    {
      input[pos..]
    }

    constructor (input: seq<byte>, schedule: seq<nat>)
      ensures Valid() && Unread() == input && output == [] && pos == 0
      ensures this.input == input && this.schedule == schedule
    {
      this.input, this.schedule := input, schedule;
      pos, output := 0, [];
    }

    /** At most `size` bytes into `dest` from `at` on. */
    method Read(dest: array<byte>, at: nat, size: nat) returns (r: Status)
      requires Valid() && at + size <= dest.Length
      modifies this`pos, this`schedule, dest
      ensures Valid()
      ensures var n := if r.Data? then r.n else 0;
              && (r.Data? ==> 0 < n) && n <= size && n <= |old(Unread())|
              && dest[..] == old(dest[..at]) + old(Unread())[..n] + old(dest[at + n..])
              && Unread() == old(Unread())[n..]
      ensures r == End && size > 0 ==> Unread() == []
      ensures Tried(old(schedule), schedule) && (size > 0 ==> Steady(old(schedule), old(pos)))
    {
      if schedule == [] || schedule[0] == 0 {
        schedule := if schedule == [] then [] else schedule[1..];
        return WouldBlock;
      }
      var n := schedule[0];
      n := if n < size then n else size;
      n := if n < |input| - pos then n else |input| - pos;
      schedule := schedule[1..];
      if n == 0 {
        return End;
      }
      for i := 0 to n
        invariant pos == old(pos) && schedule == old(schedule)[1..]
        invariant forall k | 0 <= k < dest.Length ::
                    dest[k] == if at <= k < at + i then input[pos + (k - at)] else old(dest[k])
      {
        dest[at + i] := input[pos + i];
      }
      pos := pos + n;
      return Data(n);
    }

    method Write(b: seq<byte>)
      modifies this`output
      ensures output == old(output) + b
    {
      output := output + b;
    }
  }

  // ---------- the websocket object ----------

  datatype Phase = FrameHeader | FrameOpt | Payload | Control

  const NO_KEY: seq<byte> := [0, 0, 0, 0]

  /** The frame that a write sends. */
  function SentFrame(opts: byte, b: seq<byte>): Frame {
    Frame(0x80 | Opcode(opts), |b| >= 126, false, NO_KEY, b)
  }

  lemma SentOpcode(opts: byte)
    ensures Opcode(0x80 | Opcode(opts)) == Opcode(opts) && (0x80 | Opcode(opts)) & 0x80 != 0
  {
  }

  lemma SentBit(opts: byte)
    ensures (0x80 | Opcode(opts)) & 0x08 != 0 <==> opts & 0x08 != 0
  {
  }

  /** The payload of a close frame's answer; it is sent with `Write`, so it becomes the payload
      of a data frame. */
  const CLOSE_RESPONSE: seq<byte> := [0x88, 0]

  /** The bytes of a write. */
  function SentBytes(opts: byte, b: seq<byte>): seq<byte>
    requires |b| < 0x10000
  {
    [0x80 | Opcode(opts)]
    + (if |b| < 126 then [|b| as byte] else [126, (|b| / 256) as byte, (|b| % 256) as byte])
    + b
  }

  /** The bytes that a call returns. */
  function Given(r: Status, out: seq<byte>): seq<byte> { if r.Data? && r.n <= |out| then out[..r.n] else [] }

  /** What one call does that returns `o`: from the place `from` in the first of the frames `fs` to the
      place `now` in the first of `rest`, with the frames `done` finished in between. Of a control frame
      the last portion, which is no longer than `size`, is dropped; any other portion is returned, and
      ends the call. */
  predicate Handed(o: seq<byte>, size: nat, from: nat, fs: seq<Frame>, now: nat, rest: seq<Frame>, done: seq<Frame>)
    decreases done
  {
    if done == [] then
      rest == fs && now == from + |o| && |o| <= size && if fs == [] then now == 0 else PartOf(o, from, now, fs[0])
    else
      && fs != [] && done[0] == fs[0] && from <= |fs[0].payload| && |fs[0].payload| - from <= size
      && if IsControl(fs[0].first) || from == |fs[0].payload| then Handed(o, size, 0, fs[1..], now, rest, done[1..])
         else o == fs[0].payload[from..] && now == 0 && rest == fs[1..] && done == fs[..1]
  }

  /** A portion that does not finish the frame; an object stands before the end of a frame only if it
      has no payload. */
  predicate PartOf(o: seq<byte>, from: nat, now: nat, f: Frame) {
    from <= now <= |f.payload| && o == f.payload[from..now] && (o != [] ==> now < |f.payload|)
  }

  predicate IsClose(f: Frame) { Opcode(f.first) == FRAME_CLOSE }

  /** The answers to the close frames among those finished. */
  function Replies(opts: byte, done: seq<Frame>): seq<byte> {
    if done == [] then []
    else (if IsClose(done[0]) then SentBytes(opts, CLOSE_RESPONSE) else []) + Replies(opts, done[1..])
  }

  ghost predicate Closed(done: seq<Frame>) { done != [] && IsClose(done[|done| - 1]) }

  /** A close frame is the last one, and ends the call. */
  ghost predicate ClosesLast(done: seq<Frame>, ended: bool) {
    done == [] || ((IsClose(done[0]) ==> |done| == 1 && ended) && ClosesLast(done[1..], ended))
  }

  /** The frames `done` are finished, and the close frames among them are answered. */
  ghost predicate Answered(opts: byte, o: seq<byte>, o': seq<byte>, fs: seq<Frame>, fs': seq<Frame>,
                           done: seq<Frame>, ended: bool) {
    fs == done + fs' && o' == o + Replies(opts, done) && ClosesLast(done, ended)
  }

  /** No payload bytes are outstanding. */
  predicate AllGone(from: nat, fs: seq<Frame>) {
    fs == [] || (from == |fs[0].payload| && AllGone(0, fs[1..]))
  }

  function Rank(p: Phase): nat {
    match p case FrameHeader => 2 case FrameOpt => 1 case Payload => 0 case Control => 0
  }

  class Connection {
    const sock: Socket
    const buf: array<byte>
    var phase: Phase
    var toRecv: nat
    var bufPos: nat
    var msgSize: nat
    var mask: seq<byte>
    var maskPos: nat
    var opts: byte
    var wsFlags: byte
    var lastFlags: byte
    /** The frames still to be finished, and how much of the first one's payload is taken. */
    ghost var frames: seq<Frame>
    ghost var taken: nat

    ghost predicate Valid()
      reads this, sock, buf
    {
      Settled() && (InPayload() && msgSize == 0 ==> taken == 0)
    }

    ghost predicate InPayload()
      reads this
    {
      phase == Payload || phase == Control
    }

    /** Between two calls: at least one byte of what is being read is still to come. */
    ghost predicate Idle()
      reads this
    {
      if InPayload() then msgSize > 0 else toRecv > 0
    }

    /** The last byte of a payload may have been taken, and the frame is not finished yet. */
    ghost predicate Settled()
      reads this, sock, buf
    {
      && Sound()
      && (phase == FrameHeader ==> AtHeader())
      && (phase == FrameOpt ==> AtOptions())
      && (InPayload() ==> AtPayload())
    }

    ghost predicate Sound()
      reads this, sock, buf
    {
      sock.Valid() && buf.Length == 6 && bufPos + toRecv <= 6 && AllReadable(frames)
    }

    /** The header bytes at hand and all that follow. */
    ghost function Ahead(): seq<byte>
      requires Sound()
      reads this, sock, buf
    {
      buf[..bufPos] + sock.Unread()
    }

    ghost predicate AtHeader()
      requires Sound()
      reads this, sock, buf
    {
      bufPos + toRecv == 2 && maskPos == 0 && Ahead() == Wire(frames)
    }

    ghost predicate AtOptions()
      requires Sound()
      reads this, sock, buf
    {
      && frames != [] && lastFlags == frames[0].first && mask == NO_KEY && maskPos == 0
      && Options(frames[0]) != [] && bufPos + toRecv == |Options(frames[0])|
      && msgSize == Length7(frames[0]) as nat
      && Ahead() == Options(frames[0]) + Body(frames[0]) + Wire(frames[1..])
    }

    ghost predicate AtPayload()
      requires Sound()
      reads this, sock, buf
    {
      PayloadRead(0)
    }

    /** `n` bytes more of the payload are out of the stream than `taken` says. */
    ghost predicate PayloadRead(n: nat)
      requires Sound()
      reads this, sock, buf
    {
      && frames != [] && lastFlags == frames[0].first && mask == frames[0].key
      && (phase == Control <==> IsControl(frames[0].first))
      && toRecv == 0 && bufPos == 0
      && n <= msgSize == |frames[0].payload| - taken && maskPos == (taken + n) % 256
      && sock.Unread() == Body(frames[0])[taken + n..] + Wire(frames[1..])
    }

    ghost predicate Lower(fs: seq<Frame>, p: Phase)
      reads this
    {
      |frames| < |fs| || (|frames| == |fs| && Rank(phase) < Rank(p))
    }

    /** A call gives up only when the stream had nothing this time, and reports the end only when
        the stream is at its end or a close frame was finished. */
    ghost predicate Patient(r: Status, before: seq<nat>, from: nat, closed: bool)
      requires sock.Valid()
      reads this, sock
    {
      && sock.Steady(before, from)
      && (r == WouldBlock ==> Socket.Tried(before, sock.schedule))
      && (r == End ==> closed || sock.Unread() == [])
    }

    /** How much of the first frame's payload is gone. */
    ghost function Begun(): nat
      reads this
    {
      if InPayload() then taken else 0
    }

    constructor (sock: Socket, ghost frames: seq<Frame>)
      requires sock.Valid() && AllReadable(frames) && sock.Unread() == Wire(frames)
      ensures Valid() && fresh(buf) && this.sock == sock && this.frames == frames && Begun() == 0
      ensures opts == 1 && Idle()
    {
      this.sock, this.frames := sock, frames;
      buf := new byte[6];
      phase, toRecv, maskPos, bufPos := FrameHeader, 2, 0, 0;
      opts := 1;
      msgSize, mask, wsFlags, lastFlags, taken := 0, NO_KEY, 0, 0, 0;
    }

    /** The bytes still missing from the header part being read. */
    method Fill() returns (r: Status)
      requires Sound() && toRecv != 0
      modifies `toRecv, `bufPos, sock`pos, sock`schedule, buf
      ensures Sound() && Ahead() == old(Ahead()) && bufPos + toRecv == old(bufPos + toRecv)
      ensures r.Data? <==> toRecv == 0
      ensures Patient(r, old(sock.schedule), old(sock.pos), false)
    {
      r := sock.Read(buf, bufPos, toRecv);
      var n := if r.Data? then r.n else 0;
      assert buf[..bufPos + n] + sock.Unread() == old(Ahead()) by {
        Moved(old(buf[..]), old(sock.Unread()), buf[..], bufPos, n);
      }
      bufPos := bufPos + n;
      toRecv := toRecv - n;
      if r.Data? && toRecv != 0 {
        r := WouldBlock;
      }
    }

    method FillHeader() returns (r: Status)
      requires Valid() && toRecv != 0
      modifies `toRecv, `bufPos, sock`pos, sock`schedule, buf
      ensures Valid() && (r.Data? <==> toRecv == 0)
      ensures Patient(r, old(sock.schedule), old(sock.pos), false)
    {
      r := Fill();
    }

    lemma HeaderRead()
      requires Sound() && AtHeader() && toRecv == 0
      ensures frames != [] && buf[0] == frames[0].first && buf[1] == LengthByte(frames[0])
      ensures sock.Unread() == Options(frames[0]) + Body(frames[0]) + Wire(frames[1..])
    {
      assert Wire(frames) == buf[..2] + sock.Unread();
      WireHead(frames);
      SameCut(buf[..2], sock.Unread(), Wire(frames)[..2], Wire(frames)[2..]);
    }

    /** What the second header byte announces. */
    static method Announced(b: byte, ghost f: Frame) returns (sz: byte, toRecv: nat)
      requires Readable(f) && b == LengthByte(f)
      ensures sz == Length7(f) && toRecv == |Options(f)|
    {
      LengthByteSays(f);
      OptionsSay(f, Options(f));
      toRecv := 0;
      sz := b & 0x7f;
      if sz == 126 {
        toRecv := toRecv + 2;
      } else if sz == 127 {
        assert false;
      }
      if b & 0x80 != 0 {
        toRecv := toRecv + 4;
      }
    }

    /** The header is complete. */
    method Enter()
      requires Sound() && frames != [] && toRecv == 0 && bufPos == 0 && maskPos == 0
      requires lastFlags == frames[0].first && mask == frames[0].key && msgSize == |frames[0].payload|
      requires sock.Unread() == Body(frames[0]) + Wire(frames[1..])
      modifies `phase, `taken
      ensures Valid() && InPayload() && taken == 0
    {
      phase := if IsControl(lastFlags) then Control else Payload;
      taken := 0;
      EnterPayload(frames);
    }

    /** What a complete header says. */
    method TakeHeader()
      requires Sound() && AtHeader() && toRecv == 0
      modifies `toRecv, `bufPos, `msgSize, `mask, `wsFlags, `lastFlags
      ensures frames != [] && Sound() && bufPos == 0 && toRecv == |Options(frames[0])|
      ensures lastFlags == frames[0].first && msgSize == Length7(frames[0]) as nat && mask == NO_KEY
      ensures sock.Unread() == Options(frames[0]) + Body(frames[0]) + Wire(frames[1..])
    {
      HeaderRead();
      assert buf[0] & 0x80 != 0;
      lastFlags := buf[0];
      wsFlags := if Opcode(buf[0]) == 0 then (wsFlags & 0x0f) | (buf[0] & 0xf0) else buf[0];
      mask := NO_KEY;
      var sz;
      sz, toRecv := Announced(buf[1], frames[0]);
      bufPos := 0;
      msgSize := sz as nat;
    }

    /** case FRAME_HEADER */
    method OnHeader()
      requires Valid() && phase == FrameHeader && toRecv == 0
      modifies `phase, `toRecv, `bufPos, `msgSize, `mask, `wsFlags, `lastFlags, `taken
      ensures Valid() && phase != FrameHeader && Begun() == 0
    {
      TakeHeader();
      if toRecv != 0 {
        assert AtOptions() by {
          assert buf[..0] + sock.Unread() == sock.Unread();
        }
        phase := FrameOpt;
      } else {
        NoOptions(frames[0]);
        assert Options(frames[0]) + Body(frames[0]) == Body(frames[0]);
        Enter();
      }
    }

    lemma OptionsRead()
      requires Valid() && phase == FrameOpt && toRecv == 0
      ensures buf[..bufPos] == Options(frames[0])
      ensures sock.Unread() == Body(frames[0]) + Wire(frames[1..])
    {
      Associate(Options(frames[0]), Body(frames[0]), Wire(frames[1..]));
      SameCut(buf[..bufPos], sock.Unread(), Options(frames[0]), Body(frames[0]) + Wire(frames[1..]));
    }

    /** The size and the key as the optional header part gives them. */
    static method Parsed(o: seq<byte>, sz: nat, key: seq<byte>, ghost f: Frame) returns (msgSize: nat, mask: seq<byte>)
      requires Readable(f) && o == Options(f) && key == NO_KEY && sz == Length7(f) as nat
      ensures msgSize == |f.payload| && mask == f.key
    {
      OptionsSay(f, o);
      LengthByteSays(f);
      msgSize, mask := sz, key;
      if |o| % 4 == 2 {
        msgSize := o[0] as nat * 256 + o[1] as nat;
      }
      if |o| >= 4 {
        mask := o[|o| - 4..];
      }
      if f.long && f.masked { assert o[..2] == Options(f)[..2]; }
    }

    /** case FRAME_OPT */
    method OnOptions()
      requires Valid() && phase == FrameOpt && toRecv == 0
      modifies this`phase, this`bufPos, this`msgSize, this`mask, this`taken
      ensures Valid() && InPayload() && taken == 0
      ensures frames == old(frames)
    {
      OptionsRead();
      msgSize, mask := Parsed(buf[..bufPos], msgSize, mask, frames[0]);
      bufPos := 0;
      Enter();
    }

    /** The exclusive-or of the bytes just read, in place; `p` is the place in the payload. */
    method Unmask(out: array<byte>, n: nat, ghost p: nat)
      requires n <= out.Length && |mask| == 4 && maskPos == p % 256
      modifies out, `maskPos
      ensures maskPos == (p + n) % 256
      ensures out[..n] == Mask(mask, old(out[..n]), p)
    {
      for i := 0 to n
        invariant maskPos == (p + i) % 256 && mask == old(mask)
        invariant forall k | 0 <= k < i :: out[k] == old(out[k]) ^ mask[(p + k) % 4]
        invariant forall k | i <= k < out.Length :: out[k] == old(out[k])
      {
        NextPos(p + i);
        out[i] := out[i] ^ mask[maskPos % 4];
        maskPos := (maskPos + 1) % 256;
      }
    }

    /** Bytes of a body of which `t` bytes are gone. */
    method ReadPart(out: array<byte>, size: nat, ghost body: seq<byte>, ghost rest: seq<byte>, ghost t: nat)
      returns (r: Status)
      requires Sound() && 0 < size <= out.Length && t + size <= |body| && out != buf
      requires sock.Unread() == body[t..] + rest
      modifies sock`pos, sock`schedule, out
      ensures Sound() && Patient(r, old(sock.schedule), old(sock.pos), false)
      ensures !r.Data? ==> sock.Unread() == old(sock.Unread())
      ensures r.Data? ==> 0 < r.n <= size && out[..r.n] == body[t..t + r.n] && sock.Unread() == body[t + r.n..] + rest
    {
      ghost var s, o := sock.Unread(), out[..];
      r := sock.Read(out, 0, size);
      if r.Data? {
        FrontFilled(o, s, out[..], r.n);
        Portion(out[..], s, body, rest, t, r.n);
      }
    }

    /** Bytes of the payload of a frame of which `t` bytes are gone. */
    method ReadClear(out: array<byte>, size: nat, ghost f: Frame, ghost rest: seq<byte>, ghost t: nat)
      returns (r: Status)
      requires Sound() && 0 < size <= out.Length && t + size <= |f.payload| && out != buf
      requires Readable(f) && mask == f.key && maskPos == t % 256 && sock.Unread() == Body(f)[t..] + rest
      modifies `maskPos, sock`pos, sock`schedule, out
      ensures Sound() && Patient(r, old(sock.schedule), old(sock.pos), false)
      ensures var n := if r.Data? then r.n else 0;
              n <= size && maskPos == (t + n) % 256 && sock.Unread() == Body(f)[t + n..] + rest
      ensures r.Data? ==> 0 < r.n && out[..r.n] == f.payload[t..t + r.n]
    {
      r := ReadPart(out, size, Body(f), rest, t);
      if r.Data? {
        UnmaskedPart(f, t, r.n);
        Unmask(out, r.n, t);
      }
    }

    method ReadPlain(out: array<byte>, size: nat) returns (r: Status)
      requires Sound() && AtPayload() && 0 < size <= out.Length && size <= msgSize && out != buf
      modifies `maskPos, sock`pos, sock`schedule, out
      ensures Sound() && Patient(r, old(sock.schedule), old(sock.pos), false)
      ensures PayloadRead(if r.Data? then r.n else 0)
      ensures r.Data? ==> 0 < r.n <= size && out[..r.n] == frames[0].payload[taken..taken + r.n]
    {
      r := ReadClear(out, size, frames[0], Wire(frames[1..]), taken);
    }

    /** `n` more bytes of the payload are taken. */
    method Count(n: nat)
      requires Sound() && InPayload() && PayloadRead(n)
      modifies `msgSize, `taken
      ensures Settled() && taken == old(taken) + n
    {
      msgSize := msgSize - n;
      taken := taken + n;
    }

    /** Payload bytes that are there, unmasked into `out`. */
    method TakePayload(out: array<byte>, size: nat) returns (r: Status)
      requires Sound() && AtPayload() && InPayload() && msgSize != 0
      requires 0 < size <= out.Length && out != buf
      modifies `msgSize, `maskPos, `taken, sock`pos, sock`schedule, out
      ensures Settled() && Patient(r, old(sock.schedule), old(sock.pos), false)
      ensures if r.Data? then 0 < r.n <= size && taken == old(taken) + r.n
              && out[..r.n] == frames[0].payload[old(taken)..taken]
              else taken == old(taken) && msgSize == old(msgSize)
      ensures taken <= |frames[0].payload|
    {
      var n := if size < msgSize then size else msgSize;
      r := ReadPlain(out, n);
      if r.Data? {
        Count(r.n);
      }
    }

    /** Ready for the next header. */
    method Reset()
      requires Settled() && InPayload() && msgSize == 0
      modifies `phase, `toRecv, `maskPos, `bufPos, `frames, `taken
      ensures Valid() && Idle() && phase == FrameHeader && frames == old(frames[1..])
    {
      FrameOver(frames, taken);
      phase := FrameHeader;
      toRecv, maskPos, bufPos := 2, 0, 0;
      frames, taken := frames[1..], 0;
      assert Ahead() == sock.Unread();
    }

    /** no_payload: the frame is finished. */
    method EndFrame() returns (closing: bool)
      requires Settled() && InPayload() && msgSize == 0
      modifies `phase, `toRecv, `maskPos, `bufPos, `frames, `taken, sock`output
      ensures Valid() && Idle() && phase == FrameHeader && frames == old(frames[1..])
      ensures closing <==> IsClose(old(frames[0]))
      ensures sock.output == old(sock.output) + (if closing then SentBytes(opts, CLOSE_RESPONSE) else [])
    {
      var last := phase;
      Reset();
      closing := last == Control && Opcode(lastFlags) == FRAME_CLOSE;
      if closing {
        Write(CLOSE_RESPONSE);
      }
    }

    method Finish() returns (closing: bool, ghost done: seq<Frame>)
      requires Settled() && InPayload() && msgSize == 0
      modifies `phase, `toRecv, `maskPos, `bufPos, `frames, `taken, sock`output
      ensures Valid() && Idle() && phase == FrameHeader && frames == old(frames[1..])
      ensures Answered(opts, old(sock.output), sock.output, old(frames), frames, done, closing)
      ensures closing == Closed(done) == IsClose(old(frames[0])) && done == old(frames[..1])
    {
      done := frames[..1];
      OneDone(opts, sock.output, frames);
      closing := EndFrame();
    }

    /** The last portion `o` of a payload is there. */
    method Complete(got: Status, size: nat, ghost o: seq<byte>, ghost t: nat)
      returns (r: Status, again: bool, ghost done: seq<Frame>)
      requires Settled() && InPayload() && msgSize == 0 && got.Data? && t <= |frames[0].payload|
      requires o == frames[0].payload[t..] && |o| <= size
      modifies `phase, `toRecv, `maskPos, `bufPos, `frames, `taken, sock`output
      ensures Valid() && Idle() && phase == FrameHeader && |frames| < |old(frames)| && (again ==> r == WouldBlock)
      ensures r.Data? ==> r == got && !again
      ensures !r.Data? && !again ==> r == End && Closed(done)
      ensures Handed(if r.Data? then o else [], size, t, old(frames), 0, frames, done)
      ensures Answered(opts, old(sock.output), sock.output, old(frames), frames, done, !again && r == End)
    {
      LastHanded(size, t, frames);
      var last := phase;
      var closing;
      closing, done := Finish();
      r, again := got, false;
      if last == Control {
        r, again := if closing then End else WouldBlock, !closing;
      }
    }

    /** A portion of the payload, which may be its last: a control frame's is returned like any other,
        unless it is the last one. */
    method OnPart(out: array<byte>, size: nat) returns (r: Status, again: bool, ghost done: seq<Frame>)
      requires Valid() && InPayload() && msgSize != 0 && 0 < size <= out.Length && out != buf
      modifies `phase, `toRecv, `maskPos, `bufPos, `frames, `taken, `msgSize,
               sock`output, sock`pos, sock`schedule, out
      ensures Valid() && Idle() && (r.Data? ==> 0 < r.n <= size)
      ensures Handed(Given(r, out[..]), size, old(Begun()), old(frames), Begun(), frames, done)
      ensures again ==> |frames| < |old(frames)| && r == WouldBlock
      ensures Answered(opts, old(sock.output), sock.output, old(frames), frames, done, !again && r == End)
      ensures if again then sock.Steady(old(sock.schedule), old(sock.pos))
              else Patient(r, old(sock.schedule), old(sock.pos), Closed(done))
    {
      ghost var t := taken;
      again, done := false, [];
      r := TakePayload(out, size);
      NoneDone(opts, sock.output, frames, r == End);
      if msgSize == 0 {
        r, again, done := Complete(r, size, out[..r.n], t);
      }
    }

    /** case PAYLOAD and case CONTROL: `again` when the loop has to go on. */
    method OnPayload(out: array<byte>, size: nat) returns (r: Status, again: bool, ghost done: seq<Frame>)
      requires Valid() && InPayload() && 0 < size <= out.Length && out != buf
      modifies `phase, `toRecv, `maskPos, `bufPos, `frames, `taken, `msgSize,
               sock`output, sock`pos, sock`schedule, out
      ensures Valid() && Idle() && (r.Data? ==> 0 < r.n <= size)
      ensures Handed(Given(r, out[..]), size, old(Begun()), old(frames), Begun(), frames, done)
      ensures again ==> |frames| < |old(frames)| && r == WouldBlock
      ensures Answered(opts, old(sock.output), sock.output, old(frames), frames, done, !again && r == End)
      ensures if again then sock.Steady(old(sock.schedule), old(sock.pos))
              else Patient(r, old(sock.schedule), old(sock.pos), Closed(done))
    {
      if msgSize == 0 {
        var closing;
        LastHanded(size, taken, frames);
        closing, done := Finish();
        r, again := if closing then End else WouldBlock, !closing;
      } else {
        r, again, done := OnPart(out, size);
      }
    }

    /** The switch over the phase. */
    method Switch(out: array<byte>, size: nat) returns (r: Status, again: bool, ghost done: seq<Frame>)
      requires Valid() && toRecv == 0 && 0 < size <= out.Length && out != buf
      modifies this, sock`output, sock`pos, sock`schedule, out
      ensures Valid() && opts == old(opts) && (r.Data? ==> 0 < r.n <= size) && (!again ==> Idle())
      ensures Handed(Given(r, out[..]), size, old(Begun()), old(frames), Begun(), frames, done)
      ensures again ==> r == WouldBlock && Lower(old(frames), old(phase))
      ensures Answered(opts, old(sock.output), sock.output, old(frames), frames, done, !again && r == End)
      ensures if again then sock.Steady(old(sock.schedule), old(sock.pos))
              else Patient(r, old(sock.schedule), old(sock.pos), Closed(done))
    {
      r, again, done := WouldBlock, true, [];
      NoneDone(opts, sock.output, frames, false);
      if phase == FrameHeader {
        OnHeader();
      } else if phase == FrameOpt {
        OnOptions();
      } else {
        r, again, done := OnPayload(out, size);
      }
    }

    /** One turn of the loop in `Read`. */
    method Step(out: array<byte>, size: nat) returns (r: Status, again: bool, ghost done: seq<Frame>)
      requires Valid() && 0 < size <= out.Length && out != buf
      modifies this, sock`output, sock`pos, sock`schedule, out, buf
      ensures Valid() && opts == old(opts) && (r.Data? ==> 0 < r.n <= size) && (!again ==> Idle())
      ensures Handed(Given(r, out[..]), size, old(Begun()), old(frames), Begun(), frames, done)
      ensures again ==> r == WouldBlock && Lower(old(frames), old(phase))
      ensures Answered(opts, old(sock.output), sock.output, old(frames), frames, done, !again && r == End)
      ensures if again then sock.Steady(old(sock.schedule), old(sock.pos))
              else Patient(r, old(sock.schedule), old(sock.pos), Closed(done))
    {
      if toRecv != 0 {
        r := FillHeader();
        if !r.Data? {
          again, done := false, [];
          return;
        }
      }
      r, again, done := Switch(out, size);
    }

    /** websocket_read: it goes on through the frames as `Handed` says, and every close frame that it
        finishes is answered and ends the call. */
    method Read(out: array<byte>, size: nat) returns (r: Status, ghost done: seq<Frame>)
      requires Valid() && 0 < size <= out.Length && out != buf
      modifies this, sock`output, sock`pos, sock`schedule, out, buf
      ensures Valid() && Idle() && opts == old(opts) && (r.Data? ==> 0 < r.n <= size)
      ensures Handed(Given(r, out[..]), size, old(Begun()), old(frames), Begun(), frames, done)
      ensures old(frames) == done + frames
      ensures sock.output == old(sock.output) + Replies(opts, done)
      ensures ClosesLast(done, r == End)
      ensures Patient(r, old(sock.schedule), old(sock.pos), Closed(done))
    {
      var again := true;
      r, done := WouldBlock, [];
      NoneDone(opts, sock.output, frames, false);
      while again
        invariant Valid() && opts == old(opts) && (r.Data? ==> 0 < r.n <= size) && (!again ==> Idle())
        invariant Handed(Given(r, out[..]), size, old(Begun()), old(frames), Begun(), frames, done)
        invariant again ==> r == WouldBlock
        invariant Answered(opts, old(sock.output), sock.output, old(frames), frames, done, !again && r == End)
        invariant if again then sock.Steady(old(sock.schedule), old(sock.pos))
                  else Patient(r, old(sock.schedule), old(sock.pos), Closed(done))
        decreases again, |frames|, Rank(phase)
      {
        ghost var was, fs, from, d := sock.output, frames, Begun(), [];
        r, again, d := Step(out, size);
        MoreGone(opts, old(sock.output), was, sock.output, Given(r, out[..]), size, old(Begun()), old(frames), from, fs,
                 Begun(), frames, done, d, !again && r == End);
        done := done + d;
      }
    }

    /** When the stream has been read to its end, no payload byte is outstanding. */
    lemma Drained()
      requires Valid() && sock.Unread() == []
      ensures AllGone(Begun(), frames)
    {
      if phase == FrameHeader {
        assert Ahead() == buf[..bufPos];
        ShortWire(frames);
      } else if phase == FrameOpt {
        assert Ahead() == buf[..bufPos];
        OnlyOptions(frames, buf[..bufPos]);
      } else {
        NothingLeft(frames, taken);
      }
    }

    lemma PayloadOutstanding()
      requires Valid() && Idle() && InPayload()
      ensures sock.Unread() != []
    {
      assert |sock.Unread()| >= |frames[0].payload| - taken;
    }

    lemma OptionsOutstanding()
      requires Valid() && Idle() && phase == FrameOpt
      ensures sock.Unread() != []
    {
      assert |Ahead()| == bufPos + |sock.Unread()|;
      assert |Ahead()| >= |Options(frames[0])|;
    }

    lemma HeaderOutstanding()
      requires Valid() && Idle() && phase == FrameHeader && frames != []
      ensures sock.Unread() != []
    {
      FrameLength(frames);
      assert |Ahead()| == bufPos + |sock.Unread()|;
    }

    /** Between calls all frames are finished once the stream has been read to its end. */
    lemma AllFinished()
      requires Valid() && Idle() && sock.Unread() == []
      ensures frames == []
    {
      if InPayload() {
        PayloadOutstanding();
      } else if phase == FrameOpt {
        OptionsOutstanding();
      } else if frames != [] {
        HeaderOutstanding();
      }
    }

    /** When all frames are finished the stream has been read to its end. */
    lemma NothingUnread()
      requires Valid() && frames == []
      ensures sock.Unread() == []
    {
      assert phase == FrameHeader && |Ahead()| == |buf[..bufPos]| + |sock.Unread()|;
    }

    /** websocket_write */
    method Write(b: seq<byte>)
      requires |b| < 0x10000
      modifies sock`output
      ensures sock.output == old(sock.output) + SentBytes(opts, b)
    {
      var header := [0x80 | Opcode(opts)];
      if |b| < 126 {
        header := header + [|b| as byte];
      } else {
        header := header + [126, (|b| / 256) as byte, (|b| % 256) as byte];
      }
      sock.Write(header);
      sock.Write(b);
    }
  }

  lemma NoneDone(opts: byte, o: seq<byte>, fs: seq<Frame>, ended: bool)
    ensures Answered(opts, o, o, fs, fs, [], ended)
  {
  }

  lemma OneDone(opts: byte, o: seq<byte>, fs: seq<Frame>)
    requires fs != []
    ensures var o' := o + if IsClose(fs[0]) then SentBytes(opts, CLOSE_RESPONSE) else [];
            Answered(opts, o, o', fs, fs[1..], fs[..1], IsClose(fs[0]))
  {
    assert Replies(opts, fs[..1]) == if IsClose(fs[0]) then SentBytes(opts, CLOSE_RESPONSE) else [] by {
      assert fs[..1][1..] == [];
    }
  }

  lemma MoreDone(opts: byte, o: seq<byte>, o1: seq<byte>, o2: seq<byte>, fs: seq<Frame>, fs1: seq<Frame>,
                 fs2: seq<Frame>,
                 done: seq<Frame>, d: seq<Frame>, ended: bool)
    requires Answered(opts, o, o1, fs, fs1, done, false) && Answered(opts, o1, o2, fs1, fs2, d, ended)
    ensures Answered(opts, o, o2, fs, fs2, done + d, ended)
    ensures Closed(d) ==> Closed(done + d)
  {
    MoreReplies(opts, o, done, d);
    Associate(done, d, fs2);
    ClosesJoin(done, d, ended);
  }

  lemma {:induction false} ClosesJoin(a: seq<Frame>, b: seq<Frame>, ended: bool)
    requires ClosesLast(a, false) && ClosesLast(b, ended)
    ensures ClosesLast(a + b, ended)
    decreases a
  {
    if a == [] {
      assert a + b == b;
    } else {
      assert (a + b)[1..] == a[1..] + b;
      ClosesJoin(a[1..], b, ended);
    }
  }

  lemma {:induction false} RepliesJoin(opts: byte, a: seq<Frame>, b: seq<Frame>)
    ensures Replies(opts, a + b) == Replies(opts, a) + Replies(opts, b)
  {
    if a == [] {
      assert a + b == b;
    } else {
      assert (a + b)[1..] == a[1..] + b;
      RepliesJoin(opts, a[1..], b);
    }
  }

  lemma MoreReplies(opts: byte, o: seq<byte>, done: seq<Frame>, d: seq<Frame>)
    ensures o + Replies(opts, done) + Replies(opts, d) == o + Replies(opts, done + d)
  {
    RepliesJoin(opts, done, d);
  }

  lemma FrontFilled(o: seq<byte>, s: seq<byte>, o': seq<byte>, n: nat)
    requires n <= |o| && n <= |s| && o' == o[..0] + s[..n] + o[0 + n..]
    ensures o'[..n] == s[..n]
  {
  }

  /** The portion read is a part of the masked payload. */
  lemma Portion(out: seq<byte>, s: seq<byte>, body: seq<byte>, rest: seq<byte>, t: nat, n: nat)
    requires t + n <= |body| && n <= |out| && s == body[t..] + rest && out[..n] == s[..n]
    ensures out[..n] == body[t..t + n] && s[n..] == body[t + n..] + rest
  {
  }

  lemma SameKeyByte(t: nat, i: nat)
    ensures (t % 256 + i) % 4 == (t + i) % 4
  {
    var q := t / 256;
    assert t + i == t % 256 + i + 4 * (64 * q);
    AddFours(t % 256 + i, 64 * q);
  }

  lemma PosAfter(t: nat, n: nat)
    ensures (t % 256 + n) % 256 == (t + n) % 256
  {
    var q := t / 256;
    assert t + n == t % 256 + n + 256 * q;
  }

  lemma NextPos(p: nat)
    ensures p % 256 % 4 == p % 4 && (p % 256 + 1) % 256 == (p + 1) % 256
  {
    SameKeyByte(p, 0);
    PosAfter(p, 1);
  }

  lemma AddFours(n: nat, q: nat)
    ensures (n + 4 * q) % 4 == n % 4
  {
  }

  lemma UnmaskedPart(f: Frame, t: nat, n: nat)
    requires Readable(f) && t + n <= |f.payload|
    ensures Mask(f.key, Body(f)[t..t + n], t) == f.payload[t..t + n]
  {
    UnmaskedSlice(f.key, f.payload, t, n);
  }

  lemma UnmaskedSlice(key: seq<byte>, p: seq<byte>, t: nat, n: nat)
    requires |key| == 4 && t + n <= |p|
    ensures Mask(key, Mask(key, p, 0)[t..t + n], t) == p[t..t + n]
  {
    var part, m := Mask(key, p, 0)[t..t + n], Mask(key, Mask(key, p, 0)[t..t + n], t);
    forall i | 0 <= i < n ensures m[i] == p[t + i] {
      assert part[i] == Mask(key, p, 0)[t + i];
      XorTwice(p[t + i], key[(t + i) % 4]);
    }
  }

  lemma FrameOver(fs: seq<Frame>, taken: nat)
    requires AllReadable(fs) && fs != [] && taken == |fs[0].payload|
    ensures Body(fs[0])[taken..] + Wire(fs[1..]) == Wire(fs[1..])
  {
  }

  /** The last portion: of a data frame it is returned, of a control frame it is dropped. */
  lemma LastHanded(size: nat, from: nat, fs: seq<Frame>)
    requires fs != [] && from <= |fs[0].payload| && |fs[0].payload| - from <= size
    ensures var f := fs[0]; var o := if IsControl(f.first) then [] else f.payload[from..];
            Handed(o, size, from, fs, 0, fs[1..], fs[..1])
  {
    assert fs[..1][1..] == [];
    var rest := fs[1..];
    assert rest == [] || PartOf([], 0, 0, rest[0]);
    assert Handed([], size, 0, rest, 0, rest, []);
  }

  /** A turn that returns nothing, then another. */
  lemma {:induction false} MoreHanded(o: seq<byte>, size: nat, from: nat, fs: seq<Frame>, mid: nat, fs1: seq<Frame>,
                                      now: nat, fs2: seq<Frame>, done: seq<Frame>, d: seq<Frame>)
    requires Handed([], size, from, fs, mid, fs1, done) && Handed(o, size, mid, fs1, now, fs2, d)
    ensures Handed(o, size, from, fs, now, fs2, done + d)
    decreases done
  {
    if done == [] {
      assert done + d == d;
    } else {
      assert (done + d)[1..] == done[1..] + d && (done + d)[0] == done[0];
      MoreHanded(o, size, 0, fs[1..], mid, fs1, now, fs2, done[1..], d);
    }
  }

  lemma ByteRange(n: int)
    requires 0 <= n < 256
    ensures (n as byte) as int == n
  {
    assert n % 256 == n;
  }

  /** How the extended header is told apart by its length alone, and what it holds. */
  lemma OptionsSay(f: Frame, o: seq<byte>)
    requires Readable(f) && o == Options(f)
    ensures |o| == (if f.long then 2 else 0) + (if f.masked then 4 else 0)
    ensures f.long ==> o[0] as nat * 256 + o[1] as nat == |f.payload|
    ensures f.masked ==> o[|o| - 4..] == f.key
  {
    if f.long {
      ByteRange(|f.payload| / 256);
      ByteRange(|f.payload| % 256);
    }
  }

  lemma NoOptions(f: Frame)
    requires Readable(f) && Options(f) == []
    ensures !f.long && !f.masked && Length7(f) as nat == |f.payload|
  {
    OptionsSay(f, []);
    LengthByteSays(f);
  }

  /** The first frame's header stands before the rest of the wire. */
  lemma WireHead(fs: seq<Frame>)
    requires AllReadable(fs) && |Wire(fs)| >= 2
    ensures fs != [] && Wire(fs)[0] == fs[0].first && Wire(fs)[1] == LengthByte(fs[0])
    ensures Wire(fs)[2..] == Options(fs[0]) + Body(fs[0]) + Wire(fs[1..])
  {
    var h := [fs[0].first, LengthByte(fs[0])];
    BehindHead(h, Options(fs[0]), Body(fs[0]), Wire(fs[1..]));
  }

  /** A wire of at most two bytes carries no payload. */
  lemma ShortWire(fs: seq<Frame>)
    requires AllReadable(fs) && |Wire(fs)| <= 2
    ensures AllGone(0, fs)
    ensures Wire(fs) == [] ==> fs == []
  {
    if fs != [] {
      WireHead(fs);
      assert Body(fs[0]) == [] && Wire(fs[1..]) == [];
      assert fs[0].payload == [];
    }
  }

  lemma FrameLength(fs: seq<Frame>)
    requires AllReadable(fs) && fs != []
    ensures |Wire(fs)| >= 2
  {
    assert |FrameBytes(fs[0]) + Wire(fs[1..])| >= |FrameBytes(fs[0])|;
  }

  lemma NothingLeft(fs: seq<Frame>, t: nat)
    requires AllReadable(fs) && fs != [] && t <= |fs[0].payload| && Body(fs[0])[t..] + Wire(fs[1..]) == []
    ensures AllGone(t, fs)
  {
    var w := Wire(fs[1..]);
    assert |Body(fs[0])[t..] + w| == |Body(fs[0])| - t + |w|;
    ShortWire(fs[1..]);
  }

  lemma OnlyOptions(fs: seq<Frame>, have: seq<byte>)
    requires AllReadable(fs) && fs != [] && |have| <= |Options(fs[0])|
    requires have == Options(fs[0]) + Body(fs[0]) + Wire(fs[1..])
    ensures AllGone(0, fs)
  {
    var w := Wire(fs[1..]);
    assert |have| == |Options(fs[0])| + |Body(fs[0])| + |w|;
    ShortWire(fs[1..]);
  }

  lemma BehindHead(h: seq<byte>, o: seq<byte>, b: seq<byte>, rest: seq<byte>)
    ensures var w := h + o + b + rest; |w| >= |h| && w[..|h|] == h && w[|h|..] == o + b + rest
  {
  }

  /** One sequence cut twice at the same place. */
  lemma SameCut(a: seq<byte>, b: seq<byte>, c: seq<byte>, d: seq<byte>)
    requires a + b == c + d && |a| == |c|
    ensures a == c && b == d
  {
    assert (a + b)[..|a|] == a && (c + d)[..|a|] == c;
    assert (a + b)[|a|..] == b && (c + d)[|a|..] == d;
  }

  /** The first `n` bytes of a stream pass into a buffer behind its first `at` bytes. */
  lemma Moved(b: seq<byte>, s: seq<byte>, b': seq<byte>, at: nat, n: nat)
    requires at + n <= |b| && n <= |s| && b' == b[..at] + s[..n] + b[at + n..]
    ensures b'[..at + n] + s[n..] == b[..at] + s
  {
    assert b'[..at + n] == b[..at] + s[..n];
    Associate(b[..at], s[..n], s[n..]);
    assert s[..n] + s[n..] == s;
  }

  lemma EnterPayload(fs: seq<Frame>)
    requires AllReadable(fs) && fs != []
    ensures Body(fs[0])[0..] == Body(fs[0])
  {
  }

  lemma ZeroKey(b: seq<byte>)
    ensures Mask(NO_KEY, b, 0) == b
  {
    forall i | 0 <= i < |b| ensures Mask(NO_KEY, b, 0)[i] == b[i] { XorZero(b[i]); }
  }

  lemma XorZero(a: byte)
    ensures a ^ 0 == a
  {
  }

  /** What a write sends is one readable frame with the written bytes as payload. */
  lemma SentIsFrame(opts: byte, b: seq<byte>)
    requires |b| < 0x10000
    ensures Readable(SentFrame(opts, b)) && IsControl(SentFrame(opts, b).first) == IsControl(opts)
    ensures SentBytes(opts, b) == FrameBytes(SentFrame(opts, b))
  {
    SentOpcode(opts);
    ZeroKey(b);
    NoFlag(Length7(SentFrame(opts, b)));
  }

  lemma NoFlag(n: byte)
    ensures Flagged(n, false) == n
  {
  }

  predicate Sendable(bs: seq<seq<byte>>) { forall i | 0 <= i < |bs| :: |bs[i]| < 0x10000 }

  /** The output of one write after the other. */
  function Sent(opts: byte, bs: seq<seq<byte>>): seq<byte>
    requires Sendable(bs)
  {
    if bs == [] then [] else SentBytes(opts, bs[0]) + Sent(opts, bs[1..])
  }

  function SentFrames(opts: byte, bs: seq<seq<byte>>): seq<Frame> {
    seq(|bs|, i requires 0 <= i < |bs| => SentFrame(opts, bs[i]))
  }

  function Concat(bs: seq<seq<byte>>): seq<byte> {
    if bs == [] then [] else bs[0] + Concat(bs[1..])
  }

  /** Any run of writes is a wire of readable frames whose payloads are the written bytes, so a
      reader (see `ReadMany`) gets back what was written, unless the object's opcode is that of a
      control frame. */
  lemma {:induction false} WritesReadBack(opts: byte, bs: seq<seq<byte>>)
    requires Sendable(bs)
    ensures var fs := SentFrames(opts, bs);
            && AllReadable(fs) && Wire(fs) == Sent(opts, bs)
            && (if opts & 0x08 != 0 then DataOf(0, fs) == [] else DataOf(0, fs) == Concat(bs) && Brief(fs))
  {
    var fs := SentFrames(opts, bs);
    ControlBit(SentFrame(opts, []));
    SentIsFrame(opts, []);
    SentBit(opts);
    if bs != [] {
      SentIsFrame(opts, bs[0]);
      WritesReadBack(opts, bs[1..]);
      assert fs[0] == SentFrame(opts, bs[0]) && fs[1..] == SentFrames(opts, bs[1..]);
      FirstReadable(fs);
      assert forall f | f in fs :: IsControl(f.first) == IsControl(opts) by {
        forall i | 0 <= i < |fs| ensures IsControl(fs[i].first) == IsControl(opts) { SentIsFrame(opts, bs[i]); }
      }
    }
  }

  lemma MoreGone(opts: byte, o: seq<byte>, o1: seq<byte>, o2: seq<byte>, given: seq<byte>, size: nat, from: nat,
                 fs: seq<Frame>, mid: nat, fs1: seq<Frame>, now: nat, fs2: seq<Frame>, done: seq<Frame>, d: seq<Frame>,
                 ended: bool)
    requires Answered(opts, o, o1, fs, fs1, done, false) && Answered(opts, o1, o2, fs1, fs2, d, ended)
    requires Handed([], size, from, fs, mid, fs1, done) && Handed(given, size, mid, fs1, now, fs2, d)
    ensures Answered(opts, o, o2, fs, fs2, done + d, ended) && (Closed(d) ==> Closed(done + d))
    ensures Handed(given, size, from, fs, now, fs2, done + d)
  {
    MoreDone(opts, o, o1, o2, fs, fs1, fs2, done, d, ended);
    MoreHanded(given, size, from, fs, mid, fs1, now, fs2, done, d);
  }

  lemma FirstReadable(fs: seq<Frame>)
    requires fs != [] && Readable(fs[0]) && AllReadable(fs[1..])
    ensures AllReadable(fs) && Wire(fs) == FrameBytes(fs[0]) + Wire(fs[1..])
  {
    forall i | 0 <= i < |fs| ensures Readable(fs[i]) {
      if i > 0 { assert fs[i] == fs[1..][i - 1]; }
    }
  }

  /** The answer to a close frame goes through `Write`: it is not the close frame itself but a
      frame around it, of the opcode set on the object. On an object as constructed the peer sees
      a text message of two bytes; a close frame only when the object's opcode is that of close. */
  lemma CloseReplySent(opts: byte)
    ensures SentBytes(opts, CLOSE_RESPONSE) == [0x80 | Opcode(opts), 2] + CLOSE_RESPONSE
    ensures SentBytes(1, CLOSE_RESPONSE) == [0x81, 2, 0x88, 0]
    ensures Opcode(SentBytes(opts, CLOSE_RESPONSE)[0]) == FRAME_CLOSE <==> Opcode(opts) == FRAME_CLOSE
  {
    SentOpcode(opts);
    SentOpcode(1);
  }

  // ---------- what comes back ----------

  /** Control frames have at most one byte. */
  predicate Brief(fs: seq<Frame>) { forall f | f in fs :: IsControl(f.first) ==> |f.payload| <= 1 }

  /** The place is within the first frame, and not at its end unless it has no payload. */
  predicate Within(from: nat, fs: seq<Frame>) {
    if fs == [] then from == 0 else from == 0 || from < |fs[0].payload|
  }

  /** The data that are outstanding. */
  function DataOf(from: nat, fs: seq<Frame>): seq<byte>
    requires Within(from, fs)
  {
    if fs == [] then [] else (if IsControl(fs[0].first) then [] else fs[0].payload[from..]) + DataOf(0, fs[1..])
  }

  /** A part of a control frame's payload is gone. */
  predicate InControl(from: nat, fs: seq<Frame>) { fs != [] && from > 0 && IsControl(fs[0].first) }

  /** A call returns the next data, or bytes of the control frame in which it stops. */
  lemma {:induction false} DataStep(o: seq<byte>, size: nat, from: nat, fs: seq<Frame>, now: nat, rest: seq<Frame>,
                                    done: seq<Frame>)
    requires Within(from, fs) && Within(now, rest) && Handed(o, size, from, fs, now, rest, done)
    ensures DataOf(from, fs) == (if InControl(now, rest) then [] else o) + DataOf(now, rest)
    ensures Brief(fs) ==> DataOf(from, fs) == o + DataOf(now, rest) && Brief(rest)
    decreases done
  {
    if done != [] {
      if IsControl(fs[0].first) || from == |fs[0].payload| {
        DataStep(o, size, 0, fs[1..], now, rest, done[1..]);
      }
    } else if fs != [] {
      assert fs[0] in fs;
      if !IsControl(fs[0].first) {
        assert fs[0].payload[from..] == o + fs[0].payload[now..];
        Associate(o, fs[0].payload[now..], DataOf(0, fs[1..]));
      }
    }
  }

  /** One read into a new buffer. */
  method ReadOnce(c: Connection, size: nat) returns (r: Status, o: seq<byte>, ghost done: seq<Frame>)
    requires c.Valid() && 0 < size
    modifies c, c.sock`output, c.sock`pos, c.sock`schedule, c.buf
    ensures c.Valid() && c.Idle() && c.opts == old(c.opts) && Within(c.Begun(), c.frames)
    ensures ClosesLast(done, r == End)
    ensures Handed(o, size, old(c.Begun()), old(c.frames), c.Begun(), c.frames, done)
    ensures r.Data? <==> o != []
    ensures old(c.frames) == done + c.frames
    ensures c.sock.output == old(c.sock.output) + Replies(c.opts, done)
    ensures c.Patient(r, old(c.sock.schedule), old(c.sock.pos), Closed(done))
  {
    var out := new byte[size];
    r, done := c.Read(out, size);
    o := if r.Data? then out[..r.n] else [];
  }

  /** The bytes that are not marked. */
  function Unmarked(b: seq<byte>, marks: seq<bool>): seq<byte>
    requires |b| == |marks|
  {
    if b == [] then [] else (if marks[0] then [] else [b[0]]) + Unmarked(b[1..], marks[1..])
  }

  lemma {:induction false} UnmarkedJoin(a: seq<byte>, ma: seq<bool>, b: seq<byte>, mb: seq<bool>)
    requires |a| == |ma| && |b| == |mb|
    ensures Unmarked(a + b, ma + mb) == Unmarked(a, ma) + Unmarked(b, mb)
    decreases a
  {
    if a == [] {
      assert a + b == b && ma + mb == mb;
    } else {
      assert (a + b)[1..] == a[1..] + b && (ma + mb)[1..] == ma[1..] + mb;
      UnmarkedJoin(a[1..], ma[1..], b, mb);
    }
  }

  lemma {:induction false} UnmarkedSame(b: seq<byte>, marks: seq<bool>, m: bool)
    requires |b| == |marks| && forall i | 0 <= i < |marks| :: marks[i] == m
    ensures Unmarked(b, marks) == if m then [] else b
    decreases b
  {
    if b != [] { UnmarkedSame(b[1..], marks[1..], m); }
  }

  ghost function Marks(n: nat, control: bool): seq<bool> { seq(n, _ => control) }

  lemma MoreData(got: seq<byte>, marks: seq<bool>, o: seq<byte>, control: bool, data: seq<byte>)
    requires |got| == |marks|
    ensures Unmarked(got + o, marks + Marks(|o|, control)) + data
            == Unmarked(got, marks) + ((if control then [] else o) + data)
  {
    var mo := Marks(|o|, control);
    UnmarkedJoin(got, marks, o, mo);
    UnmarkedSame(o, mo, control);
    Associate(Unmarked(got, marks), Unmarked(o, mo), data);
  }

  lemma NothingToGet(from: nat, fs: seq<Frame>)
    requires Within(from, fs) && AllGone(from, fs)
    ensures DataOf(from, fs) == [] && Shown(from, fs) == []
  {
    if fs != [] { NothingToGet(0, fs[1..]); }
  }

  /** What has been got, of all that was outstanding. */
  ghost predicate Balanced(got: seq<byte>, marks: seq<bool>, brief: bool, data: seq<byte>, from: nat, fs: seq<Frame>) {
    && |got| == |marks| && Within(from, fs) && Unmarked(got, marks) + DataOf(from, fs) == data
    && (brief ==> got + DataOf(from, fs) == data && Brief(fs))
  }

  lemma MoreBalanced(got: seq<byte>, marks: seq<bool>, brief: bool, data: seq<byte>, o: seq<byte>, size: nat,
                     from: nat, fs: seq<Frame>, now: nat, rest: seq<Frame>, d: seq<Frame>)
    requires Balanced(got, marks, brief, data, from, fs) && Within(now, rest) && Handed(o, size, from, fs, now, rest, d)
    ensures Balanced(got + o, marks + Marks(|o|, InControl(now, rest)), brief, data, now, rest)
  {
    DataStep(o, size, from, fs, now, rest, d);
    MoreData(got, marks, o, InControl(now, rest), DataOf(now, rest));
    Associate(got, o, DataOf(now, rest));
  }

  /** A client that asks again and again, for any sizes. The data come back in order and in full; the
      other bytes returned, which are marked, come from control frames. If these have at most one byte
      each, what comes back are the data. */
  method ReadMany(c: Connection, sizes: seq<nat>)
    returns (got: seq<byte>, ghost marks: seq<bool>, ghost done: seq<Frame>)
    requires c.Valid() && forall i | 0 <= i < |sizes| :: 0 < sizes[i]
    modifies c, c.sock`output, c.sock`pos, c.sock`schedule, c.buf
    ensures c.Valid() && c.opts == old(c.opts)
    ensures Balanced(got, marks, Brief(old(c.frames)), old(DataOf(c.Begun(), c.frames)), c.Begun(), c.frames)
    ensures c.sock.Unread() == [] ==> DataOf(c.Begun(), c.frames) == []
    ensures old(c.frames) == done + c.frames
    ensures c.sock.output == old(c.sock.output) + Replies(c.opts, done)
  {
    got, marks, done := [], [], [];
    ghost var data, brief := DataOf(c.Begun(), c.frames), Brief(c.frames);
    assert done + c.frames == c.frames && got + data == data;
    for i := 0 to |sizes|
      invariant c.Valid() && c.opts == old(c.opts)
      invariant Balanced(got, marks, brief, data, c.Begun(), c.frames)
      invariant old(c.frames) == done + c.frames
      invariant c.sock.output == old(c.sock.output) + Replies(c.opts, done)
    {
      var r, o;
      ghost var d;
      ghost var from, fs := c.Begun(), c.frames;
      r, o, d := ReadOnce(c, sizes[i]);
      MoreBalanced(got, marks, brief, data, o, sizes[i], from, fs, c.Begun(), c.frames, d);
      MoreReplies(c.opts, old(c.sock.output), done, d);
      Associate(done, d, c.frames);
      done := done + d;
      marks := marks + Marks(|o|, InControl(c.Begun(), c.frames));
      got := got + o;
    }
    if c.sock.Unread() == [] {
      c.Drained();
      NothingToGet(c.Begun(), c.frames);
    }
  }

  // ---------- reading byte by byte ----------

  /** What comes back byte by byte: of a control frame all but the last byte. */
  function ShownOf(f: Frame, from: nat): seq<byte>
    requires from <= |f.payload|
  {
    if IsControl(f.first) && from < |f.payload| then f.payload[from..|f.payload| - 1] else f.payload[from..]
  }

  function Shown(from: nat, fs: seq<Frame>): seq<byte>
    requires Within(from, fs)
  {
    if fs == [] then [] else ShownOf(fs[0], from) + Shown(0, fs[1..])
  }

  /** A call for one byte brings the next byte shown. */
  lemma {:induction false} ShownStep(o: seq<byte>, from: nat, fs: seq<Frame>, now: nat, rest: seq<Frame>,
                                     done: seq<Frame>)
    requires Within(from, fs) && Within(now, rest) && Handed(o, 1, from, fs, now, rest, done)
    ensures Shown(from, fs) == o + Shown(now, rest)
    decreases done
  {
    if fs != [] {
      if done == [] {
        ShownPart(o, from, now, fs);
      } else if IsControl(fs[0].first) || from == |fs[0].payload| {
        ShownStep(o, 0, fs[1..], now, rest, done[1..]);
        assert [] + Shown(0, fs[1..]) == Shown(0, fs[1..]);
      }
    }
  }

  lemma ShownPart(o: seq<byte>, from: nat, now: nat, fs: seq<Frame>)
    requires fs != [] && Within(from, fs) && Within(now, fs) && PartOf(o, from, now, fs[0])
    ensures Shown(from, fs) == o + Shown(now, fs)
  {
    PartShown(o, from, now, fs[0]);
    Associate(o, ShownOf(fs[0], now), Shown(0, fs[1..]));
  }

  lemma PartShown(o: seq<byte>, from: nat, now: nat, f: Frame)
    requires PartOf(o, from, now, f) && (from == 0 || from < |f.payload|) && (now == 0 || now < |f.payload|)
    ensures ShownOf(f, from) == o + ShownOf(f, now)
  {
    var p := f.payload;
    if IsControl(f.first) && from < |p| {
      CutAt(p, from, now, |p| - 1);
    } else {
      CutAt(p, from, now, |p|);
      assert p[from..] == p[from..|p|] && p[now..] == p[now..|p|];
    }
  }

  lemma CutAt(p: seq<byte>, from: nat, now: nat, end: nat)
    requires from <= now <= end <= |p|
    ensures p[from..end] == p[from..now] + p[now..end]
  {
  }

  lemma {:induction false} ShownLength(fs: seq<Frame>)
    ensures |Shown(0, fs)| >= |DataOf(0, fs)|
    ensures |Shown(0, fs)| == |DataOf(0, fs)| <==> Brief(fs)
    ensures Brief(fs) ==> Shown(0, fs) == DataOf(0, fs)
    decreases fs
  {
    if fs != [] {
      var f, rest := fs[0], fs[1..];
      ShownLength(rest);
      assert forall g :: g in fs <==> g == f || g in rest;
      assert Brief(fs) <==> (IsControl(f.first) ==> |f.payload| <= 1) && Brief(rest);
    }
  }

  /** Read byte by byte, the frames give their data if and only if no control frame has more than one
      byte. */
  lemma ShownIsData(fs: seq<Frame>)
    ensures Shown(0, fs) == DataOf(0, fs) <==> Brief(fs)
  {
    ShownLength(fs);
  }

  /** The stream brings a byte each turn, and there are enough turns for all. */
  ghost predicate BringsAll(sock: Socket)
    reads sock
  {
    Socket.Positive(sock.schedule) && (sock.pos >= |sock.input| || |sock.schedule| >= |sock.input| - sock.pos)
  }

  /** How far a client has come: place in the stream, bytes got, frames and turns left. */
  datatype Progress = Progress(pos: nat, got: nat, frames: nat, turns: nat)

  ghost predicate Advanced(p: Progress, q: Progress) {
    && q.pos >= p.pos && q.got >= p.got && q.frames <= p.frames
    && (q.pos > p.pos || q.got > p.got || q.frames < p.frames || q.turns < p.turns)
  }

  /** A call that brings nothing has used a turn of the stream or finished a close frame. */
  lemma Advances(r: Status, o: seq<byte>, end: nat, pos: nat, pos': nat, turns: seq<nat>, turns': seq<nat>, got: nat,
                 fs: seq<Frame>, rest: seq<Frame>, done: seq<Frame>)
    requires (r.Data? <==> o != []) && pos < end && pos <= pos' && fs == done + rest
    requires |turns| >= end - pos && (pos' >= end || |turns| - |turns'| <= pos' - pos)
    requires r == WouldBlock ==> Socket.Tried(turns, turns')
    requires r == End ==> Closed(done) || pos' >= end
    ensures Advanced(Progress(pos, got, |fs|, |turns|), Progress(pos', got + |o|, |rest|, |turns'|))
  {
    assert |fs| == |done| + |rest|;
  }

  /** Frames are finished and their close frames answered. */
  ghost predicate Served(opts: byte, o: seq<byte>, o': seq<byte>, fs: seq<Frame>, fs': seq<Frame>, done: seq<Frame>) {
    fs == done + fs' && o' == o + Replies(opts, done)
  }

  lemma MoreServed(opts: byte, o: seq<byte>, o1: seq<byte>, o2: seq<byte>, fs: seq<Frame>, fs1: seq<Frame>,
                   fs2: seq<Frame>, done: seq<Frame>, d: seq<Frame>)
    requires Served(opts, o, o1, fs, fs1, done) && Served(opts, o1, o2, fs1, fs2, d)
    ensures Served(opts, o, o2, fs, fs2, done + d)
  {
    MoreReplies(opts, o, done, d);
    Associate(done, d, fs2);
  }

  lemma AllServed(opts: byte, o: seq<byte>, o': seq<byte>, fs: seq<Frame>, done: seq<Frame>)
    requires Served(opts, o, o', fs, [], done)
    ensures done == fs && o' == o + Replies(opts, fs)
  {
  }

  lemma NoneServed(opts: byte, o: seq<byte>, fs: seq<Frame>)
    ensures Served(opts, o, o, fs, fs, [])
  {
  }

  /** One byte is asked for. */
  method NextByte(c: Connection, got: seq<byte>, ghost shown: seq<byte>)
    returns (r: Status, got': seq<byte>, ghost done: seq<Frame>)
    requires c.Valid() && BringsAll(c.sock) && c.sock.pos < |c.sock.input|
    requires got + Shown(c.Begun(), c.frames) == shown
    modifies c, c.sock`output, c.sock`pos, c.sock`schedule, c.buf
    ensures c.Valid() && c.Idle() && c.opts == old(c.opts) && BringsAll(c.sock)
    ensures got' + Shown(c.Begun(), c.frames) == shown
    ensures Served(c.opts, old(c.sock.output), c.sock.output, old(c.frames), c.frames, done)
    ensures ClosesLast(done, r == End)
    ensures Advanced(Progress(old(c.sock.pos), |got|, |old(c.frames)|, |old(c.sock.schedule)|),
                     Progress(c.sock.pos, |got'|, |c.frames|, |c.sock.schedule|))
  {
    ghost var from, fs, pos, turns := c.Begun(), c.frames, c.sock.pos, c.sock.schedule;
    var o;
    r, o, done := ReadOnce(c, 1);
    ShownStep(o, from, fs, c.Begun(), c.frames, done);
    Associate(got, o, Shown(c.Begun(), c.frames));
    Advances(r, o, |c.sock.input|, pos, c.sock.pos, turns, c.sock.schedule, |got|, fs, c.frames, done);
    got' := got + o;
  }

  /** A client that reads byte by byte to the end: every frame is finished, and the close frames are
      answered. */
  method ReadOut(c: Connection) returns (got: seq<byte>)
    requires c.Valid() && c.Idle() && BringsAll(c.sock)
    modifies c, c.sock`output, c.sock`pos, c.sock`schedule, c.buf
    ensures got == old(Shown(c.Begun(), c.frames))
    ensures c.sock.output == old(c.sock.output) + Replies(old(c.opts), old(c.frames))
  {
    got := [];
    ghost var shown, done := Shown(c.Begun(), c.frames), [];
    NoneServed(c.opts, c.sock.output, c.frames);
    while c.sock.pos < |c.sock.input|
      invariant c.Valid() && c.Idle() && c.opts == old(c.opts) && BringsAll(c.sock)
      invariant got + Shown(c.Begun(), c.frames) == shown
      invariant Served(c.opts, old(c.sock.output), c.sock.output, old(c.frames), c.frames, done)
      decreases |c.sock.input| - c.sock.pos, |shown| - |got|, |c.frames|, |c.sock.schedule|
    {
      var r;
      ghost var d, was, fs := [], c.sock.output, c.frames;
      r, got, d := NextByte(c, got, shown);
      MoreServed(c.opts, old(c.sock.output), was, c.sock.output, old(c.frames), fs, c.frames, done, d);
      done := done + d;
    }
    c.AllFinished();
    AllServed(c.opts, old(c.sock.output), c.sock.output, old(c.frames), done);
  }

  /** The frames of a wire that brings one byte at a time, read byte by byte: what comes back and what is
      sent. */
  method ByteByByte(fs: seq<Frame>) returns (got: seq<byte>, sent: seq<byte>)
    requires AllReadable(fs)
    ensures got == Shown(0, fs) && sent == Replies(1, fs)
  {
    var wire := Wire(fs);
    var sock := new Socket(wire, seq(|wire|, _ => 1));
    var c := new Connection(sock, fs);
    got := ReadOut(c);
    sent := sock.output;
  }

  // ---------- frames by their bytes ----------

  /** The bytes before the payload. */
  function HeaderSize(f: Frame): nat { (if f.long then 4 else 2) + (if f.masked then 4 else 0) }

  /** A frame as RFC 6455 draws it in section 5.2: the length in seven bits or in the two bytes behind
      126, the mask flag in the top bit of the length byte, and byte i of the payload masked with byte
      i modulo 4 of the key. */
  lemma FrameIs(f: Frame)
    requires Readable(f)
    ensures var w := FrameBytes(f);
            && |w| == HeaderSize(f) + |f.payload| && w[0] == f.first
            && w[1] as int == (if f.long then 126 else |f.payload|) + (if f.masked then 128 else 0)
            && (f.long ==> w[2] as int * 0x100 + w[3] as int == |f.payload|)
            && (f.masked ==> w[HeaderSize(f) - 4..HeaderSize(f)] == f.key)
    ensures forall i | 0 <= i < |f.payload| :: FrameBytes(f)[HeaderSize(f) + i] == MaskedByte(f, i)
  {
    LengthByteIs(f);
    OptionsSay(f, Options(f));
    BodyIs(f);
    ThreeParts([f.first, LengthByte(f)], Options(f), Body(f));
  }

  function MaskedByte(f: Frame, i: nat): byte
    requires Readable(f) && i < |f.payload|
  {
    if f.masked then f.payload[i] ^ f.key[i % 4] else f.payload[i]
  }

  lemma BodyIs(f: Frame)
    requires Readable(f)
    ensures forall i | 0 <= i < |f.payload| :: Body(f)[i] == MaskedByte(f, i)
  {
    if !f.masked { ZeroKey(f.payload); }
  }

  lemma ThreeParts(h: seq<byte>, o: seq<byte>, b: seq<byte>)
    requires |h| == 2
    ensures var w := h + o + b;
            && |w| == 2 + |o| + |b| && w[0] == h[0] && w[1] == h[1] && (|o| >= 2 ==> w[2] == o[0] && w[3] == o[1])
            && (|o| >= 4 ==> w[2 + |o| - 4..2 + |o|] == o[|o| - 4..])
    ensures forall i | 0 <= i < |b| :: (h + o + b)[2 + |o| + i] == b[i]
  {
  }

  lemma LengthByteIs(f: Frame)
    requires Readable(f)
    ensures LengthByte(f) as int == (if f.long then 126 else |f.payload|) + (if f.masked then 128 else 0)
  {
    LengthByteSays(f);
    SevenIsSmall(Length7(f));
    FlagAdds(Length7(f), f.masked);
  }

  lemma SevenIsSmall(n: byte)
    requires n <= 126
    ensures n < 0x80 && (n == 126 ==> n as int == 126)
  {
  }

  lemma FlagAdds(n: byte, flag: bool)
    requires n < 0x80
    ensures Flagged(n, flag) as int == n as int + if flag then 128 else 0
  {
  }

  /** The payloads one after the other. */
  function Payloads(fs: seq<Frame>): seq<byte> {
    if fs == [] then [] else fs[0].payload + Payloads(fs[1..])
  }

  /** Text frames and binary frames, in one piece. */
  predicate AllData(fs: seq<Frame>) { fs == [] || ((fs[0].first == 0x81 || fs[0].first == 0x82) && AllData(fs[1..])) }

  lemma {:induction false} DataIsShown(fs: seq<Frame>)
    requires AllData(fs)
    ensures Shown(0, fs) == Payloads(fs) && Replies(1, fs) == []
  {
    if fs != [] {
      ControlBit(fs[0]);
      DataIsShown(fs[1..]);
      assert fs[0].payload[0..] == fs[0].payload;
    }
  }

  /** They come back whole, masked or not, and nothing is sent. */
  method ReadData(fs: seq<Frame>) returns (got: seq<byte>, sent: seq<byte>)
    requires AllReadable(fs) && AllData(fs)
    ensures got == Payloads(fs) && sent == []
  {
    got, sent := ByteByByte(fs);
    DataIsShown(fs);
  }

  /** "hi" as a text. */
  method ReadHi() returns (got: seq<byte>)
    ensures FrameBytes(Frame(0x81, false, false, [0, 0, 0, 0], [0x68, 0x69])) == [0x81, 0x02, 0x68, 0x69]
    ensures got == [0x68, 0x69]
  {
    var f := Frame(0x81, false, false, [0, 0, 0, 0], [0x68, 0x69]);
    HiBytes(f);
    OnePayload(f);
    var sent;
    got, sent := ReadData([f]);
  }

  lemma OnePayload(f: Frame)
    requires f.first == 0x81 || f.first == 0x82
    ensures AllData([f]) && Payloads([f]) == f.payload
  {
    var fs := [f];
    assert fs[1..] == [] && Payloads(fs) == fs[0].payload + Payloads(fs[1..]);
    assert f.payload + [] == f.payload;
  }

  lemma HiBytes(f: Frame)
    requires f == Frame(0x81, false, false, [0, 0, 0, 0], [0x68, 0x69])
    ensures Readable(f) && FrameBytes(f) == [0x81, 0x02, 0x68, 0x69]
  {
    ZeroKey(f.payload);
    assert Options(f) == [] && Body(f) == [0x68, 0x69];
  }

  lemma CloseReply(f: Frame)
    requires f.first == 0x88
    ensures Replies(1, [f]) == [0x81, 2, 0x88, 0]
  {
    ControlBit(f);
    CloseReplySent(1);
    assert [f][1..] == [];
  }

  lemma CloseStep(f: Frame, rest: seq<Frame>, d: seq<Frame>, ended: bool, was: seq<byte>, now: seq<byte>)
    requires f.first == 0x88 && Served(1, was, now, [f], rest, d) && ClosesLast(d, ended) && was == []
    ensures if rest == [] then ended && now == [0x81, 2, 0x88, 0] else rest == [f] && now == []
  {
    CloseReply(f);
    ControlBit(f);
    if rest == [] {
      AllServed(1, was, now, [f], d);
    } else {
      assert |d| + |rest| == 1;
      assert d == [] && d + rest == rest;
    }
  }

  /** A close frame, masked or not and with any payload: the call that finishes it returns the end of
      the stream, and the answer has been sent. */
  method ReadClose(f: Frame) returns (last: Status, sent: seq<byte>)
    requires Readable(f) && f.first == 0x88
    ensures last == End && sent == [0x81, 2, 0x88, 0]
  {
    FirstReadable([f]);
    FrameLength([f]);
    var wire := Wire([f]);
    var sock := new Socket(wire, seq(|wire|, _ => 1));
    var c := new Connection(sock, [f]);
    var got := [];
    last := WouldBlock;
    ghost var shown := Shown(0, [f]);
    while sock.pos < |sock.input|
      invariant c.Valid() && c.Idle() && c.opts == 1 && BringsAll(sock) && got + Shown(c.Begun(), c.frames) == shown
      invariant if c.frames == [] then last == End && sock.output == [0x81, 2, 0x88, 0]
                else c.frames == [f] && sock.output == []
      decreases |sock.input| - sock.pos, |shown| - |got|, |c.frames|, |sock.schedule|
    {
      ghost var d;
      if c.frames == [] { c.NothingUnread(); }
      last, got, d := NextByte(c, got, shown);
      CloseStep(f, c.frames, d, last == End, [], sock.output);
    }
    c.AllFinished();
    sent := sock.output;
  }

  // ---------- from one end to the other ----------

  /** All writes, one after the other, on an object as constructed. */
  method WriteAll(bs: seq<seq<byte>>) returns (wire: seq<byte>)
    requires Sendable(bs)
    ensures wire == Sent(1, bs)
  {
    var sock := new Socket([], []);
    var c := new Connection(sock, []);
    for i := 0 to |bs|
      invariant c.opts == 1 && sock.output == Sent(1, bs[..i])
    {
      SentNext(1, bs, i);
      c.Write(bs[i]);
    }
    assert bs[..|bs|] == bs;
    wire := sock.output;
  }

  lemma SentNext(opts: byte, bs: seq<seq<byte>>, i: nat)
    requires Sendable(bs) && i < |bs|
    ensures Sendable(bs[..i]) && Sendable(bs[..i + 1]) && |bs[i]| < 0x10000
    ensures Sent(opts, bs[..i + 1]) == Sent(opts, bs[..i]) + SentBytes(opts, bs[i])
  {
    SentMore(opts, bs[..i], bs[i]);
    assert bs[..i + 1] == bs[..i] + [bs[i]];
  }

  lemma {:induction false} SentMore(opts: byte, bs: seq<seq<byte>>, b: seq<byte>)
    requires Sendable(bs) && |b| < 0x10000
    ensures Sendable(bs + [b]) && Sent(opts, bs + [b]) == Sent(opts, bs) + SentBytes(opts, b)
  {
    if bs == [] {
      assert bs + [b] == [b] && [b][1..] == [];
    } else {
      assert (bs + [b])[1..] == bs[1..] + [b] && (bs + [b])[0] == bs[0];
      SentMore(opts, bs[1..], b);
      Associate(SentBytes(opts, bs[0]), Sent(opts, bs[1..]), SentBytes(opts, b));
    }
  }

  /** What one object writes another reads: the bytes written, in order. */
  method Exchange(bs: seq<seq<byte>>) returns (got: seq<byte>)
    requires Sendable(bs)
    ensures got == Concat(bs)
  {
    var wire := WriteAll(bs);
    WritesReadBack(1, bs);
    ghost var fs := SentFrames(1, bs);
    ShownIsData(fs);
    var sock := new Socket(wire, seq(|wire|, _ => 1));
    var c := new Connection(sock, fs);
    got := ReadOut(c);
  }

  /** A masked ping with two bytes: the first of them is returned as data. */
  method PingReturned(key: seq<byte>, p: seq<byte>) returns (got: seq<byte>)
    requires |key| == 4 && |p| == 2
    ensures got == p[..1]
    ensures FrameBytes(Frame(0x89, false, true, key, p)) == [0x89, 0x82] + key + [p[0] ^ key[0], p[1] ^ key[1]]
  {
    var ping := Frame(0x89, false, true, key, p);
    assert Mask(key, p, 0) == [p[0] ^ key[0], p[1] ^ key[1]];
    assert Shown(0, [ping]) == p[0..1] + [];
    var sent;
    got, sent := ByteByByte([ping]);
  }
}
