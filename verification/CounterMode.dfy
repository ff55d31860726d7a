/** AES in counter mode (section 6.5 of NIST SP 800-38A) over a block cipher that is a parameter. */
module CounterMode {
  import opened ByteSeqs

  type Block = s: seq<byte> | |s| == 16 witness [0, 0, 0, 0, 0, 0, 0, 0, 0, 0, 0, 0, 0, 0, 0, 0]

  const TWO_TO_128: nat := 0x1_00000000_00000000_00000000_00000000

  // ---------- the counter ----------

  /** The number that the bytes are, most significant first. */
  function Value(s: seq<byte>): nat {
    if s == [] then 0 else Value(s[..|s| - 1]) * 256 + s[|s| - 1] as nat
  }

  function Pow256(n: nat): nat { if n == 0 then 1 else 256 * Pow256(n - 1) }

  /** The bytes after one increment that carries from the end to the front. */
  function Bumped(s: seq<byte>): (t: seq<byte>)
    ensures |t| == |s|
  {
    if s == [] then []
    else if s[|s| - 1] + 1 != 0 then s[|s| - 1 := s[|s| - 1] + 1]
    else Bumped(s[..|s| - 1]) + [0]
  }

  lemma ByteUp(b: byte)
    ensures b + 1 != 0 ==> (b + 1) as nat == b as nat + 1
    ensures b + 1 == 0 ==> b as nat == 255
  {
    if b + 1 == 0 { assert b == 255; }
  }

  lemma {:induction false} ValueBelow(s: seq<byte>)
    ensures Value(s) < Pow256(|s|)
  {
    if s != [] { ValueBelow(s[..|s| - 1]); }
  }

  lemma {:induction false} BumpedValue(s: seq<byte>)
    ensures Value(Bumped(s)) == if Value(s) + 1 == Pow256(|s|) then 0 else Value(s) + 1
  {
    if s != [] {
      var n := |s| - 1;
      ByteUp(s[n]);
      ValueBelow(s[..n]);
      if s[n] + 1 == 0 {
        BumpedValue(s[..n]);
        assert Bumped(s)[..n] == Bumped(s[..n]);
      } else {
        assert Bumped(s)[..n] == s[..n];
      }
    }
  }

  lemma SixteenBytes()
    ensures Pow256(16) == TWO_TO_128
  {
    assert Pow256(4) == 0x1_00000000;
    assert Pow256(8) == 0x1_00000000_00000000;
    assert Pow256(12) == 0x1_00000000_00000000_00000000;
  }

  lemma {:induction false} ValueTellsApart(a: seq<byte>, b: seq<byte>)
    requires |a| == |b| && Value(a) == Value(b)
    ensures a == b
  {
    if a != [] {
      var n := |a| - 1;
      SameByte(a[n], b[n], Value(a[..n]), Value(b[..n]));
      ValueTellsApart(a[..n], b[..n]);
      assert a == a[..n] + [a[n]] && b == b[..n] + [b[n]];
    }
  }

  lemma SameByte(a: byte, b: byte, u: nat, v: nat)
    requires u * 256 + a as nat == v * 256 + b as nat
    ensures a == b && u == v
  {
    SameRest(a as int, b as int, u, v);
    SameBits(a, b);
  }

  lemma SameRest(a: int, b: int, u: int, v: int)
    requires 0 <= a < 256 && 0 <= b < 256 && u * 256 + a == v * 256 + b
    ensures a == b && u == v
  {
  }

  lemma SameBits(a: byte, b: byte)
    requires a as int == b as int
    ensures a == b
  {
    assert (a as int) as bv8 == a;
  }

  /** The counter after `k` increments. */
  function Nth(iv: Block, k: nat): Block {
    if k == 0 then iv else Bumped(Nth(iv, k - 1))
  }

  /** Counting is modulo 2^128. */
  lemma {:induction false} NthValue(iv: Block, k: nat)
    ensures Value(Nth(iv, k)) == (Value(iv) + k) % TWO_TO_128
  {
    if k == 0 {
      SixteenBytes();
      ValueBelow(iv);
    } else {
      NthValue(iv, k - 1);
      BlockUp(Nth(iv, k - 1), Value(iv) + k - 1);
    }
  }

  lemma BlockUp(b: Block, v: nat)
    requires Value(b) == v % TWO_TO_128
    ensures Value(Bumped(b)) == (v + 1) % TWO_TO_128
  {
    SixteenBytes();
    BumpedValue(b);
    OneOn(v);
  }

  lemma OneOn(a: nat)
    ensures var r := a % TWO_TO_128; (a + 1) % TWO_TO_128 == if r + 1 == TWO_TO_128 then 0 else r + 1
  {
  }

  lemma WholeTurns(a: int, q: int)
    ensures (a + q * TWO_TO_128) % TWO_TO_128 == a % TWO_TO_128
  {
  }

  lemma SameRemainder(x: int, i: int, j: int)
    ensures (x + i) % TWO_TO_128 == (x + j) % TWO_TO_128 <==> (j - i) % TWO_TO_128 == 0
  {
    if (j - i) % TWO_TO_128 == 0 {
      WholeTurns(x + i, (j - i) / TWO_TO_128);
    }
    if (x + i) % TWO_TO_128 == (x + j) % TWO_TO_128 {
      WholeTurns(0, (x + j) / TWO_TO_128 - (x + i) / TWO_TO_128);
    }
  }

  /** No counter value comes twice within 2^128 blocks, and then the first comes again. */
  lemma CountersDiffer(iv: Block, i: nat, j: nat)
    ensures Nth(iv, i) == Nth(iv, j) <==> (j - i) % TWO_TO_128 == 0
  {
    NthValue(iv, i);
    NthValue(iv, j);
    SameRemainder(Value(iv), i, j);
    if (j - i) % TWO_TO_128 == 0 {
      ValueTellsApart(Nth(iv, i), Nth(iv, j));
    }
  }

  // ---------- the key stream ----------

  /** Byte `i` of the stream E(iv), E(iv + 1), ... */
  function KeyByte(cipher: Block -> Block, iv: Block, i: nat): byte {
    cipher(Nth(iv, i / 16))[i % 16]
  }

  /** A message part that starts at byte `from` of the whole message. */
  function Stream(cipher: Block -> Block, iv: Block, from: nat, m: seq<byte>): (r: seq<byte>)
    ensures |r| == |m|
  {
    seq(|m|, i requires 0 <= i < |m| => m[i] ^ KeyByte(cipher, iv, from + i))
  }

  /** The value is read as digits to the base 256, the first byte being the most significant. */
  lemma {:induction false} ValueOfParts(a: seq<byte>, b: seq<byte>)
    ensures Value(a + b) == Value(a) * Pow256(|b|) + Value(b)
    ensures |b| == 1 ==> Value(b) == b[0] as nat
    decreases |b|
  {
    if b == [] {
      assert a + b == a;
    } else {
      var n := |b| - 1;
      assert (a + b)[..|a| + n] == a + b[..n];
      ValueOfParts(a, b[..n]);
      ShiftedValue(Value(a), Pow256(n), Value(b[..n]), b[n] as nat);
      if n == 0 { assert b[..0] == []; }
    }
  }

  lemma ShiftedValue(v: nat, p: nat, w: nat, d: nat)
    ensures (v * p + w) * 256 + d == v * (256 * p) + (w * 256 + d)
  {
  }

  /** Byte j of block k of the output is the input combined with byte j of the encrypted counter, which
      is the initial one plus k. */
  lemma StreamBlock(cipher: Block -> Block, iv: Block, m: seq<byte>, k: nat, j: nat, counter: Block)
    requires j < 16 && 16 * k + j < |m| && Value(counter) == (Value(iv) + k) % TWO_TO_128
    ensures Stream(cipher, iv, 0, m)[16 * k + j] == m[16 * k + j] ^ cipher(counter)[j]
  {
    NthValue(iv, k);
    ValueTellsApart(Nth(iv, k), counter);
    BlockOf(k, j);
  }

  lemma BlockOf(k: nat, j: nat)
    requires j < 16
    ensures (16 * k + j) / 16 == k && (16 * k + j) % 16 == j
  {
  }

  /** Byte `i` of the output, by its block, for whatever block the counter is then. */
  ghost predicate Combined(cipher: Block -> Block, iv: Block, m: seq<byte>, out: seq<byte>, i: nat)
    requires i < |m| == |out|
  {
    forall counter: Block | Value(counter) == (Value(iv) + i / 16) % TWO_TO_128 ::
      out[i] == m[i] ^ cipher(counter)[i % 16]
  }

  lemma StreamCombines(cipher: Block -> Block, iv: Block, m: seq<byte>, i: nat)
    requires i < |m|
    ensures Combined(cipher, iv, m, Stream(cipher, iv, 0, m), i)
  {
    forall counter: Block | Value(counter) == (Value(iv) + i / 16) % TWO_TO_128
      ensures Stream(cipher, iv, 0, m)[i] == m[i] ^ cipher(counter)[i % 16]
    {
      StreamBlock(cipher, iv, m, i / 16, i % 16, counter);
    }
  }

  function Flatten(chunks: seq<seq<byte>>): seq<byte> {
    if chunks == [] then [] else chunks[0] + Flatten(chunks[1..])
  }

  /** The outputs of one call after the other. */
  function ByChunks(cipher: Block -> Block, iv: Block, from: nat, chunks: seq<seq<byte>>): seq<byte>
    decreases |chunks|
  {
    if chunks == [] then []
    else Stream(cipher, iv, from, chunks[0]) + ByChunks(cipher, iv, from + |chunks[0]|, chunks[1..])
  }

  /** However a message is cut into chunks, the output is that of the whole message. */
  lemma {:induction false} ChunksAreWhole(cipher: Block -> Block, iv: Block, from: nat, chunks: seq<seq<byte>>)
    ensures ByChunks(cipher, iv, from, chunks) == Stream(cipher, iv, from, Flatten(chunks))
    decreases |chunks|
  {
    if chunks != [] {
      ChunksAreWhole(cipher, iv, from + |chunks[0]|, chunks[1..]);
      StreamJoin(cipher, iv, from, chunks[0], Flatten(chunks[1..]));
    }
  }

  lemma StreamJoin(cipher: Block -> Block, iv: Block, from: nat, a: seq<byte>, b: seq<byte>)
    ensures Stream(cipher, iv, from, a + b) == Stream(cipher, iv, from, a) + Stream(cipher, iv, from + |a|, b)
  {
    var l, r := Stream(cipher, iv, from, a + b), Stream(cipher, iv, from, a) + Stream(cipher, iv, from + |a|, b);
    forall i | 0 <= i < |l| ensures l[i] == r[i] {
      if i >= |a| { assert from + |a| + (i - |a|) == from + i; }
    }
  }

  /** The same stream takes the message back out. */
  lemma StreamInverts(cipher: Block -> Block, iv: Block, from: nat, m: seq<byte>)
    ensures Stream(cipher, iv, from, Stream(cipher, iv, from, m)) == m
  {
    var c := Stream(cipher, iv, from, m);
    forall i | 0 <= i < |m| ensures Stream(cipher, iv, from, c)[i] == m[i] {
      XorTwice(m[i], KeyByte(cipher, iv, from + i));
    }
  }

  /** What one object turns into ciphertext by any chunks, another with the same key and initial
      counter turns back by any other chunks. */
  lemma SecondObjectInverts(cipher: Block -> Block, iv: Block, plain: seq<seq<byte>>, secret: seq<seq<byte>>)
    requires Flatten(secret) == ByChunks(cipher, iv, 0, plain)
    ensures ByChunks(cipher, iv, 0, secret) == Flatten(plain)
  {
    ChunksAreWhole(cipher, iv, 0, plain);
    ChunksAreWhole(cipher, iv, 0, secret);
    StreamInverts(cipher, iv, 0, Flatten(plain));
  }

  // ---------- the object ----------

  datatype KeyType = Unset | Encrypting | Decrypting

  datatype Outcome = Ok | OutputTooSmall | CannotEncryptAndDecrypt

  class Aes {
    const cipher: Block -> Block
    /** ctx->iv, incremented in place */
    const counter: array<byte>
    var offset: nat
    var encrypted: Block
    var keyType: KeyType
    ghost const iv: Block
    /** how many bytes have gone through */
    ghost var done: nat

    ghost predicate Valid()
      reads this, counter
    {
      && counter.Length == 16 && offset == done % 16
      && counter[..] == Nth(iv, (done + 15) / 16)
      && (offset != 0 ==> encrypted == cipher(Nth(iv, done / 16)))
    }

    constructor (cipher: Block -> Block, iv: Block)
      ensures Valid() && fresh(counter) && done == 0 && keyType == Unset && this.iv == iv && this.cipher == cipher
    {
      this.cipher, this.iv := cipher, iv;
      counter := new byte[16](i requires 0 <= i < 16 => iv[i]);
      offset, encrypted, keyType, done := 0, iv, Unset, 0;
      new;
      assert counter[..] == iv;
    }

    /** The increment of the counter, with its early end. */
    method Increment()
      requires counter.Length == 16
      modifies counter
      ensures counter[..] == Bumped(old(counter[..]))
    {
      var i := 15;
      assert counter[..16] == counter[..] && counter[16..] == [];
      while i >= 0
        invariant -1 <= i <= 15
        invariant Bumped(counter[..i + 1]) + counter[i + 1..] == Bumped(old(counter[..]))
      {
        ghost var before := counter[..i + 1];
        ghost var tail := counter[i + 1..];
        counter[i] := counter[i] + 1;
        assert counter[i + 1..] == tail && counter[..i] == before[..i];
        if counter[i] != 0 {
          assert counter[..] == Bumped(before) + tail;
          break;
        }
        assert Bumped(before) + tail == Bumped(counter[..i]) + counter[i..];
        i := i - 1;
      }
    }

    /** The next byte of the key stream. */
    method NextKeyByte() returns (k: byte)
      requires Valid()
      modifies `offset, `encrypted, `done, counter
      ensures Valid() && k == KeyByte(cipher, iv, old(done)) && done == old(done) + 1
    {
      if offset == 0 {
        encrypted := cipher(counter[..]);
        Increment();
      }
      k := encrypted[offset];
      offset := (offset + 1) % 16;
      done := done + 1;
    }

    /** aes_process_ctr_impl */
    method Apply(input: array<byte>, output: array<byte>)
      requires Valid() && output != counter && input != counter && input.Length <= output.Length
      modifies `offset, `encrypted, `done, counter, output
      ensures Valid() && done == old(done) + input.Length
      ensures output[..input.Length] == Stream(cipher, iv, old(done), old(input[..]))
    {
      for i := 0 to input.Length
        invariant Valid() && done == old(done) + i
        invariant forall j | i <= j < input.Length :: input[j] == old(input[j])
        invariant forall j | 0 <= j < i :: output[j] == old(input[j]) ^ KeyByte(cipher, iv, old(done) + j)
      {
        var k := NextKeyByte();
        output[i] := input[i] ^ k;
      }
    }

    /** aes_process for counter mode; `output` may be `input` itself. */
    method Process(input: array<byte>, output: array<byte>, encrypt: bool) returns (r: Outcome)
      requires Valid() && output != counter && input != counter
      modifies `offset, `encrypted, `keyType, `done, counter, output
      ensures Valid()
      ensures r == (if output.Length < input.Length then OutputTooSmall
                    else if old(keyType) == (if encrypt then Decrypting else Encrypting) then CannotEncryptAndDecrypt
                    else Ok)
      ensures r == Ok ==> && keyType == (if encrypt then Encrypting else Decrypting)
                          && done == old(done) + input.Length
                          && output[..input.Length] == Stream(cipher, iv, old(done), old(input[..]))
      ensures r != Ok ==> keyType == old(keyType) && done == old(done) && output[..] == old(output[..])
    {
      if output.Length < input.Length {
        return OutputTooSmall;
      }
      if keyType == Unset {
        keyType := if encrypt then Encrypting else Decrypting;
      } else if (encrypt && keyType == Decrypting) || (!encrypt && keyType == Encrypting) {
        return CannotEncryptAndDecrypt;
      }
      Apply(input, output);
      return Ok;
    }
  }

  /** A whole message by one call on a new object. */
  method ProcessWhole(cipher: Block -> Block, iv: Block, m: seq<byte>, encrypt: bool) returns (out: seq<byte>)
    ensures |out| == |m| && forall i | 0 <= i < |m| :: Combined(cipher, iv, m, out, i)
  {
    var aes := new Aes(cipher, iv);
    out := ProcessChunk(aes, m, encrypt);
    forall i | 0 <= i < |m| ensures Combined(cipher, iv, m, out, i) {
      StreamCombines(cipher, iv, m, i);
    }
  }

  method ProcessChunk(aes: Aes, chunk: seq<byte>, encrypt: bool) returns (out: seq<byte>)
    requires aes.Valid() && aes.keyType != (if encrypt then Decrypting else Encrypting)
    modifies aes, aes.counter
    ensures aes.Valid() && aes.keyType != (if encrypt then Decrypting else Encrypting)
    ensures aes.done == old(aes.done) + |chunk| && out == Stream(aes.cipher, aes.iv, old(aes.done), chunk)
  {
    var buf := new byte[|chunk|](j requires 0 <= j < |chunk| => chunk[j]);
    assert buf[..] == chunk;
    var r := aes.Process(buf, buf, encrypt);
    out := buf[..];
    assert out == buf[..buf.Length];
  }

  /** A client that processes a message chunk by chunk. */
  method ProcessChunks(aes: Aes, chunks: seq<seq<byte>>, encrypt: bool) returns (out: seq<byte>)
    requires aes.Valid() && aes.done == 0 && aes.keyType == Unset
    modifies aes, aes.counter
    ensures aes.Valid() && out == Stream(aes.cipher, aes.iv, 0, Flatten(chunks))
  {
    out := [];
    ghost var whole := ByChunks(aes.cipher, aes.iv, 0, chunks);
    assert chunks[0..] == chunks && out + whole == whole;
    for i := 0 to |chunks|
      invariant aes.Valid() && aes.keyType != (if encrypt then Decrypting else Encrypting)
      invariant out + ByChunks(aes.cipher, aes.iv, aes.done, chunks[i..]) == whole
    {
      NextChunk(out, aes.cipher, aes.iv, aes.done, chunks[i..]);
      assert chunks[i..][1..] == chunks[i + 1..];
      var o := ProcessChunk(aes, chunks[i], encrypt);
      out := out + o;
    }
    ChunksAreWhole(aes.cipher, aes.iv, 0, chunks);
  }

  lemma NextChunk(out: seq<byte>, cipher: Block -> Block, iv: Block, from: nat, chunks: seq<seq<byte>>)
    requires chunks != []
    ensures out + Stream(cipher, iv, from, chunks[0]) + ByChunks(cipher, iv, from + |chunks[0]|, chunks[1..])
         == out + ByChunks(cipher, iv, from, chunks)
  {
    Associate(out, Stream(cipher, iv, from, chunks[0]), ByChunks(cipher, iv, from + |chunks[0]|, chunks[1..]));
  }
}
