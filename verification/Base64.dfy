/** Base64 (section 4 of RFC 4648): an encoder in two passes over its output buffer, and a decoder
    that skips what is not base64 and gathers bits. */
module Base64 {
  import opened ByteSeqs

  const PAD: byte := 0x3d
  const NEWLINE: byte := 0x0a
  /** the -1 of mod_binascii_sextet */
  const NONE: byte := 0xff

  /** mod_binascii_sextet: 'A' to 'Z', 'a' to 'z', '0' to '9', '+' and '/' */
  function Sextet(ch: byte): byte {
    if 0x41 <= ch <= 0x5a then ch - 0x41
    else if 0x61 <= ch <= 0x7a then ch - 0x61 + 26
    else if 0x30 <= ch <= 0x39 then ch - 0x30 + 52
    else if ch == 0x2b then 62
    else if ch == 0x2f then 63
    else NONE
  }

  /** The second pass of the encoder, for one value. */
  function Ascii(v: byte): byte {
    if v < 26 then v + 0x41
    else if v < 52 then v + (0x61 - 26)
    else if v < 62 then v - (52 - 0x30)
    else if v == 62 then 0x2b
    else if v == 63 then 0x2f
    else PAD
  }

  /** The alphabet, Table 1 in section 4 of RFC 4648. */
  function Letter(v: nat): char
    requires v < 64
  {
    if v < 26 then "ABCDEFGHIJKLMNOPQRSTUVWXYZ"[v]
    else if v < 52 then "abcdefghijklmnopqrstuvwxyz"[v - 26]
    else if v < 62 then "0123456789"[v - 52]
    else "+/"[v - 62]
  }

  lemma LetterCodes(v: nat)
    requires v < 64
    ensures Letter(v) as int ==
            if v < 26 then v + 0x41 else if v < 52 then v + 71 else if v < 62 then v - 4
            else if v == 62 then 0x2b else 0x2f
  {
  }

  /** The encoder writes the letters of the table. */
  lemma AlphabetIs(v: byte)
    requires v < 64
    ensures v as int < 64 && Ascii(v) as int == Letter(v as int) as int
  {
    SmallValue(v);
    LetterCodes(v as int);
  }

  lemma SmallValue(v: byte)
    requires v < 64
    ensures v as int < 64
    ensures Ascii(v) as int == if v < 26 then v as int + 0x41 else if v < 52 then v as int + 71
                               else if v < 62 then v as int - 4 else if v == 62 then 0x2b else 0x2f
  {
  }

  lemma SextetOfAscii(v: byte)
    ensures v < 64 ==> Sextet(Ascii(v)) == v && Ascii(v) != PAD
    ensures v == 64 ==> Ascii(v) == PAD
    ensures Sextet(PAD) == NONE && Sextet(NEWLINE) == NONE
  {
  }

  lemma SextetRange(ch: byte)
    ensures Sextet(ch) < 64 || Sextet(ch) == NONE
  {
  }

  // ---------- groups of bits ----------

  function High(a: byte): byte { a >> 2 }
  function Upper(a: byte, b: byte): byte { ((a & 0x03) << 4) | (b >> 4) }
  function Lower(b: byte, c: byte): byte { ((b & 0x0f) << 2) | (c >> 6) }
  function Low(c: byte): byte { c & 0x3f }

  function First(p: byte, q: byte): byte { (p << 2) | (q >> 4) }
  function Second(q: byte, r: byte): byte { (q << 4) | (r >> 2) }
  function Third(r: byte, s: byte): byte { (r << 6) | s }

  lemma GroupsInvert(a: byte, b: byte, c: byte)
    ensures First(High(a), Upper(a, b)) == a
    ensures Second(Upper(a, b), Lower(b, c)) == b
    ensures Third(Lower(b, c), Low(c)) == c
  {
  }

  lemma GroupsSmall(a: byte, b: byte)
    ensures High(a) < 64 && Upper(a, b) < 64 && Lower(a, b) < 64 && Low(a) < 64
  {
  }

  /** Byte `k` of the data, out of the two sextets that share it. */
  function Join(k: nat, hi: byte, lo: byte): byte {
    if k % 3 == 0 then First(hi, lo) else if k % 3 == 1 then Second(hi, lo) else Third(hi, lo)
  }

  /** The bytes that a run of sextets holds; bits that do not fill a byte are dropped. */
  function Bytes(q: seq<byte>): (d: seq<byte>)
    ensures |d| == 6 * |q| / 8
  {
    seq(6 * |q| / 8, k requires 0 <= k < 6 * |q| / 8 => Join(k, q[k + k / 3], q[k + k / 3 + 1]))
  }

  /** What one more sextet completes. */
  function Completed(n: nat, last: byte, s: byte): seq<byte> {
    if n % 4 == 0 then [] else [Join(6 * (n + 1) / 8 - 1, last, s)]
  }

  lemma NewByte(n: nat)
    ensures n % 4 == 0 ==> 6 * (n + 1) / 8 == 6 * n / 8
    ensures n % 4 != 0 ==> var k := 6 * n / 8; 6 * (n + 1) / 8 == k + 1 && k + k / 3 == n - 1
  {
  }

  lemma BytesGrow(q: seq<byte>, s: byte)
    ensures Bytes(q + [s]) == Bytes(q) + Completed(|q|, if q == [] then 0 else q[|q| - 1], s)
  {
    NewByte(|q|);
  }

  lemma ThreeOn(k: nat)
    ensures k + 3 + (k + 3) / 3 == 4 + (k + k / 3) && (k + 3) % 3 == k % 3
  {
  }

  lemma BehindGroup(v: seq<byte>, q: seq<byte>, j: nat)
    requires |v| == 4 && j < |Bytes(q)|
    ensures 3 + j < |Bytes(v + q)| && Bytes(v + q)[3 + j] == Bytes(q)[j]
  {
    ThreeOn(j);
    assert (v + q)[4 + (j + j / 3)] == q[j + j / 3] && (v + q)[4 + (j + j / 3) + 1] == q[j + j / 3 + 1];
  }

  lemma BytesGroup(v: seq<byte>, q: seq<byte>)
    requires |v| == 4
    ensures Bytes(v + q) == [First(v[0], v[1]), Second(v[1], v[2]), Third(v[2], v[3])] + Bytes(q)
  {
    var l, r := Bytes(v + q), [First(v[0], v[1]), Second(v[1], v[2]), Third(v[2], v[3])] + Bytes(q);
    assert |l| == 3 + |Bytes(q)|;
    forall j | 0 <= j < |Bytes(q)| ensures l[3 + j] == Bytes(q)[j] {
      BehindGroup(v, q, j);
    }
    assert l[..3] == r[..3] && l[3..] == r[3..];
    assert l == l[..3] + l[3..] && r == r[..3] + r[3..];
  }

  lemma BytesOfFew(p: byte, q: byte, r: byte)
    ensures Bytes([p, q]) == [First(p, q)] && Bytes([p, q, r]) == [First(p, q), Second(q, r)]
  {
  }

  // ---------- the encoder ----------

  function Group(a: byte, b: byte, c: byte): (v: seq<byte>)
    ensures |v| == 4
  {
    [High(a), Upper(a, b), Lower(b, c), Low(c)]
  }

  function One(a: byte): (v: seq<byte>)
    ensures |v| == 2
  {
    [High(a), Upper(a, 0)]
  }

  function Two(a: byte, b: byte): (v: seq<byte>)
    ensures |v| == 3
  {
    [High(a), Upper(a, b), Lower(b, 0)]
  }

  /** The values of the first pass; 64 stands for padding. */
  function Values(d: seq<byte>): seq<byte> {
    if d == [] then []
    else if |d| == 1 then One(d[0]) + [64, 64]
    else if |d| == 2 then Two(d[0], d[1]) + [64]
    else Group(d[0], d[1], d[2]) + Values(d[3..])
  }

  function Text(vs: seq<byte>): (t: seq<byte>)
    ensures |t| == |vs|
  {
    seq(|vs|, i requires 0 <= i < |vs| => Ascii(vs[i]))
  }

  function Encoded(d: seq<byte>, newline: bool): seq<byte> {
    Text(Values(d)) + if newline then [NEWLINE] else []
  }

  function Size(n: nat): nat { if n == 0 then 0 else ((n - 1) / 3 + 1) * 4 }

  lemma {:induction false} ValuesSize(d: seq<byte>)
    ensures |Values(d)| == Size(|d|)
  {
    if |d| > 3 { ValuesSize(d[3..]); }
  }

  // ---------- the decoder ----------

  datatype Decoded = Ok(data: seq<byte>) | IncorrectPadding

  /** The sextets that count when `n` came before, and whether a padding ends them: one pad
      character after three of a group, or two after two. */
  function Cut(t: seq<byte>, n: nat, hadPad: bool): (c: (seq<byte>, bool))
    ensures |c.0| <= |t|
  {
    if t == [] then ([], false)
    else if t[0] == PAD then
      if n % 4 == 3 || (n % 4 == 2 && hadPad) then ([], true) else Cut(t[1..], n, true)
    else if Sextet(t[0]) == NONE then Cut(t[1..], n, hadPad)
    else var (q, padded) := Cut(t[1..], n + 1, false); ([Sextet(t[0])] + q, padded)
  }

  function Reading(t: seq<byte>): Decoded {
    var (q, padded) := Cut(t, 0, false);
    if padded || |q| % 4 == 0 then Ok(Bytes(q)) else IncorrectPadding
  }

  /** A byte that is neither of the alphabet nor a pad character. */
  predicate Foreign(ch: byte) { Sextet(ch) == NONE && ch != PAD }

  /** Foreign bytes can be put in anywhere, also between pad characters. */
  lemma {:induction false} ForeignSkipped(s: seq<byte>, junk: seq<byte>, t: seq<byte>, n: nat, hadPad: bool)
    requires forall i | 0 <= i < |junk| :: Foreign(junk[i])
    ensures Cut(s + junk + t, n, hadPad) == Cut(s + t, n, hadPad)
    decreases |s| + |junk|
  {
    if s != [] {
      assert (s + junk + t)[1..] == s[1..] + junk + t && (s + t)[1..] == s[1..] + t;
      ForeignSkipped(s[1..], junk, t, n, true);
      ForeignSkipped(s[1..], junk, t, n, hadPad);
      ForeignSkipped(s[1..], junk, t, n + 1, false);
    } else if junk != [] {
      assert (s + junk + t)[1..] == s + junk[1..] + t;
      ForeignSkipped(s, junk[1..], t, n, hadPad);
    } else {
      assert s + junk + t == s + t;
    }
  }

  lemma ForeignIgnored(s: seq<byte>, junk: seq<byte>, t: seq<byte>)
    requires forall i | 0 <= i < |junk| :: Foreign(junk[i])
    ensures Reading(s + junk + t) == Reading(s + t)
  {
    ForeignSkipped(s, junk, t, 0, false);
  }

  // ---------- there and back ----------

  predicate AllSextets(v: seq<byte>) { forall i | 0 <= i < |v| :: v[i] < 64 }

  /** Characters of the alphabet are taken one by one. */
  lemma {:induction false} CutRun(v: seq<byte>, rest: seq<byte>, n: nat)
    requires AllSextets(v)
    ensures Cut(Text(v) + rest, n, false) == (v + Cut(rest, n + |v|, false).0, Cut(rest, n + |v|, false).1)
  {
    var t := Text(v) + rest;
    if v == [] {
      assert t == rest && v + Cut(rest, n, false).0 == Cut(rest, n, false).0;
    } else {
      SextetOfAscii(v[0]);
      assert t[1..] == Text(v[1..]) + rest;
      CutRun(v[1..], rest, n + 1);
      assert v == [v[0]] + v[1..];
      Associate([v[0]], v[1..], Cut(rest, n + |v|, false).0);
    }
  }

  /** What the padding at the end of a group ends. */
  lemma CutPads(tail: seq<byte>, n: nat)
    ensures n % 4 == 3 ==> Cut([PAD] + tail, n, false) == ([], true)
    ensures n % 4 == 2 ==> Cut([PAD, PAD] + tail, n, false) == ([], true)
  {
    assert ([PAD, PAD] + tail)[1..] == [PAD] + tail;
  }

  /** A last group, which padding ends. */
  lemma CutLast(v: seq<byte>, pads: nat, tail: seq<byte>, n: nat)
    requires AllSextets(v) && n % 4 == 0 && ((|v| == 2 && pads == 2) || (|v| == 3 && pads == 1))
    ensures Cut(Text(v + seq(pads, i => 64)) + tail, n, false) == (v, true)
  {
    var p := seq(pads, i => 64);
    SextetOfAscii(64);
    TextJoin(v, p);
    assert Text(p) == if pads == 2 then [PAD, PAD] else [PAD];
    Associate(Text(v), Text(p), tail);
    CutRun(v, Text(p) + tail, n);
    CutPads(tail, n + |v|);
    assert v + [] == v;
  }

  lemma OneByte(a: byte)
    ensures AllSextets(One(a)) && Bytes(One(a)) == [a]
  {
    GroupsSmall(a, 0);
    GroupsInvert(a, 0, 0);
    BytesOfFew(High(a), Upper(a, 0), 0);
  }

  lemma TwoBytes(a: byte, b: byte)
    ensures AllSextets(Two(a, b)) && Bytes(Two(a, b)) == [a, b]
  {
    GroupsSmall(a, b);
    GroupsSmall(b, 0);
    GroupsInvert(a, b, 0);
    BytesOfFew(High(a), Upper(a, b), Lower(b, 0));
  }

  lemma ThreeBytes(a: byte, b: byte, c: byte, q: seq<byte>)
    ensures var v := Group(a, b, c); AllSextets(v) && Bytes(v + q) == [a, b, c] + Bytes(q)
  {
    GroupsSmall(a, b);
    GroupsSmall(b, c);
    GroupsSmall(c, 0);
    GroupsInvert(a, b, c);
    BytesGroup(Group(a, b, c), q);
  }

  lemma TextJoin(a: seq<byte>, b: seq<byte>)
    ensures Text(a + b) == Text(a) + Text(b)
  {
  }

  predicate Gives(c: (seq<byte>, bool), d: seq<byte>) { Bytes(c.0) == d && (c.1 || |c.0| % 4 == 0) }

  lemma GroupBefore(a: byte, b: byte, c: byte, cut: (seq<byte>, bool), d: seq<byte>)
    requires Gives(cut, d)
    ensures Gives((Group(a, b, c) + cut.0, cut.1), [a, b, c] + d)
  {
    ThreeBytes(a, b, c, cut.0);
    FourMore(Group(a, b, c), cut.0);
  }

  lemma FourMore(v: seq<byte>, q: seq<byte>)
    requires |v| == 4
    ensures |v + q| % 4 == 0 <==> |q| % 4 == 0
  {
  }

  lemma GroupOnTop(d: seq<byte>, cut: (seq<byte>, bool))
    requires |d| >= 3 && Gives(cut, d[3..])
    ensures Gives((Group(d[0], d[1], d[2]) + cut.0, cut.1), d)
  {
    GroupBefore(d[0], d[1], d[2], cut, d[3..]);
    assert d == [d[0], d[1], d[2]] + d[3..];
  }

  lemma CutShort(d: seq<byte>, tail: seq<byte>, n: nat)
    requires n % 4 == 0 && 1 <= |d| <= 2
    ensures Gives(Cut(Text(Values(d)) + tail, n, false), d)
  {
    if |d| == 1 {
      OneByte(d[0]);
      assert Values(d) == One(d[0]) + seq(2, i => 64) && d == [d[0]];
      CutLast(One(d[0]), 2, tail, n);
    } else {
      TwoBytes(d[0], d[1]);
      assert Values(d) == Two(d[0], d[1]) + seq(1, i => 64) && d == [d[0], d[1]];
      CutLast(Two(d[0], d[1]), 1, tail, n);
    }
  }

  lemma CutLong(d: seq<byte>, tail: seq<byte>, n: nat)
    requires n % 4 == 0 && |d| >= 3 && Gives(Cut(Text(Values(d[3..])) + tail, n + 4, false), d[3..])
    ensures Gives(Cut(Text(Values(d)) + tail, n, false), d)
  {
    var c := Cut(Text(Values(d[3..])) + tail, n + 4, false);
    assert Cut(Text(Values(d)) + tail, n, false) == (Group(d[0], d[1], d[2]) + c.0, c.1) by { CutGroup(d, tail, n); }
    assert Gives((Group(d[0], d[1], d[2]) + c.0, c.1), d) by { GroupOnTop(d, c); }
  }

  /** What the decoder makes of an encoded text, group by group. */
  lemma {:induction false} CutEncoded(d: seq<byte>, tail: seq<byte>, n: nat)
    requires n % 4 == 0 && (tail == [] || tail == [NEWLINE])
    ensures Gives(Cut(Text(Values(d)) + tail, n, false), d)
  {
    var t := Text(Values(d)) + tail;
    if d == [] {
      assert t == tail;
    } else if |d| <= 2 {
      CutShort(d, tail, n);
    } else {
      CutEncoded(d[3..], tail, n + 4);
      CutLong(d, tail, n);
    }
  }

  lemma CutGroup(d: seq<byte>, tail: seq<byte>, n: nat)
    requires n % 4 == 0 && |d| >= 3
    ensures var v, rest := Group(d[0], d[1], d[2]), Text(Values(d[3..])) + tail;
            var c := Cut(rest, n + 4, false);
            Cut(Text(Values(d)) + tail, n, false) == (v + c.0, c.1)
  {
    var v, rest := Group(d[0], d[1], d[2]), Text(Values(d[3..])) + tail;
    TextJoin(v, Values(d[3..]));
    Associate(Text(v), Text(Values(d[3..])), tail);
    ThreeBytes(d[0], d[1], d[2], []);
    CutRun(v, rest, n);
  }

  /** Decoding an encoded text gives the bytes back, with or without a newline at its end. */
  lemma RoundTrip(d: seq<byte>, newline: bool)
    ensures Reading(Encoded(d, newline)) == Ok(d)
  {
    CutEncoded(d, if newline then [NEWLINE] else [], 0);
  }

  /** Test vectors of section 10 of RFC 4648: "f", "fo", "foo" and "foob". */
  lemma Vectors()
    ensures Encoded([0x66], false) == [0x5a, 0x67, 0x3d, 0x3d]
    ensures Encoded([0x66, 0x6f], false) == [0x5a, 0x6d, 0x38, 0x3d]
    ensures Encoded([0x66, 0x6f, 0x6f], false) == [0x5a, 0x6d, 0x39, 0x76]
    ensures Encoded([0x66, 0x6f, 0x6f, 0x62], true) == [0x5a, 0x6d, 0x39, 0x76, 0x59, 0x67, 0x3d, 0x3d, 0x0a]
  {
    assert [0x66 as byte, 0x6f, 0x6f][3..] == [] && [0x66 as byte, 0x6f, 0x6f, 0x62][3..] == [0x62];
  }

  // ---------- the programs ----------

  /** mod_binascii_b2a_base64: numbers first, then characters, in the same buffer. */
  method B2a(input: array<byte>, newline: bool) returns (out: array<byte>)
    ensures fresh(out) && out[..] == Encoded(input[..], newline)
  {
    out := new byte[Size(input.Length) + (if newline then 1 else 0)];
    FirstPass(input, out);
    ghost var v := Values(input[..]);
    ValuesSize(input[..]);
    var j := 0;
    while j < Size(input.Length)
      invariant j <= |v| == Size(input.Length)
      invariant forall k | 0 <= k < |v| :: out[k] == if k < j then Ascii(v[k]) else v[k]
    {
      out[j] := Ascii(out[j]);
      j := j + 1;
    }
    assert out[..|v|] == Text(v);
    if newline {
      out[j] := NEWLINE;
      assert out[..] == out[..|v|] + [NEWLINE];
    }
    assert out[..|v|] == Text(v);
  }

  method FirstPass(input: array<byte>, out: array<byte>)
    requires Size(input.Length) <= out.Length && input != out
    modifies out
    ensures out[..Size(input.Length)] == Values(input[..])
  {
    var a, o, i := WholeGroups(input, out);
    if i != 0 {
      LastPass(input, out, a, o);
    } else {
      assert input[a..] == [];
    }
  }

  /** The loop over the groups of three bytes. */
  method WholeGroups(input: array<byte>, out: array<byte>) returns (a: nat, o: nat, i: nat)
    requires Size(input.Length) <= out.Length && input != out
    modifies out
    ensures i < 3 && a + i == input.Length && o + Size(i) == Size(input.Length)
    ensures out[..o] + Values(input[a..]) == Values(input[..])
  {
    ghost var d := input[..];
    a, o, i := 0, 0, input.Length;
    assert d[0..] == d && out[..0] == [];
    while i >= 3
      invariant a + i == input.Length && o + Size(i) == Size(input.Length) && input[..] == d
      invariant out[..o] + Values(d[a..]) == Values(d)
    {
      WriteNext(input, out, a, o, d);
      a, o, i := a + 3, o + 4, i - 3;
    }
    assert d[a..] == input[a..];
  }

  /** The body of the first loop. */
  method WriteNext(input: array<byte>, out: array<byte>, a: nat, o: nat, ghost d: seq<byte>)
    requires a + 3 <= input.Length && o + 4 <= out.Length && input != out && d == input[..]
    requires out[..o] + Values(d[a..]) == Values(d)
    modifies out
    ensures out[..o + 4] + Values(d[a + 3..]) == Values(d) && input[..] == d
  {
    NextGroup(out[..o], d, a);
    WriteGroup(input, out, a, o);
  }

  lemma NextGroup(s: seq<byte>, d: seq<byte>, a: nat)
    requires a + 3 <= |d|
    ensures s + Group(d[a], d[a + 1], d[a + 2]) + Values(d[a + 3..]) == s + Values(d[a..])
  {
    assert d[a..][3..] == d[a + 3..];
    Associate(s, Group(d[a], d[a + 1], d[a + 2]), Values(d[a + 3..]));
  }

  method PutFour(out: array<byte>, o: nat, w: byte, x: byte, y: byte, z: byte)
    requires o + 4 <= out.Length
    modifies out
    ensures out[..o + 4] == old(out[..o]) + [w, x, y, z]
  {
    out[o] := w;
    out[o + 1] := x;
    out[o + 2] := y;
    out[o + 3] := z;
  }

  method WriteGroup(input: array<byte>, out: array<byte>, a: nat, o: nat)
    requires a + 3 <= input.Length && o + 4 <= out.Length && input != out
    modifies out
    ensures out[..o + 4] == old(out[..o]) + Group(input[a], input[a + 1], input[a + 2])
  {
    Masks(input[a], input[a + 1], input[a + 2]);
    PutFour(out, o, (input[a] & 0xfc) >> 2, ((input[a] & 0x03) << 4) | ((input[a + 1] & 0xf0) >> 4),
            ((input[a + 1] & 0x0f) << 2) | ((input[a + 2] & 0xc0) >> 6), input[a + 2] & 0x3f);
  }

  method LastPass(input: array<byte>, out: array<byte>, a: nat, o: nat)
    requires a + 1 <= input.Length <= a + 2 && o + 4 <= out.Length && input != out
    modifies out
    ensures out[..o + 4] == old(out[..o]) + Values(input[a..])
  {
    ghost var d := input[a..];
    if a + 2 == input.Length {
      assert d == [input[a], input[a + 1]];
      Masks(input[a], input[a + 1], 0);
      LastTwo(d[0], d[1]);
      PutFour(out, o, (input[a] & 0xfc) >> 2, ((input[a] & 0x03) << 4) | ((input[a + 1] & 0xf0) >> 4),
              (input[a + 1] & 0x0f) << 2, 64);
    } else {
      assert d == [input[a]];
      Masks(input[a], 0, 0);
      LastOne(d[0]);
      PutFour(out, o, (input[a] & 0xfc) >> 2, (input[a] & 0x03) << 4, 64, 64);
    }
  }

  lemma LastTwo(a: byte, b: byte)
    ensures Values([a, b]) == [High(a), Upper(a, b), Lower(b, 0), 64]
  {
  }

  lemma LastOne(a: byte)
    ensures Values([a]) == [High(a), Upper(a, 0), 64, 64]
  {
  }

  /** The masks that the shifts make unnecessary. */
  lemma Masks(a: byte, b: byte, c: byte)
    ensures (a & 0xfc) >> 2 == High(a)
    ensures ((a & 0x03) << 4) | ((b & 0xf0) >> 4) == Upper(a, b)
    ensures (a & 0x03) << 4 == Upper(a, 0)
    ensures ((b & 0x0f) << 2) | ((c & 0xc0) >> 6) == Lower(b, c)
    ensures (b & 0x0f) << 2 == Lower(b, 0)
  {
  }

  /** The byte that the accumulator gives when `nbits` bits stay behind. */
  function Released(shift: bv32, nbits: nat): byte
    requires nbits < 8
  {
    ((shift >> nbits) & 0xff) as byte
  }

  lemma ShiftFour(shift: bv32, last: byte, s: byte)
    requires shift & 0x3f == last as bv32 && s < 64
    ensures ((((shift << 6) | s as bv32) >> 4) & 0xff) as byte == First(last, s)
  {
  }

  lemma ShiftTwo(shift: bv32, last: byte, s: byte)
    requires shift & 0x3f == last as bv32 && s < 64
    ensures ((((shift << 6) | s as bv32) >> 2) & 0xff) as byte == Second(last, s)
  {
  }

  lemma ShiftNone(shift: bv32, last: byte, s: byte)
    requires shift & 0x3f == last as bv32 && s < 64
    ensures ((((shift << 6) | s as bv32) >> 0) & 0xff) as byte == Third(last, s)
  {
  }

  lemma Keep(shift: bv32, s: byte)
    requires s < 64
    ensures ((shift << 6) | s as bv32) & 0x3f == s as bv32
  {
  }

  /** The sextets `q` are in: full bytes in `out`, the rest in the accumulator, whose last six bits
      are the last sextet. The bits above wrap away. */
  ghost predicate Gathered(q: seq<byte>, out: seq<byte>, len: nat, nbits: nat, shift: bv32) {
    && len == 6 * |q| / 8 && nbits == 6 * |q| - 8 * len && len <= |out| && out[..len] == Bytes(q)
    && (q != [] ==> shift & 0x3f == q[|q| - 1] as bv32)
  }

  lemma Turn(n: nat, len: nat, nbits: nat)
    requires len == 6 * n / 8 && nbits == 6 * n - 8 * len
    ensures if n % 4 == 0 then nbits == 0 && 6 * (n + 1) / 8 == len
            else nbits == 8 - 2 * (n % 4) && 6 * (n + 1) / 8 == len + 1
  {
  }

  method Gather(out: array<byte>, len: nat, nbits: nat, shift: bv32, sextet: byte, ghost q: seq<byte>)
    returns (len': nat, nbits': nat, shift': bv32)
    requires Gathered(q, out[..], len, nbits, shift) && sextet < 64 && 6 * (|q| + 1) / 8 <= out.Length
    modifies out
    ensures Gathered(q + [sextet], out[..], len', nbits', shift')
  {
    Turn(|q|, len, nbits);
    len' := len;
    shift' := (shift << 6) | sextet as bv32;
    nbits' := nbits + 6;
    if nbits' >= 8 {
      GatheredByte(q, out[..], len, nbits, shift, sextet);
      nbits' := nbits' - 8;
      out[len] := Released(shift', nbits');
      assert out[..] == old(out[..])[len := Released(shift', nbits')];
      len' := len + 1;
    } else {
      GatheredQuiet(q, out[..], len, nbits, shift, sextet);
    }
  }

  lemma GatheredQuiet(q: seq<byte>, out: seq<byte>, len: nat, nbits: nat, shift: bv32, s: byte)
    requires Gathered(q, out, len, nbits, shift) && s < 64 && |q| % 4 == 0
    ensures Gathered(q + [s], out, len, nbits + 6, (shift << 6) | s as bv32)
  {
    Turn(|q|, len, nbits);
    BytesGrow(q, s);
    Keep(shift, s);
  }

  lemma GatheredByte(q: seq<byte>, out: seq<byte>, len: nat, nbits: nat, shift: bv32, s: byte)
    requires Gathered(q, out, len, nbits, shift) && s < 64 && |q| % 4 != 0 && len < |out|
    ensures 2 <= nbits < 10
    ensures var sh := (shift << 6) | s as bv32;
            Gathered(q + [s], out[len := Released(sh, nbits - 2)], len + 1, nbits - 2, sh)
  {
    var sh := (shift << 6) | s as bv32;
    Turn(|q|, len, nbits);
    Keep(shift, s);
    BytesGrow(q, s);
    ReleasedIs(shift, q[|q| - 1], s, |q|);
    var b := Released(sh, nbits - 2);
    assert out[len := b][..len + 1] == out[..len] + [b];
  }

  lemma ReleasedIs(shift: bv32, last: byte, s: byte, n: nat)
    requires shift & 0x3f == last as bv32 && s < 64 && n % 4 != 0
    ensures [Released((shift << 6) | s as bv32, 6 - 2 * (n % 4))] == Completed(n, last, s)
  {
    WhichByte(n);
    ReleasedByte(shift, last, s, n % 4);
  }

  lemma WhichByte(n: nat)
    requires n % 4 != 0
    ensures (6 * (n + 1) / 8 - 1) % 3 == n % 4 - 1
  {
    var q, r := n / 4, n % 4;
    assert 6 * (n + 1) / 8 - 1 == 3 * q + (r - 1);
    Thirds(q, r - 1);
  }

  lemma Thirds(q: nat, x: nat)
    requires x < 3
    ensures (3 * q + x) % 3 == x
  {
  }

  lemma ReleasedByte(shift: bv32, last: byte, s: byte, r: nat)
    requires shift & 0x3f == last as bv32 && s < 64 && 1 <= r <= 3
    ensures Released((shift << 6) | s as bv32, 6 - 2 * r)
            == (if r == 1 then First(last, s) else if r == 2 then Second(last, s) else Third(last, s))
  {
    if r == 1 {
      ShiftFour(shift, last, s);
    } else if r == 2 {
      ShiftTwo(shift, last, s);
    } else {
      ShiftNone(shift, last, s);
    }
  }

  /** The number of bits at hand is what the sextets brought less what the bytes took. It is 0, 6,
      4 or 2, in this order. */
  lemma BitsAtHand(n: nat)
    ensures var nbits := 6 * n - 8 * (6 * n / 8);
            nbits == (if n % 4 == 0 then 0 else if n % 4 == 1 then 6 else if n % 4 == 2 then 4 else 2)
  {
  }

  ghost predicate Reached(t: seq<byte>, i: nat, q: seq<byte>, hadPad: bool)
    requires i <= |t|
  {
    var c := Cut(t[i..], |q|, hadPad);
    Cut(t, 0, false) == (q + c.0, c.1)
  }

  lemma ReachNext(t: seq<byte>, i: nat, q: seq<byte>, hadPad: bool)
    requires i < |t| && Reached(t, i, q, hadPad)
    ensures t[i] == PAD ==> if |q| % 4 == 3 || (|q| % 4 == 2 && hadPad) then Cut(t, 0, false) == (q, true)
                            else Reached(t, i + 1, q, true)
    ensures t[i] != PAD ==> if Sextet(t[i]) == NONE then Reached(t, i + 1, q, hadPad)
                            else Reached(t, i + 1, q + [Sextet(t[i])], false)
  {
    assert t[i..][1..] == t[i + 1..] && t[i..][0] == t[i];
    if t[i] == PAD {
      assert q + [] == q;
    } else if Sextet(t[i]) != NONE {
      ReachSextet(t, i, q, hadPad, Sextet(t[i]));
    }
  }

  lemma ReachSextet(t: seq<byte>, i: nat, q: seq<byte>, hadPad: bool, s: byte)
    requires i < |t| && Reached(t, i, q, hadPad) && s != NONE && s == Sextet(t[i]) && t[i] != PAD
    ensures Reached(t, i + 1, q + [s], false)
  {
    var c := Cut(t[i + 1..], |q| + 1, false);
    assert t[i..][1..] == t[i + 1..] && t[i..][0] == t[i];
    assert Cut(t[i..], |q|, hadPad) == ([s] + c.0, c.1);
    Associate(q, [s], c.0);
    assert |q + [s]| == |q| + 1;
  }

  /** mod_binascii_a2b_base64 */
  method A2b(input: array<byte>) returns (r: Decoded)
    ensures r == Reading(input[..])
  {
    ghost var t, q: seq<byte> := input[..], [];
    var out := new byte[input.Length * 3 / 4 + 1];
    var len: nat, nbits: nat, shift: bv32, hadPad := 0, 0, 0, false;
    var i := 0;
    assert Reached(t, 0, q, false) by { assert t[0..] == t && q + Cut(t, 0, false).0 == Cut(t, 0, false).0; }
    while i < input.Length
      invariant i <= input.Length && |q| <= i && input[..] == t
      invariant Reached(t, i, q, hadPad) && Gathered(q, out[..], len, nbits, shift)
    {
      BitsAtHand(|q|);
      ReachNext(t, i, q, hadPad);
      SextetOfAscii(64);
      if input[i] == PAD {
        if nbits == 2 || (nbits == 4 && hadPad) {
          return Ok(out[..len]);
        }
        hadPad := true;
      }
      var sextet := Sextet(input[i]);
      if sextet != NONE {
        SextetRange(input[i]);
        hadPad := false;
        len, nbits, shift := Gather(out, len, nbits, shift, sextet, q);
        q := q + [sextet];
      }
      i := i + 1;
    }
    assert q + [] == q && t[i..] == [];
    BitsAtHand(|q|);
    if nbits != 0 {
      return IncorrectPadding;
    }
    return Ok(out[..len]);
  }
}
