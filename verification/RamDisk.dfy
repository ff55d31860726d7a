/** The RAM disk: a packer that writes named files into one image, and a reader that finds them in
    memory by name. */
module RamDisk {

  type byte = x: int | 0 <= x < 256

  datatype Option<T> = None | Some(value: T)

  const CR: byte := 13
  const LF: byte := 10
  const NAME_SIZE := 32
  const HEADER_SIZE := 36
  const U32 := 0x1_0000_0000

  // ---------- numbers in the image ----------

  /** struct.pack('<I', n) */
  function Pack32(n: nat): (s: seq<byte>)
    requires n < U32
    ensures |s| == 4
  {
    [n % 256, n / 256 % 256, n / 65536 % 256, n / 16777216]
  }

  /** A little-endian load. */
  function Load32(s: seq<byte>): nat
    requires |s| == 4
  {
    var a: int, b: int, c: int, d: int := s[0], s[1], s[2], s[3];
    a + 256 * b + 65536 * c + 16777216 * d
  }

  lemma LoadPacked(n: nat)
    requires n < U32
    ensures Load32(Pack32(n)) == n
  {
    assert n / 256 / 256 == n / 65536 && n / 65536 / 256 == n / 16777216;
  }

  // ---------- what the packer makes of a file ----------

  datatype File = File(path: string, content: seq<byte>)

  /** os.path.basename */
  function Basename(path: string): string {
    if path == [] || path[|path| - 1] == '/' then []
    else Basename(path[..|path| - 1]) + [path[|path| - 1]]
  }

  /** The longest end of the path without a slash. */
  lemma {:induction false} BasenameIs(path: string)
    ensures var n := |path| - |Basename(path)|;
            0 <= n && Basename(path) == path[n..] && '/' !in path[n..] && (n > 0 ==> path[n - 1] == '/')
  {
    if path != [] && path[|path| - 1] != '/' {
      BasenameIs(path[..|path| - 1]);
    }
  }

  /** The base name of a path begins at `n`: behind the last slash, or at the start. */
  predicate BaseFrom(path: string, n: nat) {
    n <= |path| && (n == 0 || path[n - 1] == '/') && '/' !in path[n..]
  }

  lemma BaseIsFrom(path: string, n: nat)
    requires BaseFrom(path, n)
    ensures Basename(path) == path[n..]
  {
    BasenameIs(path);
    var m := |path| - |Basename(path)|;
    NoSlashFrom(path, n);
    NoSlashFrom(path, m);
  }

  lemma NoSlashFrom(path: string, n: nat)
    requires n <= |path| && '/' !in path[n..]
    ensures forall k | n <= k < |path| :: path[k] != '/'
  {
    forall k | n <= k < |path| ensures path[k] != '/' {
      assert path[n..][k - n] == path[k];
    }
  }

  /** `replace(b'\r\n', b'\n')` */
  function Unix(d: seq<byte>): seq<byte> {
    if d == [] then []
    else if |d| >= 2 && d[0] == CR && d[1] == LF then [LF] + Unix(d[2..])
    else [d[0]] + Unix(d[1..])
  }

  /** The contents as packed: line ends of one byte, and a newline at the end. */
  function Normal(d: seq<byte>): (r: seq<byte>)
    ensures r != [] && r[|r| - 1] == LF
  {
    var u := Unix(d);
    if u != [] && u[|u| - 1] == LF then u else u + [LF]
  }

  predicate HasCrLf(d: seq<byte>) { exists i | 0 <= i < |d| - 1 :: d[i] == CR && d[i + 1] == LF }

  predicate HasCrCrLf(d: seq<byte>) {
    exists i | 0 <= i < |d| - 2 :: d[i] == CR && d[i + 1] == CR && d[i + 2] == LF
  }

  predicate StartsCrLf(d: seq<byte>) { |d| >= 2 && d[0] == CR && d[1] == LF }

  lemma UnixStart(d: seq<byte>)
    ensures d != [] ==> Unix(d) != [] && (Unix(d)[0] == LF <==> d[0] == LF || StartsCrLf(d))
  {
  }

  lemma HasCrLfStep(a: byte, d: seq<byte>)
    ensures HasCrLf([a] + d) <==> (a == CR && d != [] && d[0] == LF) || HasCrLf(d)
  {
    var s := [a] + d;
    if HasCrLf(d) {
      var i :| 0 <= i < |d| - 1 && d[i] == CR && d[i + 1] == LF;
      assert s[i + 1] == CR && s[i + 1 + 1] == LF;
    }
    if a == CR && d != [] && d[0] == LF {
      assert s[0] == CR && s[0 + 1] == LF;
    }
    if HasCrLf(s) {
      var i :| 0 <= i < |s| - 1 && s[i] == CR && s[i + 1] == LF;
      if i > 0 { assert d[i - 1] == CR && d[i - 1 + 1] == LF; }
    }
  }

  lemma HasCrCrLfStep(a: byte, d: seq<byte>)
    ensures HasCrCrLf([a] + d) <==> (a == CR && StartsCrLf(d)) || HasCrCrLf(d)
  {
    var s := [a] + d;
    if HasCrCrLf(d) {
      var i :| 0 <= i < |d| - 2 && d[i] == CR && d[i + 1] == CR && d[i + 2] == LF;
      assert s[i + 1] == CR && s[i + 1 + 1] == CR && s[i + 1 + 2] == LF;
    }
    if a == CR && StartsCrLf(d) {
      assert s[0] == CR && s[0 + 1] == CR && s[0 + 2] == LF;
    }
    if HasCrCrLf(s) {
      var i :| 0 <= i < |s| - 2 && s[i] == CR && s[i + 1] == CR && s[i + 2] == LF;
      if i > 0 { assert d[i - 1] == CR && d[i - 1 + 1] == CR && d[i - 1 + 2] == LF; }
    }
  }

  /** One pass leaves no double line end exactly when no carriage return stood before one. */
  lemma {:induction false} UnixIsClean(d: seq<byte>)
    ensures HasCrLf(Unix(d)) <==> HasCrCrLf(d)
    decreases |d|
  {
    if d == [] {
    } else if StartsCrLf(d) {
      assert d == [CR] + ([LF] + d[2..]);
      UnixIsClean(d[2..]);
      HasCrLfStep(LF, Unix(d[2..]));
      HasCrCrLfStep(LF, d[2..]);
      HasCrCrLfStep(CR, [LF] + d[2..]);
    } else {
      assert d == [d[0]] + d[1..];
      UnixIsClean(d[1..]);
      UnixStart(d[1..]);
      HasCrLfStep(d[0], Unix(d[1..]));
      HasCrCrLfStep(d[0], d[1..]);
    }
  }

  /** The shortest text with a double line end left. */
  lemma LineEndLeft()
    ensures Unix([CR, CR, LF]) == [CR, LF] && HasCrLf([CR, LF])
  {
    assert Unix([CR, LF]) == [LF] by { assert [CR, LF][2..] == []; }
    assert [CR, CR, LF][1..] == [CR, LF];
    assert [CR, LF][0] == CR && [CR, LF][0 + 1] == LF;
  }

  // ---------- the contents, as pieces between double line ends ----------

  /** The pieces one after the other, with `end` between them. */
  function Lines(ps: seq<seq<byte>>, end: seq<byte>): seq<byte>
    requires ps != []
  {
    if |ps| == 1 then ps[0] else ps[0] + end + Lines(ps[1..], end)
  }

  predicate Plain(p: seq<byte>) { forall i | 0 <= i < |p| - 1 :: !(p[i] == 13 && p[i + 1] == 10) }

  predicate AllPlain(ps: seq<seq<byte>>) { ps == [] || (Plain(ps[0]) && AllPlain(ps[1..])) }

  lemma {:induction false} UnixThrough(p: seq<byte>, rest: seq<byte>)
    requires Plain(p) && (rest == [] || rest[0] == 13)
    ensures Unix(p + rest) == p + Unix(rest)
  {
    var d := p + rest;
    if p == [] {
      assert d == rest;
    } else {
      assert !StartsCrLf(d) by {
        assert |p| >= 2 ==> !(p[0] == 13 && p[0 + 1] == 10);
      }
      assert Plain(p[1..]) by {
        forall i | 0 <= i < |p| - 2 ensures !(p[1..][i] == 13 && p[1..][i + 1] == 10) {
          assert !(p[i + 1] == 13 && p[i + 1 + 1] == 10);
        }
      }
      assert d[1..] == p[1..] + rest;
      UnixThrough(p[1..], rest);
    }
  }

  /** Each CR LF becomes LF, and all other bytes are kept in order. */
  lemma {:induction false} UnixReplaces(ps: seq<seq<byte>>)
    requires ps != [] && AllPlain(ps)
    ensures Unix(Lines(ps, [13, 10])) == Lines(ps, [10])
  {
    if |ps| == 1 {
      UnixThrough(ps[0], []);
      assert ps[0] + [] == ps[0];
    } else {
      UnixReplaces(ps[1..]);
      UnixOverEnd(ps[0], Lines(ps[1..], [13, 10]));
    }
  }

  lemma UnixOverEnd(p: seq<byte>, rest: seq<byte>)
    requires Plain(p)
    ensures Unix(p + [13, 10] + rest) == p + [10] + Unix(rest)
  {
    var d := [13, 10] + rest;
    UnixThrough(p, d);
    assert p + [13, 10] + rest == p + d;
    assert Unix(d) == [10] + Unix(rest) by { assert d[2..] == rest; }
    assert p + ([10] + Unix(rest)) == p + [10] + Unix(rest);
  }

  /** The pieces of any contents. */
  ghost function Pieces(d: seq<byte>): (ps: seq<seq<byte>>)
    ensures ps != [] && AllPlain(ps) && Lines(ps, [13, 10]) == d
  {
    if d == [] then [[]]
    else if |d| >= 2 && d[0] == 13 && d[1] == 10 then
      var ps := [[]] + Pieces(d[2..]);
      assert ps[1..] == Pieces(d[2..]);
      assert d == [] + [13, 10] + d[2..];
      ps
    else
      var qs := Pieces(d[1..]);
      var ps := [[d[0]] + qs[0]] + qs[1..];
      FirstPiece(qs, d[0]);
      assert d == [d[0]] + d[1..];
      ps
  }

  lemma FirstPiece(qs: seq<seq<byte>>, a: byte)
    requires qs != [] && AllPlain(qs)
    requires var d := Lines(qs, [13, 10]); !(a == 13 && d != [] && d[0] == 10)
    ensures var ps := [[a] + qs[0]] + qs[1..];
            AllPlain(ps) && Lines(ps, [13, 10]) == [a] + Lines(qs, [13, 10])
  {
    var ps := [[a] + qs[0]] + qs[1..];
    assert ps[1..] == qs[1..];
    if |qs| > 1 {
      assert ps[0] + [13, 10] + Lines(qs[1..], [13, 10]) == [a] + (qs[0] + [13, 10] + Lines(qs[1..], [13, 10]));
    }
    PlainGrows(qs[0], a);
  }

  lemma PlainGrows(q: seq<byte>, a: byte)
    requires Plain(q) && !(a == 13 && q != [] && q[0] == 10)
    ensures Plain([a] + q)
  {
    var p := [a] + q;
    forall i | 0 <= i < |p| - 1 ensures !(p[i] == 13 && p[i + 1] == 10) {
      assert i > 0 ==> !(q[i - 1] == 13 && q[i - 1 + 1] == 10);
    }
  }

  /** What a file is packed as: each CR LF has become LF, the other bytes are as they were, and an LF
      is added if there is none at the end. */
  ghost predicate Tidied(d: seq<byte>, r: seq<byte>) {
    exists ps | ps != [] && AllPlain(ps) :: d == Lines(ps, [13, 10]) && EndedBy(Lines(ps, [10]), r)
  }

  predicate EndedBy(u: seq<byte>, r: seq<byte>) {
    r == if u != [] && u[|u| - 1] == 10 then u else u + [10]
  }

  lemma NormalTidies(d: seq<byte>)
    ensures Tidied(d, Normal(d))
  {
    UnixReplaces(Pieces(d));
  }

  /** Nothing else is. */
  lemma TidiedIsNormal(d: seq<byte>, r: seq<byte>)
    requires Tidied(d, r)
    ensures r == Normal(d)
  {
    var ps :| ps != [] && AllPlain(ps) && d == Lines(ps, [13, 10]) && EndedBy(Lines(ps, [10]), r);
    UnixReplaces(ps);
  }

  // ---------- the image ----------

  predicate Ascii(name: string) { forall i | 0 <= i < |name| :: 0 <= name[i] as int < 128 }

  /** The name as packed: at most 31 bytes of the base name. */
  function Short(path: string): (r: seq<byte>)
    requires Ascii(Basename(path))
    ensures |r| <= 31
  {
    var b := Basename(path);
    seq(if |b| < 31 then |b| else 31, i requires 0 <= i < |b| && i < 31 => b[i] as int)
  }

  predicate Packable(f: File) {
    Ascii(Basename(f.path)) && '\0' !in f.path && |Normal(f.content)| < U32
  }

  function Padded(name: seq<byte>): (r: seq<byte>)
    requires |name| <= NAME_SIZE
    ensures |r| == NAME_SIZE
  {
    name + seq(NAME_SIZE - |name|, i => 0)
  }

  function Header(f: File): (h: seq<byte>)
    requires Packable(f)
    ensures |h| == HEADER_SIZE
  {
    Padded(Short(f.path)) + Pack32(|Normal(f.content)|)
  }

  ghost predicate AllPackable(fs: seq<File>) { forall i | 0 <= i < |fs| :: Packable(fs[i]) }

  /** How long the first `n` parts are together. */
  function Sizes(parts: seq<seq<byte>>, n: nat): nat
    requires n <= |parts|
  {
    if n == 0 then 0 else Sizes(parts, n - 1) + |parts[n - 1]|
  }

  /** The first `n` parts, one after the other. */
  function Joined(parts: seq<seq<byte>>, n: nat): (s: seq<byte>)
    requires n <= |parts|
    ensures |s| == Sizes(parts, n)
  {
    if n == 0 then [] else Joined(parts, n - 1) + parts[n - 1]
  }

  function HeaderList(fs: seq<File>): (hs: seq<seq<byte>>)
    requires forall i | 0 <= i < |fs| :: Packable(fs[i])
    ensures |hs| == |fs| && forall i | 0 <= i < |fs| :: hs[i] == Header(fs[i])
  {
    seq(|fs|, i requires 0 <= i < |fs| => Header(fs[i]))
  }

  function BlobList(fs: seq<File>): (bs: seq<seq<byte>>)
    ensures |bs| == |fs| && forall i | 0 <= i < |fs| :: bs[i] == Normal(fs[i].content)
  {
    seq(|fs|, i requires 0 <= i < |fs| => Normal(fs[i].content))
  }

  ghost function Image(fs: seq<File>): seq<byte>
    requires AllPackable(fs) && |fs| < U32
  {
    Pack32(|fs|) + Joined(HeaderList(fs), |fs|) + Joined(BlobList(fs), |fs|)
  }

  datatype Packed = Written(bytes: seq<byte>) | EncodeError | PathError | SizeError

  /** Which error the first bad file gives. */
  function Fault(f: File): Packed
    requires !Packable(f)
  {
    if !Ascii(Basename(f.path)) then EncodeError else if '\0' in f.path then PathError else SizeError
  }

  method Normalise(content: seq<byte>) returns (data: seq<byte>)
    ensures data == Normal(content)
  {
    data := Unix(content);
    if data == [] || data[|data| - 1] != LF {
      data := data + [LF];
    }
  }

  /** One turn of the loop over the files. */
  method PackFile(f: File) returns (fault: Option<Packed>, header: seq<byte>, data: seq<byte>)
    ensures fault == if Packable(f) then None else Some(Fault(f))
    ensures Packable(f) ==> header == Header(f) && data == Normal(f.content)
  {
    header, data := [], [];
    var name := Basename(f.path);
    if !Ascii(name) {
      return Some(EncodeError), header, data;
    }
    if '\0' in f.path {
      return Some(PathError), header, data;
    }
    data := Normalise(f.content);
    if |data| >= U32 {
      return Some(SizeError), header, data;
    }
    header := Padded(Short(f.path)) + Pack32(|data|);
    fault := None;
  }

  lemma ListsGrow(fs: seq<File>, i: nat)
    requires i < |fs| && AllPackable(fs[..i]) && Packable(fs[i])
    ensures AllPackable(fs[..i + 1])
    ensures HeaderList(fs[..i + 1]) == HeaderList(fs[..i]) + [Header(fs[i])]
    ensures BlobList(fs[..i + 1]) == BlobList(fs[..i]) + [Normal(fs[i].content)]
  {
    assert fs[..i + 1] == fs[..i] + [fs[i]];
    ListsSnoc(fs[..i], fs[i]);
  }

  lemma ListsSnoc(fs: seq<File>, f: File)
    requires AllPackable(fs) && Packable(f)
    ensures AllPackable(fs + [f])
    ensures HeaderList(fs + [f]) == HeaderList(fs) + [Header(f)]
    ensures BlobList(fs + [f]) == BlobList(fs) + [Normal(f.content)]
  {
    BlobsSnoc(fs, f);
  }

  lemma BlobsSnoc(fs: seq<File>, f: File)
    ensures BlobList(fs + [f]) == BlobList(fs) + [Normal(f.content)]
  {
  }

  /** The loop over the files; `bad` is the first that cannot be packed, or their number. */
  method Collect(files: seq<File>)
    returns (fault: Option<Packed>, headers: seq<seq<byte>>, blobs: seq<seq<byte>>, ghost bad: nat)
    ensures bad <= |files| && AllPackable(files[..bad])
    ensures headers == HeaderList(files[..bad]) && blobs == BlobList(files[..bad])
    ensures if bad == |files| then fault == None else !Packable(files[bad]) && fault == Some(Fault(files[bad]))
  {
    headers, blobs, bad, fault := [], [], 0, None;
    var i := 0;
    while i < |files|
      invariant i == bad <= |files| && AllPackable(files[..i]) && fault == None
      invariant headers == HeaderList(files[..i]) && blobs == BlobList(files[..i])
    {
      var h, data;
      fault, h, data := PackFile(files[i]);
      if fault.Some? {
        return;
      }
      ListsGrow(files, i);
      headers := headers + [h];
      blobs := blobs + [data];
      i := i + 1;
      bad := i;
    }
  }

  /** make_initrd: the image, or the error of the first file that cannot be packed. */
  method MakeInitrd(files: seq<File>) returns (r: Packed)
    ensures |files| >= U32 ==> r == SizeError
    ensures |files| < U32 && AllPackable(files) ==> r == Written(Image(files))
    ensures |files| < U32 && !AllPackable(files) ==>
              exists i | 0 <= i < |files| :: !Packable(files[i]) && AllPackable(files[..i]) && r == Fault(files[i])
  {
    if |files| >= U32 {
      return SizeError;
    }
    var fault, headers, blobs;
    ghost var bad;
    fault, headers, blobs, bad := Collect(files);
    if fault.Some? {
      return fault.value;
    }
    assert files[..|files|] == files;
    var hs := WriteAll(headers);
    var bs := WriteAll(blobs);
    return Written(Pack32(|files|) + hs + bs);
  }

  method WriteAll(parts: seq<seq<byte>>) returns (out: seq<byte>)
    ensures out == Joined(parts, |parts|)
  {
    out := [];
    for i := 0 to |parts|
      invariant out == Joined(parts, i)
    {
      out := out + parts[i];
    }
  }

  // ---------- where things stand in the image ----------

  lemma {:induction false} HeadersSize(parts: seq<seq<byte>>, n: nat)
    requires n <= |parts| && forall i | 0 <= i < |parts| :: |parts[i]| == HEADER_SIZE
    ensures Sizes(parts, n) == HEADER_SIZE * n
  {
    if n > 0 {
      HeadersSize(parts, n - 1);
    }
  }

  // ---------- the reader ----------

  /** Where a C string that has come to `k` ends, at the latest at `n`. */
  function End(s: seq<byte>, k: nat, n: nat): (e: nat)
    requires k <= |s|
    ensures k <= e <= |s|
    decreases |s| - k
  {
    if k < n && k < |s| && s[k] != 0 then End(s, k + 1, n) else k
  }

  /** The C string at the start of `s`, cut after `n` bytes. */
  function CString(s: seq<byte>, n: nat): seq<byte> { s[..End(s, 0, n)] }

  predicate NoNul(s: seq<byte>, k: nat, e: nat)
    requires e <= |s|
  {
    forall i | k <= i < e :: s[i] != 0
  }

  lemma {:induction false} EndIs(s: seq<byte>, k: nat, n: nat, e: nat)
    requires k <= e <= |s| && e <= n && NoNul(s, k, e) && (e == n || e == |s| || s[e] == 0)
    ensures End(s, k, n) == e
    decreases e - k
  {
    if k < e { EndIs(s, k + 1, n, e); }
  }

  lemma {:induction false} EndAfter(s: seq<byte>, k: nat, n: nat, e: nat)
    requires k <= e <= |s| && e <= n && NoNul(s, k, e)
    ensures End(s, k, n) == End(s, e, n)
    decreases e - k
  {
    if k < e { EndAfter(s, k + 1, n, e); }
  }

  predicate Terminated(s: seq<byte>) { 0 in s }

  function Difference(a: byte, b: byte): int {
    var x: int, y: int := a, b;
    x - y
  }

  /** strncmp: zero just when the strings agree as far as they are compared, else the difference of
      the first bytes that differ. */
  method Strncmp(s1: seq<byte>, s2: seq<byte>, n: nat) returns (r: int)
    requires (|s1| >= n || Terminated(s1)) && (|s2| >= n || Terminated(s2))
    ensures r == 0 <==> CString(s1, n) == CString(s2, n)
    ensures r != 0 ==> exists k: nat | k < n && k < |s1| && k < |s2| ::
              s1[..k] == s2[..k] && s1[k] as int == s2[k] as int + r
  {
    var k := 0;
    while k < n && s1[k] != 0 && s1[k] == s2[k]
      invariant k <= n && k <= |s1| && k <= |s2| && s1[..k] == s2[..k] && 0 !in s1[..k]
      invariant k < n ==> k < |s1| && k < |s2|
    {
      k := k + 1;
      StillInside(s1, k, n);
      StillInside(s2, k, n);
    }
    SameStart(s1, s2, n, k);
    if k == n {
      return 0;
    }
    return Difference(s1[k], s2[k]);
  }

  lemma StillInside(s: seq<byte>, k: nat, n: nat)
    requires k <= n && k <= |s| && (|s| >= n || Terminated(s)) && 0 !in s[..k]
    ensures k < n ==> k < |s|
  {
    assert k == |s| ==> s[..k] == s;
  }

  lemma SameStart(s1: seq<byte>, s2: seq<byte>, n: nat, k: nat)
    requires k <= n && k <= |s1| && k <= |s2| && s1[..k] == s2[..k] && 0 !in s1[..k]
    requires k < n ==> k < |s1| && k < |s2| && (s1[k] == 0 || s1[k] != s2[k])
    ensures CString(s1, n) == CString(s2, n) <==> k == n || s1[k] == s2[k]
  {
    forall i | 0 <= i < k ensures s1[i] != 0 && s2[i] == s1[i] {
      assert s1[i] == s1[..k][i] && s2[i] == s2[..k][i];
    }
    EndAfter(s1, 0, n, k);
    EndAfter(s2, 0, n, k);
    var e1, e2 := End(s1, 0, n), End(s2, 0, n);
    if k < n && s1[k] != s2[k] && e1 == e2 {
      assert e1 > k;
      assert s1[..e1][k] != s2[..e1][k];
    }
  }

  /** The first place of `q`, or the length. */
  function FirstIndex(names: seq<seq<byte>>, q: seq<byte>): (i: nat)
    ensures i <= |names| && (i < |names| ==> names[i] == q)
    ensures forall k | 0 <= k < i :: names[k] != q
  {
    if names == [] || names[0] == q then 0 else 1 + FirstIndex(names[1..], q)
  }

  lemma {:induction false} FirstIndexIs(names: seq<seq<byte>>, q: seq<byte>, i: nat)
    requires i <= |names| && (i < |names| ==> names[i] == q) && forall k | 0 <= k < i :: names[k] != q
    ensures FirstIndex(names, q) == i
  {
    if i > 0 { FirstIndexIs(names[1..], q, i - 1); }
  }

  function Name(f: File): seq<byte>
    requires Packable(f)
  {
    Short(f.path)
  }

  /** The names that the files go by. */
  function Names(fs: seq<File>): (ns: seq<seq<byte>>)
    requires forall i | 0 <= i < |fs| :: Packable(fs[i])
    ensures |ns| == |fs| && forall i | 0 <= i < |fs| :: ns[i] == Name(fs[i])
  {
    seq(|fs|, i requires 0 <= i < |fs| => Name(fs[i]))
  }

  /** A run of bytes stands in memory. */
  ghost predicate Stands(memory: seq<byte>, at: nat, s: seq<byte>) {
    at + |s| <= |memory| && forall k | 0 <= k < |s| :: s[k] == memory[at + k]
  }

  ghost predicate Loaded(memory: seq<byte>, base: nat, fs: seq<File>) {
    AllPackable(fs) && |fs| < U32 && Stands(memory, base, Image(fs))
  }

  lemma StandsApart(memory: seq<byte>, at: nat, a: seq<byte>, b: seq<byte>)
    requires Stands(memory, at, a + b)
    ensures Stands(memory, at, a) && Stands(memory, at + |a|, b)
  {
    forall k | 0 <= k < |a| ensures a[k] == memory[at + k] {
      assert (a + b)[k] == a[k];
    }
    forall k | 0 <= k < |b| ensures b[k] == memory[at + |a| + k] {
      assert (a + b)[|a| + k] == b[k];
    }
  }

  /** A part stands behind the parts before it. */
  lemma {:induction false} PartStands(memory: seq<byte>, at: nat, parts: seq<seq<byte>>, n: nat, i: nat)
    requires i < n <= |parts| && Stands(memory, at, Joined(parts, n))
    ensures Stands(memory, at + Sizes(parts, i), parts[i])
  {
    StandsApart(memory, at, Joined(parts, n - 1), parts[n - 1]);
    if i < n - 1 {
      PartStands(memory, at, parts, n - 1, i);
    }
  }

  /** A number, headers of equal size, and contents, one behind the other. */
  lemma Layout(memory: seq<byte>, base: nat, count: seq<byte>, hs: seq<byte>, bs: seq<byte>)
    requires Stands(memory, base, count + hs + bs) && |count| == 4
    ensures Stands(memory, base, count) && Stands(memory, base + 4, hs) && Stands(memory, base + 4 + |hs|, bs)
  {
    StandsApart(memory, base, count + hs, bs);
    StandsApart(memory, base, count, hs);
  }

  lemma CStringIs(name: seq<byte>, s: seq<byte>, n: nat)
    requires 0 !in name && |name| <= n && |name| <= |s| && s[..|name|] == name
    requires |name| == n || (|name| < |s| && s[|name|] == 0)
    ensures CString(s, n) == name
  {
    forall i | 0 <= i < |name| ensures s[i] != 0 {
      assert s[i] == s[..|name|][i];
      assert name[i] in name;
    }
    EndIs(s, 0, n, |name|);
  }

  lemma ShortHasNoNul(f: File)
    requires Packable(f)
    ensures 0 !in Short(f.path)
  {
    BasenameIs(f.path);
    var b, n := Basename(f.path), |f.path| - |Basename(f.path)|;
    forall i | 0 <= i < |Short(f.path)| ensures Short(f.path)[i] != 0 {
      assert b[i] == f.path[n + i] && f.path[n + i] in f.path;
    }
  }

  /** The name and the size that a header gives. */
  predicate Says(h: seq<byte>, name: seq<byte>, size: nat) {
    |h| == HEADER_SIZE && CString(h[..NAME_SIZE], NAME_SIZE) == name && Load32(h[NAME_SIZE..]) == size
  }

  lemma HeaderSays(f: File)
    requires Packable(f)
    ensures Says(Header(f), Name(f), |Normal(f.content)|)
  {
    ShortHasNoNul(f);
    LoadPacked(|Normal(f.content)|);
    PaddedSays(Short(f.path), Pack32(|Normal(f.content)|));
  }

  lemma PaddedSays(name: seq<byte>, size: seq<byte>)
    requires |name| < NAME_SIZE && 0 !in name && |size| == 4
    ensures Says(Padded(name) + size, name, Load32(size))
  {
    var h := Padded(name) + size;
    assert h[..NAME_SIZE] == Padded(name) && h[NAME_SIZE..] == size;
    CStringIs(name, Padded(name), NAME_SIZE);
  }

  /** One entry as the reader meets it: a header that says the name and the size, and the contents
      behind those of the entries before. */
  ghost predicate Entry(memory: seq<byte>, header: nat, data: nat, name: seq<byte>, blob: seq<byte>) {
    && header + HEADER_SIZE <= |memory| && Stands(memory, data, blob)
    && CString(memory[header..header + NAME_SIZE], NAME_SIZE) == name
    && Load32(memory[header + NAME_SIZE..header + HEADER_SIZE]) == |blob|
  }

  ghost predicate EntryNo(memory: seq<byte>, base: nat, names: seq<seq<byte>>, blobs: seq<seq<byte>>, i: nat)
    requires i < |names| == |blobs|
  {
    Entry(memory, base + 4 + HEADER_SIZE * i, base + DataAt(blobs, i), names[i], blobs[i])
  }

  ghost predicate Directory(memory: seq<byte>, base: nat, names: seq<seq<byte>>, blobs: seq<seq<byte>>) {
    |names| == |blobs| && forall i | 0 <= i < |names| :: EntryNo(memory, base, names, blobs, i)
  }

  lemma EntryIs(memory: seq<byte>, header: nat, data: nat, h: seq<byte>, name: seq<byte>, blob: seq<byte>)
    requires Says(h, name, |blob|) && Stands(memory, header, h) && Stands(memory, data, blob)
    ensures Entry(memory, header, data, name, blob)
  {
    assert memory[header..header + NAME_SIZE] == h[..NAME_SIZE];
    assert memory[header + NAME_SIZE..header + HEADER_SIZE] == h[NAME_SIZE..];
  }

  lemma PartsStand(memory: seq<byte>, base: nat, count: seq<byte>, hs: seq<seq<byte>>, bs: seq<seq<byte>>, i: nat)
    requires Stands(memory, base, count + Joined(hs, |hs|) + Joined(bs, |bs|)) && |count| == 4 && i < |hs| == |bs|
    requires forall k | 0 <= k < |hs| :: |hs[k]| == HEADER_SIZE
    ensures Stands(memory, base + 4 + HEADER_SIZE * i, hs[i])
    ensures Stands(memory, base + DataAt(bs, i), bs[i])
  {
    Layout(memory, base, count, Joined(hs, |hs|), Joined(bs, |bs|));
    PartStands(memory, base + 4, hs, |hs|, i);
    HeadersSize(hs, i);
    HeadersSize(hs, |hs|);
    PartStands(memory, base + 4 + HEADER_SIZE * |hs|, bs, |bs|, i);
  }

  lemma DirectoryFrom(memory: seq<byte>, base: nat, count: seq<byte>, hs: seq<seq<byte>>, names: seq<seq<byte>>,
                      bs: seq<seq<byte>>)
    requires Stands(memory, base, count + Joined(hs, |hs|) + Joined(bs, |bs|)) && |count| == 4
             && |hs| == |names| == |bs|
    requires forall i | 0 <= i < |hs| :: Says(hs[i], names[i], |bs[i]|)
    ensures Directory(memory, base, names, bs)
  {
    forall i | 0 <= i < |names|
      ensures EntryNo(memory, base, names, bs, i)
    {
      PartsStand(memory, base, count, hs, bs, i);
      EntryIs(memory, base + 4 + HEADER_SIZE * i, base + DataAt(bs, i), hs[i], names[i], bs[i]);
    }
  }

  lemma DirectoryIs(memory: seq<byte>, base: nat, fs: seq<File>)
    requires Loaded(memory, base, fs)
    ensures Directory(memory, base, Names(fs), BlobList(fs))
  {
    var hs, names, bs := HeaderList(fs), Names(fs), BlobList(fs);
    forall i | 0 <= i < |hs| ensures Says(hs[i], names[i], |bs[i]|) {
      HeaderSays(fs[i]);
    }
    DirectoryFrom(memory, base, Pack32(|fs|), hs, names, bs);
  }

  /** Where the contents of entry `i` stand behind the start of an image. */
  ghost function DataAt(blobs: seq<seq<byte>>, i: nat): nat
    requires i <= |blobs|
  {
    4 + HEADER_SIZE * |blobs| + Sizes(blobs, i)
  }

  /** What a search for `q` has to answer. */
  ghost predicate Answers(memory: seq<byte>, base: nat, names: seq<seq<byte>>, blobs: seq<seq<byte>>, q: seq<byte>,
                          r: Option<(nat, nat)>)
    requires |names| == |blobs|
  {
    var i := FirstIndex(names, q);
    if i == |names| then r == None
    else r == Some((base + DataAt(blobs, i), |blobs[i]|)) && Stands(memory, base + DataAt(blobs, i), blobs[i])
  }

  lemma Answer(memory: seq<byte>, base: nat, names: seq<seq<byte>>, blobs: seq<seq<byte>>, q: seq<byte>, i: nat)
    requires Directory(memory, base, names, blobs)
    requires i <= |names| && (i < |names| ==> names[i] == q) && forall k | 0 <= k < i :: names[k] != q
    ensures Answers(memory, base, names, blobs, q,
                    if i == |names| then None else Some((base + DataAt(blobs, i), |blobs[i]|)))
  {
    FirstIndexIs(names, q, i);
    if i < |names| {
      assert EntryNo(memory, base, names, blobs, i);
    }
  }

  /** The base address and the number of files that initrd_init remembers; address 0 is NULL. */
  class Reader {
    const memory: seq<byte>
    var base: nat
    var nFiles: nat

    constructor (memory: seq<byte>)
      ensures this.memory == memory && base == 0
    {
      this.memory := memory;
      base, nFiles := 0, 0;
    }

    /** initrd_init */
    method Init(location: nat)
      requires location + 4 <= |memory|
      modifies this
      ensures base == location
      ensures forall fs | Loaded(memory, location, fs) :: nFiles == |fs|
    {
      base := location;
      nFiles := Load32(memory[location..location + 4]);
      forall fs | Loaded(memory, location, fs) ensures nFiles == |fs| {
        LoadPacked(|fs|);
        Layout(memory, location, Pack32(|fs|), Joined(HeaderList(fs), |fs|), Joined(BlobList(fs), |fs|));
        assert memory[location..location + 4] == Pack32(|fs|);
      }
    }

    /** initrd_get_file: address and size of the contents of the first file with that name. */
    method GetFile(name: seq<byte>, ghost names: seq<seq<byte>>, ghost blobs: seq<seq<byte>>)
      returns (r: Option<(nat, nat)>)
      requires Terminated(name) && (base != 0 ==> Directory(memory, base, names, blobs) && nFiles == |names|)
      ensures base == 0 ==> r == None
      ensures base != 0 ==> Answers(memory, base, names, blobs, CString(name, NAME_SIZE), r)
    {
      if base == 0 || nFiles == 0 {
        return None;
      }
      r := Search(name, names, blobs);
    }

    /** The loop over the headers. */
    method Search(name: seq<byte>, ghost names: seq<seq<byte>>, ghost blobs: seq<seq<byte>>)
      returns (r: Option<(nat, nat)>)
      requires Terminated(name) && nFiles == |names| && Directory(memory, base, names, blobs)
      ensures Answers(memory, base, names, blobs, CString(name, NAME_SIZE), r)
    {
      ghost var q := CString(name, NAME_SIZE);
      var header, data := base + 4, base + 4 + nFiles * HEADER_SIZE;
      assert data == base + DataAt(blobs, 0);
      for i := 0 to nFiles
        invariant header == base + 4 + HEADER_SIZE * i && data == base + DataAt(blobs, i)
        invariant forall k | 0 <= k < i :: names[k] != q
      {
        var fsize, c := ReadHeader(header, name, names, blobs, i);
        if c == 0 {
          Answer(memory, base, names, blobs, q, i);
          return Some((data, fsize));
        }
        header := header + HEADER_SIZE;
        data := data + fsize;
      }
      Answer(memory, base, names, blobs, q, |names|);
      return None;
    }

    /** The size and the comparison of the name, out of one header. */
    method ReadHeader(header: nat, name: seq<byte>, ghost names: seq<seq<byte>>, ghost blobs: seq<seq<byte>>,
                      ghost i: nat)
      returns (fsize: nat, c: int)
      requires Terminated(name) && Directory(memory, base, names, blobs)
      requires i < |names| && header == base + 4 + HEADER_SIZE * i
      ensures fsize == |blobs[i]| && (c == 0 <==> names[i] == CString(name, NAME_SIZE))
    {
      assert EntryNo(memory, base, names, blobs, i);
      fsize := Load32(memory[header + NAME_SIZE..header + HEADER_SIZE]);
      c := Strncmp(memory[header..header + NAME_SIZE], name, NAME_SIZE);
    }
  }

  lemma NameIsItself(name: seq<byte>)
    requires 0 !in name && |name| <= NAME_SIZE
    ensures CString(name + [0], NAME_SIZE) == name
  {
    CStringIs(name, name + [0], NAME_SIZE);
  }

  /** A name of more than 31 bytes finds nothing, not even the file that bears it, whose name was
      cut when it was packed. */
  lemma LongNamesLost(name: seq<byte>, fs: seq<File>)
    requires 0 !in name && AllPackable(fs) && |name| > 31
    ensures FirstIndex(Names(fs), CString(name + [0], NAME_SIZE)) == |fs|
  {
    var cut := name[..NAME_SIZE];
    assert forall x | x in cut :: x in name;
    CStringIs(cut, name + [0], NAME_SIZE);
  }

  lemma StandsIs(memory: seq<byte>, at: nat, s: seq<byte>)
    requires Stands(memory, at, s)
    ensures memory[at..at + |s|] == s
  {
  }

  /** A packed image at an address in memory. */
  method Store(files: seq<File>, address: nat) returns (memory: seq<byte>)
    requires AllPackable(files) && |files| < U32
    ensures Loaded(memory, address, files)
  {
    var image := MakeInitrd(files);
    ghost var b := Image(files);
    memory := seq(address, i => 0) + image.bytes;
    assert Stands(memory, address, b);
  }

  lemma AnswerMeans(memory: seq<byte>, base: nat, names: seq<seq<byte>>, blobs: seq<seq<byte>>, q: seq<byte>,
                    r: Option<(nat, nat)>)
    requires |names| == |blobs| && Answers(memory, base, names, blobs, q, r)
    ensures r == None <==> FirstIndex(names, q) == |names|
    ensures r.Some? ==> var (at, n) := r.value; at + n <= |memory| && memory[at..at + n] == blobs[FirstIndex(names, q)]
  {
    if r.Some? {
      StandsIs(memory, r.value.0, blobs[FirstIndex(names, q)]);
    }
  }

  /** What a caller reads at the address and for the size that it was given. */
  method Fetch(reader: Reader, name: seq<byte>, ghost names: seq<seq<byte>>, ghost blobs: seq<seq<byte>>)
    returns (r: Option<seq<byte>>)
    requires reader.base != 0 && Directory(reader.memory, reader.base, names, blobs) && reader.nFiles == |names|
    requires Terminated(name)
    ensures var i := FirstIndex(names, CString(name, NAME_SIZE)); r == if i == |names| then None else Some(blobs[i])
  {
    var found := reader.GetFile(name, names, blobs);
    AnswerMeans(reader.memory, reader.base, names, blobs, CString(name, NAME_SIZE), found);
    if found == None {
      return None;
    }
    var (at, n) := found.value;
    r := Some(reader.memory[at..at + n]);
  }

  // ---------- files by their paths ----------

  /** At most 31 characters of a base name, one byte for each. */
  predicate Spells(base: string, name: seq<byte>) {
    |name| == (if |base| < 31 then |base| else 31) && forall i | 0 <= i < |name| :: base[i] as int == name[i]
  }

  /** The path ends in the name, behind a slash or nothing; of a base name of more than 31 characters
      the first 31 are the name. */
  ghost predicate Bears(path: string, name: seq<byte>) {
    exists n: nat | BaseFrom(path, n) :: Spells(path[n..], name)
  }

  ghost predicate FirstBearing(files: seq<File>, i: nat, name: seq<byte>) {
    i < |files| && Bears(files[i].path, name) && forall k | 0 <= k < i :: !Bears(files[k].path, name)
  }

  lemma ShortSpells(path: string, name: seq<byte>)
    requires Ascii(Basename(path))
    ensures Short(path) == name <==> Spells(Basename(path), name)
  {
    var s, b := Short(path), Basename(path);
    if Spells(b, name) {
      forall i | 0 <= i < |s| ensures s[i] == name[i] {
        assert b[i] as int == name[i];
      }
    }
  }

  lemma BearsShort(path: string, name: seq<byte>)
    requires Ascii(Basename(path))
    ensures Bears(path, name) <==> Short(path) == name
  {
    ShortSpells(path, name);
    BasenameIs(path);
    var m: nat := |path| - |Basename(path)|;
    assert BaseFrom(path, m);
    if Bears(path, name) {
      var n: nat :| BaseFrom(path, n) && Spells(path[n..], name);
      BaseIsFrom(path, n);
    }
  }

  lemma FirstOfName(files: seq<File>, name: seq<byte>)
    requires AllPackable(files)
    ensures var i := FirstIndex(Names(files), name);
            if i < |files| then FirstBearing(files, i, name)
            else forall k | 0 <= k < |files| :: !Bears(files[k].path, name)
  {
    var i := FirstIndex(Names(files), name);
    forall k | 0 <= k < |files| ensures Bears(files[k].path, name) <==> Names(files)[k] == name {
      BearsShort(files[k].path, name);
    }
  }

  /** Which files can be packed: those with a base name in ASCII, no NUL in the path and contents of
      less than four gigabytes; the first of these that does not hold gives the error. */
  lemma PackableMeans(f: File, n: nat, data: seq<byte>)
    requires BaseFrom(f.path, n) && Tidied(f.content, data)
    ensures var ascii := forall k | n <= k < |f.path| :: f.path[k] as int <= 127;
            && (Packable(f) <==> ascii && '\0' !in f.path && |data| <= 0xffff_ffff)
            && (!Packable(f) ==>
                  Fault(f) == if !ascii then EncodeError else if '\0' in f.path then PathError else SizeError)
  {
    BaseIsFrom(f.path, n);
    TidiedIsNormal(f.content, data);
    var b := f.path[n..];
    if forall k | n <= k < |f.path| :: f.path[k] as int <= 127 {
      forall i | 0 <= i < |b| ensures 0 <= b[i] as int < 128 {
        assert b[i] == f.path[n + i];
      }
    }
    if Ascii(b) {
      forall k | n <= k < |f.path| ensures f.path[k] as int <= 127 {
        assert b[k - n] == f.path[k];
      }
    }
  }

  /** A little-endian number of four bytes. */
  predicate Number(s: seq<byte>, at: nat, n: nat)
    requires at + 4 <= |s|
  {
    var a: int, b: int, c: int, d: int := s[at], s[at + 1], s[at + 2], s[at + 3];
    n == a + 0x100 * b + 0x1_0000 * c + 0x100_0000 * d
  }

  lemma PackedNumber(s: seq<byte>, at: nat, n: nat)
    requires n < U32 && Stands(s, at, Pack32(n))
    ensures Number(s, at, n)
  {
    LoadPacked(n);
    assert s[at] == Pack32(n)[0] && s[at + 1] == Pack32(n)[1] && s[at + 2] == Pack32(n)[2] && s[at + 3] == Pack32(n)[3];
  }

  /** A header as bytes: 32 of the name, which begins at `n` in the path, and zeros, four of the size. */
  predicate HeaderAt(b: seq<byte>, h: nat, path: string, n: nat, size: nat) {
    && h + 36 <= |b| && Number(b, h + 32, size)
    && forall k | h <= k < h + 32 :: b[k] == NameByte(path, n, k - h)
  }

  function NameByte(path: string, n: nat, k: nat): int {
    if k < 31 && n + k < |path| then path[n + k] as int else 0
  }

  lemma HeaderBytes(f: File, n: nat)
    requires Packable(f) && BaseFrom(f.path, n)
    ensures HeaderAt(Header(f), 0, f.path, n, |Normal(f.content)|)
  {
    BaseIsFrom(f.path, n);
    PackedNumber(Header(f), 32, |Normal(f.content)|);
  }

  lemma HeaderCopied(b: seq<byte>, h: nat, header: seq<byte>, path: string, n: nat, size: nat)
    requires Stands(b, h, header) && HeaderAt(header, 0, path, n, size)
    ensures HeaderAt(b, h, path, n, size)
  {
    forall k | h <= k < h + 32 ensures b[k] == NameByte(path, n, k - h) {
      assert b[h + (k - h)] == header[k - h];
    }
    assert b[h + 32] == header[32] && b[h + 33] == header[33] && b[h + 34] == header[34] && b[h + 35] == header[35];
  }

  lemma HeaderInside(b: seq<byte>, h: nat, f: File, n: nat)
    requires Packable(f) && BaseFrom(f.path, n) && Stands(b, h, Header(f))
    ensures HeaderAt(b, h, f.path, n, |Normal(f.content)|)
  {
    HeaderBytes(f, n);
    HeaderCopied(b, h, Header(f), f.path, n, |Normal(f.content)|);
  }

  lemma CountLoaded(b: seq<byte>, base: nat, fs: seq<File>)
    requires Loaded(b, base, fs)
    ensures base + 4 <= |b| && Number(b, base, |fs|)
  {
    Layout(b, base, Pack32(|fs|), Joined(HeaderList(fs), |fs|), Joined(BlobList(fs), |fs|));
    PackedNumber(b, base, |fs|);
  }

  lemma PartsLoaded(b: seq<byte>, base: nat, fs: seq<File>, i: nat)
    requires Loaded(b, base, fs) && i < |fs|
    ensures Stands(b, base + 4 + HEADER_SIZE * i, Header(fs[i]))
    ensures Stands(b, base + DataAt(BlobList(fs), i), Normal(fs[i].content))
  {
    PartsStand(b, base, Pack32(|fs|), HeaderList(fs), BlobList(fs), i);
  }

  lemma NameLoaded(b: seq<byte>, base: nat, fs: seq<File>, i: nat, n: nat, header: nat)
    requires Loaded(b, base, fs) && i < |fs| && BaseFrom(fs[i].path, n) && header == base + 4 + 36 * i
    ensures HeaderAt(b, header, fs[i].path, n, |Normal(fs[i].content)|)
  {
    assert Stands(b, header, Header(fs[i])) by {
      assert header == base + 4 + HEADER_SIZE * i;
      PartsLoaded(b, base, fs, i);
    }
    HeaderInside(b, header, fs[i], n);
  }

  lemma BlobLoaded(b: seq<byte>, base: nat, fs: seq<File>, i: nat, data: nat)
    requires Loaded(b, base, fs) && i < |fs| && data == base + 4 + 36 * |fs| + Sizes(BlobList(fs), i)
    ensures Stands(b, data, Normal(fs[i].content))
  {
    assert data == base + DataAt(BlobList(fs), i);
    PartsLoaded(b, base, fs, i);
  }

  /** A loaded image byte by byte: the number of files, headers of 36 bytes, and the contents. */
  lemma ImageBytes(b: seq<byte>, base: nat, fs: seq<File>, i: nat, n: nat, header: nat, data: nat)
    requires Loaded(b, base, fs) && i < |fs| && BaseFrom(fs[i].path, n)
    requires header == base + 4 + 36 * i && data == base + 4 + 36 * |fs| + Sizes(BlobList(fs), i)
    ensures base + 4 <= |b| && Number(b, base, |fs|)
    ensures HeaderAt(b, header, fs[i].path, n, |Normal(fs[i].content)|)
    ensures Stands(b, data, Normal(fs[i].content))
  {
    CountLoaded(b, base, fs);
    NameLoaded(b, base, fs, i, n, header);
    BlobLoaded(b, base, fs, i, data);
  }

  /** Packing, loading at any address but 0, and looking a name up: the contents, with their line ends
      made into one byte, of the first file whose path ends in that name, or nothing. */
  method StoreAndFetch(files: seq<File>, name: seq<byte>, address: nat) returns (r: Option<seq<byte>>)
    requires AllPackable(files) && |files| < U32 && 0 !in name && |name| <= 31 && address > 0
    ensures r == None ==> forall k | 0 <= k < |files| :: !Bears(files[k].path, name)
    ensures r.Some? ==> exists i: nat | FirstBearing(files, i, name) :: Tidied(files[i].content, r.value)
  {
    var memory := Store(files, address);
    var reader := new Reader(memory);
    reader.Init(address);
    DirectoryIs(memory, address, files);
    NameIsItself(name);
    assert (name + [0])[|name|] == 0;
    r := Fetch(reader, name + [0], Names(files), BlobList(files));
    FirstOfName(files, name);
    if r.Some? {
      NormalTidies(files[FirstIndex(Names(files), name)].content);
    }
  }

  /** The file of a path without a slash is found under its path. */
  method StoreOne(name: string, content: seq<byte>, address: nat) returns (r: Option<seq<byte>>)
    requires |name| <= 31 && (forall i | 0 <= i < |name| :: name[i] != '/' && 1 <= name[i] as int <= 127)
    requires Plain(content) && content != [] && content[|content| - 1] == 10 && |content| < U32 && address > 0
    ensures r == Some(content)
  {
    var f, key := File(name, content), seq(|name|, i requires 0 <= i < |name| => name[i] as int as byte);
    assert BaseFrom(name, 0) && name[0..] == name;
    assert Lines([content], [13, 10]) == content && AllPlain([content]);
    assert Lines([content], [10]) == content;
    assert Tidied(content, content);
    PackableMeans(f, 0, content);
    assert Bears(name, key) by {
      assert Spells(name[0..], key);
    }
    r := StoreAndFetch([f], key, address);
    assert [f][0].path == name;
    if r.Some? {
      ghost var i: nat :| FirstBearing([f], i, key) && Tidied([f][i].content, r.value);
      TidiedIsNormal(content, content);
      TidiedIsNormal(content, r.value);
    }
  }
}
