/** What the loader makes of the ways to write a character, a number or a name, said in code points
    and digits (sections 2.1, 2.4 and 2.5 of RFC 4627, section 3 of RFC 3629). */
module JsonStrings {
  import opened JsonText
  import opened JsonMachine
  import opened JsonCorrect
  import opened JsonExact
  import opened JsonLoader

  // ---------- code points as bytes ----------

  /** The six bits of a byte that goes on with a character, 10xxxxxx. */
  predicate Tail(c: char) { 0x80 <= c as int <= 0xbf }

  function Low6(c: char): int { c as int - 0x80 }

  /** The bytes are those of code point `u`: 0xxxxxxx, or a leading byte 110xxxxx, 1110xxxx or
      11110xxx and one, two or three more. */
  predicate Encoded(t: string, u: nat) {
    || (|t| == 1 && u <= 0x7f && t[0] as int == u)
    || (|t| == 2 && 0x80 <= u <= 0x7ff && Tail(t[1]) && u == (t[0] as int - 0xc0) * 0x40 + Low6(t[1]))
    || (|t| == 3 && 0x800 <= u <= 0xffff && Tail(t[1]) && Tail(t[2])
        && u == (t[0] as int - 0xe0) * 0x1000 + Low6(t[1]) * 0x40 + Low6(t[2]))
    || (|t| == 4 && 0x1_0000 <= u <= 0x10_ffff && Tail(t[1]) && Tail(t[2]) && Tail(t[3])
        && u == (t[0] as int - 0xf0) * 0x4_0000 + Low6(t[1]) * 0x1000 + Low6(t[2]) * 0x40 + Low6(t[3]))
  }

  lemma Utf8Encodes(u: nat)
    requires u < 0x11_0000
    ensures Encoded(Utf8(u), u)
  {
    if u >= 0x1_0000 {
      assert u / 0x40000 * 0x40 + u / 0x1000 % 0x40 == u / 0x1000;
    }
    if u >= 0x800 {
      assert u / 0x1000 * 0x40 + u / 0x40 % 0x40 == u / 0x40;
    }
  }

  lemma SixBits(q: int, r: int)
    requires 0 <= r < 0x40
    ensures (q * 0x40 + r) / 0x40 == q && (q * 0x40 + r) % 0x40 == r
  {
  }

  lemma BytesOf(t: string, u: nat)
    requires Encoded(t, u)
    ensures |t| == 2 ==> t[0] as int == u / 0x40 + 0xc0 && Low6(t[1]) == u % 0x40
    ensures |t| == 3 ==> && t[0] as int == u / 0x40 / 0x40 + 0xe0 && Low6(t[1]) == u / 0x40 % 0x40
                         && Low6(t[2]) == u % 0x40
    ensures |t| == 4 ==> && t[0] as int == u / 0x40 / 0x40 / 0x40 + 0xf0 && Low6(t[1]) == u / 0x40 / 0x40 % 0x40
                         && Low6(t[2]) == u / 0x40 % 0x40 && Low6(t[3]) == u % 0x40
  {
    if |t| == 2 {
      SixBits(t[0] as int - 0xc0, Low6(t[1]));
    } else if |t| == 3 {
      var q := (t[0] as int - 0xe0) * 0x40 + Low6(t[1]);
      SixBits(t[0] as int - 0xe0, Low6(t[1]));
      SixBits(q, Low6(t[2]));
    } else if |t| == 4 {
      var p := (t[0] as int - 0xf0) * 0x40 + Low6(t[1]);
      var q := p * 0x40 + Low6(t[2]);
      SixBits(t[0] as int - 0xf0, Low6(t[1]));
      SixBits(p, Low6(t[2]));
      SixBits(q, Low6(t[3]));
    }
  }

  /** A code point has one encoding. */
  lemma EncodedOnce(s: string, t: string, u: nat)
    requires Encoded(s, u) && Encoded(t, u)
    ensures s == t
  {
    assert |s| == |t|;
    BytesOf(s, u);
    BytesOf(t, u);
    forall i | 0 <= i < |s| ensures s[i] as int == t[i] as int {
    }
  }

  /** The number of bytes of a character, by its first one. */
  function Length(c: char): nat {
    if c as int < 0x80 then 1 else if c as int < 0xe0 then 2 else if c as int < 0xf0 then 3 else 4
  }

  /** The code point of the first `n` bytes. */
  function Point(s: string, n: nat): int
    requires 1 <= n <= 4 && n <= |s|
  {
    if n == 1 then s[0] as int
    else if n == 2 then (s[0] as int - 0xc0) * 0x40 + Low6(s[1])
    else if n == 3 then (s[0] as int - 0xe0) * 0x1000 + Low6(s[1]) * 0x40 + Low6(s[2])
    else (s[0] as int - 0xf0) * 0x4_0000 + Low6(s[1]) * 0x1000 + Low6(s[2]) * 0x40 + Low6(s[3])
  }

  /** The code points of a string, up to a last character that is cut. */
  function Points(s: string): seq<int> {
    if s == "" || |s| < Length(s[0]) then [] else [Point(s, Length(s[0]))] + Points(s[Length(s[0])..])
  }

  lemma PointsStep(t: string, u: nat, rest: string)
    requires Encoded(t, u)
    ensures Points(t + rest) == [u] + Points(rest)
  {
    var s := t + rest;
    assert |t| == Length(t[0]) && s[0] == t[0];
    assert s[|t|..] == rest;
    forall i | 0 <= i < |t| ensures s[i] == t[i] {
    }
  }

  // ---------- ways to write a character ----------

  predicate ShortEscape(c: char, u: nat) {
    || (c == '"' && u == 0x22) || (c == '\\' && u == 0x5c) || (c == '/' && u == 0x2f)
    || (c == 'b' && u == 0x08) || (c == 'f' && u == 0x0c) || (c == 'n' && u == 0x0a)
    || (c == 'r' && u == 0x0d) || (c == 't' && u == 0x09)
  }

  predicate HexDigit(c: char, n: nat) {
    n < 16 && (c == "0123456789abcdef"[n] || c == "0123456789ABCDEF"[n])
  }

  predicate LongEscape(t: string, u: nat) {
    && |t| == 6 && t[0] == '\\' && t[1] == 'u' && u <= 0xffff
    && HexDigit(t[2], u / 0x1000) && HexDigit(t[3], u / 0x100 % 0x10)
    && HexDigit(t[4], u / 0x10 % 0x10) && HexDigit(t[5], u % 0x10)
  }

  /** The text writes code point `u` within a string: as its bytes, with a letter behind a backslash,
      or with four hexadecimal digits. */
  predicate Spells(t: string, u: nat) {
    || (Encoded(t, u) && u >= 0x20 && u != 0x22 && u != 0x5c)
    || (|t| == 2 && t[0] == '\\' && ShortEscape(t[1], u))
    || LongEscape(t, u)
  }

  predicate AllSpell(ts: seq<string>, us: seq<nat>) {
    |ts| == |us| && (ts == [] || (Spells(ts[0], us[0]) && AllSpell(ts[1..], us[1..])))
  }

  function Flat(ts: seq<string>): string { if ts == [] then "" else ts[0] + Flat(ts[1..]) }

  lemma HexDigitIs(c: char, n: nat)
    requires HexDigit(c, n)
    ensures IsHex(c) && HexValue(c) == n
  {
  }

  lemma LongEscapeIs(t: string, u: nat)
    requires LongEscape(t, u)
    ensures var k := Unicode(t[2], t[3], t[4], t[5]); ValidChar(k) && CodeUnit(k) == u && CharText(k) == t
  {
    HexDigitIs(t[2], u / 0x1000);
    HexDigitIs(t[3], u / 0x100 % 0x10);
    HexDigitIs(t[4], u / 0x10 % 0x10);
    HexDigitIs(t[5], u % 0x10);
    FourDigits(u);
    assert ['\\', 'u', t[2], t[3], t[4], t[5]] == t;
  }

  lemma FourDigits(u: nat)
    ensures ((u / 0x1000 * 16 + u / 0x100 % 0x10) * 16 + u / 0x10 % 0x10) * 16 + u % 0x10 == u
  {
    assert u / 0x1000 * 16 + u / 0x100 % 0x10 == u / 0x100;
    assert u / 0x100 * 16 + u / 0x10 % 0x10 == u / 0x10;
  }

  lemma OneChar(k: StrChar)
    requires ValidChar(k)
    ensures ValidChars([k]) && CharsText([k]) == CharText(k) && PlainBytes([k]) == CharBytes(k)
  {
    assert CharText(k) + "" == CharText(k) && CharBytes(k) + "" == CharBytes(k);
  }

  function RawChars(t: string): seq<StrChar> { if t == "" then [] else [Raw(t[0])] + RawChars(t[1..]) }

  lemma {:induction false} RawCharsAre(t: string)
    requires forall i | 0 <= i < |t| :: ValidChar(Raw(t[i]))
    ensures ValidChars(RawChars(t)) && CharsText(RawChars(t)) == t && PlainBytes(RawChars(t)) == t
  {
    if t != "" {
      RawCharsAre(t[1..]);
      assert RawChars(t)[1..] == RawChars(t[1..]);
      assert [t[0]] + t[1..] == t;
    }
  }

  /** The characters of a spelling and the bytes that they stand for. */
  lemma SpelledChars(t: string, u: nat) returns (ks: seq<StrChar>)
    requires Spells(t, u)
    ensures ValidChars(ks) && CharsText(ks) == t && Encoded(PlainBytes(ks), u)
  {
    if LongEscape(t, u) {
      var k := Unicode(t[2], t[3], t[4], t[5]);
      LongEscapeIs(t, u);
      OneChar(k);
      Utf8Encodes(u);
      ks := [k];
    } else if |t| == 2 && t[0] == '\\' && ShortEscape(t[1], u) {
      OneChar(Escape(t[1]));
      assert Encoded([Unescaped(t[1])], u);
      ks := [Escape(t[1])];
    } else {
      RawCharsAre(t);
      ks := RawChars(t);
    }
  }

  lemma {:induction false} TextsJoin(a: seq<StrChar>, b: seq<StrChar>)
    ensures CharsText(a + b) == CharsText(a) + CharsText(b)
  {
    if a == [] {
      assert a + b == b;
    } else {
      TextsJoin(a[1..], b);
      Uncons(a, b);
      assert ([a[0]] + (a[1..] + b))[1..] == a[1..] + b;
      Associate(CharText(a[0]), CharsText(a[1..]), CharsText(b));
    }
  }

  lemma ValidJoin(a: seq<StrChar>, b: seq<StrChar>)
    requires ValidChars(a) && ValidChars(b)
    ensures ValidChars(a + b)
  {
  }

  lemma FirstBytes(k: StrChar, rest: seq<StrChar>)
    requires ValidChar(k) && ValidChars(rest)
    ensures ValidChars([k] + rest) && PlainBytes([k] + rest) == CharBytes(k) + PlainBytes(rest)
  {
    assert ([k] + rest)[1..] == rest;
  }

  lemma {:induction false} BytesJoin(a: seq<StrChar>, b: seq<StrChar>)
    requires ValidChars(a) && ValidChars(b)
    ensures ValidChars(a + b) && PlainBytes(a + b) == PlainBytes(a) + PlainBytes(b)
  {
    ValidJoin(a, b);
    if a == [] {
      assert a + b == b;
    } else {
      var k, rest := a[0], a[1..];
      BytesJoin(rest, b);
      FirstBytes(k, rest + b);
      Uncons(a, b);
      Associate(CharBytes(k), PlainBytes(rest), PlainBytes(b));
    }
  }

  lemma Uncons<T>(a: seq<T>, b: seq<T>)
    requires a != []
    ensures a + b == [a[0]] + (a[1..] + b)
  {
  }

  lemma Associate(a: string, b: string, c: string)
    ensures a + b + c == a + (b + c)
  {
  }

  lemma {:induction false} AllChars(ts: seq<string>, us: seq<nat>) returns (ks: seq<StrChar>)
    requires AllSpell(ts, us)
    ensures ValidChars(ks) && CharsText(ks) == Flat(ts) && Points(PlainBytes(ks)) == us
  {
    if ts == [] {
      ks := [];
    } else {
      var first := SpelledChars(ts[0], us[0]);
      var rest := AllChars(ts[1..], us[1..]);
      TextsJoin(first, rest);
      BytesJoin(first, rest);
      PointsStep(PlainBytes(first), us[0], PlainBytes(rest));
      assert [us[0]] + us[1..] == us;
      ks := first + rest;
    }
  }

  /** A list of one string, each character written in any way, is loaded as a list of the string with
      these code points. */
  lemma LoadsSpelled(ts: seq<string>, us: seq<nat>)
    requires AllSpell(ts, us)
    ensures var r := Load("[\"" + Flat(ts) + "\"]");
            r.Loaded? && exists s :: Represents(r.cells, r.root, List([Str(s)])) && Points(s) == us
  {
    var ks := AllChars(ts, us);
    var v := StringV(ks);
    SingleText(v);
    SingleDenotes(v, Plain);
    LoadsEveryDocument(Document("", Single(v), ""));
    Quoted(Flat(ts));
  }

  lemma Quoted(t: string)
    ensures "[" + ("\"" + t + "\"") + "]" == "[\"" + t + "\"]"
  {
  }

  /** The same of the program, which returns the string. */
  method LoadSpelled(ts: seq<string>, us: seq<nat>) returns (s: string)
    requires AllSpell(ts, us)
    ensures Points(s) == us
  {
    var loader := new Loader("[\"" + Flat(ts) + "\"]");
    var r := loader.Load();
    LoadsSpelled(ts, us);
    ghost var t :| Represents(r.cells, r.root, List([Str(t)])) && Points(t) == us;
    assert Represents(r.cells, r.cells[r.root.r].items[0], List([Str(t)]).items[0]);
    s := r.cells[r.root.r].items[0].p.s;
  }

  /** Two escapes that the standard reads as one code point outside the basic plane are loaded as two. */
  lemma PairPoints(hi: StrChar, lo: StrChar, q: nat, r: nat)
    requires ValidChar(hi) && ValidChar(lo) && hi.Unicode? && lo.Unicode? && q < 0x400 && r < 0x400
    requires LongEscape(CharText(hi), 0xd800 + q) && LongEscape(CharText(lo), 0xdc00 + r)
    ensures ValidChars([hi, lo]) && Points(StringBytes([hi, lo])) == [0x1_0000 + q * 0x400 + r]
    ensures Points(PlainBytes([hi, lo])) == [0xd800 + q, 0xdc00 + r]
  {
    LongEscapeIs(CharText(hi), 0xd800 + q);
    LongEscapeIs(CharText(lo), 0xdc00 + r);
    PairJoined(hi, lo, q, r);
    PairPlain(hi, lo, 0xd800 + q, 0xdc00 + r);
    LastPoint(0x1_0000 + q * 0x400 + r);
    TwoPoints(0xd800 + q, 0xdc00 + r);
  }

  lemma TwoPoints(u: nat, v: nat)
    requires u < 0x11_0000 && v < 0x11_0000
    ensures Points(Utf8(u) + Utf8(v)) == [u, v]
  {
    Utf8Encodes(u);
    LastPoint(v);
    PointsStep(Utf8(u), u, Utf8(v));
  }

  lemma PairJoined(hi: StrChar, lo: StrChar, q: nat, r: nat)
    requires ValidChar(hi) && ValidChar(lo) && hi.Unicode? && lo.Unicode? && q < 0x400 && r < 0x400
    requires CodeUnit(hi) == 0xd800 + q && CodeUnit(lo) == 0xdc00 + r
    ensures ValidChars([hi, lo]) && StringBytes([hi, lo]) == Utf8(0x1_0000 + q * 0x400 + r)
  {
    var ks := [hi, lo];
    assert IsPair(hi, lo) && ks[2..] == [];
    NothingAfter(Utf8(0x1_0000 + q * 0x400 + r));
  }

  lemma PairPlain(hi: StrChar, lo: StrChar, u: nat, v: nat)
    requires ValidChar(hi) && ValidChar(lo) && hi.Unicode? && lo.Unicode?
    requires u == CodeUnit(hi) < 0x1_0000 && v == CodeUnit(lo) < 0x1_0000
    ensures ValidChars([hi, lo]) && PlainBytes([hi, lo]) == Utf8(u) + Utf8(v)
  {
    OneChar(lo);
    FirstBytes(hi, [lo]);
    assert [hi] + [lo] == [hi, lo];
  }

  lemma NothingAfter(t: string)
    ensures t + "" == t
  {
  }

  lemma LastPoint(u: nat)
    requires u < 0x11_0000
    ensures Points(Utf8(u)) == [u]
  {
    Utf8Encodes(u);
    PointsStep(Utf8(u), u, "");
    NothingAfter(Utf8(u));
  }

  // ---------- numbers and names ----------

  /** A natural number in decimal digits. */
  function Written(n: nat): string {
    if n < 10 then ["0123456789"[n]] else Written(n / 10) + ["0123456789"[n % 10]]
  }

  lemma {:induction false} WrittenIs(n: nat)
    ensures Digits(Written(n)) && Decimal(Written(n)) == n
    ensures Written(n)[0] == '0' ==> n == 0 && |Written(n)| == 1
  {
    var t := Written(n);
    if n < 10 {
      assert t[..0] == "" && Decimal(t[..0]) == 0;
    } else {
      WrittenIs(n / 10);
      assert t[..|t| - 1] == Written(n / 10);
    }
  }

  /** Every integer in its decimal digits is loaded as itself. */
  lemma LoadsInteger(n: int)
    ensures var r := Load(if n < 0 then "-" + Written(-n) else Written(n)); r.Loaded? && r.root == Prim(Int(n))
  {
    var whole := Written(if n < 0 then -n else n);
    WrittenIs(if n < 0 then -n else n);
    var number := Number(n < 0, whole, None, None);
    assert ValidNumber(number) && NumberValue(number) == Int(n);
    assert NumberText(number) == if n < 0 then "-" + whole else whole;
    LoadsAlone(NumberV(number));
  }

  lemma LoadsAlone(v: Value)
    requires Valid(v)
    ensures var r := Load(Text(v)); r.Loaded? && Represents(r.cells, r.root, Denotes(v, Plain))
  {
    LoadsEveryDocument(Document("", v, ""));
    assert "" + Text(v) + "" == Text(v);
  }

  /** The three names. */
  lemma LoadsNames()
    ensures Load("null").Loaded? && Load("null").root == Prim(Null)
    ensures Load("true").Loaded? && Load("true").root == Prim(Bool(true))
    ensures Load("false").Loaded? && Load("false").root == Prim(Bool(false))
  {
    LoadsAlone(NullV);
    LoadsAlone(TrueV);
    LoadsAlone(FalseV);
  }

  // ---------- what is not accepted ----------

  /** A character that begins no value, closes nothing and separates nothing is an error, wherever one
      of these can stand. */
  lemma StrayFails(st: State, c: char, s: string)
    requires InStore(st) && c != '\0' && c !in " \t\n\r,:\"[]{}ntf-" && c !in "0123456789"
    ensures Run(st, [c] + s) == SyntaxError
  {
    StrayIsBad(c, s);
    assert Cur([c] + s) == c && Drop([c] + s, 1) == s;
  }

  lemma DigitListed(c: char)
    ensures IsDigit(c) ==> c in "0123456789"
  {
    if IsDigit(c) {
      assert c == "0123456789"[c as int - '0' as int];
    }
  }

  lemma StrayIsBad(c: char, s: string)
    requires c !in " \t\n\r,:\"[]{}ntf-" && c !in "0123456789"
    ensures NextToken(c, s) == Bad
  {
    var all := " \t\n\r,:\"[]{}ntf-";
    assert all[0] == ' ' && all[1] == '\t' && all[2] == '\n' && all[3] == '\r' && all[4] == ',' && all[5] == ':';
    assert all[6] == '"' && all[7] == '[' && all[8] == ']' && all[9] == '{' && all[10] == '}' && all[11] == 'n';
    assert all[12] == 't' && all[13] == 'f' && all[14] == '-';
    DigitListed(c);
  }

  /** Nothing but white space may follow the value. */
  lemma TrailFails(st: State, c: char, s: string)
    requires c != '\0' && c !in " \t\n\U{0b}\U{0c}\r"
    ensures Finish(st, [c] + s) == SyntaxError
  {
    assert Cur([c] + s) == c;
    Whites(c);
  }

  lemma Whites(c: char)
    requires c !in " \t\n\U{0b}\U{0c}\r"
    ensures !IsSpace(c)
  {
    var all := " \t\n\U{0b}\U{0c}\r";
    assert all[0] == ' ' && all[1] == '\t' && all[2] == '\n' && all[3] as int == 11 && all[4] as int == 12
           && all[5] == '\r';
    assert '\t' <= c <= '\r' ==> c as int in {9, 10, 11, 12, 13};
  }

  /** A number ends before the first character that is not a digit, a sign, a point or an e. */
  lemma NumberStops(d: char, c: char, s: string)
    requires '0' <= d <= '9' && c !in "0123456789" && c !in "+-.eE"
    ensures NumberToken(d, [c] + s) == Primitive(Int(d as int - '0' as int), [c] + s)
  {
    var all := "+-.eE";
    assert all[0] == '+' && all[1] == '-' && all[2] == '.' && all[3] == 'e' && all[4] == 'E';
    DigitListed(c);
    assert Cur([c] + s) == c && ScanNumber([c] + s, [d], false) == Scanned([d], false, [c] + s);
    assert [d][1..] == [] && ParseDigits([d], 0) == Some(d as int - '0' as int);
  }
}
