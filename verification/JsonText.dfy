/** JSON texts (section 2 of RFC 4627) as syntax trees that keep every character, the
    text each tree spells, and the value it denotes. A byte is a char below 256. */
module JsonText {

  datatype Option<+T> = None | Some(value: T)

  // ---------- values ----------

  /** What a JSON text denotes. A number with a fraction or an exponent is kept as its
      literal, the argument of the float parser. */
  datatype Json =
    | Null
    | Bool(b: bool)
    | Int(n: int)
    | Float(literal: string)
    | Str(s: string)
    | List(items: seq<Json>)
    | Dict(entries: map<Json, Json>)

  // ---------- strings ----------

  datatype StrChar =
    | Raw(c: char)
    | Escape(c: char)
    | Unicode(h1: char, h2: char, h3: char, h4: char)

  predicate IsHex(c: char) {
    '0' <= c <= '9' || 'a' <= c <= 'f' || 'A' <= c <= 'F'
  }

  function HexValue(c: char): nat
    requires IsHex(c)
  {
    if c <= '9' then c as int - '0' as int
    else if c >= 'a' then c as int - 'a' as int + 10
    else c as int - 'A' as int + 10
  }

  predicate ValidChar(k: StrChar) {
    match k
    case Raw(c) => ' ' <= c && c != '"' && c != '\\'
    case Escape(c) => c in "\"\\/bfnrt"
    case Unicode(h1, h2, h3, h4) => IsHex(h1) && IsHex(h2) && IsHex(h3) && IsHex(h4)
  }

  predicate ValidChars(ks: seq<StrChar>) {
    forall i | 0 <= i < |ks| :: ValidChar(ks[i])
  }

  function CharText(k: StrChar): string {
    match k
    case Raw(c) => [c]
    case Escape(c) => ['\\', c]
    case Unicode(h1, h2, h3, h4) => ['\\', 'u', h1, h2, h3, h4]
  }

  function CharsText(ks: seq<StrChar>): string {
    if ks == [] then "" else CharText(ks[0]) + CharsText(ks[1..])
  }

  function Unescaped(c: char): char {
    match c
    case 'b' => 8 as char
    case 'f' => 12 as char
    case 'n' => '\n'
    case 'r' => '\r'
    case 't' => '\t'
    case _ => c
  }

  function CodeUnit(k: StrChar): nat
    requires ValidChar(k) && k.Unicode?
  {
    ((HexValue(k.h1) * 16 + HexValue(k.h2)) * 16 + HexValue(k.h3)) * 16 + HexValue(k.h4)
  }

  /** UTF-8 (section 3 of RFC 3629). */
  function Utf8(u: nat): string
    requires u < 0x110000
  {
    if u < 0x80 then [u as char]
    else if u < 0x800 then [(0xC0 + u / 0x40) as char, (0x80 + u % 0x40) as char]
    else if u < 0x10000 then
      [(0xE0 + u / 0x1000) as char, (0x80 + u / 0x40 % 0x40) as char, (0x80 + u % 0x40) as char]
    else
      [(0xF0 + u / 0x40000) as char, (0x80 + u / 0x1000 % 0x40) as char,
       (0x80 + u / 0x40 % 0x40) as char, (0x80 + u % 0x40) as char]
  }

  /** What one character of a string literal contributes on its own. */
  function CharBytes(k: StrChar): string
    requires ValidChar(k)
  {
    match k
    case Raw(c) => [c]
    case Escape(c) => [Unescaped(c)]
    case Unicode(_, _, _, _) => Utf8(CodeUnit(k))
  }

  /** The string with every escape decoded by itself. */
  function PlainBytes(ks: seq<StrChar>): string
    requires ValidChars(ks)
  {
    if ks == [] then "" else CharBytes(ks[0]) + PlainBytes(ks[1..])
  }

  /** A surrogate pair, which RFC 4627 reads as one character outside the basic plane. */
  predicate IsPair(hi: StrChar, lo: StrChar)
    requires ValidChar(hi) && ValidChar(lo)
  {
    hi.Unicode? && lo.Unicode? && 0xD800 <= CodeUnit(hi) < 0xDC00 <= CodeUnit(lo) < 0xE000
  }

  /** The string as RFC 4627 defines it: surrogate pairs joined. */
  function StringBytes(ks: seq<StrChar>): string
    requires ValidChars(ks)
  {
    if ks == [] then ""
    else if |ks| >= 2 && IsPair(ks[0], ks[1]) then
      Utf8(0x10000 + (CodeUnit(ks[0]) - 0xD800) * 0x400 + (CodeUnit(ks[1]) - 0xDC00)) + StringBytes(ks[2..])
    else CharBytes(ks[0]) + StringBytes(ks[1..])
  }

  predicate HasPair(ks: seq<StrChar>)
    requires ValidChars(ks)
  {
    exists i :: 0 <= i < |ks| - 1 && IsPair(ks[i], ks[i + 1])
  }

  lemma PairLengths(ks: seq<StrChar>)
    requires ValidChars(ks) && |ks| >= 2 && IsPair(ks[0], ks[1])
    ensures |StringBytes(ks)| == 4 + |StringBytes(ks[2..])|
    ensures |PlainBytes(ks)| == 6 + |PlainBytes(ks[2..])|
  {
    assert ks[1..][1..] == ks[2..];
  }

  lemma {:induction false} PlainNotShorter(ks: seq<StrChar>)
    requires ValidChars(ks)
    ensures |PlainBytes(ks)| >= |StringBytes(ks)|
    decreases |ks|
  {
    if ks != [] {
      if |ks| >= 2 && IsPair(ks[0], ks[1]) {
        PairLengths(ks);
        PlainNotShorter(ks[2..]);
      } else {
        PlainNotShorter(ks[1..]);
      }
    }
  }

  /** Decoding escapes one by one is right for exactly the strings without surrogate pairs. */
  lemma {:induction false} PlainIffNoPair(ks: seq<StrChar>)
    requires ValidChars(ks)
    ensures PlainBytes(ks) == StringBytes(ks) <==> !HasPair(ks)
    decreases |ks|
  {
    if ks != [] {
      if |ks| >= 2 && IsPair(ks[0], ks[1]) {
        PairLengths(ks);
        PlainNotShorter(ks[2..]);
      } else {
        PlainIffNoPair(ks[1..]);
        var t := ks[1..];
        if HasPair(t) {
          var i :| 0 <= i < |t| - 1 && IsPair(t[i], t[i + 1]);
          assert IsPair(ks[i + 1], ks[i + 2]);
        }
        if HasPair(ks) {
          var i :| 0 <= i < |ks| - 1 && IsPair(ks[i], ks[i + 1]);
          assert i > 0;
          assert IsPair(t[i - 1], t[i]);
        }
        SamePrefix(CharBytes(ks[0]), PlainBytes(t), StringBytes(t));
      }
    }
  }

  lemma SamePrefix(p: string, s: string, t: string)
    ensures p + s == p + t <==> s == t
  {
    if p + s == p + t {
      assert (p + s)[|p|..] == s && (p + t)[|p|..] == t;
    }
  }

  // ---------- numbers ----------

  datatype Number = Number(negative: bool, whole: string, fraction: Option<string>, exponent: Option<Exponent>)

  datatype Exponent = Exponent(mark: char, sign: Option<char>, digits: string)

  predicate IsDigit(c: char) { '0' <= c <= '9' }

  predicate Digits(s: string) {
    s != "" && forall i | 0 <= i < |s| :: IsDigit(s[i])
  }

  predicate ValidNumber(n: Number) {
    && Digits(n.whole) && (|n.whole| > 1 ==> n.whole[0] != '0')
    && (n.fraction.Some? ==> Digits(n.fraction.value))
    && (n.exponent.Some? ==> n.exponent.value.mark in "eE" && Digits(n.exponent.value.digits)
                             && (n.exponent.value.sign.Some? ==> n.exponent.value.sign.value in "+-"))
  }

  function ExponentText(e: Exponent): string {
    [e.mark] + (if e.sign.Some? then [e.sign.value] else "") + e.digits
  }

  function NumberText(n: Number): string {
    (if n.negative then "-" else "") + n.whole
    + (if n.fraction.Some? then "." + n.fraction.value else "")
    + (if n.exponent.Some? then ExponentText(n.exponent.value) else "")
  }

  /** The number a digit string denotes, most significant digit first. */
  function Decimal(s: string): int
    requires forall i | 0 <= i < |s| :: IsDigit(s[i])
  {
    if s == "" then 0 else 10 * Decimal(s[..|s| - 1]) + (s[|s| - 1] as int - '0' as int)
  }

  function NumberValue(n: Number): Json
    requires ValidNumber(n)
  {
    if n.fraction.Some? || n.exponent.Some? then Float(NumberText(n))
    else Int(if n.negative then -Decimal(n.whole) else Decimal(n.whole))
  }

  // ---------- texts ----------

  datatype Value =
    | NullV | TrueV | FalseV
    | NumberV(n: Number)
    | StringV(ks: seq<StrChar>)
    | ArrayV(blank: string, elements: Elements)
    | ObjectV(blank: string, members: Members)

  datatype Elements =
    | NoElements
    | Element(before: string, v: Value, after: string, rest: Elements)

  datatype Members =
    | NoMembers
    | Member(before: string, key: seq<StrChar>, colon: string, gap: string, v: Value, after: string, rest: Members)

  datatype Document = Document(before: string, v: Value, after: string)

  predicate IsBlank(c: char) { c in " \t\n\r" }

  predicate Blank(s: string) {
    forall i | 0 <= i < |s| :: IsBlank(s[i])
  }

  predicate Valid(v: Value) {
    match v
    case NumberV(n) => ValidNumber(n)
    case StringV(ks) => ValidChars(ks)
    case ArrayV(blank, es) => Blank(blank) && ValidElements(es)
    case ObjectV(blank, ms) => Blank(blank) && ValidMembers(ms)
    case _ => true
  }

  predicate ValidElements(es: Elements) {
    es.Element? ==> Blank(es.before) && Valid(es.v) && Blank(es.after) && ValidElements(es.rest)
  }

  predicate ValidMembers(ms: Members) {
    ms.Member? ==>
      && Blank(ms.before) && ValidChars(ms.key) && Blank(ms.colon) && Blank(ms.gap) && Valid(ms.v)
      && Blank(ms.after) && ValidMembers(ms.rest)
  }

  predicate ValidDocument(d: Document) {
    Blank(d.before) && Valid(d.v) && Blank(d.after)
  }

  function StringText(ks: seq<StrChar>): string {
    "\"" + CharsText(ks) + "\""
  }

  function Text(v: Value): string {
    match v
    case NullV => "null"
    case TrueV => "true"
    case FalseV => "false"
    case NumberV(n) => NumberText(n)
    case StringV(ks) => StringText(ks)
    case ArrayV(blank, es) => "[" + blank + ElementsText(es) + "]"
    case ObjectV(blank, ms) => "{" + blank + MembersText(ms) + "}"
  }

  function ElementsText(es: Elements): string {
    match es
    case NoElements => ""
    case Element(before, v, after, rest) =>
      before + Text(v) + after + (if rest.Element? then "," else "") + ElementsText(rest)
  }

  function MembersText(ms: Members): string {
    match ms
    case NoMembers => ""
    case Member(before, key, colon, gap, v, after, rest) =>
      before + StringText(key) + colon + ":" + gap + Text(v) + after
      + (if rest.Member? then "," else "") + MembersText(rest)
  }

  function DocumentText(d: Document): string {
    d.before + Text(d.v) + d.after
  }

  /** How string literals are read: surrogate pairs joined, as RFC 4627 has it, or every
      escape by itself, as the parser does. */
  datatype Reading = Joined | Plain

  function StringValue(ks: seq<StrChar>, r: Reading): Json
    requires ValidChars(ks)
  {
    Str(if r == Joined then StringBytes(ks) else PlainBytes(ks))
  }

  /** The value of a text; of equal keys the last counts. */
  function Denotes(v: Value, r: Reading): Json
    requires Valid(v)
  {
    match v
    case NullV => Null
    case TrueV => Bool(true)
    case FalseV => Bool(false)
    case NumberV(n) => NumberValue(n)
    case StringV(ks) => StringValue(ks, r)
    case ArrayV(_, es) => List(DenotesElements(es, r))
    case ObjectV(_, ms) => Dict(DenotesMembers(ms, map[], r))
  }

  function DenotesElements(es: Elements, r: Reading): seq<Json>
    requires ValidElements(es)
  {
    match es
    case NoElements => []
    case Element(_, v, _, rest) => [Denotes(v, r)] + DenotesElements(rest, r)
  }

  function DenotesMembers(ms: Members, before: map<Json, Json>, r: Reading): map<Json, Json>
    requires ValidMembers(ms)
    decreases ms
  {
    match ms
    case NoMembers => before
    case Member(_, key, _, _, v, _, rest) => DenotesMembers(rest, before[StringValue(key, r) := Denotes(v, r)], r)
  }

  // ---------- surrogate pairs in whole texts ----------

  predicate Pairless(v: Value)
    requires Valid(v)
  {
    match v
    case StringV(ks) => !HasPair(ks)
    case ArrayV(_, es) => PairlessElements(es)
    case ObjectV(_, ms) => PairlessMembers(ms)
    case _ => true
  }

  predicate PairlessElements(es: Elements)
    requires ValidElements(es)
  {
    es.Element? ==> Pairless(es.v) && PairlessElements(es.rest)
  }

  predicate PairlessMembers(ms: Members)
    requires ValidMembers(ms)
  {
    ms.Member? ==> !HasPair(ms.key) && Pairless(ms.v) && PairlessMembers(ms.rest)
  }

  lemma {:induction false} ReadingsAgree(v: Value)
    requires Valid(v) && Pairless(v)
    ensures Denotes(v, Plain) == Denotes(v, Joined)
  {
    match v
    case StringV(ks) => PlainIffNoPair(ks);
    case ArrayV(_, es) => ReadingsAgreeElements(es);
    case ObjectV(_, ms) => ReadingsAgreeMembers(ms, map[]);
    case _ =>
  }

  lemma {:induction false} ReadingsAgreeElements(es: Elements)
    requires ValidElements(es) && PairlessElements(es)
    ensures DenotesElements(es, Plain) == DenotesElements(es, Joined)
  {
    if es.Element? {
      ReadingsAgree(es.v);
      ReadingsAgreeElements(es.rest);
    }
  }

  lemma {:induction false} ReadingsAgreeMembers(ms: Members, before: map<Json, Json>)
    requires ValidMembers(ms) && PairlessMembers(ms)
    ensures DenotesMembers(ms, before, Plain) == DenotesMembers(ms, before, Joined)
    decreases ms
  {
    if ms.Member? {
      PlainIffNoPair(ms.key);
      ReadingsAgree(ms.v);
      ReadingsAgreeMembers(ms.rest, before[StringValue(ms.key, Plain) := Denotes(ms.v, Plain)]);
    }
  }
}
