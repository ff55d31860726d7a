/** The loader loads what a JSON text denotes. */
module JsonCorrect {
  import opened JsonText
  import opened JsonMachine

  /** The object in the store is the value: container by container, item by item. */
  ghost predicate Represents(cells: seq<Cell>, o: Obj, j: Json)
    decreases j
  {
    match j
    case List(items) =>
      && o.Ref? && o.r < |cells| && cells[o.r].ListCell? && |cells[o.r].items| == |items|
      && forall i | 0 <= i < |items| :: Represents(cells, cells[o.r].items[i], items[i])
    case Dict(entries) =>
      && o.Ref? && o.r < |cells| && cells[o.r].DictCell? && cells[o.r].entries.Keys == entries.Keys
      && forall k | k in entries :: Represents(cells, cells[o.r].entries[k], entries[k])
    case _ => o == Prim(j)
  }

  // ---------- where a value is put ----------

  datatype Placed = Placed(cells: seq<Cell>, o: Obj)

  datatype PlacedItems = PlacedItems(cells: seq<Cell>, items: seq<Obj>)

  datatype PlacedEntries = PlacedEntries(cells: seq<Cell>, entries: map<Json, Obj>)

  /** The cells of a value in allocation order, the first at `base`. */
  function Place(base: nat, v: Value): Placed
    requires Valid(v)
    decreases v
  {
    match v
    case ArrayV(_, es) =>
      var p := PlaceElements(base + 1, es);
      Placed([ListCell(p.items)] + p.cells, Ref(base))
    case ObjectV(_, ms) =>
      var p := PlaceMembers(base + 1, map[], ms);
      Placed([DictCell(p.entries)] + p.cells, Ref(base))
    case _ => Placed([], Prim(Denotes(v, Plain)))
  }

  function PlaceElements(base: nat, es: Elements): PlacedItems
    requires ValidElements(es)
    decreases es
  {
    match es
    case NoElements => PlacedItems([], [])
    case Element(_, v, _, rest) =>
      var p := Place(base, v);
      var q := PlaceElements(base + |p.cells|, rest);
      PlacedItems(p.cells + q.cells, [p.o] + q.items)
  }

  function PlaceMembers(base: nat, before: map<Json, Obj>, ms: Members): PlacedEntries
    requires ValidMembers(ms)
    decreases ms
  {
    match ms
    case NoMembers => PlacedEntries([], before)
    case Member(_, key, _, _, v, _, rest) =>
      var p := Place(base, v);
      var q := PlaceMembers(base + |p.cells|, before[StringValue(key, Plain) := p.o], rest);
      PlacedEntries(p.cells + q.cells, q.entries)
  }

  /** The store has `part` at `base`. */
  ghost predicate Holds(cells: seq<Cell>, base: nat, part: seq<Cell>) {
    base + |part| <= |cells| && cells[base..base + |part|] == part
  }

  lemma HoldsParts(cells: seq<Cell>, base: nat, p: seq<Cell>, q: seq<Cell>)
    requires Holds(cells, base, p + q)
    ensures Holds(cells, base, p) && Holds(cells, base + |p|, q)
  {
    assert cells[base..base + |p|] == cells[base..base + |p + q|][..|p|];
    assert cells[base + |p|..base + |p| + |q|] == cells[base..base + |p + q|][|p|..];
  }

  lemma {:induction false} PlacedRepresents(cells: seq<Cell>, base: nat, v: Value)
    requires Valid(v) && Holds(cells, base, Place(base, v).cells)
    ensures Represents(cells, Place(base, v).o, Denotes(v, Plain))
    decreases v
  {
    match v
    case ArrayV(_, es) =>
      var p := PlaceElements(base + 1, es);
      HoldsParts(cells, base, [ListCell(p.items)], p.cells);
      PlacedElementsRepresent(cells, base + 1, es);
      assert cells[base] == cells[base..base + 1][0];
    case ObjectV(_, ms) =>
      var p := PlaceMembers(base + 1, map[], ms);
      HoldsParts(cells, base, [DictCell(p.entries)], p.cells);
      PlacedMembersRepresent(cells, base + 1, map[], map[], ms);
      assert cells[base] == cells[base..base + 1][0];
    case NumberV(n) => assert NumberValue(n).Float? || NumberValue(n).Int?;
    case _ =>
  }

  lemma PlaceElementsIs(base: nat, es: Elements, p: Placed, q: PlacedItems)
    requires es.Element? && ValidElements(es) && p == Place(base, es.v) && q == PlaceElements(base + |p.cells|, es.rest)
    ensures PlaceElements(base, es) == PlacedItems(p.cells + q.cells, [p.o] + q.items)
  {
  }

  lemma ElementsParts(base: nat, es: Elements) returns (p: Placed, q: PlacedItems)
    requires es.Element? && ValidElements(es)
    ensures p == Place(base, es.v) && q == PlaceElements(base + |p.cells|, es.rest)
    ensures PlaceElements(base, es) == PlacedItems(p.cells + q.cells, [p.o] + q.items)
  {
    p := Place(base, es.v);
    q := PlaceElements(base + |p.cells|, es.rest);
    PlaceElementsIs(base, es, p, q);
  }

  lemma {:induction false} PlacedElementsRepresent(cells: seq<Cell>, base: nat, es: Elements)
    requires ValidElements(es) && Holds(cells, base, PlaceElements(base, es).cells)
    ensures var items, js := PlaceElements(base, es).items, DenotesElements(es, Plain);
            |items| == |js| && forall i | 0 <= i < |js| :: Represents(cells, items[i], js[i])
    decreases es
  {
    if es.Element? {
      var p, q := ElementsParts(base, es);
      HoldsParts(cells, base, p.cells, q.cells);
      PlacedRepresents(cells, base, es.v);
      PlacedElementsRepresent(cells, base + |p.cells|, es.rest);
      assert DenotesElements(es, Plain) == [Denotes(es.v, Plain)] + DenotesElements(es.rest, Plain);
    }
  }

  ghost predicate EntriesRepresent(cells: seq<Cell>, os: map<Json, Obj>, js: map<Json, Json>) {
    os.Keys == js.Keys && forall k | k in js :: Represents(cells, os[k], js[k])
  }

  lemma PlaceMembersIs(base: nat, entries: map<Json, Obj>, ms: Members, p: Placed, after: map<Json, Obj>,
                       q: PlacedEntries)
    requires ms.Member? && ValidMembers(ms) && p == Place(base, ms.v)
    requires after == entries[StringValue(ms.key, Plain) := p.o] && q == PlaceMembers(base + |p.cells|, after, ms.rest)
    ensures PlaceMembers(base, entries, ms) == PlacedEntries(p.cells + q.cells, q.entries)
  {
  }

  lemma MembersParts(base: nat, entries: map<Json, Obj>, ms: Members) returns (p: Placed, q: PlacedEntries)
    requires ms.Member? && ValidMembers(ms)
    ensures p == Place(base, ms.v)
    ensures q == PlaceMembers(base + |p.cells|, entries[StringValue(ms.key, Plain) := p.o], ms.rest)
    ensures PlaceMembers(base, entries, ms) == PlacedEntries(p.cells + q.cells, q.entries)
  {
    p := Place(base, ms.v);
    var after := entries[StringValue(ms.key, Plain) := p.o];
    q := PlaceMembers(base + |p.cells|, after, ms.rest);
    PlaceMembersIs(base, entries, ms, p, after, q);
  }

  lemma MembersHeld(cells: seq<Cell>, base: nat, entries: map<Json, Obj>, ms: Members)
    returns (p: Placed, q: PlacedEntries)
    requires ms.Member? && ValidMembers(ms) && Holds(cells, base, PlaceMembers(base, entries, ms).cells)
    ensures p == Place(base, ms.v)
    ensures q == PlaceMembers(base + |p.cells|, entries[StringValue(ms.key, Plain) := p.o], ms.rest)
    ensures PlaceMembers(base, entries, ms).entries == q.entries
    ensures Holds(cells, base, p.cells) && Holds(cells, base + |p.cells|, q.cells)
  {
    p, q := MembersParts(base, entries, ms);
    HoldsParts(cells, base, p.cells, q.cells);
  }

  lemma DenotesMembersStep(ms: Members, js: map<Json, Json>)
    requires ms.Member? && ValidMembers(ms)
    ensures DenotesMembers(ms, js, Plain)
              == DenotesMembers(ms.rest, js[StringValue(ms.key, Plain) := Denotes(ms.v, Plain)], Plain)
  {
  }

  lemma EntryRepresents(cells: seq<Cell>, os: map<Json, Obj>, js: map<Json, Json>, k: Json, o: Obj, j: Json)
    requires EntriesRepresent(cells, os, js) && Represents(cells, o, j)
    ensures EntriesRepresent(cells, os[k := o], js[k := j])
  {
  }

  lemma {:induction false} PlacedMembersRepresent(cells: seq<Cell>, base: nat, os: map<Json, Obj>,
                                                  js: map<Json, Json>, ms: Members)
    requires ValidMembers(ms) && Holds(cells, base, PlaceMembers(base, os, ms).cells)
    requires EntriesRepresent(cells, os, js)
    ensures EntriesRepresent(cells, PlaceMembers(base, os, ms).entries, DenotesMembers(ms, js, Plain))
    decreases ms
  {
    if ms.Member? {
      var p, q := MembersHeld(cells, base, os, ms);
      var k, j := StringValue(ms.key, Plain), Denotes(ms.v, Plain);
      assert EntriesRepresent(cells, os[k := p.o], js[k := j]) by {
        PlacedRepresents(cells, base, ms.v);
        EntryRepresents(cells, os, js, k, p.o, j);
      }
      PlacedMembersRepresent(cells, base + |p.cells|, os[k := p.o], js[k := j], ms.rest);
      DenotesMembersStep(ms, js);
    }
  }

  // ---------- tokens ----------

  lemma {:induction false} ExpectWord(word: string, rest: string)
    ensures Expect(word + rest, word) == Some(rest)
  {
    if word == "" {
      assert "" + rest == rest;
    } else {
      assert Drop(word + rest, 1) == word[1..] + rest;
      ExpectWord(word[1..], rest);
    }
  }

  lemma OrHalves(a: nat, b: nat)
    ensures BitOr(a, b) == 2 * BitOr(a / 2, b / 2) + if a % 2 == 1 || b % 2 == 1 then 1 else 0
  {
  }

  lemma OrDouble(m: nat, d: nat)
    requires BitOr(m, d / 2) == m + d / 2
    ensures BitOr(2 * m, d) == 2 * m + d
  {
    OrHalves(2 * m, d);
  }

  /** Shifting left by four and or-ing a nibble appends the nibble. */
  lemma OrNibble(n: nat, d: nat)
    requires d < 16
    ensures BitOr(16 * n, d) == 16 * n + d
  {
    var d1 := d / 2;
    var d2 := d1 / 2;
    var d3 := d2 / 2;
    assert d3 / 2 == 0;
    OrDouble(n, d3);
    OrDouble(2 * n, d2);
    OrDouble(4 * n, d1);
    OrDouble(8 * n, d);
  }

  lemma OrShifted(x: nat, b: nat, y: nat)
    requires BitOr(x / 2, b) == x / 2 + y
    ensures BitOr(x, 2 * b) == x + 2 * y
  {
    OrHalves(x, 2 * b);
  }

  /** Setting bit 5 of a character code. */
  lemma OrSpace(x: nat)
    ensures BitOr(x, 32) == x + 32 * (1 - x / 2 / 2 / 2 / 2 / 2 % 2)
  {
    var y := 1 - x / 2 / 2 / 2 / 2 / 2 % 2;
    OrHalves(x / 2 / 2 / 2 / 2 / 2, 1);
    OrShifted(x / 2 / 2 / 2 / 2, 1, y);
    OrShifted(x / 2 / 2 / 2, 2, 2 * y);
    OrShifted(x / 2 / 2, 4, 4 * y);
    OrShifted(x / 2, 8, 8 * y);
    OrShifted(x, 16, 16 * y);
  }

  lemma FiveHalves(x: nat)
    ensures x / 2 / 2 / 2 / 2 / 2 == x / 32
  {
    assert x / 2 / 2 / 2 == x / 8;
  }

  /** What the byte arithmetic makes of the three ranges of hex digits. */
  lemma NibbleOfCode(x: nat)
    requires 48 <= x < 58 || 65 <= x < 71 || 97 <= x < 103
    ensures BitOr(x % 256, 0x20) == if 65 <= x < 71 then x + 32 else x
  {
    assert x % 256 == x;
    OrSpace(x);
    FiveHalves(x);
    assert x / 32 == if x < 58 then 1 else if x < 71 then 2 else 3;
  }

  lemma HexNibble(c: char)
    requires IsHex(c)
    ensures Nibble(c) == HexValue(c)
  {
    NibbleOfCode(c as int);
    LowerHex(c);
  }

  lemma LowerHex(c: char)
    requires IsHex(c)
    ensures FromLower(if 65 <= c as int < 71 then c as int + 32 else c as int) == HexValue(c)
  {
  }

  lemma FourNibbles(a: nat, b: nat, c: nat, d: nat)
    requires a < 16 && b < 16 && c < 16 && d < 16
    ensures BitOr(16 * BitOr(16 * BitOr(16 * a, b), c), d) == ((a * 16 + b) * 16 + c) * 16 + d
  {
    OrNibble(a, b);
    OrNibble(a * 16 + b, c);
    OrNibble((a * 16 + b) * 16 + c, d);
  }

  lemma HexNumberIs(k: StrChar)
    requires ValidChar(k) && k.Unicode?
    ensures HexNumber(k.h1, k.h2, k.h3, k.h4) == CodeUnit(k)
  {
    HexNibble(k.h1);
    HexNibble(k.h2);
    HexNibble(k.h3);
    HexNibble(k.h4);
    FourNibbles(HexValue(k.h1), HexValue(k.h2), HexValue(k.h3), HexValue(k.h4));
  }

  lemma ScanChar(k: StrChar, rest: string, acc: string)
    requires ValidChar(k)
    ensures ScanString(CharText(k) + rest, acc) == ScanString(rest, acc + CharBytes(k))
  {
    var s := CharText(k) + rest;
    match k
    case Raw(c) =>
      assert Drop(s, 1) == rest;
    case Escape(c) =>
      assert Drop(s, 1)[0] == c;
      assert Drop(s, 2) == rest;
    case Unicode(h1, h2, h3, h4) =>
      var t := Drop(s, 2);
      assert Drop(s, 1)[0] == 'u';
      assert t == [h1, h2, h3, h4] + rest;
      assert Cur(t) == h1 && Cur(Drop(t, 1)) == h2 && Cur(Drop(t, 2)) == h3 && Cur(Drop(t, 3)) == h4;
      assert Drop(t, 4) == rest;
      HexNumberIs(k);
  }

  lemma Behind(a: string, b: string, c: string, d: string)
    ensures a + b + c + d == a + (b + c + d) && a + b + c == a + (b + c)
  {
  }

  lemma {:induction false} ScanChars(ks: seq<StrChar>, rest: string, acc: string)
    requires ValidChars(ks)
    ensures ScanString(CharsText(ks) + "\"" + rest, acc) == Some((acc + PlainBytes(ks), rest))
    decreases |ks|
  {
    if ks == [] {
      assert CharsText(ks) + "\"" + rest == "\"" + rest;
      assert Drop("\"" + rest, 1) == rest;
      assert acc + "" == acc;
    } else {
      var more := CharsText(ks[1..]) + "\"" + rest;
      assert CharsText(ks) + "\"" + rest == CharText(ks[0]) + more by {
        Behind(CharText(ks[0]), CharsText(ks[1..]), "\"", rest);
      }
      ScanChar(ks[0], more, acc);
      ScanChars(ks[1..], rest, acc + CharBytes(ks[0]));
      Behind(acc, CharBytes(ks[0]), PlainBytes(ks[1..]), "");
    }
  }

  // ---------- numbers ----------

  predicate NumberChars(s: string) { forall i | 0 <= i < |s| :: IsNumberChar(s[i]) }

  predicate Marked(s: string) { exists i :: 0 <= i < |s| && IsFloatMark(s[i]) }

  /** The next character cannot continue a number. */
  predicate Ends(rest: string) { !IsNumberChar(Cur(rest)) }

  lemma {:induction false} ScanSpan(s: string, rest: string, acc: string, isFloat: bool)
    requires NumberChars(s) && Ends(rest)
    ensures ScanNumber(s + rest, acc, isFloat) == Scanned(acc + s, isFloat || Marked(s), rest)
    decreases |s|
  {
    if s == "" {
      assert s + rest == rest;
      assert acc + s == acc;
    } else {
      assert Drop(s + rest, 1) == s[1..] + rest;
      ScanSpan(s[1..], rest, acc + [s[0]], isFloat || IsFloatMark(s[0]));
      assert acc + [s[0]] + s[1..] == acc + s;
      MarkedSplit(s);
    }
  }

  lemma MarkedSplit(s: string)
    requires s != ""
    ensures Marked(s) <==> IsFloatMark(s[0]) || Marked(s[1..])
  {
    if Marked(s) {
      var i :| 0 <= i < |s| && IsFloatMark(s[i]);
      if i > 0 { assert s[1..][i - 1] == s[i]; }
    }
    if Marked(s[1..]) {
      var i :| 0 <= i < |s[1..]| && IsFloatMark(s[1..][i]);
      assert s[i + 1] == s[1..][i];
    }
  }

  lemma {:induction false} ParseDigitsIs(s: string, t: string, acc: nat)
    requires (forall i | 0 <= i < |s| :: IsDigit(s[i])) && (forall i | 0 <= i < |t| :: IsDigit(t[i]))
    requires acc == Decimal(s)
    ensures ParseDigits(t, acc) == Some(Decimal(s + t))
    decreases |t|
  {
    if t == "" {
      assert s + t == s;
    } else {
      var u := s + [t[0]];
      assert u[..|u| - 1] == s;
      assert u + t[1..] == s + t;
      ParseDigitsIs(u, t[1..], Decimal(u));
    }
  }

  lemma NumberSpells(n: Number)
    requires ValidNumber(n)
    ensures var s := NumberText(n);
            s != "" && IsNumberStart(s[0]) && NumberChars(s[1..])
            && (Marked(s[1..]) <==> n.fraction.Some? || n.exponent.Some?)
  {
    var s := NumberText(n);
    var sign, fraction := if n.negative then "-" else "", if n.fraction.Some? then "." + n.fraction.value else "";
    var exponent := if n.exponent.Some? then ExponentText(n.exponent.value) else "";
    assert s == sign + n.whole + fraction + exponent;
    assert NumberChars(sign) && NumberChars(n.whole) && NumberChars(fraction) && NumberChars(exponent);
    if n.fraction.Some? {
      var i := |sign| + |n.whole|;
      assert s[i] == '.' && s[1..][i - 1] == '.';
    }
    if n.exponent.Some? {
      var i := |sign| + |n.whole| + |fraction|;
      assert s[i] == n.exponent.value.mark && s[1..][i - 1] == s[i];
    }
  }

  lemma IntegerText(n: Number)
    requires ValidNumber(n) && n.fraction == None && n.exponent == None
    ensures NumberText(n) == if n.negative then "-" + n.whole else n.whole
  {
    assert "" + n.whole == n.whole;
  }

  lemma DigitsParse(t: string)
    requires Digits(t)
    ensures ParseDigits(t, 0) == Some(Decimal(t))
  {
    ParseDigitsIs("", t, 0);
    assert "" + t == t;
  }

  lemma SignedParses(t: string, d: int)
    requires Digits(t) && ParseDigits(t, 0) == Some(d)
    ensures ParseInteger(t) == Some(d) && ParseInteger("-" + t) == Some(-d)
  {
    assert ("-" + t)[1..] == t;
  }

  lemma IntegerParses(n: Number)
    requires ValidNumber(n) && n.fraction == None && n.exponent == None
    ensures ParseInteger(NumberText(n)) == Some(if n.negative then -Decimal(n.whole) else Decimal(n.whole))
  {
    IntegerText(n);
    DigitsParse(n.whole);
    SignedParses(n.whole, Decimal(n.whole));
  }

  lemma NumberScanned(t: string, rest: string)
    requires t != "" && IsNumberStart(t[0]) && NumberChars(t[1..]) && Ends(rest)
    ensures Cur(t + rest) == t[0] && ScanNumber(Drop(t + rest, 1), [t[0]], false) == Scanned(t, Marked(t[1..]), rest)
  {
    assert Drop(t + rest, 1) == t[1..] + rest;
    ScanSpan(t[1..], rest, [t[0]], false);
    assert [t[0]] + t[1..] == t;
  }

  lemma NumberIsRead(n: Number, rest: string)
    requires ValidNumber(n) && Ends(rest)
    ensures var s := NumberText(n) + rest;
            IsNumberStart(Cur(s)) && NextToken(Cur(s), Drop(s, 1)) == Primitive(NumberValue(n), rest)
  {
    NumberSpells(n);
    NumberScanned(NumberText(n), rest);
    if n.fraction == None && n.exponent == None { IntegerParses(n); }
  }

  // ---------- steps of the loop ----------

  predicate Separators(s: string) { forall i | 0 <= i < |s| :: IsSeparator(s[i]) }

  lemma {:induction false} SkipSeparators(st: State, s: string, rest: string)
    requires InStore(st) && Separators(s)
    ensures Run(st, s + rest) == Run(st, rest)
    decreases |s|
  {
    if s == "" {
      assert s + rest == rest;
    } else {
      assert Drop(s + rest, 1) == s[1..] + rest;
      SkipSeparators(st, s[1..], rest);
    }
  }

  /** One of the three literal names is one token. */
  lemma NameToken(c: char, word: string, j: Json, rest: string)
    requires (c, word, j) in [('n', "ull", Null), ('t', "rue", Bool(true)), ('f', "alse", Bool(false))]
    ensures var s := [c] + word + rest;
            Cur(s) == c && NextToken(c, Drop(s, 1)) == Primitive(j, rest)
  {
    var s := [c] + word + rest;
    assert s == [c] + (word + rest);
    assert Drop(s, 1) == word + rest;
    ExpectWord(word, rest);
  }

  /** A primitive value is one token. */
  lemma PrimitiveToken(v: Value, rest: string)
    requires Valid(v) && !v.ArrayV? && !v.ObjectV? && Ends(rest)
    ensures var s := Text(v) + rest;
            Cur(s) != '\0' && NextToken(Cur(s), Drop(s, 1)) == Primitive(Denotes(v, Plain), rest)
  {
    match v
    case NullV =>
      assert Text(v) == ['n'] + "ull";
      NameToken('n', "ull", Null, rest);
    case TrueV =>
      assert Text(v) == ['t'] + "rue";
      NameToken('t', "rue", Bool(true), rest);
    case FalseV =>
      assert Text(v) == ['f'] + "alse";
      NameToken('f', "alse", Bool(false), rest);
    case NumberV(n) => NumberIsRead(n, rest);
    case StringV(ks) => StringIsRead(ks, rest);
  }

  lemma StringIsRead(ks: seq<StrChar>, rest: string)
    requires ValidChars(ks)
    ensures var s := StringText(ks) + rest;
            Cur(s) == '"' && NextToken('"', Drop(s, 1)) == Primitive(StringValue(ks, Plain), rest)
  {
    var s := StringText(ks) + rest;
    assert Drop(s, 1) == CharsText(ks) + "\"" + rest;
    ScanChars(ks, rest, "");
    assert "" + PlainBytes(ks) == PlainBytes(ks);
  }

  /** A container is on top, and if it is a dictionary then a key is pending. */
  ghost predicate Ready(st: State) {
    && InStore(st) && st.top.Some? && st.top.value.Ref?
    && (st.cells[st.top.value.r].DictCell? <==> st.key.Some?)
  }

  /** The top container with one more object. */
  function Added(st: State, o: Obj): Cell
    requires Ready(st)
  {
    match st.cells[st.top.value.r]
    case ListCell(items) => ListCell(items + [o])
    case DictCell(entries) => DictCell(entries[st.key.value := o])
  }

  /** The state once an object, with its cells, is in the top container. */
  function Put(st: State, o: Obj, cells: seq<Cell>): State
    requires Ready(st)
  {
    st.(cells := st.cells[st.top.value.r := Added(st, o)] + cells, key := None)
  }

  lemma PutStays(st: State, o: Obj, cells: seq<Cell>)
    requires Ready(st)
    ensures InStore(Put(st, o, cells))
  {
  }

  /** The state just inside a new container. */
  function Entered(st: State, cell: Cell): State
    requires Ready(st)
  {
    State(Put(st, Ref(|st.cells|), [cell]).cells, st.stack + [st.top.value.r], Some(Ref(|st.cells|)), None)
  }

  lemma Enter(st: State, cell: Cell, rest: string)
    requires Ready(st)
    ensures InStore(Entered(st, cell))
    ensures Perform(st, Open(cell, rest)) == Continue(Entered(st, cell))
  {
    var t := st.top.value.r;
    assert (st.cells + [cell])[t := Added(st, Ref(|st.cells|))] == st.cells[t := Added(st, Ref(|st.cells|))] + [cell];
  }

  /** Run at an opening bracket. */
  lemma RunOpen(st: State, c: char, cell: Cell, body: string)
    requires Ready(st) && ((c == '[' && cell == ListCell([])) || (c == '{' && cell == DictCell(map[])))
    ensures InStore(Entered(st, cell))
    ensures Run(st, [c] + body) == Run(Entered(st, cell), body)
  {
    Enter(st, cell, body);
    BehindFirst(c, body);
    RunContinue(st, [c] + body, Open(cell, body), Entered(st, cell));
  }

  lemma BehindFirst(c: char, rest: string)
    ensures Cur([c] + rest) == c && Drop([c] + rest, 1) == rest
  {
  }

  lemma CloseIs(st: State, t: nat, outer: seq<nat>)
    requires InStore(st) && st.top.Some? && st.stack == outer + [t]
    ensures InStore(st.(stack := outer, top := Some(Ref(t))))
    ensures CloseTop(st) == Continue(st.(stack := outer, top := Some(Ref(t))))
  {
    assert st.stack[..|st.stack| - 1] == outer;
    assert st.stack[|st.stack| - 1] == t;
    forall i | 0 <= i < |outer| ensures outer[i] < |st.cells| { assert st.stack[i] == outer[i]; }
  }

  /** Run at a closing bracket: back to the enclosing container. */
  lemma RunClose(st: State, t: nat, outer: seq<nat>, c: char, rest: string)
    requires InStore(st) && st.top.Some? && st.stack == outer + [t] && (c == ']' || c == '}')
    ensures InStore(st.(stack := outer, top := Some(Ref(t))))
    ensures Run(st, [c] + rest) == Run(st.(stack := outer, top := Some(Ref(t))), rest)
  {
    CloseIs(st, t, outer);
    BehindFirst(c, rest);
    RunContinue(st, [c] + rest, Close(rest), st.(stack := outer, top := Some(Ref(t))));
  }

  lemma RunContinue(st: State, s: string, t: Token, to: State)
    requires InStore(st) && Cur(s) != '\0' && NextToken(Cur(s), Drop(s, 1)) == t && !t.Bad?
    requires Perform(st, t) == Continue(to)
    ensures InStore(to) && Run(st, s) == Run(to, t.rest)
  {
  }

  lemma AcceptPrimitive(st: State, p: Json)
    requires Ready(st)
    ensures Accept(st, Prim(p), false) == Continue(Put(st, Prim(p), []))
  {
    var cells := st.cells[st.top.value.r := Added(st, Prim(p))];
    assert cells + [] == cells;
  }

  lemma RunPrimitive(st: State, v: Value, rest: string)
    requires Ready(st) && Valid(v) && !v.ArrayV? && !v.ObjectV? && Ends(rest)
    ensures InStore(Put(st, Prim(Denotes(v, Plain)), []))
    ensures Run(st, Text(v) + rest) == Run(Put(st, Prim(Denotes(v, Plain)), []), rest)
  {
    PrimitiveToken(v, rest);
    AcceptPrimitive(st, Denotes(v, Plain));
    RunContinue(st, Text(v) + rest, Primitive(Denotes(v, Plain), rest), Put(st, Prim(Denotes(v, Plain)), []));
  }

  lemma TailEnds(after: string, comma: string, more: string, rest: string)
    requires Blank(after) && comma in {"", ","} && (comma == "" ==> more == "") && Ends(rest)
    ensures Ends(after + comma + more + rest)
  {
    var s := after + comma + more + rest;
    if after == "" && comma == "" { assert s == rest; }
  }

  lemma BlankSeparators(s: string)
    requires Blank(s)
    ensures Separators(s) && Separators(s + ",") && Separators(s + ":")
  {
  }

  lemma Refill(cells: seq<Cell>, t: nat, a: Cell, b: Cell, p: seq<Cell>, q: seq<Cell>)
    requires t < |cells|
    ensures (cells[t := a] + p)[t := b] + q == cells[t := b] + (p + q)
  {
  }

  // ---------- whole values ----------

  /** The state with the top container full and its members' cells in the store. */
  function Filled(st: State, full: Cell, cells: seq<Cell>): State
    requires st.top.Some? && st.top.value.Ref? && st.top.value.r < |st.cells|
  {
    st.(cells := st.cells[st.top.value.r := full] + cells)
  }

  /** The state at the closing bracket, and back outside. */
  lemma Leave(st: State, empty: Cell, full: Cell, cells: seq<Cell>, c: char, rest: string)
    requires Ready(st) && (c == ']' || c == '}')
    ensures var inner := Filled(Entered(st, empty), full, cells);
            var outer := Put(st, Ref(|st.cells|), [full] + cells);
            InStore(inner) && InStore(outer) && Run(inner, [c] + rest) == Run(outer, rest)
  {
    var inner := Filled(Entered(st, empty), full, cells);
    var outer := Put(st, Ref(|st.cells|), [full] + cells);
    PutStays(st, Ref(|st.cells|), [full] + cells);
    assert inner.cells == outer.cells;
    forall i | 0 <= i < |inner.stack| ensures inner.stack[i] < |inner.cells| {
      assert i < |st.stack| ==> inner.stack[i] == st.stack[i];
    }
    RunClose(inner, st.top.value.r, st.stack, c, rest);
  }

  lemma FilledInStore(st: State, full: Cell, cells: seq<Cell>)
    requires InStore(st) && st.top.Some? && st.top.value.Ref?
    ensures InStore(Filled(st, full, cells))
  {
  }

  /** In any container, the loop takes the text of a value to the state with that value added. */
  lemma {:induction false} RunValue(st: State, v: Value, rest: string)
    requires Ready(st) && Valid(v) && Ends(rest)
    ensures var p := Place(|st.cells|, v);
            InStore(Put(st, p.o, p.cells)) && Run(st, Text(v) + rest) == Run(Put(st, p.o, p.cells), rest)
    decreases v, 1
  {
    match v
    case ArrayV(_, _) => RunArray(st, v, rest);
    case ObjectV(_, _) => RunObject(st, v, rest);
    case _ => RunPrimitive(st, v, rest);
  }

  lemma ArrayText(v: Value, rest: string)
    requires v.ArrayV?
    ensures Text(v) + rest == ['['] + (v.blank + (ElementsText(v.elements) + ("]" + rest)))
  {
    Between("[", v.blank, ElementsText(v.elements), "]", rest);
  }

  lemma ObjectText(v: Value, rest: string)
    requires v.ObjectV?
    ensures Text(v) + rest == ['{'] + (v.blank + (MembersText(v.members) + ("}" + rest)))
  {
    Between("{", v.blank, MembersText(v.members), "}", rest);
  }

  lemma Between(open: string, blank: string, inside: string, close: string, rest: string)
    ensures open + blank + inside + close + rest == open + (blank + (inside + (close + rest)))
  {
    Assoc(open + blank + inside, close, rest);
    Assoc(open + blank, inside, close + rest);
    Assoc(open, blank, inside + (close + rest));
  }

  /** An opening bracket and the blanks behind it. */
  lemma OpenBlank(st: State, c: char, cell: Cell, blank: string, body: string)
    requires Ready(st) && ((c == '[' && cell == ListCell([])) || (c == '{' && cell == DictCell(map[]))) && Blank(blank)
    ensures InStore(Entered(st, cell)) && Run(st, [c] + (blank + body)) == Run(Entered(st, cell), body)
  {
    RunOpen(st, c, cell, blank + body);
    BlankSeparators(blank);
    SkipSeparators(Entered(st, cell), blank, body);
  }

  lemma EnteredTop(st: State, cell: Cell)
    requires Ready(st)
    ensures var inner := Entered(st, cell);
            && InStore(inner) && inner.top == Some(Ref(|st.cells|)) && inner.key == None
            && |inner.cells| == |st.cells| + 1 && inner.cells[|st.cells|] == cell
  {
    PutStays(st, Ref(|st.cells|), [cell]);
  }

  lemma PlacedArray(base: nat, v: Value)
    requires Valid(v) && v.ArrayV?
    ensures var p := PlaceElements(base + 1, v.elements);
            Place(base, v) == Placed([ListCell(p.items)] + p.cells, Ref(base))
  {
  }

  lemma PlacedObject(base: nat, v: Value)
    requires Valid(v) && v.ObjectV?
    ensures var p := PlaceMembers(base + 1, map[], v.members);
            Place(base, v) == Placed([DictCell(p.entries)] + p.cells, Ref(base))
  {
  }

  /** All elements of an array just entered. */
  lemma {:induction false} InArray(st: State, es: Elements, rest: string)
    requires Ready(st) && ValidElements(es) && Ends(rest)
    ensures var p := PlaceElements(|st.cells| + 1, es);
            var full := Filled(Entered(st, ListCell([])), ListCell(p.items), p.cells);
            Run(Entered(st, ListCell([])), ElementsText(es) + rest) == Run(full, rest)
    decreases es, 2
  {
    EnteredTop(st, ListCell([]));
    RunElements(Entered(st, ListCell([])), [], es, rest);
    NoItemsBefore(PlaceElements(|st.cells| + 1, es).items);
  }

  lemma NoItemsBefore(items: seq<Obj>)
    ensures [] + items == items
  {
  }

  /** All members of an object just entered. */
  lemma {:induction false} InObject(st: State, ms: Members, rest: string)
    requires Ready(st) && ValidMembers(ms) && Ends(rest)
    ensures var p := PlaceMembers(|st.cells| + 1, map[], ms);
            var full := Filled(Entered(st, DictCell(map[])), DictCell(p.entries), p.cells);
            Run(Entered(st, DictCell(map[])), MembersText(ms) + rest) == Run(full, rest)
    decreases ms, 2
  {
    EnteredTop(st, DictCell(map[]));
    RunMembers(Entered(st, DictCell(map[])), map[], ms, rest);
  }

  lemma {:induction false} RunArray(st: State, v: Value, rest: string)
    requires Ready(st) && Valid(v) && Ends(rest) && v.ArrayV?
    ensures var p := Place(|st.cells|, v);
            InStore(Put(st, p.o, p.cells)) && Run(st, Text(v) + rest) == Run(Put(st, p.o, p.cells), rest)
    decreases v, 0
  {
    var es, close := v.elements, "]" + rest;
    var p, inner := PlaceElements(|st.cells| + 1, es), Entered(st, ListCell([]));
    assert Run(st, Text(v) + rest) == Run(inner, ElementsText(es) + close) by {
      ArrayText(v, rest);
      OpenBlank(st, '[', ListCell([]), v.blank, ElementsText(es) + close);
    }
    assert Run(inner, ElementsText(es) + close) == Run(Filled(inner, ListCell(p.items), p.cells), close) by {
      InArray(st, es, close);
    }
    Leave(st, ListCell([]), ListCell(p.items), p.cells, ']', rest);
    PlacedArray(|st.cells|, v);
  }

  lemma {:induction false} RunObject(st: State, v: Value, rest: string)
    requires Ready(st) && Valid(v) && Ends(rest) && v.ObjectV?
    ensures var p := Place(|st.cells|, v);
            InStore(Put(st, p.o, p.cells)) && Run(st, Text(v) + rest) == Run(Put(st, p.o, p.cells), rest)
    decreases v, 0
  {
    var ms, close := v.members, "}" + rest;
    var p, inner := PlaceMembers(|st.cells| + 1, map[], ms), Entered(st, DictCell(map[]));
    assert Run(st, Text(v) + rest) == Run(inner, MembersText(ms) + close) by {
      ObjectText(v, rest);
      OpenBlank(st, '{', DictCell(map[]), v.blank, MembersText(ms) + close);
    }
    assert Run(inner, MembersText(ms) + close) == Run(Filled(inner, DictCell(p.entries), p.cells), close) by {
      InObject(st, ms, close);
    }
    Leave(st, DictCell(map[]), DictCell(p.entries), p.cells, '}', rest);
    PlacedObject(|st.cells|, v);
  }

  function Comma(more: bool): string { if more then "," else "" }

  /** What follows the value of an element. */
  function AfterElement(es: Elements, rest: string): string
    requires es.Element?
  {
    es.after + Comma(es.rest.Element?) + (ElementsText(es.rest) + rest)
  }

  lemma Assoc(a: string, b: string, c: string)
    ensures (a + b) + c == a + (b + c)
  {
  }

  /** Five pieces and a rest, grouped around the second piece. */
  lemma Regroup(a: string, b: string, c: string, d: string, e: string, rest: string)
    ensures a + b + c + d + e + rest == a + (b + (c + d + (e + rest)))
  {
    Assoc(a + b + c + d, e, rest);
    Assoc(a + b + c, d, e + rest);
    Assoc(a + b, c, d + (e + rest));
    Assoc(a, b, c + (d + (e + rest)));
    Assoc(c, d, e + rest);
  }

  lemma ElementSplit(es: Elements, rest: string)
    requires es.Element? && ValidElements(es) && Ends(rest)
    ensures ElementsText(es) + rest == es.before + (Text(es.v) + AfterElement(es, rest))
    ensures Ends(AfterElement(es, rest))
    ensures Separators(es.before) && Separators(es.after + Comma(es.rest.Element?))
  {
    var comma := Comma(es.rest.Element?);
    TailEnds(es.after, comma, ElementsText(es.rest), rest);
    Assoc(es.after + comma, ElementsText(es.rest), rest);
    Regroup(es.before, Text(es.v), es.after, comma, ElementsText(es.rest), rest);
    BlankSeparators(es.before);
    BlankSeparators(es.after);
    assert es.after + "" == es.after;
  }

  /** One element, its blanks and its comma. */
  lemma {:induction false} RunElement(st: State, items: seq<Obj>, es: Elements, rest: string)
    requires Ready(st) && st.cells[st.top.value.r] == ListCell(items)
    requires es.Element? && ValidElements(es) && Ends(rest)
    ensures var p := Place(|st.cells|, es.v);
            InStore(Put(st, p.o, p.cells))
            && Run(st, ElementsText(es) + rest) == Run(Put(st, p.o, p.cells), ElementsText(es.rest) + rest)
    decreases es, 0
  {
    ElementSplit(es, rest);
    SkipSeparators(st, es.before, Text(es.v) + AfterElement(es, rest));
    RunValue(st, es.v, AfterElement(es, rest));
    var p := Place(|st.cells|, es.v);
    SkipSeparators(Put(st, p.o, p.cells), es.after + Comma(es.rest.Element?), ElementsText(es.rest) + rest);
  }

  /** The list filled by the first element and then by the others. */
  lemma ElementsFill(st: State, items: seq<Obj>, es: Elements)
    requires Ready(st) && st.cells[st.top.value.r] == ListCell(items) && es.Element? && ValidElements(es)
    ensures var p := Place(|st.cells|, es.v);
            var to := Put(st, p.o, p.cells);
            var q := PlaceElements(|to.cells|, es.rest);
            var all := PlaceElements(|st.cells|, es);
            Filled(to, ListCell(items + [p.o] + q.items), q.cells) == Filled(st, ListCell(items + all.items), all.cells)
  {
    var p := Place(|st.cells|, es.v);
    var q := PlaceElements(|st.cells| + |p.cells|, es.rest);
    assert items + [p.o] + q.items == items + ([p.o] + q.items);
    Refill(st.cells, st.top.value.r, ListCell(items + [p.o]), ListCell(items + ([p.o] + q.items)), p.cells, q.cells);
  }

  lemma {:induction false} RunElements(st: State, items: seq<Obj>, es: Elements, rest: string)
    requires Ready(st) && st.cells[st.top.value.r] == ListCell(items)
    requires ValidElements(es) && Ends(rest)
    ensures var p := PlaceElements(|st.cells|, es);
            var to := Filled(st, ListCell(items + p.items), p.cells);
            InStore(to) && Run(st, ElementsText(es) + rest) == Run(to, rest)
    decreases es, 1
  {
    var all := PlaceElements(|st.cells|, es);
    FilledInStore(st, ListCell(items + all.items), all.cells);
    if es == NoElements {
      assert ElementsText(es) + rest == rest;
      assert items + [] == items;
      assert st.cells[st.top.value.r := ListCell(items)] + [] == st.cells;
    } else {
      RunElement(st, items, es, rest);
      var p := Place(|st.cells|, es.v);
      RunElements(Put(st, p.o, p.cells), items + [p.o], es.rest, rest);
      ElementsFill(st, items, es);
    }
  }

  /** What follows the value of a member. */
  function AfterMember(ms: Members, rest: string): string
    requires ms.Member?
  {
    ms.after + Comma(ms.rest.Member?) + (MembersText(ms.rest) + rest)
  }

  lemma MemberSplit(ms: Members, rest: string)
    requires ms.Member? && ValidMembers(ms) && Ends(rest)
    ensures MembersText(ms) + rest
              == ms.before + StringText(ms.key) + ms.colon + ":" + ms.gap + (Text(ms.v) + AfterMember(ms, rest))
    ensures Ends(AfterMember(ms, rest))
    ensures Separators(ms.after + Comma(ms.rest.Member?))
  {
    var comma := Comma(ms.rest.Member?);
    TailEnds(ms.after, comma, MembersText(ms.rest), rest);
    Assoc(ms.after + comma, MembersText(ms.rest), rest);
    Regroup(ms.before + StringText(ms.key) + ms.colon + ":" + ms.gap, Text(ms.v), ms.after, comma,
            MembersText(ms.rest), rest);
    BlankSeparators(ms.after);
    assert ms.after + "" == ms.after;
  }

  /** In a dictionary and not between a key and its value. */
  ghost predicate InDict(st: State, entries: map<Json, Obj>) {
    InStore(st) && st.top.Some? && st.top.value.Ref? && st.key == None
    && st.cells[st.top.value.r] == DictCell(entries)
  }

  /** One member, its blanks and its comma. */
  lemma {:induction false} RunMember(st: State, entries: map<Json, Obj>, ms: Members, rest: string)
    requires InDict(st, entries) && ms.Member? && ValidMembers(ms) && Ends(rest)
    ensures var p := Place(|st.cells|, ms.v);
            var to := Filled(st, DictCell(entries[StringValue(ms.key, Plain) := p.o]), p.cells);
            InStore(to) && Run(st, MembersText(ms) + rest) == Run(to, MembersText(ms.rest) + rest)
    decreases ms, 0
  {
    MemberSplit(ms, rest);
    RunKey(st, entries, ms, Text(ms.v) + AfterMember(ms, rest), MembersText(ms) + rest);
    var keyed := st.(key := Some(StringValue(ms.key, Plain)));
    RunValue(keyed, ms.v, AfterMember(ms, rest));
    var p := Place(|st.cells|, ms.v);
    SkipSeparators(Put(keyed, p.o, p.cells), ms.after + Comma(ms.rest.Member?), MembersText(ms.rest) + rest);
  }

  lemma FillTwice(st: State, a: Cell, b: Cell, p: seq<Cell>, q: seq<Cell>)
    requires InStore(st) && st.top.Some? && st.top.value.Ref?
    ensures Filled(Filled(st, a, p), b, q) == Filled(st, b, p + q)
  {
    Refill(st.cells, st.top.value.r, a, b, p, q);
  }

  lemma FillParts(st: State, after: map<Json, Obj>, p: seq<Cell>, q: PlacedEntries, all: PlacedEntries)
    requires InStore(st) && st.top.Some? && st.top.value.Ref? && all == PlacedEntries(p + q.cells, q.entries)
    ensures Filled(Filled(st, DictCell(after), p), DictCell(q.entries), q.cells)
            == Filled(st, DictCell(all.entries), all.cells)
  {
    FillTwice(st, DictCell(after), DictCell(q.entries), p, q.cells);
  }

  lemma FillNothing(st: State, entries: map<Json, Obj>)
    requires InDict(st, entries)
    ensures Filled(st, DictCell(entries), []) == st
  {
    assert st.cells[st.top.value.r := DictCell(entries)] + [] == st.cells;
  }

  lemma FilledInDict(st: State, before: map<Json, Obj>, entries: map<Json, Obj>, cells: seq<Cell>)
    requires InDict(st, before)
    ensures InDict(Filled(st, DictCell(entries), cells), entries)
    ensures |Filled(st, DictCell(entries), cells).cells| == |st.cells| + |cells|
  {
  }

  /** The dictionary `mid` after its first member; filling it with the others fills it altogether. */
  lemma MembersMid(st: State, entries: map<Json, Obj>, ms: Members, p: Placed, after: map<Json, Obj>, mid: State,
                   q: PlacedEntries)
    requires InDict(st, entries) && ms.Member? && ValidMembers(ms) && p == Place(|st.cells|, ms.v)
    requires after == entries[StringValue(ms.key, Plain) := p.o] && mid == Filled(st, DictCell(after), p.cells)
    requires |mid.cells| == |st.cells| + |p.cells| && q == PlaceMembers(|mid.cells|, after, ms.rest)
    ensures InDict(mid, after)
    ensures var all := PlaceMembers(|st.cells|, entries, ms);
            Filled(mid, DictCell(q.entries), q.cells) == Filled(st, DictCell(all.entries), all.cells)
  {
    FilledInDict(st, entries, after, p.cells);
    PlaceMembersIs(|st.cells|, entries, ms, p, after, q);
    FillParts(st, after, p.cells, q, PlaceMembers(|st.cells|, entries, ms));
  }

  lemma FirstMember(st: State, entries: map<Json, Obj>, ms: Members) returns (mid: State, after: map<Json, Obj>)
    requires InDict(st, entries) && ms.Member? && ValidMembers(ms)
    ensures var p := Place(|st.cells|, ms.v);
            after == entries[StringValue(ms.key, Plain) := p.o] && mid == Filled(st, DictCell(after), p.cells)
    ensures InDict(mid, after)
    ensures var q, all := PlaceMembers(|mid.cells|, after, ms.rest), PlaceMembers(|st.cells|, entries, ms);
            Filled(mid, DictCell(q.entries), q.cells) == Filled(st, DictCell(all.entries), all.cells)
  {
    var p := Place(|st.cells|, ms.v);
    after := entries[StringValue(ms.key, Plain) := p.o];
    mid := Filled(st, DictCell(after), p.cells);
    assert |mid.cells| == |st.cells| + |p.cells|;
    var q := PlaceMembers(|mid.cells|, after, ms.rest);
    MembersMid(st, entries, ms, p, after, mid, q);
  }

  lemma {:induction false} RunMembers(st: State, entries: map<Json, Obj>, ms: Members, rest: string)
    requires InDict(st, entries) && ValidMembers(ms) && Ends(rest)
    ensures var p := PlaceMembers(|st.cells|, entries, ms);
            var to := Filled(st, DictCell(p.entries), p.cells);
            InStore(to) && Run(st, MembersText(ms) + rest) == Run(to, rest)
    decreases ms, 1
  {
    if ms == NoMembers {
      FillNothing(st, entries);
      assert MembersText(ms) + rest == rest;
    } else {
      var mid, after := FirstMember(st, entries, ms);
      RunMember(st, entries, ms, rest);
      RunMembers(mid, after, ms.rest, rest);
    }
  }

  /** A key and its colon leave the key pending. */
  lemma RunKey(st: State, entries: map<Json, Obj>, ms: Members, tail: string, s: string)
    requires InStore(st) && st.top.Some? && st.top.value.Ref? && st.key == None
    requires st.cells[st.top.value.r] == DictCell(entries)
    requires ValidMembers(ms) && ms.Member?
    requires s == ms.before + StringText(ms.key) + ms.colon + ":" + ms.gap + tail
    ensures Run(st, s) == Run(st.(key := Some(StringValue(ms.key, Plain))), tail)
  {
    var after := (ms.colon + ":") + (ms.gap + tail);
    assert s == ms.before + (StringText(ms.key) + after);
    BlankSeparators(ms.before);
    BlankSeparators(ms.colon);
    BlankSeparators(ms.gap);
    SkipSeparators(st, ms.before, StringText(ms.key) + after);
    StringIsRead(ms.key, after);
    var keyed := st.(key := Some(StringValue(ms.key, Plain)));
    RunContinue(st, StringText(ms.key) + after, Primitive(StringValue(ms.key, Plain), after), keyed);
    SkipSeparators(keyed, ms.colon + ":", ms.gap + tail);
    SkipSeparators(keyed, ms.gap, tail);
  }

  // ---------- whole documents ----------

  lemma {:induction false} SkipsBlank(s: string)
    requires Blank(s)
    ensures SkipSpace(s) == ""
    decreases |s|
  {
    if s != "" { SkipsBlank(s[1..]); }
  }

  lemma FinishBlank(st: State, o: Obj, after: string)
    requires Blank(after) && st.top == Some(o) && st.stack == []
    ensures Finish(st, after) == Loaded(st.cells, o)
  {
    SkipsBlank(after);
  }

  /** A primitive document. */
  lemma LoadPrimitive(v: Value, after: string)
    requires Valid(v) && !v.ArrayV? && !v.ObjectV? && Blank(after)
    ensures Run(INITIAL, Text(v) + after) == Loaded([], Prim(Denotes(v, Plain)))
  {
    PrimitiveToken(v, after);
    FinishBlank(INITIAL.(top := Some(Prim(Denotes(v, Plain)))), Prim(Denotes(v, Plain)), after);
  }

  lemma OpenRoot(c: char, cell: Cell, body: string)
    requires (c == '[' && cell == ListCell([])) || (c == '{' && cell == DictCell(map[]))
    ensures Run(INITIAL, [c] + body) == Run(State([cell], [], Some(Ref(0)), None), body)
  {
    assert Drop([c] + body, 1) == body;
    assert [] + [cell] == [cell];
    RunContinue(INITIAL, [c] + body, Open(cell, body), State([cell], [], Some(Ref(0)), None));
  }

  lemma CloseRoot(cells: seq<Cell>, c: char, after: string)
    requires |cells| > 0 && (c == ']' || c == '}') && Blank(after)
    ensures Run(State(cells, [], Some(Ref(0)), None), [c] + after) == Loaded(cells, Ref(0))
  {
    assert Drop([c] + after, 1) == after;
    FinishBlank(State(cells, [], Some(Ref(0)), None), Ref(0), after);
  }

  /** The state inside the outermost container. */
  function Root(cell: Cell): State { State([cell], [], Some(Ref(0)), None) }

  lemma OpenRootBlank(c: char, cell: Cell, blank: string, body: string)
    requires ((c == '[' && cell == ListCell([])) || (c == '{' && cell == DictCell(map[]))) && Blank(blank)
    ensures Run(INITIAL, [c] + (blank + body)) == Run(Root(cell), body)
  {
    OpenRoot(c, cell, blank + body);
    BlankSeparators(blank);
    SkipSeparators(Root(cell), blank, body);
  }

  lemma RootFilled(empty: Cell, full: Cell, cells: seq<Cell>)
    ensures Filled(Root(empty), full, cells) == State([full] + cells, [], Some(Ref(0)), None)
  {
    assert [empty][0 := full] == [full];
  }

  lemma LoadArray(v: Value, after: string)
    requires Valid(v) && v.ArrayV? && Blank(after)
    ensures Run(INITIAL, Text(v) + after) == Loaded(Place(0, v).cells, Ref(0))
  {
    var es, close := v.elements, "]" + after;
    var p, root := PlaceElements(1, es), Root(ListCell([]));
    assert Run(INITIAL, Text(v) + after) == Run(root, ElementsText(es) + close) by {
      ArrayText(v, after);
      OpenRootBlank('[', ListCell([]), v.blank, ElementsText(es) + close);
    }
    assert Run(root, ElementsText(es) + close) == Run(Filled(root, ListCell(p.items), p.cells), close) by {
      RunElements(root, [], es, close);
      NoItemsBefore(p.items);
    }
    RootFilled(ListCell([]), ListCell(p.items), p.cells);
    CloseRoot([ListCell(p.items)] + p.cells, ']', after);
    PlacedArray(0, v);
  }

  lemma LoadObject(v: Value, after: string)
    requires Valid(v) && v.ObjectV? && Blank(after)
    ensures Run(INITIAL, Text(v) + after) == Loaded(Place(0, v).cells, Ref(0))
  {
    var ms, close := v.members, "}" + after;
    var p, root := PlaceMembers(1, map[], ms), Root(DictCell(map[]));
    assert Run(INITIAL, Text(v) + after) == Run(root, MembersText(ms) + close) by {
      ObjectText(v, after);
      OpenRootBlank('{', DictCell(map[]), v.blank, MembersText(ms) + close);
    }
    assert Run(root, MembersText(ms) + close) == Run(Filled(root, DictCell(p.entries), p.cells), close) by {
      RunMembers(root, map[], ms, close);
    }
    RootFilled(DictCell(map[]), DictCell(p.entries), p.cells);
    CloseRoot([DictCell(p.entries)] + p.cells, '}', after);
    PlacedObject(0, v);
  }

  /** The loader accepts every JSON text, of any nesting, and its result is the value of the
      text, with each escape of a string read by itself. */
  lemma LoadsEveryDocument(d: Document)
    requires ValidDocument(d)
    ensures var r := Load(DocumentText(d));
            r.Loaded? && Represents(r.cells, r.root, Denotes(d.v, Plain))
  {
    BlankSeparators(d.before);
    assert DocumentText(d) == d.before + (Text(d.v) + d.after);
    SkipSeparators(INITIAL, d.before, Text(d.v) + d.after);
    var cells := Place(0, d.v).cells;
    assert cells[0..|cells|] == cells;
    PlacedRepresents(cells, 0, d.v);
    match d.v
    case ArrayV(_, _) => LoadArray(d.v, d.after);
    case ObjectV(_, _) => LoadObject(d.v, d.after);
    case _ => LoadPrimitive(d.v, d.after);
  }

  /** For texts without surrogate pairs the result is the value that RFC 4627 gives the text. */
  lemma LoadsPairlessDocument(d: Document)
    requires ValidDocument(d) && Pairless(d.v)
    ensures var r := Load(DocumentText(d));
            r.Loaded? && Represents(r.cells, r.root, Denotes(d.v, Joined))
  {
    LoadsEveryDocument(d);
    ReadingsAgree(d.v);
  }

  /** An object in a store represents at most one value. */
  lemma {:induction false} RepresentsOne(cells: seq<Cell>, o: Obj, i: Json, j: Json)
    requires Represents(cells, o, i) && Represents(cells, o, j)
    ensures i == j
    decreases i
  {
    match i
    case List(items) =>
      forall k | 0 <= k < |items| ensures items[k] == j.items[k] {
        RepresentsOne(cells, cells[o.r].items[k], items[k], j.items[k]);
      }
    case Dict(entries) =>
      forall k | k in entries ensures entries[k] == j.entries[k] {
        RepresentsOne(cells, cells[o.r].entries[k], entries[k], j.entries[k]);
      }
    case _ =>
  }
}
