/** Which JSON texts the loader reads as RFC 4627 does, and which it does not. */
module JsonExact {
  import opened JsonText
  import opened JsonMachine
  import opened JsonCorrect

  // ---------- texts on which the two readings agree ----------

  /** Some member has the key `k`. */
  predicate HasKey(ms: Members, k: Json, r: Reading)
    requires ValidMembers(ms)
  {
    ms.Member? && (StringValue(ms.key, r) == k || HasKey(ms.rest, k, r))
  }

  /** No object has two equal keys, in one of the readings. */
  predicate Distinct(v: Value, r: Reading)
    requires Valid(v)
  {
    match v
    case ArrayV(_, es) => DistinctElements(es, r)
    case ObjectV(_, ms) => DistinctMembers(ms, r)
    case _ => true
  }

  predicate DistinctElements(es: Elements, r: Reading)
    requires ValidElements(es)
  {
    es.Element? ==> Distinct(es.v, r) && DistinctElements(es.rest, r)
  }

  predicate DistinctMembers(ms: Members, r: Reading)
    requires ValidMembers(ms)
  {
    ms.Member? ==> !HasKey(ms.rest, StringValue(ms.key, r), r) && Distinct(ms.v, r) && DistinctMembers(ms.rest, r)
  }

  lemma {:induction false} MembersKeys(ms: Members, before: map<Json, Json>, r: Reading, k: Json)
    requires ValidMembers(ms)
    ensures k in DenotesMembers(ms, before, r) <==> k in before || HasKey(ms, k, r)
    decreases ms
  {
    if ms.Member? {
      MembersKeys(ms.rest, before[StringValue(ms.key, r) := Denotes(ms.v, r)], r, k);
    }
  }

  lemma {:induction false} EntryStays(ms: Members, before: map<Json, Json>, r: Reading, k: Json)
    requires ValidMembers(ms) && k in before && !HasKey(ms, k, r)
    ensures var m := DenotesMembers(ms, before, r); k in m && m[k] == before[k]
    decreases ms
  {
    if ms.Member? {
      EntryStays(ms.rest, before[StringValue(ms.key, r) := Denotes(ms.v, r)], r, k);
    }
  }

  /** A member whose key is spelled `ks`. */
  predicate Occurs(ms: Members, ks: seq<StrChar>) {
    ms.Member? && (ms.key == ks || Occurs(ms.rest, ks))
  }

  lemma {:induction false} OccursHasKey(ms: Members, ks: seq<StrChar>, r: Reading)
    requires ValidMembers(ms) && Occurs(ms, ks)
    ensures ValidChars(ks) && HasKey(ms, StringValue(ks, r), r)
  {
    if ms.key != ks { OccursHasKey(ms.rest, ks, r); }
  }

  lemma {:induction false} Spelling(ms: Members, k: Json, r: Reading) returns (ks: seq<StrChar>)
    requires ValidMembers(ms) && HasKey(ms, k, r)
    ensures Occurs(ms, ks) && ValidChars(ks) && StringValue(ks, r) == k
  {
    if StringValue(ms.key, r) == k { ks := ms.key; } else { ks := Spelling(ms.rest, k, r); }
  }

  /** Where keys are distinct, equal keys are spelled alike. */
  lemma {:induction false} SpelledOnce(ms: Members, r: Reading, a: seq<StrChar>, b: seq<StrChar>)
    requires ValidMembers(ms) && DistinctMembers(ms, r) && Occurs(ms, a) && Occurs(ms, b)
    requires ValidChars(a) && ValidChars(b) && StringValue(a, r) == StringValue(b, r)
    ensures a == b
  {
    if ms.key != a && ms.key != b {
      SpelledOnce(ms.rest, r, a, b);
    } else if ms.key != a {
      OccursHasKey(ms.rest, a, r);
    } else if ms.key != b {
      OccursHasKey(ms.rest, b, r);
    }
  }

  predicate PairedKey(ms: Members, ks: seq<StrChar>) {
    Occurs(ms, ks) && ValidChars(ks) && HasPair(ks)
  }

  /** A paired key is longer in the plain reading: the rank orders by the longest plain or by the
      shortest joined reading. */
  function Rank(ks: seq<StrChar>, r: Reading): int
    requires ValidChars(ks)
  {
    if r == Plain then |PlainBytes(ks)| else -|StringBytes(ks)|
  }

  lemma {:induction false} PairLonger(ks: seq<StrChar>)
    requires ValidChars(ks) && HasPair(ks)
    ensures |PlainBytes(ks)| > |StringBytes(ks)|
    decreases |ks|
  {
    if |ks| >= 2 && IsPair(ks[0], ks[1]) {
      PairLengths(ks);
      PlainNotShorter(ks[2..]);
    } else {
      var i :| 0 <= i < |ks| - 1 && IsPair(ks[i], ks[i + 1]);
      assert i > 0;
      var t := ks[1..];
      assert IsPair(t[i - 1], t[i]);
      PairLonger(t);
    }
  }

  /** The paired key of the highest rank. */
  lemma {:induction false} TopPaired(ms: Members, r: Reading, one: seq<StrChar>) returns (top: seq<StrChar>)
    requires ValidMembers(ms) && PairedKey(ms, one)
    ensures PairedKey(ms, top) && forall ks | PairedKey(ms, ks) :: Rank(ks, r) <= Rank(top, r)
  {
    top := ms.key;
    if other :| PairedKey(ms.rest, other) {
      top := TopPaired(ms.rest, r, other);
      if HasPair(ms.key) && Rank(ms.key, r) > Rank(top, r) { top := ms.key; }
      forall ks | PairedKey(ms, ks) ensures Rank(ks, r) <= Rank(top, r) {
        assert ks == ms.key || PairedKey(ms.rest, ks);
      }
    } else {
      assert forall ks | PairedKey(ms, ks) :: ks == top || PairedKey(ms.rest, ks);
      assert PairedKey(ms, one);
    }
  }

  function Other(r: Reading): Reading { if r == Plain then Joined else Plain }

  /** When both readings give the same keys, no key has a pair. */
  lemma KeysPairless(ms: Members, r: Reading, ks: seq<StrChar>)
    requires ValidMembers(ms) && DistinctMembers(ms, r) && Occurs(ms, ks) && ValidChars(ks)
    requires forall k :: HasKey(ms, k, Plain) <==> HasKey(ms, k, Joined)
    ensures !HasPair(ks)
  {
    if HasPair(ks) {
      var top := TopPaired(ms, r, ks);
      OccursHasKey(ms, top, r);
      var twin := Spelling(ms, StringValue(top, r), Other(r));
      assert Rank(twin, Other(r)) == -Rank(top, r);
      if HasPair(twin) { PairLonger(twin); }
      assert !PairedKey(ms, twin);
      PlainIffNoPair(twin);
      SpelledOnce(ms, r, top, twin);
      assert false;
    }
  }

  /** No key has a pair. */
  predicate PlainKeys(ms: Members)
    requires ValidMembers(ms)
  {
    ms.Member? ==> !HasPair(ms.key) && PlainKeys(ms.rest)
  }

  lemma {:induction false} AllKeysPlain(ms: Members)
    requires ValidMembers(ms) && forall ks | Occurs(ms, ks) && ValidChars(ks) :: !HasPair(ks)
    ensures PlainKeys(ms)
  {
    if ms.Member? {
      assert Occurs(ms, ms.key);
      forall ks | Occurs(ms.rest, ks) && ValidChars(ks) ensures !HasPair(ks) {
        assert Occurs(ms, ks);
      }
      AllKeysPlain(ms.rest);
    }
  }

  lemma {:induction false} PlainKeysAgree(ms: Members, k: Json)
    requires ValidMembers(ms) && PlainKeys(ms)
    ensures HasKey(ms, k, Plain) <==> HasKey(ms, k, Joined)
  {
    if ms.Member? {
      PlainIffNoPair(ms.key);
      PlainKeysAgree(ms.rest, k);
    }
  }

  /** Reading every escape by itself gives the value of exactly the texts without surrogate pairs,
      where no object has two equal keys in one of the readings. */
  lemma {:induction false} ReadingsAgreeExactly(v: Value, r: Reading)
    requires Valid(v) && Distinct(v, r)
    ensures Denotes(v, Plain) == Denotes(v, Joined) <==> Pairless(v)
    decreases v, 1
  {
    if Pairless(v) {
      ReadingsAgree(v);
    } else if Denotes(v, Plain) == Denotes(v, Joined) {
      match v
      case StringV(ks) => PlainIffNoPair(ks);
      case ArrayV(_, es) => AgreeingElements(es, r);
      case ObjectV(_, ms) => AgreeingMembers(ms, r);
      case _ =>
    }
  }

  lemma {:induction false} AgreeingElements(es: Elements, r: Reading)
    requires ValidElements(es) && DistinctElements(es, r) && DenotesElements(es, Plain) == DenotesElements(es, Joined)
    ensures PairlessElements(es)
    decreases es, 0
  {
    if es.Element? {
      assert DenotesElements(es, Plain)[0] == DenotesElements(es, Joined)[0];
      assert DenotesElements(es, Plain)[1..] == DenotesElements(es, Joined)[1..];
      ReadingsAgreeExactly(es.v, r);
      AgreeingElements(es.rest, r);
    }
  }

  lemma {:induction false} AgreeingMembers(ms: Members, r: Reading)
    requires ValidMembers(ms) && DistinctMembers(ms, r)
    requires DenotesMembers(ms, map[], Plain) == DenotesMembers(ms, map[], Joined)
    ensures PairlessMembers(ms)
    decreases ms, 1
  {
    forall k ensures HasKey(ms, k, Plain) <==> HasKey(ms, k, Joined) {
      MembersKeys(ms, map[], Plain, k);
      MembersKeys(ms, map[], Joined, k);
    }
    forall ks | Occurs(ms, ks) && ValidChars(ks) ensures !HasPair(ks) {
      KeysPairless(ms, r, ks);
    }
    AllKeysPlain(ms);
    AgreeingValues(ms, map[], map[], r);
  }

  lemma {:induction false} AgreeingValues(ms: Members, b: map<Json, Json>, c: map<Json, Json>, r: Reading)
    requires ValidMembers(ms) && DistinctMembers(ms, r) && PlainKeys(ms)
    requires DenotesMembers(ms, b, Plain) == DenotesMembers(ms, c, Joined)
    ensures PairlessMembers(ms)
    decreases ms, 0
  {
    if ms.Member? {
      PlainIffNoPair(ms.key);
      var k := StringValue(ms.key, Plain);
      PlainKeysAgree(ms.rest, k);
      var b', c' := b[k := Denotes(ms.v, Plain)], c[k := Denotes(ms.v, Joined)];
      EntryStays(ms.rest, b', Plain, k);
      EntryStays(ms.rest, c', Joined, k);
      ReadingsAgreeExactly(ms.v, r);
      AgreeingValues(ms.rest, b', c', r);
    }
  }

  // ---------- whole documents ----------

  /** A text in whose objects no key comes twice, in either reading of the keys, is loaded as
      RFC 4627 reads it exactly when it has no surrogate pair. */
  lemma LoadsExactly(d: Document, keys: Reading)
    requires ValidDocument(d) && Distinct(d.v, keys)
    ensures var r := Load(DocumentText(d));
            r.Loaded? && (Represents(r.cells, r.root, Denotes(d.v, Joined)) <==> Pairless(d.v))
  {
    LoadsEveryDocument(d);
    ReadingsAgreeExactly(d.v, keys);
    var r := Load(DocumentText(d));
    if Represents(r.cells, r.root, Denotes(d.v, Joined)) {
      RepresentsOne(r.cells, r.root, Denotes(d.v, Plain), Denotes(d.v, Joined));
    }
  }

  // ---------- what the conditions are for ----------

  /** A list of one value, without blanks. */
  function Single(v: Value): Value { ArrayV("", Element("", v, "", NoElements)) }

  lemma LastElementText(v: Value)
    ensures ElementsText(Element("", v, "", NoElements)) == Text(v)
  {
    Bare(Text(v));
  }

  lemma Bare(t: string)
    ensures "" + t + "" + "" + "" == t && "" + ("[" + "" + t + "]") + "" == "[" + t + "]"
  {
  }

  lemma SingleText(v: Value)
    ensures DocumentText(Document("", Single(v), "")) == "[" + Text(v) + "]"
  {
    LastElementText(v);
    Bare(Text(v));
  }

  lemma SingleIs(v: Value, r: Reading)
    requires Valid(v)
    ensures Valid(Single(v)) && (Pairless(Single(v)) <==> Pairless(v)) && (Distinct(Single(v), r) <==> Distinct(v, r))
  {
    var es := Element("", v, "", NoElements);
    assert ValidElements(es);
    assert PairlessElements(es) <==> Pairless(v);
    assert DistinctElements(es, r) <==> Distinct(v, r);
  }

  lemma SingleDenotes(v: Value, r: Reading)
    requires Valid(v)
    ensures Valid(Single(v)) && Denotes(Single(v), r) == List([Denotes(v, r)])
  {
    var es := Element("", v, "", NoElements);
    assert DenotesElements(NoElements, r) == [];
    assert DenotesElements(es, r) == [Denotes(v, r)];
  }

  /** A list of one string with a surrogate pair is not loaded as the standard reads it. */
  lemma ListMisread(ks: seq<StrChar>)
    requires ValidChars(ks) && HasPair(ks)
    ensures var r := Load("[" + StringText(ks) + "]");
            r.Loaded? && !Represents(r.cells, r.root, List([StringValue(ks, Joined)]))
  {
    var v := StringV(ks);
    SingleText(v);
    SingleDenotes(v, Joined);
    SingleIs(v, Plain);
    LoadsExactly(Document("", Single(v), ""), Plain);
  }

  /** A surrogate pair. */
  function Face(): seq<StrChar> { [Unicode('d', '8', '3', 'd'), Unicode('d', 'e', '0', '0')] }

  lemma FaceIs()
    ensures ValidChars(Face()) && HasPair(Face()) && StringText(Face()) == "\"\\ud83d\\ude00\""
  {
    assert IsPair(Face()[0], Face()[1]);
  }

  /** The shortest input. */
  lemma FaceMisread()
    ensures ValidChars(Face())
    ensures var r := Load("[\"\\ud83d\\ude00\"]");
            r.Loaded? && !Represents(r.cells, r.root, List([StringValue(Face(), Joined)]))
  {
    var ks := Face();
    assert ValidChars(ks) && HasPair(ks) && "[" + StringText(ks) + "]" == "[\"\\ud83d\\ude00\"]" by { FaceIs(); }
    ListMisread(ks);
  }

  /** Two members of the same key, without blanks. */
  function Twice(key: seq<StrChar>, first: Value, second: Value): Value {
    ObjectV("", Member("", key, "", "", first, "", Member("", key, "", "", second, "", NoMembers)))
  }

  lemma Spaceless(k: string, t: string)
    ensures "" + k + "" + ":" + "" + t + "" == k + ":" + t
  {
    assert "" + k + "" == k && k + ":" + "" == k + ":";
  }

  lemma MemberText(key: seq<StrChar>, v: Value, rest: Members)
    ensures MembersText(Member("", key, "", "", v, "", rest))
              == StringText(key) + ":" + Text(v) + Comma(rest.Member?) + MembersText(rest)
  {
    Spaceless(StringText(key), Text(v));
  }

  lemma LastText(t: string, s: string)
    ensures t + "" + "" == t && "" + ("{" + "" + (s + t) + "}") + "" == "{" + (s + t) + "}"
  {
  }

  lemma TwiceText(key: seq<StrChar>, first: Value, second: Value)
    ensures DocumentText(Document("", Twice(key, first, second), ""))
              == "{" + (StringText(key) + ":" + Text(first) + "," + (StringText(key) + ":" + Text(second))) + "}"
  {
    var one := Member("", key, "", "", second, "", NoMembers);
    MemberText(key, second, NoMembers);
    MemberText(key, first, one);
    LastText(StringText(key) + ":" + Text(second), StringText(key) + ":" + Text(first) + ",");
  }

  lemma MemberDenotes(key: seq<StrChar>, v: Value, rest: Members, before: map<Json, Json>, r: Reading)
    requires ValidChars(key) && Valid(v) && ValidMembers(rest)
    ensures var ms := Member("", key, "", "", v, "", rest);
            ValidMembers(ms) && DenotesMembers(ms, before, r)
            == DenotesMembers(rest, before[StringValue(key, r) := Denotes(v, r)], r)
  {
  }

  lemma TwiceDenotes(key: seq<StrChar>, first: Value, second: Value, r: Reading)
    requires ValidChars(key) && Valid(first) && Valid(second)
    ensures Valid(Twice(key, first, second))
    ensures Denotes(Twice(key, first, second), r) == Dict(map[StringValue(key, r) := Denotes(second, r)])
  {
    var k := StringValue(key, r);
    var b := map[][k := Denotes(first, r)];
    MemberDenotes(key, second, NoMembers, b, r);
    MemberDenotes(key, first, Member("", key, "", "", second, "", NoMembers), map[], r);
    assert b[k := Denotes(second, r)] == map[k := Denotes(second, r)];
  }

  /** Where a key comes twice, the value that gives way may have surrogate pairs. */
  lemma OverwrittenPair(key: seq<StrChar>, first: Value, second: Value)
    requires ValidChars(key) && !HasPair(key) && Valid(first) && Valid(second) && Pairless(second)
    ensures Valid(Twice(key, first, second))
    ensures var r := Load("{" + (StringText(key) + ":" + Text(first) + "," + (StringText(key) + ":" + Text(second)))
            + "}");
            r.Loaded? && Represents(r.cells, r.root, Denotes(Twice(key, first, second), Joined))
  {
    TwiceText(key, first, second);
    TwiceDenotes(key, first, second, Plain);
    TwiceDenotes(key, first, second, Joined);
    PlainIffNoPair(key);
    ReadingsAgree(second);
    LoadsEveryDocument(Document("", Twice(key, first, second), ""));
  }

  lemma Spelled(s: string, k: string, a: string, b: string)
    requires s == "{\"a\":\"\\ud83d\\ude00\",\"a\":true}" && k == "\"a\"" && a == "\"\\ud83d\\ude00\"" && b == "true"
    ensures s == "{" + (k + ":" + a + "," + (k + ":" + b)) + "}"
  {
    var first, second := "\"a\":\"\\ud83d\\ude00\",", "\"a\":true";
    assert k + ":" + a + "," == first;
    assert k + ":" + b == second;
    assert first + second == "\"a\":\"\\ud83d\\ude00\",\"a\":true";
  }

  lemma FaceTwice(s: string)
    requires s == "{\"a\":\"\\ud83d\\ude00\",\"a\":true}"
    ensures var key := [Raw('a')];
            ValidChars(key) && !HasPair(key)
            && s == "{" + (StringText(key) + ":" + Text(StringV(Face())) + ","
               + (StringText(key) + ":" + Text(TrueV))) + "}"
  {
    FaceIs();
    var k := StringText([Raw('a')]);
    assert k == "\"a\"";
    Spelled(s, k, StringText(Face()), "true");
  }

  /** One input for that. */
  lemma FaceOverwritten(s: string)
    requires s == "{\"a\":\"\\ud83d\\ude00\",\"a\":true}"
    ensures var v := Twice([Raw('a')], StringV(Face()), TrueV);
            var r := Load(s);
            Valid(v) && !Pairless(v) && r.Loaded? && Represents(r.cells, r.root, Denotes(v, Joined))
  {
    FaceTwice(s);
    FaceIs();
    OverwrittenPair([Raw('a')], StringV(Face()), TrueV);
  }
}
