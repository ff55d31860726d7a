/** The iterative JSON loader as a machine: containers are cells of a store, updated in place
    through references; the state is the stack of enclosing containers, the current one and
    one pending key. Each function is one piece of the loader's loop. */
module JsonMachine {
  import opened JsonText

  // ---------- the object store ----------

  /** A MicroPython object: a primitive, or a reference to a mutable container. */
  datatype Obj = Prim(p: Json) | Ref(r: nat)

  datatype Cell = ListCell(items: seq<Obj>) | DictCell(entries: map<Json, Obj>)

  datatype State = State(cells: seq<Cell>, stack: seq<nat>, top: Option<Obj>, key: Option<Json>)

  const INITIAL := State([], [], None, None)

  // ---------- the stream ----------

  /** The current character of what is left of the stream; NUL at its end. */
  function Cur(s: string): char {
    if s == "" then '\0' else s[0]
  }

  function Drop(s: string, n: nat): (t: string)
    ensures |t| == if n <= |s| then |s| - n else 0
  {
    if n <= |s| then s[n..] else ""
  }

  // ---------- words ----------

  function Expect(s: string, word: string): (r: Option<string>)
    ensures r.Some? ==> |r.value| <= |s|
    decreases word
  {
    if word == "" then Some(s)
    else if Cur(s) == word[0] then Expect(Drop(s, 1), word[1..])
    else None
  }

  // ---------- strings ----------

  function BitOr(a: nat, b: nat): nat {
    if a == 0 then b
    else if b == 0 then a
    else 2 * BitOr(a / 2, b / 2) + if a % 2 == 1 || b % 2 == 1 then 1 else 0
  }

  lemma BitOrBound(a: nat, b: nat, k: nat)
    requires a < Pow2(k) && b < Pow2(k)
    ensures BitOr(a, b) < Pow2(k)
    decreases k
  {
    if a != 0 && b != 0 { BitOrBound(a / 2, b / 2, k - 1); }
  }

  function Pow2(k: nat): nat { if k == 0 then 1 else 2 * Pow2(k - 1) }

  /** One hex digit as the loader reads it, in byte arithmetic. */
  function Nibble(c: char): (n: nat)
    ensures n < 256
  {
    FromLower(BitOr(c as int % 256, 0x20))
  }

  function FromLower(code: nat): (n: nat)
    ensures n < 256
  {
    var d := (code + 256 - '0' as int) % 256;
    if d > 9 then (d + 256 - ('a' as int - ('9' as int + 1))) % 256 else d
  }

  function HexNumber(c1: char, c2: char, c3: char, c4: char): nat {
    BitOr(16 * BitOr(16 * BitOr(16 * Nibble(c1), Nibble(c2)), Nibble(c3)), Nibble(c4))
  }

  lemma HexNumberBound(c1: char, c2: char, c3: char, c4: char)
    ensures HexNumber(c1, c2, c3, c4) < 0x110000
  {
    assert Pow2(8) == 256 && Pow2(12) == 4096 by { assert Pow2(4) == 16; }
    assert Pow2(16) == 65536 && Pow2(20) == 0x100000;
    BitOrBound(16 * Nibble(c1), Nibble(c2), 12);
    var n2 := BitOr(16 * Nibble(c1), Nibble(c2));
    BitOrBound(16 * n2, Nibble(c3), 16);
    var n3 := BitOr(16 * n2, Nibble(c3));
    BitOrBound(16 * n3, Nibble(c4), 20);
  }

  /** The string loop, from after the opening quote: the bytes collected and what follows the
      closing quote, or None at the end of the stream. */
  function ScanString(s: string, acc: string): (r: Option<(string, string)>)
    ensures r.Some? ==> |r.value.1| < |s|
    decreases |s|
  {
    var c := Cur(s);
    if c == '\0' then None
    else if c == '"' then Some((acc, Drop(s, 1)))
    else if c != '\\' then ScanString(Drop(s, 1), acc + [c])
    else if Cur(Drop(s, 1)) != 'u' then ScanString(Drop(s, 2), acc + [Unescaped(Cur(Drop(s, 1)))])
    else
      var t := Drop(s, 2);
      HexNumberBound(Cur(t), Cur(Drop(t, 1)), Cur(Drop(t, 2)), Cur(Drop(t, 3)));
      ScanString(Drop(t, 4), acc + Utf8(HexNumber(Cur(t), Cur(Drop(t, 1)), Cur(Drop(t, 2)), Cur(Drop(t, 3)))))
  }

  // ---------- numbers ----------

  predicate IsFloatMark(c: char) { c == '.' || c == 'E' || c == 'e' }

  predicate IsNumberChar(c: char) { IsFloatMark(c) || c == '+' || c == '-' || IsDigit(c) }

  datatype Scanned = Scanned(text: string, isFloat: bool, rest: string)

  function ScanNumber(s: string, acc: string, isFloat: bool): (r: Scanned)
    ensures |r.rest| <= |s|
    decreases |s|
  {
    if IsNumberChar(Cur(s)) then ScanNumber(Drop(s, 1), acc + [Cur(s)], isFloat || IsFloatMark(Cur(s)))
    else Scanned(acc, isFloat, s)
  }

  /** mp_parse_num_integer in base ten, on the characters that the number loop lets through. */
  function ParseInteger(s: string): Option<int> {
    var t := if s != "" && (s[0] == '-' || s[0] == '+') then s[1..] else s;
    var n := ParseDigits(t, 0);
    if t == "" || n == None then None
    else Some(if s[0] == '-' then -n.value else n.value)
  }

  function ParseDigits(s: string, acc: nat): Option<int>
    decreases |s|
  {
    if s == "" then Some(acc)
    else if IsDigit(s[0]) then ParseDigits(s[1..], acc * 10 + (s[0] as int - '0' as int))
    else None
  }

  // ---------- one token ----------

  predicate IsSeparator(c: char) { c == ',' || c == ':' || c == ' ' || c == '\t' || c == '\n' || c == '\r' }

  predicate IsNumberStart(c: char) { c == '-' || IsDigit(c) }

  datatype Token =
    | Skip(rest: string)
    | Primitive(p: Json, rest: string)
    | Open(cell: Cell, rest: string)
    | Close(rest: string)
    | Bad

  function Word(s: string, word: string, p: Json): Token {
    var r := Expect(s, word);
    if r.Some? then Primitive(p, r.value) else Bad
  }

  function NumberToken(c: char, s: string): Token {
    var n := ScanNumber(s, [c], false);
    if n.isFloat then Primitive(Float(n.text), n.rest)
    else
      var i := ParseInteger(n.text);
      if i.Some? then Primitive(Int(i.value), n.rest) else Bad
  }

  function StringToken(s: string): Token {
    var r := ScanString(s, "");
    if r.Some? then Primitive(Str(r.value.0), r.value.1) else Bad
  }

  /** The switch on the character `c`, with `s` left of the stream. */
  function NextToken(c: char, s: string): (t: Token)
    ensures !t.Bad? ==> |t.rest| <= |s|
  {
    if IsSeparator(c) then Skip(s)
    else if c == 'n' then Word(s, "ull", Null)
    else if c == 'f' then Word(s, "alse", Bool(false))
    else if c == 't' then Word(s, "rue", Bool(true))
    else if c == '"' then StringToken(s)
    else if IsNumberStart(c) then NumberToken(c, s)
    else if c == '[' then Open(ListCell([]), s)
    else if c == '{' then Open(DictCell(map[]), s)
    else if c == '}' || c == ']' then Close(s)
    else Bad
  }

  // ---------- one step ----------

  datatype Outcome = Continue(st: State) | Success(st: State) | Fail

  /** References on the stack and at the top point into the store. */
  ghost predicate InStore(st: State) {
    && (forall i | 0 <= i < |st.stack| :: st.stack[i] < |st.cells|)
    && (st.top.Some? && st.top.value.Ref? ==> st.top.value.r < |st.cells|)
  }

  /** Append `next` to the container at `t`, as an item, a pending key or the value of one. */
  function Attach(st: State, t: nat, next: Obj, enter: bool): Outcome
    requires t < |st.cells|
  {
    match st.cells[t]
    case ListCell(items) => Continue(st.(cells := st.cells[t := ListCell(items + [next])]))
    case DictCell(entries) =>
      if st.key.Some? then
        Continue(st.(cells := st.cells[t := DictCell(entries[st.key.value := next])], key := None))
      else if enter || next.Ref? then Fail
      else Continue(st.(key := Some(next.p)))
  }

  /** What follows the switch: the first object becomes the top, others go into the top container. */
  function Accept(st: State, next: Obj, enter: bool): Outcome
    requires InStore(st)
  {
    match st.top
    case None => if enter then Continue(st.(top := Some(next))) else Success(st.(top := Some(next)))
    case Some(Prim(_)) => Fail
    case Some(Ref(t)) =>
      var r := Attach(st, t, next, enter);
      if enter && r.Continue? then Continue(r.st.(stack := r.st.stack + [t], top := Some(next))) else r
  }

  function CloseTop(st: State): Outcome {
    if st.top == None then Fail
    else if st.stack == [] then Success(st)
    else
      var n := |st.stack| - 1;
      Continue(st.(stack := st.stack[..n], top := Some(Ref(st.stack[n]))))
  }

  function Perform(st: State, t: Token): (r: Outcome)
    requires InStore(st) && !t.Bad?
    ensures !r.Fail? ==> InStore(r.st)
  {
    match t
    case Skip(_) => Continue(st)
    case Primitive(p, _) => Accept(st, Prim(p), false)
    case Open(cell, _) => Accept(st.(cells := st.cells + [cell]), Ref(|st.cells|), true)
    case Close(_) => CloseTop(st)
  }

  // ---------- the whole loop ----------

  datatype Result = Loaded(cells: seq<Cell>, root: Obj) | SyntaxError

  predicate IsSpace(c: char) { '\t' <= c <= '\r' || c == ' ' }

  function SkipSpace(s: string): string {
    if IsSpace(Cur(s)) then SkipSpace(Drop(s, 1)) else s
  }

  /** At the label `success`. */
  function Finish(st: State, s: string): Result {
    if Cur(SkipSpace(s)) != '\0' || st.top == None || st.stack != [] then SyntaxError
    else Loaded(st.cells, st.top.value)
  }

  function Run(st: State, s: string): Result
    requires InStore(st)
    decreases |s|
  {
    if Cur(s) == '\0' then Finish(st, s)
    else
      var t := NextToken(Cur(s), Drop(s, 1));
      if t.Bad? then SyntaxError
      else
        match Perform(st, t)
        case Continue(st') => Run(st', t.rest)
        case Success(st') => Finish(st', t.rest)
        case Fail => SyntaxError
  }

  function Load(text: string): Result {
    Run(INITIAL, text)
  }
}
