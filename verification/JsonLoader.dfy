/** The loader as the C function runs it: a stream read one character ahead, and mutable
    fields for the store, the stack, the top container and the pending key. */
module JsonLoader {
  import opened JsonText
  import opened JsonMachine
  import opened JsonCorrect
  import opened JsonExact

  datatype Status = Going | Finished | Failed

  class Loader {
    const input: string
    var pos: nat
    var cur: char
    var cells: seq<Cell>
    var stack: seq<nat>
    var top: Option<Obj>
    var key: Option<Json>
    /** What is left of the stream, the current character included. */
    ghost var rest: string

    ghost predicate Valid()
      reads this
    {
      && pos <= |input| && cur == Cur(rest)
      && (if rest == "" then pos == |input| else rest[1..] == input[pos..])
      && InStore(Now())
    }

    ghost function Now(): State
      reads this
    {
      State(cells, stack, top, key)
    }

    constructor (text: string)
      ensures Valid() && input == text && rest == text && Now() == INITIAL
    {
      input := text;
      pos := if text == "" then 0 else 1;
      cur := if text == "" then '\0' else text[0];
      cells, stack, top, key := [], [], None, None;
      rest := text;
    }

    /** json_stream_next */
    method Next() returns (c: char)
      requires Valid()
      modifies `pos, `cur, `rest
      ensures Valid() && rest == Drop(old(rest), 1) && c == cur
    {
      if pos < |input| {
        cur := input[pos];
        pos := pos + 1;
      } else {
        cur := '\0';
      }
      rest := Drop(rest, 1);
      c := cur;
    }

    /** The comparisons with the letters of null, false and true after the first. */
    method Word(word: string) returns (ok: bool)
      requires Valid()
      modifies `pos, `cur, `rest
      ensures Valid()
      ensures ok <==> Expect(old(rest), word).Some?
      ensures ok ==> rest == Expect(old(rest), word).value
    {
      var i := 0;
      while i < |word|
        invariant i <= |word| && Valid()
        invariant Expect(old(rest), word) == Expect(rest, word[i..])
      {
        if cur != word[i] {
          return false;
        }
        var _ := Next();
        i := i + 1;
      }
      return true;
    }

    /** The four digits of a \u escape, from on the letter u. */
    method HexEscape() returns (num: nat)
      requires Valid()
      modifies `pos, `cur, `rest
      ensures Valid() && rest == Drop(old(rest), 4)
      ensures var t := Drop(old(rest), 1);
              num == HexNumber(Cur(t), Cur(Drop(t, 1)), Cur(Drop(t, 2)), Cur(Drop(t, 3)))
    {
      var c1 := Next();
      var c2 := Next();
      var c3 := Next();
      var c4 := Next();
      num := BitOr(16 * BitOr(16 * BitOr(16 * Nibble(c1), Nibble(c2)), Nibble(c3)), Nibble(c4));
    }

    /** The case of the opening quote. */
    method String() returns (ok: bool, vstr: string)
      requires Valid()
      modifies `pos, `cur, `rest
      ensures Valid()
      ensures ok <==> ScanString(old(rest), "").Some?
      ensures ok ==> ScanString(old(rest), "") == Some((vstr, rest))
    {
      vstr := "";
      while cur != '\0' && cur != '"'
        invariant Valid() && ScanString(old(rest), "") == ScanString(rest, vstr)
        decreases |rest|
      {
        ghost var s := rest;
        if cur == '\\' {
          var c := Next();
          if c == 'u' {
            var num := HexEscape();
            var t := Drop(s, 2);
            HexNumberBound(Cur(t), Cur(Drop(t, 1)), Cur(Drop(t, 2)), Cur(Drop(t, 3)));
            vstr := vstr + Utf8(num);
          } else {
            vstr := vstr + [Unescaped(c)];
          }
        } else {
          vstr := vstr + [cur];
        }
        var _ := Next();
      }
      if cur == '\0' {
        return false, vstr;
      }
      var _ := Next();
      return true, vstr;
    }

    /** The case of a number; `first` is already read. */
    method Number(first: char) returns (next: Option<Json>)
      requires Valid()
      modifies `pos, `cur, `rest
      ensures Valid()
      ensures var t := NumberToken(first, old(rest));
              if next == None then t == Bad else t == Primitive(next.value, rest)
    {
      var isFloat, vstr := false, [first];
      while IsNumberChar(cur)
        invariant Valid()
        invariant ScanNumber(old(rest), [first], false) == ScanNumber(rest, vstr, isFloat)
        decreases |rest|
      {
        if IsFloatMark(cur) {
          isFloat := true;
        }
        vstr := vstr + [cur];
        var _ := Next();
      }
      if isFloat {
        return Some(Float(vstr));
      }
      var n := ParseInteger(vstr);
      return if n.Some? then Some(Int(n.value)) else None;
    }

    /** The switch on a character other than a separator or a closing bracket. */
    method Token(c: char) returns (next: Option<Obj>, enter: bool)
      requires Valid() && !IsSeparator(c) && c != '}' && c != ']'
      modifies `pos, `cur, `rest, `cells
      ensures next == None ==> NextToken(c, old(rest)) == Bad
      ensures next.Some? && !enter ==>
                Valid() && next.value.Prim? && cells == old(cells)
                && NextToken(c, old(rest)) == Primitive(next.value.p, rest)
      ensures next.Some? && enter ==>
                && next == Some(Ref(|old(cells)|)) && |cells| == |old(cells)| + 1 && cells[..|old(cells)|] == old(cells)
                && Valid() && NextToken(c, old(rest)) == Open(cells[|old(cells)|], rest)
    {
      next, enter := None, false;
      if c == 'n' {
        var ok := Word("ull");
        if ok { next := Some(Prim(Null)); }
      } else if c == 'f' {
        var ok := Word("alse");
        if ok { next := Some(Prim(Bool(false))); }
      } else if c == 't' {
        var ok := Word("rue");
        if ok { next := Some(Prim(Bool(true))); }
      } else if c == '"' {
        var ok, s := String();
        if ok { next := Some(Prim(Str(s))); }
      } else if IsNumberStart(c) {
        var n := Number(c);
        if n.Some? { next := Some(Prim(n.value)); }
      } else if c == '[' {
        next, enter := Some(Ref(|cells|)), true;
        cells := cells + [ListCell([])];
      } else if c == '{' {
        next, enter := Some(Ref(|cells|)), true;
        cells := cells + [DictCell(map[])];
      }
    }

    /** Append to the list, set the pending key, or store under it. */
    method AppendTo(t: nat, next: Obj, enter: bool) returns (ok: bool)
      requires Valid() && t < |cells| && (enter <==> next.Ref?)
      modifies `cells, `key
      ensures var r := Attach(old(Now()), t, next, enter);
              (ok <==> r.Continue?) && (ok ==> Now() == r.st && Valid())
    {
      match cells[t]
      case ListCell(items) =>
        cells := cells[t := ListCell(items + [next])];
        ok := true;
      case DictCell(entries) =>
        if key == None {
          if enter {
            return false;
          }
          key := Some(next.p);
        } else {
          cells := cells[t := DictCell(entries[key.value := next])];
          key := None;
        }
        ok := true;
    }

    /** A closing bracket: back to the enclosing container. */
    method CloseBracket() returns (status: Status)
      requires Valid()
      modifies `stack, `top
      ensures Follows(CloseTop(old(Now())), status)
    {
      if top == None {
        return Failed;
      }
      if stack == [] {
        return Finished;
      }
      top := Some(Ref(stack[|stack| - 1]));
      stack := stack[..|stack| - 1];
      return Going;
    }

    /** The end of the loop body: the object becomes the top or goes into it. */
    method AcceptObject(next: Obj, enter: bool) returns (status: Status)
      requires Valid() && (enter <==> next.Ref?) && (enter ==> next.r < |cells|)
      modifies `cells, `key, `stack, `top
      ensures Follows(Accept(old(Now()), next, enter), status)
    {
      if top == None {
        top := Some(next);
        return if enter then Going else Finished;
      }
      if top.value.Prim? {
        return Failed;
      }
      var t := top.value.r;
      var ok := AppendTo(t, next, enter);
      if !ok {
        return Failed;
      }
      if enter {
        stack := stack + [t];
        top := Some(next);
      }
      return Going;
    }

    /** The object is in the state that the machine's step leads to. */
    ghost predicate Follows(r: Outcome, status: Status)
      reads this
    {
      match r
      case Continue(st) => status == Going && Valid() && Now() == st
      case Success(st) => status == Finished && Valid() && Now() == st
      case Fail => status == Failed
    }

    /** One pass through the loop body. */
    method Iterate() returns (status: Status)
      requires Valid() && cur != '\0'
      modifies this
      ensures var t := NextToken(Cur(old(rest)), Drop(old(rest), 1));
              if t.Bad? then status == Failed
              else Follows(Perform(old(Now()), t), status) && (status != Failed ==> rest == t.rest)
    {
      var c := cur;
      var _ := Next();
      if IsSeparator(c) {
        return Going;
      }
      if c == '}' || c == ']' {
        status := CloseBracket();
        return;
      }
      var next, enter := Token(c);
      if next == None {
        return Failed;
      }
      status := AcceptObject(next.value, enter);
    }

    /** mod_json_load: every run of the loop is a run of the machine. */
    method Load() returns (r: Result)
      requires Valid() && rest == input && Now() == INITIAL
      modifies this
      ensures r == JsonMachine.Load(input)
    {
      while cur != '\0'
        invariant Valid() && JsonMachine.Load(input) == Run(Now(), rest)
        decreases |rest|
      {
        var status := Iterate();
        match status
        case Going =>
        case Finished => break;
        case Failed => return SyntaxError;
      }
      r := AtSuccess();
    }

    /** At the label `success`. */
    method AtSuccess() returns (r: Result)
      requires Valid()
      modifies `pos, `cur, `rest
      ensures r == Finish(old(Now()), old(rest))
    {
      while IsSpace(cur)
        invariant Valid() && SkipSpace(rest) == SkipSpace(old(rest))
        decreases |rest|
      {
        var _ := Next();
      }
      if cur != '\0' || top == None || stack != [] {
        return SyntaxError;
      }
      return Loaded(cells, top.value);
    }
  }

  /** Loading the text of a document gives the value of the document with each escape read by
      itself. Where no object has a key twice, this is the value that RFC 4627 gives it exactly if
      there is no surrogate pair in it. */
  method LoadDocument(d: Document) returns (r: Result)
    requires ValidDocument(d)
    ensures r.Loaded? && Represents(r.cells, r.root, Denotes(d.v, Plain))
    ensures Distinct(d.v, Plain) || Distinct(d.v, Joined)
            ==> (Represents(r.cells, r.root, Denotes(d.v, Joined)) <==> Pairless(d.v))
  {
    var loader := new Loader(DocumentText(d));
    r := loader.Load();
    LoadsEveryDocument(d);
    if Distinct(d.v, Plain) {
      LoadsExactly(d, Plain);
    } else if Distinct(d.v, Joined) {
      LoadsExactly(d, Joined);
    }
  }
}
