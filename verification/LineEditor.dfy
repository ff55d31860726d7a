/** The line editor of the console: printable characters, backspace, and a ring of ten earlier
    lines behind the arrow keys. */
module LineEditor {
  import opened ByteSeqs
  import opened Terminal

  const ESC: byte := 0x1b
  const BRACKET: byte := 0x5b
  const UP: byte := 0x41
  const DOWN: byte := 0x42
  const DELETE: byte := 0x7f
  const HISTORY_SIZE := 10
  const LINE_SIZE := 256

  predicate Printable(c: byte) { 32 <= c <= 126 }

  predicate AllPrintable(s: seq<byte>) { forall i | 0 <= i < |s| :: Printable(s[i]) }

  // ---------- the editor as its user sees it ----------

  /** The text, how far an escape sequence has come, the line recalled (counted back from the
      newest, modulo ten), and what has been echoed. */
  datatype Editor = Editor(text: seq<byte>, esc: nat, back: nat, echo: seq<byte>)

  const START := Editor([], 0, 0, [])

  /** The `back`-th line from the end; the tenth stands at 0. Where there is none, an empty line. */
  function Recalled(entered: seq<seq<byte>>, back: nat): seq<byte> {
    var k := if back == 0 then HISTORY_SIZE else back;
    if k <= |entered| then entered[|entered| - k] else []
  }

  function Replaced(e: Editor, t: seq<byte>, back: nat): Editor {
    Editor(t, 0, back, e.echo + Repeat(BACKSPACE, |e.text|) + t)
  }

  /** One key, other than the one that ends the line. */
  function Pressed(e: Editor, c: byte, entered: seq<seq<byte>>): Editor {
    if e.esc == 0 then
      if c == ESC then e.(esc := 1)
      else if (c == BACKSPACE || c == DELETE) && e.text != [] then
        e.(text := e.text[..|e.text| - 1], echo := e.echo + [BACKSPACE])
      else if Printable(c) then e.(text := e.text + [c], echo := e.echo + [c])
      else e
    else if e.esc == 1 then e.(esc := if c == BRACKET then 2 else 0)
    else if c == UP then
      if entered == [] then e.(esc := 0)
      else var b := (e.back + 1) % HISTORY_SIZE; Replaced(e, Recalled(entered, b), b)
    else if c == DOWN then
      if entered == [] then Replaced(e, [], e.back)
      else var b := (e.back + 9) % HISTORY_SIZE; Replaced(e, Recalled(entered, b), b)
    else e.(esc := 0)
  }

  predicate Ends(e: Editor, c: byte) { e.esc == 0 && (c == NEWLINE || c == RETURN) }

  datatype Outcome = Entered | BufferFull | Waiting

  /** The keys up to the end of the line, or until the text fills the buffer, or until there are no
      more keys for now. */
  function Session(e: Editor, keys: seq<byte>, entered: seq<seq<byte>>): (Editor, Outcome)
    decreases |keys|
  {
    if |e.text| >= LINE_SIZE - 1 then (e, BufferFull)
    else if keys == [] then (e, Waiting)
    else if Ends(e, keys[0]) then (e.(echo := e.echo + [NEWLINE]), Entered)
    else Session(Pressed(e, keys[0], entered), keys[1..], entered)
  }

  lemma SessionStep(e: Editor, keys: seq<byte>, n: nat, entered: seq<seq<byte>>)
    requires n < |keys| && |e.text| < LINE_SIZE - 1 && !Ends(e, keys[n])
    ensures Session(e, keys[n..], entered) == Session(Pressed(e, keys[n], entered), keys[n + 1..], entered)
  {
    assert keys[n..][1..] == keys[n + 1..];
  }

  // ---------- typing and recalling ----------

  predicate Full(t: seq<byte>) { |t| >= LINE_SIZE - 1 }

  /** Printable keys, as long as they fit, are appended. */
  lemma {:induction false} Typed(e: Editor, t: seq<byte>, rest: seq<byte>, entered: seq<seq<byte>>)
    requires e.esc == 0 && AllPrintable(t) && |e.text| + |t| < LINE_SIZE
    ensures Session(e, t + rest, entered) == Session(e.(text := e.text + t, echo := e.echo + t), rest, entered)
    decreases |t|
  {
    if t == [] {
      assert t + rest == rest && e.text + t == e.text && e.echo + t == e.echo;
    } else {
      var next := e.(text := e.text + [t[0]], echo := e.echo + [t[0]]);
      assert (t + rest)[1..] == t[1..] + rest;
      assert next.text + t[1..] == e.text + t && next.echo + t[1..] == e.echo + t;
      Typed(next, t[1..], rest, entered);
    }
  }

  function Ups(k: nat): seq<byte> {
    if k == 0 then [] else Ups(k - 1) + [ESC, BRACKET, UP]
  }

  /** The editor with the `k`-th line further back in place of its text. */
  function Recall(e: Editor, k: nat, entered: seq<seq<byte>>): Editor {
    if k == 0 then e
    else
      var r := Recall(e, k - 1, entered);
      var b := (r.back + 1) % HISTORY_SIZE;
      Replaced(r, Recalled(entered, b), b)
  }

  lemma OneUp(e: Editor, rest: seq<byte>, entered: seq<seq<byte>>)
    requires e.esc == 0 && entered != [] && !Full(e.text)
    ensures Session(e, [ESC, BRACKET, UP] + rest, entered) == Session(Recall(e, 1, entered), rest, entered)
  {
    var keys := [ESC, BRACKET, UP] + rest;
    assert Session(e, keys, entered) == Session(e.(esc := 1), keys[1..], entered);
    assert keys[1..][0] == BRACKET;
    assert Session(e.(esc := 1), keys[1..], entered) == Session(e.(esc := 2), keys[1..][1..], entered);
    assert keys[1..][1..][0] == UP && keys[1..][1..][1..] == rest;
    assert Recall(e, 0, entered) == e;
    assert Pressed(e.(esc := 2), UP, entered) == Recall(e, 1, entered);
  }

  /** The `j`-th most recent line. */
  function Recent(entered: seq<seq<byte>>, j: nat): seq<byte>
    requires 0 < j <= |entered|
  {
    entered[|entered| - j]
  }

  /** The `n` most recent lines leave room in the buffer. */
  predicate Short(entered: seq<seq<byte>>, n: nat)
    requires n <= |entered|
  {
    forall j | 0 < j <= n :: !Full(Recent(entered, j))
  }

  lemma RecalledRecent(entered: seq<seq<byte>>, k: nat, back: nat)
    requires 0 < k <= HISTORY_SIZE && k <= |entered| && back == k % HISTORY_SIZE
    ensures Recalled(entered, back) == Recent(entered, k)
  {
  }

  lemma Turn(k: nat)
    requires k > 0
    ensures ((k - 1) % HISTORY_SIZE + 1) % HISTORY_SIZE == k % HISTORY_SIZE
  {
  }

  lemma {:induction false} RecallBack(e: Editor, k: nat, entered: seq<seq<byte>>)
    requires e.esc == 0 && e.back == 0
    ensures var r := Recall(e, k, entered); r.esc == 0 && r.back == k % HISTORY_SIZE
    decreases k
  {
    if k > 0 {
      RecallBack(e, k - 1, entered);
      Turn(k);
    }
  }

  lemma RecallIs(e: Editor, k: nat, entered: seq<seq<byte>>)
    requires e.esc == 0 && e.back == 0 && 0 < k <= HISTORY_SIZE && k <= |entered|
    ensures Recall(e, k, entered).text == Recent(entered, k)
  {
    var r := Recall(e, k - 1, entered);
    RecallBack(e, k - 1, entered);
    Turn(k);
    RecalledRecent(entered, k, (r.back + 1) % HISTORY_SIZE);
  }

  lemma RecallStep(e: Editor, k: nat, entered: seq<seq<byte>>)
    requires k > 0
    ensures Recall(e, k, entered) == Recall(Recall(e, k - 1, entered), 1, entered)
  {
    var r := Recall(e, k - 1, entered);
    assert Recall(r, 0, entered) == r;
  }

  lemma UpsLast(k: nat, rest: seq<byte>)
    requires k > 0
    ensures Ups(k) + rest == Ups(k - 1) + ([ESC, BRACKET, UP] + rest)
  {
    Associate(Ups(k - 1), [ESC, BRACKET, UP], rest);
  }

  lemma OneMoreUp(e: Editor, k: nat, rest: seq<byte>, up: seq<byte>, entered: seq<seq<byte>>)
    requires k > 0 && e.esc == 0 && e.back == 0 && entered != [] && up == [ESC, BRACKET, UP] + rest
    requires !Full(Recall(e, k - 1, entered).text)
    ensures Session(Recall(e, k - 1, entered), up, entered) == Session(Recall(e, k, entered), rest, entered)
  {
    RecallBack(e, k - 1, entered);
    OneUp(Recall(e, k - 1, entered), rest, entered);
    RecallStep(e, k, entered);
  }

  /** `k` Up keys, when no line on the way fills the buffer. */
  lemma {:induction false} UpsRun(e: Editor, k: nat, rest: seq<byte>, entered: seq<seq<byte>>)
    requires e.esc == 0 && e.back == 0 && entered != []
    requires forall j: nat | j < k :: !Full(Recall(e, j, entered).text)
    ensures Session(e, Ups(k) + rest, entered) == Session(Recall(e, k, entered), rest, entered)
    decreases k
  {
    if k == 0 {
      assert Ups(k) + rest == rest;
    } else {
      var up := [ESC, BRACKET, UP] + rest;
      assert Ups(k) + rest == Ups(k - 1) + up by { UpsLast(k, rest); }
      UpsRun(e, k - 1, up, entered);
      OneMoreUp(e, k, rest, up, entered);
    }
  }

  lemma {:induction false} UpsSplit(k: nat, m: nat)
    requires m <= k
    ensures Ups(k) == Ups(m) + Ups(k - m)
    decreases k - m
  {
    if m < k {
      UpsSplit(k - 1, m);
      assert Ups(m) + Ups(k - m) == Ups(m) + Ups(k - 1 - m) + [ESC, BRACKET, UP];
    } else {
      assert Ups(0) == [];
    }
  }

  /** A line that fills the buffer ends the session: the Up keys behind it are not read. */
  lemma UpsBlocked(e: Editor, m: nat, k: nat, rest: seq<byte>, entered: seq<seq<byte>>)
    requires e.esc == 0 && e.back == 0 && entered != [] && m <= k && Full(Recall(e, m, entered).text)
    requires forall j: nat | j < m :: !Full(Recall(e, j, entered).text)
    ensures Session(e, Ups(k) + rest, entered) == (Recall(e, m, entered), BufferFull)
  {
    UpsSplit(k, m);
    assert Ups(k) + rest == Ups(m) + (Ups(k - m) + rest);
    UpsRun(e, m, Ups(k - m) + rest, entered);
  }

  lemma {:induction false} EchoGrows(e: Editor, keys: seq<byte>, entered: seq<seq<byte>>)
    ensures |e.echo| <= |Session(e, keys, entered).0.echo|
    decreases |keys|
  {
    if !Full(e.text) && keys != [] && !Ends(e, keys[0]) {
      EchoGrows(Pressed(e, keys[0], entered), keys[1..], entered);
    }
  }

  lemma {:induction false} RecallEchoes(e: Editor, m: nat, k: nat, entered: seq<seq<byte>>)
    requires m < k && Recall(e, m, entered).text != []
    ensures |Recall(e, m, entered).echo| < |Recall(e, k, entered).echo|
    decreases k
  {
    if m < k - 1 { RecallEchoes(e, m, k - 1, entered); }
  }

  lemma {:induction false} FirstFull(entered: seq<seq<byte>>, n: nat) returns (m: nat)
    requires n <= |entered| && !Short(entered, n)
    ensures 0 < m <= n && Full(Recent(entered, m)) && Short(entered, m - 1)
  {
    if Short(entered, n - 1) { m := n; } else { m := FirstFull(entered, n - 1); }
  }

  lemma RecallsShort(e: Editor, n: nat, entered: seq<seq<byte>>)
    requires e.esc == 0 && e.back == 0 && !Full(e.text) && n <= HISTORY_SIZE && n <= |entered| && Short(entered, n)
    ensures forall j: nat | j <= n :: !Full(Recall(e, j, entered).text)
  {
    forall j: nat | j <= n ensures !Full(Recall(e, j, entered).text) {
      if j > 0 {
        RecallIs(e, j, entered);
        assert !Full(Recent(entered, j));
      }
    }
  }

  /** The first line on the way that fills the buffer stays in it. */
  lemma UpsStop(e: Editor, m: nat, k: nat, rest: seq<byte>, entered: seq<seq<byte>>)
    requires e.esc == 0 && e.back == 0 && !Full(e.text) && 0 < m <= k && m <= HISTORY_SIZE && m <= |entered|
    requires Full(Recent(entered, m)) && Short(entered, m - 1)
    ensures Session(e, Ups(k) + rest, entered) == (Recall(e, m, entered), BufferFull)
    ensures Recall(e, m, entered).text == Recent(entered, m)
  {
    RecallsShort(e, m - 1, entered);
    RecallIs(e, m, entered);
    UpsBlocked(e, m, k, rest, entered);
  }

  /** `k` Up keys bring back the `k`-th most recent line, for every line that is remembered, if and
      only if none of the lines passed on the way fills the buffer. */
  lemma UpsRecall(e: Editor, k: nat, rest: seq<byte>, entered: seq<seq<byte>>)
    requires e.esc == 0 && e.back == 0 && |e.text| < 255 && 0 < k <= 10 && k <= |entered|
    ensures var e' := Recall(e, k, entered);
            && e'.esc == 0 && e'.back == k % 10 && e'.text == Recent(entered, k)
            && (Session(e, Ups(k) + rest, entered) == Session(e', rest, entered) <==> Short(entered, k - 1))
  {
    RecallBack(e, k, entered);
    RecallIs(e, k, entered);
    if Short(entered, k - 1) {
      RecallsShort(e, k - 1, entered);
      UpsRun(e, k, rest, entered);
    } else {
      var m := FirstFull(entered, k - 1);
      UpsStop(e, m, k, rest, entered);
      RecallEchoes(e, m, k, entered);
      EchoGrows(Recall(e, k, entered), rest, entered);
    }
  }

  /** `k` Up keys and Enter give the `k`-th most recent line if the last `k` lines leave room in the
      buffer; otherwise the first of them that does not is left in the buffer, and Enter is not read. */
  lemma UpsEnter(e: Editor, k: nat, entered: seq<seq<byte>>)
    requires e.esc == 0 && e.back == 0 && |e.text| < 255 && 0 < k <= 10 && k <= |entered|
    ensures var (ed, o) := Session(e, Ups(k) + [NEWLINE], entered);
            && (Short(entered, k) ==> o == Entered && ed.text == Recent(entered, k))
            && (forall m | 0 < m <= k && Full(Recent(entered, m)) && Short(entered, m - 1) ::
                  o == BufferFull && ed.text == Recent(entered, m))
  {
    if Short(entered, k) {
      UpsRecall(e, k, [NEWLINE], entered);
    }
    forall m | 0 < m <= k && Full(Recent(entered, m)) && Short(entered, m - 1)
      ensures Session(e, Ups(k) + [NEWLINE], entered) == (Recall(e, m, entered), BufferFull)
      ensures Recall(e, m, entered).text == Recent(entered, m)
    {
      UpsStop(e, m, k, [NEWLINE], entered);
    }
  }

  // ---------- down again ----------

  /** The editor after `m` Down keys, when there is a history. */
  function Fall(e: Editor, m: nat, entered: seq<seq<byte>>): Editor {
    if m == 0 then e
    else
      var r := Fall(e, m - 1, entered);
      var b := (r.back + 9) % HISTORY_SIZE;
      Replaced(r, Recalled(entered, b), b)
  }

  function Downs(m: nat): seq<byte> {
    if m == 0 then [] else [ESC, BRACKET, DOWN] + Downs(m - 1)
  }

  /** The Up keys as the bytes that arrive, ESC [ A. */
  lemma {:induction false} UpBytes(k: nat, j: nat)
    requires j < k
    ensures |Ups(k)| == 3 * k && Ups(k)[3 * j..3 * j + 3] == [0x1b, 0x5b, 0x41]
  {
    ArrowLengths(k - 1);
    ArrowLengths(k);
    if j < k - 1 {
      UpBytes(k - 1, j);
      assert Ups(k)[3 * j..3 * j + 3] == Ups(k - 1)[3 * j..3 * j + 3];
    }
  }

  /** The Down keys, ESC [ B. */
  lemma {:induction false} DownBytes(k: nat, j: nat)
    requires j < k
    ensures |Downs(k)| == 3 * k && Downs(k)[3 * j..3 * j + 3] == [0x1b, 0x5b, 0x42]
  {
    ArrowLengths(k - 1);
    ArrowLengths(k);
    if j > 0 {
      DownBytes(k - 1, j - 1);
      assert Downs(k)[3 * j..3 * j + 3] == Downs(k - 1)[3 * (j - 1)..3 * (j - 1) + 3];
    }
  }

  lemma {:induction false} ArrowLengths(k: nat)
    ensures |Ups(k)| == 3 * k && |Downs(k)| == 3 * k
  {
    if k > 0 { ArrowLengths(k - 1); }
  }

  lemma OneDown(e: Editor, rest: seq<byte>, entered: seq<seq<byte>>)
    requires e.esc == 0 && entered != [] && !Full(e.text)
    ensures Session(e, [ESC, BRACKET, DOWN] + rest, entered) == Session(Fall(e, 1, entered), rest, entered)
  {
    var keys := [ESC, BRACKET, DOWN] + rest;
    assert Session(e, keys, entered) == Session(e.(esc := 1), keys[1..], entered);
    assert keys[1..][0] == BRACKET;
    assert Session(e.(esc := 1), keys[1..], entered) == Session(e.(esc := 2), keys[1..][1..], entered);
    assert keys[1..][1..][0] == DOWN && keys[1..][1..][1..] == rest;
    assert Fall(e, 0, entered) == e;
    assert Pressed(e.(esc := 2), DOWN, entered) == Fall(e, 1, entered);
  }

  lemma {:induction false} FallFirst(e: Editor, m: nat, entered: seq<seq<byte>>)
    requires m > 0
    ensures Fall(e, m, entered) == Fall(Fall(e, 1, entered), m - 1, entered)
  {
    if m > 1 { FallFirst(e, m - 1, entered); } else { assert Fall(e, 0, entered) == e; }
  }

  /** From the `k`-th most recent line, one Down key less than that leads to the newest. */
  lemma {:induction false} FallIs(e: Editor, k: nat, m: nat, entered: seq<seq<byte>>)
    requires e.esc == 0 && e.back == k % HISTORY_SIZE && 0 < m < k <= HISTORY_SIZE && k <= |entered|
    ensures var r := Fall(e, m, entered); r.esc == 0 && r.back == k - m && r.text == Recent(entered, k - m)
    decreases m
  {
    NineOn(k - m + 1);
    RecalledRecent(entered, k - m, k - m);
    if m > 1 { FallIs(e, k, m - 1, entered); } else { assert Fall(e, 0, entered) == e; }
  }

  /** Nine lines on is one line back. */
  lemma NineOn(k: nat)
    requires 1 <= k <= HISTORY_SIZE
    ensures (k % HISTORY_SIZE + 9) % HISTORY_SIZE == k - 1
  {
  }

  lemma OneMoreDown(e: Editor, m: nat, rest: seq<byte>, entered: seq<seq<byte>>)
    requires m > 0 && e.esc == 0 && entered != [] && !Full(e.text)
    ensures Session(e, Downs(m) + rest, entered) == Session(Fall(e, 1, entered), Downs(m - 1) + rest, entered)
  {
    Associate([ESC, BRACKET, DOWN], Downs(m - 1), rest);
    OneDown(e, Downs(m - 1) + rest, entered);
  }

  lemma LaterFalls(e: Editor, m: nat, entered: seq<seq<byte>>)
    requires m > 0 && forall j: nat | j < m :: !Full(Fall(e, j, entered).text)
    ensures forall j: nat | j < m - 1 :: !Full(Fall(Fall(e, 1, entered), j, entered).text)
  {
    forall j: nat | j < m - 1 ensures !Full(Fall(Fall(e, 1, entered), j, entered).text) {
      FallFirst(e, j + 1, entered);
    }
  }

  lemma FallStart(e: Editor, entered: seq<seq<byte>>)
    ensures Fall(e, 0, entered) == e && Fall(e, 1, entered).esc == 0
  {
  }

  /** `m` Down keys, when no line on the way fills the buffer. */
  lemma {:induction false} DownsRun(e: Editor, m: nat, rest: seq<byte>, entered: seq<seq<byte>>)
    requires e.esc == 0 && entered != []
    requires forall j: nat | j < m :: !Full(Fall(e, j, entered).text)
    ensures Session(e, Downs(m) + rest, entered) == Session(Fall(e, m, entered), rest, entered)
    decreases m
  {
    FallStart(e, entered);
    if m == 0 {
      assert Downs(m) + rest == rest;
    } else {
      var f := Fall(e, 1, entered);
      OneMoreDown(e, m, rest, entered);
      LaterFalls(e, m, entered);
      DownsRun(f, m - 1, rest, entered);
      FallFirst(e, m, entered);
    }
  }

  lemma {:induction false} FallEchoes(e: Editor, m: nat, entered: seq<seq<byte>>)
    requires m > 0
    ensures |Fall(e, m, entered).echo| >= |e.echo| + |e.text|
  {
    if m > 1 { FallEchoes(e, m - 1, entered); } else { assert Fall(e, 0, entered) == e; }
  }

  /** When the last `k` lines leave room, `k` Up keys and `m` Down keys bring back line `k - m`. */
  lemma DownsReturn(e: Editor, k: nat, m: nat, rest: seq<byte>, entered: seq<seq<byte>>)
    requires e.esc == 0 && e.back == 0 && !Full(e.text) && 0 < m < k <= HISTORY_SIZE && k <= |entered|
    requires Short(entered, k)
    ensures Session(e, Ups(k) + (Downs(m) + rest), entered)
         == Session(Fall(Recall(e, k, entered), m, entered), rest, entered)
  {
    var r := Recall(e, k, entered);
    UpsRecall(e, k, Downs(m) + rest, entered);
    assert !Full(Recent(entered, k));
    forall j: nat | j < m ensures !Full(Fall(r, j, entered).text) {
      if j > 0 {
        FallIs(r, k, j, entered);
        assert !Full(Recent(entered, k - j));
      }
    }
    DownsRun(r, m, rest, entered);
  }

  /** Otherwise the session ends before. */
  lemma DownsBlocked(e: Editor, k: nat, m: nat, rest: seq<byte>, entered: seq<seq<byte>>)
    requires e.esc == 0 && e.back == 0 && !Full(e.text) && 0 < m < k <= HISTORY_SIZE && k <= |entered|
    requires !Short(entered, k)
    ensures |Session(e, Ups(k) + (Downs(m) + rest), entered).0.echo| < |Fall(Recall(e, k, entered), m, entered).echo|
  {
    var n := FirstFull(entered, k);
    UpsStop(e, n, k, Downs(m) + rest, entered);
    FallEchoes(Recall(e, k, entered), m, entered);
    if n < k { RecallEchoes(e, n, k, entered); }
  }

  /** `k` Up keys and fewer Down keys bring back the line that the difference counts, for every line
      that is remembered, if and only if none of the last `k` lines fills the buffer. */
  lemma DownsRecall(e: Editor, k: nat, m: nat, rest: seq<byte>, entered: seq<seq<byte>>)
    requires e.esc == 0 && e.back == 0 && |e.text| < 255 && 0 < m < k <= 10 && k <= |entered|
    ensures var e' := Fall(Recall(e, k, entered), m, entered);
            && e'.esc == 0 && e'.back == k - m && e'.text == Recent(entered, k - m)
            && (Session(e, Ups(k) + (Downs(m) + rest), entered) == Session(e', rest, entered) <==> Short(entered, k))
  {
    var r := Recall(e, k, entered);
    RecallBack(e, k, entered);
    FallIs(r, k, m, entered);
    if Short(entered, k) {
      DownsReturn(e, k, m, rest, entered);
    } else {
      DownsBlocked(e, k, m, rest, entered);
      EchoGrows(Fall(r, m, entered), rest, entered);
    }
  }

  // ---------- keys by their codes ----------

  /** A character from space to tilde is appended, and backspace (8) or delete (127) takes it back. */
  lemma EraseUndoes(e: Editor, c: byte, d: byte, rest: seq<byte>, entered: seq<seq<byte>>)
    requires e.esc == 0 && |e.text| < 254 && 0x20 <= c <= 0x7e && (d == 0x08 || d == 0x7f)
    ensures Session(e, [c] + rest, entered) == Session(e.(text := e.text + [c], echo := e.echo + [c]), rest, entered)
    ensures Session(e, [c] + ([d] + rest), entered) == Session(e.(echo := e.echo + [c] + [8]), rest, entered)
  {
    var typed := e.(text := e.text + [c], echo := e.echo + [c]);
    assert ([c] + rest)[1..] == rest && ([c] + ([d] + rest))[1..] == [d] + rest && ([d] + rest)[1..] == rest;
    assert typed.text[..|typed.text| - 1] == e.text;
    assert Pressed(typed, d, entered) == e.(echo := e.echo + [c] + [8]);
  }

  /** Newline (10) and return (13) end the line with what is in it. */
  lemma EnterEnds(e: Editor, c: byte, rest: seq<byte>, entered: seq<seq<byte>>)
    requires e.esc == 0 && |e.text| < 255 && (c == 0x0a || c == 0x0d)
    ensures Session(e, [c] + rest, entered) == (e.(echo := e.echo + [10]), Entered)
  {
  }

  /** Every other key outside escape sequences is ignored: the other control characters, erasing in an
      empty line, and what is not ASCII. */
  lemma OtherIgnored(e: Editor, c: byte, rest: seq<byte>, entered: seq<seq<byte>>)
    requires e.esc == 0 && |e.text| < 255
    requires c != 0x0a && c != 0x0d && c != 0x1b && (c < 0x20 || c > 0x7e)
    requires (c == 0x08 || c == 0x7f) ==> e.text == []
    ensures Session(e, [c] + rest, entered) == Session(e, rest, entered)
  {
    assert ([c] + rest)[1..] == rest && Pressed(e, c, entered) == e;
  }

  /** Two lines, the later of 255 bytes: the earlier cannot be brought back. */
  lemma LongHidesOlder(a: seq<byte>, b: seq<byte>)
    requires 0 < |a| < LINE_SIZE - 1 && |b| == LINE_SIZE - 1
    ensures var (ed, o) := Session(START, Ups(2) + [NEWLINE], [a, b]); o == BufferFull && ed.text == b && ed.text != a
  {
    assert Recent([a, b], 1) == b && Recent([a, b], 2) == a;
    UpsEnter(START, 2, [a, b]);
  }

  // ---------- the program ----------

  /** The slot of the `back`-th line from the end. */
  function SlotOf(current: nat, back: nat): nat
    requires current < HISTORY_SIZE && back < HISTORY_SIZE
  {
    if back <= current then current - back else current + HISTORY_SIZE - back
  }

  lemma SlotsTurn(current: nat, back: nat)
    requires current < HISTORY_SIZE && back < HISTORY_SIZE
    ensures (SlotOf(current, back) - 1 + HISTORY_SIZE) % HISTORY_SIZE == SlotOf(current, (back + 1) % HISTORY_SIZE)
    ensures (SlotOf(current, back) + 1) % HISTORY_SIZE == SlotOf(current, (back + 9) % HISTORY_SIZE)
  {
  }

  lemma ArrowIs(ed: Editor, c: byte, back: nat, entered: seq<seq<byte>>)
    requires ed.esc == 2 && entered != []
    requires (c == UP && back == (ed.back + 1) % HISTORY_SIZE) || (c == DOWN && back == (ed.back + 9) % HISTORY_SIZE)
    ensures Pressed(ed, c, entered) == Replaced(ed, Recalled(entered, back), back)
  {
  }

  class Prompt {
    const term: Console
    const history: array2<byte>
    var count: nat
    var current: nat
    /** all lines entered so far that were not empty */
    ghost var entered: seq<seq<byte>>

    /** A slot holds `t`, ended by NUL. */
    ghost predicate Holds(h: nat, t: seq<byte>)
      requires history.Length0 == HISTORY_SIZE && history.Length1 == LINE_SIZE && h < HISTORY_SIZE
      reads history
    {
      && |t| < LINE_SIZE && AllPrintable(t) && history[h, |t|] == 0
      && forall j | 0 <= j < |t| :: history[h, j] == t[j]
    }

    ghost predicate Apart()
      reads this
    {
      && history.Length0 == HISTORY_SIZE && history.Length1 == LINE_SIZE
      && term as object != this && term.buffer as object != history as object
      && term.buffer as object != this && history as object != term
    }

    /** The ring holds the last ten lines. */
    ghost predicate Remembers()
      requires Apart()
      reads this, history
    {
      && current == |entered| % HISTORY_SIZE
      && count == (if |entered| < HISTORY_SIZE then |entered| else HISTORY_SIZE)
      && forall k: nat | k < HISTORY_SIZE :: Holds(SlotOf(current, k), Recalled(entered, k))
    }

    ghost predicate Valid()
      reads this, term, term.buffer, history
    {
      Apart() && term.Valid() && Remembers()
    }

    constructor (term: Console)
      requires term.Valid()
      ensures Valid() && this.term == term && entered == [] && fresh(history)
    {
      this.term := term;
      history := new byte[HISTORY_SIZE, LINE_SIZE]((i, j) => 0);
      count, current, entered := 0, 0, [];
    }

    /** Back to the start of the line. */
    method EraseAll(i: nat)
      requires Apart() && term.Valid()
      modifies term`row, term`column, term`grid, term.buffer
      ensures term.Valid() && term.grid == PutAll(old(term.grid), Repeat(BACKSPACE, i), term.color)
    {
      var k := i;
      while k > 0
        invariant 0 <= k <= i && term.Valid()
        invariant PutAll(term.grid, Repeat(BACKSPACE, k), term.color)
                  == PutAll(old(term.grid), Repeat(BACKSPACE, i), term.color)
      {
        assert Repeat(BACKSPACE, k)[1..] == Repeat(BACKSPACE, k - 1);
        term.PutChar(BACKSPACE);
        k := k - 1;
      }
    }

    /** The line in slot `h` becomes the line being edited. */
    method Copy(h: nat, line: array<byte>, ghost t: seq<byte>) returns (i: nat)
      requires Apart() && term.Valid() && h < HISTORY_SIZE && Holds(h, t) && line.Length == LINE_SIZE
      requires line as object != term && line as object != term.buffer as object && line as object != history
      modifies line, term`row, term`column, term`grid, term.buffer
      ensures term.Valid() && term.grid == PutAll(old(term.grid), t, term.color)
      ensures i == |t| && line[..i] == t && line[i..] == old(line[i..])
    {
      i := 0;
      assert t[0..] == t;
      while history[h, i] != 0
        invariant i <= |t| && Holds(h, t)
        invariant forall k | 0 <= k < i :: line[k] == t[k]
        invariant forall k | i <= k < LINE_SIZE :: line[k] == old(line[k])
        invariant term.Valid() && PutAll(term.grid, t[i..], term.color) == PutAll(old(term.grid), t, term.color)
        decreases |t| - i
      {
        assert t[i..][1..] == t[i + 1..];
        line[i] := history[h, i];
        term.PutChar(history[h, i]);
        i := i + 1;
      }
      assert i == |t| && line[..i] == t && line[i..] == old(line[i..]);
    }

    /** The program's variables are those of the editor. */
    ghost predicate Edits(ed: Editor, line: array<byte>, i: nat, esc: nat, hptr: nat)
      reads this, line
    {
      && line.Length == LINE_SIZE && i == |ed.text| < LINE_SIZE && line[..i] == ed.text && AllPrintable(ed.text)
      && esc == ed.esc <= 2 && current < HISTORY_SIZE && ed.back < HISTORY_SIZE && hptr == SlotOf(current, ed.back)
    }

    ghost predicate Echoed(ed: Editor, g: Grid)
      reads this, term, term.buffer
    {
      term.Valid() && g.Valid() && term.grid == PutAll(g, ed.echo, term.color)
    }

    ghost predicate Beside(line: array<byte>)
      reads this
    {
      Apart() && line as object != term && line as object != term.buffer as object && line as object != history
      && line as object != this
    }

    /** A key outside escape sequences. */
    method PressPlain(c: byte, line: array<byte>, i: nat, hptr: nat, ghost ed: Editor, ghost g: Grid)
      returns (i': nat, esc: nat)
      requires Valid() && Beside(line) && Edits(ed, line, i, 0, hptr) && Echoed(ed, g) && !Ends(ed, c)
               && i < LINE_SIZE - 1
      modifies line, term`row, term`column, term`grid, term.buffer
      ensures Valid() && Edits(Pressed(ed, c, entered), line, i', esc, hptr) && Echoed(Pressed(ed, c, entered), g)
      ensures line[LINE_SIZE - 1] == old(line[LINE_SIZE - 1])
    {
      PutJoin(g, ed.echo, [c], term.color);
      PutJoin(g, ed.echo, [BACKSPACE], term.color);
      i', esc := i, 0;
      if c == ESC {
        esc := 1;
      } else if (c == BACKSPACE || c == DELETE) && i > 0 {
        i' := i - 1;
        term.PutChar(BACKSPACE);
        assert line[..i'] == ed.text[..i'];
      } else if 32 <= c <= 126 {
        line[i] := c;
        i' := i + 1;
        term.PutChar(c);
        assert line[..i'] == ed.text + [c];
      }
    }

    /** The text gives way to a line of the history. */
    method Replace(h: nat, line: array<byte>, i: nat, ghost t: seq<byte>, ghost echo: seq<byte>, ghost g: Grid)
      returns (i': nat)
      requires Valid() && Beside(line) && line.Length == LINE_SIZE && h < HISTORY_SIZE && Holds(h, t)
      requires g.Valid() && term.grid == PutAll(g, echo, term.color)
      modifies line, term`row, term`column, term`grid, term.buffer
      ensures Valid() && term.grid == PutAll(g, echo + Repeat(BACKSPACE, i) + t, term.color)
      ensures i' == |t| && line[..i'] == t && line[i'..] == old(line[i'..])
    {
      PutJoin(g, echo, Repeat(BACKSPACE, i), term.color);
      PutJoin(g, echo + Repeat(BACKSPACE, i), t, term.color);
      EraseAll(i);
      i' := Copy(h, line, t);
    }

    /** The `back`-th line comes up. */
    method Bring(hptr: nat, ghost back: nat, line: array<byte>, i: nat, ghost ed: Editor, ghost g: Grid)
      returns (i': nat)
      requires Valid() && Beside(line) && line.Length == LINE_SIZE && Echoed(ed, g) && i == |ed.text|
      requires back < HISTORY_SIZE && hptr == SlotOf(current, back)
      modifies line, term`row, term`column, term`grid, term.buffer
      ensures var ed' := Replaced(ed, Recalled(entered, back), back);
              Valid() && Edits(ed', line, i', 0, hptr) && Echoed(ed', g)
      ensures line[LINE_SIZE - 1] == old(line[LINE_SIZE - 1])
    {
      ghost var t := Recalled(entered, back);
      assert Holds(hptr, t);
      i' := Replace(hptr, line, i, t, ed.echo, g);
      assert line[LINE_SIZE - 1] == line[i'..][LINE_SIZE - 1 - i'];
    }

    /** The Up key. */
    method PressUp(line: array<byte>, i: nat, hptr: nat, ghost ed: Editor, ghost g: Grid) returns (i': nat, hptr': nat)
      requires Valid() && Beside(line) && Edits(ed, line, i, 2, hptr) && Echoed(ed, g)
      modifies line, term`row, term`column, term`grid, term.buffer
      ensures Valid() && Edits(Pressed(ed, UP, entered), line, i', 0, hptr') && Echoed(Pressed(ed, UP, entered), g)
      ensures line[LINE_SIZE - 1] == old(line[LINE_SIZE - 1])
    {
      i', hptr' := i, hptr;
      if count > 0 {
        hptr' := (hptr - 1 + HISTORY_SIZE) % HISTORY_SIZE;
        assert hptr' == SlotOf(current, (ed.back + 1) % HISTORY_SIZE) by { SlotsTurn(current, ed.back); }
        ArrowIs(ed, UP, (ed.back + 1) % HISTORY_SIZE, entered);
        i' := Bring(hptr', (ed.back + 1) % HISTORY_SIZE, line, i, ed, g);
      }
    }

    /** The Down key, which clears the line even when there is no history. */
    method PressDown(line: array<byte>, i: nat, hptr: nat, ghost ed: Editor, ghost g: Grid)
      returns (i': nat, hptr': nat)
      requires Valid() && Beside(line) && Edits(ed, line, i, 2, hptr) && Echoed(ed, g)
      modifies line, term`row, term`column, term`grid, term.buffer
      ensures Valid() && Edits(Pressed(ed, DOWN, entered), line, i', 0, hptr') && Echoed(Pressed(ed, DOWN, entered), g)
      ensures line[LINE_SIZE - 1] == old(line[LINE_SIZE - 1])
    {
      hptr' := hptr;
      if count > 0 {
        hptr' := (hptr + 1) % HISTORY_SIZE;
        assert hptr' == SlotOf(current, (ed.back + 9) % HISTORY_SIZE) by { SlotsTurn(current, ed.back); }
        ArrowIs(ed, DOWN, (ed.back + 9) % HISTORY_SIZE, entered);
        i' := Bring(hptr', (ed.back + 9) % HISTORY_SIZE, line, i, ed, g);
      } else {
        PutJoin(g, ed.echo, Repeat(BACKSPACE, i), term.color);
        EraseAll(i);
        i' := 0;
        assert ed.echo + Repeat(BACKSPACE, i) + [] == ed.echo + Repeat(BACKSPACE, i);
      }
    }

    /** The last key of an escape sequence. */
    method PressArrow(c: byte, line: array<byte>, i: nat, hptr: nat, ghost ed: Editor, ghost g: Grid)
      returns (i': nat, hptr': nat)
      requires Valid() && Beside(line) && Edits(ed, line, i, 2, hptr) && Echoed(ed, g)
      modifies line, term`row, term`column, term`grid, term.buffer
      ensures Valid() && Edits(Pressed(ed, c, entered), line, i', 0, hptr') && Echoed(Pressed(ed, c, entered), g)
      ensures line[LINE_SIZE - 1] == old(line[LINE_SIZE - 1])
    {
      i', hptr' := i, hptr;
      if c == UP {
        i', hptr' := PressUp(line, i, hptr, ed, g);
      } else if c == DOWN {
        i', hptr' := PressDown(line, i, hptr, ed, g);
      }
    }

    /** All 256 bytes of the line go into a slot. */
    method Store(h: nat, line: array<byte>)
      requires Apart() && h < HISTORY_SIZE && line.Length == LINE_SIZE && line as object != history
      modifies history
      ensures forall j | 0 <= j < LINE_SIZE :: history[h, j] == line[j]
      ensures forall k, t | 0 <= k < HISTORY_SIZE && k != h && old(Holds(k, t)) :: Holds(k, t)
    {
      for j := 0 to LINE_SIZE
        invariant forall k | 0 <= k < j :: history[h, k] == line[k]
        invariant forall x, k | 0 <= x < HISTORY_SIZE && 0 <= k < LINE_SIZE && x != h ::
                    history[x, k] == old(history[x, k])
      {
        history[h, j] := line[j];
      }
    }

    /** The end of nexus_readline: a line that is not empty goes into the ring. */
    method Remember(line: array<byte>, i: nat, ghost t: seq<byte>)
      requires Valid() && Beside(line) && line.Length == LINE_SIZE && 0 < i == |t| < LINE_SIZE
      requires line[..i] == t && AllPrintable(t)
      modifies history, `count, `current, `entered
      ensures Apart() && term.Valid() && entered == old(entered) + [t] && current == (old(current) + 1) % HISTORY_SIZE
      ensures forall j | 0 <= j < LINE_SIZE :: history[old(current), j] == line[j]
      ensures line[i] == 0 <==> Valid()
    {
      Store(current, line);
      RingTurns(current, entered, t);
      StoredHolds(current, line, t);
      TurnRing(t, line[i] == 0);
    }

    lemma StoredHolds(h: nat, line: array<byte>, t: seq<byte>)
      requires Apart() && h < HISTORY_SIZE && line.Length == LINE_SIZE && |t| < LINE_SIZE && AllPrintable(t)
      requires line[..|t|] == t && forall j | 0 <= j < LINE_SIZE :: history[h, j] == line[j]
      ensures Holds(h, t) <==> line[|t|] == 0
    {
      forall j | 0 <= j < |t| ensures history[h, j] == t[j] {
        assert line[j] == line[..|t|][j];
      }
    }

    /** The counters move on; the ring is sound with the line `t` if the slot just stored is. */
    method TurnRing(ghost t: seq<byte>, ghost sound: bool)
      requires Apart() && current == |entered| % HISTORY_SIZE
      requires count == (if |entered| < HISTORY_SIZE then |entered| else HISTORY_SIZE)
      requires var next := (current + 1) % HISTORY_SIZE;
               (forall k: nat | k < HISTORY_SIZE :: Holds(SlotOf(next, k), Recalled(entered + [t], k))) <==> sound
      modifies `count, `current, `entered
      ensures Apart() && entered == old(entered) + [t] && current == (old(current) + 1) % HISTORY_SIZE
      ensures Remembers() <==> sound
    {
      Turn(|entered| + 1);
      current := (current + 1) % HISTORY_SIZE;
      if count < HISTORY_SIZE {
        count := count + 1;
      }
      entered := entered + [t];
    }

    /** After a new line is stored in the slot `cur`. */
    lemma RingTurns(cur: nat, was: seq<seq<byte>>, t: seq<byte>)
      requires Apart() && cur < HISTORY_SIZE
      requires forall k: nat | k < HISTORY_SIZE && SlotOf(cur, k) != cur :: Holds(SlotOf(cur, k), Recalled(was, k))
      ensures var next := (cur + 1) % HISTORY_SIZE;
              (forall k: nat | k < HISTORY_SIZE :: Holds(SlotOf(next, k), Recalled(was + [t], k))) <==> Holds(cur, t)
    {
      var next := (cur + 1) % HISTORY_SIZE;
      RecalledLater(was, t, 1);
      SlotLater(cur, 1);
      forall k: nat | k < HISTORY_SIZE && k != 1
        ensures Holds(SlotOf(next, k), Recalled(was + [t], k))
      {
        RecalledLater(was, t, k);
        SlotLater(cur, k);
      }
    }

    /** One turn of the loop, for a key that does not end the line. */
    method Press(c: byte, line: array<byte>, i: nat, esc: nat, hptr: nat, ghost ed: Editor, ghost g: Grid)
      returns (i': nat, esc': nat, hptr': nat)
      requires Valid() && Beside(line) && Edits(ed, line, i, esc, hptr) && Echoed(ed, g) && !Ends(ed, c)
               && i < LINE_SIZE - 1
      modifies line, term`row, term`column, term`grid, term.buffer
      ensures Valid() && Edits(Pressed(ed, c, entered), line, i', esc', hptr') && Echoed(Pressed(ed, c, entered), g)
      ensures line[LINE_SIZE - 1] == old(line[LINE_SIZE - 1])
    {
      i', hptr', esc' := i, hptr, 0;
      if esc == 0 {
        i', esc' := PressPlain(c, line, i, hptr, ed, g);
      } else if esc == 1 {
        if c == BRACKET {
          esc' := 2;
        }
      } else {
        i', hptr' := PressArrow(c, line, i, hptr, ed, g);
      }
    }

    /** The loop of nexus_readline, for the keys that come while it runs. */
    method Edit(line: array<byte>, keys: seq<byte>) returns (outcome: Outcome, i: nat)
      requires Valid() && Beside(line) && line.Length == LINE_SIZE
      modifies line, term`row, term`column, term`grid, term.buffer
      ensures Valid() && i < LINE_SIZE && AllPrintable(line[..i]) && line[LINE_SIZE - 1] == old(line[LINE_SIZE - 1])
      ensures var (ed, o) := Session(START, keys, entered);
              && o == outcome && line[..i] == ed.text && term.grid == PutAll(old(term.grid), ed.echo, term.color)
      ensures outcome == Entered ==> line[i] == 0
      ensures outcome == BufferFull ==> i == LINE_SIZE - 1
    {
      var esc, hptr, n := 0, current, 0;
      i := 0;
      ghost var ed, g := START, term.grid;
      assert keys[0..] == keys;
      while i < LINE_SIZE - 1
        invariant Valid() && n <= |keys| && line[LINE_SIZE - 1] == old(line[LINE_SIZE - 1])
        invariant Edits(ed, line, i, esc, hptr) && Echoed(ed, g)
        invariant Session(ed, keys[n..], entered) == Session(START, keys, entered)
        decreases |keys| - n
      {
        if n == |keys| {
          return Waiting, i;
        }
        var c := keys[n];
        if esc == 0 && (c == NEWLINE || c == RETURN) {
          PutJoin(g, ed.echo, [NEWLINE], term.color);
          line[i] := 0;
          term.PutChar(NEWLINE);
          return Entered, i;
        }
        SessionStep(ed, keys, n, entered);
        i, esc, hptr := Press(c, line, i, esc, hptr, ed, g);
        ed := Pressed(ed, c, entered);
        n := n + 1;
      }
      outcome := BufferFull;
    }

    /** nexus_readline with a buffer of 256 bytes, for the keys that come while it runs. A line that
        ends by a key is returned with its NUL and remembered. A line that fills the buffer gets no
        NUL: unless the caller's last byte was 0, the slot it goes to has none either, and the ring
        is no longer sound. */
    method ReadLine(line: array<byte>, keys: seq<byte>) returns (outcome: Outcome, i: nat)
      requires Valid() && Beside(line) && line.Length == LINE_SIZE
      modifies line, term`row, term`column, term`grid, term.buffer, history, `count, `current, `entered
      ensures Apart() && term.Valid() && i < LINE_SIZE
      ensures var (ed, o) := Session(START, keys, old(entered));
              && o == outcome && line[..i] == ed.text && term.grid == PutAll(old(term.grid), ed.echo, term.color)
      ensures outcome == Entered ==> line[i] == 0 && Valid()
      ensures outcome == Waiting ==> Valid() && entered == old(entered)
      ensures outcome == BufferFull ==> i == LINE_SIZE - 1 && (Valid() <==> line[i] == 0)
      ensures line[LINE_SIZE - 1] == old(line[LINE_SIZE - 1])
      ensures outcome != Waiting ==> entered == if i == 0 then old(entered) else old(entered) + [line[..i]]
    {
      outcome, i := Edit(line, keys);
      if outcome != Waiting && i > 0 {
        Remember(line, i, line[..i]);
      }
    }
  }

  lemma RecalledLater(entered: seq<seq<byte>>, t: seq<byte>, k: nat)
    requires k < HISTORY_SIZE
    ensures Recalled(entered + [t], k) == if k == 1 then t else Recalled(entered, (k + 9) % HISTORY_SIZE)
  {
  }

  lemma SlotLater(current: nat, k: nat)
    requires current < HISTORY_SIZE && k < HISTORY_SIZE
    ensures var next := (current + 1) % HISTORY_SIZE;
            if k == 1 then SlotOf(next, k) == current
            else SlotOf(next, k) == SlotOf(current, (k + 9) % HISTORY_SIZE) && SlotOf(next, k) != current
  {
  }

  // ---------- clients ----------

  /** Recalling a line and entering it again. */
  method EnterRecalled(p: Prompt, line: array<byte>, k: nat) returns (outcome: Outcome, i: nat)
    requires p.Valid() && p.Beside(line) && line.Length == 256 && 1 <= k <= 10 && k <= |p.entered|
    modifies line, p.term`row, p.term`column, p.term`grid, p.term.buffer, p.history, p`count, p`current, p`entered
    ensures outcome == Entered && i < LINE_SIZE && line[..i] == Recent(old(p.entered), k) <==> Short(old(p.entered), k)
    ensures forall m | 0 < m <= k && Full(Recent(old(p.entered), m)) && Short(old(p.entered), m - 1) ::
              outcome == BufferFull && i < LINE_SIZE && line[..i] == Recent(old(p.entered), m)
  {
    UpsEnter(START, k, p.entered);
    if !Short(p.entered, k) {
      var m := FirstFull(p.entered, k);
    }
    outcome, i := p.ReadLine(line, Ups(k) + [NEWLINE]);
  }

  lemma LineTyped(t: seq<byte>, entered: seq<seq<byte>>)
    requires AllPrintable(t)
    ensures |t| < LINE_SIZE - 1 ==>
              var (ed, o) := Session(START, t + [NEWLINE], entered); o == Entered && ed.text == t
    ensures |t| == LINE_SIZE - 1 ==> var (ed, o) := Session(START, t, entered); o == BufferFull && ed.text == t
  {
    assert [] + t == t && t + [] == t;
    if |t| < LINE_SIZE {
      Typed(START, t, [], entered);
      Typed(START, t, [NEWLINE], entered);
    }
  }

  /** A line that fills the buffer hides the line before it: two Up keys bring up the later. */
  method HideOlder(term: Console, line: array<byte>, a: seq<byte>, b: seq<byte>) returns (outcome: Outcome, i: nat)
    requires term.Valid() && line.Length == 256 && line[255] == 0
    requires line as object != term && line as object != term.buffer as object
    requires AllPrintable(a) && AllPrintable(b) && 0 < |a| < 255 && |b| == 255
    modifies line, term`row, term`column, term`grid, term.buffer
    ensures outcome == BufferFull && i < LINE_SIZE && line[..i] == b
  {
    var p := new Prompt(term);
    LineTyped(a, []);
    outcome, i := p.ReadLine(line, a + [NEWLINE]);
    assert p.entered == [a];
    LineTyped(b, [a]);
    outcome, i := p.ReadLine(line, b);
    assert p.entered == [a, b];
    LongHidesOlder(a, b);
    outcome, i := p.ReadLine(line, Ups(2) + [NEWLINE]);
  }

  /** With another last byte in the caller's buffer, the slot of such a line is not terminated. */
  method Unterminated(term: Console, line: array<byte>, b: seq<byte>) returns (p: Prompt)
    requires term.Valid() && line.Length == 256 && line[255] != 0
    requires line as object != term && line as object != term.buffer as object
    requires AllPrintable(b) && |b| == 255
    modifies line, term`row, term`column, term`grid, term.buffer
    ensures fresh(p) && p.entered == [b] && p.Apart() && !p.Remembers()
  {
    p := new Prompt(term);
    LineTyped(b, []);
    var outcome, i := p.ReadLine(line, b);
  }
}
