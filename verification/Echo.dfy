/** What the line editor echoes leaves on the screen exactly the line being edited. */
module Echo {
  import opened ByteSeqs
  import opened Terminal
  import opened LineEditor

  /** Behind the place `p` where the editing began, the text, and then blanks or what was there;
      before it, what was there. The start is still on the screen. */
  ghost predicate Displays(was: Grid, g: Grid, t: seq<byte>, color: byte)
    requires was.Valid() && g.Valid()
  {
    var p := was.Here();
    && |t| < LINE_SIZE && g.Here() == p + |t| && VGA_WIDTH * g.top <= p && p + |t| < |g.cells|
    && g.cells[..p] == was.cells[..p]
    && (forall j | 0 <= j < |t| :: g.cells[p + j] == VgaEntry(t[j], color))
    && (forall j | p + |t| <= j < |g.cells| ::
          g.cells[j] == Blank(color) || (j < |was.cells| && g.cells[j] == was.cells[j]))
  }

  lemma PutShows(was: Grid, g: Grid, t: seq<byte>, c: byte, color: byte)
    requires was.Valid() && g.Valid() && Displays(was, g, t, color) && |t| < LINE_SIZE - 1 && Printable(c)
    ensures Displays(was, Put(g, c, color), t + [c], color)
  {
  }

  lemma EraseShows(was: Grid, g: Grid, t: seq<byte>, color: byte)
    requires was.Valid() && g.Valid() && Displays(was, g, t, color) && t != []
    ensures Displays(was, Put(g, BACKSPACE, color), t[..|t| - 1], color)
  {
  }

  lemma {:induction false} PutAllShows(was: Grid, g: Grid, t: seq<byte>, s: seq<byte>, color: byte)
    requires was.Valid() && g.Valid() && Displays(was, g, t, color) && |t| + |s| < LINE_SIZE && AllPrintable(s)
    ensures Displays(was, PutAll(g, s, color), t + s, color)
    decreases |s|
  {
    if s == [] {
      assert t + s == t;
    } else {
      PutShows(was, g, t, s[0], color);
      PutAllShows(was, Put(g, s[0], color), t + [s[0]], s[1..], color);
      assert t + [s[0]] + s[1..] == t + s;
    }
  }

  lemma {:induction false} EraseAllShows(was: Grid, g: Grid, t: seq<byte>, color: byte)
    requires was.Valid() && g.Valid() && Displays(was, g, t, color)
    ensures Displays(was, PutAll(g, Repeat(BACKSPACE, |t|), color), [], color)
    decreases |t|
  {
    if t == [] {
    } else {
      EraseShows(was, g, t, color);
      EraseAllShows(was, Put(g, BACKSPACE, color), t[..|t| - 1], color);
      assert Repeat(BACKSPACE, |t|)[1..] == Repeat(BACKSPACE, |t| - 1);
    }
  }

  ghost predicate GoodHistory(entered: seq<seq<byte>>) {
    forall k | 0 <= k < |entered| :: |entered[k]| < LINE_SIZE && AllPrintable(entered[k])
  }

  /** The screen shows the text after the echo so far. */
  ghost predicate InStep(was: Grid, e: Editor, color: byte)
    requires was.Valid()
  {
    Displays(was, PutAll(was, e.echo, color), e.text, color) && AllPrintable(e.text)
  }

  lemma ReplacedInStep(was: Grid, e: Editor, t: seq<byte>, back: nat, color: byte)
    requires was.Valid() && InStep(was, e, color) && |t| < LINE_SIZE && AllPrintable(t)
    ensures InStep(was, Replaced(e, t, back), color)
  {
    var g := PutAll(was, e.echo, color);
    var erase := Repeat(BACKSPACE, |e.text|);
    PutJoin(was, e.echo, erase, color);
    PutJoin(was, e.echo + erase, t, color);
    EraseAllShows(was, g, e.text, color);
    PutAllShows(was, PutAll(g, erase, color), [], t, color);
    assert [] + t == t;
  }

  lemma PlainInStep(was: Grid, e: Editor, c: byte, entered: seq<seq<byte>>, color: byte)
    requires was.Valid() && InStep(was, e, color) && |e.text| < LINE_SIZE - 1 && e.esc == 0
    ensures InStep(was, Pressed(e, c, entered), color)
  {
    var g := PutAll(was, e.echo, color);
    if c == ESC {
    } else if (c == BACKSPACE || c == DELETE) && e.text != [] {
      PutJoin(was, e.echo, [BACKSPACE], color);
      assert PutAll(g, [BACKSPACE], color) == Put(g, BACKSPACE, color);
      EraseShows(was, g, e.text, color);
    } else if Printable(c) {
      PutJoin(was, e.echo, [c], color);
      assert PutAll(g, [c], color) == Put(g, c, color);
      PutShows(was, g, e.text, c, color);
    }
  }

  lemma UpInStep(was: Grid, e: Editor, entered: seq<seq<byte>>, color: byte)
    requires was.Valid() && InStep(was, e, color) && GoodHistory(entered) && e.esc > 1
    ensures InStep(was, Pressed(e, UP, entered), color)
  {
    if entered != [] {
      var b := (e.back + 1) % HISTORY_SIZE;
      assert Pressed(e, UP, entered) == Replaced(e, Recalled(entered, b), b);
      ReplacedInStep(was, e, Recalled(entered, b), b, color);
    }
  }

  lemma DownInStep(was: Grid, e: Editor, entered: seq<seq<byte>>, color: byte)
    requires was.Valid() && InStep(was, e, color) && GoodHistory(entered) && e.esc > 1
    ensures InStep(was, Pressed(e, DOWN, entered), color)
  {
    if entered == [] {
      ReplacedInStep(was, e, [], e.back, color);
    } else {
      var b := (e.back + 9) % HISTORY_SIZE;
      assert Pressed(e, DOWN, entered) == Replaced(e, Recalled(entered, b), b);
      ReplacedInStep(was, e, Recalled(entered, b), b, color);
    }
  }

  lemma PressedInStep(was: Grid, e: Editor, c: byte, entered: seq<seq<byte>>, color: byte)
    requires was.Valid() && InStep(was, e, color) && |e.text| < LINE_SIZE - 1 && GoodHistory(entered)
    ensures InStep(was, Pressed(e, c, entered), color)
  {
    if e.esc == 0 {
      PlainInStep(was, e, c, entered, color);
    } else if e.esc > 1 && c == UP {
      UpInStep(was, e, entered, color);
    } else if e.esc > 1 && c == DOWN {
      DownInStep(was, e, entered, color);
    } else {
      assert Pressed(e, c, entered).echo == e.echo && Pressed(e, c, entered).text == e.text;
    }
  }

  lemma {:induction false} SessionInStep(was: Grid, e: Editor, keys: seq<byte>, entered: seq<seq<byte>>, color: byte)
    requires was.Valid() && InStep(was, e, color) && GoodHistory(entered)
    ensures var (ed, o) := Session(e, keys, entered);
            if o == Entered then ed.echo != [] && InStep(was, ed.(echo := ed.echo[..|ed.echo| - 1]), color)
            else InStep(was, ed, color)
    decreases |keys|
  {
    if |e.text| < LINE_SIZE - 1 && keys != [] {
      if Ends(e, keys[0]) {
        assert (e.echo + [NEWLINE])[..|e.echo|] == e.echo;
      } else {
        PressedInStep(was, e, keys[0], entered, color);
        SessionInStep(was, Pressed(e, keys[0], entered), keys[1..], entered, color);
      }
    }
  }

  /** Whatever keys were pressed, the screen shows the prompt, then the text as it is now, and
      nothing else of the editing: up to the end of the line or of the keys so far, and over any
      wrapping and scrolling. The cursor stands behind the text. */
  lemma ScreenShowsLine(was: Grid, keys: seq<byte>, entered: seq<seq<byte>>, color: byte)
    requires was.Valid() && GoodHistory(entered)
    ensures var (ed, o) := Session(START, keys, entered);
            if o == Entered then
              ed.echo != [] && Displays(was, PutAll(was, ed.echo[..|ed.echo| - 1], color), ed.text, color)
            else Displays(was, PutAll(was, ed.echo, color), ed.text, color)
  {
    assert InStep(was, START, color);
    SessionInStep(was, START, keys, entered, color);
  }
}
