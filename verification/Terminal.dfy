/** The text terminal: a screen of 25 rows of 80 cells that scrolls over a text without end. */
module Terminal {
  import opened ByteSeqs
  type Entry = bv16

  const VGA_WIDTH := 80
  const VGA_HEIGHT := 25
  const SCREEN := 2000
  const LAST_ROW := 1920

  const NEWLINE: byte := 0x0a
  const RETURN: byte := 0x0d
  const TAB: byte := 0x09
  const BACKSPACE: byte := 0x08
  const SPACE: byte := 0x20

  /** vga_entry */
  function VgaEntry(c: byte, color: byte): Entry { (c as bv16) | ((color as bv16) << 8) }

  // ---------- the text without end ----------

  /** All rows that there have been, one after the other, each of 80 cells; the last 25 are on the
      screen, and `top` is the first of them. The cursor counts rows from the beginning. */
  datatype Grid = Grid(top: nat, cells: seq<Entry>, row: nat, col: nat) {
    ghost predicate Sound() {
      |cells| == VGA_WIDTH * (top + VGA_HEIGHT) && row < top + VGA_HEIGHT && col < VGA_WIDTH
    }

    /** The cursor is on the screen. */
    ghost predicate Valid() { Sound() && top <= row }

    function Here(): nat { VGA_WIDTH * row + col }
  }

  ghost function Screen(g: Grid): (s: seq<Entry>)
    requires g.Sound()
    ensures |s| == SCREEN
  {
    g.cells[VGA_WIDTH * g.top..]
  }

  function Blank(color: byte): Entry { VgaEntry(SPACE, color) }

  function BlankRow(color: byte): (r: seq<Entry>)
    ensures |r| == VGA_WIDTH
  {
    seq(VGA_WIDTH, i => Blank(color))
  }

  /** The screen after terminal_clear. */
  function Cleared(color: byte): Grid { Grid(0, seq(SCREEN, i => Blank(color)), 0, 0) }

  /** The cursor goes to the start of the next row, which may have to be added. */
  function NextRow(g: Grid, color: byte): (h: Grid)
    requires g.Sound()
    ensures h.Sound() && h.row == g.row + 1 && h.col == 0 && (g.Valid() ==> h.Valid())
  {
    if g.row + 1 < g.top + VGA_HEIGHT then g.(row := g.row + 1, col := 0)
    else Grid(g.top + 1, g.cells + BlankRow(color), g.row + 1, 0)
  }

  function TabStop(col: nat): nat { (col + 4) / 4 * 4 }

  /** One step back, over a row's end too, but not before the row `edge`. */
  function Erased(g: Grid, color: byte, edge: nat): (h: Grid)
    requires g.Sound() && edge <= g.row
    ensures h.Sound() && edge <= h.row && h.top == g.top
  {
    if g.col > 0 then g.(cells := g.cells[g.Here() - 1 := Blank(color)], col := g.col - 1)
    else if g.row > edge then g.(cells := g.cells[g.Here() - 1 := Blank(color)], row := g.row - 1, col := VGA_WIDTH - 1)
    else g
  }

  function Written(g: Grid, c: byte, color: byte): (h: Grid)
    requires g.Sound()
    ensures h.Sound() && (g.Valid() ==> h.Valid()) && g.row <= h.row
  {
    var h := g.(cells := g.cells[g.Here() := VgaEntry(c, color)]);
    if g.col + 1 == VGA_WIDTH then NextRow(h, color) else h.(col := g.col + 1)
  }

  function Typed(g: Grid, c: byte, color: byte, edge: nat): (h: Grid)
    requires g.Sound() && edge <= g.row
    ensures h.Sound() && edge <= h.row && (g.Valid() && edge == g.top ==> h.Valid())
  {
    if c == NEWLINE then NextRow(g, color)
    else if c == RETURN then g.(col := 0)
    else if c == TAB then if TabStop(g.col) >= VGA_WIDTH then NextRow(g, color) else g.(col := TabStop(g.col))
    else if c == BACKSPACE then Erased(g, color, edge)
    else Written(g, c, color)
  }

  /** What the terminal does: it knows no more than its screen. */
  function Put(g: Grid, c: byte, color: byte): (h: Grid)
    requires g.Valid()
    ensures h.Valid()
  {
    Typed(g, c, color, g.top)
  }

  function PutAll(g: Grid, s: seq<byte>, color: byte): (h: Grid)
    requires g.Valid()
    ensures h.Valid()
    decreases |s|
  {
    if s == [] then g else PutAll(Put(g, s[0], color), s[1..], color)
  }

  function Repeat(c: byte, n: nat): (s: seq<byte>)
    ensures |s| == n
  {
    seq(n, i => c)
  }

  lemma {:induction false} PutJoin(g: Grid, s: seq<byte>, t: seq<byte>, color: byte)
    requires g.Valid()
    ensures PutAll(g, s + t, color) == PutAll(PutAll(g, s, color), t, color)
    decreases |s|
  {
    if s == [] {
      assert s + t == t;
    } else {
      assert (s + t)[1..] == s[1..] + t;
      PutJoin(Put(g, s[0], color), s[1..], t, color);
    }
  }

  // ---------- characters by their codes ----------

  /** A cell: the character in the low byte, the colour in the high one. */
  predicate CellIs(e: Entry, c: byte, color: byte) { e & 0xff == c as bv16 && e >> 8 == color as bv16 }

  lemma EntryIs(c: byte, color: byte)
    ensures CellIs(VgaEntry(c, color), c, color)
  {
  }

  predicate Moving(c: byte) { c == 0x08 || c == 0x09 || c == 0x0a || c == 0x0d }

  /** The cursor as a place in the text: a newline takes it to the start of the next row, a return to
      the start of its row, a tab to the next multiple of four, a backspace one back, but not above the
      screen, any other character one on. */
  lemma CursorGoes(g: Grid, c: byte, color: byte)
    requires g.Valid()
    ensures var h := Put(g, c, color);
            var at, to := 80 * g.row + g.col, 80 * h.row + h.col;
            && (c == 0x0a ==> to == 80 * (g.row + 1))
            && (c == 0x0d ==> to == 80 * g.row)
            && (c == 0x09 ==> to % 4 == 0 && at < to <= at + 4)
            && (c == 0x08 ==> to == if at > 80 * g.top then at - 1 else at)
            && (!Moving(c) ==> to == at + 1)
            && h.top == (if h.row == g.top + 25 then g.top + 1 else g.top) && h.top <= h.row < h.top + 25
  {
    if c == 0x09 { NextFour(g.row, g.col); }
  }

  lemma NextFour(row: nat, col: nat)
    ensures col < TabStop(col) <= col + 4 && 80 * row % 4 == 0 && (80 * row + TabStop(col)) % 4 == 0
  {
    Fours(20 * row);
    Fours((col + 4) / 4);
    SumOfFours(80 * row, TabStop(col));
  }

  lemma Fours(n: nat)
    ensures 4 * n % 4 == 0
  {
  }

  lemma SumOfFours(a: nat, b: nat)
    requires a % 4 == 0 && b % 4 == 0
    ensures (a + b) % 4 == 0
  {
  }

  /** The cells: a character is stored at the cursor, a backspace that moves leaves a space behind, a new
      row is blank, and all other cells stay. */
  lemma CellsBecome(g: Grid, c: byte, color: byte, k: nat)
    requires g.Valid()
    ensures var h := Put(g, c, color);
            var at, to := 80 * g.row + g.col, 80 * h.row + h.col;
            |h.cells| == 80 * (h.top + 25) &&
            (k < |h.cells| ==>
               if k >= |g.cells| then CellIs(h.cells[k], 0x20, color)
               else if !Moving(c) && k == at then CellIs(h.cells[k], c, color)
               else if c == 0x08 && to < at && k == to then CellIs(h.cells[k], 0x20, color)
               else h.cells[k] == g.cells[k])
  {
    EntryIs(c, color);
    EntryIs(0x20, color);
  }

  /** The cleared screen. */
  lemma ClearedIs(color: byte, k: nat)
    ensures var g := Cleared(color);
            g.top == g.row == g.col == 0 && |g.cells| == 25 * 80 && (k < 25 * 80 ==> CellIs(g.cells[k], 0x20, color))
  {
    EntryIs(0x20, color);
  }

  // ---------- against a text that backspace can walk back through ----------

  function TypedAll(g: Grid, s: seq<byte>, color: byte): (h: Grid)
    requires g.Sound()
    ensures h.Sound()
    decreases |s|
  {
    if s == [] then g else TypedAll(Typed(g, s[0], color, 0), s[1..], color)
  }

  /** A backspace at the screen's first cell, with text above it. */
  predicate Stuck(g: Grid, c: byte) { c == BACKSPACE && g.col == 0 && g.row == g.top && g.top > 0 }

  /** For one character the screen does what the whole text would, unless a backspace would leave
      the screen at its top. */
  lemma StepIsTyped(g: Grid, c: byte, color: byte)
    requires g.Valid()
    ensures Put(g, c, color) == Typed(g, c, color, 0) <==> !Stuck(g, c)
  {
  }

  predicate NeverStuck(g: Grid, s: seq<byte>, color: byte)
    requires g.Valid()
    decreases |s|
  {
    s == [] || (!Stuck(g, s[0]) && NeverStuck(Put(g, s[0], color), s[1..], color))
  }

  lemma {:induction false} ScreenIsLastRows(g: Grid, s: seq<byte>, color: byte)
    requires g.Valid() && NeverStuck(g, s, color)
    ensures PutAll(g, s, color) == TypedAll(g, s, color)
    decreases |s|
  {
    if s != [] {
      StepIsTyped(g, s[0], color);
      ScreenIsLastRows(Put(g, s[0], color), s[1..], color);
    }
  }

  lemma PutOneMore(g: Grid, c: byte, n: nat, color: byte)
    requires g.Valid()
    ensures PutAll(g, Repeat(c, n + 1), color) == Put(PutAll(g, Repeat(c, n), color), c, color)
  {
    assert Repeat(c, n + 1) == Repeat(c, n) + [c];
    PutJoin(g, Repeat(c, n), [c], color);
    var h := PutAll(g, Repeat(c, n), color);
    assert [c][1..] == [] && PutAll(h, [c], color) == Put(h, c, color);
  }

  lemma {:induction false} NewlinesGoDown(n: nat, color: byte)
    ensures var g := PutAll(Cleared(color), Repeat(NEWLINE, n), color);
            g.row == n && g.col == 0 && g.top == if n < VGA_HEIGHT then 0 else n + 1 - VGA_HEIGHT
  {
    if n > 0 {
      NewlinesGoDown(n - 1, color);
      PutOneMore(Cleared(color), NEWLINE, n - 1, color);
    }
  }

  lemma {:induction false} BackspacesGoBack(g: Grid, n: nat, color: byte)
    requires g.Valid() && VGA_WIDTH * g.top + n <= g.Here()
    ensures var h := PutAll(g, Repeat(BACKSPACE, n), color); h.top == g.top && h.Here() == g.Here() - n
    decreases n
  {
    if n > 0 {
      BackspacesGoBack(g, n - 1, color);
      PutOneMore(g, BACKSPACE, n - 1, color);
    }
  }

  /** 25 newlines and as many backspaces as the screen has cells above its last row: the next
      backspace stays where the whole text would go on. */
  lemma StuckAtTop(color: byte)
    ensures var g := PutAll(Cleared(color), Repeat(NEWLINE, VGA_HEIGHT) + Repeat(BACKSPACE, LAST_ROW), color);
            Stuck(g, BACKSPACE) && Put(g, BACKSPACE, color) == g && Typed(g, BACKSPACE, color, 0).row < g.row
  {
    var g := PutAll(Cleared(color), Repeat(NEWLINE, VGA_HEIGHT), color);
    NewlinesGoDown(VGA_HEIGHT, color);
    BackspacesGoBack(g, LAST_ROW, color);
    PutJoin(Cleared(color), Repeat(NEWLINE, VGA_HEIGHT), Repeat(BACKSPACE, LAST_ROW), color);
  }

  // ---------- raw and cooked ----------

  /** mp_hal_stdout_tx_strn_cooked */
  function Cooked(s: seq<byte>): seq<byte> {
    if s == [] then [] else (if s[0] == NEWLINE then [RETURN, NEWLINE] else [s[0]]) + Cooked(s[1..])
  }

  /** The return before a newline changes nothing that is left afterwards. */
  lemma {:induction false} CookedLooksRaw(g: Grid, s: seq<byte>, color: byte)
    requires g.Valid()
    ensures PutAll(g, Cooked(s), color) == PutAll(g, s, color)
    decreases |s|
  {
    if s != [] {
      var first := if s[0] == NEWLINE then [RETURN, NEWLINE] else [s[0]];
      PutJoin(g, first, Cooked(s[1..]), color);
      assert PutAll(g, first, color) == Put(g, s[0], color) by {
        if s[0] == NEWLINE {
          var h := Put(g, RETURN, color);
          assert first[1..] == [NEWLINE] && [NEWLINE][1..] == [];
          assert PutAll(h, [NEWLINE], color) == Put(h, NEWLINE, color);
        }
      }
      CookedLooksRaw(Put(g, s[0], color), s[1..], color);
    }
  }

  // ---------- the terminal ----------

  class Console {
    const buffer: array<Entry>
    var row: nat
    var column: nat
    var color: byte
    /** the text so far, of which the screen is the end */
    ghost var grid: Grid

    ghost predicate Valid()
      reads this, buffer
    {
      && buffer.Length == SCREEN && grid.Valid()
      && buffer[..] == Screen(grid) && row == grid.row - grid.top && column == grid.col
      && row < VGA_HEIGHT && column < VGA_WIDTH
    }

    constructor (buffer: array<Entry>, color: byte)
      requires buffer.Length == SCREEN
      ensures this.buffer == buffer && this.color == color && buffer[..] == old(buffer[..]) && row == 0 && column == 0
    {
      this.buffer, this.color := buffer, color;
      row, column := 0, 0;
    }

    /** terminal_clear, which starts a new text */
    method Clear()
      requires buffer.Length == SCREEN
      modifies `row, `column, `grid, buffer
      ensures Valid() && grid == Cleared(color)
    {
      for y := 0 to VGA_HEIGHT
        invariant forall k | 0 <= k < VGA_WIDTH * y :: buffer[k] == Blank(color)
      {
        for x := 0 to VGA_WIDTH
          invariant forall k | 0 <= k < VGA_WIDTH * y + x :: buffer[k] == Blank(color)
        {
          buffer[y * VGA_WIDTH + x] := VgaEntry(SPACE, color);
        }
      }
      row, column := 0, 0;
      grid := Cleared(color);
      assert buffer[..] == Screen(grid);
    }

    /** The rows move up. */
    method MoveRows()
      requires buffer.Length == SCREEN
      modifies buffer
      ensures buffer[..LAST_ROW] == old(buffer[VGA_WIDTH..])
    {
      for y := 0 to VGA_HEIGHT - 1
        invariant forall k | 0 <= k < VGA_WIDTH * y :: buffer[k] == old(buffer[k + VGA_WIDTH])
        invariant forall k | VGA_WIDTH * y <= k < SCREEN :: buffer[k] == old(buffer[k])
      {
        MoveRow(y);
      }
    }

    /** One row moves up. */
    method MoveRow(y: nat)
      requires buffer.Length == SCREEN && y < VGA_HEIGHT - 1
      modifies buffer
      ensures forall k | 0 <= k < SCREEN ::
                buffer[k] == if VGA_WIDTH * y <= k < VGA_WIDTH * y + VGA_WIDTH then old(buffer[k + VGA_WIDTH])
                else old(buffer[k])
    {
      for x := 0 to VGA_WIDTH
        invariant forall k | VGA_WIDTH * y <= k < VGA_WIDTH * y + x :: buffer[k] == old(buffer[k + VGA_WIDTH])
        invariant forall k | 0 <= k < VGA_WIDTH * y || VGA_WIDTH * y + x <= k < SCREEN :: buffer[k] == old(buffer[k])
      {
        buffer[y * VGA_WIDTH + x] := buffer[(y + 1) * VGA_WIDTH + x];
      }
    }

    /** terminal_scroll */
    method Scroll()
      requires buffer.Length == SCREEN
      modifies buffer
      ensures buffer[..] == old(buffer[VGA_WIDTH..]) + BlankRow(color)
    {
      MoveRows();
      ghost var moved := buffer[..LAST_ROW];
      for x := 0 to VGA_WIDTH
        invariant buffer[..LAST_ROW] == moved
        invariant forall k | LAST_ROW <= k < LAST_ROW + x :: buffer[k] == Blank(color)
      {
        buffer[(VGA_HEIGHT - 1) * VGA_WIDTH + x] := VgaEntry(SPACE, color);
      }
      assert buffer[LAST_ROW..] == BlankRow(color);
      assert buffer[..] == buffer[..LAST_ROW] + buffer[LAST_ROW..];
    }

    /** The buffer and the cursor are those of `g`. */
    ghost predicate Shows(g: Grid)
      requires g.Valid()
      reads this, buffer
    {
      buffer.Length == SCREEN && buffer[..] == Screen(g) && row == g.row - g.top && column == g.col
    }

    /** terminal_putentryat */
    method PutEntryAt(c: byte, x: nat, y: nat, ghost g: Grid)
      requires buffer.Length == SCREEN && x < VGA_WIDTH && y < VGA_HEIGHT && g.Valid() && buffer[..] == Screen(g)
      modifies buffer
      ensures var p := VGA_WIDTH * (g.top + y) + x;
              g.(cells := g.cells[p := VgaEntry(c, color)]).Valid()
              && buffer[..] == Screen(g.(cells := g.cells[p := VgaEntry(c, color)]))
    {
      buffer[y * VGA_WIDTH + x] := VgaEntry(c, color);
    }

    /** The end of terminal_putchar: a cursor below the screen scrolls it. */
    method Settle(ghost g: Grid)
      requires g.Valid() && buffer.Length == SCREEN && buffer[..] == Screen(g)
      requires row == g.row + 1 - g.top && column == 0
      modifies `row, buffer
      ensures Shows(NextRow(g, color))
    {
      if row >= VGA_HEIGHT {
        Scroll();
        ScreenScrolls(g, color);
        row := VGA_HEIGHT - 1;
      }
    }

    /** The backspace of terminal_putchar. */
    method PutBackspace()
      requires Valid()
      modifies `row, `column, `grid, buffer
      ensures Valid() && grid == Put(old(grid), BACKSPACE, color)
    {
      ghost var g := grid;
      grid := Put(g, BACKSPACE, color);
      if column > 0 {
        column := column - 1;
        PutEntryAt(SPACE, column, row, g);
      } else if row > 0 {
        row := row - 1;
        column := VGA_WIDTH - 1;
        PutEntryAt(SPACE, column, row, g);
      }
    }

    /** Any other character of terminal_putchar. */
    method PutVisible(c: byte)
      requires Valid()
      modifies `row, `column, `grid, buffer
      ensures Valid() && grid == Written(old(grid), c, color)
    {
      ghost var g := grid;
      ghost var h := g.(cells := g.cells[g.Here() := VgaEntry(c, color)]);
      grid := Written(g, c, color);
      PutEntryAt(c, column, row, g);
      column := column + 1;
      if column == VGA_WIDTH {
        column := 0;
        row := row + 1;
        Settle(h);
      } else {
        SameScreen(h, grid);
      }
    }

    /** terminal_putchar */
    method PutChar(c: byte)
      requires Valid()
      modifies `row, `column, `grid, buffer
      ensures Valid() && grid == Put(old(grid), c, color)
    {
      ghost var g := grid;
      if c == NEWLINE {
        grid := NextRow(g, color);
        column := 0;
        row := row + 1;
        Settle(g);
      } else if c == RETURN {
        grid := g.(col := 0);
        column := 0;
      } else if c == TAB {
        grid := Put(g, TAB, color);
        column := (column + 4) / 4 * 4;
        if column >= VGA_WIDTH {
          column := 0;
          row := row + 1;
          Settle(g);
        }
      } else if c == BACKSPACE {
        PutBackspace();
      } else {
        PutVisible(c);
      }
    }

    /** terminal_write */
    method Write(s: seq<byte>)
      requires Valid()
      modifies `row, `column, `grid, buffer
      ensures Valid() && grid == PutAll(old(grid), s, color)
    {
      for i := 0 to |s|
        invariant Valid() && PutAll(grid, s[i..], color) == PutAll(old(grid), s, color)
      {
        assert s[i..][1..] == s[i + 1..];
        PutChar(s[i]);
      }
    }

    /** mp_hal_stdout_tx_strn_cooked: the same screen as `Write` leaves. */
    method WriteCooked(s: seq<byte>)
      requires Valid()
      modifies `row, `column, `grid, buffer
      ensures Valid() && grid == PutAll(old(grid), s, color)
    {
      for i := 0 to |s|
        invariant Valid() && PutAll(grid, Cooked(s[i..]), color) == PutAll(old(grid), Cooked(s), color)
      {
        assert s[i..][1..] == s[i + 1..];
        ghost var rest := Cooked(s[i + 1..]);
        if s[i] == NEWLINE {
          assert ([RETURN, NEWLINE] + rest)[1..] == [NEWLINE] + rest && ([NEWLINE] + rest)[1..] == rest;
          PutChar(RETURN);
        } else {
          assert ([s[i]] + rest)[1..] == rest;
        }
        PutChar(s[i]);
      }
      CookedLooksRaw(old(grid), s, color);
    }
  }

  lemma SameScreen(g: Grid, h: Grid)
    requires g.Sound() && h.Sound() && g.cells == h.cells && g.top == h.top
    ensures Screen(g) == Screen(h)
  {
  }

  lemma ScreenScrolls(g: Grid, color: byte)
    requires g.Valid() && g.row + 1 == g.top + VGA_HEIGHT
    ensures Screen(NextRow(g, color)) == Screen(g)[VGA_WIDTH..] + BlankRow(color)
  {
  }
}
