/** Moving pixels: scrolling a picture within itself, and blitting one picture onto another. */
module Copies {
  import opened Pixels
  import opened FrameBuffers

  // ---------- scroll ----------

  /** The pixel is visible and so is the one it is copied from. */
  predicate Moves(g: Layout, xstep: int, ystep: int, x: int, y: int) {
    Visible(g, x, y) && Visible(g, x - xstep, y - ystep)
  }

  /** The pixels of `done` show what `s` showed one step away; the others are unchanged. */
  ghost predicate Shifted(g: Layout, s: seq<bv8>, t: seq<bv8>, xstep: int, ystep: int, done: Region)
    requires Sound(g) && BytesNeeded(g) <= |s|
  {
    && |t| == |s|
    && (forall i, j {:trigger Pixel(g, t, i, j)} | Stored(g, i, j) ::
          Pixel(g, t, i, j) ==
            if Moves(g, xstep, ystep, i, j) && (i, j) in done
            then Pixel(g, s, i - xstep, j - ystep) else Pixel(g, s, i, j))
    && t[BytesNeeded(g)..] == s[BytesNeeded(g)..]
  }

  ghost function Everywhere(): Region { iset i: int, j: int | true :: (i, j) }

  /** A simultaneous copy: every pixel whose source is in range gets the old value there. */
  ghost predicate Scrolled(g: Layout, s: seq<bv8>, t: seq<bv8>, xstep: int, ystep: int)
    requires Sound(g) && BytesNeeded(g) <= |s|
  {
    Shifted(g, s, t, xstep, ystep, Everywhere())
  }

  /** Pixels already visited by the scan when it stands at (x, y). */
  predicate Before(dx: int, dy: int, x: int, y: int, i: int, j: int) {
    (if dy > 0 then j < y else j > y) || (j == y && if dx > 0 then i < x else i > x)
  }

  /** The pixels moved so far. */
  ghost function Done(g: Layout, xstep: int, ystep: int, dx: int, dy: int, x: int, y: int): Region {
    iset i, j | Moves(g, xstep, ystep, i, j) && Before(dx, dy, x, y, i, j) :: (i, j)
  }

  lemma ShiftOne(g: Layout, s: seq<bv8>, t: seq<bv8>, u: seq<bv8>, xstep: int, ystep: int, done: Region, x: int, y: int)
    requires Sound(g) && BytesNeeded(g) <= |s| && Moves(g, xstep, ystep, x, y)
    requires Shifted(g, s, t, xstep, ystep, done) && (x - xstep, y - ystep) !in done
    requires Painted(g, t, u, Dot(x, y), Pixel(g, t, x - xstep, y - ystep))
    ensures Shifted(g, s, u, xstep, ystep, done + Dot(x, y))
  {
    PixelDepth(g, t, x - xstep, y - ystep);
  }

  lemma PixelDepth(g: Layout, s: seq<bv8>, x: nat, y: nat)
    requires Sound(g) && BytesNeeded(g) <= |s| && Stored(g, x, y)
    ensures Depth(g.format, Pixel(g, s, x, y)) == Pixel(g, s, x, y)
  {
    CellInside(g, x, y);
    LoadDepth(g.format, s, Cell(g, x, y));
  }

  lemma SameShift(g: Layout, s: seq<bv8>, t: seq<bv8>, xstep: int, ystep: int, done: Region, all: Region)
    requires Sound(g) && BytesNeeded(g) <= |s| && Shifted(g, s, t, xstep, ystep, done)
    requires forall i, j | Moves(g, xstep, ystep, i, j) :: (i, j) in done <==> (i, j) in all
    ensures Shifted(g, s, t, xstep, ystep, all)
  {
  }

  predicate Directed(xstep: int, ystep: int, dx: int, dy: int) {
    dx == (if xstep < 0 then 1 else -1) && dy == (if ystep < 0 then 1 else -1)
  }

  /** The scan direction keeps the source of the next pixel unvisited. */
  lemma SourceAhead(g: Layout, xstep: int, ystep: int, dx: int, dy: int, x: int, y: int)
    requires Directed(xstep, ystep, dx, dy)
    ensures (x - xstep, y - ystep) !in Done(g, xstep, ystep, dx, dy, x, y)
  {
  }

  lemma DoneOne(g: Layout, xstep: int, ystep: int, dx: int, dy: int, x: int, y: int)
    requires Moves(g, xstep, ystep, x, y) && dx in {-1, 1} && dy in {-1, 1}
    ensures Done(g, xstep, ystep, dx, dy, x, y) + Dot(x, y) == Done(g, xstep, ystep, dx, dy, x + dx, y)
  {
  }

  /** The columns of a row that are moved are those from `sx` up to before `xend`. */
  ghost predicate Sweep(g: Layout, xstep: int, sx: int, xend: int) {
    if xstep < 0 then sx == 0 && xend == g.width + xstep && 0 < xend
    else sx == g.width - 1 && xend == xstep - 1 && xend < sx
  }

  lemma DoneRow(g: Layout, xstep: int, ystep: int, dx: int, dy: int, sx: int, xend: int, y: int)
    requires Directed(xstep, ystep, dx, dy) && Sweep(g, xstep, sx, xend)
    ensures Done(g, xstep, ystep, dx, dy, xend, y) == Done(g, xstep, ystep, dx, dy, sx, y + dy)
  {
  }

  /** The body of both loops of framebuf_scroll. */
  method ScrollPixel(fb: FrameBuffer, ghost s: seq<bv8>, x: nat, y: nat, xstep: int, ystep: int, ghost dx: int,
                     ghost dy: int)
    requires fb.Valid() && |s| == fb.buf.Length && Directed(xstep, ystep, dx, dy)
    requires Moves(fb.Geometry(), xstep, ystep, x, y)
    requires Shifted(fb.Geometry(), s, fb.buf[..], xstep, ystep, Done(fb.Geometry(), xstep, ystep, dx, dy, x, y))
    modifies fb.buf
    ensures Shifted(fb.Geometry(), s, fb.buf[..], xstep, ystep, Done(fb.Geometry(), xstep, ystep, dx, dy, x + dx, y))
  {
    ghost var t, g := fb.buf[..], fb.Geometry();
    var p := fb.GetPixel(x - xstep, y - ystep);
    fb.SetPixel(x, y, p);
    SourceAhead(g, xstep, ystep, dx, dy, x, y);
    ShiftOne(g, s, t, fb.buf[..], xstep, ystep, Done(g, xstep, ystep, dx, dy, x, y), x, y);
    DoneOne(g, xstep, ystep, dx, dy, x, y);
  }

  method ScrollRow(fb: FrameBuffer, ghost s: seq<bv8>, xstep: int, ystep: int, y: int,
                   sx: int, xend: int, dx: int, ghost dy: int)
    requires fb.Valid() && |s| == fb.buf.Length && Directed(xstep, ystep, dx, dy)
    requires 0 <= y < fb.height && 0 <= y - ystep < fb.height && Sweep(fb.Geometry(), xstep, sx, xend)
    requires Shifted(fb.Geometry(), s, fb.buf[..], xstep, ystep, Done(fb.Geometry(), xstep, ystep, dx, dy, sx, y))
    modifies fb.buf
    ensures Shifted(fb.Geometry(), s, fb.buf[..], xstep, ystep, Done(fb.Geometry(), xstep, ystep, dx, dy, xend, y))
  {
    ghost var g := fb.Geometry();
    var x := sx;
    while x != xend
      invariant if xstep < 0 then 0 <= x <= xend else xend <= x <= sx
      invariant Shifted(g, s, fb.buf[..], xstep, ystep, Done(g, xstep, ystep, dx, dy, x, y))
      decreases if xstep < 0 then xend - x else x - xend
    {
      ScrollPixel(fb, s, x, y, xstep, ystep, dx, dy);
      x := x + dx;
    }
  }

  lemma NothingMoves(g: Layout, s: seq<bv8>, xstep: int, ystep: int)
    requires Sound(g) && BytesNeeded(g) <= |s|
    requires xstep + g.width <= 0 || g.width <= xstep || ystep + g.height <= 0 || g.height <= ystep
    ensures Scrolled(g, s, s, xstep, ystep)
  {
  }

  lemma ScrollStarts(g: Layout, s: seq<bv8>, xstep: int, ystep: int, dx: int, dy: int, sx: int, y: int)
    requires Sound(g) && BytesNeeded(g) <= |s| && Directed(xstep, ystep, dx, dy)
    requires sx == (if xstep < 0 then 0 else g.width - 1) && y == (if ystep < 0 then 0 else g.height - 1)
    ensures Shifted(g, s, s, xstep, ystep, Done(g, xstep, ystep, dx, dy, sx, y))
  {
  }

  lemma ScrollEnds(g: Layout, s: seq<bv8>, t: seq<bv8>, xstep: int, ystep: int, dx: int, dy: int, sx: int, yend: int)
    requires Sound(g) && BytesNeeded(g) <= |s| && Directed(xstep, ystep, dx, dy)
    requires yend == if ystep < 0 then g.height + ystep else ystep - 1
    requires Shifted(g, s, t, xstep, ystep, Done(g, xstep, ystep, dx, dy, sx, yend))
    ensures Scrolled(g, s, t, xstep, ystep)
  {
    SameShift(g, s, t, xstep, ystep, Done(g, xstep, ystep, dx, dy, sx, yend), Everywhere());
  }

  /** framebuf_scroll: in place, any step. */
  method Scroll(fb: FrameBuffer, xstep: int, ystep: int)
    requires fb.Valid()
    modifies fb.buf
    ensures Scrolled(fb.Geometry(), old(fb.buf[..]), fb.buf[..], xstep, ystep)
  {
    ghost var s, g := fb.buf[..], fb.Geometry();
    var sx, y, xend, yend, dx, dy;
    if xstep < 0 {
      sx := 0;
      xend := fb.width + xstep;
      if xend <= 0 { NothingMoves(g, s, xstep, ystep); return; }
      dx := 1;
    } else {
      sx := fb.width - 1;
      xend := xstep - 1;
      if xend >= sx { NothingMoves(g, s, xstep, ystep); return; }
      dx := -1;
    }
    if ystep < 0 {
      y := 0;
      yend := fb.height + ystep;
      if yend <= 0 { NothingMoves(g, s, xstep, ystep); return; }
      dy := 1;
    } else {
      y := fb.height - 1;
      yend := ystep - 1;
      if yend >= y { NothingMoves(g, s, xstep, ystep); return; }
      dy := -1;
    }
    ScrollStarts(g, s, xstep, ystep, dx, dy, sx, y);
    ScrollRows(fb, s, xstep, ystep, y, yend, sx, xend, dx, dy);
    ScrollEnds(g, s, fb.buf[..], xstep, ystep, dx, dy, sx, yend);
  }

  /** The outer loop of framebuf_scroll. */
  method ScrollRows(fb: FrameBuffer, ghost s: seq<bv8>, xstep: int, ystep: int, y0: int, yend: int,
                    sx: int, xend: int, dx: int, dy: int)
    requires fb.Valid() && |s| == fb.buf.Length && Directed(xstep, ystep, dx, dy)
    requires Sweep(fb.Geometry(), xstep, sx, xend)
    requires if ystep < 0 then y0 == 0 && yend == fb.height + ystep && 0 < yend
             else y0 == fb.height - 1 && yend == ystep - 1 && yend < y0
    requires Shifted(fb.Geometry(), s, fb.buf[..], xstep, ystep, Done(fb.Geometry(), xstep, ystep, dx, dy, sx, y0))
    modifies fb.buf
    ensures Shifted(fb.Geometry(), s, fb.buf[..], xstep, ystep, Done(fb.Geometry(), xstep, ystep, dx, dy, sx, yend))
  {
    ghost var g := fb.Geometry();
    var y := y0;
    while y != yend
      invariant if ystep < 0 then 0 <= y <= yend else yend <= y <= y0
      invariant Shifted(g, s, fb.buf[..], xstep, ystep, Done(g, xstep, ystep, dx, dy, sx, y))
      decreases if ystep < 0 then yend - y else y - yend
    {
      ScrollRow(fb, s, xstep, ystep, y, sx, xend, dx, dy);
      DoneRow(g, xstep, ystep, dx, dy, sx, xend, y);
      y := y + dy;
    }
  }

  // ---------- blit ----------

  datatype Palette = NoPalette | Mapped(fb: FrameBuffer)

  /** A picture as a value: its layout and its bytes. */
  datatype Sheet = Sheet(g: Layout, s: seq<bv8>)

  datatype PaletteSheet = NoSheet | Colors(sheet: Sheet)

  ghost predicate Whole(p: Sheet) {
    Sound(p.g) && BytesNeeded(p.g) <= |p.s|
  }

  /** Every colour of the source has a column in the palette. */
  ghost predicate PaletteFits(src: Sheet, pal: PaletteSheet)
    requires Whole(src)
  {
    pal.Colors? ==>
      && Whole(pal.sheet)
      && forall i, j | Visible(src.g, i, j) :: Pixel(src.g, src.s, i, j) as int < pal.sheet.g.width
  }

  /** The source picture as it is drawn: colours mapped by the palette, if there is one. */
  type Sprite = imap<(int, int), Color>

  ghost function SpriteOf(src: Sheet, pal: PaletteSheet): Sprite
    requires Whole(src) && PaletteFits(src, pal)
  {
    imap i, j | Visible(src.g, i, j) :: (i, j) :=
      var c := Pixel(src.g, src.s, i, j);
      if pal.Colors? then Pixel(pal.sheet.g, pal.sheet.s, c as int, 0) else c
  }

  ghost function SheetOf(fb: FrameBuffer): Sheet
    reads fb.buf
  {
    Sheet(fb.Geometry(), fb.buf[..])
  }

  ghost function PaletteOf(pal: Palette): PaletteSheet
    reads if pal.Mapped? then {pal.fb.buf} else {}
  {
    if pal.Mapped? then Colors(SheetOf(pal.fb)) else NoSheet
  }

  /** The source and the palette are the given pictures, and not the destination. */
  ghost predicate Reads(fb: FrameBuffer, src: FrameBuffer, pal: Palette, from: Sheet, colors: PaletteSheet)
    reads src.buf, if pal.Mapped? then {pal.fb.buf} else {}
  {
    && src.Valid() && src.buf != fb.buf && (pal.Mapped? ==> pal.fb.buf != fb.buf)
    && from == SheetOf(src) && colors == PaletteOf(pal) && PaletteFits(from, colors)
  }

  /** The sprite at offset (x, y) has a pixel at (i, j) that is not of the key colour. */
  ghost predicate Covers(sprite: Sprite, x: int, y: int, key: Color, i: int, j: int) {
    (i - x, j - y) in sprite && sprite[(i - x, j - y)] != key
  }

  /** The pixels of `done` that the sprite covers show it; all others are unchanged. */
  ghost predicate Blitted(g: Layout, s: seq<bv8>, t: seq<bv8>, sprite: Sprite, x: int, y: int, key: Color, done: Region)
    requires Sound(g) && BytesNeeded(g) <= |s|
  {
    && |t| == |s|
    && (forall i, j {:trigger Pixel(g, t, i, j)} | Stored(g, i, j) ::
          Pixel(g, t, i, j) ==
            if Visible(g, i, j) && (i, j) in done && Covers(sprite, x, y, key, i, j)
            then Depth(g.format, sprite[(i - x, j - y)]) else Pixel(g, s, i, j))
    && t[BytesNeeded(g)..] == s[BytesNeeded(g)..]
  }

  lemma BlitOne(g: Layout, s: seq<bv8>, t: seq<bv8>, u: seq<bv8>, sprite: Sprite, x: int, y: int, key: Color,
                done: Region, i: int, j: int)
    requires Sound(g) && BytesNeeded(g) <= |s| && Visible(g, i, j) && (i - x, j - y) in sprite
    requires Blitted(g, s, t, sprite, x, y, key, done) && (i, j) !in done
    requires if sprite[(i - x, j - y)] != key then Painted(g, t, u, Dot(i, j), sprite[(i - x, j - y)]) else u == t
    ensures Blitted(g, s, u, sprite, x, y, key, done + Dot(i, j))
  {
  }

  lemma SameBlit(g: Layout, s: seq<bv8>, t: seq<bv8>, sprite: Sprite, x: int, y: int, key: Color, done: Region,
                 all: Region)
    requires Sound(g) && BytesNeeded(g) <= |s| && Blitted(g, s, t, sprite, x, y, key, done)
    requires forall i, j | Visible(g, i, j) && (i - x, j - y) in sprite :: (i, j) in done <==> (i, j) in all
    ensures Blitted(g, s, t, sprite, x, y, key, all)
  {
  }

  lemma BlitStarts(g: Layout, s: seq<bv8>, sprite: Sprite, x: int, y: int, key: Color)
    requires Sound(g) && BytesNeeded(g) <= |s|
    ensures Blitted(g, s, s, sprite, x, y, key, iset{})
  {
  }

  method SourceColor(fb: FrameBuffer, src: FrameBuffer, pal: Palette, i: nat, j: nat,
                     ghost from: Sheet, ghost colors: PaletteSheet) returns (col: Color)
    requires Reads(fb, src, pal, from, colors) && Visible(from.g, i, j)
    ensures (i as int, j as int) in SpriteOf(from, colors) && col == SpriteOf(from, colors)[(i as int, j as int)]
  {
    col := src.GetPixel(i, j);
    if pal.Mapped? {
      col := pal.fb.GetPixel(col as int, 0);
    }
  }

  method PutUnlessKey(fb: FrameBuffer, ghost x: int, ghost y: int, key: Color, cx0: nat, y0: nat, col: Color,
                      ghost s: seq<bv8>, ghost sprite: Sprite, ghost done: Region)
    requires fb.Valid() && |s| == fb.buf.Length && cx0 < fb.width && y0 < fb.height
    requires (cx0 - x, y0 - y) in sprite && col == sprite[(cx0 - x, y0 - y)] && (cx0 as int, y0 as int) !in done
    requires Blitted(fb.Geometry(), s, fb.buf[..], sprite, x, y, key, done)
    modifies fb.buf
    ensures Blitted(fb.Geometry(), s, fb.buf[..], sprite, x, y, key, done + Dot(cx0, y0))
  {
    ghost var t := fb.buf[..];
    if col != key {
      fb.SetPixel(cx0, y0, col);
    }
    BlitOne(fb.Geometry(), s, t, fb.buf[..], sprite, x, y, key, done, cx0, y0);
  }

  /** The body of the inner loop of framebuf_blit. */
  method BlitPixel(fb: FrameBuffer, src: FrameBuffer, pal: Palette, ghost x: int, ghost y: int, key: Color,
                   cx0: nat, y0: nat, cx1: nat, y1: nat,
                   ghost s: seq<bv8>, ghost from: Sheet, ghost colors: PaletteSheet, ghost done: Region)
    requires fb.Valid() && Reads(fb, src, pal, from, colors) && |s| == fb.buf.Length
    requires cx0 < fb.width && y0 < fb.height && cx1 < src.width && y1 < src.height && cx1 == cx0 - x && y1 == y0 - y
    requires Blitted(fb.Geometry(), s, fb.buf[..], SpriteOf(from, colors), x, y, key, done)
    requires (cx0 as int, y0 as int) !in done
    modifies fb.buf
    ensures Reads(fb, src, pal, from, colors)
    ensures Blitted(fb.Geometry(), s, fb.buf[..], SpriteOf(from, colors), x, y, key, done + Dot(cx0, y0))
  {
    var col := SourceColor(fb, src, pal, cx1, y1, from, colors);
    PutUnlessKey(fb, x, y, key, cx0, y0, col, s, SpriteOf(from, colors), done);
  }

  /** The pixels of `n` rows, and `k` of the next. */
  ghost function RowsAnd(x: int, y: int, w: nat, n: nat, k: nat): Region { Rect(x, y, w, n) + Rect(x, y + n, k, 1) }

  lemma RowBegins(x: int, y: int, w: nat, n: nat)
    ensures Rect(x, y, w, n) == RowsAnd(x, y, w, n, 0)
    ensures RowsAnd(x, y, w, n, w) == Rect(x, y, w, n + 1)
  {
  }

  lemma RowGrows(x: int, y: int, w: nat, n: nat, k: nat)
    ensures (x + k, y + n) !in RowsAnd(x, y, w, n, k)
    ensures RowsAnd(x, y, w, n, k) + Dot(x + k, y + n) == RowsAnd(x, y, w, n, k + 1)
  {
  }

  /** One turn of the inner loop. */
  method BlitNext(fb: FrameBuffer, src: FrameBuffer, pal: Palette, ghost x: int, ghost y: int, key: Color,
                  cx0: nat, y0: nat, cx1: nat, y1: nat, ghost x0: nat, ghost top: nat, ghost w: nat, ghost n: nat,
                  ghost k: nat, ghost s: seq<bv8>, ghost from: Sheet, ghost colors: PaletteSheet)
    requires fb.Valid() && Reads(fb, src, pal, from, colors) && |s| == fb.buf.Length
    requires cx0 == x0 + k < fb.width && y0 == top + n < fb.height && cx1 < src.width && y1 < src.height
    requires cx1 == cx0 - x && y1 == y0 - y
    requires Blitted(fb.Geometry(), s, fb.buf[..], SpriteOf(from, colors), x, y, key, RowsAnd(x0, top, w, n, k))
    modifies fb.buf
    ensures Reads(fb, src, pal, from, colors)
    ensures Blitted(fb.Geometry(), s, fb.buf[..], SpriteOf(from, colors), x, y, key, RowsAnd(x0, top, w, n, k + 1))
  {
    RowGrows(x0, top, w, n, k);
    BlitPixel(fb, src, pal, x, y, key, cx0, y0, cx1, y1, s, from, colors, RowsAnd(x0, top, w, n, k));
  }

  /** The inner loop of framebuf_blit, `n` rows below the first. */
  method BlitRow(fb: FrameBuffer, src: FrameBuffer, pal: Palette, ghost x: int, ghost y: int, key: Color,
                 x0: nat, w: nat, x1: nat, ghost top: nat, ghost n: nat, y0: nat, y1: nat,
                 ghost s: seq<bv8>, ghost from: Sheet, ghost colors: PaletteSheet)
    requires fb.Valid() && Reads(fb, src, pal, from, colors) && |s| == fb.buf.Length
    requires x0 + w <= fb.width && x1 == x0 - x && x1 + w <= src.width
    requires y0 == top + n < fb.height && y1 == y0 - y && y1 < src.height
    requires Blitted(fb.Geometry(), s, fb.buf[..], SpriteOf(from, colors), x, y, key, Rect(x0, top, w, n))
    modifies fb.buf
    ensures Reads(fb, src, pal, from, colors)
    ensures Blitted(fb.Geometry(), s, fb.buf[..], SpriteOf(from, colors), x, y, key, Rect(x0, top, w, n + 1))
  {
    var cx1 := x1;
    RowBegins(x0, top, w, n);
    for k := 0 to w
      invariant cx1 == x1 + k && Reads(fb, src, pal, from, colors)
      invariant Blitted(fb.Geometry(), s, fb.buf[..], SpriteOf(from, colors), x, y, key, RowsAnd(x0, top, w, n, k))
    {
      BlitNext(fb, src, pal, x, y, key, x0 + k, y0, cx1, y1, x0, top, w, n, k, s, from, colors);
      cx1 := cx1 + 1;
    }
  }

  lemma OutsideSprite(g: Layout, s: seq<bv8>, src: Layout, sprite: Sprite, x: int, y: int, key: Color)
    requires Sound(g) && BytesNeeded(g) <= |s|
    requires forall i, j | (i, j) in sprite :: Visible(src, i, j)
    requires x >= g.width || y >= g.height || x + src.width <= 0 || y + src.height <= 0
    ensures Blitted(g, s, s, sprite, x, y, key, Everywhere())
  {
  }

  /** The rectangle has all that is to be drawn. */
  lemma BlitClipped(g: Layout, s: seq<bv8>, t: seq<bv8>, src: Layout, sprite: Sprite, x: int, y: int, key: Color,
                    x0: int, y0: int, w: int, h: int)
    requires Sound(g) && BytesNeeded(g) <= |s|
    requires forall i, j | (i, j) in sprite :: Visible(src, i, j)
    requires x0 == Max(0, x) && x0 + w == Min(g.width, x + src.width)
    requires y0 == Max(0, y) && y0 + h == Min(g.height, y + src.height)
    requires Blitted(g, s, t, sprite, x, y, key, Rect(x0, y0, w, h))
    ensures Blitted(g, s, t, sprite, x, y, key, Everywhere())
  {
    SameBlit(g, s, t, sprite, x, y, key, Rect(x0, y0, w, h), Everywhere());
  }

  lemma SpriteInside(src: Sheet, pal: PaletteSheet)
    requires Whole(src) && PaletteFits(src, pal)
    ensures forall i, j | (i, j) in SpriteOf(src, pal) :: Visible(src.g, i, j)
  {
  }

  /** framebuf_blit: every visible pixel under a source pixel that is not of the key colour takes
      its colour, mapped by the palette and cut to the destination's depth. */
  method Blit(fb: FrameBuffer, src: FrameBuffer, x: int, y: int, key: Color, pal: Palette)
    requires fb.Valid() && src.Valid() && PaletteFits(SheetOf(src), PaletteOf(pal))
    requires src.buf != fb.buf && (pal.Mapped? ==> pal.fb.buf != fb.buf)
    modifies fb.buf
    ensures Blitted(fb.Geometry(), old(fb.buf[..]), fb.buf[..],
                    SpriteOf(old(SheetOf(src)), old(PaletteOf(pal))), x, y, key, Everywhere())
  {
    ghost var s, g, from, colors := fb.buf[..], fb.Geometry(), SheetOf(src), PaletteOf(pal);
    ghost var sprite := SpriteOf(from, colors);
    SpriteInside(from, colors);
    if x >= fb.width || y >= fb.height || -x >= src.width || -y >= src.height {
      OutsideSprite(g, s, src.Geometry(), sprite, x, y, key);
      return;
    }
    var x0, y0, x1, y1 := Max(0, x), Max(0, y), Max(0, -x), Max(0, -y);
    var x0end, y0end := Min(fb.width, x + src.width), Min(fb.height, y + src.height);
    BlitRows(fb, src, pal, x, y, key, x0, x0end - x0, x1, y0, y0end - y0, y1, s, from, colors);
    BlitClipped(g, s, fb.buf[..], src.Geometry(), sprite, x, y, key, x0, y0, x0end - x0, y0end - y0);
  }

  /** The outer loop of framebuf_blit. */
  method BlitRows(fb: FrameBuffer, src: FrameBuffer, pal: Palette, ghost x: int, ghost y: int, key: Color,
                  x0: nat, w: nat, x1: nat, top: nat, h: nat, y1: nat,
                  ghost s: seq<bv8>, ghost from: Sheet, ghost colors: PaletteSheet)
    requires fb.Valid() && Reads(fb, src, pal, from, colors) && s == fb.buf[..]
    requires x0 + w <= fb.width && x1 == x0 - x && x1 + w <= src.width
    requires top + h <= fb.height && y1 == top - y && y1 + h <= src.height
    modifies fb.buf
    ensures Blitted(fb.Geometry(), s, fb.buf[..], SpriteOf(from, colors), x, y, key, Rect(x0, top, w, h))
  {
    BlitStarts(fb.Geometry(), s, SpriteOf(from, colors), x, y, key);
    assert Rect(x0, top, w, 0) == iset{};
    for n := 0 to h
      invariant Reads(fb, src, pal, from, colors)
      invariant Blitted(fb.Geometry(), s, fb.buf[..], SpriteOf(from, colors), x, y, key, Rect(x0, top, w, n))
    {
      BlitRow(fb, src, pal, x, y, key, x0, w, x1, top, n, top + n, y1 + n, s, from, colors);
    }
  }

  /** The colour that the source pixel (i, j) is drawn in: its own, or that of column c of the palette's
      first row if its own is c. */
  ghost function DrawnColor(src: Sheet, pal: PaletteSheet, i: int, j: int): Color
    requires Whole(src) && PaletteFits(src, pal) && Visible(src.g, i, j)
  {
    var c := Pixel(src.g, src.s, i, j);
    match pal
    case NoSheet => c
    case Colors(p) => Pixel(p.g, p.s, c as int, 0)
  }

  lemma SpriteAt(src: Sheet, pal: PaletteSheet, i: int, j: int)
    requires Whole(src) && PaletteFits(src, pal)
    ensures (i, j) in SpriteOf(src, pal) <==> 0 <= i < src.g.width && 0 <= j < src.g.height
    ensures (i, j) in SpriteOf(src, pal) ==> SpriteOf(src, pal)[(i, j)] == DrawnColor(src, pal, i, j)
  {
  }

  lemma BlittedAt(g: Layout, s: seq<bv8>, t: seq<bv8>, sprite: Sprite, x: int, y: int, key: Color, i: int, j: int)
    requires Sound(g) && BytesNeeded(g) <= |s| && Visible(g, i, j)
    requires Blitted(g, s, t, sprite, x, y, key, Everywhere())
    ensures |t| == |s| && Stored(g, i, j)
    ensures Pixel(g, t, i, j) ==
            if (i - x, j - y) in sprite && sprite[(i - x, j - y)] != key
            then Depth(g.format, sprite[(i - x, j - y)]) else Pixel(g, s, i, j)
  {
    assert Stored(g, i, j) && (i, j) in Everywhere();
  }

  /** What a blit leaves at one place of the destination: source pixel (i - x, j - y) if there is one and
      its colour is not the key, else what was there. */
  lemma BlitShows(g: Layout, s: seq<bv8>, t: seq<bv8>, src: Sheet, pal: PaletteSheet, x: int, y: int, key: Color,
                  i: int, j: int)
    requires Sound(g) && BytesNeeded(g) <= |s| && Whole(src) && PaletteFits(src, pal) && Visible(g, i, j)
    requires Blitted(g, s, t, SpriteOf(src, pal), x, y, key, Everywhere())
    ensures |t| == |s| && Stored(g, i, j)
    ensures Pixel(g, t, i, j) ==
            if 0 <= i - x < src.g.width && 0 <= j - y < src.g.height && DrawnColor(src, pal, i - x, j - y) != key
            then Depth(g.format, DrawnColor(src, pal, i - x, j - y)) else Pixel(g, s, i, j)
  {
    SpriteAt(src, pal, i - x, j - y);
    BlittedAt(g, s, t, SpriteOf(src, pal), x, y, key, i, j);
  }

  /** What a scroll leaves at one place: the old pixel a step away if that is visible, else what was
      there. */
  lemma ScrollShows(g: Layout, s: seq<bv8>, t: seq<bv8>, xstep: int, ystep: int, i: int, j: int)
    requires Sound(g) && BytesNeeded(g) <= |s| && Visible(g, i, j) && Scrolled(g, s, t, xstep, ystep)
    ensures |t| == |s| && Stored(g, i, j)
    ensures Pixel(g, t, i, j) ==
            if 0 <= i - xstep < g.width && 0 <= j - ystep < g.height then Pixel(g, s, i - xstep, j - ystep)
            else Pixel(g, s, i, j)
  {
    assert Stored(g, i, j) && (i, j) in Everywhere();
  }
}
