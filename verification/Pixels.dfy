/** Storage layout of the seven frame buffer formats: where a pixel lives in
    the byte buffer, and what storing one pixel does to every other one. */
module Pixels {

  datatype Format = MVLSB | RGB565 | GS4_HMSB | MHLSB | MHMSB | GS2_HMSB | GS8

  predicate MonoHoriz(f: Format) { f == MHLSB || f == MHMSB }

  predicate OneBit(f: Format) { f == MVLSB || MonoHoriz(f) }

  datatype Layout = Layout(format: Format, width: nat, height: nat, stride: nat)

  type Color = bv32

  function Bpp(f: Format): nat {
    match f
    case MVLSB => 1
    case MHLSB => 1
    case MHMSB => 1
    case GS2_HMSB => 2
    case GS4_HMSB => 4
    case GS8 => 8
    case RGB565 => 16
  }

  function RoundUp(n: nat, k: nat): nat
    requires k > 0
  {
    (n + k - 1) / k * k
  }

  /** Pixel rows that have storage: whole bytes of eight rows in MVLSB. */
  function Rows(g: Layout): nat {
    if g.format == MVLSB then RoundUp(g.height, 8) else g.height
  }

  /** The granularity to which a stride is rounded. */
  function Grain(f: Format): nat {
    match f
    case MHLSB => 8
    case MHMSB => 8
    case GS2_HMSB => 4
    case GS4_HMSB => 2
    case _ => 1
  }

  predicate Sound(g: Layout) {
    1 <= g.width <= g.stride && 1 <= g.height && g.stride % Grain(g.format) == 0
  }

  function BytesNeeded(g: Layout): nat {
    Rows(g) * g.stride * Bpp(g.format) / 8
  }

  /** The colour as far as the format can hold it. */
  function Depth(f: Format, col: Color): Color {
    match f
    case MVLSB => if col != 0 then 1 else 0
    case MHLSB => if col != 0 then 1 else 0
    case MHMSB => if col != 0 then 1 else 0
    case GS2_HMSB => col & 3
    case GS4_HMSB => col & 0xf
    case GS8 => col & 0xff
    case RGB565 => col & 0xffff
  }

  // ---------- one byte ----------

  /** Replace the field of mask `m` at bit `shift`. */
  function Put(b: bv8, m: bv8, shift: bv8, v: bv8): bv8
    requires shift < 8
  {
    (b & !(m << shift)) | (v << shift)
  }

  function Take(b: bv8, m: bv8, shift: bv8): bv8
    requires shift < 8
  {
    (b >> shift) & m
  }

  lemma PutTake1(b: bv8, s: bv8, t: bv8, v: bv8)
    requires s < 8 && t < 8 && v <= 1
    ensures Take(Put(b, 1, s, v), 1, t) == if s == t then v else Take(b, 1, t)
  {
  }

  lemma PutTake2(b: bv8, s: bv8, t: bv8, v: bv8)
    requires s in {0, 2, 4, 6} && t in {0, 2, 4, 6} && v <= 3
    ensures Take(Put(b, 3, s, v), 3, t) == if s == t then v else Take(b, 3, t)
  {
  }

  lemma PutTake4(b: bv8, s: bv8, t: bv8, v: bv8)
    requires s in {0, 4} && t in {0, 4} && v <= 15
    ensures Take(Put(b, 15, s, v), 15, t) == if s == t then v else Take(b, 15, t)
  {
  }

  // ---------- cells: the k-th field of the buffer ----------

  /** Bit position of cell `a` within its byte. */
  function Shift(f: Format, a: nat): (s: bv8)
    ensures s < 8
  {
    match f
    case MVLSB => (a % 8) as bv8
    case MHMSB => (a % 8) as bv8
    case MHLSB => (7 - a % 8) as bv8
    case GS2_HMSB => (2 * (a % 4)) as bv8
    case GS4_HMSB => if a % 2 == 1 then 0 else 4
    case _ => 0
  }

  function Mask(f: Format): bv8 {
    match f
    case GS2_HMSB => 3
    case GS4_HMSB => 15
    case GS8 => 255
    case RGB565 => 255
    case _ => 1
  }

  /** Index of the (first) byte of cell `a`. */
  function ByteOf(f: Format, a: nat): nat {
    match f
    case RGB565 => 2 * a
    case GS8 => a
    case GS4_HMSB => a / 2
    case GS2_HMSB => a / 4
    case _ => a / 8
  }

  predicate InBuffer(f: Format, len: nat, a: nat) {
    if f == RGB565 then 2 * a + 1 < len else ByteOf(f, a) < len
  }

  function Load(f: Format, s: seq<bv8>, a: nat): Color
    requires InBuffer(f, |s|, a)
  {
    if f == RGB565 then
      (s[2 * a] as bv32) | ((s[2 * a + 1] as bv32) << 8)
    else
      Take(s[ByteOf(f, a)], Mask(f), Shift(f, a)) as bv32
  }

  /** The low byte of a colour. */
  function Low(col: Color): bv8 {
    (col & 0xff) as bv8
  }

  function Store(f: Format, s: seq<bv8>, a: nat, col: Color): (t: seq<bv8>)
    requires InBuffer(f, |s|, a)
    ensures |t| == |s|
  {
    if f == RGB565 then
      s[2 * a := Low(col)][2 * a + 1 := Low(col >> 8)]
    else
      s[ByteOf(f, a) := Put(s[ByteOf(f, a)], Mask(f), Shift(f, a), Low(Depth(f, col)))]
  }

  lemma ShiftsDiffer(f: Format, a: nat, b: nat)
    requires a != b && f != RGB565 && ByteOf(f, a) == ByteOf(f, b)
    ensures Shift(f, a) != Shift(f, b)
  {
    match f
    case MVLSB => SmallBits(a % 8, b % 8);
    case MHLSB => SmallBits(7 - a % 8, 7 - b % 8);
    case MHMSB => SmallBits(a % 8, b % 8);
    case GS2_HMSB => SmallBits(2 * (a % 4), 2 * (b % 4));
    case _ =>
  }

  lemma SmallBits(i: nat, j: nat)
    requires i < 8 && j < 8 && i != j
    ensures i as bv8 != j as bv8
  {
  }

  lemma PutTakeAt(s: seq<bv8>, i: nat, sa: bv8, j: nat, sb: bv8, v: bv8)
    requires i < |s| && j < |s| && sa < 8 && sb < 8 && v <= 1
    ensures Take(s[i := Put(s[i], 1, sa, v)][j], 1, sb) == if i == j && sa == sb then v else Take(s[j], 1, sb)
  {
    PutTake1(s[i], sa, sb, v);
  }

  /** Two cells are the same bit of the same byte only if they are the same cell. */
  lemma BitPlace(f: Format, a: nat, b: nat)
    requires OneBit(f)
    ensures a == b <==> ByteOf(f, a) == ByteOf(f, b) && Shift(f, a) == Shift(f, b)
  {
    if a != b && ByteOf(f, a) == ByteOf(f, b) { ShiftsDiffer(f, a, b); }
  }

  lemma LoadStoreBit(f: Format, s: seq<bv8>, a: nat, col: Color, b: nat)
    requires OneBit(f) && InBuffer(f, |s|, a) && InBuffer(f, |s|, b)
    ensures Load(f, Store(f, s, a, col), b) == if a == b then Depth(f, col) else Load(f, s, b)
  {
    BitPlace(f, a, b);
    PutTakeAt(s, ByteOf(f, a), Shift(f, a), ByteOf(f, b), Shift(f, b), Low(Depth(f, col)));
  }

  lemma LoadStoreGs2(s: seq<bv8>, a: nat, col: Color, b: nat)
    requires InBuffer(GS2_HMSB, |s|, a) && InBuffer(GS2_HMSB, |s|, b)
    ensures Load(GS2_HMSB, Store(GS2_HMSB, s, a, col), b) == if a == b then col & 3 else Load(GS2_HMSB, s, b)
  {
    if a / 4 == b / 4 {
      if a != b { ShiftsDiffer(GS2_HMSB, a, b); }
      EvenShift(a % 4);
      EvenShift(b % 4);
      PutTake2(s[a / 4], Shift(GS2_HMSB, a), Shift(GS2_HMSB, b), Low(col & 3));
    }
  }

  lemma EvenShift(k: nat)
    requires k < 4
    ensures (2 * k) as bv8 in {0, 2, 4, 6}
  {
  }

  lemma LoadStoreGs4(s: seq<bv8>, a: nat, col: Color, b: nat)
    requires InBuffer(GS4_HMSB, |s|, a) && InBuffer(GS4_HMSB, |s|, b)
    ensures Load(GS4_HMSB, Store(GS4_HMSB, s, a, col), b) == if a == b then col & 0xf else Load(GS4_HMSB, s, b)
  {
    if a / 2 == b / 2 {
      PutTake4(s[a / 2], Shift(GS4_HMSB, a), Shift(GS4_HMSB, b), Low(col & 0xf));
    }
  }

  lemma LoadStoreGs8(s: seq<bv8>, a: nat, col: Color, b: nat)
    requires a < |s| && b < |s|
    ensures Load(GS8, Store(GS8, s, a, col), b) == if a == b then col & 0xff else Load(GS8, s, b)
  {
    PutTake8(s[a], Low(col & 0xff));
  }

  lemma PutTake8(b: bv8, v: bv8)
    ensures Put(b, 255, 0, v) == v && Take(v, 255, 0) == v
  {
  }

  lemma WordHalves(col: Color)
    ensures (Low(col) as bv32) | ((Low(col >> 8) as bv32) << 8) == col & 0xffff
  {
  }

  lemma LoadStoreWord(s: seq<bv8>, a: nat, col: Color, b: nat)
    requires InBuffer(RGB565, |s|, a) && InBuffer(RGB565, |s|, b)
    ensures Load(RGB565, Store(RGB565, s, a, col), b) == if a == b then col & 0xffff else Load(RGB565, s, b)
  {
    var t := Store(RGB565, s, a, col);
    WordHalves(col);
    if a == b {
      assert t[2 * b] == Low(col) && t[2 * b + 1] == Low(col >> 8);
    } else {
      assert t[2 * b] == s[2 * b] && t[2 * b + 1] == s[2 * b + 1];
    }
  }

  /** Storing a cell changes that cell, to the depth-masked colour, and no other. */
  lemma LoadStore(f: Format, s: seq<bv8>, a: nat, col: Color, b: nat)
    requires InBuffer(f, |s|, a) && InBuffer(f, |s|, b)
    ensures Load(f, Store(f, s, a, col), b) == if a == b then Depth(f, col) else Load(f, s, b)
  {
    match f
    case RGB565 => LoadStoreWord(s, a, col, b);
    case GS8 => LoadStoreGs8(s, a, col, b);
    case GS4_HMSB => LoadStoreGs4(s, a, col, b);
    case GS2_HMSB => LoadStoreGs2(s, a, col, b);
    case MVLSB => LoadStoreBit(MVLSB, s, a, col, b);
    case MHLSB => LoadStoreBit(MHLSB, s, a, col, b);
    case MHMSB => LoadStoreBit(MHMSB, s, a, col, b);
  }

  lemma TakeFits(b: bv8, s: bv8)
    requires s < 8
    ensures Take(b, 1, s) <= 1
    ensures (Take(b, 3, s) as bv32) & 3 == Take(b, 3, s) as bv32
    ensures (Take(b, 15, s) as bv32) & 0xf == Take(b, 15, s) as bv32
    ensures (Take(b, 255, s) as bv32) & 0xff == Take(b, 255, s) as bv32
  {
  }

  lemma WordFits(lo: bv8, hi: bv8)
    ensures ((lo as bv32) | ((hi as bv32) << 8)) & 0xffff == (lo as bv32) | ((hi as bv32) << 8)
  {
  }

  /** What is loaded is already depth-masked. */
  lemma LoadDepth(f: Format, s: seq<bv8>, a: nat)
    requires InBuffer(f, |s|, a)
    ensures Depth(f, Load(f, s, a)) == Load(f, s, a)
  {
    if f == RGB565 {
      WordFits(s[2 * a], s[2 * a + 1]);
    } else {
      TakeFits(s[ByteOf(f, a)], Shift(f, a));
    }
  }

  // ---------- pixels ----------

  /** The cell of pixel (x, y). */
  function Cell(g: Layout, x: nat, y: nat): nat {
    if g.format == MVLSB then ((y / 8) * g.stride + x) * 8 + y % 8 else x + y * g.stride
  }

  /** A pixel position that has storage, padding columns and rows included. */
  predicate Stored(g: Layout, x: int, y: int) {
    0 <= x < g.stride && 0 <= y < Rows(g)
  }

  lemma RowOrder(stride: nat, x1: nat, y1: nat, x2: nat, y2: nat)
    requires x1 < stride && y1 < y2
    ensures x1 + y1 * stride < x2 + y2 * stride
  {
    RowBound(stride, x1, y1, y2);
  }

  lemma RowMajor(stride: nat, x1: nat, y1: nat, x2: nat, y2: nat)
    requires x1 < stride && x2 < stride && x1 + y1 * stride == x2 + y2 * stride
    ensures x1 == x2 && y1 == y2
  {
    if y1 < y2 { RowOrder(stride, x1, y1, x2, y2); }
    if y2 < y1 { RowOrder(stride, x2, y2, x1, y1); }
  }

  lemma RowBound(stride: nat, x: nat, y: nat, rows: nat)
    requires x < stride && y < rows
    ensures x + y * stride < rows * stride
  {
    assert (y + 1) * stride <= rows * stride;
  }

  /** Distinct pixels never share storage. */
  lemma CellInjective(g: Layout, x1: nat, y1: nat, x2: nat, y2: nat)
    requires x1 < g.stride && x2 < g.stride && Cell(g, x1, y1) == Cell(g, x2, y2)
    ensures x1 == x2 && y1 == y2
  {
    if g.format == MVLSB {
      RowMajor(g.stride, x1, y1 / 8, x2, y2 / 8);
    } else {
      RowMajor(g.stride, x1, y1, x2, y2);
    }
  }

  lemma MulGrain(rows: nat, stride: nat, k: nat)
    requires k > 0 && stride % k == 0
    ensures rows * stride == k * (rows * (stride / k))
  {
    var q := stride / k;
    assert stride == k * q;
    assert rows * (k * q) == k * (rows * q);
  }

  lemma BytesOfBands(g: Layout)
    requires Sound(g) && g.format == MVLSB
    ensures BytesNeeded(g) == (g.height + 7) / 8 * g.stride
  {
    var bands := (g.height + 7) / 8;
    assert Rows(g) * g.stride == 8 * (bands * g.stride);
  }

  lemma BytesOfRows(g: Layout)
    requires Sound(g) && g.format != MVLSB
    ensures 8 * BytesNeeded(g) == Bpp(g.format) * (g.height * g.stride)
  {
    MulGrain(g.height, g.stride, Grain(g.format));
    WholeBytes(g.format, g.height * g.stride, g.height * (g.stride / Grain(g.format)));
  }

  lemma WholeBytes(f: Format, area: nat, grains: nat)
    requires f != MVLSB && area == Grain(f) * grains
    ensures area * Bpp(f) / 8 * 8 == Bpp(f) * area
  {
    if f == GS2_HMSB {
      EightFold(area * 2, grains);
    } else if f == GS4_HMSB {
      EightFold(area * 4, grains);
    } else if f == GS8 {
      EightFold(area * 8, area);
    } else if f == RGB565 {
      EightFold(area * 16, 2 * area);
    } else {
      EightFold(area, grains);
    }
  }

  lemma EightFold(n: nat, k: nat)
    requires n == 8 * k
    ensures n / 8 * 8 == n
  {
  }

  /** The byte count without the division by eight. */
  lemma BytesByFormat(g: Layout)
    requires Sound(g)
    ensures g.format == MVLSB ==> BytesNeeded(g) == (g.height + 7) / 8 * g.stride
    ensures g.format == GS8 ==> BytesNeeded(g) == g.height * g.stride
    ensures g.format == RGB565 ==> BytesNeeded(g) == 2 * (g.height * g.stride)
    ensures g.format == GS4_HMSB ==> 2 * BytesNeeded(g) == g.height * g.stride
    ensures g.format == GS2_HMSB ==> 4 * BytesNeeded(g) == g.height * g.stride
    ensures MonoHoriz(g.format) ==> 8 * BytesNeeded(g) == g.height * g.stride
  {
    if g.format == MVLSB { BytesOfBands(g); } else { BytesOfRows(g); }
  }

  /** Every pixel with storage lies inside the bytes that a new frame buffer demands. */
  lemma CellInside(g: Layout, x: nat, y: nat)
    requires Sound(g) && Stored(g, x, y)
    ensures InBuffer(g.format, BytesNeeded(g), Cell(g, x, y))
  {
    BytesByFormat(g);
    if g.format == MVLSB {
      RowBound(g.stride, x, y / 8, (g.height + 7) / 8);
    } else {
      RowBound(g.stride, x, y, g.height);
    }
  }

  /** Byte index and position within the byte, as the C code computes them. */
  lemma CellByte(g: Layout, x: nat, y: nat)
    requires g.stride % Grain(g.format) == 0
    ensures MonoHoriz(g.format) ==>
              (x + y * g.stride) / 8 == x / 8 + y * (g.stride / 8) && (x + y * g.stride) % 8 == x % 8
    ensures g.format == GS2_HMSB ==>
              (x + y * g.stride) / 4 == x / 4 + y * (g.stride / 4) && (x + y * g.stride) % 4 == x % 4
    ensures g.format == GS4_HMSB ==>
              (x + y * g.stride) / 2 == x / 2 + y * (g.stride / 2) && (x + y * g.stride) % 2 == x % 2
  {
    MulGrain(y, g.stride, Grain(g.format));
  }

  // ---------- pictures ----------

  function Pixel(g: Layout, s: seq<bv8>, x: nat, y: nat): Color
    requires Sound(g) && BytesNeeded(g) <= |s| && Stored(g, x, y)
  {
    CellInside(g, x, y);
    Load(g.format, s, Cell(g, x, y))
  }

  type Region = iset<(int, int)>

  predicate Visible(g: Layout, x: int, y: int) {
    0 <= x < g.width && 0 <= y < g.height
  }

  /** `t` is `s` with exactly the visible pixels of `r` set to `col`: every other
      pixel, the padding and the bytes after the picture are as they were. */
  ghost predicate Painted(g: Layout, s: seq<bv8>, t: seq<bv8>, r: Region, col: Color)
    requires Sound(g) && BytesNeeded(g) <= |s|
  {
    && |t| == |s|
    && (forall x, y {:trigger Pixel(g, t, x, y)} | Stored(g, x, y) ::
          Pixel(g, t, x, y) ==
            if Visible(g, x, y) && (x, y) in r then Depth(g.format, col) else Pixel(g, s, x, y))
    && t[BytesNeeded(g)..] == s[BytesNeeded(g)..]
  }

  ghost function Rect(x: int, y: int, w: int, h: int): Region {
    iset i, j | x <= i < x + w && y <= j < y + h :: (i, j)
  }

  ghost function Dot(x: int, y: int): Region {
    iset{(x, y)}
  }

  lemma PaintNothing(g: Layout, s: seq<bv8>, col: Color)
    requires Sound(g) && BytesNeeded(g) <= |s|
    ensures Painted(g, s, s, iset{}, col)
  {
  }

  lemma PaintTwice(g: Layout, s: seq<bv8>, t: seq<bv8>, u: seq<bv8>, r1: Region, r2: Region, col: Color)
    requires Sound(g) && BytesNeeded(g) <= |s|
    requires Painted(g, s, t, r1, col) && Painted(g, t, u, r2, col)
    ensures Painted(g, s, u, r1 + r2, col)
  {
  }

  /** Painting depends on the visible part of the region only. */
  lemma PaintVisible(g: Layout, s: seq<bv8>, t: seq<bv8>, r1: Region, r2: Region, col: Color)
    requires Sound(g) && BytesNeeded(g) <= |s|
    requires Painted(g, s, t, r1, col)
    requires forall x, y | Visible(g, x, y) :: (x, y) in r1 <==> (x, y) in r2
    ensures Painted(g, s, t, r2, col)
  {
  }

  lemma {:induction false} StorePaints(g: Layout, s: seq<bv8>, x: nat, y: nat, col: Color)
    requires Sound(g) && BytesNeeded(g) <= |s| && Visible(g, x, y)
    ensures InBuffer(g.format, |s|, Cell(g, x, y))
    ensures Painted(g, s, Store(g.format, s, Cell(g, x, y), col), Dot(x, y), col)
  {
    CellInside(g, x, y);
    var t := Store(g.format, s, Cell(g, x, y), col);
    forall i, j | Stored(g, i, j)
      ensures Pixel(g, t, i, j) == if (i, j) == (x, y) then Depth(g.format, col) else Pixel(g, s, i, j)
    {
      CellInside(g, i, j);
      LoadStore(g.format, s, Cell(g, x, y), col, Cell(g, i, j));
      if Cell(g, i, j) == Cell(g, x, y) { CellInjective(g, i, j, x, y); }
    }
  }

  lemma PaintDot(g: Layout, s: seq<bv8>, t: seq<bv8>, r: Region, x: nat, y: nat, col: Color)
    requires Sound(g) && BytesNeeded(g) <= |s| && Visible(g, x, y) && Painted(g, s, t, r, col)
    ensures InBuffer(g.format, |t|, Cell(g, x, y))
    ensures Painted(g, s, Store(g.format, t, Cell(g, x, y), col), r + Dot(x, y), col)
  {
    StorePaints(g, t, x, y, col);
    PaintTwice(g, s, t, Store(g.format, t, Cell(g, x, y), col), r, Dot(x, y), col);
  }

  lemma DotRight(x: int, y: int, n: nat)
    ensures Rect(x, y, n, 1) + Dot(x + n, y) == Rect(x, y, n + 1, 1)
  {
  }

  lemma DotBelow(x: int, y: int, n: nat)
    ensures Rect(x, y, 1, n) + Dot(x, y + n) == Rect(x, y, 1, n + 1)
  {
  }

  lemma PaintRight(g: Layout, s: seq<bv8>, t: seq<bv8>, x: nat, y: nat, n: nat, col: Color)
    requires Sound(g) && BytesNeeded(g) <= |s| && Visible(g, x + n, y) && Painted(g, s, t, Rect(x, y, n, 1), col)
    ensures InBuffer(g.format, |t|, Cell(g, x + n, y))
    ensures Painted(g, s, Store(g.format, t, Cell(g, x + n, y), col), Rect(x, y, n + 1, 1), col)
  {
    DotRight(x, y, n);
    PaintDot(g, s, t, Rect(x, y, n, 1), x + n, y, col);
  }

  lemma PaintBelow(g: Layout, s: seq<bv8>, t: seq<bv8>, x: nat, y: nat, n: nat, col: Color)
    requires Sound(g) && BytesNeeded(g) <= |s| && Visible(g, x, y + n) && Painted(g, s, t, Rect(x, y, 1, n), col)
    ensures InBuffer(g.format, |t|, Cell(g, x, y + n))
    ensures Painted(g, s, Store(g.format, t, Cell(g, x, y + n), col), Rect(x, y, 1, n + 1), col)
  {
    DotBelow(x, y, n);
    PaintDot(g, s, t, Rect(x, y, 1, n), x, y + n, col);
  }

  /** A run of cells within one row. */
  lemma CellRun(g: Layout, x: nat, y: nat, n: nat, i: nat, j: nat)
    requires g.format != MVLSB && x + n <= g.stride && i < g.stride && n > 0
    ensures Cell(g, x, y) <= Cell(g, i, j) < Cell(g, x, y) + n <==> j == y && x <= i < x + n
  {
    if j < y { RowOrder(g.stride, i, j, x, y); }
    if y < j { RowOrder(g.stride, x + n - 1, y, i, j); }
  }
}
