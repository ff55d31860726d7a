/** A picture determines its bytes: two buffers that show the same pixels, padding
    included, are the same buffer. So painting a region has only one outcome. */
module Pictures {
  import opened Pixels

  /** The number of cells in one byte of the byte-sized formats. */
  function CellsPerByte(f: Format): nat {
    match f
    case GS8 => 1
    case GS4_HMSB => 2
    case GS2_HMSB => 4
    case _ => 8
  }

  lemma EightBits(b: bv8, c: bv8)
    requires forall s: bv8 | s < 8 :: Take(b, 1, s) == Take(c, 1, s)
    ensures b == c
  {
    assert Take(b, 1, 0) == Take(c, 1, 0) && Take(b, 1, 1) == Take(c, 1, 1);
    assert Take(b, 1, 2) == Take(c, 1, 2) && Take(b, 1, 3) == Take(c, 1, 3);
    assert Take(b, 1, 4) == Take(c, 1, 4) && Take(b, 1, 5) == Take(c, 1, 5);
    assert Take(b, 1, 6) == Take(c, 1, 6) && Take(b, 1, 7) == Take(c, 1, 7);
  }

  /** Bit position of the k-th cell of a byte. */
  function CellShift(f: Format, k: nat): (s: bv8)
    requires f != RGB565 && k < CellsPerByte(f)
    ensures s < 8
  {
    if f == GS8 then 0
    else if f == GS4_HMSB then if k == 1 then 0 else 4
    else if f == GS2_HMSB then (2 * k) as bv8
    else if f == MHLSB then (7 - k) as bv8
    else k as bv8
  }

  lemma CellPlace(f: Format, p: nat, k: nat)
    requires f != RGB565 && k < CellsPerByte(f)
    ensures ByteOf(f, CellsPerByte(f) * p + k) == p
    ensures Shift(f, CellsPerByte(f) * p + k) == CellShift(f, k)
  {
    if f == GS2_HMSB {
      Fields(4, p, k);
    } else if f == GS4_HMSB {
      Fields(2, p, k);
    } else if OneBit(f) {
      Fields(8, p, k);
    }
  }

  lemma Fields(n: nat, p: nat, k: nat)
    requires n in {2, 4, 8} && k < n
    ensures (n * p + k) / n == p && (n * p + k) % n == k
  {
  }

  lemma CellsOfByte(f: Format, s: seq<bv8>, p: nat, k: nat)
    requires f != RGB565 && k < CellsPerByte(f) && p < |s|
    ensures ByteOf(f, CellsPerByte(f) * p + k) == p
    ensures Load(f, s, CellsPerByte(f) * p + k) == Take(s[p], Mask(f), CellShift(f, k)) as bv32
  {
    CellPlace(f, p, k);
  }

  lemma SameCell(f: Format, s: seq<bv8>, t: seq<bv8>, p: nat, k: nat)
    requires f != RGB565 && p < |s| == |t| && k < CellsPerByte(f)
    requires Load(f, s, CellsPerByte(f) * p + k) == Load(f, t, CellsPerByte(f) * p + k)
    ensures Take(s[p], Mask(f), CellShift(f, k)) == Take(t[p], Mask(f), CellShift(f, k))
  {
    CellsOfByte(f, s, p, k);
    CellsOfByte(f, t, p, k);
  }

  lemma BitShift(f: Format, i: bv8)
    requires OneBit(f) && i < 8
    ensures exists k: nat :: k < 8 && CellShift(f, k) == i
  {
    var k: nat := if f == MHLSB then 7 - i as nat else i as nat;
    assert CellShift(f, k) == i;
  }

  /** Equal cells make equal bytes. */
  lemma ByteFromCells(f: Format, s: seq<bv8>, t: seq<bv8>, p: nat)
    requires f != RGB565 && p < |s| == |t|
    requires forall k: nat | k < CellsPerByte(f) ::
               Take(s[p], Mask(f), CellShift(f, k)) == Take(t[p], Mask(f), CellShift(f, k))
    ensures s[p] == t[p]
  {
    if f == GS8 {
      assert CellShift(f, 0) == 0;
    } else if f == GS4_HMSB {
      assert CellShift(f, 0) == 4 && CellShift(f, 1) == 0;
    } else if f == GS2_HMSB {
      assert CellShift(f, 0) == 0 && CellShift(f, 1) == 2 && CellShift(f, 2) == 4 && CellShift(f, 3) == 6;
    } else {
      forall i: bv8 | i < 8 ensures Take(s[p], 1, i) == Take(t[p], 1, i) { BitShift(f, i); }
      EightBits(s[p], t[p]);
    }
  }

  lemma Split(n: nat, rows: nat, stride: nat) returns (q: nat, r: nat)
    requires stride > 0 && n < rows * stride
    ensures q < rows && r < stride && n == r + q * stride
  {
    q, r := n / stride, n % stride;
    if rows <= q { MulMonotone(rows, q, stride); }
  }

  lemma MulMonotone(a: nat, b: nat, c: nat)
    requires a <= b
    ensures a * c <= b * c
  {
  }

  lemma CellCount(g: Layout, a: nat)
    requires Sound(g) && InBuffer(g.format, BytesNeeded(g), a)
    ensures if g.format == MVLSB then a / 8 < (g.height + 7) / 8 * g.stride else a < g.height * g.stride
  {
    BytesByFormat(g);
  }

  /** Every cell of the demanded bytes belongs to a pixel. */
  lemma CellIsPixel(g: Layout, a: nat) returns (x: nat, y: nat)
    requires Sound(g) && InBuffer(g.format, BytesNeeded(g), a)
    ensures Stored(g, x, y) && Cell(g, x, y) == a
  {
    CellCount(g, a);
    if g.format == MVLSB {
      var band;
      band, x := Split(a / 8, (g.height + 7) / 8, g.stride);
      y := 8 * band + a % 8;
      Fields(8, band, a % 8);
    } else {
      y, x := Split(a, g.height, g.stride);
    }
  }

  lemma CellInBytes(f: Format, p: nat, k: nat, len: nat)
    requires f != RGB565 && k < CellsPerByte(f) && p < len
    ensures InBuffer(f, len, CellsPerByte(f) * p + k)
  {
  }

  ghost predicate SamePixels(g: Layout, s: seq<bv8>, t: seq<bv8>)
    requires Sound(g) && BytesNeeded(g) <= |s| == |t|
  {
    forall x, y | Stored(g, x, y) :: Pixel(g, s, x, y) == Pixel(g, t, x, y)
  }

  lemma SameLoads(g: Layout, s: seq<bv8>, t: seq<bv8>, a: nat)
    requires Sound(g) && BytesNeeded(g) <= |s| == |t| && SamePixels(g, s, t)
    requires InBuffer(g.format, BytesNeeded(g), a)
    ensures Load(g.format, s, a) == Load(g.format, t, a)
  {
    var x, y := CellIsPixel(g, a);
    assert Pixel(g, s, x, y) == Pixel(g, t, x, y);
  }

  lemma WordFromLoad(s: seq<bv8>, t: seq<bv8>, a: nat)
    requires 2 * a + 1 < |s| == |t| && Load(RGB565, s, a) == Load(RGB565, t, a)
    ensures s[2 * a] == t[2 * a] && s[2 * a + 1] == t[2 * a + 1]
  {
    assert Low(Load(RGB565, s, a)) == s[2 * a] && Low(Load(RGB565, t, a)) == t[2 * a];
    assert Low(Load(RGB565, s, a) >> 8) == s[2 * a + 1] && Low(Load(RGB565, t, a) >> 8) == t[2 * a + 1];
  }

  lemma SameField(g: Layout, s: seq<bv8>, t: seq<bv8>, p: nat, k: nat)
    requires Sound(g) && BytesNeeded(g) <= |s| == |t| && SamePixels(g, s, t) && p < BytesNeeded(g)
    requires g.format != RGB565 && k < CellsPerByte(g.format)
    ensures Take(s[p], Mask(g.format), CellShift(g.format, k)) == Take(t[p], Mask(g.format), CellShift(g.format, k))
  {
    CellInBytes(g.format, p, k, BytesNeeded(g));
    SameLoads(g, s, t, CellsPerByte(g.format) * p + k);
    SameCell(g.format, s, t, p, k);
  }

  lemma SameByte(g: Layout, s: seq<bv8>, t: seq<bv8>, p: nat)
    requires Sound(g) && BytesNeeded(g) <= |s| == |t| && SamePixels(g, s, t) && p < BytesNeeded(g)
    ensures s[p] == t[p]
  {
    if g.format == RGB565 {
      BytesByFormat(g);
      SameLoads(g, s, t, p / 2);
      WordFromLoad(s, t, p / 2);
    } else {
      forall k: nat | k < CellsPerByte(g.format)
        ensures Take(s[p], Mask(g.format), CellShift(g.format, k)) == Take(t[p], Mask(g.format), CellShift(g.format, k))
      {
        SameField(g, s, t, p, k);
      }
      ByteFromCells(g.format, s, t, p);
    }
  }

  /** Painting a region in a colour has exactly one outcome, down to the last byte. */
  lemma PaintedUnique(g: Layout, s: seq<bv8>, t: seq<bv8>, u: seq<bv8>, r: Region, col: Color)
    requires Sound(g) && BytesNeeded(g) <= |s|
    requires Painted(g, s, t, r, col) && Painted(g, s, u, r, col)
    ensures t == u
  {
    assert SamePixels(g, t, u);
    forall p | 0 <= p < |s| ensures t[p] == u[p] {
      if p < BytesNeeded(g) {
        SameByte(g, t, u, p);
      } else {
        assert t[p] == t[BytesNeeded(g)..][p - BytesNeeded(g)] && u[p] == u[BytesNeeded(g)..][p - BytesNeeded(g)];
      }
    }
  }

  // ---------- a run of bytes ----------

  /** `t` is `s` with `n` bytes `v` from `p` on. */
  ghost predicate RunOf(s: seq<bv8>, t: seq<bv8>, p: nat, n: nat, v: bv8) {
    |t| == |s| && forall k | 0 <= k < |s| :: t[k] == if p <= k < p + n then v else s[k]
  }

  lemma RunPixel(g: Layout, s: seq<bv8>, t: seq<bv8>, x: nat, y: nat, n: nat, col: Color, i: nat, j: nat)
    requires Sound(g) && BytesNeeded(g) <= |s| && g.format == GS8 && 0 < n && x + n <= g.stride && Stored(g, i, j)
    requires RunOf(s, t, Cell(g, x, y), n, Low(col))
    ensures Pixel(g, t, i, j) == if y == j && x <= i < x + n then Depth(GS8, col) else Pixel(g, s, i, j)
  {
    CellInside(g, i, j);
    CellRun(g, x, y, n, i, j);
    PutTake8(0, Low(col));
  }

  lemma RunEnd(g: Layout, s: seq<bv8>, t: seq<bv8>, p: nat, n: nat, v: bv8)
    requires RunOf(s, t, p, n, v) && p + n <= BytesNeeded(g) <= |s|
    ensures t[BytesNeeded(g)..] == s[BytesNeeded(g)..]
  {
  }

  /** In the eight-bit format a run of equal bytes is a run of pixels. */
  lemma RunPaints(g: Layout, s: seq<bv8>, t: seq<bv8>, x: nat, y: nat, n: nat, col: Color)
    requires Sound(g) && BytesNeeded(g) <= |s| && g.format == GS8 && 0 < n && x + n <= g.width && y < g.height
    requires RunOf(s, t, Cell(g, x, y), n, Low(col))
    ensures Painted(g, s, t, Rect(x, y, n, 1), col)
  {
    forall i, j | Stored(g, i, j)
      ensures Pixel(g, t, i, j) == if y == j && x <= i < x + n then Depth(GS8, col) else Pixel(g, s, i, j)
    {
      RunPixel(g, s, t, x, y, n, col, i, j);
    }
    CellInside(g, x + n - 1, y);
    RunEnd(g, s, t, Cell(g, x, y), n, Low(col));
  }

  // ---------- the reference form of a rectangle fill: one pixel after another ----------

  function SetVisible(g: Layout, s: seq<bv8>, x: int, y: int, col: Color): (t: seq<bv8>)
    requires Sound(g) && BytesNeeded(g) <= |s|
    ensures |t| == |s|
  {
    if Visible(g, x, y) then
      CellInside(g, x, y);
      Store(g.format, s, Cell(g, x, y), col)
    else s
  }

  function RowByPixel(g: Layout, s: seq<bv8>, x: int, y: int, w: nat, col: Color): (t: seq<bv8>)
    requires Sound(g) && BytesNeeded(g) <= |s|
    ensures |t| == |s|
  {
    if w == 0 then s else SetVisible(g, RowByPixel(g, s, x, y, w - 1, col), x + (w - 1), y, col)
  }

  function RectByPixel(g: Layout, s: seq<bv8>, x: int, y: int, w: nat, h: nat, col: Color): (t: seq<bv8>)
    requires Sound(g) && BytesNeeded(g) <= |s|
    ensures |t| == |s|
  {
    if h == 0 then s else RowByPixel(g, RectByPixel(g, s, x, y, w, h - 1, col), x, y + h - 1, w, col)
  }

  lemma SetVisiblePaints(g: Layout, s: seq<bv8>, t: seq<bv8>, r: Region, x: int, y: int, col: Color)
    requires Sound(g) && BytesNeeded(g) <= |s| && Painted(g, s, t, r, col)
    ensures Painted(g, s, SetVisible(g, t, x, y, col), r + Dot(x, y), col)
  {
    if Visible(g, x, y) {
      PaintDot(g, s, t, r, x, y, col);
    } else {
      PaintVisible(g, s, t, r, r + Dot(x, y), col);
    }
  }

  lemma {:induction false} RowByPixelPaints(g: Layout, s: seq<bv8>, x: int, y: int, w: nat, col: Color)
    requires Sound(g) && BytesNeeded(g) <= |s|
    ensures Painted(g, s, RowByPixel(g, s, x, y, w, col), Rect(x, y, w, 1), col)
  {
    if w == 0 {
      PaintNothing(g, s, col);
      assert Rect(x, y, 0, 1) == iset{};
    } else {
      RowByPixelPaints(g, s, x, y, w - 1, col);
      RowGrows(g, s, RowByPixel(g, s, x, y, w - 1, col), x, y, w - 1, col);
    }
  }

  lemma RowGrows(g: Layout, s: seq<bv8>, t: seq<bv8>, x: int, y: int, w: nat, col: Color)
    requires Sound(g) && BytesNeeded(g) <= |s| && Painted(g, s, t, Rect(x, y, w, 1), col)
    ensures Painted(g, s, SetVisible(g, t, x + w, y, col), Rect(x, y, w + 1, 1), col)
  {
    SetVisiblePaints(g, s, t, Rect(x, y, w, 1), x + w, y, col);
    DotRight(x, y, w);
  }

  lemma {:induction false} RectByPixelPaints(g: Layout, s: seq<bv8>, x: int, y: int, w: nat, h: nat, col: Color)
    requires Sound(g) && BytesNeeded(g) <= |s|
    ensures Painted(g, s, RectByPixel(g, s, x, y, w, h, col), Rect(x, y, w, h), col)
  {
    if h == 0 {
      PaintNothing(g, s, col);
      assert Rect(x, y, w, 0) == iset{};
    } else {
      var t := RectByPixel(g, s, x, y, w, h - 1, col);
      RectByPixelPaints(g, s, x, y, w, h - 1, col);
      RowByPixelPaints(g, t, x, y + h - 1, w, col);
      PaintTwice(g, s, t, RowByPixel(g, t, x, y + h - 1, w, col), Rect(x, y, w, h - 1), Rect(x, y + h - 1, w, 1), col);
      assert Rect(x, y, w, h - 1) + Rect(x, y + h - 1, w, 1) == Rect(x, y, w, h);
    }
  }

  /** A buffer in which a rectangle is painted is the buffer that pixel-by-pixel
      painting gives: the fast fills refine the slow definition. */
  lemma RectangleIsPixelwise(g: Layout, s: seq<bv8>, t: seq<bv8>, x: int, y: int, w: nat, h: nat, col: Color)
    requires Sound(g) && BytesNeeded(g) <= |s|
    requires Painted(g, s, t, Rect(x, y, w, h), col)
    ensures t == RectByPixel(g, s, x, y, w, h, col)
  {
    RectByPixelPaints(g, s, x, y, w, h, col);
    PaintedUnique(g, s, t, RectByPixel(g, s, x, y, w, h, col), Rect(x, y, w, h), col);
  }
}
