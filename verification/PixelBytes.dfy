/** What the numbers of the formats mean, from the arguments of the constructor down to the bits of
    the buffer. */
module PixelBytes {
  import opened Pixels
  import opened Layouts
  import opened FrameBuffers

  /** The stride in pixels, up to the end of a byte. */
  function Whole(code: int, stride: nat): nat {
    match code
    case 2 => (stride + 1) / 2 * 2
    case 3 => (stride + 7) / 8 * 8
    case 4 => (stride + 7) / 8 * 8
    case 5 => (stride + 3) / 4 * 4
    case _ => stride
  }

  /** The bytes of a picture: format 0 has eight rows to a byte, formats 3 and 4 have eight pixels of a
      row, 5 has four, 2 has two, 6 has one, and 1 has two bytes to a pixel. */
  function ByteCount(code: int, height: nat, stride: nat): nat {
    match code
    case 0 => (height + 7) / 8 * stride
    case 1 => height * stride * 2
    case 2 => height * ((stride + 1) / 2)
    case 3 => height * ((stride + 7) / 8)
    case 4 => height * ((stride + 7) / 8)
    case 5 => height * ((stride + 3) / 4)
    case _ => height * stride
  }

  /** The (first) byte of a pixel, in a stride of whole bytes. */
  function ByteNo(code: int, stride: nat, x: nat, y: nat): int {
    match code
    case 0 => y / 8 * stride + x
    case 1 => 2 * (x + y * stride)
    case 2 => x / 2 + y * (stride / 2)
    case 3 => x / 8 + y * (stride / 8)
    case 4 => x / 8 + y * (stride / 8)
    case 5 => x / 4 + y * (stride / 4)
    case _ => x + y * stride
  }

  predicate Inside(code: int, stride: nat, len: nat, x: nat, y: nat) {
    0 <= ByteNo(code, stride, x, y) < len - (if code == 1 then 1 else 0)
  }

  /** The colour of a pixel in the bytes. */
  function Seen(code: int, stride: nat, s: seq<bv8>, x: nat, y: nat): Color
    requires Inside(code, stride, |s|, x, y)
  {
    var i := ByteNo(code, stride, x, y);
    match code
    case 0 => ((s[i] >> (y % 8)) & 1) as bv32
    case 1 => (s[i] as bv32) | ((s[i + 1] as bv32) << 8)
    case 2 => (if x % 2 == 0 then s[i] >> 4 else s[i] & 0x0f) as bv32
    case 3 => ((s[i] >> (7 - x % 8)) & 1) as bv32
    case 4 => ((s[i] >> (x % 8)) & 1) as bv32
    case 5 => ((s[i] >> (2 * (x % 4))) & 3) as bv32
    case _ => s[i] as bv32
  }

  /** As much of a colour as a pixel holds. */
  function Held(code: int, col: Color): Color {
    match code
    case 1 => col & 0xffff
    case 2 => col & 0x0f
    case 5 => col & 0x03
    case 6 => col & 0xff
    case _ => if col == 0 then 0 else 1
  }

  /** The arguments of the constructor that have a picture for every pixel of which there is a place. */
  predicate Fits(len: nat, width: int, height: int, code: int, stride: int) {
    && 1 <= width <= stride <= 0xffff && 1 <= height <= 0xffff && 0 <= code <= 6
    && ByteCount(code, height, stride) <= len && (Whole(code, stride) <= 0xffff || height == 1)
  }

  lemma SizeIs(code: int, width: nat, height: nat, stride: nat, g: Layout)
    requires 0 <= code <= 6 && FormatOf(code).Ok?
    requires g == Layout(FormatOf(code).value, width, height, RoundUp(stride, Grain(FormatOf(code).value)))
    ensures g.stride == Whole(code, stride)
    ensures Rows(g) * g.stride * Bpp(g.format) == 8 * ByteCount(code, height, stride)
  {
    match code
    case 0 => Regroup((height + 7) / 8, 8, stride, 1);
    case 1 => Regroup(height, 1, stride, 16);
    case 2 => Regroup(height, (stride + 1) / 2, 2, 4);
    case 3 => Regroup(height, (stride + 7) / 8, 8, 1);
    case 4 => Regroup(height, (stride + 7) / 8, 8, 1);
    case 5 => Regroup(height, (stride + 3) / 4, 4, 2);
    case _ => Regroup(height, 1, stride, 8);
  }

  lemma Regroup(a: nat, b: nat, c: nat, d: nat)
    ensures a * (b * c) * d == a * b * c * d && a * b * c * d == c * d * (a * b)
  {
  }

  lemma SeenIsPixel(g: Layout, code: int, s: seq<bv8>, x: nat, y: nat)
    requires Sound(g) && BytesNeeded(g) <= |s| && Visible(g, x, y) && FormatOf(code) == Ok(g.format)
    ensures Inside(code, g.stride, |s|, x, y) && Seen(code, g.stride, s, x, y) == Pixel(g, s, x, y)
  {
    if g.format == GS4_HMSB {
      NibbleSeen(g, s, x, y);
    } else if g.format == GS2_HMSB || g.format == GS8 {
      FieldSeen(g, code, s, x, y);
    } else if MonoHoriz(g.format) {
      RowBitSeen(g, code, s, x, y);
    } else if g.format == MVLSB {
      BandSeen(g, code, s, x, y);
    } else {
      WordSeen(g, code, s, x, y);
    }
  }

  lemma BandSeen(g: Layout, code: int, s: seq<bv8>, x: nat, y: nat)
    requires Sound(g) && BytesNeeded(g) <= |s| && Visible(g, x, y) && FormatOf(code) == Ok(g.format)
    requires code == 0
    ensures Inside(code, g.stride, |s|, x, y) && Seen(code, g.stride, s, x, y) == Pixel(g, s, x, y)
  {
    CellInside(g, x, y);
    CellByte(g, x, y);
  }

  lemma WordSeen(g: Layout, code: int, s: seq<bv8>, x: nat, y: nat)
    requires Sound(g) && BytesNeeded(g) <= |s| && Visible(g, x, y) && FormatOf(code) == Ok(g.format)
    requires code == 1
    ensures Inside(code, g.stride, |s|, x, y) && Seen(code, g.stride, s, x, y) == Pixel(g, s, x, y)
  {
    CellInside(g, x, y);
    CellByte(g, x, y);
  }

  lemma RowBitSeen(g: Layout, code: int, s: seq<bv8>, x: nat, y: nat)
    requires Sound(g) && BytesNeeded(g) <= |s| && Visible(g, x, y) && FormatOf(code) == Ok(g.format)
    requires code in {3, 4}
    ensures Inside(code, g.stride, |s|, x, y) && Seen(code, g.stride, s, x, y) == Pixel(g, s, x, y)
  {
    CellInside(g, x, y);
    CellByte(g, x, y);
  }

  lemma FieldSeen(g: Layout, code: int, s: seq<bv8>, x: nat, y: nat)
    requires Sound(g) && BytesNeeded(g) <= |s| && Visible(g, x, y) && FormatOf(code) == Ok(g.format)
    requires code in {5, 6}
    ensures Inside(code, g.stride, |s|, x, y) && Seen(code, g.stride, s, x, y) == Pixel(g, s, x, y)
  {
    CellInside(g, x, y);
    CellByte(g, x, y);
    if code == 6 { PutTake8(s[x + y * g.stride], s[x + y * g.stride]); }
  }

  lemma NibbleSeen(g: Layout, s: seq<bv8>, x: nat, y: nat)
    requires Sound(g) && BytesNeeded(g) <= |s| && Visible(g, x, y) && FormatOf(2) == Ok(g.format)
    ensures Inside(2, g.stride, |s|, x, y) && Seen(2, g.stride, s, x, y) == Pixel(g, s, x, y)
  {
    CellInside(g, x, y);
    CellByte(g, x, y);
    NibbleIs(s[x / 2 + y * (g.stride / 2)], x % 2 == 0);
  }

  lemma NibbleIs(b: bv8, high: bool)
    ensures (if high then b >> 4 else b & 0x0f) == Take(b, 15, if high then 4 else 0)
  {
  }

  lemma HeldIsDepth(code: int, col: Color)
    requires FormatOf(code).Ok?
    ensures Held(code, col) == Depth(FormatOf(code).value, col)
  {
  }

  lemma FittingAccepted(len: nat, width: int, height: int, code: int, stride: int)
    requires Fits(len, width, height, code, stride)
    ensures Accepts(len, width, height, code, stride)
    ensures var f := FormatOf(code).value; var g := Layout(f, width, height, Whole(code, stride));
            RoundUp(stride, Grain(f)) == g.stride && BytesNeeded(g) <= len
  {
    var f := FormatOf(code).value;
    var g := Layout(f, width, height, RoundUp(stride, Grain(f)));
    SizeIs(code, width, height, stride, g);
    DemandedAtMost(g);
  }

  /** Arguments that fit are accepted, and the object is one that can be drawn on. */
  method MakeFitting(buf: array<bv8>, width: int, height: int, code: int, stride: int) returns (fb: FrameBuffer)
    requires Fits(buf.Length, width, height, code, stride)
    ensures fb.buf == buf && fb.Valid() && FormatOf(code) == Ok(fb.format)
    ensures fb.Geometry() == Layout(fb.format, width, height, Whole(code, stride))
  {
    FittingAccepted(buf.Length, width, height, code, stride);
    var r := FrameBuffer.Make(buf, width, height, code, stride);
    fb := r.value;
    assert fb.Fields().(stride := Whole(code, stride)) == Layout(fb.format, width, height, Whole(code, stride));
    RowStrideIs(fb, code, stride);
  }

  lemma RowStrideIs(fb: FrameBuffer, code: int, stride: nat)
    requires 1 <= stride <= 0xffff && FormatOf(code) == Ok(fb.format) && fb.stride == Whole(code, stride) % 0x10000
    requires Whole(code, stride) <= 0xffff || fb.height == 1
    ensures fb.RowStride() == Whole(code, stride)
  {
  }

  lemma DemandedAtMost(g: Layout)
    ensures BytesDemanded(g) <= BytesNeeded(g)
  {
  }

  /** A picture as its bytes show it. */
  ghost predicate Shows(code: int, width: nat, height: nat, stride: nat, s: seq<bv8>, t: seq<bv8>, x: int, y: int,
                        w: int, h: int, col: Color)
  {
    forall u: nat, v: nat {:trigger Inside(code, stride, |t|, u, v)} | u < width && v < height ::
      && Inside(code, stride, |s|, u, v) && Inside(code, stride, |t|, u, v)
      && Seen(code, stride, t, u, v) ==
         if x <= u < x + w && y <= v < y + h then Held(code, col) else Seen(code, stride, s, u, v)
  }

  lemma PaintedShows(g: Layout, code: int, s: seq<bv8>, t: seq<bv8>, r: Region, x: int, y: int, w: int, h: int,
                     col: Color)
    requires Sound(g) && BytesNeeded(g) <= |s| && FormatOf(code) == Ok(g.format) && Painted(g, s, t, r, col)
    requires forall u, v :: (u, v) in r <==> x <= u < x + w && y <= v < y + h
    ensures Shows(code, g.width, g.height, g.stride, s, t, x, y, w, h, col)
  {
    HeldIsDepth(code, col);
    forall u: nat, v: nat | u < g.width && v < g.height
      ensures Inside(code, g.stride, |s|, u, v) && Inside(code, g.stride, |t|, u, v)
      ensures Seen(code, g.stride, t, u, v) ==
              if x <= u < x + w && y <= v < y + h then Held(code, col) else Seen(code, g.stride, s, u, v)
    {
      SeenIsPixel(g, code, s, u, v);
      SeenIsPixel(g, code, t, u, v);
    }
  }

  /** From the arguments to the bytes: one pixel. */
  method MakeAndSet(buf: array<bv8>, width: int, height: int, code: int, stride: int, x: nat, y: nat, col: Color)
    requires Fits(buf.Length, width, height, code, stride) && x < width && y < height
    modifies buf
    ensures Shows(code, width, height, Whole(code, stride), old(buf[..]), buf[..], x, y, 1, 1, col)
  {
    var fb := MakeFitting(buf, width, height, code, stride);
    fb.SetPixel(x, y, col);
    PaintedShows(fb.Geometry(), code, old(buf[..]), buf[..], Dot(x, y), x, y, 1, 1, col);
  }

  /** From the arguments to the bytes: a rectangle. */
  method MakeAndFill(buf: array<bv8>, width: int, height: int, code: int, stride: int, x: int, y: int, w: int, h: int,
                     col: Color)
    requires Fits(buf.Length, width, height, code, stride)
    modifies buf
    ensures Shows(code, width, height, Whole(code, stride), old(buf[..]), buf[..], x, y, w, h, col)
  {
    var fb := MakeFitting(buf, width, height, code, stride);
    fb.FillRect(x, y, w, h, col);
    PaintedShows(fb.Geometry(), code, old(buf[..]), buf[..], Rect(x, y, w, h), x, y, w, h, col);
  }

  /** And back. */
  method MakeAndGet(buf: array<bv8>, width: int, height: int, code: int, stride: int, x: nat, y: nat)
    returns (col: Color)
    requires Fits(buf.Length, width, height, code, stride) && x < width && y < height
    ensures Inside(code, Whole(code, stride), buf.Length, x, y)
    ensures col == Seen(code, Whole(code, stride), buf[..], x, y)
  {
    var fb := MakeFitting(buf, width, height, code, stride);
    col := fb.GetPixel(x, y);
    SeenIsPixel(fb.Geometry(), code, buf[..], x, y);
  }

  /** For pictures of less than 2^32 bits the constructor accepts exactly these arguments. */
  lemma AcceptsExactly(len: nat, width: int, height: int, code: int, stride: int)
    requires 0 <= height && 0 <= stride && 8 * ByteCount(code, height, stride) < 0x1_0000_0000
    ensures Accepts(len, width, height, code, stride) <==>
            && 1 <= width <= stride <= 0xffff && 1 <= height <= 0xffff && 0 <= code <= 6
            && ByteCount(code, height, stride) <= len
  {
    if 1 <= width && 0 <= code <= 6 {
      var f := FormatOf(code).value;
      SizeIs(code, width, height, stride, Layout(f, width, height, RoundUp(stride, Grain(f))));
    }
  }

  /** The first pixel of a row is the top bit in format 3 and the bottom bit in format 4. */
  method FirstBit(buf: array<bv8>, code: int)
    requires buf.Length == 1 && buf[0] == 0 && (code == 3 || code == 4)
    modifies buf
    ensures buf[0] == if code == 3 then 0x80 else 0x01
  {
    MakeAndSet(buf, 8, 1, code, 8, 0, 0, 1);
    var fromTop := code == 3;
    forall k: nat | k < 8 ensures RowBit(buf[0], fromTop, k) == if k == 0 then 1 else 0 {
      assert Inside(code, 8, |buf[..]|, k, 0);
      assert Seen(code, 8, buf[..], k, 0) == if k == 0 then 1 else 0;
    }
    OnlyFirst(buf[0], fromTop);
  }

  function RowBit(b: bv8, fromTop: bool, k: nat): bv8
    requires k < 8
  {
    (b >> (if fromTop then 7 - k else k)) & 1
  }

  lemma OnlyFirst(b: bv8, fromTop: bool)
    requires forall k: nat | k < 8 :: RowBit(b, fromTop, k) == if k == 0 then 1 else 0
    ensures b == if fromTop then 0x80 else 0x01
  {
    assert RowBit(b, fromTop, 0) == 1 && RowBit(b, fromTop, 1) == 0 && RowBit(b, fromTop, 2) == 0;
    assert RowBit(b, fromTop, 3) == 0 && RowBit(b, fromTop, 4) == 0 && RowBit(b, fromTop, 5) == 0;
    assert RowBit(b, fromTop, 6) == 0 && RowBit(b, fromTop, 7) == 0;
  }
}
