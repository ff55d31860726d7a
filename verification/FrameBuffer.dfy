/** The frame buffer object: construction, pixel access and the per-format rectangle fills. */
module FrameBuffers {
  import opened Pixels
  import opened Pictures
  import opened Layouts

  datatype Result<+T> = Ok(value: T) | ValueError

  function Max(a: int, b: int): int { if a > b then a else b }

  function Min(a: int, b: int): int { if a < b then a else b }

  function FormatOf(code: int): Result<Format> {
    match code
    case 0 => Ok(MVLSB)
    case 1 => Ok(RGB565)
    case 2 => Ok(GS4_HMSB)
    case 3 => Ok(MHLSB)
    case 4 => Ok(MHMSB)
    case 5 => Ok(GS2_HMSB)
    case 6 => Ok(GS8)
    case _ => ValueError
  }

  /** What the constructor demands of its arguments; the stride is the rounded one. */
  predicate Accepts(len: nat, width: int, height: int, code: int, stride: int) {
    && 1 <= width <= 0xffff && 1 <= height <= 0xffff && width <= stride <= 0xffff
    && FormatOf(code).Ok?
    && var f := FormatOf(code).value;
       BytesDemanded(Layout(f, width, height, RoundUp(stride, Grain(f)))) <= len
  }

  class FrameBuffer {
    const buf: array<bv8>
    const width: nat
    const height: nat
    const stride: nat
    const format: Format

    constructor (buf: array<bv8>, width: nat, height: nat, stride: nat, format: Format)
      ensures this.buf == buf
      ensures this.width == width && this.height == height && this.stride == stride && this.format == format
    {
      this.buf := buf;
      this.width, this.height, this.stride, this.format := width, height, stride, format;
    }

    /** The layout as the fields say. */
    ghost function Fields(): Layout {
      Layout(format, width, height, stride)
    }

    /** A single row whose stride is stored as 0 is one row of 65536. */
    ghost function RowStride(): nat { if stride == 0 && height == 1 && Grain(format) > 1 then 0x10000 else stride }

    /** The layout in use. */
    ghost function Geometry(): Layout {
      Layout(format, width, height, RowStride())
    }

    ghost predicate Valid() {
      Sound(Geometry()) && BytesNeeded(Geometry()) <= buf.Length
    }

    /** The stored stride gives the place of every row. */
    lemma RowPlace(y: nat)
      requires Valid() && y < height
      ensures y * stride == y * Geometry().stride && y * (stride / 8) == y * (Geometry().stride / 8)
      ensures stride % Grain(format) == 0 && (stride < width ==> height == 1 && Grain(format) > 1)
    {
      if stride == 0 { assert y == 0; }
    }

    /** The format switch of framebuf_make_new: rows and stride in whole bytes. */
    static method Rounding(code: int, height: nat, stride: nat)
      returns (format: Result<Format>, heightRequired: nat, rounded: nat, bpp: nat)
      ensures format == FormatOf(code)
      ensures format.Ok? ==> bpp == Bpp(format.value) && rounded == RoundUp(stride, Grain(format.value))
      ensures format.Ok? ==> heightRequired == if format.value == MVLSB then RoundUp(height, 8) else height
    {
      heightRequired, rounded, bpp := height, stride, 1;
      match code {
        case 0 => format := Ok(MVLSB); heightRequired := (height + 7) / 8 * 8;
        case 3 => format := Ok(MHLSB); rounded := (stride + 7) / 8 * 8;
        case 4 => format := Ok(MHMSB); rounded := (stride + 7) / 8 * 8;
        case 5 => format := Ok(GS2_HMSB); rounded := (stride + 3) / 4 * 4; bpp := 2;
        case 2 => format := Ok(GS4_HMSB); rounded := (stride + 1) / 2 * 2; bpp := 4;
        case 6 => format := Ok(GS8); bpp := 8;
        case 1 => format := Ok(RGB565); bpp := 16;
        case _ => format := ValueError;
      }
    }

    static lemma StrideRounding(f: Format, stride: nat)
      requires stride <= 0xffff
      ensures stride <= RoundUp(stride, Grain(f)) <= 0x10000
      ensures f == MVLSB ==> RoundUp(stride, Grain(f)) == stride
      ensures RoundUp(stride, Grain(f)) % Grain(f) == 0
    {
      RoundEight(stride);
      RoundFour(stride);
      RoundTwo(stride);
      assert RoundUp(stride, 1) == stride;
      assert Grain(f) == 8 || Grain(f) == 4 || Grain(f) == 2 || Grain(f) == 1;
    }

    static lemma RoundEight(n: nat)
      requires n <= 0xffff
      ensures n <= RoundUp(n, 8) <= 0x10000 && RoundUp(n, 8) % 8 == 0
    {
      Eights((n + 7) / 8);
    }

    static lemma RoundFour(n: nat)
      requires n <= 0xffff
      ensures n <= RoundUp(n, 4) <= 0x10000 && RoundUp(n, 4) % 4 == 0
    {
      Fours((n + 3) / 4);
    }

    static lemma RoundTwo(n: nat)
      requires n <= 0xffff
      ensures n <= RoundUp(n, 2) <= 0x10000 && RoundUp(n, 2) % 2 == 0
    {
    }

    static lemma Eights(q: nat)
      ensures q * 8 % 8 == 0
    {
    }

    static lemma Fours(q: nat)
      ensures q * 4 % 4 == 0
    {
    }

    /** The size check of framebuf_make_new, in a size_t. */
    static method Required(code: int, width: nat, height: nat, stride: nat)
      returns (format: Result<Format>, rounded: nat, required: nat)
      ensures format == FormatOf(code)
      ensures format.Ok? ==> && rounded == RoundUp(stride, Grain(format.value))
                             && required == BytesDemanded(Layout(format.value, width, height, rounded))
    {
      var heightRequired, bpp;
      format, heightRequired, rounded, bpp := Rounding(code, height, stride);
      required := heightRequired * rounded % WORD * bpp % WORD / 8;
      WordProduct(heightRequired * rounded, bpp);
    }

    /** The stride as stored in 16 bits. */
    static lemma StoredStride(f: Format, width: nat, height: nat, rounded: nat, len: nat)
      requires 1 <= width <= rounded <= 0x10000 && width <= 0xffff && 1 <= height && rounded % Grain(f) == 0
      requires f == MVLSB ==> rounded <= 0xffff
      requires BytesDemanded(Layout(f, width, height, rounded)) <= len
      ensures var g := Layout(f, width, height, rounded % 0x10000);
              && (Usable(g, len) <==> HasRoom(g, len) && (rounded <= 0xffff || height == 1))
              && (BitsNeeded(Layout(f, width, height, rounded)) < WORD ==> HasRoom(g, len))
    {
      var full, g := Layout(f, width, height, rounded), Layout(f, width, height, rounded % 0x10000);
      assert rounded % 0x10000 == if rounded <= 0xffff then rounded else 0;
      UsableExactly(g, len);
      if BitsNeeded(full) < WORD {
        DemandedIsEnough(full, g.stride);
        assert full.(stride := g.stride) == g;
      }
    }

    /** framebuf_make_new. The size is computed in 32 bits and the stride is stored in 16. Every visible
        pixel has its own place in the buffer if and only if the last one is inside and either the
        rounded stride fits its field or there is one row only. The first is sure unless the size
        in bits takes more than 32 bits. */
    static method Make(buf: array<bv8>, width: int, height: int, code: int, stride: int)
      returns (r: Result<FrameBuffer>)
      ensures r.Ok? <==> Accepts(buf.Length, width, height, code, stride)
      ensures r.Ok? ==> r.value.buf == buf && r.value.width == width && r.value.height == height
      ensures r.Ok? ==> FormatOf(code) == Ok(r.value.format)
      ensures r.Ok? ==> r.value.stride == RoundUp(stride, Grain(r.value.format)) % 0x10000
      ensures r.Ok? ==>
                var rounded, g := RoundUp(stride, Grain(r.value.format)), r.value.Fields();
                && (Usable(g, buf.Length) <==> HasRoom(g, buf.Length) && (rounded <= 0xffff || height == 1))
                && (BitsNeeded(g.(stride := rounded)) < WORD ==> HasRoom(g, buf.Length))
                && (r.value.Valid() <==>
                      (rounded <= 0xffff || height == 1) && BytesNeeded(g.(stride := rounded)) <= buf.Length)
                && (BitsNeeded(g.(stride := rounded)) < WORD ==> (r.value.Valid() <==> Usable(g, buf.Length)))
    {
      if width < 1 || height < 1 || width > 0xffff || height > 0xffff || stride > 0xffff || stride < width {
        return ValueError;
      }
      var format, rounded, required := Required(code, width, height, stride);
      if format.ValueError? || required > buf.Length {
        return ValueError;
      }
      StrideRounding(format.value, stride);
      StoredStride(format.value, width, height, rounded, buf.Length);
      var fb := new FrameBuffer(buf, width, height, rounded % 0x10000, format.value);
      fb.ValidWhenWhole(rounded);
      return Ok(fb);
    }

    lemma ValidWhenWhole(rounded: nat)
      requires 1 <= width <= rounded <= 0x10000 && width <= 0xffff && 1 <= height && rounded % Grain(format) == 0
      requires stride == rounded % 0x10000 && (Grain(format) == 1 ==> rounded <= 0xffff)
      ensures var full := Fields().(stride := rounded);
              && (Valid() <==> (rounded <= 0xffff || height == 1) && BytesNeeded(full) <= buf.Length)
              && (BitsNeeded(full) < WORD ==> BytesDemanded(full) == BytesNeeded(full))
    {
      var full := Fields().(stride := rounded);
      assert stride == if rounded <= 0xffff then rounded else 0;
      if BitsNeeded(full) < WORD { DemandedIsEnough(full, stride); }
    }

    /** The objects that the other members are about: the layout in use is that of the fields. */
    lemma ValidIsUsable()
      requires Valid()
      ensures Usable(Fields(), buf.Length)
      ensures forall x: nat, y: nat | x < width && y < height :: Cell(Fields(), x, y) == Cell(Geometry(), x, y)
    {
      var g := Geometry();
      forall x: nat, y: nat | x < width && y < height ensures Cell(Fields(), x, y) == Cell(g, x, y) {
        RowPlace(y);
      }
      CellInside(g, width - 1, height - 1);
      UsableExactly(Fields(), buf.Length);
    }

    /** Two rows of 65535 pixels, one bit each: the second is the first. */
    static method MakeWide(buf: array<bv8>) returns (r: Result<FrameBuffer>)
      requires buf.Length == 16384
      ensures r.Ok? && Sharing(r.value.Fields())
    {
      r := Make(buf, 65535, 2, 3, 65535);
      assert BytesDemanded(Layout(MHLSB, 65535, 2, 65536)) == 16384;
      StrideDecidesSharing(r.value.Fields());
    }

    /** One such row is stored as it should, and can be drawn on. */
    static method MakeWideRow(buf: array<bv8>) returns (r: Result<FrameBuffer>)
      requires buf.Length == 8192
      ensures r.Ok? && r.value.stride == 0 && Usable(r.value.Fields(), 8192) && r.value.Valid()
    {
      r := Make(buf, 65535, 1, 3, 65535);
      assert BitsNeeded(Layout(MHLSB, 65535, 1, 65536)) == 65536;
    }

    /** A picture of 2^32 bits is accepted with an empty buffer. */
    static method MakeLarge(buf: array<bv8>) returns (r: Result<FrameBuffer>)
      requires buf.Length == 0
      ensures r.Ok? && !HasRoom(r.value.Fields(), 0)
    {
      r := Make(buf, 8192, 32768, 1, 8192);
      assert BitsNeeded(Layout(RGB565, 8192, 32768, 8192)) == WORD;
    }

    /** The visible pixels of the region, and nothing else, take the colour. */
    twostate predicate Paints(r: Region, col: Color)
      requires Valid()
      reads buf
    {
      Painted(Geometry(), old(buf[..]), buf[..], r, col)
    }

    // ---------- pixels ----------

    ghost predicate Addresses(x: nat, y: nat) {
      Valid() && Visible(Geometry(), x, y)
    }

    /** The buffer once pixel (x, y) is stored. */
    ghost function Stored1(s: seq<bv8>, x: nat, y: nat, col: Color): seq<bv8>
      requires Addresses(x, y) && |s| == buf.Length
    {
      CellInside(Geometry(), x, y);
      Store(format, s, Cell(Geometry(), x, y), col)
    }

    lemma MonoHorizAddress(x: nat, y: nat)
      requires Addresses(x, y) && MonoHoriz(format)
      ensures (x + y * stride) / 8 == ByteOf(format, Cell(Geometry(), x, y)) < buf.Length
      ensures (x + y * stride) / 8 == x / 8 + y * (stride / 8)
      ensures Shift(format, Cell(Geometry(), x, y)) ==
                if format == MHMSB then (x % 8) as bv8 else (7 - x % 8) as bv8
    {
      RowPlace(y);
      CellInside(Geometry(), x, y);
      CellByte(Geometry(), x, y);
    }

    /** One byte with bit `offset` cleared, then set from the colour. */
    lemma BitWritten(s: seq<bv8>, x: nat, y: nat, col: Color, i: nat, offset: bv8, t: seq<bv8>)
      requires Addresses(x, y) && |s| == buf.Length && OneBit(format)
      requires i == ByteOf(format, Cell(Geometry(), x, y)) < |s| && offset == Shift(format, Cell(Geometry(), x, y))
      requires var bit: bv8 := if col != 0 then 1 else 0;
               t == s[i := (s[i] & !(1 << offset)) | (bit << offset)]
      ensures t == Stored1(s, x, y, col)
    {
    }

    // ---------- one pixel, format by format ----------

    /** `*b = (*b & ~(1 << offset)) | ((col != 0) << offset)`: the store of the three one-bit formats. */
    method WriteBit(ghost x: nat, ghost y: nat, b: nat, offset: bv8, col: Color)
      requires Addresses(x, y) && OneBit(format)
      requires b == ByteOf(format, Cell(Geometry(), x, y)) < buf.Length
      requires offset == Shift(format, Cell(Geometry(), x, y))
      modifies buf
      ensures buf[..] == Stored1(old(buf[..]), x, y, col)
    {
      var bit: bv8 := if col != 0 then 1 else 0;
      buf[b] := (buf[b] & !(1 << offset)) | (bit << offset);
      BitWritten(old(buf[..]), x, y, col, b, offset, buf[..]);
    }

    method MonoHorizSetPixel(x: nat, y: nat, col: Color)
      requires Addresses(x, y) && MonoHoriz(format)
      modifies buf
      ensures buf[..] == Stored1(old(buf[..]), x, y, col)
    {
      MonoHorizAddress(x, y);
      var index := (x + y * stride) / 8;
      var offset: bv8 := if format == MHMSB then (x % 8) as bv8 else (7 - x % 8) as bv8;
      WriteBit(x, y, index, offset, col);
    }

    method MonoHorizGetPixel(x: nat, y: nat) returns (r: Color)
      requires Addresses(x, y) && MonoHoriz(format)
      ensures r == Pixel(Geometry(), buf[..], x, y)
    {
      MonoHorizAddress(x, y);
      var index := (x + y * stride) / 8;
      var offset: bv8 := if format == MHMSB then (x % 8) as bv8 else (7 - x % 8) as bv8;
      r := ((buf[index] >> offset) & 1) as bv32;
    }

    lemma MvlsbAddress(x: nat, y: nat)
      requires Addresses(x, y) && format == MVLSB
      ensures y / 8 * stride + x == ByteOf(format, Cell(Geometry(), x, y)) < buf.Length
      ensures Shift(format, Cell(Geometry(), x, y)) == (y % 8) as bv8
    {
      RowPlace(y);
      CellInside(Geometry(), x, y);
    }

    method MvlsbSetPixel(x: nat, y: nat, col: Color)
      requires Addresses(x, y) && format == MVLSB
      modifies buf
      ensures buf[..] == Stored1(old(buf[..]), x, y, col)
    {
      MvlsbAddress(x, y);
      var index := y / 8 * stride + x;
      var offset := (y % 8) as bv8;
      WriteBit(x, y, index, offset, col);
    }

    method MvlsbGetPixel(x: nat, y: nat) returns (r: Color)
      requires Addresses(x, y) && format == MVLSB
      ensures r == Pixel(Geometry(), buf[..], x, y)
    {
      MvlsbAddress(x, y);
      r := ((buf[y / 8 * stride + x] >> ((y % 8) as bv8)) & 1) as bv32;
    }

    lemma Rgb565Address(x: nat, y: nat)
      requires Addresses(x, y) && format == RGB565
      ensures x + y * stride == Cell(Geometry(), x, y)
      ensures 2 * (x + y * stride) + 1 < buf.Length
    {
      RowPlace(y);
      CellInside(Geometry(), x, y);
    }

    method Rgb565SetPixel(x: nat, y: nat, col: Color)
      requires Addresses(x, y) && format == RGB565
      modifies buf
      ensures buf[..] == Stored1(old(buf[..]), x, y, col)
    {
      Rgb565Address(x, y);
      var i := x + y * stride;
      buf[2 * i] := Low(col);
      buf[2 * i + 1] := Low(col >> 8);
    }

    method Rgb565GetPixel(x: nat, y: nat) returns (r: Color)
      requires Addresses(x, y) && format == RGB565
      ensures r == Pixel(Geometry(), buf[..], x, y)
    {
      Rgb565Address(x, y);
      var i := x + y * stride;
      r := (buf[2 * i] as bv32) | ((buf[2 * i + 1] as bv32) << 8);
    }

    lemma Gs2Address(x: nat, y: nat)
      requires Addresses(x, y) && format == GS2_HMSB
      ensures (x + y * stride) / 4 == ByteOf(format, Cell(Geometry(), x, y)) < buf.Length
      ensures Shift(format, Cell(Geometry(), x, y)) == (2 * (x % 4)) as bv8
    {
      RowPlace(y);
      CellInside(Geometry(), x, y);
      CellByte(Geometry(), x, y);
    }

    method Gs2SetPixel(x: nat, y: nat, col: Color)
      requires Addresses(x, y) && format == GS2_HMSB
      modifies buf
      ensures buf[..] == Stored1(old(buf[..]), x, y, col)
    {
      Gs2Address(x, y);
      var pixel := (x + y * stride) / 4;
      var shift := (2 * (x % 4)) as bv8;
      var mask := 3 << shift;
      var color := Low(col & 3) << shift;
      buf[pixel] := color | (buf[pixel] & !mask);
    }

    method Gs2GetPixel(x: nat, y: nat) returns (r: Color)
      requires Addresses(x, y) && format == GS2_HMSB
      ensures r == Pixel(Geometry(), buf[..], x, y)
    {
      Gs2Address(x, y);
      var shift := (2 * (x % 4)) as bv8;
      r := ((buf[(x + y * stride) / 4] >> shift) & 3) as bv32;
    }

    lemma Gs4Address(x: nat, y: nat)
      requires Addresses(x, y) && format == GS4_HMSB
      ensures (x + y * stride) / 2 == ByteOf(format, Cell(Geometry(), x, y)) < buf.Length
      ensures Shift(format, Cell(Geometry(), x, y)) == if x % 2 == 1 then 0 else 4
    {
      RowPlace(y);
      CellInside(Geometry(), x, y);
      CellByte(Geometry(), x, y);
    }

    lemma NibbleWritten(b: bv8, col: Color)
      ensures (Low(col) & 0x0f) | (b & 0xf0) == Put(b, 15, 0, Low(col & 0xf))
      ensures (Low(col) << 4) | (b & 0x0f) == Put(b, 15, 4, Low(col & 0xf))
    {
    }

    method Gs4SetPixel(x: nat, y: nat, col: Color)
      requires Addresses(x, y) && format == GS4_HMSB
      modifies buf
      ensures buf[..] == Stored1(old(buf[..]), x, y, col)
    {
      Gs4Address(x, y);
      var pixel := (x + y * stride) / 2;
      NibbleWritten(buf[pixel], col);
      if x % 2 == 1 {
        buf[pixel] := (Low(col) & 0x0f) | (buf[pixel] & 0xf0);
      } else {
        buf[pixel] := (Low(col) << 4) | (buf[pixel] & 0x0f);
      }
    }

    method Gs4GetPixel(x: nat, y: nat) returns (r: Color)
      requires Addresses(x, y) && format == GS4_HMSB
      ensures r == Pixel(Geometry(), buf[..], x, y)
    {
      Gs4Address(x, y);
      if x % 2 == 1 {
        return (buf[(x + y * stride) / 2] & 0x0f) as bv32;
      }
      return (buf[(x + y * stride) / 2] >> 4) as bv32;
    }

    lemma Gs8Address(x: nat, y: nat)
      requires Addresses(x, y) && format == GS8
      ensures x + y * stride == ByteOf(format, Cell(Geometry(), x, y)) < buf.Length
    {
      RowPlace(y);
      CellInside(Geometry(), x, y);
    }

    method Gs8SetPixel(x: nat, y: nat, col: Color)
      requires Addresses(x, y) && format == GS8
      modifies buf
      ensures buf[..] == Stored1(old(buf[..]), x, y, col)
    {
      Gs8Address(x, y);
      buf[x + y * stride] := Low(col);
    }

    method Gs8GetPixel(x: nat, y: nat) returns (r: Color)
      requires Addresses(x, y) && format == GS8
      ensures r == Pixel(Geometry(), buf[..], x, y)
    {
      Gs8Address(x, y);
      r := buf[x + y * stride] as bv32;
    }

    /** setpixel: dispatch on the format. */
    method SetPixel(x: nat, y: nat, col: Color)
      requires Addresses(x, y)
      modifies buf
      ensures Paints(Dot(x, y), col)
    {
      StorePaints(Geometry(), buf[..], x, y, col);
      match format
      case MVLSB => MvlsbSetPixel(x, y, col);
      case RGB565 => Rgb565SetPixel(x, y, col);
      case GS2_HMSB => Gs2SetPixel(x, y, col);
      case GS4_HMSB => Gs4SetPixel(x, y, col);
      case GS8 => Gs8SetPixel(x, y, col);
      case _ => MonoHorizSetPixel(x, y, col);
    }

    method GetPixel(x: nat, y: nat) returns (r: Color)
      requires Addresses(x, y)
      ensures r == Pixel(Geometry(), buf[..], x, y)
    {
      match format
      case MVLSB => r := MvlsbGetPixel(x, y);
      case RGB565 => r := Rgb565GetPixel(x, y);
      case GS2_HMSB => r := Gs2GetPixel(x, y);
      case GS4_HMSB => r := Gs4GetPixel(x, y);
      case GS8 => r := Gs8GetPixel(x, y);
      case _ => r := MonoHorizGetPixel(x, y);
    }

    // ---------- rectangle fills, format by format ----------

    ghost predicate Fits(x: nat, y: nat, w: nat, h: nat) {
      Valid() && 0 < w && x + w <= width && 0 < h && y + h <= height
    }

    /** One more pixel below a painted column. */
    lemma Lengthen(s: seq<bv8>, t: seq<bv8>, x: nat, y: nat, n: nat, col: Color)
      requires Addresses(x, y + n) && |s| == buf.Length && Painted(Geometry(), s, t, Rect(x, y, 1, n), col)
      ensures Painted(Geometry(), s, Stored1(t, x, y + n, col), Rect(x, y, 1, n + 1), col)
    {
      PaintBelow(Geometry(), s, t, x, y, n, col);
    }

    /** One more pixel to the right of a painted row. */
    lemma Widen(s: seq<bv8>, t: seq<bv8>, x: nat, y: nat, n: nat, col: Color)
      requires Addresses(x + n, y) && |s| == buf.Length && Painted(Geometry(), s, t, Rect(x, y, n, 1), col)
      ensures Painted(Geometry(), s, Stored1(t, x + n, y, col), Rect(x, y, n + 1, 1), col)
    {
      PaintRight(Geometry(), s, t, x, y, n, col);
    }

    /** One more painted row below a painted rectangle. */
    lemma AddRow(s: seq<bv8>, t: seq<bv8>, u: seq<bv8>, x: nat, y: nat, w: nat, n: nat, col: Color)
      requires Valid() && |s| == buf.Length
      requires Painted(Geometry(), s, t, Rect(x, y, w, n), col) && Painted(Geometry(), t, u, Rect(x, y + n, w, 1), col)
      ensures Painted(Geometry(), s, u, Rect(x, y, w, n + 1), col)
    {
      PaintTwice(Geometry(), s, t, u, Rect(x, y, w, n), Rect(x, y + n, w, 1), col);
      assert Rect(x, y, w, n) + Rect(x, y + n, w, 1) == Rect(x, y, w, n + 1);
    }

    /** One more painted column to the right of a painted rectangle. */
    lemma AddColumn(s: seq<bv8>, t: seq<bv8>, u: seq<bv8>, x: nat, y: nat, n: nat, h: nat, col: Color)
      requires Valid() && |s| == buf.Length
      requires Painted(Geometry(), s, t, Rect(x, y, n, h), col) && Painted(Geometry(), t, u, Rect(x + n, y, 1, h), col)
      ensures Painted(Geometry(), s, u, Rect(x, y, n + 1, h), col)
    {
      PaintTwice(Geometry(), s, t, u, Rect(x, y, n, h), Rect(x + n, y, 1, h), col);
      assert Rect(x, y, n, h) + Rect(x + n, y, 1, h) == Rect(x, y, n + 1, h);
    }

    lemma Unpainted(s: seq<bv8>, x: nat, y: nat, w: nat, h: nat, col: Color)
      requires Valid() && |s| == buf.Length && (w == 0 || h == 0)
      ensures Painted(Geometry(), s, s, Rect(x, y, w, h), col)
    {
    }

    /** The inner loop of mono_horiz_fill_rect: one column, byte pointer stepping by rows. */
    method MonoHorizFillColumn(x: nat, y: nat, h: nat, col: Color)
      requires Fits(x, y, 1, h) && MonoHoriz(format)
      modifies buf
      ensures Paints(Rect(x, y, 1, h), col)
    {
      ghost var s := buf[..];
      var advance := stride / 8;
      var b := x / 8 + y * advance;
      var offset: bv8 := if format == MHMSB then (x % 8) as bv8 else (7 - x % 8) as bv8;
      Unpainted(s, x, y, 1, 0, col);
      for n := 0 to h
        invariant b == x / 8 + (y + n) * advance
        invariant Painted(Geometry(), s, buf[..], Rect(x, y, 1, n), col)
      {
        MonoHorizAddress(x, y + n);
        Lengthen(s, buf[..], x, y, n, col);
        WriteBit(x, y + n, b, offset, col);
        b := b + advance;
        assert (y + n + 1) * advance == (y + n) * advance + advance;
      }
    }

    /** One turn of the column loop. */
    method MonoHorizFillNext(x: nat, y: nat, ghost n: nat, xx: nat, h: nat, col: Color, ghost s: seq<bv8>)
      requires Fits(x, y, n + 1, h) && MonoHoriz(format) && |s| == buf.Length && xx == x + n
      requires Painted(Geometry(), s, buf[..], Rect(x, y, n, h), col)
      modifies buf
      ensures Painted(Geometry(), s, buf[..], Rect(x, y, n + 1, h), col)
    {
      ghost var t := buf[..];
      MonoHorizFillColumn(xx, y, h, col);
      AddColumn(s, t, buf[..], x, y, n, h, col);
    }

    method MonoHorizFillRect(x: nat, y: nat, w: nat, h: nat, col: Color)
      requires Fits(x, y, w, h) && MonoHoriz(format)
      modifies buf
      ensures Paints(Rect(x, y, w, h), col)
    {
      ghost var s := buf[..];
      Unpainted(s, x, y, 0, h, col);
      for n := 0 to w
        invariant Painted(Geometry(), s, buf[..], Rect(x, y, n, h), col)
      {
        MonoHorizFillNext(x, y, n, x + n, h, col, s);
      }
    }

    /** The inner loop of mvlsb_fill_rect: one row, one bit of consecutive bytes. */
    method MvlsbFillRow(x: nat, y: nat, w: nat, col: Color)
      requires Fits(x, y, w, 1) && format == MVLSB
      modifies buf
      ensures Paints(Rect(x, y, w, 1), col)
    {
      ghost var s := buf[..];
      var b := y / 8 * stride + x;
      var offset := (y % 8) as bv8;
      Unpainted(s, x, y, 0, 1, col);
      for n := 0 to w
        invariant b == y / 8 * stride + x + n
        invariant Painted(Geometry(), s, buf[..], Rect(x, y, n, 1), col)
      {
        MvlsbAddress(x + n, y);
        Widen(s, buf[..], x, y, n, col);
        WriteBit(x + n, y, b, offset, col);
        b := b + 1;
      }
    }

    method MvlsbFillRect(x: nat, y: nat, w: nat, h: nat, col: Color)
      requires Fits(x, y, w, h) && format == MVLSB
      modifies buf
      ensures Paints(Rect(x, y, w, h), col)
    {
      ghost var s := buf[..];
      Unpainted(s, x, y, w, 0, col);
      for n := 0 to h
        invariant Painted(Geometry(), s, buf[..], Rect(x, y, w, n), col)
      {
        ghost var t := buf[..];
        MvlsbFillRow(x, y + n, w, col);
        AddRow(s, t, buf[..], x, y, w, n, col);
      }
    }

    /** The inner loop of rgb565_fill_rect; `b` walks the words of the row. */
    method Rgb565FillRow(ghost x: nat, ghost y: nat, w: nat, b0: nat, col: Color) returns (b: nat)
      requires Fits(x, y, w, 1) && format == RGB565 && b0 == x + y * stride
      modifies buf
      ensures b == b0 + w
      ensures Paints(Rect(x, y, w, 1), col)
    {
      ghost var s := buf[..];
      b := b0;
      Unpainted(s, x, y, 0, 1, col);
      for n := 0 to w
        invariant b == b0 + n
        invariant Painted(Geometry(), s, buf[..], Rect(x, y, n, 1), col)
      {
        Rgb565Address(x + n, y);
        ghost var t := buf[..];
        buf[2 * b] := Low(col);
        buf[2 * b + 1] := Low(col >> 8);
        assert buf[..] == Stored1(t, x + n, y, col);
        Widen(s, t, x, y, n, col);
        b := b + 1;
      }
    }

    method Rgb565FillRect(x: nat, y: nat, w: nat, h: nat, col: Color)
      requires Fits(x, y, w, h) && format == RGB565
      modifies buf
      ensures Paints(Rect(x, y, w, h), col)
    {
      ghost var s := buf[..];
      var b := x + y * stride;
      Unpainted(s, x, y, w, 0, col);
      for n := 0 to h
        invariant b == x + (y + n) * stride
        invariant Painted(Geometry(), s, buf[..], Rect(x, y, w, n), col)
      {
        ghost var t := buf[..];
        b := Rgb565FillRow(x, y + n, w, b, col);
        AddRow(s, t, buf[..], x, y, w, n, col);
        b := b + (stride - w);
        assert (y + n + 1) * stride == (y + n) * stride + stride;
      }
    }

    method Gs2FillColumn(x: nat, y: nat, h: nat, col: Color)
      requires Fits(x, y, 1, h) && format == GS2_HMSB
      modifies buf
      ensures Paints(Rect(x, y, 1, h), col)
    {
      ghost var s := buf[..];
      Unpainted(s, x, y, 1, 0, col);
      for n := 0 to h
        invariant Painted(Geometry(), s, buf[..], Rect(x, y, 1, n), col)
      {
        Lengthen(s, buf[..], x, y, n, col);
        Gs2SetPixel(x, y + n, col);
      }
    }

    method Gs2FillRect(x: nat, y: nat, w: nat, h: nat, col: Color)
      requires Fits(x, y, w, h) && format == GS2_HMSB
      modifies buf
      ensures Paints(Rect(x, y, w, h), col)
    {
      ghost var s := buf[..];
      Unpainted(s, x, y, 0, h, col);
      for n := 0 to w
        invariant Painted(Geometry(), s, buf[..], Rect(x, y, n, h), col)
      {
        ghost var t := buf[..];
        Gs2FillColumn(x + n, y, h, col);
        AddColumn(s, t, buf[..], x, y, n, h, col);
      }
    }

    /** memset on the pixel storage. */
    method Memset(p: nat, v: bv8, n: nat)
      requires p + n <= buf.Length
      modifies buf
      ensures buf[..] == Set(old(buf[..]), p, v, n)
    {
      for i := 0 to n
        invariant forall k | 0 <= k < buf.Length :: buf[k] == if p <= k < p + i then v else old(buf[k])
      {
        buf[p + i] := v;
      }
    }

    static function Set(s: seq<bv8>, p: nat, v: bv8, n: nat): (t: seq<bv8>)
      requires p + n <= |s|
      ensures |t| == |s| && forall k | 0 <= k < |t| :: t[k] == if p <= k < p + n then v else s[k]
    {
      s[..p] + seq(n, _ => v) + s[p + n..]
    }

    /** A run of equal bytes paints a run of pixels. */
    lemma BytesPaint(s: seq<bv8>, x: nat, y: nat, n: nat, col: Color)
      requires Fits(x, y, n, 1) && format == GS8 && |s| == buf.Length
      ensures x + y * stride + n <= |s|
      ensures Painted(Geometry(), s, Set(s, x + y * stride, Low(col), n), Rect(x, y, n, 1), col)
    {
      RowPlace(y);
      CellInside(Geometry(), x + n - 1, y);
      RunPaints(Geometry(), s, Set(s, x + y * stride, Low(col), n), x, y, n, col);
    }

    /** One turn of the row loop. */
    method Gs8FillNext(ghost x: nat, ghost y: nat, w: nat, ghost n: nat, pixel: nat, col: Color, ghost s: seq<bv8>)
      requires Fits(x, y, w, n + 1) && format == GS8 && |s| == buf.Length && pixel == x + (y + n) * stride
      requires Painted(Geometry(), s, buf[..], Rect(x, y, w, n), col)
      modifies buf
      ensures Painted(Geometry(), s, buf[..], Rect(x, y, w, n + 1), col)
    {
      ghost var t := buf[..];
      BytesPaint(t, x, y + n, w, col);
      Memset(pixel, Low(col), w);
      AddRow(s, t, buf[..], x, y, w, n, col);
    }

    method Gs8FillRect(x: nat, y: nat, w: nat, h: nat, col: Color)
      requires Fits(x, y, w, h) && format == GS8
      modifies buf
      ensures Paints(Rect(x, y, w, h), col)
    {
      ghost var s := buf[..];
      var pixel := x + y * stride;
      Unpainted(s, x, y, w, 0, col);
      for n := 0 to h
        invariant pixel == x + (y + n) * stride
        invariant Painted(Geometry(), s, buf[..], Rect(x, y, w, n), col)
      {
        Gs8FillNext(x, y, w, n, pixel, col, s);
        pixel := pixel + stride;
        assert (y + n + 1) * stride == (y + n) * stride + stride;
      }
    }

    lemma PairLoads(col: Color)
      ensures var c := Low(col) & 0x0f;
              var pair := (c << 4) | c;
              Take(pair, 15, 0) as bv32 == col & 0xf && Take(pair, 15, 4) as bv32 == col & 0xf
    {
    }

    lemma PairPixel(s: seq<bv8>, p: nat, n: nat, col: Color, a: nat)
      requires format == GS4_HMSB && p + n <= |s| && a / 2 < |s|
      ensures var c := Low(col) & 0x0f;
              Load(format, Set(s, p, (c << 4) | c, n), a)
                == if 2 * p <= a < 2 * p + 2 * n then Depth(format, col) else Load(format, s, a)
    {
      PairLoads(col);
    }

    lemma PairsInside(x: nat, y: nat, n: nat)
      requires Fits(x, y, 2 * n, 1) && format == GS4_HMSB && x % 2 == 0
      ensures Cell(Geometry(), x, y) == 2 * ((x + y * stride) / 2)
      ensures (x + y * stride) / 2 + n <= BytesNeeded(Geometry())
    {
      RowPlace(y);
      var g := Geometry();
      CellByte(g, x, y);
      CellByte(g, x + 2 * n - 1, y);
      CellInside(g, x + 2 * n - 1, y);
    }

    /** A run of equal bytes paints a run of pixel pairs, from an even column on. */
    lemma PairsPaint(s: seq<bv8>, x: nat, y: nat, n: nat, p: nat, pair: bv8, col: Color)
      requires Fits(x, y, 2 * n, 1) && format == GS4_HMSB && |s| == buf.Length && x % 2 == 0
      requires p == (x + y * stride) / 2 && pair == ((Low(col) & 0x0f) << 4) | (Low(col) & 0x0f)
      ensures p + n <= |s|
      ensures Painted(Geometry(), s, Set(s, p, pair, n), Rect(x, y, 2 * n, 1), col)
    {
      var g := Geometry();
      PairsInside(x, y, n);
      var t := Set(s, p, pair, n);
      forall i, j | Stored(g, i, j)
        ensures Pixel(g, t, i, j) == if (i, j) in Rect(x, y, 2 * n, 1) then Depth(format, col) else Pixel(g, s, i, j)
      {
        CellInside(g, i, j);
        CellRun(g, x, y, 2 * n, i, j);
        PairPixel(s, p, n, col, Cell(g, i, j));
      }
    }

    lemma NibblePaints(s: seq<bv8>, x: nat, y: nat, col: Color)
      requires Addresses(x, y) && format == GS4_HMSB && |s| == buf.Length
      ensures (x + y * stride) / 2 < |s|
      ensures var p := (x + y * stride) / 2;
              var c := Low(col) & 0x0f;
              var b := if x % 2 == 1 then (s[p] & 0xf0) | c else (c << 4) | (s[p] & 0x0f);
              Painted(Geometry(), s, s[p := b], Rect(x, y, 1, 1), col)
    {
      Gs4Address(x, y);
      StorePaints(Geometry(), s, x, y, col);
      var p := (x + y * stride) / 2;
      NibbleWritten(s[p], col);
      assert Rect(x, y, 1, 1) == Dot(x, y);
    }

    lemma JoinRuns(s: seq<bv8>, t: seq<bv8>, u: seq<bv8>, x: nat, y: nat, m: nat, n: nat, col: Color)
      requires Valid() && |s| == buf.Length
      requires Painted(Geometry(), s, t, Rect(x, y, m, 1), col) && Painted(Geometry(), t, u, Rect(x + m, y, n, 1), col)
      ensures Painted(Geometry(), s, u, Rect(x, y, m + n, 1), col)
    {
      PaintTwice(Geometry(), s, t, u, Rect(x, y, m, 1), Rect(x + m, y, n, 1), col);
      assert Rect(x, y, m, 1) + Rect(x + m, y, n, 1) == Rect(x, y, m + n, 1);
    }

    /** The leading odd nibble, if any. */
    method Gs4FillLead(ghost x: nat, ghost y: nat, w: nat, p0: nat, oddX: bool, col: Color)
      returns (p: nat, ww: nat)
      requires Fits(x, y, w, 1) && format == GS4_HMSB
      requires p0 == (x + y * stride) / 2 && oddX == (x % 2 == 1)
      modifies buf
      ensures if oddX then p == p0 + 1 && ww == w - 1 else p == p0 && ww == w
      ensures (x + (w - ww)) % 2 == 0 && p == (x + (w - ww) + y * stride) / 2
      ensures Paints(Rect(x, y, w - ww, 1), col)
    {
      NibbleWalk(x, y, x % 2);
      p, ww := p0, w;
      if oddX && ww > 0 {
        NibblePaints(buf[..], x, y, col);
        buf[p] := (buf[p] & 0xf0) | (Low(col) & 0x0f);
        p, ww := p + 1, ww - 1;
      } else {
        Unpainted(buf[..], x, y, 0, 1, col);
      }
    }

    /** The whole bytes: memset of pixel pairs from an even column. */
    method Gs4FillPairs(ghost x: nat, ghost y: nat, ghost w: nat, p: nat, n: nat, col: Color)
      requires Valid() && x + w <= width && y < height && 2 * n <= w && format == GS4_HMSB
      requires x % 2 == 0 && p == (x + y * stride) / 2
      modifies buf
      ensures Paints(Rect(x, y, 2 * n, 1), col)
    {
      if n == 0 {
        Unpainted(buf[..], x, y, 0, 1, col);
      } else {
        var pair := ((Low(col) & 0x0f) << 4) | (Low(col) & 0x0f);
        PairsPaint(buf[..], x, y, n, p, pair, col);
        Memset(p, pair, n);
      }
    }

    /** The trailing even nibble, if any. */
    method Gs4FillTail(ghost x: nat, ghost y: nat, ww: nat, p0: nat, oddX: bool, col: Color) returns (p: nat)
      requires Valid() && x + ww % 2 <= width && y < height && format == GS4_HMSB
      requires x % 2 == 0 && p0 == (x + y * stride) / 2
      modifies buf
      ensures p == if ww % 2 == 1 && !oddX then p0 + 1 else p0
      ensures Paints(Rect(x, y, ww % 2, 1), col)
    {
      p := p0;
      if ww % 2 == 1 {
        NibblePaints(buf[..], x, y, col);
        buf[p] := ((Low(col) & 0x0f) << 4) | (buf[p] & 0x0f);
        if !oddX {
          p := p + 1;
        }
      } else {
        Unpainted(buf[..], x, y, 0, 1, col);
      }
    }

    lemma NibbleWalk(x: nat, y: nat, d: nat)
      requires Valid() && format == GS4_HMSB && (x + d) % 2 == 0
      ensures ((x + d) + y * stride) / 2 == (x + y * stride) / 2 + (if x % 2 == 1 then 1 + (d - 1) / 2 else d / 2)
    {
      RowPlace(0);
      CellByte(Fields(), x, y);
      CellByte(Fields(), x + d, y);
    }

    lemma RowAdvance(w: nat, oddX: bool, lead: nat)
      requires stride % 2 == 0 && 0 < w <= stride && lead == if oddX then 1 else 0
      ensures var ww := w - lead;
              lead + ww / 2 + (if ww % 2 == 1 && !oddX then 1 else 0) + (stride - w) / 2 == stride / 2
    {
    }

    lemma EvenWalk(x: nat, y: nat, n: nat)
      requires Valid() && format == GS4_HMSB && x % 2 == 0
      ensures (x + 2 * n) % 2 == 0 && (x + 2 * n + y * stride) / 2 == (x + y * stride) / 2 + n
    {
      NibbleWalk(x, y, 2 * n);
    }

    /** Whole bytes and trailing nibble of a run that starts on an even column. */
    method Gs4FillEven(ghost x: nat, ghost y: nat, ww: nat, p0: nat, oddX: bool, col: Color) returns (p: nat)
      requires Valid() && x + ww <= width && y < height && format == GS4_HMSB
      requires x % 2 == 0 && p0 == (x + y * stride) / 2
      modifies buf
      ensures p == p0 + ww / 2 + if ww % 2 == 1 && !oddX then 1 else 0
      ensures Paints(Rect(x, y, ww, 1), col)
    {
      ghost var s := buf[..];
      var pairs := ww / 2;
      Gs4FillPairs(x, y, ww, p0, pairs, col);
      p := p0 + pairs;
      EvenWalk(x, y, pairs);
      ghost var t := buf[..];
      p := Gs4FillTail(x + 2 * pairs, y, ww, p, oddX, col);
      JoinRuns(s, t, buf[..], x, y, 2 * pairs, ww % 2, col);
    }

    /** One pass of the row loop of gs4_hmsb_fill_rect. The pointer ends such that
        adding `pixel_count_till_next_line` has advanced it by exactly stride / 2, if the row is not
        wider than the stride; a row that is wider is the only one. */
    method Gs4FillRow(ghost x: nat, ghost y: nat, w: nat, p0: nat, oddX: bool, col: Color) returns (p: nat)
      requires Fits(x, y, w, 1) && format == GS4_HMSB
      requires p0 == (x + y * stride) / 2 && oddX == (x % 2 == 1)
      modifies buf
      ensures w <= stride ==> p + (stride - w) / 2 == p0 + stride / 2
      ensures Paints(Rect(x, y, w, 1), col)
    {
      ghost var s := buf[..];
      var ww;
      p, ww := Gs4FillLead(x, y, w, p0, oddX, col);
      ghost var lead := w - ww;
      RowPlace(y);
      if w <= stride { RowAdvance(w, oddX, lead); }
      ghost var t := buf[..];
      p := Gs4FillEven(x + lead, y, ww, p, oddX, col);
      JoinRuns(s, t, buf[..], x, y, lead, ww, col);
    }

    lemma NextRowPair(x: nat, y: nat)
      requires stride % 2 == 0
      ensures (x + (y + 1) * stride) / 2 == (x + y * stride) / 2 + stride / 2
    {
      assert (y + 1) * stride == y * stride + stride;
    }

    /** pixel_count_till_next_line, an unsigned difference. */
    function TillNextLine(w: nat): nat
      requires Valid() && w <= width
    {
      (if w <= stride then stride - w else stride + WORD - w) / 2
    }

    /** Where the next row begins, if there is one. */
    lemma NextRow(x: nat, y: nat, w: nat, p0: nat, p: nat)
      requires Fits(x, y, w, 1) && format == GS4_HMSB && p0 == (x + y * stride) / 2
      requires w <= stride ==> p + (stride - w) / 2 == p0 + stride / 2
      ensures y + 1 < height ==> p + TillNextLine(w) == (x + (y + 1) * stride) / 2
    {
      RowPlace(y);
      NextRowPair(x, y);
    }

    /** One turn of the row loop. */
    method Gs4FillNext(ghost x: nat, ghost y: nat, w: nat, ghost n: nat, p0: nat, oddX: bool, col: Color,
                       ghost s: seq<bv8>)
      returns (p: nat)
      requires Fits(x, y, w, n + 1) && format == GS4_HMSB && |s| == buf.Length
      requires p0 == (x + (y + n) * stride) / 2 && oddX == (x % 2 == 1)
      requires Painted(Geometry(), s, buf[..], Rect(x, y, w, n), col)
      modifies buf
      ensures y + n + 1 < height ==> p == (x + (y + (n + 1)) * stride) / 2
      ensures Painted(Geometry(), s, buf[..], Rect(x, y, w, n + 1), col)
    {
      ghost var t := buf[..];
      p := Gs4FillRow(x, y + n, w, p0, oddX, col);
      AddRow(s, t, buf[..], x, y, w, n, col);
      NextRow(x, y + n, w, p0, p);
      p := p + TillNextLine(w);
    }

    method Gs4FillRect(x: nat, y: nat, w: nat, h: nat, col: Color)
      requires Fits(x, y, w, h) && format == GS4_HMSB
      modifies buf
      ensures Paints(Rect(x, y, w, h), col)
    {
      ghost var s := buf[..];
      var pixelPair := (x + y * stride) / 2;
      var oddX := x % 2 == 1;
      Unpainted(s, x, y, w, 0, col);
      for n := 0 to h
        invariant n < h ==> pixelPair == (x + (y + n) * stride) / 2
        invariant Painted(Geometry(), s, buf[..], Rect(x, y, w, n), col)
      {
        pixelPair := Gs4FillNext(x, y, w, n, pixelPair, oddX, col, s);
      }
    }

    // ---------- clipping ----------

    method DispatchFillRect(x: nat, y: nat, w: nat, h: nat, col: Color)
      requires Fits(x, y, w, h)
      modifies buf
      ensures Paints(Rect(x, y, w, h), col)
    {
      match format
      case MVLSB => MvlsbFillRect(x, y, w, h, col);
      case RGB565 => Rgb565FillRect(x, y, w, h, col);
      case GS2_HMSB => Gs2FillRect(x, y, w, h, col);
      case GS4_HMSB => Gs4FillRect(x, y, w, h, col);
      case GS8 => Gs8FillRect(x, y, w, h, col);
      case _ => MonoHorizFillRect(x, y, w, h, col);
    }

    lemma PixelwiseFill(s: seq<bv8>, t: seq<bv8>, x: int, y: int, w: int, h: int, col: Color)
      requires Valid() && |s| == buf.Length && Painted(Geometry(), s, t, Rect(x, y, w, h), col)
      ensures t == RectByPixel(Geometry(), s, x, y, Max(w, 0), Max(h, 0), col)
    {
      assert Rect(x, y, w, h) == Rect(x, y, Max(w, 0), Max(h, 0));
      RectangleIsPixelwise(Geometry(), s, t, x, y, Max(w, 0), Max(h, 0), col);
    }

    /** fill_rect: any rectangle, clipped to the picture; the same buffer as setting
        the pixels of the rectangle one by one. */
    method FillRect(x: int, y: int, w: int, h: int, col: Color)
      requires Valid()
      modifies buf
      ensures Paints(Rect(x, y, w, h), col)
      ensures buf[..] == RectByPixel(Geometry(), old(buf[..]), x, y, Max(w, 0), Max(h, 0), col)
    {
      ghost var s := buf[..];
      PaintNothing(Geometry(), s, col);
      if h < 1 || w < 1 || x + w <= 0 || y + h <= 0 || y >= height || x >= width {
        PaintVisible(Geometry(), s, s, iset{}, Rect(x, y, w, h), col);
        PixelwiseFill(s, s, x, y, w, h, col);
        return;
      }
      var xend := Min(width, x + w);
      var yend := Min(height, y + h);
      var x0, y0 := Max(x, 0), Max(y, 0);
      DispatchFillRect(x0, y0, xend - x0, yend - y0, col);
      PaintVisible(Geometry(), s, buf[..], Rect(x0, y0, xend - x0, yend - y0), Rect(x, y, w, h), col);
      PixelwiseFill(s, buf[..], x, y, w, h, col);
    }

    /** setpixel_checked with a non-zero mask, and the bounds test of line. */
    method SetPixelChecked(x: int, y: int, col: Color, mask: bool)
      requires Valid()
      modifies buf
      ensures Paints(if mask then Dot(x, y) else iset{}, col)
    {
      PaintNothing(Geometry(), buf[..], col);
      if mask && 0 <= x < width && 0 <= y < height {
        SetPixel(x, y, col);
      } else {
        PaintVisible(Geometry(), buf[..], buf[..], iset{}, if mask then Dot(x, y) else iset{}, col);
      }
    }
  }
}
