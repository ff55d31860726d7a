/** When a stride and a buffer size are enough for a picture: every visible pixel in the buffer, and
    no two of them in one place. */
module Layouts {
  import opened Pixels

  /** Values of size_t on the 32-bit target. */
  const WORD := 0x1_0000_0000

  /** The bits of all rows, without wrap-around. */
  function BitsNeeded(g: Layout): nat {
    Rows(g) * g.stride * Bpp(g.format)
  }

  /** The bytes that the constructor demands: the number of bits is computed in a size_t. */
  function BytesDemanded(g: Layout): nat {
    BitsNeeded(g) % WORD / 8
  }

  /** Pixel rows that share their bytes. */
  function Band(f: Format): nat { if f == MVLSB then 8 else 1 }

  ghost predicate Sharing(g: Layout) {
    exists x1: nat, y1: nat, x2: nat, y2: nat ::
      x1 < g.width && y1 < g.height && x2 < g.width && y2 < g.height
      && (x1, y1) != (x2, y2) && Cell(g, x1, y1) == Cell(g, x2, y2)
  }

  lemma FirstBandInjective(g: Layout, x1: nat, y1: nat, x2: nat, y2: nat)
    requires y1 < Band(g.format) && y2 < Band(g.format) && Cell(g, x1, y1) == Cell(g, x2, y2)
    ensures x1 == x2 && y1 == y2
  {
  }

  /** Two visible pixels share storage exactly when the stride is below the width and there is
      a second row of bytes. */
  lemma StrideDecidesSharing(g: Layout)
    requires g.width >= 1
    ensures Sharing(g) <==> g.stride < g.width && Band(g.format) < g.height
  {
    if g.stride < g.width && Band(g.format) < g.height {
      assert Cell(g, g.stride, 0) == Cell(g, 0, Band(g.format));
    } else if Sharing(g) {
      var x1: nat, y1: nat, x2: nat, y2: nat :|
        x1 < g.width && y1 < g.height && x2 < g.width && y2 < g.height
        && (x1, y1) != (x2, y2) && Cell(g, x1, y1) == Cell(g, x2, y2);
      if g.width <= g.stride {
        CellInjective(g, x1, y1, x2, y2);
      } else {
        FirstBandInjective(g, x1, y1, x2, y2);
      }
    }
  }

  /** The last visible pixel is in a buffer of `len` bytes. */
  predicate HasRoom(g: Layout, len: nat) {
    g.width > 0 && g.height > 0 && InBuffer(g.format, len, Cell(g, g.width - 1, g.height - 1))
  }

  /** Every visible pixel has its own place in a buffer of `len` bytes. */
  ghost predicate Usable(g: Layout, len: nat) {
    (forall x: nat, y: nat | x < g.width && y < g.height :: InBuffer(g.format, len, Cell(g, x, y)))
    && !Sharing(g)
  }

  lemma CellsOrdered(g: Layout, x1: nat, y1: nat, x2: nat, y2: nat)
    requires x1 <= x2 && y1 <= y2
    ensures ByteOf(g.format, Cell(g, x1, y1)) <= ByteOf(g.format, Cell(g, x2, y2))
  {
    if g.format == MVLSB {
      Times(y1 / 8, y2 / 8, g.stride);
    } else {
      Times(y1, y2, g.stride);
    }
  }

  lemma Times(a: nat, b: nat, k: nat)
    requires a <= b
    ensures a * k <= b * k
  {
  }

  /** A buffer is usable exactly when the last pixel is inside and the rows do not overlap. */
  lemma UsableExactly(g: Layout, len: nat)
    requires g.width >= 1 && g.height >= 1
    ensures Usable(g, len) <==> HasRoom(g, len) && (g.width <= g.stride || g.height <= Band(g.format))
  {
    StrideDecidesSharing(g);
    if HasRoom(g, len) {
      forall x: nat, y: nat | x < g.width && y < g.height ensures InBuffer(g.format, len, Cell(g, x, y)) {
        CellsOrdered(g, x, y, g.width - 1, g.height - 1);
      }
    }
  }

  /** Without wrap-around of the size, the bytes demanded have room for the picture, even if the
      stride is then stored in fewer bits. */
  lemma DemandedIsEnough(g: Layout, stored: nat)
    requires Sound(g) && stored <= g.stride && BitsNeeded(g) < WORD
    ensures BytesDemanded(g) == BytesNeeded(g) && HasRoom(g.(stride := stored), BytesNeeded(g))
  {
    CellInside(g, g.width - 1, g.height - 1);
    if g.format == MVLSB {
      TimesLess((g.height - 1) / 8, stored, g.stride);
    } else {
      TimesLess(g.height - 1, stored, g.stride);
    }
  }

  lemma TimesLess(k: nat, a: nat, b: nat)
    requires a <= b
    ensures k * a <= k * b
  {
  }

  /** Products of size_t values, factor by factor. */
  lemma WordProduct(a: nat, b: nat)
    ensures a % WORD * b % WORD == a * b % WORD
  {
    var q := a / WORD;
    assert a * b == a % WORD * b + WORD * (q * b);
    Wraps(a % WORD * b, q * b);
  }

  lemma Wraps(n: nat, k: nat)
    ensures (n + WORD * k) % WORD == n % WORD
  {
  }
}
