/** Adam7 interlacing (section 8.2 of the PNG Specification, Second Edition): the seven passes are
    a partition of the image, and where each pass begins in the three buffers of the codec. */
module Adam7 {
  import opened Bits
  import opened PixelBits

  datatype Dim = Dim(w: nat, h: nat, bpp: nat)

  const ADAM7_IX: seq<nat> := [0, 4, 0, 2, 0, 1, 0]
  const ADAM7_IY: seq<nat> := [0, 0, 4, 0, 2, 0, 1]
  const ADAM7_DX: seq<nat> := [8, 8, 4, 4, 2, 2, 1]
  const ADAM7_DY: seq<nat> := [8, 8, 8, 4, 4, 2, 2]

  function Ix(i: nat): nat { if i == 1 then 4 else if i == 3 then 2 else if i == 5 then 1 else 0 }
  function Iy(i: nat): nat { if i == 2 then 4 else if i == 4 then 2 else if i == 6 then 1 else 0 }
  function Dx(i: nat): (d: nat)
    ensures d > 0
  {
    if i <= 1 then 8 else if i <= 3 then 4 else if i <= 5 then 2 else 1
  }
  function Dy(i: nat): (d: nat)
    ensures d > 0
  {
    if i <= 2 then 8 else if i <= 4 then 4 else 2
  }

  lemma PassTables(i: nat)
    requires i < 7
    ensures ADAM7_IX[i] == Ix(i) && ADAM7_IY[i] == Iy(i) && ADAM7_DX[i] == Dx(i) && ADAM7_DY[i] == Dy(i)
  {
  }

  // ---------- how many columns and rows a pass has

  function Columns(i: nat, w: nat): nat
    requires i < 7
  {
    (w + Dx(i) - Ix(i) - 1) / Dx(i)
  }

  function Rows(i: nat, h: nat): nat
    requires i < 7
  {
    (h + Dy(i) - Iy(i) - 1) / Dy(i)
  }

  function PassW(d: Dim, i: nat): nat
    requires i < 7
  {
    if Rows(i, d.h) == 0 then 0 else Columns(i, d.w)
  }

  function PassH(d: Dim, i: nat): nat
    requires i < 7
  {
    if Columns(i, d.w) == 0 then 0 else Rows(i, d.h)
  }

  /** Place k of n places that are `step` apart, beginning at `from`. */
  lemma Places(n: nat, from: nat, step: nat, k: nat)
    requires from < step && step in {1, 2, 4, 8}
    ensures k < (n + step - from - 1) / step <==> from + k * step < n
    ensures (from + k * step) / step == k && (from + k * step) % step == from
  {
    DivModUnique(from + k * step, step, k, from);
    if step == 1 {
    } else if step == 2 {
    } else if step == 4 {
    } else {
    }
  }

  // ---------- the partition

  /** The pass a pixel belongs to. */
  function PassOf(x: nat, y: nat): (i: nat)
    ensures i < 7
  {
    if y % 2 == 1 then 6
    else if x % 2 == 1 then 5
    else if y % 4 == 2 then 4
    else if x % 4 == 2 then 3
    else if y % 8 == 4 then 2
    else if x % 8 == 4 then 1
    else 0
  }

  /** The pattern of section 8.2, which is repeated over the image. */
  lemma PassPattern(x: nat, y: nat)
    ensures [[1, 6, 4, 6, 2, 6, 4, 6],
             [7, 7, 7, 7, 7, 7, 7, 7],
             [5, 6, 5, 6, 5, 6, 5, 6],
             [7, 7, 7, 7, 7, 7, 7, 7],
             [3, 6, 4, 6, 3, 6, 4, 6],
             [7, 7, 7, 7, 7, 7, 7, 7],
             [5, 6, 5, 6, 5, 6, 5, 6],
             [7, 7, 7, 7, 7, 7, 7, 7]][y % 8][x % 8] == PassOf(x, y) + 1
  {
    Residue(x);
    Residue(y);
    InPattern(x, y, x % 8, y % 8);
  }

  lemma InPattern(x: nat, y: nat, a: nat, b: nat)
    requires a == x % 8 && b == y % 8
    ensures PassOf(x, y) == PassOf(a, b)
  {
    Low3(x);
    Low3(y);
  }

  lemma Low3(n: nat)
    ensures n % 2 == (n % 8) % 2 && n % 4 == (n % 8) % 4
  {
    var q, r := n / 8, n % 8;
    DivModUnique(n, 4, 2 * q + r / 4, r % 4);
    DivModUnique(n, 2, 4 * q + r / 2, r % 2);
  }

  /** A pixel lies in its pass, at the place given by the quotients. */
  lemma PassCovers(d: Dim, x: nat, y: nat)
    requires x < d.w && y < d.h
    ensures var i := PassOf(x, y);
      && x / Dx(i) < PassW(d, i) && y / Dy(i) < PassH(d, i)
      && x == Ix(i) + (x / Dx(i)) * Dx(i) && y == Iy(i) + (y / Dy(i)) * Dy(i)
  {
    var i := PassOf(x, y);
    PassResidues(x, y);
    Places(d.w, Ix(i), Dx(i), x / Dx(i));
    Places(d.h, Iy(i), Dy(i), y / Dy(i));
  }

  lemma PassResidues(x: nat, y: nat)
    ensures var i := PassOf(x, y); x % Dx(i) == Ix(i) && y % Dy(i) == Iy(i)
    ensures var i := PassOf(x, y); x == Ix(i) + (x / Dx(i)) * Dx(i) && y == Iy(i) + (y / Dy(i)) * Dy(i)
  {
    var i := PassOf(x, y);
    Residue(x);
    Residue(y);
    assert x % Dx(i) == Ix(i) && y % Dy(i) == Iy(i);
    hide PassOf, Dx, Dy, Ix, Iy;
    assert x == x % Dx(i) + (x / Dx(i)) * Dx(i);
    assert y == y % Dy(i) + (y / Dy(i)) * Dy(i);
  }

  lemma Residue(n: nat)
    ensures n % 2 == 1 || n % 4 == 2 || n % 8 == 4 || n % 8 == 0
    ensures n % 8 == 0 || n % 8 == 4 ==> n % 4 == 0
    ensures n % 4 == 0 || n % 4 == 2 ==> n % 2 == 0
  {
    var q, r := n / 8, n % 8;
    DivModUnique(n, 4, 2 * q + r / 4, r % 4);
    DivModUnique(n, 2, 4 * q + r / 2, r % 2);
  }

  /** Every place of a pass is a pixel, and of no other pass or place. */
  lemma PassPlaces(d: Dim, i: nat, x: nat, y: nat)
    requires i < 7 && x < PassW(d, i) && y < PassH(d, i)
    ensures var px, py := Ix(i) + x * Dx(i), Iy(i) + y * Dy(i);
      px < d.w && py < d.h && PassOf(px, py) == i && px / Dx(i) == x && py / Dy(i) == y
  {
    Places(d.w, Ix(i), Dx(i), x);
    Places(d.h, Iy(i), Dy(i), y);
    ResidueOfPass(i, x, y);
  }

  lemma ResidueOfPass(i: nat, x: nat, y: nat)
    requires i < 7
    ensures PassOf(Ix(i) + x * Dx(i), Iy(i) + y * Dy(i)) == i
  {
    Residues(Ix(i), x);
    Residues(Iy(i), y);
  }

  /** Remainders of c + k times a power of two. */
  lemma Residues(c: nat, k: nat)
    requires c < 8
    ensures (c + k * 8) % 8 == c && (c + k * 8) % 4 == c % 4 && (c + k * 8) % 2 == c % 2
    ensures c < 4 ==> (c + k * 4) % 4 == c && (c + k * 4) % 2 == c % 2
    ensures c < 2 ==> (c + k * 2) % 2 == c
    ensures k * 1 == k
  {
    DivModUnique(c + k * 8, 8, k, c);
    DivModUnique(c + k * 8, 4, 2 * k + c / 4, c % 4);
    DivModUnique(c + k * 8, 2, 4 * k + c / 2, c % 2);
    if c < 4 {
      DivModUnique(c + k * 4, 4, k, c);
      DivModUnique(c + k * 4, 2, 2 * k + c / 2, c % 2);
    }
    if c < 2 { DivModUnique(c + k * 2, 2, k, c); }
  }

  /** The areas of the passes add up to the image. */
  lemma AreasAddUp(d: Dim)
    ensures PassW(d, 0) * PassH(d, 0) + PassW(d, 1) * PassH(d, 1) + PassW(d, 2) * PassH(d, 2)
      + PassW(d, 3) * PassH(d, 3)
          + PassW(d, 4) * PassH(d, 4) + PassW(d, 5) * PassH(d, 5) + PassW(d, 6) * PassH(d, 6) == d.w * d.h
  {
    hide Columns, Rows, PassW, PassH;
    var a, b, c, e, f := Columns(0, d.w), Columns(1, d.w), Columns(2, d.w), Columns(3, d.w), Columns(4, d.w);
    var g := Columns(5, d.w);
    var r, s, t, u, v := Rows(0, d.h), Rows(2, d.h), Rows(3, d.h), Rows(4, d.h), Rows(5, d.h);
    var z := Rows(6, d.h);
    ColumnsAddUp(d.w);
    RowsAddUp(d.h);
    forall i | 0 <= i < 7 ensures PassW(d, i) * PassH(d, i) == Columns(i, d.w) * Rows(i, d.h) { NoArea(d, i); }
    MulRight(a, b, r);
    MulDist(c, r, s);
    MulRight(c, e, t);
    MulDist(f, t, u);
    MulRight(f, g, v);
    MulDist(d.w, v, z);
  }

  lemma NoArea(d: Dim, i: nat)
    requires i < 7
    ensures PassW(d, i) * PassH(d, i) == Columns(i, d.w) * Rows(i, d.h)
  {
  }

  lemma ColumnsAddUp(w: nat)
    ensures Columns(0, w) + Columns(1, w) == Columns(2, w) && Columns(2, w) + Columns(3, w) == Columns(4, w)
    ensures Columns(4, w) + Columns(5, w) == Columns(6, w) == w
  {
    HalvesAddUp(w + 7, 4);
    HalvesAddUp(w + 3, 2);
  }

  /** Every other multiple, and the multiples between them. */
  lemma HalvesAddUp(n: nat, p: nat)
    requires (p == 2 || p == 4) && n >= p
    ensures n / (2 * p) + (n - p) / (2 * p) == (n - p) / p
  {
  }

  lemma RowsAddUp(h: nat)
    ensures Rows(0, h) == Rows(1, h) && Rows(0, h) + Rows(2, h) == Rows(3, h)
    ensures Rows(3, h) + Rows(4, h) == Rows(5, h) && Rows(5, h) + Rows(6, h) == h
  {
    HalvesAddUp(h + 7, 4);
    HalvesAddUp(h + 3, 2);
  }

  // ---------- where the passes begin

  /** The bytes of a scanline without its filter type. */
  function LineBytes(width: nat, bpp: nat): nat {
    MulNat(width, bpp);
    (width * bpp + 7) / 8
  }

  function PassBits(d: Dim, i: nat): nat
    requires i < 7
  {
    MulNat(PassW(d, i), d.bpp);
    PassW(d, i) * d.bpp
  }

  function PassLine(d: Dim, i: nat): nat
    requires i < 7
  {
    LineBytes(PassW(d, i), d.bpp)
  }

  /** A pass with filter types. */
  function FilteredSize(d: Dim, i: nat): nat
    requires i < 7
  {
    Mul(PassH(d, i), 1 + PassLine(d, i))
  }

  /** A pass with every scanline padded to whole bytes. */
  function PaddedSize(d: Dim, i: nat): nat
    requires i < 7
  {
    Mul(PassH(d, i), PassLine(d, i))
  }

  /** A pass with padding at its end only. */
  function PackedSize(d: Dim, i: nat): nat
    requires i < 7
  {
    (Mul(PassH(d, i), PassBits(d, i)) + 7) / 8
  }

  function FilterStart(d: Dim, i: nat): nat
    requires i <= 7
  {
    if i == 0 then 0 else FilterStart(d, i - 1) + FilteredSize(d, i - 1)
  }

  function PaddedStart(d: Dim, i: nat): nat
    requires i <= 7
  {
    if i == 0 then 0 else PaddedStart(d, i - 1) + PaddedSize(d, i - 1)
  }

  function PassStart(d: Dim, i: nat): nat
    requires i <= 7
  {
    if i == 0 then 0 else PassStart(d, i - 1) + PackedSize(d, i - 1)
  }

  lemma SizesOrdered(d: Dim, i: nat)
    requires i < 7
    ensures PackedSize(d, i) <= PaddedSize(d, i) <= FilteredSize(d, i)
  {
    hide PassW, PassH;
    var h, n, b := PassH(d, i), PassLine(d, i), PassBits(d, i);
    assert b <= 8 * n;
    MulLe(h, h, b, 8 * n);
    assert h * (8 * n) == 8 * (h * n);
    MulLe(h, h, n, 1 + n);
  }

  /** What is decoded in place never reaches what is still to be read: the packed image of a pass
      begins no later than the padded one, and that no later than the filtered one. */
  lemma {:induction false} StartsOrdered(d: Dim, i: nat)
    requires i <= 7
    ensures PassStart(d, i) <= PaddedStart(d, i) <= FilterStart(d, i)
    decreases i
  {
    if i > 0 {
      hide PackedSize, PaddedSize, FilteredSize;
      StartsOrdered(d, i - 1);
      SizesOrdered(d, i - 1);
    }
  }

  lemma {:induction false} StartsGrow(d: Dim, i: nat, j: nat)
    requires i <= j <= 7
    ensures FilterStart(d, i) <= FilterStart(d, j) && PaddedStart(d, i) <= PaddedStart(d, j)
      && PassStart(d, i) <= PassStart(d, j)
    decreases j
  {
    hide PackedSize, PaddedSize, FilteredSize;
    if i < j { StartsGrow(d, i, j - 1); }
  }

  /** Whole bytes need no padding. */
  lemma {:induction false} NoPaddingStarts(d: Dim, i: nat)
    requires i <= 7 && d.bpp % 8 == 0
    ensures PassStart(d, i) == PaddedStart(d, i)
    decreases i
  {
    if i > 0 {
      NoPaddingStarts(d, i - 1);
      NoPaddingSize(d, i - 1);
    }
  }

  lemma WholeBytes(width: nat, bpp: nat)
    requires bpp % 8 == 0
    ensures LineBytes(width, bpp) == width * (bpp / 8) && 8 * LineBytes(width, bpp) == width * bpp
  {
    var k := bpp / 8;
    assert bpp == 8 * k;
    assert width * (8 * k) == 8 * (width * k);
    MulNat(width, k);
  }

  lemma NoPaddingSize(d: Dim, i: nat)
    requires i < 7 && d.bpp % 8 == 0
    ensures PackedSize(d, i) == PaddedSize(d, i)
  {
    hide PassW, PassH;
    WholeBytes(PassW(d, i), d.bpp);
    var h, n := PassH(d, i), PassLine(d, i);
    assert h * (8 * n) == 8 * (h * n);
    MulNat(h, n);
  }

  lemma PassBitsIs(d: Dim, i: nat)
    requires i < 7
    ensures PassBits(d, i) == Mul(PassW(d, i), d.bpp)
  {
  }

  lemma EmptyPass(d: Dim, i: nat)
    requires i < 7
    ensures PassW(d, i) == 0 <==> PassH(d, i) == 0
  {
  }

  // ---------- the size the decoder expects

  /** lodepng_get_raw_size_idat, which avoids a large product. */
  function RawSizeIdat(w: nat, h: nat, bpp: nat): nat {
    MulNat(w / 8, bpp);
    MulNat(w % 8, bpp);
    Mul(h, (w / 8) * bpp + 1 + ((w % 8) * bpp + 7) / 8)
  }

  lemma RawSizeIdatIs(w: nat, h: nat, bpp: nat)
    ensures RawSizeIdat(w, h, bpp) == Mul(h, 1 + LineBytes(w, bpp))
  {
    var q, r := w / 8, w % 8;
    assert w * bpp == 8 * (q * bpp) + r * bpp by {
      assert w == 8 * q + r;
      MulRight(8 * q, r, bpp);
      assert (8 * q) * bpp == 8 * (q * bpp);
    }
    MulNat(q, bpp);
    MulNat(r, bpp);
  }

  /** The decoder's own sum of seven terms, with the guards of the source. */
  function ExpectedSize(d: Dim): nat {
    RawSizeIdat((d.w + 7) / 8, (d.h + 7) / 8, d.bpp)
    + (if d.w > 4 then RawSizeIdat((d.w + 3) / 8, (d.h + 7) / 8, d.bpp) else 0)
    + RawSizeIdat((d.w + 3) / 4, (d.h + 3) / 8, d.bpp)
    + (if d.w > 2 then RawSizeIdat((d.w + 1) / 4, (d.h + 3) / 4, d.bpp) else 0)
    + RawSizeIdat((d.w + 1) / 2, (d.h + 1) / 4, d.bpp)
    + (if d.w > 1 then RawSizeIdat(d.w / 2, (d.h + 1) / 2, d.bpp) else 0)
    + RawSizeIdat(d.w, d.h / 2, d.bpp)
  }

  /** One term. A pass without columns has no filter types either. */
  lemma ExpectedTerm(d: Dim, i: nat)
    requires i < 7
    ensures FilteredSize(d, i) == if Columns(i, d.w) == 0 then 0 else RawSizeIdat(Columns(i, d.w), Rows(i, d.h), d.bpp)
  {
    hide LineBytes, RawSizeIdat, Columns, Rows;
    RawSizeIdatIs(Columns(i, d.w), Rows(i, d.h), d.bpp);
    MulZero(1 + PassLine(d, i));
    MulZero(1 + LineBytes(Columns(i, d.w), d.bpp));
  }

  /** Both ways to compute the size agree. */
  lemma ExpectedSizeIsFilterStart(d: Dim)
    requires d.w >= 1 && d.h >= 1
    ensures ExpectedSize(d) == FilterStart(d, 7)
  {
    hide RawSizeIdat, FilteredSize, PassW, PassH, Columns, Rows;
    forall i | 0 <= i < 7
      ensures FilteredSize(d, i) == if Columns(i, d.w) == 0 then 0
        else RawSizeIdat(Columns(i, d.w), Rows(i, d.h), d.bpp)
    {
      ExpectedTerm(d, i);
    }
    TermsOf(d.w, d.h);
    SevenStarts(d);
  }

  lemma SevenStarts(d: Dim)
    ensures FilterStart(d, 7) == FilteredSize(d, 0) + FilteredSize(d, 1) + FilteredSize(d, 2) + FilteredSize(d, 3)
      + FilteredSize(d, 4) + FilteredSize(d, 5) + FilteredSize(d, 6)
  {
    hide FilteredSize;
    assert FilterStart(d, 1) == FilterStart(d, 0) + FilteredSize(d, 0) == FilteredSize(d, 0);
    assert FilterStart(d, 2) == FilterStart(d, 1) + FilteredSize(d, 1);
    assert FilterStart(d, 3) == FilterStart(d, 2) + FilteredSize(d, 2);
    assert FilterStart(d, 4) == FilterStart(d, 3) + FilteredSize(d, 3);
    assert FilterStart(d, 5) == FilterStart(d, 4) + FilteredSize(d, 4);
    assert FilterStart(d, 6) == FilterStart(d, 5) + FilteredSize(d, 5);
    assert FilterStart(d, 7) == FilterStart(d, 6) + FilteredSize(d, 6);
  }

  lemma TermsOf(w: nat, h: nat)
    requires w >= 1 && h >= 1
    ensures Columns(0, w) == (w + 7) / 8 > 0 && Rows(0, h) == (h + 7) / 8
    ensures Columns(1, w) == (w + 3) / 8 && Rows(1, h) == (h + 7) / 8 && (Columns(1, w) == 0 <==> w <= 4)
    ensures Columns(2, w) == (w + 3) / 4 > 0 && Rows(2, h) == (h + 3) / 8
    ensures Columns(3, w) == (w + 1) / 4 && Rows(3, h) == (h + 3) / 4 && (Columns(3, w) == 0 <==> w <= 2)
    ensures Columns(4, w) == (w + 1) / 2 > 0 && Rows(4, h) == (h + 1) / 4
    ensures Columns(5, w) == w / 2 && Rows(5, h) == (h + 1) / 2 && (Columns(5, w) == 0 <==> w <= 1)
    ensures Columns(6, w) == w > 0 && Rows(6, h) == h / 2
  {
  }
}
