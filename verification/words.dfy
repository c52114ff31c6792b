/** The 32-bit arithmetic of the codec on the dimensions of an image: what the source computes, and
    exactly when it is what the passes really need. */
module Words {
  import opened Bits
  import opened Adam7

  const WORD: nat := 0x1_0000_0000

  /** An unsigned of the source. */
  function U32(x: nat): (r: nat)
    ensures r < WORD && r <= x && (r == x <==> x < WORD)
  {
    x % WORD
  }

  // ---------- what Adam7_getpassvalues computes

  function Columns32(i: nat, w: nat): nat
    requires i < 7
  {
    U32(w + Dx(i) - Ix(i) - 1) / Dx(i)
  }

  function Rows32(i: nat, h: nat): nat
    requires i < 7
  {
    U32(h + Dy(i) - Iy(i) - 1) / Dy(i)
  }

  function PassW32(d: Dim, i: nat): nat
    requires i < 7
  {
    if Rows32(i, d.h) == 0 then 0 else Columns32(i, d.w)
  }

  function PassH32(d: Dim, i: nat): nat
    requires i < 7
  {
    if Columns32(i, d.w) == 0 then 0 else Rows32(i, d.h)
  }

  function Line32(width: nat, bpp: nat): nat {
    U32(Mul(width, bpp) + 7) / 8
  }

  function FilteredSize32(d: Dim, i: nat): nat
    requires i < 7
  {
    if PassW32(d, i) == 0 || PassH32(d, i) == 0 then 0 else U32(Mul(PassH32(d, i), 1 + Line32(PassW32(d, i), d.bpp)))
  }

  function PaddedSize32(d: Dim, i: nat): nat
    requires i < 7
  {
    U32(Mul(PassH32(d, i), Line32(PassW32(d, i), d.bpp)))
  }

  function PackedSize32(d: Dim, i: nat): nat
    requires i < 7
  {
    U32(Mul(PassH32(d, i), Mul(PassW32(d, i), d.bpp)) + 7) / 8
  }

  function FilterStart32(d: Dim, i: nat): nat
    requires i <= 7
  {
    if i == 0 then 0 else FilterStart32(d, i - 1) + FilteredSize32(d, i - 1)
  }

  function PaddedStart32(d: Dim, i: nat): nat
    requires i <= 7
  {
    if i == 0 then 0 else PaddedStart32(d, i - 1) + PaddedSize32(d, i - 1)
  }

  function PassStart32(d: Dim, i: nat): nat
    requires i <= 7
  {
    if i == 0 then 0 else PassStart32(d, i - 1) + PackedSize32(d, i - 1)
  }

  // ---------- exactly when that is right

  /** No width or height of a pass wraps. */
  predicate DimFits(d: Dim) {
    d.w + 7 < WORD && d.h + 7 < WORD
  }

  /** Neither the bits nor the filtered bytes of pass i wrap. */
  predicate PassFits32(d: Dim, i: nat)
    requires i < 7
  {
    Mul(PassH(d, i), PassBits(d, i)) + 7 < WORD && FilteredSize(d, i) < WORD
  }

  /** What has to be checked of an interlaced image. */
  predicate Fits(d: Dim) {
    DimFits(d) && forall i :: 0 <= i < 7 ==> PassFits32(d, i)
  }

  lemma SameDims(d: Dim, i: nat)
    requires i < 7 && DimFits(d)
    ensures PassW32(d, i) == PassW(d, i) && PassH32(d, i) == PassH(d, i)
  {
  }

  /** Numbers of bits that wrap are bytes that are missing. */
  lemma WrappedBytes(x: nat)
    ensures U32(x) / 8 == x / 8 <==> x < WORD
  {
  }

  ghost predicate SameSizes(d: Dim, i: nat)
    requires i < 7
  {
    && FilteredSize32(d, i) == FilteredSize(d, i) && PaddedSize32(d, i) == PaddedSize(d, i)
    && PackedSize32(d, i) == PackedSize(d, i)
  }

  lemma SizesExact(d: Dim, i: nat)
    requires i < 7 && DimFits(d)
    ensures SameSizes(d, i) <==> PassFits32(d, i)
  {
    hide PackedSize32, PackedSize, FilteredSize32, FilteredSize, PaddedSize32, PaddedSize, PassBits, Mul;
    PackedExact(d, i);
    if Mul(PassH(d, i), PassBits(d, i)) + 7 < WORD { LinesExact(d, i); }
  }

  lemma PackedExact(d: Dim, i: nat)
    requires i < 7 && DimFits(d)
    ensures PackedSize32(d, i) == PackedSize(d, i) <==> Mul(PassH(d, i), PassBits(d, i)) + 7 < WORD
  {
    SameDims(d, i);
    PassBitsIs(d, i);
    hide PassW, PassH, PassW32, PassH32, PassBits, Mul, U32;
    WrappedBytes(Mul(PassH(d, i), PassBits(d, i)) + 7);
  }

  lemma LinesExact(d: Dim, i: nat)
    requires i < 7 && DimFits(d) && Mul(PassH(d, i), PassBits(d, i)) + 7 < WORD
    ensures FilteredSize32(d, i) == FilteredSize(d, i) <==> FilteredSize(d, i) < WORD
    ensures FilteredSize(d, i) < WORD ==> PaddedSize32(d, i) == PaddedSize(d, i)
  {
    SameDims(d, i);
    EmptyPass(d, i);
    SizesOrdered(d, i);
    var h, n := PassH(d, i), PassLine(d, i);
    if h == 0 {
      hide PassW, PassH, PassW32, PassH32, U32, PassLine;
      MulZero(1 + n);
      MulZero(n);
      MulZero(Line32(PassW(d, i), d.bpp));
    } else {
      hide PassW, PassH, PassW32, PassH32, U32;
      PassBitsIs(d, i);
      MulAtLeast(h, PassBits(d, i));
      assert Line32(PassW(d, i), d.bpp) == n;
      hide PassLine, Line32, Mul;
    }
  }

  /** The places where the passes begin, in all three buffers. */
  ghost predicate SameStarts(d: Dim) {
    forall i :: 0 <= i <= 7 ==>
      FilterStart32(d, i) == FilterStart(d, i) && PaddedStart32(d, i) == PaddedStart(d, i)
        && PassStart32(d, i) == PassStart(d, i)
  }

  /** The places that the source computes are right exactly if the image fits. */
  lemma StartsExact(d: Dim)
    requires 0 < d.w < WORD && 0 < d.h < WORD
    ensures SameStarts(d) <==> Fits(d)
  {
    hide PassFits32, FilteredSize32, PaddedSize32, PackedSize32, FilteredSize, PaddedSize, PackedSize, PassW, PassH,
         PassW32, PassH32;
    if DimFits(d) {
      forall i | 0 <= i < 7 ensures SameSizes(d, i) <==> PassFits32(d, i) { SizesExact(d, i); }
      SameSizesAreSameStarts(d);
    } else {
      FirstPassLost(d);
    }
  }

  lemma StartsFit(d: Dim)
    requires Fits(d)
    ensures forall i :: 0 <= i < 7 ==> PassW32(d, i) == PassW(d, i) && PassH32(d, i) == PassH(d, i)
    ensures SameStarts(d)
  {
    hide PassFits32, FilteredSize32, PaddedSize32, PackedSize32, FilteredSize, PaddedSize, PackedSize, PassW, PassH,
         PassW32, PassH32;
    forall i | 0 <= i < 7 ensures SameSizes(d, i) && PassW32(d, i) == PassW(d, i) && PassH32(d, i) == PassH(d, i) {
      SizesExact(d, i);
      SameDims(d, i);
    }
    SameSizesAreSameStarts(d);
  }

  lemma SameSizesAreSameStarts(d: Dim)
    ensures SameStarts(d) <==> forall i :: 0 <= i < 7 ==> SameSizes(d, i)
  {
    hide FilteredSize32, PaddedSize32, PackedSize32, FilteredSize, PaddedSize, PackedSize;
    if SameStarts(d) {
      forall i | 0 <= i < 7 ensures SameSizes(d, i) {
        assert FilterStart32(d, i) == FilterStart(d, i) && FilterStart32(d, i + 1) == FilterStart(d, i + 1);
      }
    } else if forall i :: 0 <= i < 7 ==> SameSizes(d, i) {
      forall i | 0 <= i <= 7
        ensures FilterStart32(d, i) == FilterStart(d, i) && PaddedStart32(d, i) == PaddedStart(d, i)
          && PassStart32(d, i) == PassStart(d, i)
      {
        SameStart(d, i);
      }
    }
  }

  lemma {:induction false} SameStart(d: Dim, i: nat)
    requires i <= 7 && forall k :: 0 <= k < i ==> SameSizes(d, k)
    ensures FilterStart32(d, i) == FilterStart(d, i) && PaddedStart32(d, i) == PaddedStart(d, i)
      && PassStart32(d, i) == PassStart(d, i)
  {
    hide FilteredSize32, PaddedSize32, PackedSize32, FilteredSize, PaddedSize, PackedSize;
    if i > 0 {
      SameStart(d, i - 1);
      assert SameSizes(d, i - 1);
    }
  }

  /** Of an image as wide or as high as that the first pass is lost altogether. */
  lemma FirstPassLost(d: Dim)
    requires 0 < d.w < WORD && 0 < d.h < WORD && !DimFits(d)
    ensures FilterStart32(d, 1) == 0 < FilterStart(d, 1)
  {
    assert Columns32(0, d.w) == 0 || Rows32(0, d.h) == 0;
    assert PassH(d, 0) > 0;
    MulAtLeast(PassH(d, 0), 1 + PassLine(d, 0));
    hide PassH, PassLine;
    assert FilteredSize32(d, 0) == 0 && FilteredSize(d, 0) > 0;
    assert FilterStart32(d, 0) == 0 && FilterStart(d, 0) == 0;
  }

  /** An image of 16384 * 16384 pixels of 32 bits does not fit: its last pass has 2^32 bits, and the
      buffer for the passes is half as large as they are. With 64 bits two passes begin at one place. */
  lemma LargeImageLost()
    ensures !Fits(Dim(16384, 16384, 32)) && !Fits(Dim(16384, 16384, 64))
    ensures PackedSize32(Dim(16384, 16384, 32), 6) == 0 && PackedSize(Dim(16384, 16384, 32), 6) == 0x2000_0000
    ensures PackedSize32(Dim(16384, 16384, 64), 5) == 0 && PackedSize(Dim(16384, 16384, 64), 5) == 0x2000_0000
    ensures PassStart32(Dim(16384, 16384, 64), 6) == PassStart32(Dim(16384, 16384, 64), 5)
  {
    PassLost(Dim(16384, 16384, 32), 6);
    PassLost(Dim(16384, 16384, 64), 5);
    hide *;
    NextPass(Dim(16384, 16384, 64), 5);
  }

  lemma PassLost(d: Dim, i: nat)
    requires d.w == d.h == 16384 && (if d.bpp == 32 then i == 6 else d.bpp == 64 && i == 5)
    ensures !Fits(d) && PackedSize32(d, i) == 0 && PackedSize(d, i) == 0x2000_0000
  {
    SameDims(d, i);
    PassBitsIs(d, i);
    assert PassH(d, i) == 8192 && PassW(d, i) == if i == 6 then 16384 else 8192;
    assert Mul(8192, Mul(16384, 32)) == WORD && Mul(8192, Mul(8192, 64)) == WORD;
    hide PassW, PassH, PassW32, PassH32, FilteredSize, Mul, PassBits;
    assert Mul(PassH(d, i), PassBits(d, i)) == WORD;
    assert U32(WORD + 7) == 7;
    assert !PassFits32(d, i);
  }

  lemma NextPass(d: Dim, i: nat)
    requires i < 7
    ensures PassStart32(d, i + 1) == PassStart32(d, i) + PackedSize32(d, i)
  {
    hide PackedSize32;
  }

  // ---------- the size the decoder expects

  /** Neither the bits of a line of pass i wrap, nor its filtered bytes. */
  predicate LinesFit(d: Dim, i: nat)
    requires i < 7
  {
    FilteredSize(d, i) < WORD && (PassH(d, i) > 0 ==> PassBits(d, i) + 7 < WORD)
  }

  /** As long as no width or height wraps, the decoder expects what the passes really need; that is where the
      32-bit passes end exactly if neither a filtered pass nor the bits of one of its lines wrap. */
  lemma ExpectedSizeExact(d: Dim)
    requires DimFits(d) && d.w >= 1 && d.h >= 1
    ensures FilterStart32(d, 7) == ExpectedSize(d) <==> forall i :: 0 <= i < 7 ==> LinesFit(d, i)
  {
    hide FilteredSize, FilteredSize32, ExpectedSize, LinesFit;
    ExpectedSizeIsFilterStart(d);
    FilterStartExact(d, 7);
  }

  lemma {:induction false} FilterStartExact(d: Dim, i: nat)
    requires i <= 7 && DimFits(d)
    ensures FilterStart32(d, i) <= FilterStart(d, i)
    ensures FilterStart32(d, i) == FilterStart(d, i) <==> forall k :: 0 <= k < i ==> LinesFit(d, k)
    decreases i
  {
    hide FilteredSize, FilteredSize32, LinesFit;
    if i > 0 {
      FilterStartExact(d, i - 1);
      FilteredSizeExact(d, i - 1);
    }
  }

  lemma FilteredSizeExact(d: Dim, i: nat)
    requires i < 7 && DimFits(d)
    ensures FilteredSize32(d, i) <= FilteredSize(d, i)
    ensures FilteredSize32(d, i) == FilteredSize(d, i) <==> LinesFit(d, i)
  {
    SameDims(d, i);
    EmptyPass(d, i);
    hide PassW, PassH, PassW32, PassH32, U32;
    var pw, ph := PassW(d, i), PassH(d, i);
    PassBitsIs(d, i);
    MulZero(1 + PassLine(d, i));
    if ph > 0 {
      assert Line32(pw, d.bpp) <= PassLine(d, i);
      WrappedBytes(PassBits(d, i) + 7);
      MulLe(ph, ph, 1 + Line32(pw, d.bpp), 1 + PassLine(d, i));
      MulSame(ph, 1 + Line32(pw, d.bpp), 1 + PassLine(d, i));
    }
  }

  // ---------- the offsets of single pixels

  /** The interlacer counts the pixels of the image, or their bits if they are less than a byte, in
      32 bits. */
  function Offset(d: Dim, x: nat, y: nat): nat {
    Mul(Mul(y, d.w) + x, if d.bpp < 8 then d.bpp else 1)
  }

  /** None of these offsets wraps exactly if the last one does not. */
  predicate OffsetsFit(d: Dim) {
    d.w > 0 && d.h > 0 ==> Offset(d, d.w - 1, d.h - 1) < WORD
  }

  lemma OffsetsExact(d: Dim)
    requires d.w > 0 && d.h > 0
    ensures OffsetsFit(d) <==> forall x: nat, y: nat :: x < d.w && y < d.h ==> U32(Offset(d, x, y)) == Offset(d, x, y)
  {
    forall x: nat, y: nat | x < d.w && y < d.h ensures Offset(d, x, y) <= Offset(d, d.w - 1, d.h - 1) {
      LastIsGreatest(d, x, y);
    }
    hide Offset;
    assert OffsetsFit(d) <==> U32(Offset(d, d.w - 1, d.h - 1)) == Offset(d, d.w - 1, d.h - 1);
  }

  lemma LastIsGreatest(d: Dim, x: nat, y: nat)
    requires x < d.w && y < d.h
    ensures Offset(d, x, y) <= Offset(d, d.w - 1, d.h - 1)
  {
    var k := if d.bpp < 8 then d.bpp else 1;
    MulLe(d.w, d.w, y, d.h - 1);
    MulComm(d.w, y);
    MulComm(d.w, d.h - 1);
    MulLe(k, k, Mul(y, d.w) + x, Mul(d.h - 1, d.w) + (d.w - 1));
    MulComm(k, Mul(y, d.w) + x);
    MulComm(k, Mul(d.h - 1, d.w) + (d.w - 1));
  }

  /** With pixels of 4 bits an image of 32768 columns and 32770 rows has passes that fit, but bits
      that the interlacer cannot count. */
  lemma LastBitsLost()
    ensures Fits(Dim(32768, 32770, 4)) && !OffsetsFit(Dim(32768, 32770, 4))
  {
    var d := Dim(32768, 32770, 4);
    assert Offset(d, 32767, 32769) == 4294967296 + 262140;
    forall i | 0 <= i < 7 ensures PassFits32(d, i) {
      assert PassW(d, i) <= 32768 && PassH(d, i) <= 16385;
      hide PassW, PassH;
      MulLe(PassH(d, i), PassH(d, i), PassBits(d, i), 131072);
      MulLe(131072, 131072, PassH(d, i), 16385);
      MulComm(131072, PassH(d, i));
      PassBitsIs(d, i);
      MulLe(PassH(d, i), PassH(d, i), 1 + PassLine(d, i), 16385);
      MulLe(16385, 16385, PassH(d, i), 16385);
      MulComm(16385, PassH(d, i));
    }
  }

  /** What the interlacer computes of a pixel of the image. */
  lemma OffsetIs(d: Dim, x: nat, y: nat)
    requires x < d.w && y < d.h && OffsetsFit(d)
    ensures d.bpp >= 8 ==> 0 <= y * d.w + x < WORD
    ensures d.bpp < 8 ==> 0 <= y * (d.bpp * d.w) + x * d.bpp < WORD
  {
    LastIsGreatest(d, x, y);
    MulNat(y, d.w);
    MulNat(x, d.bpp);
    MulNat(d.bpp, d.w);
    MulNat(y, d.bpp * d.w);
    assert y * (d.bpp * d.w) + x * d.bpp == (y * d.w + x) * d.bpp by {
      MulAssoc3(y, d.w, d.bpp);
      MulComm(d.bpp, d.w);
    }
  }

  /** And of a pixel of a pass. */
  lemma PassOffsetIs(d: Dim, i: nat, x: nat, y: nat)
    requires i < 7 && x < PassW(d, i) && y < PassH(d, i) && d.bpp > 0 && Fits(d)
    ensures 0 <= y * PassW(d, i) + x < WORD && 0 <= d.bpp * PassW(d, i) < WORD
    ensures 0 <= y * (d.bpp * PassW(d, i)) + x * d.bpp < WORD
  {
    assert PassFits32(d, i);
    PassBitsIs(d, i);
    hide PassW, PassH, FilteredSize, PassBits;
    MulComm(d.bpp, PassW(d, i));
    PlaceInPass(PassW(d, i), PassH(d, i), d.bpp, x, y);
  }

  lemma PlaceInPass(pw: nat, ph: nat, k: nat, x: nat, y: nat)
    requires x < pw && y < ph && k > 0
    ensures 0 <= y * pw + x < ph * (pw * k) && 0 <= pw * k <= ph * (pw * k) && 0 <= y * (pw * k) + x * k < ph * (pw * k)
  {
    MulNat(pw, k);
    var n: nat := pw * k;
    MulStrict(x, pw, k);
    MulStrict(y, ph, n);
    MulLe(y, y, pw, n) by { MulLe(pw, pw, 1, k); }
    MulLe(x, x, 1, k);
    MulLe(0, y, n, n);
  }

  /** The widths of the rows of a pass, without and with padding. */
  lemma PassWidths(d: Dim, i: nat)
    requires i < 7 && Fits(d)
    ensures 0 <= PassW(d, i) * d.bpp && U32(PassW(d, i) * d.bpp) == PassBits(d, i)
    ensures U32(PassW(d, i) * d.bpp + 7) / 8 * 8 == 8 * PassLine(d, i)
  {
    assert PassFits32(d, i);
    EmptyPass(d, i);
    hide PassW, PassH;
    MulNat(PassW(d, i), d.bpp);
    MulAtLeast(PassH(d, i), PassBits(d, i));
  }

  /** The deinterlacer's width of a row in bits may wrap only where there is no second row. */
  lemma RowWidth(d: Dim, y: nat)
    requires y < d.h && d.w > 0 && Fits(d)
    ensures y * U32(d.bpp * d.w) == y * (d.bpp * d.w)
  {
    if y > 0 {
      assert PassFits32(d, 6) && PassW(d, 6) == d.w && PassH(d, 6) > 0;
      hide PassW, PassH;
      MulAtLeast(PassH(d, 6), PassBits(d, 6));
      MulComm(d.bpp, d.w);
    }
  }

  // ---------- images without interlacing

  /** The decoder's widths of a row in bits, without and with its padding. */
  function RowWidths32(d: Dim): (nat, nat) {
    (U32(Mul(d.w, d.bpp)), U32(Mul(d.w, d.bpp) + 7) / 8 * 8)
  }

  /** What has to be checked before an image without interlacing is decoded. */
  predicate RowsFit(d: Dim) {
    d.bpp >= 8 || Mul(d.w, d.bpp) % 8 == 0 || Mul(d.w, d.bpp) + 7 < WORD
  }

  /** The decoder takes padding out of the rows exactly where there is some, and both widths are
      right if it does, exactly if the rows fit. */
  lemma RowsExact(d: Dim)
    ensures var (bits, padded) := RowWidths32(d);
      var takesOut := d.bpp < 8 && bits != padded;
      var hasPadding := d.bpp < 8 && Mul(d.w, d.bpp) != 8 * LineBytes(d.w, d.bpp);
      RowsFit(d) <==>
        && takesOut == hasPadding
        && (hasPadding ==> (bits == Mul(d.w, d.bpp) && padded == 8 * LineBytes(d.w, d.bpp)))
  {
    WrappedBytes(Mul(d.w, d.bpp) + 7);
    WholeWords(Mul(d.w, d.bpp));
    hide Mul, U32;
  }

  lemma WholeWords(x: nat)
    ensures x % 8 == 0 ==> U32(x + 7) / 8 * 8 == U32(x)
    ensures x % 8 != 0 <==> x != (x + 7) / 8 * 8
  {
    RoundedUp(x);
    if x % 8 == 0 {
      WordOfBytes(x);
      RoundedUp(U32(x));
    }
  }

  lemma RoundedUp(x: nat)
    ensures x % 8 == 0 <==> x == (x + 7) / 8 * 8
  {
  }

  lemma WordOfBytes(x: nat)
    requires x % 8 == 0
    ensures U32(x) % 8 == 0 && U32(x + 7) == U32(x) + 7
  {
    var q := x / WORD;
    assert x == q * WORD + U32(x) && q * WORD == 8 * (q * 0x2000_0000);
    assert U32(x) % 8 == 0 by { DivModUnique(U32(x), 8, x / 8 - q * 0x2000_0000, 0); }
    DivModUnique(x + 7, WORD, q, U32(x) + 7);
  }

  /** Of a row of 2^32 + 4 bits the decoder sees the first 4. */
  lemma WideRowLost()
    ensures var d := Dim(0x4000_0001, 1, 4); !RowsFit(d) && RowWidths32(d) == (4, 8) && Mul(d.w, d.bpp) == WORD + 4
  {
  }
}
