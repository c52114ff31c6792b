/** Reordering the pixels of an image into seven passes, and back. */
module Interlace {
  import opened Bits
  import opened PixelBits
  import opened Adam7
  import opened Words

  // ---------- the places of a pixel

  /** Pixels of less than a byte, or of whole bytes. */
  ghost predicate ValidDim(d: Dim) {
    d.bpp > 0 && (d.bpp < 8 || d.bpp % 8 == 0)
  }

  /** Bit b of pixel (x, y) of the image. */
  function PixelBit(d: Dim, x: nat, y: nat, b: nat): int {
    RowBit(0, Mul(d.w, d.bpp), y, Mul(x, d.bpp) + b)
  }

  /** Bit b of the pixel at column x and row y of pass i, in the image of the passes. */
  function PassBit(d: Dim, i: nat, y: nat, x: nat, b: nat): int
    requires i < 7
  {
    RowBit(8 * PassStart(d, i), PassBits(d, i), y, Mul(x, d.bpp) + b)
  }

  /** The same bit in the image. */
  function PixelOf(d: Dim, i: nat, y: nat, x: nat, b: nat): int {
    PixelBit(d, Ix(i) + Mul(x, Dx(i)), Iy(i) + Mul(y, Dy(i)), b)
  }

  ghost predicate InPass(d: Dim, i: nat, y: nat, x: nat, b: nat) {
    i < 7 && y < PassH(d, i) && x < PassW(d, i) && b < d.bpp
  }

  /** The order in which the source visits the pixels. */
  ghost predicate Before(i: nat, y: nat, x: nat, i2: nat, y2: nat, x2: nat) {
    i < i2 || (i == i2 && (y < y2 || (y == y2 && x < x2)))
  }

  lemma PixelFits(x: nat, width: nat, bpp: nat, b: nat)
    requires x < width && b < bpp
    ensures Mul(x, bpp) + b < Mul(width, bpp) && Mul(x, bpp) + bpp <= Mul(width, bpp)
    ensures Mul(x, bpp) + bpp == Mul(x + 1, bpp)
  {
    MulStrict(x, width, bpp);
    assert (x + 1) * bpp == x * bpp + bpp;
  }

  lemma PixelsOrdered(x: nat, x2: nat, bpp: nat, b: nat)
    requires x < x2 && b < bpp
    ensures Mul(x, bpp) + b < Mul(x2, bpp)
  {
    MulStrict(x, x2, bpp);
  }

  /** The bits of a pass lie between its start and that of the next. */
  lemma PassBitRange(d: Dim, i: nat, y: nat, x: nat, b: nat)
    requires InPass(d, i, y, x, b)
    ensures PassBit(d, i, y, x, b) == PassBit(d, i, y, x, 0) + b
    ensures 8 * PassStart(d, i) <= PassBit(d, i, y, x, 0)
    ensures PassBit(d, i, y, x, 0) + d.bpp <= 8 * PassStart(d, i + 1) <= 8 * PassStart(d, 7)
  {
    hide PassW, PassH, RowBit;
    var start, width := 8 * PassStart(d, i), PassBits(d, i);
    PixelFits(x, PassW(d, i), d.bpp, b);
    PassBitsIs(d, i);
    RowPlace(start, width, y, Mul(x, d.bpp) + b);
    RowPlace(start, width, y, Mul(x, d.bpp));
    RowPlace(start, width, y, Mul(x, d.bpp) + d.bpp - 1);
    RowsApart(start, width, y, PassH(d, i), Mul(x, d.bpp) + d.bpp - 1);
    RowsApart(start, width, y, PassH(d, i), Mul(x, d.bpp));
    PassEnd(d, i);
    StartsGrow(d, i + 1, 7);
  }

  lemma PassEnd(d: Dim, i: nat)
    requires i < 7
    ensures RowBit(8 * PassStart(d, i), PassBits(d, i), PassH(d, i), 0) <= 8 * PassStart(d, i + 1)
  {
    hide PassW, PassH, PassBits;
  }

  /** In the image of the passes the bits stand in the order of the visits. */
  lemma PassBitOrder(d: Dim, i: nat, y: nat, x: nat, b: nat, i2: nat, y2: nat, x2: nat)
    requires InPass(d, i, y, x, b) && InPass(d, i2, y2, x2, 0) && Before(i, y, x, i2, y2, x2)
    ensures PassBit(d, i, y, x, b) < PassBit(d, i2, y2, x2, 0)
  {
    hide PassW, PassH, RowBit;
    PassBitRange(d, i, y, x, b);
    PassBitRange(d, i2, y2, x2, 0);
    var start, width := 8 * PassStart(d, i), PassBits(d, i);
    if i < i2 {
      StartsGrow(d, i + 1, i2);
    } else {
      PassBitsIs(d, i);
      PixelFits(x, PassW(d, i), d.bpp, b);
      RowPlace(start, width, y, Mul(x, d.bpp) + b);
      RowPlace(start, width, y2, Mul(x2, d.bpp));
      if y < y2 {
        RowsApart(start, width, y, y2, Mul(x, d.bpp) + b);
      } else {
        PixelsOrdered(x, x2, d.bpp, b);
      }
    }
  }

  lemma PixelBitRange(d: Dim, x: nat, y: nat, b: nat)
    requires x < d.w && y < d.h && b < d.bpp
    ensures PixelBit(d, x, y, b) == PixelBit(d, x, y, 0) + b
    ensures 0 <= PixelBit(d, x, y, 0) && PixelBit(d, x, y, 0) + d.bpp <= RowBit(0, Mul(d.w, d.bpp), d.h, 0)
  {
    hide RowBit;
    var width := Mul(d.w, d.bpp);
    PixelFits(x, d.w, d.bpp, b);
    RowPlace(0, width, y, Mul(x, d.bpp) + b);
    RowPlace(0, width, y, Mul(x, d.bpp));
    RowPlace(0, width, y, Mul(x, d.bpp) + d.bpp - 1);
    RowsApart(0, width, y, d.h, Mul(x, d.bpp) + d.bpp - 1);
    RowsApart(0, width, y, d.h, Mul(x, d.bpp));
  }

  /** Different pixels have different bits. */
  lemma PixelBitInjective(d: Dim, x: nat, y: nat, b: nat, x2: nat, y2: nat, b2: nat)
    requires x < d.w && x2 < d.w && b < d.bpp && b2 < d.bpp
    requires PixelBit(d, x, y, b) == PixelBit(d, x2, y2, b2)
    ensures x == x2 && y == y2 && b == b2
  {
    hide RowBit;
    var width := Mul(d.w, d.bpp);
    PixelFits(x, d.w, d.bpp, b);
    PixelFits(x2, d.w, d.bpp, b2);
    RowPlace(0, width, y, Mul(x, d.bpp) + b);
    RowPlace(0, width, y2, Mul(x2, d.bpp) + b2);
    if y < y2 {
      RowStart(0, width, y2);
      RowsApart(0, width, y, y2, Mul(x, d.bpp) + b);
    } else if y2 < y {
      RowStart(0, width, y);
      RowsApart(0, width, y2, y, Mul(x2, d.bpp) + b2);
    } else if x < x2 {
      PixelsOrdered(x, x2, d.bpp, b);
    } else if x2 < x {
      PixelsOrdered(x2, x, d.bpp, b2);
    }
  }

  /** The place of a pixel of a pass in the image. */
  lemma PixelOfRange(d: Dim, i: nat, y: nat, x: nat, b: nat)
    requires InPass(d, i, y, x, b)
    ensures PixelOf(d, i, y, x, b) == PixelOf(d, i, y, x, 0) + b
    ensures 0 <= PixelOf(d, i, y, x, 0) && PixelOf(d, i, y, x, 0) + d.bpp <= RowBit(0, Mul(d.w, d.bpp), d.h, 0)
  {
    hide PassW, PassH, PixelBit, RowBit;
    PassPlaces(d, i, x, y);
    PixelBitRange(d, Ix(i) + Mul(x, Dx(i)), Iy(i) + Mul(y, Dy(i)), b);
  }

  /** Different places of the passes are different pixels. */
  lemma PixelOfInjective(d: Dim, i: nat, y: nat, x: nat, b: nat, i2: nat, y2: nat, x2: nat, b2: nat)
    requires InPass(d, i, y, x, b) && InPass(d, i2, y2, x2, b2)
    requires PixelOf(d, i, y, x, b) == PixelOf(d, i2, y2, x2, b2)
    ensures i == i2 && y == y2 && x == x2 && b == b2
  {
    hide PassW, PassH, PixelBit, PassOf;
    PassPlaces(d, i, x, y);
    PassPlaces(d, i2, x2, y2);
    PixelBitInjective(d, Ix(i) + Mul(x, Dx(i)), Iy(i) + Mul(y, Dy(i)), b,
                      Ix(i2) + Mul(x2, Dx(i2)), Iy(i2) + Mul(y2, Dy(i2)), b2);
  }

  // ---------- what the two images have in common

  /** The pixels visited before (i, y, x) are the same in both images. */
  ghost predicate Linked(d: Dim, passes: seq<byte>, image: seq<byte>, i: nat, y: nat, x: nat) {
    forall i': nat, y': nat, x': nat, b': nat {:trigger InPass(d, i', y', x', b')} ::
      InPass(d, i', y', x', b') && Before(i', y', x', i, y, x)
      ==> PixBit(passes, PassBit(d, i', y', x', b')) == PixBit(image, PixelOf(d, i', y', x', b'))
  }

  lemma LinkedNext(d: Dim, passes: seq<byte>, image: seq<byte>, i: nat, y: nat)
    requires i < 7
    ensures Linked(d, passes, image, i, y, PassW(d, i)) ==> Linked(d, passes, image, i, y + 1, 0)
    ensures Linked(d, passes, image, i, PassH(d, i), 0) ==> Linked(d, passes, image, i + 1, 0, 0)
  {
    hide PassW, PassH, PassBit, PixelOf, PixBit;
  }

  /** Copying a pixel into the passes. */
  lemma PixelIntoPasses(d: Dim, now: seq<byte>, before: seq<byte>, image: seq<byte>, i: nat, y: nat, x: nat)
    requires InPass(d, i, y, x, 0) && PassBit(d, i, y, x, 0) >= 0 && PixelOf(d, i, y, x, 0) >= 0
    requires Linked(d, before, image, i, y, x)
    requires Copied(now, before, PassBit(d, i, y, x, 0), image, PixelOf(d, i, y, x, 0), d.bpp)
    ensures Linked(d, now, image, i, y, x + 1)
  {
    hide PassW, PassH, PassBit, PixelOf, PixBit;
    forall i': nat, y': nat, x': nat, b': nat | InPass(d, i', y', x', b') && Before(i', y', x', i, y, x + 1)
      ensures PixBit(now, PassBit(d, i', y', x', b')) == PixBit(image, PixelOf(d, i', y', x', b'))
    {
      if Before(i', y', x', i, y, x) {
        PassBitOrder(d, i', y', x', b', i, y, x);
      } else {
        PassBitRange(d, i, y, x, b');
        PixelOfRange(d, i, y, x, b');
      }
    }
  }

  /** Copying a pixel into the image. */
  lemma PixelIntoImage(d: Dim, passes: seq<byte>, now: seq<byte>, before: seq<byte>, i: nat, y: nat, x: nat)
    requires InPass(d, i, y, x, 0) && PassBit(d, i, y, x, 0) >= 0 && PixelOf(d, i, y, x, 0) >= 0
    requires Linked(d, passes, before, i, y, x)
    requires Copied(now, before, PixelOf(d, i, y, x, 0), passes, PassBit(d, i, y, x, 0), d.bpp)
    ensures Linked(d, passes, now, i, y, x + 1)
  {
    hide PassW, PassH, PassBit, PixelOf, PixBit;
    forall i': nat, y': nat, x': nat, b': nat | InPass(d, i', y', x', b') && Before(i', y', x', i, y, x + 1)
      ensures PixBit(passes, PassBit(d, i', y', x', b')) == PixBit(now, PixelOf(d, i', y', x', b'))
    {
      var q, at := PixelOf(d, i', y', x', b'), PixelOf(d, i, y, x, 0);
      if Before(i', y', x', i, y, x) {
        if at <= q < at + d.bpp {
          SamePass(d, i, y, x, q - at);
          PixelOfRange(d, i, y, x, q - at);
          PixelOfInjective(d, i', y', x', b', i, y, x, q - at);
        }
      } else {
        PassBitRange(d, i, y, x, b');
        PixelOfRange(d, i, y, x, b');
      }
    }
  }

  lemma SamePass(d: Dim, i: nat, y: nat, x: nat, b: nat)
    requires InPass(d, i, y, x, 0) && b < d.bpp
    ensures InPass(d, i, y, x, b)
  {
  }

  // ---------- the methods

  /** The dimensions of the passes, and where they begin in the three buffers, in the arithmetic of the
      source: sizes have 32 bits, and only their sums have more. */
  method GetPassValues(d: Dim)
    returns (passw: seq<nat>, passh: seq<nat>, filterPassstart: seq<nat>, paddedPassstart: seq<nat>,
      passstart: seq<nat>)
    ensures |passw| == |passh| == 7 && |filterPassstart| == |paddedPassstart| == |passstart| == 8
    ensures forall i :: 0 <= i < 7 ==> passw[i] == PassW32(d, i) && passh[i] == PassH32(d, i)
    ensures forall i :: 0 <= i <= 7 ==> passstart[i] == PassStart32(d, i)
    ensures forall i :: 0 <= i <= 7 ==> paddedPassstart[i] == PaddedStart32(d, i)
    ensures forall i :: 0 <= i <= 7 ==> filterPassstart[i] == FilterStart32(d, i)
  {
    hide U32, PassW32, PassH32, FilteredSize32, PaddedSize32, PackedSize32;
    passw, passh := [], [];
    for i := 0 to 7
      invariant |passw| == |passh| == i
      invariant forall k :: 0 <= k < i ==> passw[k] == PassW32(d, k) && passh[k] == PassH32(d, k)
    {
      var pw, ph := PassDims(d, i);
      passw, passh := passw + [pw], passh + [ph];
    }
    filterPassstart, paddedPassstart, passstart := [0], [0], [0];
    for i := 0 to 7
      invariant |filterPassstart| == |paddedPassstart| == |passstart| == i + 1
      invariant forall k :: 0 <= k <= i ==> passstart[k] == PassStart32(d, k)
      invariant forall k :: 0 <= k <= i ==> paddedPassstart[k] == PaddedStart32(d, k)
      invariant forall k :: 0 <= k <= i ==> filterPassstart[k] == FilterStart32(d, k)
    {
      var filtered, padded, packed := PassSizes(d, i, passw[i], passh[i]);
      filterPassstart := filterPassstart + [filterPassstart[i] + filtered];
      paddedPassstart := paddedPassstart + [paddedPassstart[i] + padded];
      passstart := passstart + [passstart[i] + packed];
    }
  }

  method PassDims(d: Dim, i: nat) returns (pw: nat, ph: nat)
    requires i < 7
    ensures pw == PassW32(d, i) && ph == PassH32(d, i)
  {
    PassTables(i);
    hide U32;
    pw := U32(d.w + ADAM7_DX[i] - ADAM7_IX[i] - 1) / ADAM7_DX[i];
    ph := U32(d.h + ADAM7_DY[i] - ADAM7_IY[i] - 1) / ADAM7_DY[i];
    if pw == 0 { ph := 0; }
    if ph == 0 { pw := 0; }
  }

  method PassSizes(d: Dim, i: nat, pw: nat, ph: nat) returns (filtered: nat, padded: nat, packed: nat)
    requires i < 7 && pw == PassW32(d, i) && ph == PassH32(d, i)
    ensures filtered == FilteredSize32(d, i) && padded == PaddedSize32(d, i) && packed == PackedSize32(d, i)
  {
    hide PassW32, PassH32, U32;
    MulNat(pw, d.bpp);
    MulThreeAssoc(ph, pw, d.bpp);
    var line := U32(pw * d.bpp + 7) / 8;
    MulNat(ph, 1 + line);
    MulNat(ph, line);
    filtered := if pw != 0 && ph != 0 then U32(ph * (1 + line)) else 0;
    padded := U32(ph * line);
    packed := U32(ph * pw * d.bpp + 7) / 8;
  }

  lemma MulThreeAssoc(a: nat, b: nat, c: nat)
    ensures 0 <= a * b * c == Mul(a, Mul(b, c))
  {
    MulNat(b, c);
    MulNat(a, b * c);
  }

  /** Both buffers are large enough. */
  ghost predicate RoomFor(d: Dim, passes: nat, image: nat) {
    PassStart(d, 7) <= passes && RowBit(0, Mul(d.w, d.bpp), d.h, 0) <= 8 * image
  }

  lemma PixelInRoom(d: Dim, i: nat, y: nat, x: nat, passes: nat, image: nat)
    requires InPass(d, i, y, x, 0) && RoomFor(d, passes, image)
    ensures 0 <= PassBit(d, i, y, x, 0) && PassBit(d, i, y, x, 0) + d.bpp <= 8 * passes
    ensures 0 <= PixelOf(d, i, y, x, 0) && PixelOf(d, i, y, x, 0) + d.bpp <= 8 * image
  {
    hide PassW, PassH, RowBit;
    PassBitRange(d, i, y, x, 0);
    PixelOfRange(d, i, y, x, 0);
  }

  /** The same places counted in bytes. */
  lemma BytePlaces(d: Dim, i: nat, y: nat, x: nat)
    requires i < 7 && d.bpp % 8 == 0
    ensures var bw := d.bpp / 8;
      && PassBit(d, i, y, x, 0) == 8 * (PassStart(d, i) + (y * PassW(d, i) + x) * bw)
      && PixelOf(d, i, y, x, 0) == 8 * (((Iy(i) + y * Dy(i)) * d.w + Ix(i) + x * Dx(i)) * bw)
  {
    hide PassW, PassH, PassStart;
    var bw := d.bpp / 8;
    assert d.bpp == 8 * bw;
    ByteRow(8 * PassStart(d, i), y, PassW(d, i), x, bw);
    ByteRow(0, Iy(i) + y * Dy(i), d.w, Ix(i) + x * Dx(i), bw);
  }

  lemma ByteRow(start: nat, y: nat, w: nat, x: nat, bw: nat)
    ensures RowBit(start, Mul(w, 8 * bw), y, Mul(x, 8 * bw) + 0) == start + 8 * ((y * w + x) * bw)
  {
    assert y * (w * (8 * bw)) == 8 * (y * w * bw);
    assert x * (8 * bw) == 8 * (x * bw);
    assert (y * w + x) * bw == y * w * bw + x * bw;
  }

  /** The same places counted in bits. */
  lemma BitPlaces(d: Dim, i: nat, y: nat, x: nat)
    requires i < 7
    ensures PassBit(d, i, y, x, 0) == 8 * PassStart(d, i) + (y * (d.bpp * PassW(d, i)) + x * d.bpp)
    ensures PixelOf(d, i, y, x, 0) == (Iy(i) + y * Dy(i)) * (d.bpp * d.w) + (Ix(i) + x * Dx(i)) * d.bpp
  {
    hide PassW, PassH, PassStart;
    MulComm(d.bpp, PassW(d, i));
    MulComm(d.bpp, d.w);
  }

  /** The 32-bit places of a pixel are its places. */
  lemma PixelOffsets(d: Dim, i: nat, x: nat, y: nat, column: nat, row: nat)
    requires ValidDim(d) && InPass(d, i, y, x, 0) && Fits(d) && column == Ix(i) + x * Dx(i) && row == Iy(i) + y * Dy(i)
    ensures 0 <= y * PassW(d, i) + x && U32(y * PassW(d, i) + x) == y * PassW(d, i) + x
    ensures 0 <= d.bpp * PassW(d, i) && U32(d.bpp * PassW(d, i)) == d.bpp * PassW(d, i)
    ensures 0 <= y * (d.bpp * PassW(d, i)) + x * d.bpp
    ensures U32(y * (d.bpp * PassW(d, i)) + x * d.bpp) == y * (d.bpp * PassW(d, i)) + x * d.bpp
    ensures 0 <= d.bpp * d.w && row * U32(d.bpp * d.w) == row * (d.bpp * d.w)
    ensures 0 <= row * d.w + column && 0 <= row * (d.bpp * d.w) + column * d.bpp
    ensures OffsetsFit(d) && d.bpp >= 8 ==> U32(row * d.w + column) == row * d.w + column
    ensures OffsetsFit(d) && d.bpp < 8 ==>
      U32(row * (d.bpp * d.w) + column * d.bpp) == row * (d.bpp * d.w) + column * d.bpp
  {
    PassPlaces(d, i, x, y);
    PassOffsetIs(d, i, x, y);
    RowWidth(d, row);
    MulNat(d.bpp, d.w);
    MulNat(row, d.w);
    MulNat(row, d.bpp * d.w);
    MulNat(column, d.bpp);
    if OffsetsFit(d) { OffsetIs(d, column, row); }
  }

  /** Copies one pixel of a pass to its place in the image, or back. */
  method CopyPixel(d: Dim, out: array<byte>, src: array<byte>, i: nat, y: nat, x: nat, passw: nat, passstart: nat,
                   intoImage: bool)
    requires ValidDim(d) && InPass(d, i, y, x, 0) && out != src && passw == PassW(d, i) && passstart == PassStart(d, i)
    requires if intoImage then RoomFor(d, src.Length, out.Length) else RoomFor(d, out.Length, src.Length)
    requires Fits(d) && (!intoImage ==> OffsetsFit(d))
    modifies out
    ensures PassBit(d, i, y, x, 0) >= 0 && PixelOf(d, i, y, x, 0) >= 0
    ensures if intoImage then Copied(out[..], old(out[..]), PixelOf(d, i, y, x, 0), src[..], PassBit(d, i, y, x, 0),
      d.bpp)
            else Copied(out[..], old(out[..]), PassBit(d, i, y, x, 0), src[..], PixelOf(d, i, y, x, 0), d.bpp)
  {
    hide PassW, PassH, PassBit, PixelOf, Copied, InPass;
    PixelInRoom(d, i, y, x, if intoImage then src.Length else out.Length, if intoImage then out.Length else src.Length);
    assert i < 7 by { PassNumber(d, i, y, x); }
    PassTables(i);
    var column := ADAM7_IX[i] + x * ADAM7_DX[i];
    var row := ADAM7_IY[i] + y * ADAM7_DY[i];
    PixelOffsets(d, i, x, y, column, row);
    hide U32, Fits, OffsetsFit;
    if d.bpp >= 8 {
      BytePlaces(d, i, y, x);
      var bytewidth := d.bpp / 8;
      var inPass := passstart + U32(y * passw + x) * bytewidth;
      var pixel := row * d.w + column;
      var inImage := (if intoImage then pixel else U32(pixel)) * bytewidth;
      if intoImage {
        CopyBytes(out, inImage, src, inPass, bytewidth);
      } else {
        CopyBytes(out, inPass, src, inImage, bytewidth);
      }
    } else {
      BitPlaces(d, i, y, x);
      var ilinebits, olinebits := U32(d.bpp * passw), U32(d.bpp * d.w);
      var inPass := 8 * passstart + U32(y * ilinebits + x * d.bpp);
      var bit := row * olinebits + column * d.bpp;
      var inImage := if intoImage then bit else U32(bit);
      if intoImage {
        CopyBits(out, inImage, src, inPass, d.bpp);
      } else {
        CopyBits(out, inPass, src, inImage, d.bpp);
      }
    }
  }

  lemma PassNumber(d: Dim, i: nat, y: nat, x: nat)
    requires InPass(d, i, y, x, 0)
    ensures i < 7
  {
  }

  lemma IsInPass(d: Dim, i: nat, y: nat, x: nat)
    requires ValidDim(d) && i < 7 && y < PassH(d, i) && x < PassW(d, i)
    ensures InPass(d, i, y, x, 0)
  {
  }

  /** One pass of the interlacer. */
  method InterlacePass(d: Dim, out: array<byte>, src: array<byte>, i: nat, passw: nat, passh: nat, passstart: nat)
    requires ValidDim(d) && i < 7 && out != src && RoomFor(d, out.Length, src.Length)
    requires passw == PassW(d, i) && passh == PassH(d, i) && passstart == PassStart(d, i)
    requires Linked(d, out[..], src[..], i, 0, 0)
    requires Fits(d) && OffsetsFit(d)
    modifies out
    ensures Linked(d, out[..], src[..], i + 1, 0, 0)
  {
    hide PassW, PassH, PassBit, PixelOf, Copied, Linked, InPass, RoomFor, Fits, OffsetsFit;
    var y := 0;
    while y < passh
      invariant 0 <= y <= passh && Linked(d, out[..], src[..], i, y, 0)
    {
      var x := 0;
      while x < passw
        invariant 0 <= x <= passw && Linked(d, out[..], src[..], i, y, x)
      {
        IsInPass(d, i, y, x);
        ghost var before := out[..];
        CopyPixel(d, out, src, i, y, x, passw, passstart, false);
        PixelIntoPasses(d, out[..], before, src[..], i, y, x);
        x := x + 1;
      }
      LinkedNext(d, out[..], src[..], i, y);
      y := y + 1;
    }
    LinkedNext(d, out[..], src[..], i, 0);
  }

  /** All pixels linked: every bit of every pass is the bit of its pixel. */
  ghost predicate Interlaced(d: Dim, passes: seq<byte>, image: seq<byte>) {
    Linked(d, passes, image, 7, 0, 0)
  }

  lemma NothingLinked(d: Dim, passes: seq<byte>, image: seq<byte>)
    ensures Linked(d, passes, image, 0, 0, 0)
  {
  }

  method Adam7Interlace(d: Dim, out: array<byte>, src: array<byte>)
    requires ValidDim(d) && out != src && RoomFor(d, out.Length, src.Length)
    requires Fits(d) && OffsetsFit(d)
    modifies out
    ensures Interlaced(d, out[..], src[..])
  {
    hide PassW, PassH, PassStart, PaddedStart, FilterStart, Linked, RoomFor;
    var passw, passh, filterPassstart, paddedPassstart, passstart := GetPassValues(d);
    StartsFit(d);
    hide Fits, OffsetsFit, PassW32, PassH32, PassStart32;
    NothingLinked(d, out[..], src[..]);
    var i := 0;
    while i != 7
      invariant 0 <= i <= 7 && Linked(d, out[..], src[..], i, 0, 0)
    {
      InterlacePass(d, out, src, i, passw[i], passh[i], passstart[i]);
      i := i + 1;
    }
  }

  /** One pass of the deinterlacer. */
  method DeinterlacePass(d: Dim, out: array<byte>, src: array<byte>, i: nat, passw: nat, passh: nat, passstart: nat)
    requires ValidDim(d) && i < 7 && out != src && RoomFor(d, src.Length, out.Length)
    requires passw == PassW(d, i) && passh == PassH(d, i) && passstart == PassStart(d, i)
    requires Linked(d, src[..], out[..], i, 0, 0)
    requires Fits(d)
    modifies out
    ensures Linked(d, src[..], out[..], i + 1, 0, 0)
  {
    hide PassW, PassH, PassBit, PixelOf, Copied, Linked, InPass, RoomFor, Fits, OffsetsFit;
    var y := 0;
    while y < passh
      invariant 0 <= y <= passh && Linked(d, src[..], out[..], i, y, 0)
    {
      var x := 0;
      while x < passw
        invariant 0 <= x <= passw && Linked(d, src[..], out[..], i, y, x)
      {
        IsInPass(d, i, y, x);
        ghost var before := out[..];
        CopyPixel(d, out, src, i, y, x, passw, passstart, true);
        PixelIntoImage(d, src[..], out[..], before, i, y, x);
        x := x + 1;
      }
      LinkedNext(d, src[..], out[..], i, y);
      y := y + 1;
    }
    LinkedNext(d, src[..], out[..], i, 0);
  }

  method Adam7Deinterlace(d: Dim, out: array<byte>, src: array<byte>)
    requires ValidDim(d) && out != src && RoomFor(d, src.Length, out.Length)
    requires Fits(d)
    modifies out
    ensures Interlaced(d, src[..], out[..])
  {
    hide PassW, PassH, PassStart, PaddedStart, FilterStart, Linked, RoomFor;
    var passw, passh, filterPassstart, paddedPassstart, passstart := GetPassValues(d);
    StartsFit(d);
    hide Fits, OffsetsFit, PassW32, PassH32, PassStart32;
    NothingLinked(d, src[..], out[..]);
    var i := 0;
    while i != 7
      invariant 0 <= i <= 7 && Linked(d, src[..], out[..], i, 0, 0)
    {
      DeinterlacePass(d, out, src, i, passw[i], passh[i], passstart[i]);
      i := i + 1;
    }
  }

  /** Where the bits of a pixel stand: in the image row by row, and in the part of its pass row by row of
      the smaller image that the pass is. */
  lemma InterlacedBit(d: Dim, passes: seq<byte>, image: seq<byte>, x: nat, y: nat, b: nat)
    requires Interlaced(d, passes, image) && x < d.w && y < d.h && b < d.bpp
    ensures var i := PassOf(x, y);
      PixBit(image, y * (d.w * d.bpp) + (x * d.bpp + b))
      == PixBit(passes, 8 * PassStart(d, i) + (y / Dy(i)) * (PassW(d, i) * d.bpp) + ((x / Dx(i)) * d.bpp + b))
  {
    var i := PassOf(x, y);
    PassCovers(d, x, y);
    assert InPass(d, i, y / Dy(i), x / Dx(i), b);
    PlacesAre(d, i, x, y, b, x / Dx(i), y / Dy(i));
    hide PassW, PassH, PixBit, PixelBit, PassBit, PassOf, InPass, Dx, Dy, PixelOf, PassStart;
  }

  lemma PlacesAre(d: Dim, i: nat, x: nat, y: nat, b: nat, px: nat, py: nat)
    requires i < 7 && x == Ix(i) + px * Dx(i) && y == Iy(i) + py * Dy(i)
    ensures PixelOf(d, i, py, px, b) == y * (d.w * d.bpp) + (x * d.bpp + b)
    ensures PassBit(d, i, py, px, b) == 8 * PassStart(d, i) + py * (PassW(d, i) * d.bpp) + (px * d.bpp + b)
  {
    hide Ix, Iy, Dx, Dy, PassW, PassStart;
  }

  /** An image is determined by its passes: deinterlacing undoes interlacing. */
  lemma InterlacedInverts(d: Dim, passes: seq<byte>, image: seq<byte>, back: seq<byte>, x: nat, y: nat, b: nat)
    requires Interlaced(d, passes, image) && Interlaced(d, passes, back) && x < d.w && y < d.h && b < d.bpp
    ensures PixBit(back, PixelBit(d, x, y, b)) == PixBit(image, PixelBit(d, x, y, b))
  {
    hide PassW, PassH, PixBit, PixelBit, PassBit, PassOf;
    var i := PassOf(x, y);
    PassCovers(d, x, y);
    assert InPass(d, i, y / Dy(i), x / Dx(i), b);
  }
}
