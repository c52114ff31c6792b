/** From an image to the filtered scanlines of an IDAT stream, and back. */
module Scanlines {
  import opened Bits
  import opened BitIO
  import opened PixelBits
  import opened Filters
  import opened FilterLines
  import opened Adam7
  import opened Interlace
  import opened Words

  function ByteWidth(bpp: nat): nat {
    (bpp + 7) / 8
  }

  function ImageBits(d: Dim): nat {
    Mul(d.w, d.bpp)
  }

  // ---------- what filtered scanlines say about an image

  /** The rows r, padded to whole bytes, hold the bits of the image from bit `at` on. */
  ghost predicate RowsHold(r: seq<byte>, n: nat, image: seq<byte>, at: nat, width: nat, h: nat) {
    forall y: nat, x: nat {:trigger RowBit(at, width, y, x)} :: y < h && x < width ==>
      PixBit(image, RowBit(at, width, y, x)) == PixBit(r, RowBit(0, 8 * n, y, x))
  }

  /** r are the reconstructed scanlines of an image without interlacing. */
  ghost predicate PlainRows(d: Dim, f: seq<byte>, image: seq<byte>, r: seq<byte>) {
    var n := LineBytes(d.w, d.bpp);
    ImageUnfiltered(f, r, n, ByteWidth(d.bpp), d.h) && RowsHold(r, n, image, 0, ImageBits(d), d.h)
  }

  ghost predicate RepresentsPlain(d: Dim, f: seq<byte>, image: seq<byte>) {
    exists r: seq<byte> :: PlainRows(d, f, image, r)
  }

  lemma RowBytes(width: nat, bpp: nat)
    ensures Mul(width, bpp) <= 8 * LineBytes(width, bpp)
    ensures width > 0 && bpp > 0 ==> ByteWidth(bpp) <= LineBytes(width, bpp)
  {
    if width > 0 {
      MulPos(width, bpp + 0);
      assert width * bpp == (width - 1) * bpp + bpp;
      MulNat(width - 1, bpp);
    }
  }

  /** Filtering a line is undone by its own bytes. */
  lemma FilteredIsUnfiltered(f: nat, x: seq<byte>, prev: seq<byte>, bw: nat, o: seq<byte>)
    requires bw > 0 && Filtered(f, x, prev, bw, o)
    ensures Unfiltered(f, o, prev, bw, x)
  {
    hide Predict;
    forall i | 0 <= i < |o| ensures x[i] == (o[i] as int + PredictAt(f, x, prev, bw, i)) % 256 {
      AddBack(x[i], PredictAt(f, x, prev, bw, i));
    }
  }

  lemma FilteredImage(f: seq<byte>, x: seq<byte>, n: nat, bw: nat, h: nat)
    requires ImageFiltered(f, x, n, bw, h)
    ensures ImageUnfiltered(f, x, n, bw, h)
  {
    hide Filtered, Unfiltered, Mul;
    forall y | 0 <= y < h ensures RowUnfiltered(f, x, n, bw, y) {
      assert RowFiltered(f, x, n, bw, y);
      FilteredIsUnfiltered(f[Mul(y, 1 + n)], Row(x, n, y), Filters.Before(x, n, y), bw,
        f[Mul(y, 1 + n) + 1..Mul(y, 1 + n) + 1 + n]);
    }
  }

  // ---------- without interlacing

  lemma BitsOfRows(width: nat, n: nat, h: nat)
    ensures width == 8 * n ==> RowBit(0, width, h, 0) == 8 * Mul(h, n)
    ensures RowBit(0, 8 * n, h, 0) == 8 * Mul(h, n)
  {
    assert h * (8 * n) == 8 * (h * n);
  }

  /** Rows without padding are the image itself. */
  lemma FittingRowsHold(image: seq<byte>, r: seq<byte>, n: nat, h: nat)
    requires |r| == Mul(h, n) && r <= image
    ensures RowsHold(r, n, image, 0, 8 * n, h)
  {
    hide Mul;
    forall y: nat, x: nat | y < h && x < 8 * n
      ensures PixBit(image, RowBit(0, 8 * n, y, x)) == PixBit(r, RowBit(0, 8 * n, y, x))
    {
      hide RowBit;
      RowsApart(0, 8 * n, y, h, x);
      BitsOfRows(8 * n, n, h);
      PrefixBit(r, image, RowBit(0, 8 * n, y, x));
    }
  }

  lemma PrefixBit(r: seq<byte>, image: seq<byte>, q: int)
    requires r <= image && 0 <= q < 8 * |r|
    ensures PixBit(image, q) == PixBit(r, q)
  {
  }

  /** A bit of a stretch of a buffer. */
  lemma StretchBit(d: seq<byte>, at: nat, n: nat, q: int)
    requires at + n <= |d| && 0 <= q < 8 * n
    ensures PixBit(d[at..at + n], q) == PixBit(d, 8 * at + q)
  {
    assert (8 * at + q) / 8 == at + q / 8 && (8 * at + q) % 8 == q % 8;
  }

  /** Rows moved out of a stretch hold the same bits. */
  lemma MovedRowsHold(now: seq<byte>, before: seq<byte>, at: nat, width: nat, src: seq<byte>, io: nat, n: nat, h: nat)
    requires Moved(now, before, at, width, src, 8 * io, 8 * n, width, h) && width <= 8 * n
    requires io + Mul(h, n) <= |src|
    ensures RowsHold(src[io..io + Mul(h, n)], n, now, at, width, h)
  {
    hide PixBit, Mul;
    var r := src[io..io + Mul(h, n)];
    forall y: nat, x: nat | y < h && x < width
      ensures PixBit(now, RowBit(at, width, y, x)) == PixBit(r, RowBit(0, 8 * n, y, x))
    {
      hide RowBit;
      RowsApart(0, 8 * n, y, h, x);
      BitsOfRows(8 * n, n, h);
      StretchBit(src, io, Mul(h, n), RowBit(0, 8 * n, y, x));
      ShiftedRow(io, n, y, x);
    }
  }

  lemma ShiftedRow(io: nat, n: nat, y: nat, x: nat)
    ensures RowBit(8 * io, 8 * n, y, x) == 8 * io + RowBit(0, 8 * n, y, x)
  {
  }

  lemma IsPlain(d: Dim, f: seq<byte>, image: seq<byte>, r: seq<byte>)
    requires PlainRows(d, f, image, r)
    ensures RepresentsPlain(d, f, image)
  {
  }

  /** An image without interlacing: undo the filters, and take out the padding if there is any. */
  method PostProcessPlain(out: array<byte>, src: array<byte>, d: Dim) returns (error: nat)
    requires ValidDim(d) && d.w >= 1 && out != src
    requires src.Length == Mul(d.h, 1 + LineBytes(d.w, d.bpp)) && RowBit(0, ImageBits(d), d.h, 0) <= 8 * out.Length
    requires RowsFit(d)
    modifies out, src
    ensures error == 0 || error == 36
    ensures error == 0 ==> RepresentsPlain(d, old(src[..]), out[..])
    ensures error != 0 ==> BadType(old(src[..]), LineBytes(d.w, d.bpp), d.h)
  {
    hide Mul, RowBit, LineBytes, ImageUnfiltered, BadType, Outside, RowsHold, RepresentsPlain;
    var n := LineBytes(d.w, d.bpp);
    var bw := ByteWidth(d.bpp);
    ghost var f := src[..];
    RowBytes(d.w, d.bpp);
    MulMore(d.h, n);
    BitsOfRows(ImageBits(d), n, d.h);
    assert f == src[0..0 + Mul(d.h, 1 + n)];
    ImageBitsAre(d);
    RowsExact(d);
    hide U32, RowsFit;
    var bits, padded := U32(d.w * d.bpp), U32(d.w * d.bpp + 7) / 8 * 8;
    if d.bpp < 8 && bits != padded {
      error := Unfilter(src, 0, src, 0, n, bw, d.h);
      if error != 0 { return; }
      ghost var before, rows := out[..], src[..];
      RemovePaddingBits(out, 0, src, 0, bits, padded, d.h);
      MovedRowsHold(out[..], before, 0, ImageBits(d), rows, 0, n, d.h);
      IsPlain(d, f, out[..], rows[0..0 + Mul(d.h, n)]);
    } else {
      FittingWidth(d);
      error := Unfilter(out, 0, src, 0, n, bw, d.h);
      if error != 0 { return; }
      FittingRowsHold(out[..], out[0..0 + Mul(d.h, n)], n, d.h);
      IsPlain(d, f, out[..], out[0..0 + Mul(d.h, n)]);
    }
  }

  lemma ImageBitsAre(d: Dim)
    ensures d.w * d.bpp == ImageBits(d)
  {
  }

  /** In the other branch of the source the rows fill whole bytes. */
  lemma FittingWidth(d: Dim)
    requires ValidDim(d) && !(d.bpp < 8 && d.w * d.bpp != LineBytes(d.w, d.bpp) * 8)
    ensures ImageBits(d) == 8 * LineBytes(d.w, d.bpp)
  {
    if d.bpp >= 8 { WholeBytes(d.w, d.bpp); }
  }

  /** The encoder's side: pad the rows if necessary, and filter them. */
  method PreProcessPlain(src: array<byte>, d: Dim, types: seq<byte>) returns (out: array<byte>)
    requires ValidDim(d) && d.w >= 1 && RowBit(0, ImageBits(d), d.h, 0) <= 8 * src.Length
    requires |types| >= d.h && forall y :: 0 <= y < d.h ==> types[y] <= 4
    ensures fresh(out) && out.Length == Mul(d.h, 1 + LineBytes(d.w, d.bpp))
    ensures RepresentsPlain(d, out[..], src[..]) && TypedAs(out[..], 0, LineBytes(d.w, d.bpp), d.h, types)
  {
    hide Mul, RowBit, LineBytes, ImageFiltered, ImageUnfiltered, Outside, RowsHold, RepresentsPlain, Moved, TypedAs;
    var n := LineBytes(d.w, d.bpp);
    var bw := ByteWidth(d.bpp);
    RowBytes(d.w, d.bpp);
    BitsOfRows(ImageBits(d), n, d.h);
    out := new byte[Mul(d.h, 1 + n)];
    if d.bpp < 8 && d.w * d.bpp != n * 8 {
      ImageBitsAre(d);
      var padded := new byte[Mul(d.h, n)];
      ghost var before := padded[..];
      AddPaddingBits(padded, src, 0, 8 * n, ImageBits(d), d.h);
      PaddedRowsHold(padded[..], before, n, src[..], ImageBits(d), d.h);
      Filter(out, 0, padded, 0, n, bw, d.h, types);
      assert padded[0..0 + Mul(d.h, n)] == padded[..] && out[0..0 + Mul(d.h, 1 + n)] == out[..];
      FilteredImage(out[..], padded[..], n, bw, d.h);
      IsPlain(d, out[..], src[..], padded[..]);
    } else {
      FittingWidth(d);
      Filter(out, 0, src, 0, n, bw, d.h, types);
      assert out[0..0 + Mul(d.h, 1 + n)] == out[..];
      FilteredImage(out[..], src[0..0 + Mul(d.h, n)], n, bw, d.h);
      FittingRowsHold(src[..], src[0..0 + Mul(d.h, n)], n, d.h);
      IsPlain(d, out[..], src[..], src[0..0 + Mul(d.h, n)]);
    }
  }

  lemma PaddedRowsHold(now: seq<byte>, before: seq<byte>, n: nat, image: seq<byte>, width: nat, h: nat)
    requires Moved(now, before, 0, 8 * n, image, 0, width, width, h)
    ensures RowsHold(now, n, image, 0, width, h)
  {
    hide PixBit;
    forall y: nat, x: nat | y < h && x < width
      ensures PixBit(image, RowBit(0, width, y, x)) == PixBit(now, RowBit(0, 8 * n, y, x))
    {
      assert PixBit(now, RowBit(0, 8 * n, y, x)) == PixBit(image, RowBit(0, width, y, x));
    }
  }

  /** Only one image has these scanlines. */
  lemma PlainUnique(d: Dim, f: seq<byte>, image: seq<byte>, back: seq<byte>, y: nat, x: nat)
    requires RepresentsPlain(d, f, image) && RepresentsPlain(d, f, back) && y < d.h && x < ImageBits(d)
    ensures PixBit(back, RowBit(0, ImageBits(d), y, x)) == PixBit(image, RowBit(0, ImageBits(d), y, x))
  {
    hide PixBit, Mul, LineBytes, RowBit, RowUnfiltered;
    var r: seq<byte> :| PlainRows(d, f, image, r);
    var s: seq<byte> :| PlainRows(d, f, back, s);
    var n := LineBytes(d.w, d.bpp);
    ImageUnique(f, n, ByteWidth(d.bpp), d.h, r, s, d.h);
    assert r[..Mul(d.h, n)] == r && s[..Mul(d.h, n)] == s;
  }

  // ---------- with Adam7

  /** The filtered scanlines of pass i. */
  ghost function PassPart(d: Dim, f: seq<byte>, i: nat): seq<byte>
    requires i < 7 && FilterStart(d, i) + FilteredSize(d, i) <= |f|
  {
    f[FilterStart(d, i)..FilterStart(d, i) + FilteredSize(d, i)]
  }

  /** r are the reconstructed scanlines of pass i. */
  ghost predicate PassUnfiltered(d: Dim, f: seq<byte>, i: nat, r: seq<byte>) {
    && i < 7 && FilterStart(d, i) + FilteredSize(d, i) <= |f|
    && ImageUnfiltered(PassPart(d, f, i), r, PassLine(d, i), ByteWidth(d.bpp), PassH(d, i))
  }

  /** The packed pass i of `passes` has the bits of the scanlines r. */
  ghost predicate PassHolds(d: Dim, passes: seq<byte>, i: nat, r: seq<byte>)
    requires i < 7
  {
    RowsHold(r, PassLine(d, i), passes, 8 * PassStart(d, i), PassBits(d, i), PassH(d, i))
  }

  /** The first i passes of the filtered scanlines f are the passes of `passes`. */
  ghost predicate PassesHold(d: Dim, f: seq<byte>, passes: seq<byte>, rs: seq<seq<byte>>) {
    && |rs| <= 7
    && forall k :: 0 <= k < |rs| ==> PassUnfiltered(d, f, k, rs[k]) && PassHolds(d, passes, k, rs[k])
  }

  /** What the filtered scanlines of an interlaced image say. */
  ghost predicate Adam7Rows(d: Dim, f: seq<byte>, image: seq<byte>, passes: seq<byte>, rs: seq<seq<byte>>) {
    |rs| == 7 && PassesHold(d, f, passes, rs) && Interlaced(d, passes, image)
  }

  ghost predicate RepresentsAdam7(d: Dim, f: seq<byte>, image: seq<byte>) {
    exists passes: seq<byte>, rs: seq<seq<byte>> :: Adam7Rows(d, f, image, passes, rs)
  }

  /** Only one image has these scanlines. */
  lemma Adam7Unique(d: Dim, f: seq<byte>, image: seq<byte>, back: seq<byte>, x: nat, y: nat, b: nat)
    requires RepresentsAdam7(d, f, image) && RepresentsAdam7(d, f, back) && x < d.w && y < d.h && b < d.bpp
    ensures PixBit(back, PixelBit(d, x, y, b)) == PixBit(image, PixelBit(d, x, y, b))
  {
    hide PixBit, PixelBit, PassBit, PassOf, PassW, PassH, PassUnfiltered, PassHolds;
    var p, rs :| Adam7Rows(d, f, image, p, rs);
    var q, ss :| Adam7Rows(d, f, back, q, ss);
    var i := PassOf(x, y);
    PassCovers(d, x, y);
    assert InPass(d, i, y / Dy(i), x / Dx(i), b);
    SamePassRows(d, f, i, rs[i], ss[i]);
    HeldBit(d, p, i, rs[i], y / Dy(i), x / Dx(i), b);
    HeldBit(d, q, i, ss[i], y / Dy(i), x / Dx(i), b);
  }

  lemma SamePassRows(d: Dim, f: seq<byte>, i: nat, r: seq<byte>, s: seq<byte>)
    requires PassUnfiltered(d, f, i, r) && PassUnfiltered(d, f, i, s)
    ensures r == s
  {
    hide RowUnfiltered, PassH, PassLine, Mul;
    ImageUnique(PassPart(d, f, i), PassLine(d, i), ByteWidth(d.bpp), PassH(d, i), r, s, PassH(d, i));
    assert r[..|r|] == r && s[..|s|] == s;
  }

  /** A bit of a pass, among the bits of its scanlines. */
  lemma HeldBit(d: Dim, passes: seq<byte>, i: nat, r: seq<byte>, y: nat, x: nat, b: nat)
    requires InPass(d, i, y, x, b) && PassHolds(d, passes, i, r)
    ensures PixBit(passes, PassBit(d, i, y, x, b)) == PixBit(r, RowBit(0, 8 * PassLine(d, i), y, Mul(x, d.bpp) + b))
  {
    hide PixBit, PassW, PassH, PassLine, RowBit;
    PixelFits(x, PassW(d, i), d.bpp, b);
    PassBitsIs(d, i);
    assert RowBit(8 * PassStart(d, i), PassBits(d, i), y, Mul(x, d.bpp) + b) == PassBit(d, i, y, x, b);
  }

  /** Passes that were finished earlier lie before everything written later. */
  lemma PassKept(d: Dim, now: seq<byte>, was: seq<byte>, i: nat, r: seq<byte>, at: nat)
    requires i < 7 && PassHolds(d, was, i, r) && PassStart(d, i + 1) <= at
    requires forall q: int {:trigger PixBit(now, q)} :: q < 8 * at ==> PixBit(now, q) == PixBit(was, q)
    ensures PassHolds(d, now, i, r)
  {
    hide PixBit, PassLine, PassW, PassH, PassBits;
    var start, width, n := 8 * PassStart(d, i), PassBits(d, i), PassLine(d, i);
    forall y: nat, x: nat | y < PassH(d, i) && x < width
      ensures PixBit(now, RowBit(start, width, y, x)) == PixBit(r, RowBit(0, 8 * n, y, x))
    {
      hide RowBit;
      RowsApart(start, width, y, PassH(d, i), x);
      PassEndsBefore(d, i);
    }
  }

  lemma PassEndsBefore(d: Dim, i: nat)
    requires i < 7
    ensures RowBit(8 * PassStart(d, i), PassBits(d, i), PassH(d, i), 0) <= 8 * PassStart(d, i + 1)
  {
    PassEnd(d, i);
  }

  /** All passes finished so far are kept. */
  lemma PassesKept(d: Dim, f: seq<byte>, now: seq<byte>, was: seq<byte>, rs: seq<seq<byte>>, at: nat)
    requires PassesHold(d, f, was, rs) && PassStart(d, |rs|) <= at
    requires forall q: int {:trigger PixBit(now, q)} :: q < 8 * at ==> PixBit(now, q) == PixBit(was, q)
    ensures PassesHold(d, f, now, rs)
  {
    hide PixBit, PassUnfiltered, PassHolds, PassStart;
    forall k | 0 <= k < |rs| ensures PassHolds(d, now, k, rs[k]) {
      StartsGrow(d, k + 1, |rs|);
      PassKept(d, now, was, k, rs[k], at);
    }
  }

  lemma BytesBefore(now: seq<byte>, was: seq<byte>, at: nat, n: nat)
    requires Outside(now, was, at, n)
    ensures forall q: int {:trigger PixBit(now, q)} :: q < 8 * at ==> PixBit(now, q) == PixBit(was, q)
  {
    hide ByteBit;
  }

  /** The part of the buffer that has not been read yet. */
  ghost predicate Unread(buffer: seq<byte>, f: seq<byte>, from: nat) {
    |buffer| == |f| && forall q: int {:trigger buffer[q]} :: from <= q < |f| ==> buffer[q] == f[q]
  }

  lemma PassRoom(d: Dim, i: nat)
    requires i < 7 && ValidDim(d)
    ensures PassLine(d, i) == LineBytes(PassW(d, i), d.bpp) && (PassH(d, i) > 0 ==> ByteWidth(d.bpp) <= PassLine(d, i))
    ensures FilteredSize(d, i) == Mul(PassH(d, i), 1 + PassLine(d, i))
    ensures PassStart(d, i) <= PaddedStart(d, i) <= FilterStart(d, i)
    ensures PaddedStart(d, i) + Mul(PassH(d, i), PassLine(d, i)) == PaddedStart(d, i + 1) <= FilterStart(d, i + 1)
    ensures FilterStart(d, i) + FilteredSize(d, i) == FilterStart(d, i + 1) <= FilterStart(d, 7)
    ensures PassBits(d, i) == Mul(PassW(d, i), d.bpp) == PassW(d, i) * d.bpp <= 8 * PassLine(d, i)
  {
    hide Mul, LineBytes, PassW, PassH, ByteWidth;
    EmptyPass(d, i);
    RowBytes(PassW(d, i), d.bpp);
    PassBitsAre(d, i);
    StartsOrdered(d, i);
    StartsOrdered(d, i + 1);
    StartsGrow(d, i + 1, 7);
  }

  lemma PassBitsAre(d: Dim, i: nat)
    requires i < 7
    ensures PassBits(d, i) == Mul(PassW(d, i), d.bpp) == PassW(d, i) * d.bpp
  {
    hide PassW;
  }

  /** The rows of a pass, counted in bits. */
  lemma PassRowEnds(d: Dim, i: nat)
    requires i < 7 && ValidDim(d)
    ensures RowBit(8 * PassStart(d, i), PassBits(d, i), PassH(d, i), 0) <= 8 * PassStart(d, i + 1)
      <= 8 * FilterStart(d, i + 1)
    ensures RowBit(8 * PaddedStart(d, i), 8 * PassLine(d, i), PassH(d, i), 0) == 8 * PaddedStart(d, i + 1)
  {
    PassEnd(d, i);
    StartsOrdered(d, i + 1);
    PassRoom(d, i);
    hide PassH, PassLine, PassBits;
    BitsOfRows(8 * PassLine(d, i), PassLine(d, i), PassH(d, i));
    ShiftedRow(PaddedStart(d, i), PassLine(d, i), PassH(d, i), 0);
  }

  lemma PartUnread(d: Dim, f: seq<byte>, was: seq<byte>, i: nat)
    requires i < 7 && FilterStart(d, i) + FilteredSize(d, i) <= |f| && Unread(was, f, FilterStart(d, i))
    ensures was[FilterStart(d, i)..FilterStart(d, i) + FilteredSize(d, i)] == PassPart(d, f, i)
  {
    hide FilterStart, FilteredSize;
  }

  lemma OneMorePass(d: Dim, f: seq<byte>, now: seq<byte>, rs: seq<seq<byte>>, r: seq<byte>)
    requires |rs| < 7 && PassesHold(d, f, now, rs) && PassUnfiltered(d, f, |rs|, r) && PassHolds(d, now, |rs|, r)
    ensures PassesHold(d, f, now, rs + [r])
  {
    hide PassUnfiltered, PassHolds;
  }

  /** Bytes with the same bits are the same. */
  lemma SameByte(a: byte, b: byte)
    requires forall j :: 0 <= j < 8 ==> ByteBit(a, j) == ByteBit(b, j)
    ensures a == b
  {
    forall j | 0 <= j < 8 ensures BitsOf(a, 8)[j] == BitsOf(b, 8)[j] {
      BitsOfAt(a, 8, j);
      BitsOfAt(b, 8, j);
      assert ByteBit(a, j) == ByteBit(b, j);
    }
    assert BitsOf(a, 8) == BitsOf(b, 8);
    assert Pow2(8) == 256;
    ValBitsOf(a, 8);
    ValBitsOf(b, 8);
  }

  lemma SameBytesFrom(now: seq<byte>, was: seq<byte>, from: nat, k: nat)
    requires |now| == |was| && from <= k < |now|
    requires forall q: int {:trigger PixBit(now, q)} :: q >= 8 * from ==> PixBit(now, q) == PixBit(was, q)
    ensures now[k] == was[k]
  {
    forall j | 0 <= j < 8 ensures ByteBit(now[k], j) == ByteBit(was[k], j) {
      var q := 8 * k + (7 - j);
      assert q / 8 == k && 7 - q % 8 == j;
      assert PixBit(now, q) == PixBit(was, q);
    }
    SameByte(now[k], was[k]);
  }

  /** Taking the padding out of pass i leaves the other passes, finished and unread, alone. */
  lemma PassPacked(d: Dim, i: nat, now: seq<byte>, rows: seq<byte>, f: seq<byte>, rs: seq<seq<byte>>, r: seq<byte>)
    requires ValidDim(d) && i < 7 && |rs| == i && |rows| == |f| == FilterStart(d, 7)
    requires PaddedStart(d, i) + Mul(PassH(d, i), PassLine(d, i)) <= |rows|
    requires r == rows[PaddedStart(d, i)..PaddedStart(d, i) + Mul(PassH(d, i), PassLine(d, i))]
    requires Moved(now, rows, 8 * PassStart(d, i), PassBits(d, i), rows, 8 * PaddedStart(d, i), 8 * PassLine(d, i),
      PassBits(d, i), PassH(d, i))
    requires PassesHold(d, f, rows, rs) && Unread(rows, f, FilterStart(d, i + 1))
    ensures PassHolds(d, now, i, r) && PassesHold(d, f, now, rs) && Unread(now, f, FilterStart(d, i + 1))
  {
    hide PixBit, PassesHold, PassLine, PassBits, PassH, PassStart, PaddedStart, FilterStart, FilteredSize, RowsHold;
    PassRoom(d, i);
    PassRowEnds(d, i);
    MovedRowsHold(now, rows, 8 * PassStart(d, i), PassBits(d, i), rows, PaddedStart(d, i), PassLine(d, i), PassH(d, i));
    PassesKept(d, f, now, rows, rs, PassStart(d, i));
    forall q: int | FilterStart(d, i + 1) <= q < |f| ensures now[q] == f[q] {
      SameBytesFrom(now, rows, FilterStart(d, i + 1), q);
    }
  }

  /** Rows of whole bytes, as a slice of their buffer. */
  lemma SliceHolds(rows: seq<byte>, start: nat, n: nat, h: nat)
    requires start + Mul(h, n) <= |rows|
    ensures RowsHold(rows[start..start + Mul(h, n)], n, rows, 8 * start, 8 * n, h)
  {
    hide PixBit, RowBit, Mul;
    var r := rows[start..start + Mul(h, n)];
    forall y: nat, x: nat | y < h && x < 8 * n
      ensures PixBit(rows, RowBit(8 * start, 8 * n, y, x)) == PixBit(r, RowBit(0, 8 * n, y, x))
    {
      RowsApart(0, 8 * n, y, h, x);
      BitsOfRows(8 * n, n, h);
      StretchBit(rows, start, Mul(h, n), RowBit(0, 8 * n, y, x));
      ShiftedRow(start, n, y, x);
    }
  }

  /** Pixels of whole bytes need no packing. */
  lemma PassFits(d: Dim, i: nat, rows: seq<byte>, r: seq<byte>)
    requires ValidDim(d) && i < 7 && d.bpp >= 8
    requires PaddedStart(d, i) + Mul(PassH(d, i), PassLine(d, i)) <= |rows|
    requires r == rows[PaddedStart(d, i)..PaddedStart(d, i) + Mul(PassH(d, i), PassLine(d, i))]
    ensures PassHolds(d, rows, i, r)
  {
    NoPaddingStarts(d, i);
    WholeBytes(PassW(d, i), d.bpp);
    hide PixBit, PassH, PassW, PassStart, PaddedStart;
    var start, n, h := PassStart(d, i), PassLine(d, i), PassH(d, i);
    assert PassBits(d, i) == 8 * n;
    SliceHolds(rows, start, n, h);
  }

  lemma UnreadAfter(rows: seq<byte>, was: seq<byte>, f: seq<byte>, from: nat, to: nat, at: nat, n: nat)
    requires Unread(was, f, from) && Outside(rows, was, at, n) && at + n <= to && from <= to
    ensures Unread(rows, f, to)
  {
  }

  /** One pass, undone in place: first the filters, then the padding. */
  method PostProcessPass(src: array<byte>, d: Dim, i: nat, passw: nat, passh: nat, filterStart: nat, paddedStart: nat,
                         passStart: nat,
                         ghost f: seq<byte>, ghost rs: seq<seq<byte>>)
    returns (error: nat, ghost r: seq<byte>)
    requires ValidDim(d) && i < 7 && passw == PassW(d, i) && passh == PassH(d, i)
    requires filterStart == FilterStart(d, i) && paddedStart == PaddedStart(d, i) && passStart == PassStart(d, i)
    requires |f| == FilterStart(d, 7) && Unread(src[..], f, FilterStart(d, i))
    requires FilterStart(d, i) + FilteredSize(d, i) <= |f|
    requires |rs| == i && PassesHold(d, f, src[..], rs) && Fits(d)
    modifies src
    ensures error == 0 || error == 36
    ensures error == 0 ==> Unread(src[..], f, FilterStart(d, i + 1)) && PassesHold(d, f, src[..], rs + [r])
    ensures error != 0 ==> BadType(PassPart(d, f, i), PassLine(d, i), PassH(d, i))
  {
    hide Mul, RowBit, ImageUnfiltered, BadType, Outside, PassesHold, PassW, PassH, PassLine, PassBits, PassStart,
         PaddedStart,
         FilterStart, FilteredSize, PaddedSize, Moved, PixBit, PassPart, PassHolds, Unread, LineBytes;
    var n := LineBytes(passw, d.bpp);
    PassRoom(d, i);
    PassRowEnds(d, i);
    ghost var was := src[..];
    assert |was| == |f| by { UnreadSize(was, f, filterStart); }
    PartUnread(d, f, was, i);
    r := [];
    error := Unfilter(src, paddedStart, src, filterStart, n, ByteWidth(d.bpp), passh);
    if error != 0 { return; }
    r := src[paddedStart..paddedStart + Mul(passh, n)];
    assert PassUnfiltered(d, f, i, r);
    ghost var rows := src[..];
    BytesBefore(rows, was, paddedStart, Mul(passh, n));
    PassesKept(d, f, rows, was, rs, paddedStart);
    UnreadAfter(rows, was, f, filterStart, FilterStart(d, i + 1), paddedStart, Mul(passh, n));
    if d.bpp < 8 {
      PassWidths(d, i);
      hide U32;
      RemovePaddingBits(src, passStart, src, paddedStart, U32(passw * d.bpp), U32(passw * d.bpp + 7) / 8 * 8, passh);
      PassPacked(d, i, src[..], rows, f, rs, r);
    } else {
      PassFits(d, i, rows, r);
    }
    OneMorePass(d, f, src[..], rs, r);
  }

  lemma UnreadSize(was: seq<byte>, f: seq<byte>, from: nat)
    requires Unread(was, f, from)
    ensures |was| == |f|
  {
  }

  /** A filter type above 4 in some pass. */
  ghost predicate BadPass(d: Dim, f: seq<byte>) {
    |f| == FilterStart(d, 7) && exists i: nat :: BadPassAt(d, f, i)
  }

  ghost predicate BadPassAt(d: Dim, f: seq<byte>, i: nat) {
    i < 7 && FilterStart(d, i) + FilteredSize(d, i) <= |f| && BadType(PassPart(d, f, i), PassLine(d, i), PassH(d, i))
  }

  method PostProcessAdam7(out: array<byte>, src: array<byte>, d: Dim) returns (error: nat)
    requires ValidDim(d) && Fits(d) && out != src && src.Length == FilterStart(d, 7)
    requires RowBit(0, ImageBits(d), d.h, 0) <= 8 * out.Length
    modifies out, src
    ensures error == 0 || error == 36
    ensures error == 0 ==> RepresentsAdam7(d, old(src[..]), out[..])
    ensures error != 0 ==> BadPass(d, old(src[..]))
  {
    hide PassesHold, PassW, PassH, PassLine, PassBits, PassStart, PaddedStart, FilterStart, FilteredSize, BadType,
         Interlaced,
         RepresentsAdam7, RowBit, BadPassAt, PassPart;
    var passw, passh, filterPassstart, paddedPassstart, passstart := GetPassValues(d);
    StartsFit(d);
    hide Fits, PassW32, PassH32, FilterStart32, PaddedStart32, PassStart32;
    ghost var f := src[..];
    ghost var rs: seq<seq<byte>> := [];
    NoPassesYet(d, f);
    error := 0;
    var i := 0;
    while i != 7
      invariant 0 <= i <= 7 && |rs| == i && error == 0
      invariant Unread(src[..], f, FilterStart(d, i)) && PassesHold(d, f, src[..], rs)
    {
      PassRoom(d, i);
      ghost var r;
      error, r := PostProcessPass(src, d, i, passw[i], passh[i], filterPassstart[i], paddedPassstart[i], passstart[i],
        f, rs);
      if error != 0 {
        IsBadPass(d, f, i);
        return;
      }
      rs := rs + [r];
      i := i + 1;
    }
    StartsOrdered(d, 7);
    EnoughRoom(d, src.Length, out.Length);
    Adam7Deinterlace(d, out, src);
    IsAdam7(d, f, out[..], src[..], rs);
  }

  lemma IsBadPass(d: Dim, f: seq<byte>, i: nat)
    requires |f| == FilterStart(d, 7) && i < 7 && FilterStart(d, i) + FilteredSize(d, i) <= |f|
    requires BadType(PassPart(d, f, i), PassLine(d, i), PassH(d, i))
    ensures BadPass(d, f)
  {
    hide FilterStart, FilteredSize, PassPart, PassLine, PassH, BadType;
    assert BadPassAt(d, f, i);
  }

  lemma NoPassesYet(d: Dim, f: seq<byte>)
    ensures PassesHold(d, f, f, []) && Unread(f, f, FilterStart(d, 0))
  {
  }

  lemma EnoughRoom(d: Dim, passes: nat, image: nat)
    requires PassStart(d, 7) <= passes && RowBit(0, ImageBits(d), d.h, 0) <= 8 * image
    ensures RoomFor(d, passes, image)
  {
  }

  lemma IsAdam7(d: Dim, f: seq<byte>, image: seq<byte>, passes: seq<byte>, rs: seq<seq<byte>>)
    requires |rs| == 7 && PassesHold(d, f, passes, rs) && Interlaced(d, passes, image)
    ensures RepresentsAdam7(d, f, image)
  {
    hide PassesHold, Interlaced;
    assert Adam7Rows(d, f, image, passes, rs);
  }

  /** The encoder's side of one pass. */
  method PreProcessPass(out: array<byte>, passes: array<byte>, d: Dim, i: nat, passw: nat, passh: nat, filterStart: nat,
                        paddedStart: nat, passStart: nat, paddedEnd: nat, types: seq<byte>, ghost rs: seq<seq<byte>>)
    returns (ghost r: seq<byte>)
    requires ValidDim(d) && i < 7 && passw == PassW(d, i) && passh == PassH(d, i) && out != passes
    requires filterStart == FilterStart(d, i) && paddedStart == PaddedStart(d, i) && passStart == PassStart(d, i)
    requires paddedEnd == PaddedStart(d, i + 1)
    requires out.Length == FilterStart(d, 7) && PassStart(d, 7) <= passes.Length
    requires |types| >= passh && forall y :: 0 <= y < passh ==> types[y] <= 4
    requires |rs| == i && PassesHold(d, out[..], passes[..], rs)
    modifies out
    ensures PassesHold(d, out[..], passes[..], rs + [r])
    ensures Outside(out[..], old(out[..]), FilterStart(d, i), Mul(PassH(d, i), 1 + PassLine(d, i)))
    ensures TypedAs(out[..], FilterStart(d, i), PassLine(d, i), PassH(d, i), types)
  {
    hide TypedAs, Mul, RowBit, ImageUnfiltered, ImageFiltered, Outside, PassesHold, PassW, PassH, PassLine, PassBits,
         PassStart,
         PaddedStart,
         FilterStart, FilteredSize, PaddedSize, Moved, PixBit, PassHolds, LineBytes;
    var n := LineBytes(passw, d.bpp);
    PassRoom(d, i);
    PassRowEnds(d, i);
    StartsGrow(d, i + 1, 7);
    ghost var was := out[..];
    if d.bpp < 8 {
      var padded := new byte[paddedEnd - paddedStart];
      ghost var before := padded[..];
      BitsOfRows(8 * n, n, passh);
      AddPaddingBits(padded, passes, passStart, 8 * n, passw * d.bpp, passh);
      r := padded[..];
      PaddedPassHolds(d, i, r, before, passes[..]);
      Filter(out, filterStart, padded, 0, n, ByteWidth(d.bpp), passh, types);
      assert padded[0..0 + Mul(passh, n)] == r;
    } else {
      NoPaddingStarts(d, i);
      NoPaddingStarts(d, i + 1);
      Filter(out, filterStart, passes, paddedStart, n, ByteWidth(d.bpp), passh, types);
      r := passes[paddedStart..paddedStart + Mul(passh, n)];
      PassFits(d, i, passes[..], r);
    }
    FilteredPass(d, out[..], was, passes[..], i, r, rs);
    OneMorePass(d, out[..], passes[..], rs, r);
  }

  lemma PaddedPassHolds(d: Dim, i: nat, now: seq<byte>, before: seq<byte>, passes: seq<byte>)
    requires i < 7
    requires Moved(now, before, 0, 8 * PassLine(d, i), passes, 8 * PassStart(d, i), PassBits(d, i), PassBits(d, i),
      PassH(d, i))
    ensures PassHolds(d, passes, i, now)
  {
    hide PixBit, PassLine, PassBits, PassH, PassStart;
    var start, width, n := 8 * PassStart(d, i), PassBits(d, i), PassLine(d, i);
    forall y: nat, x: nat | y < PassH(d, i) && x < width
      ensures PixBit(passes, RowBit(start, width, y, x)) == PixBit(now, RowBit(0, 8 * n, y, x))
    {
      assert PixBit(now, RowBit(0, 8 * n, y, x)) == PixBit(passes, RowBit(start, width, y, x));
    }
  }

  lemma SliceKept(now: seq<byte>, was: seq<byte>, at: nat, n: nat, lo: nat, hi: nat)
    requires Outside(now, was, at, n) && lo <= hi <= at && hi <= |now|
    ensures |was| == |now| && now[lo..hi] == was[lo..hi]
  {
  }

  /** A pass that lies before everything written. */
  lemma PassBefore(d: Dim, now: seq<byte>, was: seq<byte>, k: nat, r: seq<byte>, at: nat, n: nat)
    requires PassUnfiltered(d, was, k, r) && Outside(now, was, at, n) && FilterStart(d, k) + FilteredSize(d, k) <= at
    ensures PassUnfiltered(d, now, k, r)
  {
    hide PassLine, PassH, FilterStart, ImageUnfiltered, FilteredSize, ByteWidth;
    SliceKept(now, was, at, n, FilterStart(d, k), FilterStart(d, k) + FilteredSize(d, k));
  }

  /** Filtering pass i adds it to the passes that are done. */
  lemma FilteredPass(d: Dim, now: seq<byte>, was: seq<byte>, passes: seq<byte>, i: nat, r: seq<byte>,
                     rs: seq<seq<byte>>)
    requires ValidDim(d) && i < 7 && |rs| == i && |now| == FilterStart(d, 7)
    requires FilterStart(d, i) + Mul(PassH(d, i), 1 + PassLine(d, i)) <= |now|
    requires Outside(now, was, FilterStart(d, i), Mul(PassH(d, i), 1 + PassLine(d, i)))
    requires PassesHold(d, was, passes, rs)
    requires ImageFiltered(now[FilterStart(d, i)..FilterStart(d, i) + Mul(PassH(d, i), 1 + PassLine(d, i))], r,
                           PassLine(d, i), ByteWidth(d.bpp), PassH(d, i))
    ensures PassUnfiltered(d, now, i, r) && PassesHold(d, now, passes, rs)
  {
    hide PassLine, PassH, Mul, FilterStart, ImageFiltered, PassUnfiltered, PassHolds, ByteWidth, Outside;
    ThisPass(d, now, i, r);
    forall k | 0 <= k < |rs| ensures PassUnfiltered(d, now, k, rs[k]) {
      EarlierPass(d, now, was, k, rs[k], i);
    }
  }

  lemma ThisPass(d: Dim, now: seq<byte>, i: nat, r: seq<byte>)
    requires ValidDim(d) && i < 7 && FilterStart(d, i) + Mul(PassH(d, i), 1 + PassLine(d, i)) <= |now|
    requires ImageFiltered(now[FilterStart(d, i)..FilterStart(d, i) + Mul(PassH(d, i), 1 + PassLine(d, i))], r,
                           PassLine(d, i), ByteWidth(d.bpp), PassH(d, i))
    ensures PassUnfiltered(d, now, i, r)
  {
    hide PassLine, PassH, Mul, FilterStart, ImageFiltered, ImageUnfiltered, ByteWidth;
    FilteredImage(PassPart(d, now, i), r, PassLine(d, i), ByteWidth(d.bpp), PassH(d, i));
  }

  lemma EarlierPass(d: Dim, now: seq<byte>, was: seq<byte>, k: nat, r: seq<byte>, i: nat)
    requires ValidDim(d) && k < i < 7 && PassUnfiltered(d, was, k, r)
    requires Outside(now, was, FilterStart(d, i), Mul(PassH(d, i), 1 + PassLine(d, i)))
    ensures PassUnfiltered(d, now, k, r)
  {
    hide PassLine, PassH, Mul, FilterStart, ImageUnfiltered, FilteredSize, ByteWidth, Outside, PassUnfiltered;
    PassRoom(d, k);
    StartsGrow(d, k + 1, i);
    PassBefore(d, now, was, k, r, FilterStart(d, i), Mul(PassH(d, i), 1 + PassLine(d, i)));
  }

  /** The rows of the first m passes begin with these filter types. */
  ghost predicate PassesTyped(d: Dim, f: seq<byte>, types: seq<seq<byte>>, m: nat) {
    m <= 7 && m <= |types| && forall i: nat :: i < m ==>
      TypedAs(f, FilterStart(d, i), PassLine(d, i), PassH(d, i), types[i])
  }

  lemma MorePassesTyped(d: Dim, now: seq<byte>, was: seq<byte>, types: seq<seq<byte>>, m: nat)
    requires ValidDim(d) && m < 7 && m < |types| && PassesTyped(d, was, types, m)
    requires Outside(now, was, FilterStart(d, m), Mul(PassH(d, m), 1 + PassLine(d, m)))
    requires TypedAs(now, FilterStart(d, m), PassLine(d, m), PassH(d, m), types[m])
    ensures PassesTyped(d, now, types, m + 1)
  {
    hide TypedAs, Mul, PassLine, PassH, FilterStart, Outside, FilteredSize;
    forall i: nat | i < m + 1 ensures TypedAs(now, FilterStart(d, i), PassLine(d, i), PassH(d, i), types[i]) {
      if i < m {
        PassRoom(d, i);
        StartsGrow(d, i + 1, m);
        TypesKept(now, was, FilterStart(d, i), PassLine(d, i), PassH(d, i), types[i], FilterStart(d, m),
          Mul(PassH(d, m), 1 + PassLine(d, m)));
      }
    }
  }

  /** The encoder's side with Adam7; the filter types of every pass are given. */
  method PreProcessAdam7(src: array<byte>, d: Dim, types: seq<seq<byte>>) returns (out: array<byte>)
    requires ValidDim(d) && RowBit(0, ImageBits(d), d.h, 0) <= 8 * src.Length && Fits(d) && OffsetsFit(d)
    requires |types| >= 7 && forall i, y :: 0 <= i < 7 && 0 <= y < |types[i]| ==> types[i][y] <= 4
    requires forall i :: 0 <= i < 7 ==> |types[i]| >= PassH(d, i)
    ensures fresh(out) && out.Length == FilterStart(d, 7)
    ensures RepresentsAdam7(d, out[..], src[..]) && PassesTyped(d, out[..], types, 7)
  {
    hide PassesTyped, Outside, TypedAs, PassesHold, PassW, PassH, PassLine, PassBits, PassStart, PaddedStart,
         FilterStart, FilteredSize, Interlaced,
         RepresentsAdam7, RowBit, PassPart;
    var passw, passh, filterPassstart, paddedPassstart, passstart := GetPassValues(d);
    StartsFit(d);
    hide Fits, OffsetsFit, PassW32, PassH32, FilterStart32, PaddedStart32, PassStart32;
    out := new byte[filterPassstart[7]];
    var passes := new byte[passstart[7]];
    EnoughRoom(d, passes.Length, src.Length);
    Adam7Interlace(d, passes, src);
    ghost var rs: seq<seq<byte>> := [];
    NoPassesHeld(d, out[..], passes[..]);
    NoPassesTyped(d, out[..], types);
    var i := 0;
    while i != 7
      invariant 0 <= i <= 7 && |rs| == i && PassesHold(d, out[..], passes[..], rs)
      invariant Interlaced(d, passes[..], src[..]) && PassesTyped(d, out[..], types, i)
    {
      ghost var was := out[..];
      ghost var r := PreProcessPass(out, passes, d, i, passw[i], passh[i], filterPassstart[i], paddedPassstart[i],
        passstart[i],
                                    paddedPassstart[i + 1], types[i], rs);
      rs := rs + [r];
      MorePassesTyped(d, out[..], was, types, i);
      i := i + 1;
    }
    IsAdam7(d, out[..], src[..], passes[..], rs);
  }

  lemma NoPassesHeld(d: Dim, f: seq<byte>, passes: seq<byte>)
    ensures PassesHold(d, f, passes, [])
  {
  }

  lemma NoPassesTyped(d: Dim, f: seq<byte>, types: seq<seq<byte>>)
    ensures PassesTyped(d, f, types, 0)
  {
  }

  // ---------- both, as the source calls them

  /** What a whole stream of filtered scanlines says. */
  ghost predicate Represents(d: Dim, interlaced: bool, f: seq<byte>, image: seq<byte>) {
    if interlaced then RepresentsAdam7(d, f, image) else RepresentsPlain(d, f, image)
  }

  /** How many bytes of filtered scanlines there are. */
  function StreamSize(d: Dim, interlaced: bool): nat {
    if interlaced then FilterStart(d, 7) else Mul(d.h, 1 + LineBytes(d.w, d.bpp))
  }

  /** A filter type for every scanline of every pass; without interlacing there is one pass. */
  ghost predicate TypesOk(d: Dim, interlaced: bool, types: seq<seq<byte>>) {
    && |types| >= (if interlaced then 7 else 1)
    && (forall i, y :: 0 <= i < |types| && 0 <= y < |types[i]| ==> types[i][y] <= 4)
    && (if interlaced then forall i :: 0 <= i < 7 ==> |types[i]| >= PassH(d, i) else |types[0]| >= d.h)
  }

  /** What the encoder's and the decoder's arithmetic asks of the size of an image. The encoder pads rows
      in more than 32 bits. */
  predicate Encodable(d: Dim, interlaced: bool) {
    interlaced ==> Fits(d) && OffsetsFit(d)
  }

  predicate Decodable(d: Dim, interlaced: bool) {
    if interlaced then Fits(d) else RowsFit(d)
  }

  /** Every scanline begins with its filter type. */
  ghost predicate Typed(d: Dim, interlaced: bool, f: seq<byte>, types: seq<seq<byte>>) {
    if interlaced then PassesTyped(d, f, types, 7)
    else |types| > 0 && TypedAs(f, 0, LineBytes(d.w, d.bpp), d.h, types[0])
  }

  /** preProcessScanlines, with the filter types as the filter strategy chose them. */
  method PreProcessScanlines(src: array<byte>, d: Dim, interlaced: bool, types: seq<seq<byte>>)
    returns (out: array<byte>)
    requires ValidDim(d) && d.w >= 1 && RowBit(0, ImageBits(d), d.h, 0) <= 8 * src.Length
      && TypesOk(d, interlaced, types)
    requires Encodable(d, interlaced)
    ensures fresh(out) && out.Length == StreamSize(d, interlaced)
    ensures Represents(d, interlaced, out[..], src[..]) && Typed(d, interlaced, out[..], types)
  {
    hide PassesTyped, TypedAs, RepresentsPlain, RepresentsAdam7, FilterStart, Mul, LineBytes, PassH, Fits, OffsetsFit;
    if interlaced {
      out := PreProcessAdam7(src, d, types);
    } else {
      out := PreProcessPlain(src, d, types[0]);
    }
  }

  /** postProcessScanlines. The scanlines are overwritten. An invalid colour type, with no bits per
      pixel, is an error of its own. */
  method PostProcessScanlines(out: array<byte>, src: array<byte>, d: Dim, interlaced: bool) returns (error: nat)
    requires d.bpp != 0 ==> ValidDim(d) && d.w >= 1 && out != src && Decodable(d, interlaced)
    requires d.bpp != 0 ==> src.Length == StreamSize(d, interlaced) && RowBit(0, ImageBits(d), d.h, 0) <= 8 * out.Length
    modifies out, src
    ensures error == 31 <==> d.bpp == 0
    ensures error == 0 ==> Represents(d, interlaced, old(src[..]), out[..])
    ensures error != 0 && d.bpp != 0 ==>
      error == 36 && (if interlaced then BadPass(d, old(src[..]))
        else BadType(old(src[..]), LineBytes(d.w, d.bpp), d.h))
  {
    hide RepresentsPlain, RepresentsAdam7, FilterStart, Mul, LineBytes, BadPass, BadType, Fits, RowsFit;
    if d.bpp == 0 { return 31; }
    if interlaced {
      error := PostProcessAdam7(out, src, d);
    } else {
      error := PostProcessPlain(out, src, d);
    }
  }

  /** The two images have the same pixels. */
  ghost predicate SamePixels(d: Dim, image: seq<byte>, back: seq<byte>) {
    forall x: nat, y: nat, b: nat {:trigger PixelBit(d, x, y, b)} :: x < d.w && y < d.h && b < d.bpp ==>
      PixBit(back, PixelBit(d, x, y, b)) == PixBit(image, PixelBit(d, x, y, b))
  }

  /** Filtered scanlines represent one image only. */
  lemma RepresentsOne(d: Dim, interlaced: bool, f: seq<byte>, image: seq<byte>, back: seq<byte>)
    requires Represents(d, interlaced, f, image) && Represents(d, interlaced, f, back)
    ensures SamePixels(d, image, back)
  {
    hide RepresentsPlain, RepresentsAdam7, PixBit, RowBit;
    forall x: nat, y: nat, b: nat | x < d.w && y < d.h && b < d.bpp
      ensures PixBit(back, PixelBit(d, x, y, b)) == PixBit(image, PixelBit(d, x, y, b))
    {
      if interlaced {
        Adam7Unique(d, f, image, back, x, y, b);
      } else {
        PixelFits(x, d.w, d.bpp, b);
        PlainUnique(d, f, image, back, y, Mul(x, d.bpp) + b);
      }
    }
  }

  /** A stream that was filtered has no invalid filter type. */
  lemma RepresentedIsValid(d: Dim, interlaced: bool, f: seq<byte>, image: seq<byte>)
    requires Represents(d, interlaced, f, image)
    ensures interlaced ==> !BadPass(d, f)
    ensures !interlaced ==> !BadType(f, LineBytes(d.w, d.bpp), d.h)
  {
    hide PassW, PassH, FilterStart, FilteredSize, LineBytes, Mul, RowUnfiltered, RowsHold, Interlaced;
    if interlaced {
      var passes, rs :| Adam7Rows(d, f, image, passes, rs);
      forall i: nat | i < 7 ensures !BadPassAt(d, f, i) {
        assert PassUnfiltered(d, f, i, rs[i]);
        NoBadType(PassPart(d, f, i), rs[i], PassLine(d, i), ByteWidth(d.bpp), PassH(d, i));
      }
    } else {
      var r: seq<byte> :| PlainRows(d, f, image, r);
      NoBadType(f, r, LineBytes(d.w, d.bpp), ByteWidth(d.bpp), d.h);
    }
  }

  lemma NoBadType(f: seq<byte>, r: seq<byte>, n: nat, bw: nat, h: nat)
    requires ImageUnfiltered(f, r, n, bw, h)
    ensures !BadType(f, n, h)
  {
    hide Mul, Unfiltered;
    forall y: nat | y < h ensures !BadTypeAt(f, n, y) {
      assert RowUnfiltered(f, r, n, bw, y);
    }
  }

  /** The law of this part of the codec: the scanlines of an image are decoded to its pixels, for
      every size, pixel format, interlacing and choice of filters. */
  method ScanlineRoundTrip(image: array<byte>, d: Dim, interlaced: bool, types: seq<seq<byte>>)
    returns (back: array<byte>, error: nat)
    requires ValidDim(d) && d.w >= 1 && RowBit(0, ImageBits(d), d.h, 0) <= 8 * image.Length
      && TypesOk(d, interlaced, types)
    requires Encodable(d, interlaced) && Decodable(d, interlaced)
    ensures error == 0 && SamePixels(d, image[..], back[..])
  {
    hide Represents, BadPass, BadType, LineBytes, RowBit, PassH, StreamSize, SamePixels, Encodable, Decodable;
    var scanlines := PreProcessScanlines(image, d, interlaced, types);
    ghost var f, original := scanlines[..], image[..];
    back := new byte[image.Length](_ => 0);
    RepresentedIsValid(d, interlaced, f, original);
    error := PostProcessScanlines(back, scanlines, d, interlaced);
    RepresentsOne(d, interlaced, f, original, back[..]);
  }
}
