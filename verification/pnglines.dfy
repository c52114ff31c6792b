/** What filtered scanlines say, byte by byte: sections 7.3, 8.1 and 9.2 of the PNG specification, in plain
    arithmetic and independent of the predicates that the methods carry. */
module PngLines {
  import opened Bits
  import opened BitIO
  import opened PixelBits
  import opened Filters
  import opened FilterLines
  import opened Adam7
  import opened Interlace
  import opened Words
  import opened Scanlines

  /** Byte i of row y of rows of n bytes; zero to the left of the rows and above them. */
  function At(r: seq<byte>, n: nat, y: int, i: int): byte {
    if y >= 0 && 0 <= i < n && 0 <= y * n + i < |r| then r[y * n + i] else 0
  }

  /** Byte i of row y, from its filter type t, the filtered byte o, and the bytes to the left, above, and
      above to the left. */
  ghost predicate ByteOf(t: byte, o: byte, r: seq<byte>, n: nat, bw: nat, y: nat, i: nat) {
    var a, b, c := At(r, n, y, i - bw), At(r, n, y - 1, i), At(r, n, y - 1, i - bw);
    && (t == 0 ==> At(r, n, y, i) == o)
    && (t == 1 ==> At(r, n, y, i) == (o as int + a) % 256)
    && (t == 2 ==> At(r, n, y, i) == (o as int + b) % 256)
    && (t == 3 ==> At(r, n, y, i) == (o as int + (a as int + b) / 2) % 256)
    && (t == 4 ==> At(r, n, y, i) == (o as int + Paeth(a, b, c)) % 256)
  }

  /** The same in the scanline at `start`, whose filter type comes first. */
  ghost predicate ByteIs(f: seq<byte>, start: nat, r: seq<byte>, n: nat, bw: nat, y: nat, i: nat) {
    start + 1 + i < |f| && ByteOf(f[start], f[start + 1 + i], r, n, bw, y, i)
  }

  /** Scanline y of those from `at` on. */
  ghost predicate LineIs(f: seq<byte>, at: nat, r: seq<byte>, n: nat, bw: nat, y: nat) {
    var start := at + y * (n + 1);
    && 0 <= start && start + 1 + n <= |f| && f[start] <= 4
    && forall i: nat :: i < n ==> ByteIs(f, start, r, n, bw, y, i)
  }

  lemma RowsAre(d: seq<byte>, n: nat, h: nat, y: nat, i: nat)
    requires |d| == Mul(h, n) && y < h && i < n
    ensures y * n == Mul(y, n) && 0 <= y * n + i < Mul(y, n) + n <= |d|
    ensures Row(d, n, y)[i] == d[y * n + i] == At(d, n, y, i)
    ensures y > 0 ==> |Filters.Before(d, n, y)| == n && Filters.Before(d, n, y)[i] == At(d, n, y - 1, i)
  {
    RowFits(n, y, h);
    if y > 0 { RowFits(n, y - 1, h); }
  }

  /** The neighbours, as the predicates name them. */
  lemma NeighboursAre(d: seq<byte>, n: nat, bw: nat, h: nat, y: nat, i: nat)
    requires |d| == Mul(h, n) && y < h && i < n && bw > 0
    ensures Mul(y, n) + n <= |d| && (y > 0 ==> Mul(y - 1, n) + n <= |d|)
    ensures var x, prev := Row(d, n, y), Filters.Before(d, n, y);
      && |x| == n && x[i] == At(d, n, y, i) && (if y == 0 then prev == [] else |prev| == n)
      && At(d, n, y, i - bw) == (if i < bw then 0 else x[i - bw])
      && At(d, n, y - 1, i) == (if prev == [] then 0 else prev[i])
      && At(d, n, y - 1, i - bw) == (if prev == [] || i < bw then 0 else prev[i - bw])
  {
    hide At, Row, Filters.Before, Mul;
    RowFits(n, y, h);
    if y > 0 { RowFits(n, y - 1, h); }
    RowsAre(d, n, h, y, i);
    if i >= bw { RowsAre(d, n, h, y, i - bw); }
    Shapes(d, n, y);
    Outside0(d, n, y, i, bw);
  }

  lemma Shapes(d: seq<byte>, n: nat, y: nat)
    requires Mul(y, n) + n <= |d| && (y > 0 ==> Mul(y - 1, n) + n <= |d|)
    ensures |Row(d, n, y)| == n && (if y == 0 then Filters.Before(d, n, y) == [] else |Filters.Before(d, n, y)| == n)
  {
  }

  lemma Outside0(d: seq<byte>, n: nat, y: nat, i: nat, bw: nat)
    ensures y == 0 ==> At(d, n, y - 1, i) == 0 && At(d, n, y - 1, i - bw) == 0
    ensures i < bw ==> At(d, n, y, i - bw) == 0 && At(d, n, y - 1, i - bw) == 0
  {
  }

  /** Reconstructed rows are the bytes that the specification computes. */
  lemma LineSpelled(f: seq<byte>, at: nat, part: seq<byte>, r: seq<byte>, n: nat, bw: nat, h: nat, y: nat)
    requires at + |part| <= |f| && part == f[at..at + |part|] && ImageUnfiltered(part, r, n, bw, h) && y < h
    ensures LineIs(f, at, r, n, bw, y)
  {
    hide ByteIs, Unfiltered, Row, Filters.Before, Mul;
    RowFits(n, y, h);
    RowFits(1 + n, y, h);
    assert RowUnfiltered(part, r, n, bw, y);
    var start := at + y * (n + 1);
    StartIs(n, y);
    assert f[start] == part[Mul(y, 1 + n)];
    forall i: nat | i < n ensures ByteIs(f, start, r, n, bw, y, i) {
      SliceByte(f, at, part, Mul(y, 1 + n) + 1, n, i);
      ByteSpelled(f, start, part[Mul(y, 1 + n) + 1..Mul(y, 1 + n) + 1 + n], r, n, bw, h, y, i);
    }
  }

  lemma StartIs(n: nat, y: nat)
    ensures y * (n + 1) == Mul(y, 1 + n)
  {
  }

  lemma SliceByte(f: seq<byte>, at: nat, part: seq<byte>, from: nat, n: nat, i: nat)
    requires at + |part| <= |f| && part == f[at..at + |part|] && from + n <= |part| && i < n
    ensures part[from..from + n][i] == f[at + from + i]
  {
  }

  lemma ByteSpelled(f: seq<byte>, start: nat, o: seq<byte>, r: seq<byte>, n: nat, bw: nat, h: nat, y: nat, i: nat)
    requires |r| == Mul(h, n) && y < h && i < n && bw > 0 && start + 1 + i < |f|
    requires Mul(y, n) + n <= |r| && (y > 0 ==> Mul(y - 1, n) + n <= |r|)
    requires Unfiltered(f[start], o, Filters.Before(r, n, y), bw, Row(r, n, y))
    requires i < |o| ==> f[start + 1 + i] == o[i]
    ensures ByteIs(f, start, r, n, bw, y, i)
  {
    hide ByteOf, At, Row, Filters.Before, Mul, Paeth, Unfiltered, Filtered, PredictAt;
    var x, prev := Row(r, n, y), Filters.Before(r, n, y);
    NeighboursAre(r, n, bw, h, y, i);
    FilteredByte(f[start], x, prev, bw, o, i);
    IsByteOf(f[start], o[i], r, n, bw, y, i, if i < bw then 0 else x[i - bw], if prev == [] then 0 else prev[i],
      if prev == [] || i < bw then 0 else prev[i - bw], x[i]);
  }

  lemma IsByteOf(t: byte, o: byte, r: seq<byte>, n: nat, bw: nat, y: nat, i: nat, a: byte, b: byte, c: byte, v: byte)
    requires At(r, n, y, i) == v && At(r, n, y, i - bw) == a && At(r, n, y - 1, i) == b && At(r, n, y - 1, i - bw) == c
    requires (t == 0 ==> v == o) && (t == 1 ==> v == (o as int + a) % 256) && (t == 2 ==> v == (o as int + b) % 256)
    requires t == 3 ==> v == (o as int + (a as int + b) / 2) % 256
    requires t == 4 ==> v == (o as int + Paeth(a, b, c)) % 256
    ensures ByteOf(t, o, r, n, bw, y, i)
  {
    hide At, Paeth;
  }

  // ---------- images without interlacing

  /** Bit x of row y of the image, among the rows of n bytes. */
  ghost predicate BitIs(image: seq<byte>, width: nat, r: seq<byte>, n: nat, y: nat, x: nat) {
    PixBit(image, y * width + x) == PixBit(r, 8 * (y * n) + x)
  }

  /** Scanlines of an image without interlacing: rows of ceil(w * bpp / 8) bytes, each after its filter
      type, whose bits are those of the image and then padding. The byte to the left is that of the
      previous pixel, or the previous byte. */
  lemma PlainLines(d: Dim, f: seq<byte>, image: seq<byte>) returns (r: seq<byte>)
    requires ValidDim(d) && RepresentsPlain(d, f, image)
    ensures var n, bw := (d.w * d.bpp + 7) / 8, if d.bpp < 8 then 1 else d.bpp / 8;
      && |f| == d.h * (n + 1) && |r| == d.h * n
      && (forall y: nat :: y < d.h ==> LineIs(f, 0, r, n, bw, y))
      && forall y: nat, x: nat :: y < d.h && x < d.w * d.bpp ==> BitIs(image, d.w * d.bpp, r, n, y, x)
  {
    hide LineIs, BitIs, ImageUnfiltered, RowsHold;
    r :| PlainRows(d, f, image, r);
    var n, bw := (d.w * d.bpp + 7) / 8, ByteWidth(d.bpp);
    UnfilteredSizes(f, r, n, bw, d.h);
    assert f[0..0 + |f|] == f;
    forall y: nat | y < d.h ensures LineIs(f, 0, r, n, bw, y) {
      LineSpelled(f, 0, f, r, n, bw, d.h, y);
    }
    forall y: nat, x: nat | y < d.h && x < d.w * d.bpp ensures BitIs(image, d.w * d.bpp, r, n, y, x) {
      HeldBitIs(r, n, image, d.w * d.bpp, d.h, y, x);
    }
  }

  lemma UnfilteredSizes(f: seq<byte>, r: seq<byte>, n: nat, bw: nat, h: nat)
    requires ImageUnfiltered(f, r, n, bw, h)
    ensures |f| == h * (n + 1) && |r| == h * n
  {
    hide RowUnfiltered;
  }

  lemma HeldBitIs(r: seq<byte>, n: nat, image: seq<byte>, width: nat, h: nat, y: nat, x: nat)
    requires RowsHold(r, n, image, 0, width, h) && y < h && x < width
    ensures BitIs(image, width, r, n, y, x)
  {
    hide PixBit;
    assert RowBit(0, width, y, x) == y * width + x;
    assert RowBit(0, 8 * n, y, x) == 8 * (y * n) + x;
  }

  // ---------- images with Adam7

  /** The scanlines of a pass stand behind those of the passes before it. */
  lemma PassStartsAre(d: Dim, i: nat)
    requires i < 7
    ensures FilterStart(d, 0) == 0
    ensures FilterStart(d, i + 1) == FilterStart(d, i) + PassH(d, i) * ((PassW(d, i) * d.bpp + 7) / 8 + 1)
  {
    hide PassW, PassH;
  }

  /** Bit b of pixel (x, y), among the rows of its pass. */
  ghost predicate PassBitIs(d: Dim, image: seq<byte>, rs: seq<seq<byte>>, x: nat, y: nat, b: nat)
    requires |rs| == 7
  {
    var i := PassOf(x, y);
    var n := (PassW(d, i) * d.bpp + 7) / 8;
    PixBit(image, y * (d.w * d.bpp) + (x * d.bpp + b))
    == PixBit(rs[i], 8 * ((y / Dy(i)) * n) + ((x / Dx(i)) * d.bpp + b))
  }

  /** Scanline y of pass i. */
  ghost predicate PassLineIs(d: Dim, f: seq<byte>, rs: seq<seq<byte>>, i: nat, y: nat)
    requires i < |rs| == 7
  {
    LineIs(f, FilterStart(d, i), rs[i], (PassW(d, i) * d.bpp + 7) / 8, if d.bpp < 8 then 1 else d.bpp / 8, y)
  }

  /** Scanlines of an interlaced image: those of every pass are filtered like an image of its own, and every
      pixel is found in the pass that the pattern gives it. */
  lemma InterlacedLines(d: Dim, f: seq<byte>, image: seq<byte>) returns (rs: seq<seq<byte>>)
    requires ValidDim(d) && RepresentsAdam7(d, f, image)
    ensures |rs| == 7
    ensures forall i: nat, y: nat :: i < 7 && y < PassH(d, i) ==> PassLineIs(d, f, rs, i, y)
    ensures forall x: nat, y: nat, b: nat :: x < d.w && y < d.h && b < d.bpp ==> PassBitIs(d, image, rs, x, y, b)
  {
    hide PassLineIs, PassBitIs, PassUnfiltered, PassHolds, Interlaced, PassW, PassH, PassOf;
    var passes: seq<byte>;
    passes, rs :| Adam7Rows(d, f, image, passes, rs);
    forall i: nat, y: nat | i < 7 && y < PassH(d, i) ensures PassLineIs(d, f, rs, i, y) {
      assert PassUnfiltered(d, f, i, rs[i]);
      PassLineSpelled(d, f, i, rs, y);
    }
    forall x: nat, y: nat, b: nat | x < d.w && y < d.h && b < d.bpp ensures PassBitIs(d, image, rs, x, y, b) {
      var i := PassOf(x, y);
      assert PassHolds(d, passes, i, rs[i]);
      PixelSpelled(d, passes, image, rs, x, y, b);
    }
  }

  lemma PassLineSpelled(d: Dim, f: seq<byte>, i: nat, rs: seq<seq<byte>>, y: nat)
    requires ValidDim(d) && i < |rs| == 7 && y < PassH(d, i) && PassUnfiltered(d, f, i, rs[i])
    ensures PassLineIs(d, f, rs, i, y)
  {
    hide LineIs, ImageUnfiltered, PassW, PassH, FilterStart, FilteredSize;
    LineSpelled(f, FilterStart(d, i), PassPart(d, f, i), rs[i], PassLine(d, i), ByteWidth(d.bpp), PassH(d, i), y);
  }

  lemma PixelSpelled(d: Dim, passes: seq<byte>, image: seq<byte>, rs: seq<seq<byte>>, x: nat, y: nat, b: nat)
    requires ValidDim(d) && |rs| == 7 && x < d.w && y < d.h && b < d.bpp && Interlaced(d, passes, image)
    requires PassHolds(d, passes, PassOf(x, y), rs[PassOf(x, y)])
    ensures PassBitIs(d, image, rs, x, y, b)
  {
    hide PassHolds, Interlaced, PassW, PassH, PixBit, PassOf, Dx, Dy, PassStart, RowBit, PassBit, InPass;
    var i := PassOf(x, y);
    InterlacedBit(d, passes, image, x, y, b);
    PlaceInPass(d, x, y, b);
    HeldBit(d, passes, i, rs[i], y / Dy(i), x / Dx(i), b);
    RowPlaceIs(PassLine(d, i), y / Dy(i), x / Dx(i), d.bpp, b);
  }

  lemma PlaceInPass(d: Dim, x: nat, y: nat, b: nat)
    requires x < d.w && y < d.h && b < d.bpp
    ensures var i := PassOf(x, y);
      && InPass(d, i, y / Dy(i), x / Dx(i), b)
      && PassBit(d, i, y / Dy(i), x / Dx(i), b)
        == 8 * PassStart(d, i) + (y / Dy(i)) * (PassW(d, i) * d.bpp) + ((x / Dx(i)) * d.bpp + b)
  {
    hide PassW, PassH, PassOf, Dx, Dy, PassStart, PassBit;
    var i := PassOf(x, y);
    PassCovers(d, x, y);
    PlacesAre(d, i, x, y, b, x / Dx(i), y / Dy(i));
  }

  lemma RowPlaceIs(n: nat, y: nat, x: nat, bpp: nat, b: nat)
    ensures RowBit(0, 8 * n, y, Mul(x, bpp) + b) == 8 * (y * n) + (x * bpp + b)
  {
  }
}
