/** Bits of packed pixels: in a byte the first pixel is in the most significant bits. */
module PixelBits {
  import opened Bits

  function ByteBit(v: nat, j: nat): bool {
    (v / Pow2(j)) % 2 == 1
  }

  /** Bit i of a byte string, most significant bit of each byte first. Outside it there are only
      zeros. */
  function PixBit(d: seq<byte>, i: int): bool {
    0 <= i < 8 * |d| && ByteBit(d[i / 8], 7 - i % 8)
  }

  lemma HalfAgain(v: nat, p: nat)
    requires p > 0
    ensures v / (2 * p) == (v / p) / 2
  {
    var q, r := v / p, v % p;
    assert v == q * p + r;
    assert q * p == (q / 2) * (2 * p) + (q % 2) * p;
    if q % 2 == 1 { assert (q % 2) * p == p; } else { assert (q % 2) * p == 0; }
    DivModUnique(v, 2 * p, q / 2, (q % 2) * p + r);
  }

  /** A byte is the number whose eight binary digits are its bits, the first of them worth 128. */
  lemma ByteOfBits(d: seq<byte>, k: nat)
    requires k < |d|
    ensures d[k] as int
      == 128 * Bit(PixBit(d, 8 * k)) + 64 * Bit(PixBit(d, 8 * k + 1)) + 32 * Bit(PixBit(d, 8 * k + 2))
       + 16 * Bit(PixBit(d, 8 * k + 3)) + 8 * Bit(PixBit(d, 8 * k + 4)) + 4 * Bit(PixBit(d, 8 * k + 5))
       + 2 * Bit(PixBit(d, 8 * k + 6)) + Bit(PixBit(d, 8 * k + 7))
  {
    EightDigits(d[k]);
    hide ByteBit, PixBit, Bit;
    assert PixBit(d, 8 * k) == ByteBit(d[k], 7) by { BitAt(d, k, 0); }
    BitAt(d, k, 1);
    BitAt(d, k, 2);
    BitAt(d, k, 3);
    BitAt(d, k, 4);
    BitAt(d, k, 5);
    BitAt(d, k, 6);
    BitAt(d, k, 7);
  }

  lemma BitAt(d: seq<byte>, k: nat, j: nat)
    requires k < |d| && j < 8
    ensures PixBit(d, 8 * k + j) == ByteBit(d[k], 7 - j)
  {
    DivModUnique(8 * k + j, 8, k, j);
    hide ByteBit;
  }

  lemma EightDigits(v: nat)
    requires v < 256
    ensures v
      == 128 * Bit(ByteBit(v, 7)) + 64 * Bit(ByteBit(v, 6)) + 32 * Bit(ByteBit(v, 5)) + 16 * Bit(ByteBit(v, 4))
       + 8 * Bit(ByteBit(v, 3)) + 4 * Bit(ByteBit(v, 2)) + 2 * Bit(ByteBit(v, 1)) + Bit(ByteBit(v, 0))
  {
    Places();
    Ends(v);
    hide *;
    Digit(v, 0, 1);
    Digit(v, 1, 2);
    Digit(v, 2, 4);
    Digit(v, 3, 8);
    Digit(v, 4, 16);
    Digit(v, 5, 32);
    Digit(v, 6, 64);
    Digit(v, 7, 128);
  }

  lemma Places()
    ensures Pow2(0) == 1 && Pow2(1) == 2 && Pow2(2) == 4 && Pow2(3) == 8
    ensures Pow2(4) == 16 && Pow2(5) == 32 && Pow2(6) == 64 && Pow2(7) == 128
  {
    assert Pow2(3) == 8;
    assert Pow2(5) == 32;
  }

  function Quotient(v: nat, p: nat): nat
    requires p > 0
  {
    v / p
  }

  lemma Ends(v: nat)
    requires v < 256
    ensures Quotient(v, 1) == v && Quotient(v, 256) == 0
  {
  }

  lemma Digit(v: nat, j: nat, p: nat)
    requires p == Pow2(j)
    ensures Quotient(v, p) == 2 * Quotient(v, 2 * p) + Bit(ByteBit(v, j))
  {
    HalfAgain(v, p);
  }

  // ---------- setting one bit

  lemma HalfBit(x: nat, j: nat)
    requires j > 0
    ensures ByteBit(x, j) == ByteBit(x / 2, j - 1)
  {
    DivDiv(x, Pow2(j - 1));
  }

  lemma LowestBit(x: nat)
    ensures ByteBit(x, 0) == (x % 2 == 1)
  {
    assert Pow2(0) == 1;
  }

  lemma {:induction false} OrBit(x: nat, y: nat, j: nat)
    ensures ByteBit(Or(x, y), j) == (ByteBit(x, j) || ByteBit(y, j))
    decreases j
  {
    assert Or(x, y) / 2 == Or(x / 2, y / 2) && (Or(x, y) % 2 == 1 <==> x % 2 == 1 || y % 2 == 1);
    if j > 0 {
      hide ByteBit;
      OrBit(x / 2, y / 2, j - 1);
      HalfBit(Or(x, y), j);
      HalfBit(x, j);
      HalfBit(y, j);
    }
  }

  lemma {:induction false} AndBit(x: nat, y: nat, j: nat)
    ensures ByteBit(And(x, y), j) == (ByteBit(x, j) && ByteBit(y, j))
    decreases j
  {
    assert And(x, y) / 2 == And(x / 2, y / 2) && (And(x, y) % 2 == 1 <==> x % 2 == 1 && y % 2 == 1);
    if j > 0 {
      hide ByteBit;
      AndBit(x / 2, y / 2, j - 1);
      HalfBit(And(x, y), j);
      HalfBit(x, j);
      HalfBit(y, j);
    }
  }

  lemma {:induction false} OrBound(x: nat, y: nat, n: nat)
    requires x < Pow2(n) && y < Pow2(n)
    ensures Or(x, y) < Pow2(n)
    decreases n
  {
    if n > 0 && x != 0 && y != 0 { OrBound(x / 2, y / 2, n - 1); }
  }

  lemma {:induction false} AndBound(x: nat, y: nat)
    ensures And(x, y) <= x
    decreases x
  {
    if x != 0 && y != 0 { AndBound(x / 2, y / 2); }
  }

  lemma {:induction false} PowerBit(k: nat, j: nat)
    ensures ByteBit(Pow2(k), j) == (j == k)
    decreases j
  {
    if j > 0 {
      HalfBit(Pow2(k), j);
      if k > 0 {
        PowerBit(k - 1, j - 1);
        assert Pow2(k) / 2 == Pow2(k - 1);
      } else {
        ZeroBit(j - 1);
      }
    } else if k > 0 {
      assert Pow2(k) == 2 * Pow2(k - 1);
    }
  }

  lemma ZeroBit(j: nat)
    ensures !ByteBit(0, j)
  {
    assert 0 / Pow2(j) == 0;
  }

  lemma {:induction false} OnesBit(n: nat, j: nat)
    requires j < n
    ensures ByteBit(Pow2(n) - 1, j)
    decreases j
  {
    if j > 0 {
      HalfBit(Pow2(n) - 1, j);
      assert (Pow2(n) - 1) / 2 == Pow2(n - 1) - 1;
      OnesBit(n - 1, j - 1);
    }
  }

  /** The mask that clears bit k. */
  lemma {:induction false} MaskBit(n: nat, k: nat, j: nat)
    requires k < n && j < n
    ensures Pow2(n) - 1 - Pow2(k) >= 0 && ByteBit(Pow2(n) - 1 - Pow2(k), j) == (j != k)
    decreases j
  {
    hide ByteBit;
    Pow2Mono(k, n - 1);
    var x := Pow2(n) - 1 - Pow2(k);
    LowestBit(x);
    if k == 0 {
      assert x / 2 == Pow2(n - 1) - 1 && x % 2 == 0;
      if j > 0 {
        HalfBit(x, j);
        OnesBit(n - 1, j - 1);
      }
    } else {
      Pow2Mono(k - 1, n - 2);
      assert x / 2 == Pow2(n - 1) - 1 - Pow2(k - 1) && x % 2 == 1;
      if j > 0 {
        HalfBit(x, j);
        MaskBit(n - 1, k - 1, j - 1);
      }
    }
  }

  lemma SetOne(v: nat, k: nat, j: nat)
    requires k < 8 && j < 8
    ensures ByteBit(Or(v, Pow2(k)), j) == (j == k || ByteBit(v, j))
    ensures 255 - Pow2(k) >= 0 && ByteBit(And(v, 255 - Pow2(k)), j) == (j != k && ByteBit(v, j))
  {
    hide ByteBit, Or, And;
    assert Pow2(8) == 256;
    OrBit(v, Pow2(k), j);
    PowerBit(k, j);
    MaskBit(8, k, j);
    assert 255 - Pow2(k) == Pow2(8) - 1 - Pow2(k);
    AndBit(v, 255 - Pow2(k), j);
  }

  /** The byte with bit k set or cleared, as the source computes it. */
  function WithBit(v: byte, k: nat, bit: bool): (r: byte)
    requires k < 8
    ensures forall j {:trigger ByteBit(r, j)} :: 0 <= j < 8 ==> ByteBit(r, j) == if j == k then bit else ByteBit(v, j)
  {
    WithBitOk(v, k, bit);
    if bit then Or(v, Pow2(k)) else And(v, 255 - Pow2(k))
  }

  lemma WithBitOk(v: byte, k: nat, bit: bool)
    requires k < 8
    ensures Pow2(k) <= 255
    ensures var r := if bit then Or(v, Pow2(k)) else And(v, 255 - Pow2(k));
      r < 256 && forall j {:trigger ByteBit(r, j)} :: 0 <= j < 8 ==>
        ByteBit(r, j) == if j == k then bit else ByteBit(v, j)
  {
    hide ByteBit, Or, And;
    assert Pow2(8) == 256;
    Pow2Mono(k, 7);
    OrBound(v, Pow2(k), 8);
    AndBound(v, 255 - Pow2(k));
    var r := if bit then Or(v, Pow2(k)) else And(v, 255 - Pow2(k));
    forall j | 0 <= j < 8 ensures ByteBit(r, j) == if j == k then bit else ByteBit(v, j) {
      SetOne(v, k, j);
    }
  }

  /** Bits [at, at + n) of `now` are those from `from` on in src; the others are as before. */
  ghost predicate Copied(now: seq<byte>, before: seq<byte>, at: nat, src: seq<byte>, from: nat, n: nat) {
    && |now| == |before| && at + n <= 8 * |now| && from + n <= 8 * |src|
    && forall q: int {:trigger PixBit(now, q)} ::
         PixBit(now, q) == if at <= q < at + n then PixBit(src, from + (q - at)) else PixBit(before, q)
  }

  method ReadBitFromReversedStream(bitpointer: nat, bitstream: array<byte>) returns (result: bool)
    requires bitpointer < 8 * bitstream.Length
    ensures result == PixBit(bitstream[..], bitpointer)
  {
    result := ByteBit(bitstream[bitpointer / 8], 7 - bitpointer % 8);
  }

  method SetBitOfReversedStream(bitpointer: nat, bitstream: array<byte>, bit: bool)
    requires bitpointer < 8 * bitstream.Length
    modifies bitstream
    ensures forall q: int {:trigger PixBit(bitstream[..], q)} ::
      PixBit(bitstream[..], q) == if q == bitpointer then bit else PixBit(old(bitstream[..]), q)
  {
    bitstream[bitpointer / 8] := WithBit(bitstream[bitpointer / 8], 7 - bitpointer % 8, bit);
  }

  // ---------- copying bits and bytes

  /** The same buffer may be read and written, as long as what is written lies no further than
      what is read. */
  ghost predicate MayOverlap(out: array<byte>, at: nat, src: array<byte>, from: nat) {
    out == src ==> at <= from
  }

  /** Copies n bits, one after the other. */
  method CopyBits(out: array<byte>, at: nat, src: array<byte>, from: nat, n: nat)
    requires at + n <= 8 * out.Length && from + n <= 8 * src.Length && MayOverlap(out, at, src, from)
    modifies out
    ensures Copied(out[..], old(out[..]), at, old(src[..]), from, n)
  {
    hide PixBit;
    ghost var before, source := out[..], src[..];
    var b := 0;
    while b < n
      invariant 0 <= b <= n && Copied(out[..], before, at, source, from, b)
      invariant src != out ==> src[..] == source
    {
      assert PixBit(src[..], from + b) == PixBit(source, from + b);
      var bit := ReadBitFromReversedStream(from + b, src);
      SetBitOfReversedStream(at + b, out, bit);
      b := b + 1;
    }
  }

  /** Copies n bytes; the two buffers are different. */
  method CopyBytes(out: array<byte>, at: nat, src: array<byte>, from: nat, n: nat)
    requires at + n <= out.Length && from + n <= src.Length && out != src
    modifies out
    ensures Copied(out[..], old(out[..]), 8 * at, src[..], 8 * from, 8 * n)
  {
    ghost var before := out[..];
    var b := 0;
    while b < n
      invariant 0 <= b <= n
      invariant forall k :: 0 <= k < out.Length ==>
        out[k] == if at <= k < at + b then src[from + (k - at)] else before[k]
    {
      out[at + b] := src[from + b];
      b := b + 1;
    }
    BytesAreBits(out[..], before, at, src[..], from, n);
  }

  lemma BytesAreBits(now: seq<byte>, before: seq<byte>, at: nat, src: seq<byte>, from: nat, n: nat)
    requires |now| == |before| && at + n <= |now| && from + n <= |src|
    requires forall k :: 0 <= k < |now| ==> now[k] == if at <= k < at + n then src[from + (k - at)] else before[k]
    ensures Copied(now, before, 8 * at, src, 8 * from, 8 * n)
  {
    hide ByteBit;
    forall q: int
      ensures PixBit(now, q) == if 8 * at <= q < 8 * at + 8 * n then PixBit(src, 8 * from + (q - 8 * at))
        else PixBit(before, q)
    {
      var k := q / 8;
      assert 8 * at <= q < 8 * at + 8 * n <==> at <= k < at + n;
      if at <= k < at + n {
        assert (8 * from + (q - 8 * at)) / 8 == from + (k - at);
        assert (8 * from + (q - 8 * at)) % 8 == q % 8;
      }
    }
  }

  // ---------- padding the scanlines

  /** Bit x of row y of rows of `width` bits. */
  function RowBit(start: int, width: nat, y: nat, x: nat): int {
    start + y * width + x
  }

  /** The first y rows of n bits have been moved, from rows of `stride` bits to rows of `to` bits.
      Everything that is not in these rows is as before. */
  ghost predicate Moved(now: seq<byte>, before: seq<byte>, at: nat, to: nat, src: seq<byte>, from: nat, stride: nat,
                        n: nat, y: nat) {
    && |now| == |before|
    && (forall r: nat, x: nat {:trigger RowBit(at, to, r, x)} :: r < y && x < n ==>
          PixBit(now, RowBit(at, to, r, x)) == PixBit(src, RowBit(from, stride, r, x)))
    && (forall q: int {:trigger PixBit(now, q)} :: q < at || q >= RowBit(at, to, y, 0) ==>
      PixBit(now, q) == PixBit(before, q))
  }

  /** Rows do not overlap. */
  lemma RowsApart(at: int, to: nat, r: nat, y: nat, x: nat)
    requires r < y && x < to
    ensures at <= RowBit(at, to, r, x) < RowBit(at, to, r + 1, 0) <= RowBit(at, to, y, 0)
  {
    MulStrict(r, y, to);
    MulNat(r, to);
    assert (r + 1) * to == r * to + to;
  }

  lemma RowStart(at: int, to: nat, y: nat)
    ensures RowBit(at, to, 0, 0) == at && at <= RowBit(at, to, y, 0)
    ensures RowBit(at, to, y + 1, 0) == RowBit(at, to, y, 0) + to
  {
    MulNat(y, to);
    assert (y + 1) * to == y * to + to;
  }

  /** One more row. The source may meanwhile have changed, but only before this row. */
  lemma RowMoved(next: seq<byte>, now: seq<byte>, before: seq<byte>, at: nat, to: nat, cur: seq<byte>, src: seq<byte>,
                 from: nat, stride: nat, n: nat, y: nat)
    requires Moved(now, before, at, to, src, from, stride, n, y) && n <= to
    requires RowBit(at, to, y, 0) >= 0 && RowBit(from, stride, y, 0) >= 0
    requires Copied(next, now, RowBit(at, to, y, 0), cur, RowBit(from, stride, y, 0), n)
    requires forall q: int {:trigger PixBit(cur, q)} :: q >= RowBit(from, stride, y, 0) ==>
      PixBit(cur, q) == PixBit(src, q)
    ensures Moved(next, before, at, to, src, from, stride, n, y + 1)
  {
    hide PixBit;
    RowStart(at, to, y);
    forall r: nat, x: nat | r < y + 1 && x < n
      ensures PixBit(next, RowBit(at, to, r, x)) == PixBit(src, RowBit(from, stride, r, x))
    {
      if r < y {
        RowsApart(at, to, r, y, x);
      } else {
        assert RowBit(at, to, r, x) == RowBit(at, to, y, 0) + x;
        assert RowBit(from, stride, r, x) == RowBit(from, stride, y, 0) + x;
      }
    }
  }

  /** Takes the padding out, in place if so wished. */
  method RemovePaddingBits(out: array<byte>, oo: nat, src: array<byte>, io: nat, olinebits: nat, ilinebits: nat, h: nat)
    requires olinebits <= ilinebits && (out == src ==> oo <= io)
    requires RowBit(8 * oo, olinebits, h, 0) <= 8 * out.Length && RowBit(8 * io, ilinebits, h, 0) <= 8 * src.Length
    modifies out
    ensures Moved(out[..], old(out[..]), 8 * oo, olinebits, old(src[..]), 8 * io, ilinebits, olinebits, h)
  {
    hide PixBit, RowBit, Copied;
    ghost var before, source := out[..], src[..];
    var diff := ilinebits - olinebits;
    var ibp, obp := 8 * io, 8 * oo;
    RowStart(8 * oo, olinebits, 0);
    RowStart(8 * io, ilinebits, 0);
    var y := 0;
    while y < h
      invariant 0 <= y <= h && Moved(out[..], before, 8 * oo, olinebits, source, 8 * io, ilinebits, olinebits, y)
      invariant src != out ==> src[..] == source
      invariant obp == RowBit(8 * oo, olinebits, y, 0) && ibp == RowBit(8 * io, ilinebits, y, 0)
    {
      RowStart(8 * oo, olinebits, y);
      RowStart(8 * io, ilinebits, y);
      RowsWithin(8 * oo, olinebits, y + 1, h);
      RowsWithin(8 * io, ilinebits, y + 1, h);
      NotYetOverwritten(oo, olinebits, io, ilinebits, y, out == src);
      ghost var now, cur := out[..], src[..];
      CopyBits(out, obp, src, ibp, olinebits);
      RowMoved(out[..], now, before, 8 * oo, olinebits, cur, source, 8 * io, ilinebits, olinebits, y);
      obp := obp + olinebits;
      ibp := ibp + olinebits;
      ibp := ibp + diff;
      y := y + 1;
    }
  }

  lemma RowsWithin(at: int, width: nat, y: nat, h: nat)
    requires y <= h
    ensures RowBit(at, width, y, 0) <= RowBit(at, width, h, 0)
  {
    if y < h { MulStrict(y, h, width + 1); MulNat(h - y, width); assert h * width - y * width == (h - y) * width; }
  }

  lemma NotYetOverwritten(oo: nat, olinebits: nat, io: nat, ilinebits: nat, y: nat, same: bool)
    requires olinebits <= ilinebits && (same ==> oo <= io)
    ensures same ==> RowBit(8 * oo, olinebits, y, 0) <= RowBit(8 * io, ilinebits, y, 0)
  {
    MulNat(y, ilinebits - olinebits);
    assert y * ilinebits - y * olinebits == y * (ilinebits - olinebits);
  }

  ghost predicate PaddingZero(d: seq<byte>, at: nat, width: nat, n: nat, y: nat) {
    forall r: nat, x: nat {:trigger RowBit(at, width, r, x)} :: r < y && n <= x < width ==>
      !PixBit(d, RowBit(at, width, r, x))
  }

  /** Fills a row up with zeros. */
  method PadRow(out: array<byte>, at: nat, n: nat)
    requires at + n <= 8 * out.Length
    modifies out
    ensures forall q: int {:trigger PixBit(out[..], q)} ::
      PixBit(out[..], q) == (!(at <= q < at + n) && PixBit(old(out[..]), q))
  {
    hide PixBit;
    ghost var before := out[..];
    var x := 0;
    while x != n
      invariant 0 <= x <= n
      invariant forall q: int {:trigger PixBit(out[..], q)} ::
        PixBit(out[..], q) == (!(at <= q < at + x) && PixBit(before, q))
    {
      SetBitOfReversedStream(at + x, out, false);
      x := x + 1;
    }
  }

  lemma RowPadded(next: seq<byte>, now: seq<byte>, before: seq<byte>, at: nat, to: nat, src: seq<byte>, from: nat,
                  n: nat, y: nat)
    requires n <= to && |next| == |now|
    requires Moved(now, before, at, to, src, from, n, n, y + 1) && PaddingZero(now, at, to, n, y)
    requires forall q: int {:trigger PixBit(next, q)} ::
      PixBit(next, q) == (!(RowBit(at, to, y, n) <= q < RowBit(at, to, y + 1, 0)) && PixBit(now, q))
    ensures Moved(next, before, at, to, src, from, n, n, y + 1) && PaddingZero(next, at, to, n, y + 1)
  {
    hide PixBit;
    RowStart(at, to, y);
    assert RowBit(at, to, y, n) == RowBit(at, to, y, 0) + n;
    forall r: nat, x: nat | r < y + 1 && x < to
      ensures x < n ==> PixBit(next, RowBit(at, to, r, x)) == PixBit(src, RowBit(from, n, r, x))
      ensures x >= n ==> !PixBit(next, RowBit(at, to, r, x))
    {
      assert RowBit(at, to, r, x) == RowBit(at, to, r, 0) + x;
      if r < y { RowsApart(at, to, r, y, x); }
    }
  }

  /** The opposite: rows of whole bytes, filled up with zeros. */
  method AddPaddingBits(out: array<byte>, src: array<byte>, io: nat, olinebits: nat, ilinebits: nat, h: nat)
    requires ilinebits <= olinebits && out != src
    requires RowBit(0, olinebits, h, 0) <= 8 * out.Length && RowBit(8 * io, ilinebits, h, 0) <= 8 * src.Length
    modifies out
    ensures Moved(out[..], old(out[..]), 0, olinebits, src[..], 8 * io, ilinebits, ilinebits, h)
    ensures PaddingZero(out[..], 0, olinebits, ilinebits, h)
  {
    hide PixBit, RowBit, Copied;
    ghost var before, source := out[..], src[..];
    var diff := olinebits - ilinebits;
    var obp, ibp := 0, 8 * io;
    RowStart(0, olinebits, 0);
    RowStart(8 * io, ilinebits, 0);
    var y := 0;
    while y != h
      invariant 0 <= y <= h && Moved(out[..], before, 0, olinebits, source, 8 * io, ilinebits, ilinebits, y)
      invariant PaddingZero(out[..], 0, olinebits, ilinebits, y)
      invariant obp == RowBit(0, olinebits, y, 0) && ibp == RowBit(8 * io, ilinebits, y, 0)
    {
      RowStart(0, olinebits, y);
      RowStart(8 * io, ilinebits, y);
      RowsWithin(0, olinebits, y + 1, h);
      RowsWithin(8 * io, ilinebits, y + 1, h);
      ghost var now := out[..];
      CopyBits(out, obp, src, ibp, ilinebits);
      RowMoved(out[..], now, before, 0, olinebits, source, source, 8 * io, ilinebits, ilinebits, y);
      PaddingKept(out[..], now, olinebits, ilinebits, y, source, ibp);
      ghost var copied := out[..];
      obp := obp + ilinebits;
      ibp := ibp + ilinebits;
      RowPlace(0, olinebits, y, ilinebits);
      PadRow(out, obp, diff);
      RowPadded(out[..], copied, before, 0, olinebits, source, 8 * io, ilinebits, y);
      obp := obp + diff;
      y := y + 1;
    }
  }

  lemma RowPlace(at: int, width: nat, y: nat, x: nat)
    ensures RowBit(at, width, y, x) == RowBit(at, width, y, 0) + x
  {
  }

  lemma PaddingKept(next: seq<byte>, now: seq<byte>, to: nat, n: nat, y: nat, src: seq<byte>, from: nat)
    requires n <= to && RowBit(0, to, y, 0) >= 0 && Copied(next, now, RowBit(0, to, y, 0), src, from, n)
    requires PaddingZero(now, 0, to, n, y)
    ensures PaddingZero(next, 0, to, n, y)
  {
    hide PixBit;
    forall r: nat, x: nat | r < y && n <= x < to ensures !PixBit(next, RowBit(0, to, r, x)) {
      RowsApart(0, to, r, y, x);
    }
  }
}
