/** The bit writer and bit reader of the DEFLATE codec. */
module BitIO {
  import opened Bits

  /** The bit string written so far is kept in `bits`; the bytes that were already in the
      vector when the writer was made are `base`. */
  class BitWriter {
    var data: seq<byte>
    var bp: nat  // an unsigned char in the source: it counts modulo 256
    ghost var base: seq<byte>
    ghost var bits: seq<bool>

    ghost predicate Valid()
      reads this
    {
      && bp == |bits| % 256
      && base <= data
      && |data| == |base| + (|bits| + 7) / 8
      && Packed(data[|base|..], bits)
    }

    constructor (out: seq<byte>)
      ensures Valid() && data == base == out && bits == []
    {
      data, bp, base, bits := out, 0, out, [];
    }

    method WriteBit(bit: nat)
      requires Valid() && bit < 2
      modifies this
      ensures Valid() && base == old(base)
      ensures bits == old(bits) + [bit == 1]
    {
      hide Packed, Or, Shl;
      var k := bp % 8;
      BitCount(|bits|);
      ghost var d := data[|base|..];
      assert data == base + d;
      if k == 0 {
        data := data + [0];
        OpenByte(d, bits);
        d := d + [0];
        assert data[|base|..] == d;
      }
      var last := |data| - 1;
      var w := Or(data[last], Shl(bit, k));
      FillBit(d, bits, k, bit);
      data := data[last := w];
      bp := (bp + 1) % 256;
      bits := bits + [bit == 1];
      assert data[|base|..] == d[|d| - 1 := w];
    }

    method WriteBits(value: nat, nbits: nat)
      requires Valid()
      requires nbits == 1 ==> value < 2  // the one-bit case writes the value unmasked
      modifies this
      ensures Valid() && base == old(base)
      ensures bits == old(bits) + BitsOf(value, nbits)
    {
      if nbits == 1 {
        WriteBit(value);
        assert BitsOf(value, 1) == [value % 2 == 1] + BitsOf(value / 2, 0);
      } else {
        var i := 0;
        while i != nbits
          invariant 0 <= i <= nbits
          invariant Valid() && base == old(base)
          invariant bits == old(bits) + BitsOf(value, nbits)[..i]
        {
          BitsOfAt(value, nbits, i);
          WriteBit(Shr(value, i) % 2);
          i := i + 1;
        }
      }
    }

    method WriteBitsReversed(value: nat, nbits: nat)
      requires Valid()
      modifies this
      ensures Valid() && base == old(base)
      ensures bits == old(bits) + MsbBits(value, nbits)
    {
      var i := 0;
      while i != nbits
        invariant 0 <= i <= nbits
        invariant Valid() && base == old(base)
        invariant bits == old(bits) + MsbBits(value, nbits)[..i]
      {
        MsbBitsAt(value, nbits, i);
        WriteBit(Shr(value, nbits - 1 - i) % 2);
        i := i + 1;
      }
    }
  }

  /** The bytes d hold exactly these bits, and then zeros to the end of the last byte. */
  ghost predicate Packed(d: seq<byte>, bits: seq<bool>) {
    8 * |d| >= |bits| && StreamBits(d) == bits + Zeros(8 * |d| - |bits|)
  }

  lemma BitCount(n: nat)
    ensures (n % 256) % 8 == n % 8 && (n % 256 + 1) % 256 == (n + 1) % 256
    ensures (n + 8) / 8 == (n + 7) / 8 + (if n % 8 == 0 then 1 else 0)
    ensures n == 8 * ((n + 8) / 8 - 1) + n % 8
  {
  }

  lemma OpenByte(d: seq<byte>, bits: seq<bool>)
    requires Packed(d, bits) && |bits| == 8 * |d|
    ensures Packed(d + [0], bits)
  {
    StreamConcat(d, [0]);
    ByteZero();
    assert StreamBits([0]) == ByteBits(0) + StreamBits([]);
    assert Zeros(0) == [];
  }

  lemma FillBit(d: seq<byte>, bits: seq<bool>, k: nat, bit: nat)
    requires Packed(d, bits) && |bits| == 8 * (|d| - 1) + k && k < 8 && bit < 2
    ensures var w := Or(d[|d| - 1], Shl(bit, k)); w < 256 && Packed(d[|d| - 1 := w], bits + [bit == 1])
  {
    hide Or, Shl, ByteBits, StreamBits;
    var pre, v := d[..|d| - 1], d[|d| - 1];
    var w := Or(v, Shl(bit, k));
    LastByte(pre, v);
    assert d == pre + [v];
    var m := 8 * |pre|;
    assert ByteBits(v) == (bits + Zeros(8 - k))[m..] == bits[m..] + Zeros(8 - k);
    SetNextBit(v, k, bit);
    LastByte(pre, w);
    assert d[|d| - 1 := w] == pre + [w];
    assert StreamBits(pre) == bits[..m];
    assert bits == bits[..m] + bits[m..];
  }

  lemma LastByte(pre: seq<byte>, v: byte)
    ensures StreamBits(pre + [v]) == StreamBits(pre) + ByteBits(v)
    ensures StreamBits(pre + [v])[8 * |pre|..] == ByteBits(v)
    ensures StreamBits(pre + [v])[..8 * |pre|] == StreamBits(pre)
  {
    StreamConcat(pre, [v]);
    var a, b := StreamBits(pre), ByteBits(v);
    OneByte(v);
    assert (a + b)[|a|..] == b && (a + b)[..|a|] == a;
  }

  lemma OneByte(v: byte)
    ensures StreamBits([v]) == ByteBits(v)
  {
    assert [v][1..] == [];
  }

  lemma ByteZero()
    ensures ByteBits(0) == Zeros(8)
  {
    ValZeros(8);
    BitsOfVal(Zeros(8));
  }

  /** Or-ing a bit into the first unused place of the last byte appends it to the stream. */
  lemma SetNextBit(v: byte, k: nat, bit: nat)
    requires k < 8 && bit < 2
    requires ByteBits(v)[k..] == Zeros(8 - k)
    ensures Or(v, Shl(bit, k)) < 256
    ensures ByteBits(Or(v, Shl(bit, k))) == ByteBits(v)[..k] + [bit == 1] + Zeros(7 - k)
  {
    var lo := ByteBits(v)[..k];
    var t := [bit == 1] + Zeros(7 - k);
    assert v == Val(lo) by {
      hide *;
      LowBits(v, k);
    }
    OrNext(lo, v, k, bit);
    assert lo + t == ByteBits(v)[..k] + [bit == 1] + Zeros(7 - k);
    hide Val, Or, Shl, Zeros, Pow2;
    ValBound(lo + t);
    BitsOfVal(lo + t);
    Pow2Values();
  }

  lemma LowBits(v: byte, k: nat)
    requires k < 8 && ByteBits(v)[k..] == Zeros(8 - k)
    ensures v as int == Val(ByteBits(v)[..k])
  {
    var lo := ByteBits(v)[..k];
    assert ByteBits(v) == lo + Zeros(8 - k);
    Pow2Values();
    assert v < 256 == Pow2(8) && ByteBits(v) == BitsOf(v, 8);
    hide *;
    ValBitsOf(v, 8);
    ValConcat(lo, Zeros(8 - k));
    ValZeros(8 - k);
  }

  /** One more bit, and zeros after it. */
  lemma OrNext(lo: seq<bool>, v: nat, k: nat, bit: nat)
    requires |lo| == k < 8 && v == Val(lo) && bit < 2
    ensures Or(v, Shl(bit, k)) == Val(lo + ([bit == 1] + Zeros(7 - k)))
  {
    var t := [bit == 1] + Zeros(7 - k);
    assert Val(t) == bit by {
      assert t[1..] == Zeros(7 - k);
      ValZeros(7 - k);
    }
    ValBound(lo);
    hide Val, Zeros, Pow2;
    ValConcat(lo, t);
    OrDisjoint(v, bit, k);
    MulComm(bit, Pow2(k));
  }

  lemma {:induction false} BitsOfAt(x: nat, n: nat, i: nat)
    requires i < n
    ensures BitsOf(x, n)[i] == ((x / Pow2(i)) % 2 == 1)
    decreases i
  {
    if i > 0 {
      BitsOfAt(x / 2, n - 1, i - 1);
      DivDiv(x, Pow2(i - 1));
    }
  }

  lemma {:induction false} MsbBitsAt(x: nat, n: nat, i: nat)
    requires i < n
    ensures MsbBits(x, n)[i] == ((x / Pow2(n - 1 - i)) % 2 == 1)
    decreases n
  {
    if i < n - 1 {
      MsbBitsAt(x / 2, n - 1, i);
      DivDiv(x, Pow2(n - 2 - i));
    }
  }

  // ---------- reading

  /** `buffer` holds the next bits of the stream, least significant first; `avail` says how many
      of them can be relied on. Past the end of the data the stream reads as zeros. */
  class BitReader {
    const data: seq<byte>
    const size: nat
    const bitsize: nat
    var bp: nat
    var buffer: nat
    ghost var avail: nat

    /** What is left of the stream. */
    ghost function Rest(): seq<bool>
      reads this
    {
      RestOf(data, bp)
    }

    /** The next n bits, zero-extended past the end. */
    ghost function Next(n: nat): (s: seq<bool>)
      reads this
    {
      ZTake(Rest(), n)
    }

    ghost predicate Valid()
      reads this
    {
      && size == |data| && bitsize == 8 * size
      && buffer < Pow2(32)
      && Low(buffer, avail) == Val(Next(avail))
    }

    constructor (d: seq<byte>)
      ensures Valid() && data == d && bp == 0 && avail == 0
    {
      data, size, bitsize, bp, buffer, avail := d, |d|, 8 * |d|, 0, 0, 0;
      new;
      assert Pow2(0) == 1;
    }

    /** The two-byte refill. */
    method EnsureBits9()
      requires Valid()
      modifies this`buffer, this`avail
      ensures Valid() && avail == 9
    {
      var start, k := bp / 8, bp % 8;
      if start + 1 < size {
        buffer := (data[start] as int) + (data[start + 1] as int) * 0x100;
      } else {
        buffer := At(data, start);
      }
      WindowBytes(data, start);
      assert buffer == Window(data, start, 2);
      hide Window, At, Shr, Low, RestOf, ZTake, Val, Pow2;
      Refill(data, bp, 2, 9, buffer);
      buffer := Shr(buffer, k);
      avail := 9;
    }

    method EnsureBits17()
      requires Valid()
      modifies this`buffer, this`avail
      ensures Valid() && avail == 17
    {
      var start, k := bp / 8, bp % 8;
      if start + 2 < size {
        buffer := (data[start] as int) + (data[start + 1] as int) * 0x100 + (data[start + 2] as int) * 0x1_0000;
      } else {
        buffer := At(data, start) + At(data, start + 1) * 0x100;
      }
      WindowBytes(data, start);
      assert buffer == Window(data, start, 3);
      hide Window, At, Shr, Low, RestOf, ZTake, Val, Pow2;
      Refill(data, bp, 3, 17, buffer);
      buffer := Shr(buffer, k);
      avail := 17;
    }

    method EnsureBits25()
      requires Valid()
      modifies this`buffer, this`avail
      ensures Valid() && avail == 25
    {
      var start, k := bp / 8, bp % 8;
      if start + 3 < size {
        buffer := (data[start] as int) + (data[start + 1] as int) * 0x100 + (data[start + 2] as int) * 0x1_0000
                  + (data[start + 3] as int) * 0x100_0000;
      } else {
        buffer := At(data, start) + At(data, start + 1) * 0x100 + At(data, start + 2) * 0x1_0000;
      }
      WindowBytes(data, start);
      assert buffer == Window(data, start, 4);
      hide Window, At, Shr, Low, RestOf, ZTake, Val, Pow2;
      Refill(data, bp, 4, 25, buffer);
      buffer := Shr(buffer, k);
      avail := 25;
    }

    /** The five-byte refill: the fifth byte is shifted into the place the low bits left, and
        what does not fit in 32 bits is cut off. */
    method EnsureBits32()
      requires Valid()
      modifies this`buffer, this`avail
      ensures Valid() && avail == 32
    {
      hide RestOf, Val, ZTake, Or, Pow2, Window;
      var start, k := bp / 8, bp % 8;
      if start + 4 < size {
        var low := (data[start] as int) + (data[start + 1] as int) * 0x100 + (data[start + 2] as int) * 0x1_0000
                   + (data[start + 3] as int) * 0x100_0000;
        buffer := Shr(low, k);
        buffer := Or(buffer, Shl((data[start + 4] as int) * 0x100_0000, 8 - k) % 0x1_0000_0000);
        WindowBytes(data, start);
        FifthByte(data, bp, low);
      } else {
        buffer := At(data, start) + At(data, start + 1) * 0x100 + At(data, start + 2) * 0x1_0000
          + At(data, start + 3) * 0x100_0000;
        WindowBytes(data, start);
        NoFifthByte(data, bp, buffer);
        buffer := Shr(buffer, k);
      }
      avail := 32;
      ValBound(Next(32));
      ModSmall(buffer, Pow2(32));
    }

    function PeekBits(n: nat): (v: nat)
      requires Valid() && n <= avail
      reads this
      ensures v == Val(Next(n))
    {
      Shortened(Rest(), avail, n, buffer);
      Low(buffer, n)
    }

    method AdvanceBits(n: nat)
      requires Valid() && n <= avail
      modifies this`bp, this`buffer, this`avail
      ensures Valid() && bp == old(bp) + n && avail == old(avail) - n
    {
      Advanced(data, bp, avail, n, buffer);
      buffer := Shr(buffer, n);
      bp := bp + n;
      avail := avail - n;
    }

    method ReadBits(n: nat) returns (v: nat)
      requires Valid() && n <= avail
      modifies this`bp, this`buffer, this`avail
      ensures Valid() && bp == old(bp) + n && avail == old(avail) - n
      ensures v == Val(old(Next(n)))
    {
      v := PeekBits(n);
      AdvanceBits(n);
    }
  }

  // ---------- refilling the buffer

  ghost function RestOf(d: seq<byte>, bp: nat): seq<bool> {
    if bp <= 8 * |d| then StreamBits(d)[bp..] else []
  }

  /** n bytes from position start as one little-endian number, zeros past the end. */
  ghost function Window(d: seq<byte>, start: nat, n: nat): nat
    decreases n
  {
    if n == 0 then 0 else (if start < |d| then d[start] else 0) + 0x100 * Window(d, start + 1, n - 1)
  }

  function At(d: seq<byte>, i: nat): byte {
    if i < |d| then d[i] else 0
  }

  lemma WindowBytes(d: seq<byte>, i: nat)
    ensures Window(d, i, 2) == At(d, i) + At(d, i + 1) * 0x100
    ensures Window(d, i, 3) == At(d, i) + At(d, i + 1) * 0x100 + At(d, i + 2) * 0x1_0000
    ensures Window(d, i, 4)
         == At(d, i) + At(d, i + 1) * 0x100 + At(d, i + 2) * 0x1_0000 + At(d, i + 3) * 0x100_0000
  {
    var w1 := Window(d, i + 3, 1);
    assert w1 == At(d, i + 3) + 0x100 * Window(d, i + 4, 0);
    assert Window(d, i + 2, 2) == At(d, i + 2) + 0x100 * w1;
    assert Window(d, i + 1, 3) == At(d, i + 1) + 0x100 * Window(d, i + 2, 2);
    assert Window(d, i + 2, 1) == At(d, i + 2) + 0x100 * Window(d, i + 3, 0);
    assert Window(d, i + 1, 2) == At(d, i + 1) + 0x100 * Window(d, i + 2, 1);
    assert Window(d, i + 1, 1) == At(d, i + 1) + 0x100 * Window(d, i + 2, 0);
  }

  /** Shifting a little-endian number of n bytes to the current bit leaves m good bits. */
  lemma Refill(d: seq<byte>, bp: nat, n: nat, m: nat, b: nat)
    requires 0 < n <= 4 && m <= 8 * n - 7 && b == Window(d, bp / 8, n)
    ensures var c := Shr(b, bp % 8); c < Pow2(32) && Low(c, m) == Val(ZTake(RestOf(d, bp), m))
  {
    Refilled(d, bp, n, b);
    Shortened(RestOf(d, bp), 8 * n - bp % 8, m, Shr(b, bp % 8));
    Pow2Mono(8 * n, 32);
  }

  lemma NextByte(d: seq<byte>, start: nat)
    requires start < |d|
    ensures RestOf(d, 8 * start) == ByteBits(d[start]) + RestOf(d, 8 * (start + 1))
  {
    StreamDrop(d, start);
    StreamDrop(d, start + 1);
    assert d[start..][1..] == d[start + 1..];
  }

  lemma {:induction false} WindowVal(d: seq<byte>, start: nat, n: nat)
    ensures Window(d, start, n) == Val(ZTake(RestOf(d, 8 * start), 8 * n))
    decreases n
  {
    if n > 0 {
      WindowVal(d, start + 1, n - 1);
      WindowBits(d, start, n);
      hide RestOf, ZTake, BitsOf, ByteBits, StreamBits, Pow2, Val;
      ByteThen(At(d, start), ZTake(RestOf(d, 8 * (start + 1)), 8 * (n - 1)));
    }
  }

  lemma ByteThen(v: byte, t: seq<bool>)
    ensures Val(ByteBits(v) + t) == v as int + 0x100 * Val(t)
  {
    Pow2Values();
    hide BitsOf, Pow2, Val;
    ValConcat(ByteBits(v), t);
    ValBitsOf(v, 8);
  }

  /** The first byte of a window, and the window after it. */
  lemma WindowBits(d: seq<byte>, start: nat, n: nat)
    requires n > 0
    ensures ZTake(RestOf(d, 8 * start), 8 * n) == ByteBits(At(d, start))
      + ZTake(RestOf(d, 8 * (start + 1)), 8 * (n - 1))
  {
    if start < |d| {
      NextByte(d, start);
      assert |RestOf(d, 8 * start)| >= 8;
      hide RestOf, ByteBits, StreamBits;
    } else {
      ByteZero();
    }
  }

  lemma Refilled(d: seq<byte>, bp: nat, n: nat, b: nat)
    requires n > 0 && b == Window(d, bp / 8, n)
    ensures b < Pow2(8 * n)
    ensures Shr(b, bp % 8) <= b
    ensures var k := bp % 8; Low(Shr(b, k), 8 * n - k) == Shr(b, k) == Val(ZTake(RestOf(d, bp), 8 * n - k))
  {
    var k := bp % 8;
    var w := ZTake(RestOf(d, 8 * (bp / 8)), 8 * n);
    WindowVal(d, bp / 8, n);
    ValBound(w);
    ValSplit(w, k);
    DropBits(d, bp, n);
    hide ZTake, RestOf, Window, Val;
    ValBound(w[k..]);
    DivModUnique(Val(w[k..]), Pow2(8 * n - k), 0, Val(w[k..]));
    DivLe(b, Pow2(k));
  }

  lemma Shortened(r: seq<bool>, n: nat, m: nat, b: nat)
    requires m <= n && Low(b, n) == Val(ZTake(r, n))
    ensures Low(b, m) == Val(ZTake(r, m))
  {
    ValSplit(ZTake(r, n), m);
    assert ZTake(r, n)[..m] == ZTake(r, m);
    Pow2Add(m, n - m);
    DivModProduct(b, Pow2(m), Pow2(n - m));
  }

  lemma Advanced(d: seq<byte>, bp: nat, n: nat, m: nat, b: nat)
    requires m <= n && Low(b, n) == Val(ZTake(RestOf(d, bp), n))
    ensures Low(Shr(b, m), n - m) == Val(ZTake(RestOf(d, bp + m), n - m))
    ensures Shr(b, m) <= b
  {
    ValSplit(ZTake(RestOf(d, bp), n), m);
    assert ZTake(RestOf(d, bp), n)[m..] == ZTake(RestOf(d, bp + m), n - m);
    Pow2Add(m, n - m);
    DivModProduct(b, Pow2(m), Pow2(n - m));
    DivLe(b, Pow2(m));
  }

  lemma FifthByte(d: seq<byte>, bp: nat, low: nat)
    requires bp / 8 + 4 < |d| && low == Window(d, bp / 8, 4)
    ensures var k, fifth := bp % 8, d[bp / 8 + 4] as int;
      Or(Shr(low, k), Shl(fifth * 0x100_0000, 8 - k) % 0x1_0000_0000) == Val(ZTake(RestOf(d, bp), 32))
  {
    var k, fifth := bp % 8, d[bp / 8 + 4];
    var p, q := Pow2(32 - k), fifth % Pow2(k);
    Refilled(d, bp, 4, low);
    FifthValue(d, bp);
    Pow2Values();
    Pow2Add(24, 8 - k);
    Pow2Add(32 - k, k);
    MulAssoc3(fifth, Pow2(24), Pow2(8 - k));
    ModScale(fifth, p, Pow2(k));
    ValBound(ZTake(RestOf(d, bp), 32 - k));
    OrDisjoint(Shr(low, k), q, 32 - k);
  }

  lemma FifthValue(d: seq<byte>, bp: nat)
    requires bp / 8 + 4 < |d|
    ensures var k := bp % 8;
      Val(ZTake(RestOf(d, bp), 32)) == Val(ZTake(RestOf(d, bp), 32 - k)) + (d[bp / 8 + 4] % Pow2(k)) * Pow2(32 - k)
  {
    var k, fifth := bp % 8, d[bp / 8 + 4];
    var b, r := ByteBits(fifth), RestOf(d, bp);
    assert ZTake(r, 32) == ZTake(r, 32 - k) + b[..k] by {
      StreamDrop(d, bp / 8 + 4);
      assert r[32 - k..] == StreamBits(d[bp / 8 + 4..]);
      assert r[32 - k..][..8] == b;
    }
    ValConcat(ZTake(r, 32 - k), b[..k]);
    assert Val(b) == fifth by { assert Pow2(8) == 256; ValBitsOf(fifth, 8); }
    ValSplit(b, k);
    MulComm(Pow2(32 - k), fifth % Pow2(k));
  }

  lemma Pow2Values()
    ensures Pow2(7) == 128 && Pow2(8) == 256 && Pow2(9) == 512 && Pow2(15) == 0x8000 && Pow2(16) == 0x1_0000
    ensures Pow2(24) == 0x100_0000 && Pow2(32) == 0x1_0000_0000
  {
    assert Pow2(8) == 256;
    Pow2Add(8, 8);
    Pow2Add(8, 16);
    Pow2Add(16, 16);
    assert Pow2(16) == 2 * Pow2(15);
    assert Pow2(9) == 2 * Pow2(8) == 4 * Pow2(7);
  }

  lemma DropBits(d: seq<byte>, bp: nat, n: nat)
    requires n > 0
    ensures ZTake(RestOf(d, 8 * (bp / 8)), 8 * n)[bp % 8..] == ZTake(RestOf(d, bp), 8 * n - bp % 8)
  {
  }

  lemma NoFifthByte(d: seq<byte>, bp: nat, b: nat)
    requires bp / 8 + 4 >= |d| && b == Window(d, bp / 8, 4)
    ensures Shr(b, bp % 8) == Val(ZTake(RestOf(d, bp), 32))
  {
    var k := bp % 8;
    Refilled(d, bp, 4, b);
    hide Window, Shr, Low, Val, Pow2;
    var w := ZTake(RestOf(d, bp), 32 - k);
    assert ZTake(RestOf(d, bp), 32) == w + Zeros(k);
    ValConcat(w, Zeros(k));
    ValZeros(k);
  }
}
