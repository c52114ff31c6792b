/** Bit strings and the numbers they stand for.

    A stream of bits is a `seq<bool>` in the order in which DEFLATE stores it. `Val` reads a
    string with the least significant bit first (the order of extra bits and of table indices);
    `MsbVal` reads it with the most significant bit first (the order of Huffman codes). */
module Bits {

  type byte = b: int | 0 <= b < 256

  /** An int of the source. */
  type int32 = x: int | -0x8000_0000 <= x < 0x8000_0000

  function Pow2(n: nat): (p: nat)
    ensures p >= 1
  {
    if n == 0 then 1 else 2 * Pow2(n - 1)
  }

  function Bit(b: bool): nat { if b then 1 else 0 }

  function Val(s: seq<bool>): nat {
    if s == [] then 0 else Bit(s[0]) + 2 * Val(s[1..])
  }

  function MsbVal(s: seq<bool>): nat {
    if s == [] then 0 else 2 * MsbVal(s[..|s| - 1]) + Bit(s[|s| - 1])
  }

  /** The n low bits of x, least significant first. */
  function BitsOf(x: nat, n: nat): (s: seq<bool>)
    ensures |s| == n
  {
    if n == 0 then [] else [x % 2 == 1] + BitsOf(x / 2, n - 1)
  }

  /** The n low bits of x, most significant first. */
  function MsbBits(x: nat, n: nat): (s: seq<bool>)
    ensures |s| == n
  {
    if n == 0 then [] else MsbBits(x / 2, n - 1) + [x % 2 == 1]
  }

  function Zeros(n: nat): (s: seq<bool>)
    ensures |s| == n
  {
    seq(n, _ => false)
  }

  /** The first n bits of s, with zeros past its end. */
  function ZTake(s: seq<bool>, n: nat): (t: seq<bool>)
    ensures |t| == n
    ensures forall i :: 0 <= i < n ==> t[i] == (i < |s| && s[i])
  {
    seq(n, i requires 0 <= i < n => i < |s| && s[i])
  }

  function ByteBits(b: byte): (s: seq<bool>)
    ensures |s| == 8
  {
    BitsOf(b, 8)
  }

  /** All bits of a byte string, in stream order. */
  function StreamBits(d: seq<byte>): (s: seq<bool>)
    ensures |s| == 8 * |d|
  {
    if d == [] then [] else ByteBits(d[0]) + StreamBits(d[1..])
  }

  // ---------- powers of two

  lemma {:induction false} Pow2Add(a: nat, b: nat)
    ensures Pow2(a + b) == Pow2(a) * Pow2(b)
    decreases a
  {
    if a > 0 {
      Pow2Add(a - 1, b);
      assert Pow2(a + b) == 2 * Pow2(a + b - 1) && Pow2(a) == 2 * Pow2(a - 1);
      hide Pow2;
      MulAssoc(Pow2(a - 1), Pow2(b));
    }
  }

  lemma {:induction false} Pow2Mono(a: nat, b: nat)
    requires a <= b
    ensures Pow2(a) <= Pow2(b)
  {
    if a < b { Pow2Mono(a, b - 1); }
  }

  lemma MulPos(a: nat, p: nat)
    requires a >= 1
    ensures a * p >= p
  {
    assert a * p == (a - 1) * p + p;
  }

  lemma MulComm(a: int, b: int)
    ensures a * b == b * a
  {
  }

  lemma MulAssoc(p: nat, v: nat)
    ensures 2 * (p * v) == (2 * p) * v
  {
  }

  lemma DivModUnique(x: nat, p: nat, q: nat, r: nat)
    requires r < p && x == q * p + r
    ensures x / p == q && x % p == r
  {
    var q', r' := x / p, x % p;
    assert x == p * q' + r' && p * q' == q' * p;
    if q' < q {
      MulStrict(q', q, p);
    } else if q < q' {
      MulStrict(q, q', p);
    }
  }

  /** Remainders and quotients by p*q, taken in two steps. */
  lemma DivModProduct(x: nat, p: nat, q: nat)
    requires p > 0 && q > 0
    ensures p * q > 0
    ensures (x % (p * q)) % p == x % p
    ensures (x % (p * q)) / p == (x / p) % q
  {
    var y, r := x / p, x % p;
    var z, t := y / q, y % q;
    MulPos(p, q);
    Regrouped(x, p, q, y, r, z, t);
    DivModUnique(x, p * q, z, t * p + r);
    DivModUnique(t * p + r, p, t, r);
  }

  /** Two divisions in a row, as one. */
  lemma Regrouped(x: nat, p: nat, q: nat, y: nat, r: nat, z: nat, t: nat)
    requires x == p * y + r && y == q * z + t && r < p && t < q
    ensures x == z * (p * q) + (t * p + r) && t * p + r < p * q
  {
    MulThree(p, q, z);
    MulDist(p, q * z, t);
    MulStrict(t, q, p);
  }

  lemma MulDist(a: int, b: int, c: int)
    ensures a * (b + c) == a * b + a * c
  {
  }

  lemma MulThree(a: int, b: int, c: int)
    ensures a * (b * c) == c * (a * b)
  {
  }

  lemma ModScale(d: nat, p: nat, q: nat)
    requires p > 0 && q > 0
    ensures p * q > 0 && (d * p) % (p * q) == (d % q) * p
  {
    var z, t := d / q, d % q;
    MulPos(p, q);
    assert d * p == z * (p * q) + t * p by {
      assert d == q * z + t;
      MulDist(p, q * z, t);
      MulThree(p, q, z);
    }
    assert t * p < p * q by { MulStrict(t, q, p); }
    DivModUnique(d * p, p * q, z, t * p);
  }

  lemma DivLe(b: nat, p: nat)
    requires p > 0
    ensures 0 <= b / p <= b
  {
    var q := b / p;
    assert b == p * q + b % p;
    if q > 0 { MulPos(p, q); }
  }

  /** The shift and mask operators of the source on unsigned numbers. */
  function Shr(x: nat, k: nat): (r: nat)
    ensures r <= x
  {
    DivLe(x, Pow2(k));
    x / Pow2(k)
  }

  function Shl(x: nat, k: nat): nat {
    MulNat(x, Pow2(k));
    x * Pow2(k)
  }

  lemma MulNat(a: nat, b: nat)
    ensures 0 <= a * b
  {
  }

  /** The product, as a name that proofs can keep closed. */
  function Mul(a: nat, b: nat): nat {
    MulNat(a, b);
    a * b
  }

  function Low(x: nat, k: nat): (r: nat)
    ensures r < Pow2(k)
  {
    x % Pow2(k)
  }

  // ---------- values of bit strings

  lemma {:induction false} ValBound(s: seq<bool>)
    ensures Val(s) < Pow2(|s|)
  {
    if s != [] { ValBound(s[1..]); }
  }

  lemma {:induction false} ValConcat(a: seq<bool>, b: seq<bool>)
    ensures Val(a + b) == Val(a) + Pow2(|a|) * Val(b)
  {
    if a == [] {
      assert a + b == b;
    } else {
      assert (a + b)[1..] == a[1..] + b;
      ValConcat(a[1..], b);
      assert Val(a + b) == Bit(a[0]) + 2 * Val(a[1..] + b) && Val(a) == Bit(a[0]) + 2 * Val(a[1..]);
      assert Pow2(|a|) == 2 * Pow2(|a| - 1);
      hide *;
      MulAssoc(Pow2(|a| - 1), Val(b));
    }
  }

  /** Taking and dropping k bits are remainder and quotient by 2^k. */
  lemma ValSplit(s: seq<bool>, k: nat)
    requires k <= |s|
    ensures Val(s[..k]) == Val(s) % Pow2(k)
    ensures Val(s[k..]) == Val(s) / Pow2(k)
  {
    var a, b := s[..k], s[k..];
    ValBound(a);
    assert Val(s) == Val(b) * Pow2(k) + Val(a) by {
      ValConcat(a, b);
      assert a + b == s;
      MulComm(Pow2(k), Val(b));
    }
    DivModUnique(Val(s), Pow2(k), Val(b), Val(a));
  }

  lemma {:induction false} ValZeros(n: nat)
    ensures Val(Zeros(n)) == 0
  {
    if n > 0 {
      assert Zeros(n)[1..] == Zeros(n - 1);
      ValZeros(n - 1);
    }
  }

  lemma {:induction false} BitsOfVal(s: seq<bool>)
    ensures BitsOf(Val(s), |s|) == s
  {
    if s != [] {
      BitsOfVal(s[1..]);
      assert s == [s[0]] + s[1..];
    }
  }

  lemma {:induction false} ValBitsOf(x: nat, n: nat)
    requires x < Pow2(n)
    ensures Val(BitsOf(x, n)) == x
  {
    if n > 0 {
      ValBitsOf(x / 2, n - 1);
      assert BitsOf(x, n)[1..] == BitsOf(x / 2, n - 1);
    }
  }

  lemma ValInjective(a: seq<bool>, b: seq<bool>)
    requires |a| == |b| && Val(a) == Val(b)
    ensures a == b
  {
    BitsOfVal(a);
    BitsOfVal(b);
  }

  lemma {:induction false} MsbBound(s: seq<bool>)
    ensures MsbVal(s) < Pow2(|s|)
  {
    if s != [] { MsbBound(s[..|s| - 1]); }
  }

  lemma {:induction false} MsbBitsVal(s: seq<bool>)
    ensures MsbBits(MsbVal(s), |s|) == s
  {
    if s != [] {
      var t, b := s[..|s| - 1], s[|s| - 1];
      MsbBitsVal(t);
      assert MsbVal(s) == 2 * MsbVal(t) + Bit(b);
      assert MsbVal(s) / 2 == MsbVal(t);
      assert s == t + [b];
    }
  }

  lemma {:induction false} MsbValBits(x: nat, n: nat)
    requires x < Pow2(n)
    ensures MsbVal(MsbBits(x, n)) == x
  {
    if n > 0 {
      MsbValBits(x / 2, n - 1);
      assert MsbBits(x, n) == MsbBits(x / 2, n - 1) + [x % 2 == 1];
      hide MsbBits, Pow2;
      assert (MsbBits(x / 2, n - 1) + [x % 2 == 1])[..n - 1] == MsbBits(x / 2, n - 1);
    }
  }

  /** Dropping the k low bits of a number drops the last k bits of its MSB-first string. */
  lemma {:induction false} MsbBitsTake(x: nat, n: nat, k: nat)
    requires k <= n
    ensures MsbBits(x, n)[..n - k] == MsbBits(Shr(x, k), n - k)
    decreases k
  {
    if k > 0 {
      MsbBitsTake(x / 2, n - 1, k - 1);
      assert MsbBits(x, n)[..n - k] == MsbBits(x / 2, n - 1)[..n - k];
      assert Pow2(k) == 2 * Pow2(k - 1);
      DivDiv(x, Pow2(k - 1));
      assert Shr(x, k) == Shr(x / 2, k - 1);
      hide *;
    }
  }

  lemma DivDiv(x: nat, p: nat)
    requires p > 0
    ensures x / (2 * p) == (x / 2) / p
  {
    var y, b := x / 2, x % 2;
    var q, r := y / p, y % p;
    assert x == q * (2 * p) + (2 * r + b);
    DivModUnique(x, 2 * p, q, 2 * r + b);
  }

  // ---------- byte streams

  lemma {:induction false} StreamDrop(d: seq<byte>, i: nat)
    requires i <= |d|
    ensures StreamBits(d)[8 * i..] == StreamBits(d[i..])
    decreases i
  {
    if i > 0 {
      StreamDrop(d[1..], i - 1);
      assert StreamBits(d)[8 * i..] == StreamBits(d[1..])[8 * (i - 1)..];
      assert d[1..][i - 1..] == d[i..];
    } else {
      assert d[0..] == d;
    }
  }

  lemma {:induction false} StreamConcat(a: seq<byte>, b: seq<byte>)
    ensures StreamBits(a + b) == StreamBits(a) + StreamBits(b)
  {
    if a == [] {
      assert a + b == b;
    } else {
      assert (a + b)[1..] == a[1..] + b;
      StreamConcat(a[1..], b);
    }
  }

  // ---------- bitwise operations on unbounded unsigned numbers

  function Or(x: nat, y: nat): nat {
    if x == 0 then y else if y == 0 then x
    else 2 * Or(x / 2, y / 2) + (if x % 2 == 1 || y % 2 == 1 then 1 else 0)
  }

  function Xor(x: nat, y: nat): nat
    decreases x + y
  {
    if x == 0 then y else if y == 0 then x
    else 2 * Xor(x / 2, y / 2) + (if x % 2 != y % 2 then 1 else 0)
  }

  /** Or of numbers with no bit in common is their sum. */
  lemma {:induction false} OrDisjoint(lo: nat, hi: nat, k: nat)
    requires lo < Pow2(k)
    ensures Or(lo, Shl(hi, k)) == lo + Shl(hi, k)
    decreases k
  {
    var y := Shl(hi, k);
    if k > 0 && lo != 0 && y != 0 {
      var h := Shl(hi, k - 1);
      assert y == 2 * h by { assert hi * (2 * Pow2(k - 1)) == 2 * (hi * Pow2(k - 1)); }
      OrDisjoint(lo / 2, hi, k - 1);
      assert y / 2 == h && y % 2 == 0;
    }
  }

  function And(x: nat, y: nat): (r: nat)
    decreases x
  {
    if x == 0 || y == 0 then 0
    else 2 * And(x / 2, y / 2) + (if x % 2 == 1 && y % 2 == 1 then 1 else 0)
  }

  lemma {:induction false} AndSelf(x: nat)
    ensures And(x, x) == x
    decreases x
  {
    if x > 0 { AndSelf(x / 2); }
  }

  /** The usual test for powers of two. */
  lemma {:induction false} PowerOfTwo(w: nat) returns (k: nat)
    requires w > 0 && And(w, w - 1) == 0
    ensures w == Pow2(k)
    decreases w
  {
    if w == 1 {
      k := 0;
    } else if w % 2 == 1 {
      AndSelf(w / 2);
    } else {
      assert (w - 1) / 2 == w / 2 - 1;
      k := PowerOfTwo(w / 2);
      k := k + 1;
    }
  }

  /** Masking with a power of two less one is the remainder. */
  lemma {:induction false} AndMask(x: nat, k: nat)
    ensures And(x, Pow2(k) - 1) == x % Pow2(k)
    decreases k
  {
    if k > 0 {
      AndMask(x / 2, k - 1);
      ModTwice(x, Pow2(k - 1));
      assert (Pow2(k) - 1) / 2 == Pow2(k - 1) - 1;
    }
  }

  lemma ModTwice(x: nat, p: nat)
    requires p > 0
    ensures x % (2 * p) == 2 * ((x / 2) % p) + x % 2
  {
    var y, b := x / 2, x % 2;
    var q, r := y / p, y % p;
    assert x == q * (2 * p) + (2 * r + b);
    DivModUnique(x, 2 * p, q, 2 * r + b);
  }

  // ---------- products

  lemma MulStrict(a: int, b: int, p: nat)
    requires a < b
    ensures a * p + p <= b * p
  {
    assert b * p - a * p == (b - a) * p;
    MulPos(b - a, p);
  }

  lemma MulLe(a: int, b: int, k: nat, m: nat)
    requires 0 <= a <= b && k <= m
    ensures 0 <= a * k <= b * m
  {
    assert b * m == a * m + (b - a) * m;
    assert a * m == a * k + a * (m - k);
    MulNat(a, k);
    MulNat(b - a, m);
    MulNat(a, m - k);
  }

  lemma MulAssoc3(a: int, b: int, c: int)
    ensures (a * b) * c == a * (b * c)
  {
  }

  lemma MulStep(a: int, p: int)
    ensures (a + 1) * p == a * p + p
  {
  }

  lemma MulTwo(x: int, p: int)
    ensures x * (2 * p) == 2 * (x * p)
  {
  }

  lemma MulRight(a: int, b: int, c: int)
    ensures (a + b) * c == a * c + b * c
  {
  }

  lemma MulZero(n: nat)
    ensures Mul(0, n) == 0
  {
  }

  lemma MulNext(y: nat, n: nat)
    requires y > 0
    ensures Mul(y, n) == Mul(y - 1, n) + n
  {
  }

  lemma MulMore(h: nat, n: nat)
    ensures Mul(h, n) <= Mul(h, 1 + n)
  {
    assert h * (1 + n) == h * n + h;
  }

  lemma MulAtLeast(h: nat, n: nat)
    ensures h > 0 ==> n <= Mul(h, n)
  {
    if h > 0 { MulPos(h, n); }
  }

  lemma MulSame(h: nat, a: nat, b: nat)
    requires h > 0 && a <= b
    ensures Mul(h, a) == Mul(h, b) ==> a == b
  {
    if a < b {
      assert h * b == h * a + h * (b - a);
      MulPos(b - a, h);
    }
  }

  // ---------- quotients and remainders

  lemma ModSmall(x: nat, p: nat)
    requires x < p
    ensures x % p == x
  {
  }

  lemma DivMono(a: nat, b: nat, p: nat)
    requires a <= b && p > 0
    ensures a / p <= b / p
  {
    assert b == p * (b / p) + b % p;
    if b / p < a / p {
      assert a == p * (a / p) + a % p;
      MulStrict(b / p, a / p, p);
    }
  }

  lemma Pow2Next(n: nat)
    ensures Pow2(n + 1) == 2 * Pow2(n)
  {
  }

  // ---------- sequences

  lemma Regroup<T>(x: seq<T>, y: seq<T>, z: seq<T>)
    ensures (x + y) + z == x + (y + z)
  {
  }

  lemma PrefixSlice<T>(s: seq<T>, n: nat, p: nat, q: nat)
    requires p <= q <= n <= |s|
    ensures s[..n][p..q] == s[p..q]
  {
  }

  lemma SliceOf<T>(d: seq<T>, lo: nat, hi: nat, a: nat, b: nat)
    requires lo <= hi <= |d| && a <= b <= hi - lo
    ensures d[lo..hi][a..b] == d[lo + a..lo + b]
  {
    var s, t := d[lo..hi][a..b], d[lo + a..lo + b];
    assert |s| == |t|;
    forall k | 0 <= k < |s| ensures s[k] == t[k] {
      assert d[lo..hi][a + k] == d[lo + (a + k)];
    }
  }

  /** A number of two bytes, the low one first. */
  function Word(d: seq<byte>, k: nat): (w: nat)
    requires k + 2 <= |d|
    ensures w < 0x1_0000
  {
    (d[k] as int) + 256 * (d[k + 1] as int)
  }
}
