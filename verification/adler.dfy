/** Adler-32 (section 2.2 of RFC 1950), with the remainders put off. */
module Adler {
  import opened Bits
  import opened BitIO

  const BASE: nat := 65521
  const RUN: nat := 5552

  /** The two sums after one more byte, each taken modulo 65521 at once. */
  function Sums(s: (nat, nat), data: seq<byte>): (nat, nat)
    decreases |data|
  {
    if data == [] then s
    else
      var before := Sums(s, data[..|data| - 1]);
      var s1 := (before.0 + data[|data| - 1]) % BASE;
      (s1, (before.1 + s1) % BASE)
  }

  /** The two halves of a checksum. */
  function Halves(adler: nat): (nat, nat) {
    (adler % 0x1_0000, (adler / 0x1_0000) % 0x1_0000)
  }

  function Join(s: (nat, nat)): nat {
    s.1 * 0x1_0000 + s.0
  }

  lemma {:induction false} SumsBound(s: (nat, nat), data: seq<byte>)
    requires s.0 < 0x1_0000 && s.1 < 0x1_0000
    ensures Sums(s, data).0 < 0x1_0000 && Sums(s, data).1 < 0x1_0000
    ensures data != [] ==> Sums(s, data).0 < BASE && Sums(s, data).1 < BASE
  {
  }

  lemma JoinHalves(s: (nat, nat))
    requires s.0 < 0x1_0000 && s.1 < 0x1_0000
    ensures Halves(Join(s)) == s
  {
  }

  /** Checksums of consecutive parts can be chained. */
  lemma {:induction false} SumsConcat(s: (nat, nat), a: seq<byte>, b: seq<byte>)
    ensures Sums(s, a + b) == Sums(Sums(s, a), b)
    decreases |b|
  {
    if b == [] {
      assert a + b == a;
    } else {
      SumsConcat(s, a, b[..|b| - 1]);
      assert (a + b)[..|a + b| - 1] == a + b[..|b| - 1];
    }
  }

  function Update(adler: nat, data: seq<byte>): nat {
    Join(Sums(Halves(adler), data))
  }

  lemma UpdateChains(adler: nat, a: seq<byte>, b: seq<byte>)
    ensures Update(Update(adler, a), b) == Update(adler, a + b)
  {
    SumsConcat(Halves(adler), a, b);
    SumsBound(Halves(adler), a);
    JoinHalves(Sums(Halves(adler), a));
  }

  // ---------- sums that are not reduced

  /** The largest the second sum can be after n bytes, if both sums start below 2^16. */
  function Worst(n: nat): nat {
    0xffff + n * 0xffff + Triangle(n)
  }

  function Triangle(n: nat): nat {
    if n == 0 then 0 else Triangle(n - 1) + 255 * n
  }

  lemma {:induction false} TriangleIs(n: nat)
    ensures 2 * Triangle(n) == 255 * (n * (n + 1))
    decreases n
  {
    if n > 0 {
      TriangleIs(n - 1);
      assert n * (n + 1) == (n - 1) * n + 2 * n;
    }
  }

  /** 5552 bytes are the most that cannot overflow 32 bits. */
  lemma RunIsLongest(n: nat)
    ensures n == RUN ==> Worst(n) < 0x1_0000_0000
    ensures n == RUN + 1 ==> Worst(n) >= 0x1_0000_0000
  {
    TriangleIs(n);
    if n == 5552 { assert n * (n + 1) == 5552 * 5553; }
    if n == 5553 { assert n * (n + 1) == 5553 * 5554; }
  }

  lemma {:induction false} WorstGrows(a: nat, b: nat)
    requires a <= b
    ensures Worst(a) <= Worst(b)
    decreases b
  {
    if a < b { WorstGrows(a, b - 1); }
  }

  /** The sums before the remainders are taken stand for those of the definition, and fit. */
  ghost predicate Deferred(s1: nat, s2: nat, s: (nat, nat), part: seq<byte>) {
    && s1 % BASE == Sums(s, part).0 % BASE && s2 % BASE == Sums(s, part).1 % BASE
    && s1 <= 0xffff + 255 * |part| && s2 <= Worst(|part|)
  }

  lemma DeferredStep(s1: nat, s2: nat, s: (nat, nat), part: seq<byte>, b: byte)
    requires Deferred(s1, s2, s, part)
    ensures Deferred(s1 + b, s2 + (s1 + b), s, part + [b])
  {
    var more := part + [b];
    assert more[..|more| - 1] == part;
    var t := Sums(s, part);
    AddMod(s1, t.0, b, b);
    AddMod(s2, t.1, s1 + b, (t.0 + b) % BASE);
  }

  /** Sums of numbers with the same remainders have the same remainder. */
  lemma AddMod(a: nat, b: nat, c: nat, d: nat)
    requires a % BASE == b % BASE && c % BASE == d % BASE
    ensures (a + c) % BASE == ((b + d) % BASE) % BASE == (b + d) % BASE
  {
    AddModLeft(a, b, c);
    AddModLeft(c, d, b);
  }

  lemma AddModLeft(a: nat, b: nat, c: nat)
    requires a % BASE == b % BASE
    ensures (a + c) % BASE == (b + c) % BASE
  {
    var k := a / BASE - b / BASE;
    assert a + c == b + c + BASE * k;
  }

  /** update_adler32: 32-bit sums, with the remainders taken only after every 5552 bytes. */
  method UpdateAdler32(adler: nat, data: seq<byte>) returns (r: nat)
    requires adler < 0x1_0000_0000
    ensures r == Update(adler, data)
  {
    hide Sums, Worst;
    ghost var start := Halves(adler);
    var s1, s2 := adler % 0x1_0000, (adler / 0x1_0000) % 0x1_0000;
    var pos: nat, len: nat := 0, |data|;
    StartOf(start, data);
    while len != 0
      invariant pos + len == |data| && s1 < 0x1_0000 && s2 < 0x1_0000
      invariant (s1, s2) == Sums(start, data[..pos])
    {
      var amount := if len > RUN then RUN else len;
      len := len - amount;
      ghost var begin := pos;
      s1, s2, pos := AddRun(data, pos, amount, s1, s2);
      SumsConcat(start, data[..begin], data[begin..pos]);
      assert data[..begin] + data[begin..pos] == data[..pos];
    }
    assert data[..pos] == data;
    r := s2 * 0x1_0000 + s1;
  }

  lemma StartOf(s: (nat, nat), data: seq<byte>)
    ensures Sums(s, data[..0]) == s
  {
  }

  /** Up to 5552 bytes without a remainder: neither sum ever leaves 32 bits. */
  method AddRun(data: seq<byte>, pos: nat, amount: nat, sum1: nat, sum2: nat) returns (s1: nat, s2: nat, end: nat)
    requires 0 < amount <= RUN && pos + amount <= |data| && sum1 < 0x1_0000 && sum2 < 0x1_0000
    ensures end == pos + amount && s1 < BASE && s2 < BASE
    ensures (s1, s2) == Sums((sum1, sum2), data[pos..end])
  {
    hide Sums, Worst;
    s1, s2, end := sum1, sum2, pos;
    RunIsLongest(RUN);
    NothingDeferred(sum1, sum2);
    assert data[pos..pos] == [];
    var i := 0;
    while i != amount
      invariant 0 <= i <= amount && end == pos + i && Deferred(s1, s2, (sum1, sum2), data[pos..end])
    {
      DeferredStep(s1, s2, (sum1, sum2), data[pos..end], data[end]);
      assert data[pos..end] + [data[end]] == data[pos..end + 1];
      WorstGrows(i + 1, RUN);
      assert s1 + data[end] < 0x1_0000_0000;
      s1 := s1 + data[end];
      assert s2 + s1 < 0x1_0000_0000;
      s2 := s2 + s1;
      end := end + 1;
      i := i + 1;
    }
    Reduced(s1, s2, (sum1, sum2), data[pos..end]);
    s1 := s1 % BASE;
    s2 := s2 % BASE;
  }

  lemma NothingDeferred(s1: nat, s2: nat)
    requires s1 < 0x1_0000 && s2 < 0x1_0000
    ensures Deferred(s1, s2, (s1, s2), [])
  {
  }

  lemma Reduced(s1: nat, s2: nat, s: (nat, nat), part: seq<byte>)
    requires Deferred(s1, s2, s, part) && part != [] && s.0 < 0x1_0000 && s.1 < 0x1_0000
    ensures (s1 % BASE, s2 % BASE) == Sums(s, part)
  {
    SumsBound(s, part);
  }

  // ---------- which sums

  predicate Divides(d: nat, n: nat) {
    d > 0 && n % d == 0
  }

  lemma SmallDivisors(d: nat)
    requires 2 <= d < 256
    ensures !Divides(d, 65521)
  {
  }

  /** A divisor above the square root has a partner below it. */
  lemma Partner(n: nat, d: nat)
    requires 256 <= d < n < 0x1_0000 && n % d == 0
    ensures 2 <= n / d < 256 && Divides(n / d, n)
  {
    var q := n / d;
    assert n == q * d;
    Factors(n, q, d);
  }

  lemma Factors(n: nat, q: nat, d: nat)
    requires n == q * d && 256 <= d < n < 0x1_0000
    ensures 2 <= q < 256 && Divides(q, n)
  {
    if q >= 256 {
      MulLe(256, q, 256, d);
    }
    DivModUnique(n, q, d, 0);
  }

  /** The modulus is the largest prime below 2^16. */
  lemma BaseIsLargestPrime(n: nat)
    ensures forall d: nat :: 1 < d < BASE ==> !Divides(d, BASE)
    ensures BASE < n < 0x1_0000 ==> exists d: nat :: 1 < d < n && Divides(d, n)
  {
    forall d: nat | 1 < d < BASE ensures !Divides(d, BASE) {
      if d < 256 {
        SmallDivisors(d);
      } else if BASE % d == 0 {
        Partner(BASE, d);
        SmallDivisors(BASE / d);
      }
    }
    if BASE < n < 0x1_0000 { Composite(n); }
  }

  lemma Composite(n: nat)
    requires 65521 < n < 0x1_0000
    ensures exists d: nat :: 1 < d < n && Divides(d, n)
  {
    var d := if n % 2 == 0 then 2 else if n % 3 == 0 then 3 else if n == 65525 then 5 else if n == 65527 then 7
      else if n == 65531 then 19 else 13;
    assert 1 < d < n && Divides(d, n);
  }

  function Total(data: seq<byte>): nat {
    if data == [] then 0 else Total(data[..|data| - 1]) + data[|data| - 1]
  }

  /** Every byte as often as there are bytes from it to the end. */
  function Weighted(data: seq<byte>): nat {
    if data == [] then 0 else Weighted(data[..|data| - 1]) + Total(data)
  }

  /** Section 8.2 of RFC 1950: the first sum is one and the sum of all bytes, the second the sum of all
      first sums; the remainders make no difference before the end. */
  lemma {:induction false} SumsAre(data: seq<byte>)
    ensures Sums((1, 0), data).0 == (1 + Total(data)) % 65521
    ensures Sums((1, 0), data).1 == (|data| + Weighted(data)) % 65521
    decreases |data|
  {
    if data != [] {
      var before, b := data[..|data| - 1], data[|data| - 1];
      SumsAre(before);
      var s := Sums((1, 0), before);
      Remainder(1 + Total(before));
      Remainder(|before| + Weighted(before));
      AddMod(s.0, 1 + Total(before), b, b);
      Remainder(1 + Total(data));
      AddMod(s.1, |before| + Weighted(before), (s.0 + b) % BASE, 1 + Total(data));
    }
  }

  lemma Remainder(n: nat)
    ensures (n % BASE) % BASE == n % BASE
  {
  }

  /** The checksum of whole data is the second sum above the first. */
  lemma ChecksumIs(data: seq<byte>)
    ensures Update(1, data) == ((|data| + Weighted(data)) % 65521) * 0x1_0000 + (1 + Total(data)) % 65521
  {
    SumsAre(data);
    hide Sums, Total, Weighted;
    assert Halves(1) == (1, 0);
  }
}
