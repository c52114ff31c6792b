/** The other Huffman decoder of the repository (wimldr): it finds the length of a code by comparing
    with the first code of every length, and the symbol by indexing. */
module WimHuffman {
  import opened Bits
  import opened Canonical

  /** Of the 16 bits of an input the first 7 go to the quick lookup. */
  const HUFFMAN_QL_SHIFT: nat := 16 - 7

  /** The symbols of one length. `raw` is an index into the raw table; after the adjustment it may
      lie before its beginning. */
  datatype Symbols = Symbols(bits: nat, shift: nat, freq: nat, start: nat, raw: int)

  // ---------- where the codes of a length begin

  /** The first code of b bits, as a number of 16 bits. */
  function Start(lens: seq<nat>, b: nat): nat
    requires 1 <= b <= 16
  {
    Shl(2 * Used(lens, b - 1), 16 - b)
  }

  /** How many symbols have shorter codes. */
  function Shorter(lens: seq<nat>, b: nat): nat {
    if b <= 1 then 0 else Shorter(lens, b - 1) + Count(lens, b - 1)
  }

  lemma {:induction false} ShorterAppend(lens: seq<nat>, l: nat, b: nat)
    ensures Shorter(lens + [l], b) == Shorter(lens, b) + (if 1 <= l < b then 1 else 0)
    decreases b
  {
    if b > 1 {
      ShorterAppend(lens, l, b - 1);
      assert (lens + [l])[..|lens|] == lens;
    }
  }

  lemma {:induction false} ShorterBound(lens: seq<nat>, b: nat)
    ensures Shorter(lens, b) <= |lens|
    decreases |lens|
  {
    if lens == [] {
      NoneShorter(b);
    } else {
      var less := lens[..|lens| - 1];
      ShorterBound(less, b);
      ShorterAppend(less, lens[|lens| - 1], b);
      assert lens == less + [lens[|lens| - 1]];
    }
  }

  lemma {:induction false} NoneShorter(b: nat)
    ensures Shorter([], b) == 0
    decreases b
  {
    if b > 1 { NoneShorter(b - 1); }
  }

  lemma {:induction false} ShorterGrows(lens: seq<nat>, b: nat, c: nat)
    requires 1 <= b < c
    ensures Shorter(lens, b) + Count(lens, b) <= Shorter(lens, c)
    decreases c
  {
    if b + 1 < c { ShorterGrows(lens, b, c - 1); }
  }

  /** The first codes grow with the length. */
  lemma StartNext(lens: seq<nat>, b: nat)
    requires 1 <= b < 16
    ensures Start(lens, b + 1) == Shl(Used(lens, b), 16 - b)
    ensures Start(lens, b) <= Start(lens, b + 1)
    ensures Count(lens, b) == 0 ==> Start(lens, b + 1) == Start(lens, b)
  {
    var p := Pow2(15 - b);
    assert Pow2(16 - b) == 2 * p;
    MulThree(2, Used(lens, b), p);
    assert (2 * Used(lens, b)) * p == Used(lens, b) * (2 * p);
    MulLe(2 * Used(lens, b - 1), Used(lens, b), 2 * p, 2 * p);
  }

  lemma {:induction false} StartsGrow(lens: seq<nat>, b: nat, c: nat)
    requires 1 <= b <= c <= 16
    ensures Start(lens, b) <= Start(lens, c)
    decreases c
  {
    hide Start;
    if b < c {
      StartsGrow(lens, b, c - 1);
      StartNext(lens, c - 1);
    }
  }

  // ---------- the tables

  /** Symbol i stands at its place in the raw table. */
  ghost predicate RawPlaced(lens: seq<nat>, raw: seq<nat>, i: nat) {
    i < |lens| && (lens[i] > 0 ==>
      var at := Shorter(lens, lens[i]) + Count(lens[..i], lens[i]);
      at < |raw| && raw[at] == i)
  }

  ghost predicate LengthOk(lens: seq<nat>, s: Symbols, b: nat)
    requires 1 <= b <= 16
  {
    && s.bits == b && s.shift == 16 - b && s.freq == Count(lens, b) && s.start == Start(lens, b)
    && s.raw == Shorter(lens, b) - 2 * Used(lens, b - 1)
  }

  /** The quick lookup gives the last length whose codes begin no later than with these seven bits. */
  ghost predicate LookupOk(lens: seq<nat>, lookup: seq<nat>, p: nat) {
    && p < |lookup| && 0 <= lookup[p] < 16 && Shr(Start(lens, lookup[p] + 1), HUFFMAN_QL_SHIFT) <= p
    && forall b :: 1 <= b <= 16 && Shr(Start(lens, b), HUFFMAN_QL_SHIFT) <= p ==> b <= lookup[p] + 1
  }

  /** All tables of an alphabet. */
  ghost predicate Tables(lens: seq<nat>, huf: seq<Symbols>, lookup: seq<nat>, raw: seq<nat>) {
    && |huf| == 16 && |lookup| == 128 && |raw| == |lens| && Bounded(lens, 16)
    && (forall k :: 0 <= k < 16 ==> LengthOk(lens, huf[k], k + 1))
    && (forall p :: 0 <= p < 128 ==> LookupOk(lens, lookup, p))
    && (forall i :: 0 <= i < |lens| ==> RawPlaced(lens, raw, i))
  }

  // ---------- finding a symbol

  /** The length whose codes a 16-bit input falls among is the last one that does not begin after it. */
  ghost predicate Falls(lens: seq<nat>, huf: nat, b: nat) {
    1 <= b <= 16 && Start(lens, b) <= huf && (b < 16 ==> huf < Start(lens, b + 1))
  }

  lemma FallsInRange(lens: seq<nat>, huf: nat, b: nat)
    requires Used(lens, 16) == Pow2(16) && huf < Pow2(16) && Falls(lens, huf, b)
    ensures 2 * Used(lens, b - 1) <= Shr(huf, 16 - b) < Used(lens, b)
  {
    hide Used;
    if b < 16 { StartNext(lens, b); } else { assert Pow2(0) == 1; }
    QuotientRange(huf, Pow2(16 - b), 2 * Used(lens, b - 1), Used(lens, b));
  }

  /** Such a length has symbols, and the input begins with the code of one of them. */
  lemma FallsOnSymbol(lens: seq<nat>, huf: nat, b: nat) returns (i: nat)
    requires Bounded(lens, 16) && Used(lens, 16) == Pow2(16) && huf < Pow2(16) && Falls(lens, huf, b)
    ensures Count(lens, b) > 0 && 2 * Used(lens, b - 1) <= Shr(huf, 16 - b) < Used(lens, b)
    ensures i < |lens| && lens[i] == b && Count(lens[..i], b) == Shr(huf, 16 - b) - 2 * Used(lens, b - 1)
    ensures Begins(lens, i, MsbBits(huf, 16))
  {
    var x := Shr(huf, 16 - b);
    FallsInRange(lens, huf, b);
    hide Used, Count, MsbBits, KraftSum, Pow2, Start, Shr;
    assert lens[..|lens|] == lens;
    i := FindNth(lens, b, x - 2 * Used(lens, b - 1), |lens|);
    MsbBitsTake(huf, 16, 16 - b);
    assert Position(lens, i) == x;
  }

  lemma QuotientRange(x: nat, p: nat, lo: nat, hi: nat)
    requires p > 0 && lo * p <= x < hi * p
    ensures lo <= x / p < hi
  {
    var q := x / p;
    assert x == p * q + x % p;
    if q < lo { MulStrict(q, lo, p); }
    if q >= hi { MulLe(hi, q, p, p); }
  }

  /** huffman_sym: from the quick lookup downwards. */
  method HuffmanSym(huf: array<Symbols>, lookup: array<nat>, value: nat, ghost lens: seq<nat>, ghost raw: seq<nat>)
    returns (sym: nat)
    requires Tables(lens, huf[..], lookup[..], raw) && value < Pow2(16)
    ensures sym < 16 && Falls(lens, value, sym + 1)
  {
    hide Start, Shr, Used, RawPlaced;
    var lookupIndex := Shr(value, HUFFMAN_QL_SHIFT);
    IndexInRange(value);
    assert LookupOk(lens, lookup[..], lookupIndex);
    FirstStart(lens);
    sym := lookup[lookupIndex];
    NoLater(lens, lookup[..], value, lookupIndex);
    while value < huf[sym].start
      invariant 0 <= sym < 16
      invariant forall b :: sym + 1 < b <= 16 ==> value < Start(lens, b)
      decreases sym
    {
      assert LengthOk(lens, huf[..][sym], sym + 1);
      assert sym > 0;
      sym := sym - 1;
    }
    assert LengthOk(lens, huf[..][sym], sym + 1);
  }

  lemma IndexInRange(value: nat)
    requires value < Pow2(16)
    ensures Shr(value, HUFFMAN_QL_SHIFT) < 128
  {
    Pow2Add(7, 9);
    assert Pow2(7) == 128;
    QuotientRange(value, Pow2(9), 0, 128);
  }

  lemma FirstStart(lens: seq<nat>)
    ensures Start(lens, 1) == 0
  {
  }

  /** Lengths after the quick lookup begin after the input. */
  lemma NoLater(lens: seq<nat>, lookup: seq<nat>, value: nat, p: nat)
    requires LookupOk(lens, lookup, p) && p == Shr(value, HUFFMAN_QL_SHIFT)
    ensures forall b :: lookup[p] + 1 < b <= 16 ==> value < Start(lens, b)
  {
    hide Start;
    forall b | lookup[p] + 1 < b <= 16 ensures value < Start(lens, b) {
      if Start(lens, b) <= value { DivMono(Start(lens, b), value, Pow2(HUFFMAN_QL_SHIFT)); }
    }
  }

  /** huffman_sym and huffman_raw together: the symbol whose code the input begins with, and the
      length of this code. */
  method Decode(huf: array<Symbols>, lookup: array<nat>, raw: array<nat>, value: nat, ghost lens: seq<nat>)
    returns (symbol: nat, len: nat)
    requires Tables(lens, huf[..], lookup[..], raw[..]) && Used(lens, 16) == Pow2(16) && value < Pow2(16)
    ensures Begins(lens, symbol, MsbBits(value, 16)) && len == lens[symbol]
  {
    hide Start, Shr, Used, LookupOk, Begins, Falls, RawPlaced;
    var sym := HuffmanSym(huf, lookup, value, lens, raw[..]);
    ghost var i := FallsOnSymbol(lens, value, sym + 1);
    assert LengthOk(lens, huf[..][sym], sym + 1);
    assert RawPlaced(lens, raw[..], i);
    PlaceOf(lens, raw[..], i);
    symbol := raw[huf[sym].raw + Shr(value, huf[sym].shift)];
    len := huf[sym].bits;
  }

  lemma PlaceOf(lens: seq<nat>, raw: seq<nat>, i: nat)
    requires RawPlaced(lens, raw, i) && lens[i] > 0
    ensures var at := Shorter(lens, lens[i]) + Count(lens[..i], lens[i]); at < |raw| && raw[at] == i
  {
  }

  /** For codes of up to 15 bits this is the symbol that the table decoder of the PNG codec finds. */
  lemma SameSymbol(lens: seq<nat>, value: nat, i: nat, w: seq<bool>, j: nat)
    requires Bounded(lens, 15) && Used(lens, 15) == Pow2(15) && |w| == 15 && MsbBits(value, 16)[..15] == w
    requires Begins(lens, i, MsbBits(value, 16)) && Begins(lens, j, w)
    ensures i == j
  {
    assert MsbBits(value, 16)[..lens[i]] == w[..lens[i]];
    PrefixFree(lens, 15, i, j, w);
  }

  // ---------- building the tables

  /** Counts the symbols of each length. */
  method CountLengths(huf: array<Symbols>, lengths: seq<nat>) returns (empty: bool)
    requires huf.Length == 16 && Bounded(lengths, 16)
    requires forall k :: 0 <= k < 16 ==> huf[k].freq == 0
    modifies huf
    ensures forall k :: 0 <= k < 16 ==> huf[k].freq == Count(lengths, k + 1)
    ensures empty <==> Present(lengths) == 0
  {
    empty := true;
    var raw := 0;
    assert lengths[..0] == [];
    while raw < |lengths|
      invariant 0 <= raw <= |lengths|
      invariant forall k :: 0 <= k < 16 ==> huf[k].freq == Count(lengths[..raw], k + 1)
      invariant empty <==> Count(lengths[..raw], 0) == raw
      invariant Count(lengths[..raw], 0) <= raw
    {
      var bits := lengths[raw];
      forall b: nat | b <= 16 ensures Count(lengths[..raw + 1], b)
        == Count(lengths[..raw], b) + (if bits == b then 1 else 0) {
        CountStep(lengths, b, raw);
      }
      if bits != 0 {
        huf[bits - 1] := huf[bits - 1].(freq := huf[bits - 1].freq + 1);
        empty := false;
      }
      raw := raw + 1;
    }
    assert lengths[..raw] == lengths;
  }

  /** Populates the lengths; more codes than there is room for are an error. */
  method Populate(huf: array<Symbols>, ghost lens: seq<nat>) returns (ok: bool, complete: bool)
    requires huf.Length == 16 && forall k :: 0 <= k < 16 ==> huf[k].freq == Count(lens, k + 1)
    modifies huf
    ensures ok <==> Used(lens, 16) <= Pow2(16)
    ensures ok ==> (complete <==> Used(lens, 16) == Pow2(16))
    ensures ok ==> forall k :: 0 <= k < 16 ==> Populated(lens, huf[k], k + 1)
  {
    hide Used, Start, Shl, Shorter, Pow2;
    var code, cumFreq := 0, 0;
    NothingUsed(lens);
    var bits := 1;
    while bits <= 16
      invariant 1 <= bits <= 17 && code == 2 * Used(lens, bits - 1) && cumFreq == Shorter(lens, bits)
      invariant bits > 1 ==> Used(lens, bits - 1) <= Pow2(bits - 1)
      invariant forall k :: 0 <= k < 16 ==> huf[k].freq == Count(lens, k + 1)
      invariant forall k :: 0 <= k < bits - 1 ==> Populated(lens, huf[k], k + 1)
    {
      var s := huf[bits - 1];
      NextUsed(lens, bits);
      huf[bits - 1] := s.(bits := bits, shift := 16 - bits, start := Shl(code, 16 - bits), raw := cumFreq);
      StartIs(lens, bits);
      code := code + s.freq;
      if code > Pow2(bits) {
        if Used(lens, 16) <= Pow2(16) { UsedFits(lens, bits, 16); }
        return false, false;
      }
      code := code * 2;
      cumFreq := cumFreq + s.freq;
      bits := bits + 1;
    }
    ok := true;
    Pow2Next(16);
    complete := code == Pow2(17);
  }

  ghost predicate Populated(lens: seq<nat>, s: Symbols, b: nat)
    requires 1 <= b <= 16
  {
    s.bits == b && s.shift == 16 - b && s.freq == Count(lens, b) && s.start == Start(lens, b)
      && s.raw == Shorter(lens, b)
  }

  lemma NothingUsed(lens: seq<nat>)
    ensures Used(lens, 0) == 0 && Shorter(lens, 1) == 0
  {
  }

  lemma NextUsed(lens: seq<nat>, b: nat)
    requires b >= 1
    ensures Used(lens, b) == 2 * Used(lens, b - 1) + Count(lens, b)
    ensures Shorter(lens, b + 1) == Shorter(lens, b) + Count(lens, b)
  {
  }

  lemma StartIs(lens: seq<nat>, b: nat)
    requires 1 <= b <= 16
    ensures Start(lens, b) == Shl(2 * Used(lens, b - 1), 16 - b)
  {
  }

  /** The raw pointers have moved past the symbols placed so far. */
  ghost predicate Placing(lens: seq<nat>, huf: seq<Symbols>, raw: seq<nat>, n: nat) {
    && |huf| == 16 && |raw| == |lens| && n <= |lens|
    && (forall k :: 0 <= k < 16 ==> huf[k].raw == Shorter(lens, k + 1) + Count(lens[..n], k + 1))
    && (forall i :: 0 <= i < n ==> RawPlaced(lens, raw, i))
  }

  /** Different symbols have different places. */
  lemma PlacesDiffer(lens: seq<nat>, i: nat, j: nat)
    requires i < j < |lens| && lens[i] > 0 && lens[j] > 0
    ensures Shorter(lens, lens[i]) + Count(lens[..i], lens[i]) != Shorter(lens, lens[j]) + Count(lens[..j], lens[j])
  {
    hide Shorter;
    PlaceInside(lens, i);
    PlaceInside(lens, j);
    if lens[i] < lens[j] {
      ShorterGrows(lens, lens[i], lens[j]);
    } else if lens[j] < lens[i] {
      ShorterGrows(lens, lens[j], lens[i]);
    } else {
      CountStep(lens, lens[i], i);
      CountMono(lens, lens[i], i + 1, j);
    }
  }

  lemma PlaceInside(lens: seq<nat>, i: nat)
    requires i < |lens| && lens[i] > 0
    ensures Count(lens[..i], lens[i]) < Count(lens, lens[i])
    ensures Shorter(lens, lens[i]) + Count(lens[..i], lens[i]) < |lens|
  {
    CountStep(lens, lens[i], i);
    CountMono(lens, lens[i], i + 1, |lens|);
    assert lens[..|lens|] == lens;
    ShorterGrows(lens, lens[i], lens[i] + 1);
    ShorterBound(lens, lens[i] + 1);
  }

  lemma PlaceNext(lens: seq<nat>, huf: seq<Symbols>, raw: seq<nat>, n: nat)
    requires Placing(lens, huf, raw, n) && n < |lens| && lens[n] <= 16
    ensures lens[n] == 0 ==> Placing(lens, huf, raw, n + 1)
    ensures lens[n] > 0 ==>
      var k, at := lens[n] - 1, huf[lens[n] - 1].raw;
      0 <= at < |raw| && Placing(lens, huf[k := huf[k].(raw := at + 1)], raw[at := n], n + 1)
  {
    hide Shorter;
    forall b: nat | b <= 16 ensures Count(lens[..n + 1], b) == Count(lens[..n], b) + (if lens[n] == b then 1 else 0) {
      CountStep(lens, b, n);
    }
    if lens[n] > 0 {
      PlaceInside(lens, n);
      var next := raw[huf[lens[n] - 1].raw := n];
      forall i | 0 <= i < n ensures RawPlaced(lens, next, i) {
        assert RawPlaced(lens, raw, i);
        if lens[i] > 0 { PlacesDiffer(lens, i, n); }
      }
    }
  }

  /** Populates the raw symbol table through the raw pointers. */
  method FillRaw(huf: array<Symbols>, raw: array<nat>, lengths: seq<nat>)
    requires huf.Length == 16 && raw.Length == |lengths| && Bounded(lengths, 16)
    requires forall k :: 0 <= k < 16 ==> Populated(lengths, huf[k], k + 1)
    modifies huf, raw
    ensures Placing(lengths, huf[..], raw[..], |lengths|)
    ensures forall k :: 0 <= k < 16 ==> huf[k].(raw := 0) == old(huf[k]).(raw := 0)
  {
    hide Shorter, Start, RawPlaced;
    assert lengths[..0] == [];
    var r: nat := 0;
    while r < |lengths|
      invariant 0 <= r <= |lengths| && Placing(lengths, huf[..], raw[..], r)
      invariant forall k :: 0 <= k < 16 ==> huf[k].(raw := 0) == old(huf[k]).(raw := 0)
    {
      var bits := lengths[r];
      PlaceNext(lengths, huf[..], raw[..], r);
      if bits != 0 {
        var s := huf[bits - 1];
        ghost var h, w := huf[..], raw[..];
        raw[s.raw] := r;
        huf[bits - 1] := s.(raw := s.raw + 1);
        assert huf[..] == h[bits - 1 := s.(raw := s.raw + 1)] && raw[..] == w[s.raw := r];
      }
      r := r + 1;
    }
  }

  /** Entries of the quick lookup table that some length up to b has filled. */
  ghost predicate LookupUpTo(lens: seq<nat>, lookup: seq<nat>, n: nat) {
    |lookup| == 128 && n <= 16 && forall p :: 0 <= p < 128 ==> LookupAt(lens, lookup[p], n, p)
  }

  ghost predicate LookupAt(lens: seq<nat>, entry: nat, n: nat, p: nat)
    requires n <= 16
  {
    && (n > 0 ==> entry < 16 && Shr(Start(lens, entry + 1), HUFFMAN_QL_SHIFT) <= p)
    && forall b :: 1 <= b <= n && Shr(Start(lens, b), HUFFMAN_QL_SHIFT) <= p ==> b <= entry + 1
  }

  lemma LookupNext(lens: seq<nat>, lookup: seq<nat>, next: seq<nat>, b: nat)
    requires 1 <= b <= 16 && LookupUpTo(lens, lookup, b - 1) && |next| == 128
    requires forall p :: 0 <= p < 128 ==>
      next[p] == if Shr(Start(lens, b), HUFFMAN_QL_SHIFT) <= p then b - 1 else lookup[p]
    ensures LookupUpTo(lens, next, b)
  {
    hide Start, Shr;
    forall p | 0 <= p < 128 ensures LookupAt(lens, next[p], b, p) {
      assert LookupAt(lens, lookup[p], b - 1, p);
      if b == 1 { FirstLookup(lens); }
    }
  }

  lemma FirstLookup(lens: seq<nat>)
    ensures Shr(Start(lens, 1), HUFFMAN_QL_SHIFT) == 0
  {
    assert Start(lens, 1) == 0;
  }

  /** Adjusts the raw pointers for indexing by code, and populates the quick lookup table. */
  method Adjust(huf: array<Symbols>, lookup: array<nat>, ghost lens: seq<nat>)
    requires huf.Length == 16 && lookup.Length == 128
    requires forall k :: 0 <= k < 16 ==> Populated(lens, huf[k].(raw := Shorter(lens, k + 1)), k + 1)
    modifies huf, lookup
    ensures forall k :: 0 <= k < 16 ==> Adjusted(lens, huf[k], old(huf[k]), k + 1)
    ensures LookupUpTo(lens, lookup[..], 16)
  {
    hide Used, Start, Shl, Shr, Shorter;
    var bits := 1;
    while bits <= 16
      invariant 1 <= bits <= 17
      invariant forall k :: 0 <= k < bits - 1 ==> Adjusted(lens, huf[k], old(huf[k]), k + 1)
      invariant forall k :: bits - 1 <= k < 16 ==> huf[k] == old(huf[k])
      invariant LookupUpTo(lens, lookup[..], bits - 1)
    {
      var s := huf[bits - 1];
      assert Populated(lens, s.(raw := Shorter(lens, bits)), bits);
      var adjustment := Shr(s.start, s.shift);
      StartShifted(lens, bits);
      huf[bits - 1] := s.(raw := s.raw - s.freq - adjustment);
      ghost var was := lookup[..];
      FillLookup(lookup, Shr(s.start, HUFFMAN_QL_SHIFT), bits - 1);
      LookupNext(lens, was, lookup[..], bits);
      bits := bits + 1;
    }
  }

  /** The raw pointer is moved back to the first symbol, and then by the first code. */
  ghost predicate Adjusted(lens: seq<nat>, s: Symbols, was: Symbols, b: nat)
    requires 1 <= b <= 16
  {
    s == was.(raw := was.raw - Count(lens, b) - 2 * Used(lens, b - 1))
  }

  lemma StartShifted(lens: seq<nat>, b: nat)
    requires 1 <= b <= 16
    ensures Shr(Start(lens, b), 16 - b) == 2 * Used(lens, b - 1)
  {
    DivModUnique(Start(lens, b), Pow2(16 - b), 2 * Used(lens, b - 1), 0);
  }

  method FillLookup(lookup: array<nat>, from: nat, entry: nat)
    requires lookup.Length == 128
    modifies lookup
    ensures forall p :: 0 <= p < 128 ==> lookup[p] == if from <= p then entry else old(lookup[p])
  {
    var prefix := from;
    while prefix < 128
      invariant from <= prefix
      invariant forall p :: 0 <= p < 128 ==> lookup[p] == if from <= p < prefix then entry else old(lookup[p])
      decreases 128 - prefix
    {
      lookup[prefix] := entry;
      prefix := prefix + 1;
    }
  }

  /** huffman_alphabet: it succeeds exactly if the code is complete, and then the tables are right. An
      alphabet without symbols is also accepted, but its raw table is never filled. */
  method HuffmanAlphabet(huf: array<Symbols>, lookup: array<nat>, raw: array<nat>, lengths: seq<nat>) returns (rc: int)
    requires huf.Length == 16 && lookup.Length == 128 && raw.Length == |lengths| < 0x1_0000 && Bounded(lengths, 16)
      && lookup != raw
    modifies huf, lookup, raw
    ensures rc == if Present(lengths) == 0 || Used(lengths, 16) == Pow2(16) then 0 else -1
    ensures rc == 0 && Present(lengths) > 0 ==> Tables(lengths, huf[..], lookup[..], raw[..])
    ensures Present(lengths) == 0 ==> huf[0] == Symbols(1, 15, 2, 0, -2)
    ensures Present(lengths) == 0 ==> forall p :: 0 <= p < 128 ==> LookupOk([1, 1], lookup[..], p)
  {
    hide Start, Shorter, Used, Shl, Shr, RawPlaced, LookupOk, Pow2, LookupAt;
    for k := 0 to 16
      invariant forall j :: 0 <= j < k ==> huf[j].freq == 0
    {
      huf[k] := Symbols(0, 0, 0, 0, 0);
    }
    var empty := CountLengths(huf, lengths);
    ghost var lens := if empty then [1, 1] else lengths;
    if empty {
      NoCounts(lengths);
      huf[0] := huf[0].(freq := 2);
      TrivialCode();
    }
    var ok, complete := Populate(huf, lens);
    if !ok { return -1; }
    if !empty { FillRaw(huf, raw, lengths); }
    assert lengths[..|lengths|] == lengths;
    ghost var placed := huf[..];
    Adjust(huf, lookup, lens);
    if empty { TrivialTables(placed[0], huf[0], lookup[..]); }
    if !complete { return -1; }
    if !empty { TablesDone(lengths, placed, huf[..], lookup[..], raw[..]); }
    return 0;
  }

  /** The trivial alphabet: two codes of one bit. */
  lemma TrivialCode()
    ensures Used([1, 1], 16) == Pow2(16)
    ensures forall b :: 1 <= b <= 16 ==> Count([1, 1], b) == if b == 1 then 2 else 0
  {
    assert [1, 1][..1] == [1] && [1][..0] == [];
    forall b: nat | b >= 1 ensures Count([1, 1], b) == if b == 1 then 2 else 0 {
      assert Count([1], b) == Count([], b) + (if 1 == b then 1 else 0);
    }
    TrivialUsed(16);
  }

  /** In the trivial alphabet the pointer to the raw symbols, which nothing has moved on, is moved back to two
      places before their table. */
  lemma TrivialTables(placed: Symbols, s: Symbols, lookup: seq<nat>)
    requires Populated([1, 1], placed, 1) && Adjusted([1, 1], s, placed, 1) && LookupUpTo([1, 1], lookup, 16)
    ensures s == Symbols(1, 15, 2, 0, -2)
    ensures forall p :: 0 <= p < 128 ==> LookupOk([1, 1], lookup, p)
  {
    TrivialCode();
    NothingUsed([1, 1]);
    FirstStart([1, 1]);
    hide Start, Shorter, Used, Shr;
    forall p | 0 <= p < 128 ensures LookupOk([1, 1], lookup, p) {
      assert LookupAt([1, 1], lookup[p], 16, p);
    }
  }

  lemma {:induction false} TrivialUsed(m: nat)
    requires m >= 1
    ensures Used([1, 1], m) == Pow2(m)
    decreases m
  {
    assert [1, 1][..1] == [1] && [1][..0] == [];
    assert Count([1, 1], m) == Count([1], m) + (if m == 1 then 1 else 0);
    assert Count([1], m) == Count([], m) + (if m == 1 then 1 else 0);
    if m > 1 { TrivialUsed(m - 1); } else { assert Used([1, 1], 0) == 0; }
  }

  lemma {:induction false} NoCounts(lens: seq<nat>)
    requires Present(lens) == 0
    ensures forall b :: b >= 1 ==> Count(lens, b) == 0
    decreases |lens|
  {
    if lens != [] {
      CountStep(lens, 0, |lens| - 1);
      assert lens[..|lens|] == lens;
      CountBound(lens[..|lens| - 1], 0);
      assert lens[|lens| - 1] == 0;
      NoCounts(lens[..|lens| - 1]);
    }
  }

  lemma TablesDone(lens: seq<nat>, placed: seq<Symbols>, huf: seq<Symbols>, lookup: seq<nat>, raw: seq<nat>)
    requires Bounded(lens, 16) && |huf| == 16 && Placing(lens, placed, raw, |lens|) && LookupUpTo(lens, lookup, 16)
    requires forall k :: 0 <= k < 16 ==> Populated(lens, placed[k].(raw := Shorter(lens, k + 1)), k + 1)
    requires forall k :: 0 <= k < 16 ==> Adjusted(lens, huf[k], placed[k], k + 1)
    ensures Tables(lens, huf, lookup, raw)
  {
    hide Start, Shorter, Used, Shr, RawPlaced;
    assert lens[..|lens|] == lens;
    forall p | 0 <= p < 128 ensures LookupOk(lens, lookup, p) {
      assert LookupAt(lens, lookup[p], 16, p);
    }
  }
}
