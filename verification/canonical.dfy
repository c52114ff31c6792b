/** Canonical prefix codes (section 3.2.2 of RFC 1951).

    A code is given by its code lengths alone. `Used(lens, b)` is how many of the 2^b strings of
    b bits the codes of length at most b take up, so the Kraft sum is `Used(lens, m) / 2^m`. */
module Canonical {
  import opened Bits

  function Count(lens: seq<nat>, b: nat): nat {
    if lens == [] then 0
    else Count(lens[..|lens| - 1], b) + (if lens[|lens| - 1] == b then 1 else 0)
  }

  function Used(lens: seq<nat>, b: nat): nat {
    if b == 0 then 0 else 2 * Used(lens, b - 1) + Count(lens, b)
  }

  /** The place of symbol i among the strings of its length, when the codes are dealt out by
      length and then by symbol. */
  function Position(lens: seq<nat>, i: nat): nat
    requires i < |lens| && lens[i] > 0
  {
    2 * Used(lens, lens[i] - 1) + Count(lens[..i], lens[i])
  }

  /** The code of symbol i, first bit first. Bits above the length are cut off. */
  function Code(lens: seq<nat>, i: nat): (s: seq<bool>)
    requires i < |lens| && lens[i] > 0
    ensures |s| == lens[i]
  {
    MsbBits(Position(lens, i), lens[i])
  }

  /** The code of symbol i is what the bits w begin with. */
  predicate Begins(lens: seq<nat>, i: nat, w: seq<bool>) {
    i < |lens| && 0 < lens[i] <= |w| && w[..lens[i]] == Code(lens, i)
  }

  ghost predicate Bounded(lens: seq<nat>, m: nat) {
    forall i :: 0 <= i < |lens| ==> lens[i] <= m
  }

  function Present(lens: seq<nat>): nat {
    CountBound(lens, 0);
    |lens| - Count(lens, 0)
  }

  /** Every symbol has 2^(m - length) of the 2^m strings. */
  function KraftSum(lens: seq<nat>, m: nat): nat {
    if lens == [] then 0
    else
      var l := lens[|lens| - 1];
      KraftSum(lens[..|lens| - 1], m) + (if 0 < l <= m then Pow2(m - l) else 0)
  }

  // ---------- counting

  lemma {:induction false} CountBound(lens: seq<nat>, b: nat)
    ensures Count(lens, b) <= |lens|
  {
    if lens != [] { CountBound(lens[..|lens| - 1], b); }
  }

  lemma CountStep(lens: seq<nat>, b: nat, n: nat)
    requires n < |lens|
    ensures Count(lens[..n + 1], b) == Count(lens[..n], b) + (if lens[n] == b then 1 else 0)
  {
    assert lens[..n + 1][..n] == lens[..n];
  }

  lemma {:induction false} CountMono(lens: seq<nat>, b: nat, i: nat, j: nat)
    requires i <= j <= |lens|
    ensures Count(lens[..i], b) <= Count(lens[..j], b) <= Count(lens[..i], b) + (j - i)
    decreases j
  {
    if i < j {
      CountMono(lens, b, i, j - 1);
      CountStep(lens, b, j - 1);
    }
  }

  /** Symbol i is the k-th of its length only for one i. */
  lemma CountInjective(lens: seq<nat>, i: nat, j: nat)
    requires i < |lens| && j < |lens| && lens[i] == lens[j]
    requires Count(lens[..i], lens[i]) == Count(lens[..j], lens[i])
    ensures i == j
  {
    if i < j {
      CountStep(lens, lens[i], i);
      CountMono(lens, lens[i], i + 1, j);
    } else if j < i {
      CountStep(lens, lens[i], j);
      CountMono(lens, lens[i], j + 1, i);
    }
  }

  /** The k-th symbol of length b. */
  lemma {:induction false} FindNth(lens: seq<nat>, b: nat, k: nat, n: nat) returns (i: nat)
    requires n <= |lens| && k < Count(lens[..n], b)
    ensures i < n && lens[i] == b && Count(lens[..i], b) == k
    decreases n
  {
    CountStep(lens, b, n - 1);
    if k < Count(lens[..n - 1], b) {
      i := FindNth(lens, b, k, n - 1);
    } else {
      i := n - 1;
    }
  }

  lemma PositionBounds(lens: seq<nat>, i: nat)
    requires i < |lens| && lens[i] > 0
    ensures 2 * Used(lens, lens[i] - 1) <= Position(lens, i) < Used(lens, lens[i])
  {
    CountStep(lens, lens[i], i);
    CountMono(lens, lens[i], i + 1, |lens|);
    assert lens[..|lens|] == lens;
  }

  // ---------- the Kraft sum

  lemma {:induction false} UsedAppend(lens: seq<nat>, l: nat, m: nat)
    ensures Used(lens + [l], m) == Used(lens, m) + (if 0 < l <= m then Pow2(m - l) else 0)
    decreases m
  {
    if m > 0 {
      UsedAppend(lens, l, m - 1);
      assert (lens + [l])[..|lens|] == lens;
    }
  }

  lemma {:induction false} UsedIsKraftSum(lens: seq<nat>, m: nat)
    ensures Used(lens, m) == KraftSum(lens, m)
  {
    if lens == [] {
      UsedEmpty(m);
    } else {
      UsedIsKraftSum(lens[..|lens| - 1], m);
      UsedAppend(lens[..|lens| - 1], lens[|lens| - 1], m);
      assert lens == lens[..|lens| - 1] + [lens[|lens| - 1]];
    }
  }

  lemma {:induction false} UsedEmpty(m: nat)
    ensures Used([], m) == 0
    decreases m
  {
    if m > 0 { UsedEmpty(m - 1); }
  }

  /** A code that fits in m bits fits in every smaller number of bits. */
  lemma {:induction false} UsedFits(lens: seq<nat>, b: nat, m: nat)
    requires b <= m && Used(lens, m) <= Pow2(m)
    ensures Used(lens, b) <= Pow2(b)
    decreases m
  {
    if b < m { UsedFits(lens, b, m - 1); }
  }

  // ---------- prefix codes

  ghost function Prefix(w: seq<bool>, b: nat): nat
    requires b <= |w|
  {
    MsbVal(w[..b])
  }

  lemma PrefixStep(w: seq<bool>, b: nat)
    requires b < |w|
    ensures Prefix(w, b + 1) == 2 * Prefix(w, b) + Bit(w[b])
  {
    assert w[..b + 1][..b] == w[..b];
  }

  /** In terms of numbers: i is next exactly if the first lens[i] bits are its position. */
  lemma BeginsIffPosition(lens: seq<nat>, m: nat, i: nat, w: seq<bool>)
    requires Used(lens, m) <= Pow2(m)
    requires i < |lens| && 0 < lens[i] <= m && lens[i] <= |w|
    ensures Begins(lens, i, w) <==> Prefix(w, lens[i]) == Position(lens, i)
  {
    var b := lens[i];
    PositionBounds(lens, i);
    UsedFits(lens, b, m);
    MsbValBits(Position(lens, i), b);
    MsbBitsVal(w[..b]);
  }

  /** Once the bits fall below the strings in use, no longer code can match. */
  lemma {:induction false} BelowUsed(lens: seq<nat>, w: seq<bool>, b: nat, c: nat)
    requires b < c <= |w| && Prefix(w, b) < Used(lens, b)
    ensures Prefix(w, c) < 2 * Used(lens, c - 1)
    decreases c
  {
    PrefixStep(w, c - 1);
    if b + 1 < c { BelowUsed(lens, w, b, c - 1); }
  }

  /** No two codes begin the same string, unless the code is oversubscribed. */
  lemma PrefixFree(lens: seq<nat>, m: nat, i: nat, j: nat, w: seq<bool>)
    requires Bounded(lens, m) && Used(lens, m) <= Pow2(m)
    requires Begins(lens, i, w) && Begins(lens, j, w)
    ensures i == j
  {
    hide Count, Used, Prefix, Code;
    BeginsRange(lens, m, i, w);
    BeginsRange(lens, m, j, w);
    if lens[i] < lens[j] {
      BelowUsed(lens, w, lens[i], lens[j]);
    } else if lens[j] < lens[i] {
      BelowUsed(lens, w, lens[j], lens[i]);
    } else {
      CountInjective(lens, i, j);
    }
  }

  lemma BeginsRange(lens: seq<nat>, m: nat, i: nat, w: seq<bool>)
    requires Bounded(lens, m) && Used(lens, m) <= Pow2(m) && Begins(lens, i, w)
    ensures 2 * Used(lens, lens[i] - 1) <= Prefix(w, lens[i]) < Used(lens, lens[i])
    ensures Prefix(w, lens[i]) == 2 * Used(lens, lens[i] - 1) + Count(lens[..i], lens[i])
  {
    BeginsIffPosition(lens, m, i, w);
    PositionBounds(lens, i);
  }

  /** In a complete code every string of m bits begins with the code of some symbol. */
  lemma CompleteDecodes(lens: seq<nat>, m: nat, w: seq<bool>) returns (i: nat)
    requires Used(lens, m) == Pow2(m) && |w| == m
    ensures Begins(lens, i, w) && lens[i] <= m
  {
    MsbBound(w);
    assert w[..m] == w;
    i := FirstBelow(lens, m, w, m);
  }

  lemma {:induction false} FirstBelow(lens: seq<nat>, m: nat, w: seq<bool>, b: nat) returns (i: nat)
    requires Used(lens, m) <= Pow2(m) && b <= m <= |w| && Prefix(w, b) < Used(lens, b)
    ensures Begins(lens, i, w) && lens[i] <= b
    decreases b
  {
    PrefixStep(w, b - 1);
    if Prefix(w, b - 1) < Used(lens, b - 1) {
      i := FirstBelow(lens, m, w, b - 1);
    } else {
      assert lens[..|lens|] == lens;
      i := FindNth(lens, b, Prefix(w, b) - 2 * Used(lens, b - 1), |lens|);
      BeginsIffPosition(lens, m, i, w);
    }
  }

  function Ones(n: nat): (s: seq<bool>)
    ensures |s| == n
  {
    seq(n, _ => true)
  }

  lemma {:induction false} OnesVal(n: nat)
    ensures MsbVal(Ones(n)) == Pow2(n) - 1
  {
    if n > 0 {
      OnesVal(n - 1);
      assert Ones(n)[..n - 1] == Ones(n - 1);
    }
  }

  lemma {:induction false} AboveUsed(lens: seq<nat>, w: seq<bool>, b: nat, c: nat)
    requires b <= c <= |w| && Prefix(w, c) >= Used(lens, c)
    ensures Prefix(w, b) >= Used(lens, b)
    decreases c
  {
    if b < c {
      PrefixStep(w, c - 1);
      AboveUsed(lens, w, b, c - 1);
    }
  }

  /** In an incomplete code the string of ones begins with no code. */
  lemma IncompleteMisses(lens: seq<nat>, m: nat, i: nat)
    requires Bounded(lens, m) && Used(lens, m) < Pow2(m)
    ensures !Begins(lens, i, Ones(m))
  {
    if Begins(lens, i, Ones(m)) {
      OnesVal(m);
      assert Ones(m)[..m] == Ones(m);
      AboveUsed(lens, Ones(m), lens[i], m);
      BeginsIffPosition(lens, m, i, Ones(m));
      PositionBounds(lens, i);
    }
  }

  /** In an oversubscribed code two symbols have codes of zeros only. */
  lemma OversubscribedClashes(lens: seq<nat>, m: nat) returns (i: nat, j: nat)
    requires Used(lens, m) > Pow2(m)
    ensures i < |lens| && j < |lens| && i != j && 0 < lens[i] <= lens[j] <= m
    ensures Used(lens, lens[i] - 1) == 0
    ensures Code(lens, i) == Zeros(lens[i]) && Code(lens, j) == Zeros(lens[j])
  {
    var b := m;
    while Used(lens, b - 1) > Pow2(b - 1)
      invariant 0 < b <= m && Used(lens, b) > Pow2(b)
    {
      b := b - 1;
    }
    assert lens[..|lens|] == lens;
    j := FindNth(lens, b, Pow2(b) - 2 * Used(lens, b - 1), |lens|);
    assert Position(lens, j) == Pow2(b);
    MsbOfMultiple(b, 1);
    var c := FirstUsed(lens, b);
    i := FindNth(lens, c, 0, |lens|);
    assert Position(lens, i) == 0;
    MsbOfMultiple(c, 0);
  }

  lemma {:induction false} FirstUsed(lens: seq<nat>, b: nat) returns (c: nat)
    requires Used(lens, b) > 0
    ensures 0 < c <= b && Used(lens, c - 1) == 0 && Count(lens, c) > 0
    decreases b
  {
    if Used(lens, b - 1) == 0 { c := b; } else { c := FirstUsed(lens, b - 1); }
  }

  lemma {:induction false} MsbOfMultiple(n: nat, x: nat)
    ensures MsbBits(Shl(x, n), n) == Zeros(n)
  {
    if n > 0 {
      assert Shl(x, n) == 2 * Shl(x, n - 1) by { MulTwo(x, Pow2(n - 1)); }
      MsbOfMultiple(n - 1, x);
    }
  }

  // ---------- bounds on the Kraft sum

  /** If no code is shorter than lo bits, the symbols present take 2^(m - lo) strings at most. */
  lemma {:induction false} KraftBound(lens: seq<nat>, m: nat, lo: nat)
    requires 0 < lo <= m && forall i :: 0 <= i < |lens| ==> lens[i] == 0 || lens[i] >= lo
    ensures KraftSum(lens, m) <= Present(lens) * Pow2(m - lo)
  {
    if lens != [] {
      var l := lens[|lens| - 1];
      KraftBound(lens[..|lens| - 1], m, lo);
      if l == 0 {
        assert Present(lens) == Present(lens[..|lens| - 1]);
      } else {
        assert Present(lens) == Present(lens[..|lens| - 1]) + 1;
        if l <= m { Pow2Mono(m - l, m - lo); }
        MulStep(Present(lens[..|lens| - 1]), Pow2(m - lo));
      }
    }
  }

  lemma {:induction false} CountZeroBelow(lens: seq<nat>, b: nat, c: nat)
    requires 0 < b <= c && Used(lens, c) == 0
    ensures Count(lens, b) == 0
    decreases c
  {
    if b < c { CountZeroBelow(lens, b, c - 1); }
  }

  lemma AbsentLength(lens: seq<nat>, i: nat)
    requires i < |lens|
    ensures Count(lens, lens[i]) > 0
  {
    CountStep(lens, lens[i], i);
    CountMono(lens, lens[i], i + 1, |lens|);
    assert lens[..|lens|] == lens;
  }

  /** A tree of at most one symbol fits. */
  lemma FewSymbolsFit(lens: seq<nat>, m: nat)
    requires 0 < m && Present(lens) < 2
    ensures Used(lens, m) <= Pow2(m)
  {
    KraftBound(lens, m, 1);
    UsedIsKraftSum(lens, m);
    assert Present(lens) * Pow2(m - 1) <= Pow2(m - 1) by { MulStep(0, Pow2(m - 1)); }
  }

  /** What the source accepts as a tree: a complete code, or fewer than two symbols. */
  predicate TreeOk(lens: seq<nat>) {
    Present(lens) < 2 || Used(lens, 15) == Pow2(15)
  }
}
