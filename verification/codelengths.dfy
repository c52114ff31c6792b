/** Code lengths from frequencies. */
module CodeLengths {
  import opened Bits
  import opened Canonical
  import opened PackageMerge
  import opened PlainMerge
  import opened OptimalCode
  import opened LeafSort
  import opened BpmLists

  /** What the lengths promise: a complete code of at most m bits in which every symbol that
      occurs has a code, and more frequent symbols do not have longer codes. If at least two
      symbols occur, no other symbol has a code. */
  ghost predicate LengthsFor(lens: seq<nat>, freqs: seq<nat>, m: nat) {
    && |lens| == |freqs| && Bounded(lens, m)
    && Used(lens, m) == Pow2(m)
    && (forall i :: 0 <= i < |lens| && freqs[i] > 0 ==> lens[i] > 0)
    && (forall i, j :: 0 <= i < |lens| && 0 <= j < |lens| && freqs[i] > freqs[j] > 0 ==> lens[i] <= lens[j])
    && (Occurring(freqs) >= 2 ==> forall i :: 0 <= i < |lens| && freqs[i] == 0 ==> lens[i] == 0)
  }

  /** Lengths of a prefix code of at most m bits for the symbols that occur. */
  ghost predicate Suits(lens: seq<nat>, freqs: seq<nat>, m: nat) {
    && |lens| == |freqs| && Bounded(lens, m) && Used(lens, m) <= Pow2(m)
    && forall i :: 0 <= i < |lens| && freqs[i] > 0 ==> lens[i] > 0
  }

  /** No code of at most m bits makes a text of these frequencies shorter. */
  ghost predicate Optimal(lens: seq<nat>, freqs: seq<nat>, m: nat) {
    |lens| == |freqs| && forall other: seq<nat> :: Suits(other, freqs, m) ==> Cost(freqs, lens) <= Cost(freqs, other)
  }

  /** The lengths of package-merge: how often a leaf occurs in the first 2n - 2 items of the last list.
      The leaves are the symbols that occur, by frequency and then by symbol. */
  ghost predicate ByPackageMerge(lens: seq<nat>, freqs: seq<nat>, m: nat)
    requires m > 0
  {
    exists leaves: seq<Leaf> :: InOrder(leaves) && LeavesOf(leaves, freqs) && TimesAre(lens, leaves, m)
  }

  ghost predicate TimesAre(lens: seq<nat>, leaves: seq<Leaf>, m: nat)
    requires m > 0
  {
    var n, l := |leaves|, Level(Weights(leaves), m - 1);
    && 2 <= n && 2 * n - 2 <= |l|
    && forall i :: 0 <= i < n ==>
      leaves[i].index < |lens| && lens[leaves[i].index] == Times(l[..2 * n - 2], i)
  }

  /** The lengths if fewer than two symbols occur: one bit for the first two symbols, or for the symbol that
      occurs and the first other one. */
  ghost predicate TwoOnly(lens: seq<nat>, freqs: seq<nat>) {
    forall k {:trigger freqs[k]} :: 0 <= k < |freqs| && (freqs[k] > 0 || (k == 0 && Occurring(freqs) == 0)) ==>
      OnlyThese(lens, k, if k == 0 then 1 else 0)
  }

  ghost predicate OnlyThese(lens: seq<nat>, a: nat, b: nat) {
    forall i :: 0 <= i < |lens| ==> lens[i] == if i == a || i == b then 1 else 0
  }

  /** These are the lengths that the source gives. */
  ghost predicate Determined(lens: seq<nat>, freqs: seq<nat>, m: nat) {
    if Occurring(freqs) >= 2 then m > 0 && ByPackageMerge(lens, freqs, m) else TwoOnly(lens, freqs)
  }

  function Occurring(freqs: seq<nat>): nat {
    if freqs == [] then 0 else Occurring(freqs[..|freqs| - 1]) + (if freqs[|freqs| - 1] > 0 then 1 else 0)
  }

  lemma {:induction false} KraftUpdate(lens: seq<nat>, k: nat, l: nat, m: nat)
    requires k < |lens| && lens[k] == 0 && 0 < l <= m
    ensures KraftSum(lens[k := l], m) == KraftSum(lens, m) + Pow2(m - l)
  {
    var n := |lens| - 1;
    if k < n {
      KraftUpdate(lens[..n], k, l, m);
      assert lens[k := l][..n] == lens[..n][k := l];
    } else {
      assert lens[k := l][..n] == lens[..n];
    }
  }

  lemma {:induction false} KraftOfZeros(lens: seq<nat>, m: nat)
    requires forall i :: 0 <= i < |lens| ==> lens[i] == 0
    ensures KraftSum(lens, m) == 0
  {
    if lens != [] { KraftOfZeros(lens[..|lens| - 1], m); }
  }

  /** The first m leaves have the lengths of the chain, and nothing else has a length. */
  ghost predicate Placed(lens: seq<nat>, leaves: seq<Leaf>, ch: Chain, m: nat) {
    && m <= |leaves|
    && (forall i :: 0 <= i < m ==> leaves[i].index < |lens| && lens[leaves[i].index] == LengthOf(ch, i))
    && (forall k {:trigger IsLeaf(leaves, m, k)} :: 0 <= k < |lens| && lens[k] > 0 ==> IsLeaf(leaves, m, k))
  }

  ghost predicate IsLeaf(leaves: seq<Leaf>, m: nat, k: nat) {
    exists i :: 0 <= i < m && i < |leaves| && leaves[i].index == k
  }

  ghost predicate DistinctSymbols(leaves: seq<Leaf>) {
    forall i, j :: 0 <= i < j < |leaves| ==> leaves[i].index != leaves[j].index
  }

  /** Without the last leaf's length, the leaves before it are in place. */
  lemma LastPlaced(lens: seq<nat>, leaves: seq<Leaf>, ch: Chain, m: nat) returns (k: nat)
    requires Placed(lens, leaves, ch, m) && DistinctSymbols(leaves) && m > 0
    ensures k < |lens| && lens[k] == LengthOf(ch, m - 1) && Placed(lens[k := 0], leaves, ch, m - 1)
  {
    k := leaves[m - 1].index;
    var less := lens[k := 0];
    forall j | 0 <= j < |less| && less[j] > 0 ensures IsLeaf(leaves, m - 1, j) {
      assert IsLeaf(leaves, m, j);
      var i :| 0 <= i < m && leaves[i].index == j;
    }
  }

  lemma {:induction false} KraftOfPlaced(lens: seq<nat>, leaves: seq<Leaf>, ch: Chain, m: nat, bits: nat)
    requires Placed(lens, leaves, ch, m) && DistinctSymbols(leaves) && Depth(ch) <= bits
    requires forall i :: 0 <= i < m ==> 1 <= LengthOf(ch, i)
    ensures KraftSum(lens, bits) == Share(bits, ch, m)
    decreases m
  {
    if m == 0 {
      forall k | 0 <= k < |lens| ensures lens[k] == 0 {
        assert !IsLeaf(leaves, m, k);
      }
      KraftOfZeros(lens, bits);
    } else {
      hide Placed, DistinctSymbols, KraftSum;
      var k := LastPlaced(lens, leaves, ch, m);
      var less := lens[k := 0];
      KraftOfPlaced(less, leaves, ch, m - 1, bits);
      KraftUpdate(less, k, lens[k], bits);
      assert less[k := lens[k]] == lens;
    }
  }

  /** The leaves stand for exactly the symbols that occur. */
  ghost predicate LeavesOf(leaves: seq<Leaf>, freqs: seq<nat>) {
    && (forall x :: x in leaves ==> x.index < |freqs| && x.weight == freqs[x.index] > 0)
    && (forall k {:trigger Leaf(freqs[k], k)} :: 0 <= k < |freqs| && freqs[k] > 0 ==> Leaf(freqs[k], k) in leaves)
  }

  ghost function Weights(leaves: seq<Leaf>): (w: seq<int>)
    ensures |w| == |leaves|
  {
    seq(|leaves|, i requires 0 <= i < |leaves| => leaves[i].weight)
  }

  lemma SortedLeaves(leaves: seq<Leaf>, freqs: seq<nat>)
    requires InOrder(leaves) && LeavesOf(leaves, freqs)
    ensures Sorted(Weights(leaves)) && DistinctSymbols(leaves)
  {
    forall i | 0 <= i < |leaves| ensures leaves[i].weight > 0 {
      assert leaves[i] in leaves;
    }
    forall i, j | 0 <= i < j < |leaves| ensures leaves[i].index != leaves[j].index {
      assert leaves[i] in leaves && leaves[j] in leaves;
      assert Before(leaves[i], leaves[j]);
    }
  }

  /** The lengths of a finished run, dealt out to the symbols. */
  lemma PlacedIsCode(lens: seq<nat>, freqs: seq<nat>, leaves: seq<Leaf>, m: nat)
    requires |lens| == |freqs| && InOrder(leaves) && LeavesOf(leaves, freqs)
    requires m > 0 && 2 <= |leaves| <= Pow2(m)
    requires Placed(lens, leaves, FinalChain(Weights(leaves), m), |leaves|)
    ensures LengthsFor(lens, freqs, m)
  {
    var ch, n := FinalChain(Weights(leaves), m), |leaves|;
    SortedLeaves(leaves, freqs);
    RunIsComplete(Weights(leaves), m);
    KraftOfPlaced(lens, leaves, ch, n, m);
    UsedIsKraftSum(lens, m);
    forall k | 0 <= k < |lens|
      ensures lens[k] <= m && (freqs[k] > 0 <==> lens[k] > 0)
    {
      if lens[k] > 0 {
        assert IsLeaf(leaves, n, k);
        var i :| 0 <= i < n && leaves[i].index == k;
        assert leaves[i] in leaves;
      }
      if freqs[k] > 0 {
        var i := PlaceOf(leaves, freqs, k);
      }
    }
    forall i, j | 0 <= i < |lens| && 0 <= j < |lens| && freqs[i] > freqs[j] > 0 ensures lens[i] <= lens[j] {
      var a := PlaceOf(leaves, freqs, i);
      var b := PlaceOf(leaves, freqs, j);
      assert Weights(leaves)[a] > Weights(leaves)[b];
    }
  }

  // ---------- the cheapest lengths

  ghost function OfLeaves(leaves: seq<Leaf>, lens: seq<nat>): (l: seq<nat>)
    requires forall i :: 0 <= i < |leaves| ==> leaves[i].index < |lens|
    ensures |l| == |leaves|
  {
    seq(|leaves|, i requires 0 <= i < |leaves| => lens[leaves[i].index])
  }

  lemma {:induction false} CostOfZeros(freqs: seq<nat>, lens: seq<nat>)
    requires |lens| == |freqs| && forall i :: 0 <= i < |freqs| ==> freqs[i] == 0
    ensures Cost(freqs, lens) == 0
  {
    if lens != [] { CostOfZeros(freqs[..|freqs| - 1], lens[..|lens| - 1]); }
  }

  lemma {:induction false} CostUpdate(freqs: seq<nat>, lens: seq<nat>, k: nat)
    requires k < |lens| == |freqs|
    ensures Cost(freqs, lens) == Cost(freqs[k := 0], lens) + freqs[k] * lens[k]
  {
    var n := |lens| - 1;
    if k < n {
      CostUpdate(freqs[..n], lens[..n], k);
      assert freqs[k := 0][..n] == freqs[..n][k := 0];
    } else {
      assert freqs[k := 0][..n] == freqs[..n];
    }
  }

  /** Without the last leaf. */
  lemma FewerLeaves(leaves: seq<Leaf>, freqs: seq<nat>)
    requires leaves != [] && LeavesOf(leaves, freqs) && DistinctSymbols(leaves)
    ensures var n, k := |leaves| - 1, leaves[|leaves| - 1].index;
      && k < |freqs| && leaves[n].weight == freqs[k]
      && LeavesOf(leaves[..n], freqs[k := 0]) && DistinctSymbols(leaves[..n])
  {
    var n, x := |leaves| - 1, leaves[|leaves| - 1];
    assert x in leaves;
    var k, less := x.index, leaves[..n];
    var f := freqs[k := 0];
    forall y | y in less ensures y.index < |f| && y.weight == f[y.index] > 0 {
      var i :| 0 <= i < n && leaves[i] == y;
      assert y in leaves && y.index != k;
    }
    forall j | 0 <= j < |f| && f[j] > 0 ensures Leaf(f[j], j) in less {
      assert j != k && Leaf(freqs[j], j) in leaves;
      var i :| 0 <= i < |leaves| && leaves[i] == Leaf(freqs[j], j);
      assert i < n && less[i] == leaves[i];
    }
  }

  /** Only the leaves cost anything. */
  lemma {:induction false} CostOfLeaves(leaves: seq<Leaf>, freqs: seq<nat>, lens: seq<nat>)
    requires |lens| == |freqs| && LeavesOf(leaves, freqs) && DistinctSymbols(leaves)
    ensures forall i :: 0 <= i < |leaves| ==> leaves[i].index < |lens|
    ensures Cost(Weights(leaves), OfLeaves(leaves, lens)) == Cost(freqs, lens)
    decreases |leaves|
  {
    forall i | 0 <= i < |leaves| ensures leaves[i].index < |lens| { assert leaves[i] in leaves; }
    if leaves == [] {
      forall k | 0 <= k < |freqs| ensures freqs[k] == 0 { assert Leaf(freqs[k], k) !in leaves; }
      CostOfZeros(freqs, lens);
    } else {
      var n := |leaves| - 1;
      var k := leaves[n].index;
      FewerLeaves(leaves, freqs);
      assert Weights(leaves)[..n] == Weights(leaves[..n]);
      assert OfLeaves(leaves, lens)[..n] == OfLeaves(leaves[..n], lens);
      hide LeavesOf, DistinctSymbols;
      CostOfLeaves(leaves[..n], freqs[k := 0], lens);
      CostUpdate(freqs, lens, k);
    }
  }

  /** The leaves' strings are some of all. */
  lemma {:induction false} KraftOfLeaves(leaves: seq<Leaf>, lens: seq<nat>, m: nat)
    requires DistinctSymbols(leaves)
    requires forall i :: 0 <= i < |leaves| ==> leaves[i].index < |lens| && 0 < lens[leaves[i].index] <= m
    ensures KraftSum(OfLeaves(leaves, lens), m) <= KraftSum(lens, m)
    decreases |leaves|
  {
    if leaves != [] {
      var n := |leaves| - 1;
      var k := leaves[n].index;
      var less := lens[k := 0];
      assert less[k := lens[k]] == lens;
      KraftUpdate(less, k, lens[k], m);
      assert OfLeaves(leaves, lens)[..n] == OfLeaves(leaves[..n], less);
      KraftOfLeaves(leaves[..n], less, m);
    }
  }

  /** What the items of package-merge weigh is what the lengths cost. */
  lemma {:induction false} CostOfTimes(w: seq<int>, l: seq<nat>, s: seq<Item>, m: nat)
    requires m <= |w| == |l| && forall i :: 0 <= i < m ==> l[i] == Times(s, i)
    ensures Cost(w[..m], l[..m]) == Bill(w, s, m)
  {
    if m > 0 {
      CostOfTimes(w, l, s, m - 1);
      assert w[..m][..m - 1] == w[..m - 1] && l[..m][..m - 1] == l[..m - 1];
    }
  }

  lemma PlacedByPackageMerge(lens: seq<nat>, leaves: seq<Leaf>, m: nat)
    requires m > 0 && 2 <= |leaves| <= Pow2(m) && Sorted(Weights(leaves))
    requires Placed(lens, leaves, FinalChain(Weights(leaves), m), |leaves|)
    ensures TimesAre(lens, leaves, m)
  {
    hide FinalChain, LengthOf, Times, Level, Sorted;
    var n, w := |leaves|, Weights(leaves);
    FinalIsPlain(w, m, 0);
    forall i | 0 <= i < n ensures LengthOf(FinalChain(w, m), i) == Times(Level(w, m - 1)[..2 * n - 2], i) {
      FinalIsPlain(w, m, i);
    }
  }

  lemma CostIsSum(lens: seq<nat>, freqs: seq<nat>, leaves: seq<Leaf>, m: nat)
    requires |lens| == |freqs| && m > 0 && LeavesOf(leaves, freqs) && DistinctSymbols(leaves)
    requires TimesAre(lens, leaves, m)
    ensures Cost(freqs, lens) == Sum(Level(Weights(leaves), m - 1)[..2 * |leaves| - 2])
  {
    hide LeavesOf, Weights, Level, Times, Cost, Bill, Sum;
    var n, w := |leaves|, Weights(leaves);
    var s := Level(w, m - 1)[..2 * n - 2];
    CostOfLeaves(leaves, freqs, lens);
    var l := OfLeaves(leaves, lens);
    CostOfTimes(w, l, s, n);
    assert w[..n] == w && l[..n] == l;
    BillIsSum(w, m - 1, 2 * n - 2);
  }

  lemma OtherFits(freqs: seq<nat>, leaves: seq<Leaf>, m: nat, other: seq<nat>)
    requires LeavesOf(leaves, freqs) && DistinctSymbols(leaves) && Suits(other, freqs, m)
    ensures forall i :: 0 <= i < |leaves| ==> leaves[i].index < |other|
    ensures forall i :: 0 <= i < |leaves| ==> 0 < OfLeaves(leaves, other)[i] <= m
    ensures KraftSum(OfLeaves(leaves, other), m) <= Pow2(m)
  {
    forall i | 0 <= i < |leaves| ensures leaves[i].index < |other| && 0 < other[leaves[i].index] <= m {
      assert leaves[i] in leaves;
    }
    hide LeavesOf, Used, KraftSum, Pow2, DistinctSymbols;
    KraftOfLeaves(leaves, other, m);
    UsedIsKraftSum(other, m);
  }

  lemma SumIsLeast(freqs: seq<nat>, leaves: seq<Leaf>, m: nat, other: seq<nat>)
    requires m > 0 && LeavesOf(leaves, freqs) && DistinctSymbols(leaves) && |leaves| >= 2
    requires Sorted(Weights(leaves)) && Suits(other, freqs, m)
    ensures 2 * |leaves| - 2 <= |Level(Weights(leaves), m - 1)|
    ensures Sum(Level(Weights(leaves), m - 1)[..2 * |leaves| - 2]) <= Cost(freqs, other)
  {
    assert |other| == |freqs|;
    hide *;
    OtherFits(freqs, leaves, m, other);
    CostOfLeaves(leaves, freqs, other);
    NoCodeIsCheaper(Weights(leaves), OfLeaves(leaves, other), m);
  }

  /** Lengths of package-merge cost no more than any other. */
  lemma PackageMergeIsOptimal(lens: seq<nat>, freqs: seq<nat>, leaves: seq<Leaf>, m: nat)
    requires |lens| == |freqs| && m > 0 && InOrder(leaves) && LeavesOf(leaves, freqs) && TimesAre(lens, leaves, m)
    ensures Optimal(lens, freqs, m)
  {
    assert |leaves| >= 2;
    hide InOrder, LeavesOf, TimesAre, Cost, Suits, DistinctSymbols, Sorted;
    SortedLeaves(leaves, freqs);
    CostIsSum(lens, freqs, leaves, m);
    forall other: seq<nat> | Suits(other, freqs, m) ensures Cost(freqs, lens) <= Cost(freqs, other) {
      SumIsLeast(freqs, leaves, m, other);
    }
  }

  lemma PlaceOf(leaves: seq<Leaf>, freqs: seq<nat>, k: nat) returns (i: nat)
    requires LeavesOf(leaves, freqs) && k < |freqs| && freqs[k] > 0
    ensures i < |leaves| && leaves[i] == Leaf(freqs[k], k)
  {
    assert Leaf(freqs[k], k) in leaves;
    i :| 0 <= i < |leaves| && leaves[i] == Leaf(freqs[k], k);
  }

  /** Two codes of one bit are complete. */
  lemma TwoOnes(lens: seq<nat>, a: nat, b: nat, m: nat)
    requires a < |lens| && b < |lens| && a != b && m > 0
    requires forall k :: 0 <= k < |lens| ==> lens[k] == if k == a || k == b then 1 else 0
    ensures Used(lens, m) == Pow2(m) && Bounded(lens, m)
  {
    var none := seq(|lens|, _ => 0);
    KraftOfZeros(none, m);
    KraftUpdate(none, a, 1, m);
    KraftUpdate(none[a := 1], b, 1, m);
    assert none[a := 1][b := 1] == lens;
    UsedIsKraftSum(lens, m);
  }

  method PutLeaf(leaves: array<Leaf>, n: nat, leaf: Leaf)
    requires n < leaves.Length
    modifies leaves
    ensures leaves[..n + 1] == old(leaves[..n]) + [leaf]
  {
    leaves[n] := leaf;
  }

  /** The cast from unsigned to int, for a number of 32 bits. */
  function AsInt(f: nat): (i: int32)
    requires f < 0x1_0000_0000
  {
    if f < 0x8000_0000 then f else f - 0x1_0000_0000
  }

  /** What the weights of the source's ints ask of the frequencies: that the casts keep them, and
      that no sum of two lookaheads leaves 32 bits. With two symbols nothing is ever added. */
  predicate FrequenciesFit(freqs: seq<nat>) {
    forall i :: 0 <= i < |freqs| ==> FitsAmong(freqs[i], Occurring(freqs))
  }

  predicate FitsAmong(f: nat, n: nat) {
    f < 0x8000_0000 && (n > 2 ==> f * (4 * n - 4) < 0x8000_0000)
  }

  lemma {:induction false} FewOccur(freqs: seq<nat>, k: nat)
    requires k <= |freqs|
    ensures Occurring(freqs[..k]) <= Occurring(freqs) <= |freqs|
    decreases |freqs|
  {
    if k < |freqs| {
      var rest := freqs[..|freqs| - 1];
      FewOccur(rest, k);
      assert rest[..k] == freqs[..k];
    } else if freqs != [] {
      FewOccur(freqs[..|freqs| - 1], |freqs| - 1);
      assert freqs[..k] == freqs && freqs[..|freqs| - 1][..|freqs| - 1] == freqs[..|freqs| - 1];
    }
  }

  lemma FewerFit(f: nat, few: nat, all: nat)
    requires few <= all && FitsAmong(f, all)
    ensures FitsAmong(f, few)
  {
    if few > 2 { MulLe(f, f, 4 * few - 4, 4 * all - 4); }
  }

  lemma FitsPrefix(freqs: seq<nat>, k: nat)
    requires k <= |freqs| && FrequenciesFit(freqs)
    ensures FrequenciesFit(freqs[..k])
  {
    hide Occurring, FitsAmong;
    FewOccur(freqs, k);
    forall i | 0 <= i < k ensures FitsAmong(freqs[i], Occurring(freqs[..k])) {
      FewerFit(freqs[i], Occurring(freqs[..k]), Occurring(freqs));
    }
  }

  /** The counts of a block of at most 2^18 symbols, and an end code, fit with much to spare. */
  lemma CountsFit(freqs: seq<nat>)
    requires |freqs| <= 288 && forall i :: 0 <= i < |freqs| ==> freqs[i] <= 0x4_0001
    ensures FrequenciesFit(freqs)
  {
    hide Occurring, FitsAmong;
    FewOccur(freqs, |freqs|);
    forall i | 0 <= i < |freqs| ensures FitsAmong(freqs[i], Occurring(freqs)) {
      CountFits(freqs[i], Occurring(freqs));
    }
  }

  lemma CountFits(f: nat, n: nat)
    requires f <= 0x4_0001 && n <= 288
    ensures FitsAmong(f, n)
  {
    if n > 2 { MulLe(f, 0x4_0001, 4 * n - 4, 1148); }
  }

  /** Without that the order of the lengths can be lost: cast to int, the greatest frequency of 2^31, 1
      and 1 becomes the lightest leaf, and its symbol gets two bits while symbol 2 gets one. */
  lemma CastLosesOrder()
    ensures !FrequenciesFit([0x8000_0000, 1, 1])
    ensures InOrder([Leaf(AsInt(0x8000_0000), 0), Leaf(AsInt(1), 1), Leaf(AsInt(1), 2)])
    ensures var ch := FinalChain([AsInt(0x8000_0000), AsInt(1), AsInt(1)], 2);
      LengthOf(ch, 0) == 2 && LengthOf(ch, 1) == 2 && LengthOf(ch, 2) == 1
  {
    assert [0x8000_0000, 1, 1][0] == 0x8000_0000;
    var w: seq<int> := [AsInt(0x8000_0000), AsInt(1), AsInt(1)];
    assert w[0] == -0x8000_0000 && w[1] == w[2] == 1 && |w| == 3;
    CastRun(w);
  }

  lemma CastRun(w: seq<int>)
    requires |w| == 3 && w[0] == -0x8000_0000 && w[1] == w[2] == 1
    ensures FinalChain(w, 2) == Node(1, 3, Node(1, 2, Nil))
  {
    var s := Init(w, 2);
    assert Run(w, 2, 2) == s;
    var a := Head(w, s, 1);
    assert TakesPackage(w, s, 1) && a.c1[1] == Node(w[0] + 1, 2, Node(1, 2, Nil));
    var b := Step(w, a, 0, false);
    assert b.c1[0] == Node(1, 3, Nil) && b.c0[0] == Node(1, 2, Nil);
    var c := Step(w, b, 0, false);
    assert c.c1 == b.c1 && c.c0 == b.c0 && c.c1[1] == a.c1[1];
    assert Step(w, s, 1, false) == c;
    assert Run(w, 2, 3) == c;
    assert Run(w, 2, 4) == Step(w, c, 1, true) == Head(w, c, 1);
    assert !TakesPackage(w, c, 1);
  }

  /** Collects the symbols that occur, in order. */
  method CollectLeaves(frequencies: array<nat>) returns (leaves: array<Leaf>, numpresent: nat)
    requires forall i :: 0 <= i < frequencies.Length ==> frequencies[i] < 0x8000_0000
    ensures fresh(leaves) && numpresent <= leaves.Length == frequencies.Length
    ensures numpresent == Occurring(frequencies[..])
    ensures Collected(leaves[..numpresent], frequencies[..])
  {
    var numcodes := frequencies.Length;
    leaves := new Leaf[numcodes](_ => Leaf(0, 0));
    numpresent := 0;
    ghost var freqs := frequencies[..];
    hide Occurring, Collected;
    NothingCollected(freqs);
    ghost var done: seq<Leaf> := [];
    for i := 0 to numcodes
      invariant numpresent <= i && numpresent == |done| == Occurring(freqs[..i]) && leaves[..numpresent] == done
      invariant Collected(done, freqs[..i])
    {
      OneMoreLeaf(done, freqs, i);
      numpresent, done := CollectLeaf(leaves, numpresent, frequencies[i], i, done);
    }
    assert freqs[..numcodes] == freqs;
  }

  method CollectLeaf(leaves: array<Leaf>, n: nat, frequency: nat, i: nat, ghost done: seq<Leaf>)
    returns (numpresent: nat, ghost now: seq<Leaf>)
    requires n < leaves.Length && frequency < 0x8000_0000 && n == |done| && leaves[..n] == done
    modifies leaves
    ensures now == if frequency > 0 then done + [Leaf(frequency, i)] else done
    ensures numpresent == |now| <= leaves.Length && leaves[..numpresent] == now
  {
    numpresent, now := n, done;
    if frequency > 0 {
      PutLeaf(leaves, n, Leaf(AsInt(frequency), i));
      numpresent := n + 1;
      now := done + [Leaf(frequency, i)];
    }
  }

  ghost predicate Collected(leaves: seq<Leaf>, freqs: seq<nat>) {
    && LeavesOf(leaves, freqs)
    && forall a, b :: 0 <= a < b < |leaves| ==> leaves[a].index < leaves[b].index
  }

  lemma NothingCollected(freqs: seq<nat>)
    ensures Collected([], freqs[..0]) && Occurring(freqs[..0]) == 0
  {
  }

  lemma OccurringStep(freqs: seq<nat>, i: nat)
    requires i < |freqs|
    ensures Occurring(freqs[..i + 1]) == Occurring(freqs[..i]) + (if freqs[i] > 0 then 1 else 0)
  {
    assert freqs[..i + 1][..i] == freqs[..i];
  }

  lemma OneMoreLeaf(was: seq<Leaf>, freqs: seq<nat>, i: nat)
    requires i < |freqs| && Collected(was, freqs[..i])
    ensures Collected(if freqs[i] > 0 then was + [Leaf(freqs[i], i)] else was, freqs[..i + 1])
    ensures Occurring(freqs[..i + 1]) == Occurring(freqs[..i]) + (if freqs[i] > 0 then 1 else 0)
  {
    OccurringStep(freqs, i);
    var s := freqs[..i];
    assert freqs[..i + 1] == s + [freqs[i]];
    hide Occurring, Collected;
    if freqs[i] > 0 { OneLeafMore(was, s, freqs[i]); } else { NoLeafMore(was, s); }
  }

  lemma OneLeafMore(was: seq<Leaf>, s: seq<nat>, f: nat)
    requires Collected(was, s) && f > 0
    ensures Collected(was + [Leaf(f, |s|)], s + [f])
  {
    var now := was + [Leaf(f, |s|)];
    forall k | 0 <= k < |s| + 1 && (s + [f])[k] > 0 ensures Leaf((s + [f])[k], k) in now {
      if k < |s| { assert Leaf(s[k], k) in was; }
    }
    forall a | 0 <= a < |was| ensures was[a].index < |s| {
      assert was[a] in was;
    }
  }

  lemma NoLeafMore(was: seq<Leaf>, s: seq<nat>)
    requires Collected(was, s)
    ensures Collected(was, s + [0])
  {
    forall k | 0 <= k < |s| + 1 && (s + [0])[k] > 0 ensures Leaf((s + [0])[k], k) in was {
      assert k < |s| && (s + [0])[k] == s[k];
    }
  }

  ghost predicate WithinLeaves(ch: Chain, n: nat) {
    ch.Nil? || (ch.index <= n && WithinLeaves(ch.tail, n))
  }

  lemma {:induction false} RealWithinLeaves(n: nat, c: nat, ch: Chain)
    requires Real(n, c, ch)
    ensures WithinLeaves(ch, n)
    decreases c
  {
    if ch.tail.Node? { RealWithinLeaves(n, c - 1, ch.tail); }
  }

  /** The lengths so far: what is left of the chain is still to be added. */
  ghost predicate Added(lens: seq<nat>, leaves: seq<Leaf>, ch: Chain, rest: Chain) {
    && (forall i :: 0 <= i < |leaves| ==>
          leaves[i].index < |lens| && lens[leaves[i].index] + LengthOf(rest, i) == LengthOf(ch, i))
    && (forall k {:trigger IsLeaf(leaves, |leaves|, k)} :: 0 <= k < |lens| && lens[k] > 0 ==>
      IsLeaf(leaves, |leaves|, k))
  }

  /** Adds one to the lengths of the first `index` leaves. */
  method AddList(lengths: array<nat>, leaves: array<Leaf>, index: nat, ghost n: nat, ghost ch: Chain, ghost rest: Chain)
    requires index <= n <= leaves.Length && DistinctSymbols(leaves[..n])
    requires rest.Node? && rest.index == index && Added(lengths[..], leaves[..n], ch, rest)
    modifies lengths
    ensures Added(lengths[..], leaves[..n], ch, rest.tail)
  {
    ghost var was := lengths[..];
    ghost var ls := leaves[..n];
    for i := 0 to index
      invariant forall j :: 0 <= j < n ==> lengths[ls[j].index] == was[ls[j].index] + (if j < i then 1 else 0)
      invariant forall k :: 0 <= k < lengths.Length && lengths[k] > 0 ==> IsLeaf(ls, n, k)
    {
      var k := leaves[i].index;
      assert ls[i] == leaves[i];
      assert IsLeaf(ls, n, k);
      lengths[k] := lengths[k] + 1;
    }
  }

  /** Walks the final chain. */
  method AddLengths(memory: array<BPMNode>, start: int, lengths: array<nat>, leaves: array<Leaf>, ghost n: nat,
                    ghost ch: Chain)
    requires Spells(memory[..], start, ch) && WithinLeaves(ch, n) && n <= leaves.Length
    requires forall k :: 0 <= k < lengths.Length ==> lengths[k] == 0
    requires DistinctSymbols(leaves[..n]) && forall i :: 0 <= i < n ==> leaves[i].index < lengths.Length
    modifies lengths
    ensures Placed(lengths[..], leaves[..n], ch, n)
  {
    var node := start;
    ghost var rest := ch;
    while node != NULL
      invariant Spells(memory[..], node, rest) && WithinLeaves(rest, n)
      invariant Added(lengths[..], leaves[..n], ch, rest)
      decreases rest
    {
      AddList(lengths, leaves, memory[node].index, n, ch, rest);
      node := memory[node].tail;
      rest := rest.tail;
    }
  }

  /** The symbol that gets a code beside the one that occurs, or beside symbol 0. */
  function SecondSymbol(first: nat): nat {
    if first == 0 then 1 else 0
  }

  /** Where fewer than two symbols occur two lengths are written nevertheless, and both are inside
      the array exactly if there is not just one symbol. */
  lemma SecondInside(freqs: seq<nat>, first: nat)
    requires first < |freqs|
    ensures |freqs| != 1 ==> SecondSymbol(first) < |freqs|
    ensures |freqs| == 1 ==> SecondSymbol(first) >= |freqs|
  {
  }

  /** lodepng_huffman_code_lengths. An array of one symbol is refused: SecondInside says why. */
  method HuffmanCodeLengths(lengths: array<nat>, frequencies: array<nat>, maxbitlen: nat) returns (error: nat)
    requires lengths.Length == frequencies.Length != 1 && lengths != frequencies
    requires FrequenciesFit(frequencies[..])
    modifies lengths
    ensures error == if lengths.Length == 0 || Pow2(maxbitlen) < lengths.Length then 80 else 0
    ensures error == 0 ==> LengthsFor(lengths[..], frequencies[..], maxbitlen)
    ensures error == 0 ==> Optimal(lengths[..], frequencies[..], maxbitlen)
    ensures error == 0 ==> Determined(lengths[..], frequencies[..], maxbitlen)
    ensures frequencies[..] == old(frequencies[..])
  {
    var numcodes := lengths.Length;
    if numcodes == 0 { return 80; }
    if Pow2(maxbitlen) < numcodes { return 80; }
    assert maxbitlen > 0 by { assert Pow2(0) == 1; }
    var leaves, numpresent := CollectLeaves(frequencies);
    ghost var freqs := frequencies[..];
    for i := 0 to numcodes
      invariant forall k :: 0 <= k < i ==> lengths[k] == 0
      invariant frequencies[..] == freqs && Collected(leaves[..numpresent], freqs)
    {
      lengths[i] := 0;
    }
    if numpresent == 0 {
      lengths[0], lengths[1] := 1, 1;
      NoLeaves(lengths[..], freqs, leaves[..0], maxbitlen);
    } else if numpresent == 1 {
      assert leaves[0] in leaves[..numpresent];
      var other := SecondSymbol(leaves[0].index);
      lengths[leaves[0].index] := 1;
      lengths[other] := 1;
      OneLeaf(lengths[..], freqs, leaves[..1], other, maxbitlen);
    } else {
      PackageMergeLengths(lengths, leaves, numpresent, maxbitlen, freqs);
    }
    return 0;
  }

  lemma NoLeaves(lens: seq<nat>, freqs: seq<nat>, leaves: seq<Leaf>, m: nat)
    requires |lens| == |freqs| >= 2 && LeavesOf(leaves, freqs) && leaves == [] && Occurring(freqs) == 0 && m > 0
    requires forall k :: 0 <= k < |lens| ==> lens[k] == if k < 2 then 1 else 0
    ensures LengthsFor(lens, freqs, m) && Optimal(lens, freqs, m) && TwoOnly(lens, freqs)
  {
    TwoOnes(lens, 0, 1, m);
    forall k | 0 <= k < |freqs| ensures freqs[k] == 0 {
      assert Leaf(freqs[k], k) !in leaves;
    }
    forall other: seq<nat> | Suits(other, freqs, m) ensures Cost(freqs, lens) <= Cost(freqs, other) {
      CostOfZeros(freqs, lens);
      CostOfZeros(freqs, other);
    }
  }

  lemma OneLeaf(lens: seq<nat>, freqs: seq<nat>, leaves: seq<Leaf>, other: nat, m: nat)
    requires |lens| == |freqs| && LeavesOf(leaves, freqs) && |leaves| == 1 && Occurring(freqs) == 1 && m > 0
    requires leaves[0].index < |lens| && other < |lens| && other != leaves[0].index
    requires forall k :: 0 <= k < |lens| ==> lens[k] == if k == leaves[0].index || k == other then 1 else 0
    requires other == if leaves[0].index == 0 then 1 else 0
    ensures LengthsFor(lens, freqs, m) && Optimal(lens, freqs, m) && TwoOnly(lens, freqs)
  {
    TwoOnes(lens, leaves[0].index, other, m);
    forall k | 0 <= k < |freqs| && freqs[k] > 0 ensures k == leaves[0].index {
      assert Leaf(freqs[k], k) in leaves;
    }
    forall o: seq<nat> | Suits(o, freqs, m) ensures Cost(freqs, lens) <= Cost(freqs, o) {
      OneLeafCosts(lens, freqs, leaves);
      OneLeafCosts(o, freqs, leaves);
    }
  }

  lemma OneLeafCosts(lens: seq<nat>, freqs: seq<nat>, leaves: seq<Leaf>)
    requires |lens| == |freqs| && LeavesOf(leaves, freqs) && |leaves| == 1 && leaves[0].index < |lens|
    ensures Cost(freqs, lens) == leaves[0].weight * lens[leaves[0].index]
    ensures leaves[0].weight > 0 && freqs[leaves[0].index] > 0
    ensures lens[leaves[0].index] > 0 ==> Cost(freqs, lens) >= leaves[0].weight
  {
    assert leaves[0] in leaves;
    CostOfLeaves(leaves, freqs, lens);
    assert Weights(leaves)[..0] == [] && OfLeaves(leaves, lens)[..0] == [];
    if lens[leaves[0].index] > 0 { MulPos(lens[leaves[0].index], leaves[0].weight); }
  }

  /** The general case: sort, run boundary package-merge, and read off the lengths. */
  method PackageMergeLengths(lengths: array<nat>, leaves: array<Leaf>, numpresent: nat, maxbitlen: nat,
                             ghost freqs: seq<nat>)
    requires 2 <= numpresent <= leaves.Length && lengths.Length == |freqs| <= Pow2(maxbitlen) && maxbitlen > 0
    requires numpresent <= |freqs|
    requires Collected(leaves[..numpresent], freqs) && numpresent == Occurring(freqs) && FrequenciesFit(freqs)
    requires forall k :: 0 <= k < lengths.Length ==> lengths[k] == 0
    modifies lengths, leaves
    ensures LengthsFor(lengths[..], freqs, maxbitlen) && Optimal(lengths[..], freqs, maxbitlen)
    ensures ByPackageMerge(lengths[..], freqs, maxbitlen)
  {
    hide InOrder, Sorted, LengthsFor, Optimal, ByPackageMerge, FinalChain, Init, BPMLists.Valid, LeavesOf,
         FrequenciesFit, Occurring, WeightsFit;
    Sort(leaves, numpresent);
    ghost var ls := leaves[..numpresent];
    SortKeepsLeaves(old(leaves[..numpresent]), ls, freqs);
    ghost var w := Weights(ls);
    SortedLeaves(ls, freqs);
    FittingLeaves(ls, freqs);
    var lists := new BPMLists(maxbitlen, leaves[0], leaves[1], w);
    RunLists(lists, leaves, numpresent, maxbitlen, w);
    assert leaves[..numpresent] == ls;
    ReadLengths(lists, lengths, leaves, numpresent, maxbitlen, freqs);
  }

  /** The lengths that the chains of a finished run stand for. */
  method ReadLengths(lists: BPMLists, lengths: array<nat>, leaves: array<Leaf>, ghost n: nat, maxbitlen: nat,
                     ghost freqs: seq<nat>)
    requires 2 <= n <= leaves.Length && n <= Pow2(maxbitlen) && maxbitlen > 0 && lengths.Length == |freqs|
    requires InOrder(leaves[..n]) && LeavesOf(leaves[..n], freqs)
    requires lists.Valid() && lists.listsize == maxbitlen
    requires lists.s.c1[maxbitlen - 1] == FinalChain(Weights(leaves[..n]), maxbitlen)
    requires forall k :: 0 <= k < lengths.Length ==> lengths[k] == 0
    modifies lengths
    ensures LengthsFor(lengths[..], freqs, maxbitlen) && Optimal(lengths[..], freqs, maxbitlen)
    ensures ByPackageMerge(lengths[..], freqs, maxbitlen)
  {
    ghost var ls := leaves[..n];
    ghost var ch := FinalChain(Weights(ls), maxbitlen);
    SortedLeaves(ls, freqs);
    FinalChainIsReal(Weights(ls), maxbitlen);
    RealWithinLeaves(n, maxbitlen - 1, ch);
    var start := lists.chains1[maxbitlen - 1];
    lists.HeadCell(maxbitlen - 1);
    forall i | 0 <= i < n ensures leaves[i].index < lengths.Length {
      assert ls[i] in ls;
    }
    AddLengths(lists.memory, start, lengths, leaves, n, ch);
    Finished(lengths[..], freqs, ls, maxbitlen);
  }

  lemma Finished(lens: seq<nat>, freqs: seq<nat>, leaves: seq<Leaf>, m: nat)
    requires |lens| == |freqs| && InOrder(leaves) && LeavesOf(leaves, freqs)
    requires m > 0 && 2 <= |leaves| <= Pow2(m)
    requires Placed(lens, leaves, FinalChain(Weights(leaves), m), |leaves|)
    ensures LengthsFor(lens, freqs, m) && Optimal(lens, freqs, m) && ByPackageMerge(lens, freqs, m)
  {
    hide InOrder, LeavesOf, Placed, FinalChain, LengthsFor, Optimal, TimesAre, Sorted, DistinctSymbols, Pow2;
    SortedLeaves(leaves, freqs);
    PlacedIsCode(lens, freqs, leaves, m);
    PlacedByPackageMerge(lens, leaves, m);
    PackageMergeIsOptimal(lens, freqs, leaves, m);
  }

  /** Frequencies that fit make weights that fit. */
  lemma FittingLeaves(leaves: seq<Leaf>, freqs: seq<nat>)
    requires LeavesOf(leaves, freqs) && FrequenciesFit(freqs) && |leaves| == Occurring(freqs) >= 2
    ensures forall i :: 0 <= i < |leaves| ==> 0 < leaves[i].weight < 0x8000_0000
    ensures |leaves| > 2 ==> WeightsFit(Weights(leaves))
  {
    forall i | 0 <= i < |leaves|
      ensures 0 < leaves[i].weight < 0x8000_0000
      ensures |leaves| > 2 ==> leaves[i].weight * (4 * |leaves| - 4) < 0x8000_0000
    {
      assert leaves[i] in leaves;
    }
  }

  lemma SortKeepsLeaves(s: seq<Leaf>, t: seq<Leaf>, freqs: seq<nat>)
    requires LeavesOf(s, freqs) && multiset(s) == multiset(t)
    ensures LeavesOf(t, freqs)
  {
    SameElements(s, t);
  }

  lemma RunStep(w: seq<int>, lists: nat, k: nat)
    requires |w| >= 2 && lists > 0 && k >= 2
    ensures Run(w, lists, k + 1) == Step(w, Run(w, lists, k), lists - 1, k + 1 >= 2 * |w| - 2)
  {
  }

  /** Each step adds one item to the last list, and 2n - 2 items are needed. */
  method RunLists(lists: BPMLists, leaves: array<Leaf>, numpresent: nat, maxbitlen: nat, ghost w: seq<int>)
    requires 2 <= numpresent == |w| <= leaves.Length
    requires forall i :: 0 <= i < numpresent ==> leaves[i].weight == w[i]
    requires lists.Valid() && lists.listsize == maxbitlen > 0 && lists.s == Init(w, maxbitlen)
    requires Sorted(w) && (numpresent > 2 ==> WeightsFit(w))
    modifies lists.Frame()
    ensures lists.Valid() && lists.s.c1[maxbitlen - 1] == FinalChain(w, maxbitlen)
  {
    hide BPMLists.Valid, Init, Step;
    var i := 2;
    while i != 2 * numpresent - 2
      invariant 2 <= i <= 2 * numpresent - 2
      invariant lists.Valid() && lists.s == Run(w, maxbitlen, i)
      invariant forall i :: 0 <= i < numpresent ==> leaves[i].weight == w[i]
    {
      RunStep(w, maxbitlen, i);
      RunOk(w, maxbitlen, i);
      RunWeights(w, maxbitlen, i);
      lists.BoundaryPM(leaves, numpresent, maxbitlen - 1, i, w);
      i := i + 1;
    }
  }
}
