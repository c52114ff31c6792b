/** Boundary package-merge on values: which code lengths the lookahead chains stand for, and why
    they are a complete length-limited code. */
module PackageMerge {
  import opened Bits
  import opened Canonical

  /** A chain of the algorithm. The node's `index` is how many leaves its list has taken, and the
      tail is the chain of the list below that holds the items its packages are made of. */
  datatype Chain = Nil | Node(weight: int, index: nat, tail: Chain)

  /** Two lookahead chains for each list. `asked` counts the items asked of each list. */
  datatype Lists = Lists(c0: seq<Chain>, c1: seq<Chain>, asked: seq<nat>)

  ghost predicate Shaped(s: Lists) {
    |s.c0| == |s.c1| == |s.asked| && forall c :: 0 <= c < |s.c0| ==> s.c0[c].Node? && s.c1[c].Node?
  }

  /** List c with a new head on its second side. */
  function Pushed(s: Lists, c: nat, head: Chain): (r: Lists)
    requires Shaped(s) && c < |s.c0| && head.Node?
    ensures Shaped(r) && |r.c0| == |s.c0|
  {
    Lists(s.c0[c := s.c1[c]], s.c1[c := head], s.asked[c := s.asked[c] + 1])
  }

  /** The next item of list c is a package: the two items at hand below are lighter than the next
      leaf, or there is no leaf left. */
  predicate TakesPackage(w: seq<int>, s: Lists, c: nat)
    requires Shaped(s) && c < |s.c0|
  {
    c > 0 && !(s.c1[c].index < |w| && s.c0[c - 1].weight + s.c1[c - 1].weight > w[s.c1[c].index])
  }

  /** The lists with the next item of list c taken, before the lists below are replenished. */
  function Head(w: seq<int>, s: Lists, c: nat): (r: Lists)
    requires Shaped(s) && c < |s.c0|
    ensures Shaped(r) && |r.c0| == |s.c0|
  {
    var k := s.c1[c].index;
    if TakesPackage(w, s, c) then
      Pushed(s, c, Node(s.c0[c - 1].weight + s.c1[c - 1].weight, k, s.c1[c - 1]))
    else if k >= |w| then s.(asked := s.asked[c := s.asked[c] + 1])
    else Pushed(s, c, Node(w[k], k + 1, if c == 0 then Nil else s.c1[c].tail))
  }

  /** One boundary step on list c; `last` says that the step completes the last list. */
  function Step(w: seq<int>, s: Lists, c: nat, last: bool): (r: Lists)
    requires Shaped(s) && c < |s.c0|
    ensures Shaped(r) && |r.c0| == |s.c0|
    decreases c
  {
    var t := Head(w, s, c);
    if TakesPackage(w, s, c) && !last then Step(w, Step(w, t, c - 1, last), c - 1, last) else t
  }

  /** A step leaves the lists above alone. */
  lemma {:induction false} StepFrame(w: seq<int>, s: Lists, c: nat, last: bool, j: nat)
    requires Shaped(s) && c < j < |s.c0|
    ensures var r := Step(w, s, c, last);
      r.c0[j] == s.c0[j] && r.c1[j] == s.c1[j] && r.asked[j] == s.asked[j]
    decreases c
  {
    if TakesPackage(w, s, c) && !last {
      var t := Head(w, s, c);
      StepFrame(w, t, c - 1, last, j);
      StepFrame(w, Step(w, t, c - 1, last), c - 1, last, j);
    }
  }

  /** How many items of list c a chain stands for: leaves, and packages of two items each. */
  function Items(c: nat, ch: Chain): nat
    decreases c
  {
    if ch.Nil? then 0 else if c == 0 then ch.index else ch.index + Items(c - 1, ch.tail) / 2
  }

  function Depth(ch: Chain): nat {
    if ch.Nil? then 0 else 1 + Depth(ch.tail)
  }

  /** A chain that describes a possible selection of items. */
  ghost predicate Real(n: nat, c: nat, ch: Chain)
    decreases c
  {
    ch.Node? && ch.index <= n
    && (c == 0 ==> ch.tail.Nil?)
    && (c > 0 && ch.tail.Node? ==>
          Real(n, c - 1, ch.tail) && ch.tail.index <= ch.index && Items(c - 1, ch.tail) % 2 == 0)
  }

  /** How many items list c has at all. */
  function Capacity(n: nat, c: nat): nat {
    if c == 0 then n else n + Capacity(n, c - 1) / 2
  }

  ghost predicate Sorted(w: seq<int>) {
    && (forall i :: 0 <= i < |w| ==> w[i] > 0)
    && (forall i, j :: 0 <= i <= j < |w| ==> w[i] <= w[j])
  }

  /** What holds of one list between steps. Lists that have been asked for more items than they
      have hold bogus packages; these outweigh every leaf. */
  ghost predicate ListOk(w: seq<int>, s: Lists, c: nat)
    requires Shaped(s) && c < |s.c0| && |w| >= 2
  {
    var n, x, y, k := |w|, s.c0[c], s.c1[c], s.asked[c];
    && 0 < x.weight <= y.weight
    && 1 <= y.index <= n && y.index <= k
    && Depth(x) <= c + 1 && Depth(y) <= c + 1
    && w[y.index - 1] <= y.weight
    && (y.index < n ==> y.weight <= w[y.index])
    && (k <= Capacity(n, c) ==> Real(n, c, y) && Items(c, y) == k)
    && (k > Capacity(n, c) ==> y.index == n && x.weight + y.weight > w[n - 1])
  }

  /** What ties list c to the list below: the two items of its next package are at hand. */
  ghost predicate PairOk(s: Lists, c: nat)
    requires Shaped(s) && 0 < c < |s.c0|
  {
    && s.asked[c - 1] == 2 * (s.asked[c] - s.c1[c].index + 1)
    && s.c1[c].weight <= s.c0[c - 1].weight + s.c1[c - 1].weight
  }

  ghost predicate AllOk(w: seq<int>, s: Lists, c: nat) {
    && Shaped(s) && c < |s.c0| && |w| >= 2
    && (forall j :: 0 <= j <= c ==> ListOk(w, s, j))
    && (forall j :: 0 < j <= c ==> PairOk(s, j))
  }

  lemma {:induction false} RealWithinCapacity(n: nat, c: nat, ch: Chain)
    requires Real(n, c, ch)
    ensures Items(c, ch) <= Capacity(n, c)
    decreases c
  {
    if c > 0 && ch.tail.Node? { RealWithinCapacity(n, c - 1, ch.tail); }
  }

  lemma StepLeaf(w: seq<int>, s: Lists, c: nat)
    requires Sorted(w) && AllOk(w, s, c) && c > 0 && !TakesPackage(w, s, c)
    ensures ListOk(w, Head(w, s, c), c) && PairOk(Head(w, s, c), c)
  {
    var n, y, k := |w|, s.c1[c], s.c1[c].index;
    var z := Node(w[k], k + 1, y.tail);
    assert ListOk(w, s, c) && PairOk(s, c) && ListOk(w, s, c - 1);
    assert Head(w, s, c) == Pushed(s, c, z);
    if s.asked[c] <= Capacity(n, c) {
      assert Real(n, c, z) && Items(c, z) == Items(c, y) + 1;
      if y.tail.Node? { RealWithinCapacity(n, c - 1, y.tail); }
    }
    assert Depth(z) == Depth(y);
  }

  lemma StepPackage(w: seq<int>, s: Lists, c: nat)
    requires Sorted(w) && AllOk(w, s, c) && TakesPackage(w, s, c)
    ensures ListOk(w, Head(w, s, c), c)
    ensures Head(w, s, c).c1[c].weight == s.c0[c - 1].weight + s.c1[c - 1].weight
    ensures Head(w, s, c).c1[c].index == s.c1[c].index
  {
    assert ListOk(w, s, c) && PairOk(s, c) && ListOk(w, s, c - 1);
    PackageCounts(w, s, c);
    hide Real, Items, Capacity;
  }

  lemma PackageIsReal(n: nat, c: nat, y: Chain, below: Chain, weight: int)
    requires c > 0 && Real(n, c, y) && Real(n, c - 1, below) && below.index <= y.index
    requires Items(c - 1, below) == 2 * (Items(c, y) - y.index + 1)
    ensures var z := Node(weight, y.index, below); Real(n, c, z) && Items(c, z) == Items(c, y) + 1
  {
  }

  /** A selection of as many items as there are has taken all leaves. */
  lemma AllTaken(n: nat, c: nat, y: Chain)
    requires Real(n, c, y) && Items(c, y) == Capacity(n, c)
    ensures y.index == n
  {
    if c > 0 && y.tail.Node? { RealWithinCapacity(n, c - 1, y.tail); }
  }

  /** Up to the capacity a new package is a selection of that many items. */
  lemma PackageCounts(w: seq<int>, s: Lists, c: nat)
    requires Sorted(w) && AllOk(w, s, c) && TakesPackage(w, s, c)
    ensures var n, k, y, z := |w|, s.asked[c], s.c1[c], Head(w, s, c).c1[c];
      && (k < Capacity(n, c) ==> Real(n, c, z) && Items(c, z) == k + 1)
      && (k >= Capacity(n, c) ==> z.index == n && y.weight + z.weight > w[n - 1])
  {
    var n, y, below := |w|, s.c1[c], s.c1[c - 1];
    assert ListOk(w, s, c) && PairOk(s, c) && ListOk(w, s, c - 1);
    var k, m := s.asked[c], s.asked[c - 1];
    if k < Capacity(n, c) && m <= Capacity(n, c - 1) {
      assert w[below.index - 1] < s.c0[c - 1].weight + below.weight;
      assert below.index <= y.index;
      hide Real, Items, Capacity;
      PackageIsReal(n, c, y, below, s.c0[c - 1].weight + below.weight);
    } else if k == Capacity(n, c) {
      AllTaken(n, c, y);
    }
  }

  /** A step on list c keeps the state of the lists up to c and makes no lookahead lighter. */
  lemma {:induction false} StepOk(w: seq<int>, s: Lists, c: nat)
    requires Sorted(w) && AllOk(w, s, c)
    ensures var r := Step(w, s, c, false);
      && AllOk(w, r, c) && r.asked[c] == s.asked[c] + 1
      && r.c0[c].weight >= s.c0[c].weight && r.c1[c].weight >= s.c1[c].weight
    decreases c, 0
  {
    if c == 0 {
      StepBottom(w, s);
    } else if !TakesPackage(w, s, c) {
      StepLeafOk(w, s, c);
    } else {
      var h := Head(w, s, c);
      PackageHead(w, s, h, c);
      var r := TwoSteps(w, h, c - 1);
      KeepTop(w, h, r, c);
    }
  }

  lemma TwoSteps(w: seq<int>, h: Lists, c: nat) returns (r: Lists)
    requires Sorted(w) && AllOk(w, h, c)
    ensures r == Step(w, Step(w, h, c, false), c, false)
    ensures AllOk(w, r, c) && r.asked[c] == h.asked[c] + 2
    ensures r.c0[c].weight >= h.c0[c].weight && r.c1[c].weight >= h.c1[c].weight
    ensures |r.c0| == |h.c0|
    ensures forall j :: c < j < |h.c0| ==> r.c0[j] == h.c0[j] && r.c1[j] == h.c1[j] && r.asked[j] == h.asked[j]
    decreases c, 1
  {
    StepOk(w, h, c);
    var u := Step(w, h, c, false);
    StepOk(w, u, c);
    r := Step(w, u, c, false);
    forall j | c < j < |h.c0| ensures r.c0[j] == h.c0[j] && r.c1[j] == h.c1[j] && r.asked[j] == h.asked[j] {
      StepFrame(w, h, c, false, j);
      StepFrame(w, u, c, false, j);
    }
  }

  /** A new package heads list c; the two steps on the list below are still to be done. */
  lemma PackageHead(w: seq<int>, s: Lists, h: Lists, c: nat)
    requires Sorted(w) && AllOk(w, s, c) && TakesPackage(w, s, c) && h == Head(w, s, c)
    ensures AllOk(w, h, c - 1) && ListOk(w, h, c)
    ensures h.c1[c].weight == h.c0[c - 1].weight + h.c1[c - 1].weight
    ensures h.asked[c - 1] + 2 == 2 * (h.asked[c] - h.c1[c].index + 1)
    ensures h.asked[c] == s.asked[c] + 1
    ensures h.c0[c].weight >= s.c0[c].weight && h.c1[c].weight >= s.c1[c].weight
    ensures Step(w, s, c, false) == Step(w, Step(w, h, c - 1, false), c - 1, false)
  {
    StepPackage(w, s, c);
    KeepBelow(w, s, h, c);
    assert ListOk(w, s, c) && PairOk(s, c);
  }

  lemma StepBottom(w: seq<int>, s: Lists)
    requires Sorted(w) && AllOk(w, s, 0)
    ensures var r := Step(w, s, 0, false);
      && AllOk(w, r, 0) && r.asked[0] == s.asked[0] + 1
      && r.c0[0].weight >= s.c0[0].weight && r.c1[0].weight >= s.c1[0].weight
  {
    assert ListOk(w, s, 0);
    assert ListOk(w, Step(w, s, 0, false), 0);
  }

  lemma StepLeafOk(w: seq<int>, s: Lists, c: nat)
    requires Sorted(w) && AllOk(w, s, c) && c > 0 && !TakesPackage(w, s, c)
    ensures var r := Step(w, s, c, false);
      && AllOk(w, r, c) && r.asked[c] == s.asked[c] + 1
      && r.c0[c].weight >= s.c0[c].weight && r.c1[c].weight >= s.c1[c].weight
  {
    var r := Step(w, s, c, false);
    assert ListOk(w, s, c);
    assert r == Head(w, s, c);
    StepLeaf(w, s, c);
    KeepBelow(w, s, r, c);
  }

  lemma KeepBelow(w: seq<int>, s: Lists, h: Lists, c: nat)
    requires AllOk(w, s, c) && c > 0 && h == Head(w, s, c)
    ensures AllOk(w, h, c - 1)
  {
    forall j | 0 <= j < c ensures ListOk(w, h, j) && (j > 0 ==> PairOk(h, j)) {
      assert ListOk(w, s, j) && (j > 0 ==> PairOk(s, j));
    }
  }

  lemma KeepTop(w: seq<int>, h: Lists, r: Lists, c: nat)
    requires 0 < c && Shaped(h) && c < |h.c0| && |w| >= 2 && ListOk(w, h, c)
    requires AllOk(w, r, c - 1) && |r.c0| == |h.c0|
    requires r.c0[c] == h.c0[c] && r.c1[c] == h.c1[c] && r.asked[c] == h.asked[c]
    requires h.c1[c].weight <= h.c0[c - 1].weight + h.c1[c - 1].weight
    requires r.c0[c - 1].weight + r.c1[c - 1].weight >= h.c0[c - 1].weight + h.c1[c - 1].weight
    requires r.asked[c - 1] == 2 * (r.asked[c] - r.c1[c].index + 1)
    ensures AllOk(w, r, c)
  {
    assert ListOk(w, r, c);
    forall j | 0 < j <= c ensures PairOk(r, j) {
    }
  }

  // ---------- how heavy a package can become

  /** List c has not been asked for more than it takes to end the run, and the fewer items are still
      to come, the heavier its lookahead may be. */
  ghost predicate WeightOk(w: seq<int>, s: Lists, c: nat)
    requires Shaped(s) && c < |s.c0| && |w| >= 2
  {
    var n := |w|;
    s.asked[c] <= 2 * n - 2 && s.c1[c].weight * (2 * n - 1 - s.asked[c]) <= w[n - 1] * (2 * n - 2)
  }

  ghost predicate WeightsOk(w: seq<int>, s: Lists, c: nat) {
    Shaped(s) && c < |s.c0| && |w| >= 2 && forall j :: 0 <= j <= c ==> WeightOk(w, s, j)
  }

  /** The weights are so small that the sum of two lookaheads is always an int of 32 bits. */
  predicate WeightsFit(w: seq<int>) {
    |w| >= 2 && w[|w| - 1] * (4 * |w| - 4) < 0x8000_0000
  }

  lemma LeavesFit(w: seq<int>)
    requires Sorted(w) && WeightsFit(w)
    ensures forall i :: 0 <= i < |w| ==> 0 < w[i] < 0x8000_0000
  {
    MulLe(w[|w| - 1], w[|w| - 1], 1, 4 * |w| - 4);
  }

  /** A list below is never asked for more than 2n - 2 items. */
  lemma AskedBelow(w: seq<int>, s: Lists, c: nat)
    requires Shaped(s) && c < |s.c0| && |w| >= 2 && ListOk(w, s, c) && s.asked[c] <= 2 * |w| - 2
    ensures 2 * (s.asked[c] - s.c1[c].index + 1) <= 2 * |w| - 2
  {
    var n, y, k := |w|, s.c1[c], s.asked[c];
    if y.index < n {
      FewItems(n, c, y);
    }
  }

  /** The next item of a list keeps the bound. */
  lemma HeadWeight(w: seq<int>, s: Lists, c: nat)
    requires Sorted(w) && AllOk(w, s, c) && WeightsOk(w, s, c) && s.asked[c] < 2 * |w| - 2
    ensures WeightOk(w, Head(w, s, c), c)
  {
    var n, y, h := |w|, s.c1[c], Head(w, s, c);
    HeadOk(w, s, c);
    assert ListOk(w, s, c) && WeightOk(w, s, c) && ListOk(w, h, c);
    var top, left := h.c1[c].weight, 2 * n - 1 - h.asked[c];
    if TakesPackage(w, s, c) && y.index == n {
      assert PairOk(s, c) && ListOk(w, s, c - 1) && WeightOk(w, s, c - 1);
      var below := s.c1[c - 1].weight;
      assert top <= 2 * below && 2 * n - 1 - s.asked[c - 1] == 2 * left + 1;
      PackageWeight(top, below, left, w[n - 1] * (2 * n - 2));
    } else if top <= w[n - 1] {
      MulLe(top, w[n - 1], left, 2 * n - 2);
    } else {
      assert h.c1[c] == y;
      MulLe(top, top, left, left + 1);
    }
  }

  lemma PackageWeight(top: int, below: int, left: nat, bound: int)
    requires 0 <= below && top <= 2 * below && below * (2 * left + 1) <= bound
    ensures top * left <= bound
  {
    assert below * (2 * left + 1) == 2 * below * left + below;
    assert (2 * below - top) * left >= 0;
    assert (2 * below - top) * left == 2 * below * left - top * left;
  }

  /** A step keeps the bound of all lists up to its own. */
  lemma {:induction false} StepWeights(w: seq<int>, s: Lists, c: nat)
    requires Sorted(w) && AllOk(w, s, c) && WeightsOk(w, s, c) && s.asked[c] < 2 * |w| - 2
    ensures WeightsOk(w, Step(w, s, c, false), c)
    decreases c, 0
  {
    var h, r := Head(w, s, c), Step(w, s, c, false);
    HeadWeight(w, s, c);
    if c > 0 && TakesPackage(w, s, c) {
      ReplenishWeights(w, s, c);
      StepFrame(w, h, c - 1, false, c);
      StepFrame(w, Step(w, h, c - 1, false), c - 1, false, c);
    } else {
      forall j | 0 <= j < c ensures WeightOk(w, r, j) {
        assert WeightOk(w, s, j);
      }
    }
  }

  /** The two steps below a package. */
  lemma ReplenishWeights(w: seq<int>, s: Lists, c: nat)
    requires Sorted(w) && AllOk(w, s, c) && WeightsOk(w, s, c) && s.asked[c] < 2 * |w| - 2 && TakesPackage(w, s, c)
    ensures var h := Head(w, s, c);
      && AllOk(w, h, c - 1) && WeightsOk(w, h, c - 1) && h.asked[c - 1] + 2 <= 2 * |w| - 2
      && WeightsOk(w, Step(w, Step(w, h, c - 1, false), c - 1, false), c - 1)
    decreases c - 1, 2
  {
    hide WeightOk, WeightsOk, ListOk, Step, Head, Pushed;
    var h := Head(w, s, c);
    PackageHead(w, s, h, c);
    AskedBelow(w, h, c);
    KeepWeights(w, s, c);
    TwoStepWeights(w, h, c - 1);
  }

  lemma TwoStepWeights(w: seq<int>, h: Lists, c: nat)
    requires Sorted(w) && AllOk(w, h, c) && WeightsOk(w, h, c) && h.asked[c] + 2 <= 2 * |w| - 2
    ensures WeightsOk(w, Step(w, Step(w, h, c, false), c, false), c)
    decreases c, 1
  {
    assert Shaped(h) && c < |h.c0|;
    hide *;
    StepOk(w, h, c);
    StepWeights(w, h, c);
    StepWeights(w, Step(w, h, c, false), c);
  }

  lemma KeepWeights(w: seq<int>, s: Lists, c: nat)
    requires WeightsOk(w, s, c) && c > 0
    ensures WeightsOk(w, Head(w, s, c), c - 1)
  {
    forall j | 0 <= j <= c - 1 ensures WeightOk(w, Head(w, s, c), j) {
      assert WeightOk(w, s, j);
    }
  }

  /** The sum of two lookaheads fits in 32 bits. */
  lemma SumFits(w: seq<int>, s: Lists, c: nat)
    requires Sorted(w) && AllOk(w, s, c) && WeightsOk(w, s, c) && WeightsFit(w)
    ensures 0 < s.c0[c].weight <= s.c1[c].weight && s.c0[c].weight + s.c1[c].weight < 0x8000_0000
  {
    assert ListOk(w, s, c) && WeightOk(w, s, c);
    HeaviestFits(s.c1[c].weight, 2 * |w| - 1 - s.asked[c], w[|w| - 1], |w|);
  }

  lemma HeaviestFits(y: int, left: nat, top: int, n: nat)
    requires 0 < y && left > 0 && y * left <= top * (2 * n - 2) && top * (4 * n - 4) < 0x8000_0000
    ensures 2 * y < 0x8000_0000
  {
    MulLe(y, y, 1, left);
    assert top * (4 * n - 4) == 2 * (top * (2 * n - 2));
  }

  // ---------- whole runs

  /** The lists before the first step: the two lightest leaves head every list. */
  function Init(w: seq<int>, lists: nat): (s: Lists)
    requires |w| >= 2
    ensures Shaped(s) && |s.c0| == lists
  {
    Lists(seq(lists, _ => Node(w[0], 1, Nil)), seq(lists, _ => Node(w[1], 2, Nil)), seq(lists, _ => 2))
  }

  /** The lists when the last one has been asked for k items. */
  function Run(w: seq<int>, lists: nat, k: nat): (s: Lists)
    requires |w| >= 2 && lists > 0
    ensures Shaped(s) && |s.c0| == lists
  {
    if k <= 2 then Init(w, lists) else Step(w, Run(w, lists, k - 1), lists - 1, k >= 2 * |w| - 2)
  }

  lemma InitOk(w: seq<int>, lists: nat)
    requires Sorted(w) && |w| >= 2 && lists > 0
    ensures AllOk(w, Init(w, lists), lists - 1)
  {
    var s := Init(w, lists);
    forall c | 0 <= c < lists ensures ListOk(w, s, c) {
      if c > 0 { assert Items(c - 1, Nil) == 0; }
    }
  }

  lemma {:induction false} RunOk(w: seq<int>, lists: nat, k: nat)
    requires Sorted(w) && |w| >= 2 && lists > 0 && 2 <= k < 2 * |w| - 2
    ensures AllOk(w, Run(w, lists, k), lists - 1) && Run(w, lists, k).asked[lists - 1] == k
  {
    if k == 2 {
      InitOk(w, lists);
    } else {
      RunOk(w, lists, k - 1);
      StepOk(w, Run(w, lists, k - 1), lists - 1);
    }
  }

  lemma InitWeights(w: seq<int>, lists: nat)
    requires Sorted(w) && |w| >= 3 && lists > 0
    ensures WeightsOk(w, Init(w, lists), lists - 1)
  {
    SecondWeight(w);
    forall c | 0 <= c < lists ensures WeightOk(w, Init(w, lists), c) {
    }
  }

  lemma SecondWeight(w: seq<int>)
    requires Sorted(w) && |w| >= 3
    ensures w[1] * (2 * |w| - 3) <= w[|w| - 1] * (2 * |w| - 2)
  {
    var a, b := w[1], w[|w| - 1];
    assert 0 < a <= b;
    hide *;
    MulLe(a, b, 2 * |w| - 3, 2 * |w| - 2);
  }

  /** The bound on the weights holds in the whole run. */
  lemma {:induction false} RunWeights(w: seq<int>, lists: nat, k: nat)
    requires Sorted(w) && |w| >= 2 && lists > 0 && 2 <= k < 2 * |w| - 2
    ensures WeightsOk(w, Run(w, lists, k), lists - 1)
  {
    hide Init, Step, AllOk, WeightsOk;
    if k == 2 {
      InitWeights(w, lists);
    } else {
      RunOk(w, lists, k - 1);
      RunWeights(w, lists, k - 1);
      StepWeights(w, Run(w, lists, k - 1), lists - 1);
    }
  }

  /** All that matters of a list when the run ends: nothing is bogus before the capacity. */
  lemma LastList(w: seq<int>, lists: nat)
    requires Sorted(w) && |w| >= 2 && lists > 0
    ensures var s := Run(w, lists, 2 * |w| - 2);
      ListOk(w, s, lists - 1) && s.asked[lists - 1] == 2 * |w| - 2
  {
    var k, c := 2 * |w| - 2, lists - 1;
    if k == 2 {
      InitOk(w, lists);
    } else {
      var s := BeforeLast(w, lists, k);
      HeadOk(w, s, c);
    }
  }

  lemma BeforeLast(w: seq<int>, lists: nat, k: nat) returns (s: Lists)
    requires Sorted(w) && |w| >= 2 && lists > 0 && k == 2 * |w| - 2 && k > 2
    ensures AllOk(w, s, lists - 1) && s.asked[lists - 1] == k - 1
    ensures Run(w, lists, k) == Head(w, s, lists - 1)
  {
    s := Run(w, lists, k - 1);
    RunOk(w, lists, k - 1);
  }

  lemma HeadOk(w: seq<int>, s: Lists, c: nat)
    requires Sorted(w) && AllOk(w, s, c)
    ensures ListOk(w, Head(w, s, c), c) && Head(w, s, c).asked[c] == s.asked[c] + 1
  {
    if c == 0 {
      StepBottom(w, s);
    } else if !TakesPackage(w, s, c) {
      StepLeaf(w, s, c);
    } else {
      StepPackage(w, s, c);
    }
  }

  /** Enough lists hold enough items: 2n - 2 of them, if n symbols fit in the bits. */
  lemma {:induction false} CapacityEnough(n: nat, c: nat, k: nat)
    requires n <= Pow2(c + k)
    ensures 2 * n - Capacity(n, c) <= Pow2(k)
    decreases c
  {
    if c > 0 {
      CapacityEnough(n, c - 1, k + 1);
    }
  }

  /** The chain that ends the run. */
  function FinalChain(w: seq<int>, lists: nat): Chain
    requires |w| >= 2 && lists > 0
  {
    Run(w, lists, 2 * |w| - 2).c1[lists - 1]
  }

  lemma FinalChainIsReal(w: seq<int>, lists: nat)
    requires Sorted(w) && 2 <= |w| <= Pow2(lists) && lists > 0
    ensures var ch := FinalChain(w, lists);
      Real(|w|, lists - 1, ch) && Items(lists - 1, ch) == 2 * |w| - 2 && Depth(ch) <= lists
  {
    hide Step, Run, Sorted;
    LastList(w, lists);
    CapacityEnough(|w|, lists - 1, 1);
    assert Pow2(1) == 2;
  }

  // ---------- the code lengths of a chain

  /** Leaf i gets one bit for every list of the chain that has taken it. */
  function LengthOf(ch: Chain, i: nat): (l: nat)
    ensures l <= Depth(ch)
  {
    if ch.Nil? then 0 else (if i < ch.index then 1 else 0) + LengthOf(ch.tail, i)
  }

  /** Sum over the first m leaves of the strings they get, out of 2^bits. */
  function Share(bits: nat, ch: Chain, m: nat): nat
    requires Depth(ch) <= bits
  {
    if m == 0 then 0 else Share(bits, ch, m - 1) + Pow2(bits - LengthOf(ch, m - 1))
  }

  lemma {:induction false} NotTakenBelow(n: nat, c: nat, ch: Chain, i: nat)
    requires Real(n, c, ch) && i >= ch.index
    ensures LengthOf(ch, i) == 0
    decreases c
  {
    if ch.tail.Node? { NotTakenBelow(n, c - 1, ch.tail, i); }
  }

  function Min(a: nat, b: nat): nat { if a < b then a else b }

  /** A chain and its tail: leaves the head has taken get one bit more of one bit more. */
  lemma {:induction false} ShareOfTail(n: nat, c: nat, ch: Chain, m: nat)
    requires c > 0 && Real(n, c, ch) && ch.tail.Node? && Depth(ch) <= c + 1
    ensures Share(c + 1, ch, m) == Share(c, ch.tail, m) + Shl(m - Min(m, ch.index), c)
    decreases m
  {
    if m > 0 {
      ShareOfTail(n, c, ch, m - 1);
      if m - 1 >= ch.index {
        NotTakenBelow(n, c, ch, m - 1);
        NotTakenBelow(n, c - 1, ch.tail, m - 1);
        ShlStep(m - 1 - Min(m - 1, ch.index), c);
      }
    } else {
      ShlZero(c);
    }
  }

  lemma ShlStep(a: nat, c: nat)
    ensures Shl(a + 1, c) == Shl(a, c) + Pow2(c)
  {
    MulStep(a, Pow2(c));
  }

  lemma ShlZero(c: nat)
    ensures Shl(0, c) == 0
  {
  }

  lemma ShlAdd(a: nat, b: nat, c: nat)
    ensures Shl(a + b, c) == Shl(a, c) + Shl(b, c)
  {
    MulDist(Pow2(c), a, b);
  }

  lemma ShlDouble(a: nat, c: nat)
    ensures Shl(2 * a, c) == Shl(a, c + 1) == 2 * Shl(a, c)
  {
    MulTwo(a, Pow2(c));
    MulAssoc3(2, a, Pow2(c));
  }

  /** Conservation of width: what the leaves leave free is what the items take. */
  lemma {:induction false} WidthConserved(n: nat, c: nat, ch: Chain)
    requires Real(n, c, ch) && Depth(ch) <= c + 1
    ensures Share(c + 1, ch, n) + Shl(Items(c, ch), c) == Shl(n, c + 1)
    decreases c
  {
    ShlDouble(n, c);
    if ch.tail.Nil? {
      ShareOfLeaves(n, c, ch, n);
      if c > 0 { assert Items(c - 1, ch.tail) == 0; }
      ShlAdd(n, n - ch.index, c);
      ShlAdd(n - ch.index, ch.index, c);
    } else {
      WidthConserved(n, c - 1, ch.tail);
      ShareOfTail(n, c, ch, n);
      var t := Items(c - 1, ch.tail);
      ShlDouble(t / 2, c - 1);
      ShlAdd(ch.index, t / 2, c);
      ShlAdd(n - ch.index, ch.index, c);
      ShlDouble(n, c - 1);
    }
  }

  lemma {:induction false} ShareOfLeaves(n: nat, c: nat, ch: Chain, m: nat)
    requires Real(n, c, ch) && ch.tail.Nil?
    ensures Share(c + 1, ch, m) == Shl(m + (m - Min(m, ch.index)), c)
    decreases m
  {
    if m > 0 {
      ShareOfLeaves(n, c, ch, m - 1);
      var a := m - 1 + (m - 1 - Min(m - 1, ch.index));
      ShlStep(a, c);
      ShlStep(a + 1, c);
      assert Depth(ch) == 1 && LengthOf(ch.tail, m - 1) == 0;
      assert Pow2(c + 1) == 2 * Pow2(c);
    } else {
      ShlZero(c);
    }
  }

  lemma {:induction false} FewItems(n: nat, c: nat, ch: Chain)
    requires Real(n, c, ch)
    ensures Items(c, ch) < 2 * ch.index || Items(c, ch) == 0
    decreases c
  {
    if c > 0 && ch.tail.Node? { FewItems(n, c - 1, ch.tail); }
  }

  lemma {:induction false} LengthsFall(ch: Chain, i: nat, j: nat)
    requires i <= j
    ensures LengthOf(ch, i) >= LengthOf(ch, j)
    decreases ch
  {
    if ch.Node? { LengthsFall(ch.tail, i, j); }
  }

  /** The lengths of a finished run: a complete code in which every leaf has at least one bit, no
      leaf more bits than there are lists, and no heavier leaf more bits than a lighter one. */
  lemma RunIsComplete(w: seq<int>, lists: nat)
    requires Sorted(w) && 2 <= |w| <= Pow2(lists) && lists > 0
    ensures var ch := FinalChain(w, lists);
      && Depth(ch) <= lists
      && (forall i :: 0 <= i < |w| ==> 1 <= LengthOf(ch, i) <= lists)
      && (forall i, j :: 0 <= i <= j < |w| ==> LengthOf(ch, i) >= LengthOf(ch, j))
      && Share(lists, ch, |w|) == Pow2(lists)
  {
    var n, c, ch := |w|, lists - 1, FinalChain(w, lists);
    FinalChainIsReal(w, lists);
    FewItems(n, c, ch);
    assert ch.Node? && ch.index == n;
    hide Share, FinalChain, Real, Items, Sorted, Pow2;
    forall i: nat, j: nat | i <= j < n ensures LengthOf(ch, i) >= LengthOf(ch, j) {
      LengthsFall(ch, i, j);
    }
    assert Share(lists, ch, n) == Pow2(lists) by { FullWidth(n, c, ch); }
  }

  lemma FullWidth(n: nat, c: nat, ch: Chain)
    requires n >= 1 && Real(n, c, ch) && Items(c, ch) == 2 * n - 2 && Depth(ch) <= c + 1
    ensures Share(c + 1, ch, n) == Pow2(c + 1)
  {
    WidthConserved(n, c, ch);
    ShlDouble(n - 1, c);
    ShlStep(n - 1, c + 1);
  }
}
