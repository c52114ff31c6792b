/** Package-merge without lookahead chains: whole lists of items. The chains of the boundary algorithm
    stand for what these lists begin with, and what they begin with is as cheap as a code can be. */
module PlainMerge {
  import opened Bits
  import opened PackageMerge

  /** An item: a leaf, or a package of items of the list below. It knows the leaves it is made of. */
  datatype Item = Item(weight: int, leaves: seq<nat>)

  function Singles(w: seq<int>): (s: seq<Item>)
    ensures |s| == |w|
  {
    seq(|w|, i requires 0 <= i < |w| => Item(w[i], [i]))
  }

  /** Each two neighbours make a package; a last item alone does not. */
  function Pairs(s: seq<Item>): (p: seq<Item>)
    ensures |p| == |s| / 2
  {
    seq(|s| / 2, i requires 0 <= i < |s| / 2 =>
      Item(s[2 * i].weight + s[2 * i + 1].weight, s[2 * i].leaves + s[2 * i + 1].leaves))
  }

  /** Leaves and packages in order of weight, packages first where they weigh the same. */
  function Merged(a: seq<Item>, b: seq<Item>): (s: seq<Item>)
    ensures |s| == |a| + |b|
  {
    if a == [] then b
    else if b == [] then a
    else if b[0].weight <= a[0].weight then [b[0]] + Merged(a, b[1..])
    else [a[0]] + Merged(a[1..], b)
  }

  /** List c of package-merge: the leaves, merged with the packages of the list below. */
  function Level(w: seq<int>, c: nat): seq<Item> {
    if c == 0 then Singles(w) else Merged(Singles(w), Pairs(Level(w, c - 1)))
  }

  /** How often leaf i occurs in the items. */
  function Times(s: seq<Item>, i: nat): nat {
    if s == [] then 0 else Times(s[..|s| - 1], i) + multiset(s[|s| - 1].leaves)[i]
  }

  function Sum(s: seq<Item>): int {
    if s == [] then 0 else Sum(s[..|s| - 1]) + s[|s| - 1].weight
  }

  // ---------- what a merged list begins with

  /** How many of the first k merged items come from a. */
  function FromFirst(a: seq<Item>, b: seq<Item>, k: nat): (x: nat)
    requires k <= |a| + |b|
    ensures x <= |a| && x <= k <= x + |b|
  {
    if k == 0 || a == [] then 0
    else if b == [] then k
    else if b[0].weight <= a[0].weight then FromFirst(a, b[1..], k - 1)
    else 1 + FromFirst(a[1..], b, k - 1)
  }

  /** Item k is the lighter one of those that are next on either side. */
  ghost predicate Next(a: seq<Item>, b: seq<Item>, k: nat)
    requires k < |a| + |b|
  {
    var x := FromFirst(a, b, k);
    if k - x < |b| && (x == |a| || b[k - x].weight <= a[x].weight)
    then Merged(a, b)[k] == b[k - x] && FromFirst(a, b, k + 1) == x
    else x < |a| && Merged(a, b)[k] == a[x] && FromFirst(a, b, k + 1) == x + 1
  }

  lemma {:induction false} MergedNext(a: seq<Item>, b: seq<Item>, k: nat)
    requires k < |a| + |b|
    ensures Next(a, b, k)
    decreases k
  {
    hide Merged, FromFirst;
    if a == [] || b == [] || k == 0 {
      NextAtEnds(a, b, k);
    } else {
      HeadTaken(a, b, k);
      HeadTaken(a, b, k + 1);
      if b[0].weight <= a[0].weight {
        MergedNext(a, b[1..], k - 1);
      } else {
        MergedNext(a[1..], b, k - 1);
      }
    }
  }

  lemma NextAtEnds(a: seq<Item>, b: seq<Item>, k: nat)
    requires k < |a| + |b| && (a == [] || b == [] || k == 0)
    ensures Next(a, b, k)
  {
  }

  lemma HeadTaken(a: seq<Item>, b: seq<Item>, k: nat)
    requires a != [] && b != [] && 0 < k <= |a| + |b|
    ensures b[0].weight <= a[0].weight ==>
      FromFirst(a, b, k) == FromFirst(a, b[1..], k - 1) && Merged(a, b) == [b[0]] + Merged(a, b[1..])
    ensures b[0].weight > a[0].weight ==>
      FromFirst(a, b, k) == 1 + FromFirst(a[1..], b, k - 1) && Merged(a, b) == [a[0]] + Merged(a[1..], b)
  {
  }

  lemma TimesNext(s: seq<Item>, k: nat, i: nat)
    requires k < |s|
    ensures Times(s[..k + 1], i) == Times(s[..k], i) + multiset(s[k].leaves)[i]
  {
    assert s[..k + 1][..k] == s[..k];
  }

  lemma SumNext(s: seq<Item>, k: nat)
    requires k < |s|
    ensures Sum(s[..k + 1]) == Sum(s[..k]) + s[k].weight
  {
    assert s[..k + 1][..k] == s[..k];
  }

  /** The first k merged items are the first ones of either side. */
  ghost predicate Splits(a: seq<Item>, b: seq<Item>, k: nat, i: nat)
    requires k <= |a| + |b|
  {
    var x := FromFirst(a, b, k);
    && Times(Merged(a, b)[..k], i) == Times(a[..x], i) + Times(b[..k - x], i)
    && Sum(Merged(a, b)[..k]) == Sum(a[..x]) + Sum(b[..k - x])
  }

  lemma {:induction false} MergedBegins(a: seq<Item>, b: seq<Item>, k: nat, i: nat)
    requires k <= |a| + |b|
    ensures Splits(a, b, k, i)
  {
    if k == 0 {
      assert FromFirst(a, b, k) == 0;
      assert Merged(a, b)[..0] == [] && a[..0] == [] && b[..0] == [];
    } else {
      hide *;
      MergedBegins(a, b, k - 1, i);
      MergedNext(a, b, k - 1);
      OneMore(a, b, k - 1, i);
    }
  }

  lemma OneMore(a: seq<Item>, b: seq<Item>, k: nat, i: nat)
    requires k < |a| + |b| && Next(a, b, k) && Splits(a, b, k, i)
    ensures Splits(a, b, k + 1, i)
  {
    hide Merged, FromFirst, Times, Sum;
    var x := FromFirst(a, b, k);
    TimesNext(Merged(a, b), k, i);
    SumNext(Merged(a, b), k);
    if FromFirst(a, b, k + 1) == x {
      TimesNext(b, k - x, i);
      SumNext(b, k - x);
    } else {
      TimesNext(a, x, i);
      SumNext(a, x);
    }
  }

  lemma {:induction false} PairsBegin(s: seq<Item>, y: nat, i: nat)
    requires 2 * y <= |s|
    ensures Times(Pairs(s)[..y], i) == Times(s[..2 * y], i)
    ensures Sum(Pairs(s)[..y]) == Sum(s[..2 * y])
  {
    if y == 0 {
      assert Pairs(s)[..0] == [] && s[..0] == [];
    } else {
      hide *;
      PairsBegin(s, y - 1, i);
      PairNext(s, y, i);
    }
  }

  lemma PairNext(s: seq<Item>, y: nat, i: nat)
    requires y > 0 && 2 * y <= |s|
    ensures Times(Pairs(s)[..y], i) - Times(Pairs(s)[..y - 1], i) == Times(s[..2 * y], i) - Times(s[..2 * (y - 1)], i)
    ensures Sum(Pairs(s)[..y]) - Sum(Pairs(s)[..y - 1]) == Sum(s[..2 * y]) - Sum(s[..2 * (y - 1)])
  {
    var p, z := Pairs(s), 2 * (y - 1);
    var e, o := s[z], s[z + 1];
    assert p[y - 1] == Item(e.weight + o.weight, e.leaves + o.leaves);
    assert multiset(e.leaves + o.leaves)[i] == multiset(e.leaves)[i] + multiset(o.leaves)[i];
    hide *;
    TimesNext(p, y - 1, i);
    SumNext(p, y - 1);
    TimesNext(s, z, i);
    TimesNext(s, z + 1, i);
    SumNext(s, z);
    SumNext(s, z + 1);
  }

  lemma {:induction false} SinglesBegin(w: seq<int>, x: nat, i: nat)
    requires x <= |w|
    ensures Times(Singles(w)[..x], i) == if i < x then 1 else 0
  {
    if x > 0 {
      SinglesBegin(w, x - 1, i);
      TimesNext(Singles(w), x - 1, i);
    }
  }

  lemma {:induction false} HowMany(w: seq<int>, c: nat)
    ensures |Level(w, c)| == Capacity(|w|, c)
  {
    if c > 0 { HowMany(w, c - 1); }
  }

  /** How many of the first k items of list c are leaves. */
  function Leaves(w: seq<int>, c: nat, k: nat): (x: nat)
    requires k <= |Level(w, c)|
    ensures x <= |w| && x <= k
  {
    if c == 0 then k else FromFirst(Singles(w), Pairs(Level(w, c - 1)), k)
  }

  /** What list c begins with: leaves, and twice as many items of the list below as packages. */
  lemma LevelBegins(w: seq<int>, c: nat, k: nat, i: nat)
    requires c > 0 && k <= |Level(w, c)|
    ensures var x := Leaves(w, c, k);
      && 2 * (k - x) <= |Level(w, c - 1)|
      && Times(Level(w, c)[..k], i) == (if i < x then 1 else 0) + Times(Level(w, c - 1)[..2 * (k - x)], i)
      && Sum(Level(w, c)[..k]) == Sum(Singles(w)[..x]) + Sum(Level(w, c - 1)[..2 * (k - x)])
  {
    var x, below := Leaves(w, c, k), Level(w, c - 1);
    MergedBegins(Singles(w), Pairs(below), k, i);
    PairsBegin(below, k - x, i);
    SinglesBegin(w, x, i);
  }

  // ---------- the lookahead chains stand for what the lists begin with

  /** Chain y is that of the first k items of list c, and the weights are those of its last two. */
  ghost predicate Spelled(w: seq<int>, c: nat, k: nat, x: Chain, y: Chain)
    requires 2 <= k <= |Level(w, c)| && x.Node? && y.Node?
  {
    var l := Level(w, c);
    && y.index == Leaves(w, c, k)
    && x.weight == l[k - 2].weight && y.weight == l[k - 1].weight
    && forall i: nat :: LengthOf(y, i) == Times(l[..k], i)
  }

  /** As long as list c has items, its chains stand for what it begins with. */
  ghost predicate Exact(w: seq<int>, s: Lists, c: nat)
    requires Shaped(s) && c < |s.c0|
  {
    s.asked[c] >= 2 && (s.asked[c] <= |Level(w, c)| ==> Spelled(w, c, s.asked[c], s.c0[c], s.c1[c]))
  }

  ghost predicate AllExact(w: seq<int>, s: Lists, c: nat) {
    Shaped(s) && c < |s.c0| && forall j :: 0 <= j <= c ==> Exact(w, s, j)
  }

  /** What the next item of list c is. */
  lemma NextItem(w: seq<int>, c: nat, k: nat)
    requires c > 0 && k < |Level(w, c)|
    ensures var x, p := Leaves(w, c, k), Pairs(Level(w, c - 1));
      if k - x < |p| && (x == |w| || p[k - x].weight <= w[x])
      then Level(w, c)[k] == p[k - x] && Leaves(w, c, k + 1) == x
      else x < |w| && Level(w, c)[k] == Item(w[x], [x]) && Leaves(w, c, k + 1) == x + 1
  {
    MergedNext(Singles(w), Pairs(Level(w, c - 1)), k);
    hide Merged, FromFirst, Pairs;
  }

  /** A leaf is next. */
  lemma LeafSpelled(w: seq<int>, c: nat, k: nat, x: Chain, y: Chain, z: Chain)
    requires 2 <= k < |Level(w, c)| && x.Node? && y.Node? && y.index < |w|
    requires Level(w, c)[k] == Item(w[y.index], [y.index]) && Leaves(w, c, k + 1) == y.index + 1
    requires z.Node? && z.weight == w[y.index] && z.index == y.index + 1
    requires Spelled(w, c, k, x, y) && forall i: nat :: LengthOf(z.tail, i) == LengthOf(y.tail, i)
    ensures Spelled(w, c, k + 1, y, z)
  {
    hide Level, Times, Leaves;
    var l := Level(w, c);
    forall i: nat ensures LengthOf(z, i) == Times(l[..k + 1], i) {
      TimesNext(l, k, i);
      assert LengthOf(y, i) == Times(l[..k], i);
      assert LengthOf(y.tail, i) == LengthOf(z.tail, i);
    }
  }

  lemma NodeLength(z: Chain, i: nat)
    requires z.Node?
    ensures LengthOf(z, i) == (if i < z.index then 1 else 0) + LengthOf(z.tail, i)
  {
  }

  lemma PackageTimes(w: seq<int>, c: nat, k: nat, t: nat, z: Chain, i: nat)
    requires c > 0 && k < |Level(w, c)| && t <= |Level(w, c - 1)| && z.Node?
    requires Leaves(w, c, k + 1) == z.index && t == 2 * (k - z.index) + 2
    requires LengthOf(z.tail, i) == Times(Level(w, c - 1)[..t], i)
    ensures LengthOf(z, i) == Times(Level(w, c)[..k + 1], i)
  {
    hide *;
    LevelBegins(w, c, k + 1, i);
    NodeLength(z, i);
    assert t == 2 * (k + 1 - z.index);
  }

  /** A package is next. */
  lemma PackageSpelled(w: seq<int>, c: nat, k: nat, x: Chain, y: Chain, t: nat, a: Chain, b: Chain, z: Chain)
    requires x.Node? && y.Node? && a.Node? && b.Node? && z == Node(a.weight + b.weight, y.index, b)
    requires 2 <= k < |Level(w, c)| && Spelled(w, c, k, x, y)
    requires Level(w, c)[k].weight == a.weight + b.weight && Leaves(w, c, k + 1) == y.index
    requires c > 0 && 2 <= t <= |Level(w, c - 1)| && Spelled(w, c - 1, t, a, b) && t == 2 * (k - y.index) + 2
    ensures Spelled(w, c, k + 1, y, z)
  {
    hide *;
    SpelledWeights(w, c, k, x, y);
    forall i: nat ensures LengthOf(z, i) == Times(Level(w, c)[..k + 1], i) {
      SpelledTimes(w, c - 1, t, a, b, i);
      PackageTimes(w, c, k, t, z, i);
    }
    IsSpelled(w, c, k + 1, y, z);
  }

  lemma IsSpelled(w: seq<int>, c: nat, k: nat, x: Chain, y: Chain)
    requires 2 <= k <= |Level(w, c)| && x.Node? && y.Node? && y.index == Leaves(w, c, k)
    requires x.weight == Level(w, c)[k - 2].weight && y.weight == Level(w, c)[k - 1].weight
    requires forall i: nat :: LengthOf(y, i) == Times(Level(w, c)[..k], i)
    ensures Spelled(w, c, k, x, y)
  {
  }

  lemma SpelledTimes(w: seq<int>, c: nat, k: nat, x: Chain, y: Chain, i: nat)
    requires 2 <= k <= |Level(w, c)| && x.Node? && y.Node? && Spelled(w, c, k, x, y)
    ensures LengthOf(y, i) == Times(Level(w, c)[..k], i)
  {
    hide Level, Leaves, LengthOf, Times;
  }

  /** The next item at the bottom is the next leaf. */
  lemma BottomExact(w: seq<int>, s: Lists)
    requires Sorted(w) && AllOk(w, s, 0) && Exact(w, s, 0)
    ensures Exact(w, Head(w, s, 0), 0)
  {
    var k, h := s.asked[0], Head(w, s, 0);
    HowMany(w, 0);
    assert ListOk(w, s, 0);
    if k < |w| {
      var z := Node(w[k], k + 1, Nil);
      assert h.c0[0] == s.c1[0] && h.c1[0] == z && h.asked[0] == k + 1;
      assert s.c1[0].tail.Nil?;
      hide Spelled;
      LeafSpelled(w, 0, k, s.c0[0], s.c1[0], z);
    }
  }

  /** The lookaheads of the list below are what the next package is made of, if it has one. */
  lemma PackageAtHand(w: seq<int>, s: Lists, c: nat)
    requires Sorted(w) && AllOk(w, s, c) && c > 0 && Exact(w, s, c) && Exact(w, s, c - 1)
    requires s.asked[c] < |Level(w, c)|
    ensures var k, x, p := s.asked[c], s.c1[c].index, Pairs(Level(w, c - 1));
      && x == Leaves(w, c, k) <= k && s.asked[c - 1] == 2 * (k - x) + 2
      && (k - x < |p| ==> p[k - x].weight == s.c0[c - 1].weight + s.c1[c - 1].weight)
      && (TakesPackage(w, s, c) <==> k - x < |p| && (x == |w| || p[k - x].weight <= w[x]))
  {
    var k, x, n := s.asked[c], s.c1[c].index, |w|;
    var sum := s.c0[c - 1].weight + s.c1[c - 1].weight;
    assert PairOk(s, c) && ListOk(w, s, c);
    PackageWeighs(w, s, c);
    NoPackageLeft(w, s, c);
    assert x < n ==> w[x] <= w[n - 1];
  }

  lemma NoPackageLeft(w: seq<int>, s: Lists, c: nat)
    requires AllOk(w, s, c) && c > 0 && s.asked[c] < |Level(w, c)| && s.c1[c].index <= s.asked[c]
    ensures |Level(w, c)| == |w| + |Pairs(Level(w, c - 1))|
    ensures s.asked[c] - s.c1[c].index >= |Pairs(Level(w, c - 1))| ==>
      s.c1[c].index < |w| && s.c0[c - 1].weight + s.c1[c - 1].weight > w[|w| - 1]
  {
    assert PairOk(s, c) && ListOk(w, s, c - 1);
    HowMany(w, c);
    HowMany(w, c - 1);
    hide Real, PackageMerge.Items, Depth, Level, Capacity, Pairs;
    CapacityOf(|w|, c);
  }

  lemma PairFacts(w: seq<int>, s: Lists, c: nat)
    requires AllOk(w, s, c) && c > 0
    ensures Shaped(s) && |s.c0| == |s.c1| == |s.asked| && c < |s.c0|
    ensures s.c0[c].Node? && s.c1[c].Node? && s.c0[c - 1].Node? && s.c1[c - 1].Node?
    ensures s.asked[c - 1] == 2 * (s.asked[c] - s.c1[c].index + 1)
  {
    assert PairOk(s, c);
  }

  lemma ExactSpelled(w: seq<int>, s: Lists, c: nat)
    requires Shaped(s) && c < |s.c0| && Exact(w, s, c)
    ensures s.asked[c] >= 2 && (s.asked[c] <= |Level(w, c)| ==> Spelled(w, c, s.asked[c], s.c0[c], s.c1[c]))
  {
  }

  lemma PackageWeighs(w: seq<int>, s: Lists, c: nat)
    requires AllOk(w, s, c) && c > 0 && Exact(w, s, c) && Exact(w, s, c - 1) && s.asked[c] < |Level(w, c)|
    ensures s.c1[c].index == Leaves(w, c, s.asked[c]) <= s.asked[c]
    ensures var y, p := s.asked[c] - s.c1[c].index, Pairs(Level(w, c - 1));
      y < |p| ==> p[y].weight == s.c0[c - 1].weight + s.c1[c - 1].weight
  {
    hide *;
    PairFacts(w, s, c);
    ExactSpelled(w, s, c);
    ExactSpelled(w, s, c - 1);
    var k, t, l := s.asked[c], s.asked[c - 1], Level(w, c - 1);
    SpelledWeights(w, c, k, s.c0[c], s.c1[c]);
    if t <= |l| {
      SpelledWeights(w, c - 1, t, s.c0[c - 1], s.c1[c - 1]);
      PairWeight(l, k - s.c1[c].index);
    }
  }

  lemma CapacityOf(n: nat, c: nat)
    requires c > 0
    ensures Capacity(n, c) == n + Capacity(n, c - 1) / 2
  {
  }

  lemma SpelledWeights(w: seq<int>, c: nat, k: nat, x: Chain, y: Chain)
    requires 2 <= k <= |Level(w, c)| && x.Node? && y.Node? && Spelled(w, c, k, x, y)
    ensures y.index == Leaves(w, c, k) <= k
    ensures x.weight == Level(w, c)[k - 2].weight && y.weight == Level(w, c)[k - 1].weight
  {
  }

  lemma PairWeight(l: seq<Item>, y: nat)
    requires 2 * y + 2 <= |l|
    ensures Pairs(l)[y].weight == l[2 * y].weight + l[2 * y + 1].weight
  {
  }

  lemma HeadExact(w: seq<int>, s: Lists, c: nat)
    requires Sorted(w) && AllOk(w, s, c) && AllExact(w, s, c)
    ensures Exact(w, Head(w, s, c), c)
  {
    hide Spelled, Level, Leaves, Pairs, PairOk, ListOk;
    assert Exact(w, s, c);
    if c == 0 {
      BottomExact(w, s);
    } else if s.asked[c] < |Level(w, c)| {
      assert Exact(w, s, c - 1);
      PackageAtHand(w, s, c);
      NextItem(w, c, s.asked[c]);
      UpperExact(w, s, c);
    }
  }

  lemma UpperExact(w: seq<int>, s: Lists, c: nat)
    requires Sorted(w) && AllOk(w, s, c) && c > 0 && Exact(w, s, c) && Exact(w, s, c - 1)
    requires s.asked[c] < |Level(w, c)|
    requires var k, x := s.asked[c], s.c1[c].index;
      && x <= k && s.asked[c - 1] == 2 * (k - x) + 2
      && if TakesPackage(w, s, c)
         then 2 * (k - x) + 2 <= |Level(w, c - 1)| && Leaves(w, c, k + 1) == x
           && Level(w, c)[k].weight == s.c0[c - 1].weight + s.c1[c - 1].weight
         else x < |w| && Level(w, c)[k] == Item(w[x], [x]) && Leaves(w, c, k + 1) == x + 1
    ensures Exact(w, Head(w, s, c), c)
  {
    hide Spelled, Level, Leaves, ListOk, PairOk;
    var k, y, h := s.asked[c], s.c1[c], Head(w, s, c);
    if TakesPackage(w, s, c) {
      var z := Node(s.c0[c - 1].weight + s.c1[c - 1].weight, y.index, s.c1[c - 1]);
      assert h == Pushed(s, c, z);
      PackageSpelled(w, c, k, s.c0[c], y, s.asked[c - 1], s.c0[c - 1], s.c1[c - 1], z);
    } else {
      var z := Node(w[y.index], y.index + 1, y.tail);
      assert h == Pushed(s, c, z);
      LeafSpelled(w, c, k, s.c0[c], y, z);
    }
  }

  /** A step keeps that. */
  lemma {:induction false} StepExact(w: seq<int>, s: Lists, c: nat)
    requires Sorted(w) && AllOk(w, s, c) && AllExact(w, s, c)
    ensures AllExact(w, Step(w, s, c, false), c)
    decreases c, 0
  {
    var h := Head(w, s, c);
    HeadExact(w, s, c);
    if TakesPackage(w, s, c) {
      PackageHead(w, s, h, c);
      KeepExact(w, s, h, c);
      TwoStepsExact(w, h, c - 1);
      StepFrame(w, h, c - 1, false, c);
      StepFrame(w, Step(w, h, c - 1, false), c - 1, false, c);
    } else {
      KeepExact(w, s, h, c);
    }
  }

  lemma TwoStepsExact(w: seq<int>, h: Lists, c: nat)
    requires Sorted(w) && AllOk(w, h, c) && AllExact(w, h, c)
    ensures AllExact(w, Step(w, Step(w, h, c, false), c, false), c)
    decreases c, 1
  {
    assert Shaped(h) && c < |h.c0|;
    hide *;
    StepOk(w, h, c);
    StepExact(w, h, c);
    StepExact(w, Step(w, h, c, false), c);
  }

  lemma KeepExact(w: seq<int>, s: Lists, h: Lists, c: nat)
    requires AllExact(w, s, c) && h == Head(w, s, c)
    ensures forall j :: 0 <= j < c ==> Exact(w, h, j)
  {
    hide Spelled, Level;
    forall j | 0 <= j < c ensures Exact(w, h, j) {
      assert Exact(w, s, j);
    }
  }

  // ---------- whole runs

  /** Every list begins with the two lightest leaves. */
  lemma {:induction false} TwoLightest(w: seq<int>, c: nat)
    requires Sorted(w) && |w| >= 2
    ensures |Level(w, c)| >= 2 && Level(w, c)[0] == Item(w[0], [0]) && Level(w, c)[1] == Item(w[1], [1])
    ensures Leaves(w, c, 0) == 0 && Leaves(w, c, 1) == 1 && Leaves(w, c, 2) == 2
  {
    if c > 0 {
      TwoLightest(w, c - 1);
      NextItem(w, c, 0);
      NextItem(w, c, 1);
      assert Leaves(w, c, 0) == 0;
    }
  }

  lemma InitExact(w: seq<int>, lists: nat)
    requires Sorted(w) && |w| >= 2 && lists > 0
    ensures AllExact(w, Init(w, lists), lists - 1)
  {
    var s := Init(w, lists);
    forall c | 0 <= c < lists ensures Exact(w, s, c) {
      TwoLightest(w, c);
      InitSpelled(w, c);
    }
  }

  lemma InitSpelled(w: seq<int>, c: nat)
    requires Sorted(w) && |w| >= 2 && |Level(w, c)| >= 2 && Leaves(w, c, 2) == 2
    requires Level(w, c)[0] == Item(w[0], [0]) && Level(w, c)[1] == Item(w[1], [1])
    ensures Spelled(w, c, 2, Node(w[0], 1, Nil), Node(w[1], 2, Nil))
  {
    hide Level, Leaves;
    var l := Level(w, c);
    forall i: nat ensures LengthOf(Node(w[1], 2, Nil), i) == Times(l[..2], i) {
      TimesNext(l, 0, i);
      TimesNext(l, 1, i);
      assert l[..0] == [];
    }
  }

  lemma {:induction false} RunExact(w: seq<int>, lists: nat, k: nat)
    requires Sorted(w) && |w| >= 2 && lists > 0 && 2 <= k < 2 * |w| - 2
    ensures AllExact(w, Run(w, lists, k), lists - 1)
  {
    hide Init, Step, AllOk, AllExact;
    if k == 2 {
      InitExact(w, lists);
    } else {
      RunOk(w, lists, k - 1);
      RunExact(w, lists, k - 1);
      StepExact(w, Run(w, lists, k - 1), lists - 1);
    }
  }

  /** The boundary algorithm ends with the first 2n - 2 items of the last list. */
  lemma FinalIsPlain(w: seq<int>, lists: nat, i: nat)
    requires Sorted(w) && 2 <= |w| <= Pow2(lists) && lists > 0
    ensures 2 * |w| - 2 <= |Level(w, lists - 1)|
    ensures LengthOf(FinalChain(w, lists), i) == Times(Level(w, lists - 1)[..2 * |w| - 2], i)
  {
    hide Run, Sorted, Level, Exact;
    LastExact(w, lists);
    LastSpelled(w, Run(w, lists, 2 * |w| - 2), lists, i);
  }

  lemma LastSpelled(w: seq<int>, s: Lists, lists: nat, i: nat)
    requires 2 <= |w| <= Pow2(lists) && lists > 0 && Shaped(s) && |s.c0| == lists
    requires Exact(w, s, lists - 1) && s.asked[lists - 1] == 2 * |w| - 2
    ensures 2 * |w| - 2 <= |Level(w, lists - 1)|
    ensures LengthOf(s.c1[lists - 1], i) == Times(Level(w, lists - 1)[..2 * |w| - 2], i)
  {
    hide Level, LengthOf, Times, Leaves, Spelled;
    EnoughItems(w, lists);
    SpelledLength(w, lists - 1, 2 * |w| - 2, s.c0[lists - 1], s.c1[lists - 1], i);
  }

  lemma EnoughItems(w: seq<int>, lists: nat)
    requires 2 <= |w| <= Pow2(lists) && lists > 0
    ensures 2 * |w| - 2 <= |Level(w, lists - 1)|
  {
    assert Pow2(1) == 2;
    hide *;
    HowMany(w, lists - 1);
    CapacityEnough(|w|, lists - 1, 1);
  }

  lemma SpelledLength(w: seq<int>, c: nat, k: nat, x: Chain, y: Chain, i: nat)
    requires 2 <= k <= |Level(w, c)| && x.Node? && y.Node? && Spelled(w, c, k, x, y)
    ensures LengthOf(y, i) == Times(Level(w, c)[..k], i)
  {
  }

  lemma LastExact(w: seq<int>, lists: nat)
    requires Sorted(w) && |w| >= 2 && lists > 0
    ensures var s := Run(w, lists, 2 * |w| - 2);
      Exact(w, s, lists - 1) && s.asked[lists - 1] == 2 * |w| - 2
  {
    hide Exact, AllOk, Sorted, Level;
    var k, c := 2 * |w| - 2, lists - 1;
    if k == 2 {
      InitExact(w, lists);
    } else {
      var t := Run(w, lists, k - 1);
      RunOk(w, lists, k - 1);
      RunExact(w, lists, k - 1);
      assert Run(w, lists, k) == Step(w, t, c, true) == Head(w, t, c);
      hide Run, Step, Head;
      HeadExact(w, t, c);
      HeadOk(w, t, c);
    }
  }
}
