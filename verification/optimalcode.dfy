/** Why the first 2n - 2 items of the last list of package-merge are the cheapest code: no code of that
    many bits spends less, because none spends less on as much width. */
module OptimalCode {
  import opened Bits
  import opened Canonical
  import opened PackageMerge
  import opened PlainMerge

  // ---------- merging is the cheapest choice

  ghost predicate InWeightOrder(s: seq<Item>) {
    forall i, j :: 0 <= i <= j < |s| ==> s[i].weight <= s[j].weight
  }

  lemma {:induction false} SumFront(e: Item, s: seq<Item>)
    ensures Sum([e] + s) == e.weight + Sum(s)
  {
    if s == [] {
      assert [e] + s == [e] && [e][..0] == [];
    } else {
      var n := |s| - 1;
      assert ([e] + s)[..n + 1] == [e] + s[..n];
      SumFront(e, s[..n]);
    }
  }

  lemma {:induction false} MergedAbove(a: seq<Item>, b: seq<Item>, v: int)
    requires forall i :: 0 <= i < |a| ==> v <= a[i].weight
    requires forall i :: 0 <= i < |b| ==> v <= b[i].weight
    ensures forall i :: 0 <= i < |Merged(a, b)| ==> v <= Merged(a, b)[i].weight
  {
    if a != [] && b != [] {
      if b[0].weight <= a[0].weight { MergedAbove(a, b[1..], v); } else { MergedAbove(a[1..], b, v); }
    }
  }

  lemma HeadFirst(e: Item, s: seq<Item>)
    requires InWeightOrder(s) && forall i :: 0 <= i < |s| ==> e.weight <= s[i].weight
    ensures InWeightOrder([e] + s)
  {
  }

  lemma {:induction false} MergedInOrder(a: seq<Item>, b: seq<Item>)
    requires InWeightOrder(a) && InWeightOrder(b)
    ensures InWeightOrder(Merged(a, b))
  {
    if a != [] && b != [] {
      if b[0].weight <= a[0].weight {
        MergedInOrder(a, b[1..]);
        MergedAbove(a, b[1..], b[0].weight);
        HeadFirst(b[0], Merged(a, b[1..]));
      } else {
        MergedInOrder(a[1..], b);
        MergedAbove(a[1..], b, a[0].weight);
        HeadFirst(a[0], Merged(a[1..], b));
      }
    }
  }

  lemma PairsInOrder(s: seq<Item>)
    requires InWeightOrder(s)
    ensures InWeightOrder(Pairs(s))
  {
    var p := Pairs(s);
    forall i, j | 0 <= i <= j < |p| ensures p[i].weight <= p[j].weight {
      assert s[2 * i].weight <= s[2 * j].weight && s[2 * i + 1].weight <= s[2 * j + 1].weight;
    }
  }

  lemma {:induction false} LevelInOrder(w: seq<int>, c: nat)
    requires Sorted(w)
    ensures InWeightOrder(Level(w, c)) && InWeightOrder(Singles(w))
  {
    if c > 0 {
      LevelInOrder(w, c - 1);
      PairsInOrder(Level(w, c - 1));
      MergedInOrder(Singles(w), Pairs(Level(w, c - 1)));
    }
  }

  /** No other choice of as many items from the fronts of two lists weighs less. */
  lemma {:induction false} MergingIsCheapest(a: seq<Item>, b: seq<Item>, x: nat, y: nat)
    requires InWeightOrder(a) && InWeightOrder(b) && x <= |a| && y <= |b|
    ensures Sum(Merged(a, b)[..x + y]) <= Sum(a[..x]) + Sum(b[..y])
    decreases |a| + |b|
  {
    hide Merged, Sum, InWeightOrder;
    if a == [] || b == [] || x + y == 0 {
      NothingToChoose(a, b, x, y);
    } else if b[0].weight <= a[0].weight {
      HeadTaken(a, b, 1);
      RestInOrder(b);
      if y > 0 { MergingIsCheapest(a, b[1..], x, y - 1); } else { MergingIsCheapest(a, b[1..], x - 1, 0); }
      HeadIsCheapest(b, a, Merged(a, b[1..]), y, x);
    } else {
      HeadTaken(a, b, 1);
      RestInOrder(a);
      if x > 0 { MergingIsCheapest(a[1..], b, x - 1, y); } else { MergingIsCheapest(a[1..], b, 0, y - 1); }
      HeadIsCheapest(a, b, Merged(a[1..], b), x, y);
    }
  }

  lemma RestInOrder(s: seq<Item>)
    requires InWeightOrder(s) && s != []
    ensures InWeightOrder(s[1..])
  {
  }

  /** With the lightest item of all in front, which is the head of a. */
  lemma HeadIsCheapest(a: seq<Item>, b: seq<Item>, t: seq<Item>, x: nat, y: nat)
    requires InWeightOrder(b) && a != [] && b != [] && a[0].weight <= b[0].weight
    requires x <= |a| && y <= |b| && 0 < x + y <= |t| + 1
    requires x > 0 ==> Sum(t[..x + y - 1]) <= Sum(a[1..][..x - 1]) + Sum(b[..y])
    requires x == 0 ==> Sum(t[..y - 1]) <= Sum(a[1..][..0]) + Sum(b[..y - 1])
    ensures Sum(([a[0]] + t)[..x + y]) <= Sum(a[..x]) + Sum(b[..y])
  {
    SumHead(a[0], t, x + y);
    if x > 0 {
      SumHead(a[0], a[1..], x);
      assert [a[0]] + a[1..] == a;
    } else {
      SumNext(b, y - 1);
      assert a[1..][..0] == [] == a[..0];
      assert a[0].weight <= b[y - 1].weight;
    }
  }

  lemma SumHead(e: Item, s: seq<Item>, k: nat)
    requires 0 < k <= |s| + 1
    ensures Sum(([e] + s)[..k]) == e.weight + Sum(s[..k - 1])
  {
    assert ([e] + s)[..k] == [e] + s[..k - 1];
    SumFront(e, s[..k - 1]);
  }

  lemma NothingToChoose(a: seq<Item>, b: seq<Item>, x: nat, y: nat)
    requires x <= |a| && y <= |b| && (a == [] || b == [] || x + y == 0)
    ensures Sum(Merged(a, b)[..x + y]) == Sum(a[..x]) + Sum(b[..y])
  {
    assert a == [] ==> a[..x] == [];
    assert b == [] ==> b[..y] == [];
    assert x + y == 0 ==> Merged(a, b)[..x + y] == [] && a[..x] == [] && b[..y] == [];
  }

  // ---------- spending on width

  /** The weight of the k lightest leaves. */
  function Prefix(w: seq<int>, k: nat): int
    requires k <= |w|
  {
    if k == 0 then 0 else Prefix(w, k - 1) + w[k - 1]
  }

  /** x[c] leaves of width 2^c for every c. */
  function Width(x: seq<nat>): nat {
    if x == [] then 0 else Width(x[..|x| - 1]) + Shl(x[|x| - 1], |x| - 1)
  }

  /** The least weight that they can have. */
  function Spent(w: seq<int>, x: seq<nat>): int
    requires Bounded(x, |w|)
  {
    if x == [] then 0 else Spent(w, x[..|x| - 1]) + Prefix(w, x[|x| - 1])
  }

  lemma {:induction false} PrefixGrows(w: seq<int>, a: nat, b: nat)
    requires Sorted(w) && a <= b <= |w|
    ensures 0 <= Prefix(w, a) <= Prefix(w, b)
    decreases b
  {
    if b > 0 {
      if a < b { PrefixGrows(w, a, b - 1); } else { PrefixGrows(w, a - 1, b - 1); }
    }
  }

  lemma {:induction false} SpentIsNatural(w: seq<int>, x: seq<nat>)
    requires Sorted(w) && Bounded(x, |w|)
    ensures Spent(w, x) >= 0
  {
    if x != [] {
      SpentIsNatural(w, x[..|x| - 1]);
      PrefixGrows(w, 0, x[|x| - 1]);
    }
  }

  lemma {:induction false} SinglesWeigh(w: seq<int>, x: nat)
    requires x <= |w|
    ensures Sum(Singles(w)[..x]) == Prefix(w, x)
  {
    if x > 0 {
      SinglesWeigh(w, x - 1);
      SumNext(Singles(w), x - 1);
    }
  }

  /** List c begins with the least weight for the width of k of its items. */
  lemma {:induction false} LeastTotal(w: seq<int>, c: nat, k: nat, x: seq<nat>)
    requires Sorted(w) && |x| == c + 1 && Bounded(x, |w|) && Width(x) >= Shl(k, c)
    ensures k <= |Level(w, c)| && Sum(Level(w, c)[..k]) <= Spent(w, x)
    decreases c
  {
    var a, y := x[c], x[..c];
    assert Width(x) == Width(y) + Shl(a, c) && Spent(w, x) == Spent(w, y) + Prefix(w, a);
    SpentIsNatural(w, y);
    hide Width, Spent, Prefix;
    if c == 0 {
      assert Width(y) == 0 by { assert y == []; }
      ShlByNothing(k);
      ShlByNothing(a);
      SinglesWeigh(w, k);
      PrefixGrows(w, k, a);
    } else if k <= a {
      LeavesOnly(w, c, k);
      PrefixGrows(w, k, a);
    } else {
      var p := k - a;
      ShlAdd(p, a, c);
      ShlDouble(p, c - 1);
      LeastTotal(w, c - 1, 2 * p, y);
      LeavesAndPackages(w, c, a, p);
    }
  }

  lemma ShlByNothing(k: nat)
    ensures Shl(k, 0) == k
  {
  }

  lemma LeavesOnly(w: seq<int>, c: nat, k: nat)
    requires Sorted(w) && c > 0 && k <= |w|
    ensures k <= |Level(w, c)| && Sum(Level(w, c)[..k]) <= Prefix(w, k)
  {
    LeavesAndPackages(w, c, k, 0);
  }

  lemma LeavesAndPackages(w: seq<int>, c: nat, a: nat, p: nat)
    requires Sorted(w) && c > 0 && a <= |w| && 2 * p <= |Level(w, c - 1)|
    ensures a + p <= |Level(w, c)|
    ensures Sum(Level(w, c)[..a + p]) <= Prefix(w, a) + Sum(Level(w, c - 1)[..2 * p])
  {
    var below := Level(w, c - 1);
    LevelInOrder(w, c - 1);
    PairsInOrder(below);
    assert Level(w, c) == Merged(Singles(w), Pairs(below));
    hide Level, Merged, Pairs, Sum, Prefix, InWeightOrder;
    MergingIsCheapest(Singles(w), Pairs(below), a, p);
    SinglesWeigh(w, a);
    PairsBegin(below, p, 0);
  }

  // ---------- what a code spends

  /** The total length of the leaves, weighted. */
  function Cost(w: seq<int>, l: seq<nat>): int
    requires |w| == |l|
  {
    if l == [] then 0 else Cost(w[..|w| - 1], l[..|l| - 1]) + w[|w| - 1] * l[|l| - 1]
  }

  /** How many lengths are at least b. */
  function HowLong(l: seq<nat>, b: nat): (x: nat)
    ensures x <= |l|
  {
    if l == [] then 0 else HowLong(l[..|l| - 1], b) + (if l[|l| - 1] >= b then 1 else 0)
  }

  /** The lengths, as leaves of the widths 1, 2, 4, ... out of 2^m: one leaf for every bit of a length. */
  function Chosen(l: seq<nat>, m: nat, d: nat): (x: seq<nat>)
    requires d <= m
    ensures |x| == d && Bounded(x, |l|)
  {
    seq(d, c requires 0 <= c < d => HowLong(l, m - c))
  }

  function Excess(v: nat, t: nat): nat {
    if v > t then v - t else 0
  }

  /** The lengths beyond t. */
  function Beyond(l: seq<nat>, t: nat): (r: seq<nat>)
    ensures |r| == |l|
  {
    seq(|l|, i requires 0 <= i < |l| => Excess(l[i], t))
  }

  /** One bit more of every length that has it. */
  lemma {:induction false} OneBitMore(w: seq<int>, l: seq<nat>, t: nat)
    requires Sorted(w) && |w| == |l|
    ensures Cost(w, Beyond(l, t)) >= Cost(w, Beyond(l, t + 1)) + Prefix(w, HowLong(l, t + 1))
  {
    if l != [] {
      var n := |l| - 1;
      OneBitMore(w[..n], l[..n], t);
      CostBeyond(w, l, t);
      CostBeyond(w, l, t + 1);
      LastPrefix(w, l, t + 1);
      hide *;
      LastBitMore(w[n], l[n], t);
    }
  }

  lemma CostBeyond(w: seq<int>, l: seq<nat>, t: nat)
    requires |w| == |l| > 0
    ensures var n := |l| - 1;
      Cost(w, Beyond(l, t)) == Cost(w[..n], Beyond(l[..n], t)) + w[n] * Excess(l[n], t)
  {
    assert Beyond(l, t)[..|l| - 1] == Beyond(l[..|l| - 1], t);
  }

  lemma LastPrefix(w: seq<int>, l: seq<nat>, b: nat)
    requires Sorted(w) && |w| == |l| > 0
    ensures var n, k := |l| - 1, HowLong(l[..|l| - 1], b);
      Prefix(w, HowLong(l, b)) <= Prefix(w[..n], k) + (if l[n] >= b then w[n] else 0)
  {
    var n, k := |l| - 1, HowLong(l[..|l| - 1], b);
    SamePrefix(w, n, k);
  }

  lemma LastBitMore(w: int, v: nat, t: nat)
    ensures w * Excess(v, t) == w * Excess(v, t + 1) + (if v >= t + 1 then w else 0)
  {
    if v >= t + 1 { assert Excess(v, t) == Excess(v, t + 1) + 1; }
  }

  lemma {:induction false} SamePrefix(w: seq<int>, n: nat, k: nat)
    requires k <= n <= |w|
    ensures Prefix(w[..n], k) == Prefix(w, k)
    decreases k
  {
    if k > 0 { SamePrefix(w, n, k - 1); }
  }

  lemma {:induction false} NothingBeyond(w: seq<int>, l: seq<nat>, m: nat)
    requires |w| == |l| && Bounded(l, m)
    ensures Cost(w, Beyond(l, m)) == 0
  {
    if l != [] {
      NothingBeyond(w[..|w| - 1], l[..|l| - 1], m);
      CostBeyond(w, l, m);
      assert Excess(l[|l| - 1], m) == 0;
    }
  }

  /** The bits beyond m - d cost no less than that many of the lightest leaves. */
  lemma {:induction false} ChosenIsCheaper(w: seq<int>, l: seq<nat>, m: nat, d: nat)
    requires Sorted(w) && |w| == |l| && Bounded(l, m) && d <= m
    ensures Spent(w, Chosen(l, m, d)) <= Cost(w, Beyond(l, m - d))
    decreases d
  {
    if d == 0 {
      NothingBeyond(w, l, m);
    } else {
      ChosenIsCheaper(w, l, m, d - 1);
      assert Chosen(l, m, d)[..d - 1] == Chosen(l, m, d - 1);
      hide Cost, Beyond, Prefix, HowLong;
      OneBitMore(w, l, m - d);
    }
  }

  // ---------- the width of a code

  /** The widths 2^(m - v), ..., 2^(d - 1): what a length of v takes away from the 2^m. */
  function Taken(m: nat, d: nat, v: nat): nat
    requires d <= m
  {
    if d > 0 && v >= m - (d - 1) then Taken(m, d - 1, v) + Pow2(d - 1) else 0
  }

  function TakenByAll(l: seq<nat>, m: nat, d: nat): nat
    requires d <= m
  {
    if l == [] then 0 else TakenByAll(l[..|l| - 1], m, d) + Taken(m, d, l[|l| - 1])
  }

  lemma {:induction false} TakenNext(l: seq<nat>, m: nat, d: nat)
    requires 0 < d <= m
    ensures TakenByAll(l, m, d) == TakenByAll(l, m, d - 1) + Shl(HowLong(l, m - (d - 1)), d - 1)
  {
    if l == [] {
      ShlZero(d - 1);
    } else {
      TakenNext(l[..|l| - 1], m, d);
      ShlStep(HowLong(l[..|l| - 1], m - (d - 1)), d - 1);
      if l[|l| - 1] < m - (d - 1) { ShorterTakesNothing(m, d - 1, l[|l| - 1]); }
    }
  }

  lemma ShorterTakesNothing(m: nat, d: nat, v: nat)
    requires d <= m && v < m - d
    ensures Taken(m, d, v) == 0
  {
  }

  lemma {:induction false} WidthOfChosen(l: seq<nat>, m: nat, d: nat)
    requires d <= m
    ensures Width(Chosen(l, m, d)) == TakenByAll(l, m, d)
    decreases d
  {
    if d == 0 {
      NothingTaken(l, m);
    } else {
      WidthOfChosen(l, m, d - 1);
      assert Chosen(l, m, d)[..d - 1] == Chosen(l, m, d - 1);
      TakenNext(l, m, d);
    }
  }

  lemma {:induction false} NothingTaken(l: seq<nat>, m: nat)
    ensures TakenByAll(l, m, 0) == 0
  {
    if l != [] { NothingTaken(l[..|l| - 1], m); }
  }

  lemma {:induction false} TakenIs(m: nat, d: nat, v: nat)
    requires d <= m && m - d <= v <= m
    ensures Taken(m, d, v) == Pow2(d) - Pow2(m - v)
    decreases d
  {
    if v >= m - (d - 1) && d > 0 {
      TakenIs(m, d - 1, v);
    } else {
      assert d == m - v || d == 0;
    }
  }

  /** What the leaves take away is all but their strings. */
  lemma {:induction false} TakenByCode(l: seq<nat>, m: nat)
    requires forall i :: 0 <= i < |l| ==> 0 < l[i] <= m
    ensures TakenByAll(l, m, m) + KraftSum(l, m) == Shl(|l|, m)
  {
    if l == [] {
      ShlZero(m);
    } else {
      TakenByCode(l[..|l| - 1], m);
      TakenIs(m, m, l[|l| - 1]);
      ShlStep(|l| - 1, m);
    }
  }

  /** No code that fits spends less than the first 2n - 2 items of the last list. */
  lemma NoCodeIsCheaper(w: seq<int>, l: seq<nat>, m: nat)
    requires Sorted(w) && |w| == |l| >= 2 && m > 0
    requires (forall i :: 0 <= i < |l| ==> 0 < l[i] <= m) && KraftSum(l, m) <= Pow2(m)
    ensures 2 * |w| - 2 <= |Level(w, m - 1)|
    ensures Sum(Level(w, m - 1)[..2 * |w| - 2]) <= Cost(w, l)
  {
    hide *;
    AllBeyond(l, m);
    EnoughWidth(l, m);
    ChosenIsCheaper(w, l, m, m);
    LeastTotal(w, m - 1, 2 * |w| - 2, Chosen(l, m, m));
  }

  lemma AllBeyond(l: seq<nat>, m: nat)
    requires forall i :: 0 <= i < |l| ==> 0 < l[i] <= m
    ensures Bounded(l, m) && Beyond(l, 0) == l
  {
  }

  lemma EnoughWidth(l: seq<nat>, m: nat)
    requires |l| >= 2 && m > 0 && (forall i :: 0 <= i < |l| ==> 0 < l[i] <= m) && KraftSum(l, m) <= Pow2(m)
    ensures Width(Chosen(l, m, m)) >= Shl(2 * |l| - 2, m - 1)
  {
    hide Chosen, Width, KraftSum, TakenByAll, Shl;
    TakenByCode(l, m);
    WidthOfChosen(l, m, m);
    ShlStep(|l| - 1, m);
    ShlDouble(|l| - 1, m - 1);
  }

  // ---------- what package-merge spends

  function Bill(w: seq<int>, s: seq<Item>, m: nat): int
    requires m <= |w|
  {
    if m == 0 then 0 else Bill(w, s, m - 1) + w[m - 1] * Times(s, m - 1)
  }

  lemma {:induction false} BillAdds(w: seq<int>, s: seq<Item>, a: seq<Item>, b: seq<Item>, m: nat)
    requires m <= |w| && forall i: nat :: i < m ==> Times(s, i) == Times(a, i) + Times(b, i)
    ensures Bill(w, s, m) == Bill(w, a, m) + Bill(w, b, m)
  {
    hide Times;
    if m > 0 {
      BillAdds(w, s, a, b, m - 1);
      MulDist(w[m - 1], Times(a, m - 1), Times(b, m - 1));
    }
  }

  lemma BillOfBegin(w: seq<int>, c: nat, k: nat, m: nat)
    requires c > 0 && k <= |Level(w, c)| && m <= |w|
    ensures var x := Leaves(w, c, k);
      && 2 * (k - x) <= |Level(w, c - 1)|
      && Bill(w, Level(w, c)[..k], m)
         == Bill(w, Singles(w)[..x], m) + Bill(w, Level(w, c - 1)[..2 * (k - x)], m)
  {
    hide Level, Leaves, Singles, Times, Bill, Sum;
    var x := Leaves(w, c, k);
    LevelBegins(w, c, k, 0);
    var all, a, b := Level(w, c)[..k], Singles(w)[..x], Level(w, c - 1)[..2 * (k - x)];
    forall i: nat | i < m ensures Times(all, i) == Times(a, i) + Times(b, i) {
      LevelBegins(w, c, k, i);
      SinglesBegin(w, x, i);
    }
    BillAdds(w, all, a, b, m);
  }

  lemma {:induction false} BillOfLeaves(w: seq<int>, x: nat, m: nat)
    requires x <= |w| && m <= |w|
    ensures Bill(w, Singles(w)[..x], m) == Prefix(w, if x < m then x else m)
    decreases m
  {
    if m > 0 {
      BillOfLeaves(w, x, m - 1);
      SinglesBegin(w, x, m - 1);
    }
  }

  lemma LeavesBill(w: seq<int>, x: nat)
    requires x <= |w|
    ensures Bill(w, Singles(w)[..x], |w|) == Sum(Singles(w)[..x])
  {
    BillOfLeaves(w, x, |w|);
    SinglesWeigh(w, x);
  }

  lemma BottomLevel(w: seq<int>)
    ensures Level(w, 0) == Singles(w)
  {
  }

  /** The items weigh what their leaves weigh. */
  lemma {:induction false} BillIsSum(w: seq<int>, c: nat, k: nat)
    requires k <= |Level(w, c)|
    ensures Bill(w, Level(w, c)[..k], |w|) == Sum(Level(w, c)[..k])
    decreases c
  {
    hide *;
    if c == 0 {
      BottomLevel(w);
      LeavesBill(w, k);
    } else {
      LevelBegins(w, c, k, 0);
      BillOfBegin(w, c, k, |w|);
      LeavesBill(w, Leaves(w, c, k));
      BillIsSum(w, c - 1, 2 * (k - Leaves(w, c, k)));
    }
  }
}
