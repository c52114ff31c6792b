/** The stable bottom-up mergesort of the leaves. */
module LeafSort {
  import opened Bits

  /** A symbol with a nonzero frequency. */
  datatype Leaf = Leaf(weight: int, index: nat)

  ghost predicate Before(x: Leaf, y: Leaf) {
    x.weight < y.weight || (x.weight == y.weight && x.index < y.index)
  }

  /** Sorted by weight, and among equal weights by symbol. */
  ghost predicate InOrder(s: seq<Leaf>) {
    forall i, j :: 0 <= i < j < |s| ==> Before(s[i], s[j])
  }

  ghost predicate IndicesBelow(s: seq<Leaf>, t: seq<Leaf>) {
    forall x, y :: x in s && y in t ==> x.index < y.index
  }

  function Cut(a: nat, n: nat): nat { if a > n then n else a }

  function Merge(x: seq<Leaf>, y: seq<Leaf>): (r: seq<Leaf>)
    ensures |r| == |x| + |y|
  {
    if x == [] then y
    else if y == [] then x
    else if x[0].weight <= y[0].weight then [x[0]] + Merge(x[1..], y)
    else [y[0]] + Merge(x, y[1..])
  }

  /** One pass: neighbouring runs of the given width are merged in pairs. */
  function Pass(s: seq<Leaf>, width: nat): (r: seq<Leaf>)
    requires width > 0
    ensures |r| == |s|
  {
    if s == [] then []
    else
      var q, e := Cut(width, |s|), Cut(2 * width, |s|);
      Merge(s[..q], s[q..e]) + Pass(s[e..], width)
  }

  /** Runs of the given width are in order, and symbols of earlier runs come before later ones. */
  ghost predicate Runs(s: seq<Leaf>, width: nat)
    requires width > 0
  {
    s == [] ||
    var q := Cut(width, |s|);
    InOrder(s[..q]) && IndicesBelow(s[..q], s[q..]) && Runs(s[q..], width)
  }

  lemma {:induction false} MergeElements(x: seq<Leaf>, y: seq<Leaf>)
    ensures multiset(Merge(x, y)) == multiset(x) + multiset(y)
  {
    if x != [] && y != [] {
      assert Merge(x, y) == if x[0].weight <= y[0].weight then [x[0]] + Merge(x[1..], y) else [y[0]] + Merge(x, y[1..]);
      hide Merge;
      if x[0].weight <= y[0].weight {
        MergeElements(x[1..], y);
        assert x == [x[0]] + x[1..];
      } else {
        MergeElements(x, y[1..]);
        assert y == [y[0]] + y[1..];
      }
    }
  }

  lemma SameElements(s: seq<Leaf>, t: seq<Leaf>)
    requires multiset(s) == multiset(t)
    ensures forall x :: x in s <==> x in t
  {
    assert forall x :: x in s <==> x in multiset(s);
    assert forall x :: x in t <==> x in multiset(t);
  }

  lemma MergeMembers(x: seq<Leaf>, y: seq<Leaf>)
    ensures forall e :: e in Merge(x, y) <==> e in x || e in y
  {
    MergeElements(x, y);
    assert multiset(x + y) == multiset(x) + multiset(y);
    SameElements(Merge(x, y), x + y);
  }

  lemma {:induction false} MergeInOrder(x: seq<Leaf>, y: seq<Leaf>)
    requires InOrder(x) && InOrder(y) && IndicesBelow(x, y)
    ensures InOrder(Merge(x, y))
  {
    if x != [] && y != [] {
      if x[0].weight <= y[0].weight {
        MergeInOrder(x[1..], y);
        MergeMembers(x[1..], y);
        assert forall e :: e in Merge(x[1..], y) ==> Before(x[0], e);
      } else {
        MergeInOrder(x, y[1..]);
        MergeMembers(x, y[1..]);
        assert forall e :: e in Merge(x, y[1..]) ==> Before(y[0], e);
      }
    }
  }

  lemma ThreeParts(s: seq<Leaf>, q: nat, e: nat)
    requires q <= e <= |s|
    ensures multiset(s) == multiset(s[..q]) + multiset(s[q..e]) + multiset(s[e..])
  {
    assert s == (s[..q] + s[q..e]) + s[e..];
    assert s[..q] + s[q..e] == s[..e];
  }

  lemma {:induction false} PassElements(s: seq<Leaf>, width: nat)
    requires width > 0
    ensures multiset(Pass(s, width)) == multiset(s)
  {
    if s != [] {
      var q, e := Cut(width, |s|), Cut(2 * width, |s|);
      MergeElements(s[..q], s[q..e]);
      PassElements(s[e..], width);
      ThreeParts(s, q, e);
    }
  }

  lemma {:induction false} PassRuns(s: seq<Leaf>, width: nat)
    requires width > 0 && Runs(s, width)
    ensures Runs(Pass(s, width), 2 * width)
  {
    if s != [] {
      var q, e := Cut(width, |s|), Cut(2 * width, |s|);
      var x, y, z := s[..q], s[q..e], s[e..];
      SecondRun(s, width);
      MergeInOrder(x, y);
      MergeMembers(x, y);
      PassRuns(z, width);
      PassElements(z, width);
      SameElements(Pass(z, width), z);
      var r := Pass(s, width);
      assert r[..e] == Merge(x, y) && r[e..] == Pass(z, width);
      assert forall u :: u in y ==> u in s[q..];
    }
  }

  lemma SecondRun(s: seq<Leaf>, width: nat)
    requires width > 0 && s != [] && Runs(s, width)
    ensures var q, e := Cut(width, |s|), Cut(2 * width, |s|);
      && InOrder(s[..q]) && InOrder(s[q..e]) && Runs(s[e..], width)
      && IndicesBelow(s[..q], s[q..e]) && IndicesBelow(s[..q], s[e..]) && IndicesBelow(s[q..e], s[e..])
  {
    var q, e := Cut(width, |s|), Cut(2 * width, |s|);
    var t := s[q..];
    if t != [] {
      var q' := Cut(width, |t|);
      assert t[..q'] == s[q..e] && t[q'..] == s[e..];
    } else {
      assert s[q..e] == [] && s[e..] == [];
    }
    assert forall u :: u in s[q..e] || u in s[e..] ==> u in s[q..];
  }

  lemma {:induction false} SingleRuns(s: seq<Leaf>)
    requires forall i, j :: 0 <= i < j < |s| ==> s[i].index < s[j].index
    ensures Runs(s, 1)
  {
    if s != [] { SingleRuns(s[1..]); }
  }

  lemma WholeRun(s: seq<Leaf>, width: nat)
    requires 0 < width && |s| <= width && Runs(s, width)
    ensures InOrder(s)
  {
    if s != [] { assert s[..|s|] == s; }
  }

  /** Merges the runs a[p..q] and a[q..r] into b[p..r]. */
  method MergeRuns(a: array<Leaf>, b: array<Leaf>, p: nat, q: nat, r: nat)
    requires a != b && p <= q <= r <= a.Length && r <= b.Length
    modifies b
    ensures b[p..r] == Merge(a[p..q], a[q..r])
    ensures forall x :: 0 <= x < b.Length && !(p <= x < r) ==> b[x] == old(b[x])
  {
    var i, j := p, q;
    ghost var s, done := a[..], [];
    for k := p to r
      invariant p <= i <= q <= j <= r && (i - p) + (j - q) == k - p
      invariant a[..] == s && b[p..k] == done
      invariant done + MergeFrom(s, i, q, j, r) == MergeFrom(s, p, q, q, r)
      invariant forall x :: 0 <= x < b.Length && !(p <= x < r) ==> b[x] == old(b[x])
    {
      if i < q && (j >= r || a[i].weight <= a[j].weight) {
        b[k] := a[i];
        i := i + 1;
      } else {
        b[k] := a[j];
        j := j + 1;
      }
      assert b[p..k + 1] == done + [b[k]];
      Regroup(done, [b[k]], MergeFrom(s, i, q, j, r));
      done := done + [b[k]];
    }
    MergeFromIs(s, p, q, q, r);
  }

  /** Merge, by positions in one sequence. */
  ghost function MergeFrom(s: seq<Leaf>, i: nat, q: nat, j: nat, r: nat): seq<Leaf>
    requires i <= q <= j <= r <= |s|
    decreases q - i + r - j
  {
    if i < q && (j >= r || s[i].weight <= s[j].weight) then [s[i]] + MergeFrom(s, i + 1, q, j, r)
    else if j < r then [s[j]] + MergeFrom(s, i, q, j + 1, r)
    else []
  }

  lemma NothingMerged()
    ensures Merge([], []) == []
  {
  }

  lemma {:induction false} MergeFromIs(s: seq<Leaf>, i: nat, q: nat, j: nat, r: nat)
    requires i <= q <= j <= r <= |s|
    ensures MergeFrom(s, i, q, j, r) == Merge(s[i..q], s[j..r])
    decreases q - i + r - j
  {
    NothingMerged();
    hide Merge;
    if i < q || j < r { MergeStep(s, i, q, j, r); }
    if i < q && (j >= r || s[i].weight <= s[j].weight) {
      MergeFromIs(s, i + 1, q, j, r);
    } else if j < r {
      MergeFromIs(s, i, q, j + 1, r);
    }
  }

  lemma MergeStep(s: seq<Leaf>, i: nat, q: nat, j: nat, r: nat)
    requires i <= q <= j <= r <= |s| && (i < q || j < r)
    ensures Merge(s[i..q], s[j..r]) ==
      if i < q && (j >= r || s[i].weight <= s[j].weight) then [s[i]] + Merge(s[i + 1..q], s[j..r])
      else [s[j]] + Merge(s[i..q], s[j + 1..r])
  {
    if i < q { assert s[i..q][1..] == s[i + 1..q]; }
    if j < r { assert s[j..r][1..] == s[j + 1..r]; }
    if j == r && i < q { assert s[i..q] == [s[i]] + s[i + 1..q]; }
    if i == q { assert s[j..r] == [s[j]] + s[j + 1..r]; }
  }

  /** One pass over the first num leaves, from a to b. */
  method MergePass(a: array<Leaf>, b: array<Leaf>, num: nat, width: nat)
    requires a != b && num <= a.Length && num <= b.Length && width > 0
    modifies b
    ensures b[..num] == Pass(a[..num], width)
  {
    hide Pass, PassFrom, Merge;
    ghost var whole, s, done := a[..], a[..num], [];
    var p := 0;
    while p < num
      invariant 0 <= p && a[..] == whole
      invariant b[..Cut(p, num)] == done
      invariant done + PassFrom(s, Cut(p, num), width) == PassFrom(s, 0, width)
    {
      var q := if p + width > num then num else p + width;
      var r := if p + 2 * width > num then num else p + 2 * width;
      PrefixSlice(whole, num, p, q);
      PrefixSlice(whole, num, q, r);
      assert a[p..q] == whole[p..q] && a[q..r] == whole[q..r];
      MergeRuns(a, b, p, q, r);
      ghost var m := b[p..r];
      assert b[..r] == done + m;
      PassFromStep(s, done, m, p, q, r, width);
      done := done + m;
      p := p + 2 * width;
    }
    PassFromEnd(s, width);
    PassFromIs(s, 0, width);
    assert s[0..] == s;
  }

  lemma PassFromEnd(s: seq<Leaf>, width: nat)
    requires width > 0
    ensures PassFrom(s, |s|, width) == []
  {
  }

  lemma PassFromStep(s: seq<Leaf>, done: seq<Leaf>, m: seq<Leaf>, p: nat, q: nat, r: nat, width: nat)
    requires width > 0 && p < |s| && q == Cut(p + width, |s|) && r == Cut(p + 2 * width, |s|)
    requires m == Merge(s[p..q], s[q..r])
    ensures (done + m) + PassFrom(s, r, width) == done + PassFrom(s, p, width)
  {
    Regroup(done, m, PassFrom(s, r, width));
  }

  /** Pass, from position p on. */
  ghost function PassFrom(s: seq<Leaf>, p: nat, width: nat): seq<Leaf>
    requires p <= |s| && width > 0
    decreases |s| - p
  {
    if p == |s| then []
    else
      var q, r := Cut(p + width, |s|), Cut(p + 2 * width, |s|);
      Merge(s[p..q], s[q..r]) + PassFrom(s, r, width)
  }

  lemma {:induction false} PassFromIs(s: seq<Leaf>, p: nat, width: nat)
    requires p <= |s| && width > 0
    ensures PassFrom(s, p, width) == Pass(s[p..], width)
    decreases |s| - p
  {
    if p < |s| {
      var q, r := Cut(p + width, |s|), Cut(p + 2 * width, |s|);
      PassStep(s, p, q, r, width);
      PassFromIs(s, r, width);
    }
  }

  lemma PassStep(s: seq<Leaf>, p: nat, q: nat, r: nat, width: nat)
    requires width > 0 && p < |s| && q == Cut(p + width, |s|) && r == Cut(p + 2 * width, |s|)
    ensures Pass(s[p..], width) == Merge(s[p..q], s[q..r]) + Pass(s[r..], width)
  {
    var t := s[p..];
    assert t[..q - p] == s[p..q] && t[q - p..r - p] == s[q..r] && t[r - p..] == s[r..];
  }

  lemma Parity(n: nat)
    ensures (n + 1) % 2 == 1 - n % 2
  {
  }

  /** Sorts the first num leaves, given in the order of their symbols. */
  method Sort(leaves: array<Leaf>, num: nat)
    requires num <= leaves.Length
    requires forall i, j :: 0 <= i < j < num ==> leaves[i].index < leaves[j].index
    modifies leaves
    ensures InOrder(leaves[..num])
    ensures multiset(leaves[..num]) == multiset(old(leaves[..num]))
  {
    hide Pass, Runs, InOrder;
    ghost var was := leaves[..num];
    SingleRuns(was);
    var mem := new Leaf[num](_ => Leaf(0, 0));
    var width, counter := 1, 0;
    ghost var cur := was;
    while width < num
      invariant width > 0 && counter >= 0
      invariant cur == if counter % 2 == 1 then mem[..num] else leaves[..num]
      invariant Runs(cur, width) && multiset(cur) == multiset(was)
      decreases num - width
    {
      PassRuns(cur, width);
      PassElements(cur, width);
      Parity(counter);
      if counter % 2 == 1 {
        MergePass(mem, leaves, num, width);
      } else {
        MergePass(leaves, mem, num, width);
      }
      cur := Pass(cur, width);
      width := width * 2;
      counter := counter + 1;
    }
    WholeRun(cur, width);
    if counter % 2 == 1 {
      forall i | 0 <= i < num { leaves[i] := mem[i]; }
      assert leaves[..num] == cur;
    }
  }
}
