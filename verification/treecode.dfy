/** How a dynamic block stores its two trees, and that the decoder takes this back. */
module TreeCode {
  import opened Bits
  import opened Canonical
  import opened DeflateSpec
  import opened DeflateCode

  // ---------- run-length coded code lengths

  /** One code of the code length alphabet with its extra bits. */
  datatype Run = Length(v: nat) | Again(n: nat) | Zeroes(n: nat)

  ghost predicate RunOk(r: Run) {
    match r
    case Length(v) => v <= 15
    case Again(n) => 3 <= n <= 6
    case Zeroes(n) => 3 <= n <= 138
  }

  function RunSymbol(r: Run): nat {
    match r
    case Length(v) => v
    case Again(_) => 16
    case Zeroes(n) => if n <= 10 then 17 else 18
  }

  function RunExtra(r: Run): nat
    requires RunOk(r) && !r.Length?
  {
    if r.Again? then r.n - 3 else if r.n <= 10 then r.n - 3 else r.n - 11
  }

  function RunExtraBits(symbol: nat): nat {
    if symbol == 16 then 2 else if symbol == 17 then 3 else 7
  }

  /** The numbers that stand for a run between the two stages of the encoder. */
  function RunFlat(r: Run): seq<nat>
    requires RunOk(r)
  {
    if r.Length? then [r.v] else [RunSymbol(r), RunExtra(r)]
  }

  ghost predicate RunFits(acc: seq<nat>, r: Run) {
    r.Again? ==> acc != []
  }

  function RunApply(acc: seq<nat>, r: Run): (a: seq<nat>)
    requires RunFits(acc, r)
  {
    match r
    case Length(v) => acc + [v]
    case Again(n) => acc + Repeat(acc[|acc| - 1], n)
    case Zeroes(n) => acc + Repeat(0, n)
  }

  ghost predicate RunsOk(rs: seq<Run>) {
    forall i :: 0 <= i < |rs| ==> RunOk(rs[i])
  }

  ghost predicate RunsFit(acc: seq<nat>, rs: seq<Run>)
    decreases rs
  {
    rs == [] || (RunFits(acc, rs[0]) && RunsFit(RunApply(acc, rs[0]), rs[1..]))
  }

  function RunsExpand(acc: seq<nat>, rs: seq<Run>): (a: seq<nat>)
    requires RunsFit(acc, rs)
    ensures |a| >= |acc|
    decreases rs
  {
    if rs == [] then acc else RunsExpand(RunApply(acc, rs[0]), rs[1..])
  }

  function RunsFlat(rs: seq<Run>): seq<nat>
    requires RunsOk(rs)
  {
    if rs == [] then [] else RunFlat(rs[0]) + RunsFlat(rs[1..])
  }

  lemma {:induction false} RunsAppend(acc: seq<nat>, rs: seq<Run>, r: Run)
    requires RunsOk(rs) && RunOk(r) && RunsFit(acc, rs) && RunFits(RunsExpand(acc, rs), r)
    ensures RunsOk(rs + [r]) && RunsFit(acc, rs + [r])
    ensures RunsExpand(acc, rs + [r]) == RunApply(RunsExpand(acc, rs), r)
    ensures RunsFlat(rs + [r]) == RunsFlat(rs) + RunFlat(r)
    decreases rs
  {
    if rs == [] {
      assert [r][1..] == [] && [] + [r] == [r];
    } else {
      assert (rs + [r])[1..] == rs[1..] + [r];
      RunsAppend(RunApply(acc, rs[0]), rs[1..], r);
    }
  }

  /** The coded form is never longer than the lengths themselves. */
  lemma {:induction false} RunsShort(acc: seq<nat>, rs: seq<Run>)
    requires RunsOk(rs) && RunsFit(acc, rs)
    ensures |RunsFlat(rs)| + |acc| <= |RunsExpand(acc, rs)|
    decreases rs
  {
    if rs != [] { RunsShort(RunApply(acc, rs[0]), rs[1..]); }
  }

  ghost predicate RunCoded(cl: seq<nat>, r: Run) {
    RunSymbol(r) < |cl| && cl[RunSymbol(r)] > 0
  }

  function RunBits(cl: seq<nat>, r: Run, rest: seq<bool>): seq<bool>
    requires RunOk(r) && RunCoded(cl, r)
  {
    if r.Length? then Code(cl, r.v) + rest
    else Code(cl, RunSymbol(r)) + (BitsOf(RunExtra(r), RunExtraBits(RunSymbol(r))) + rest)
  }

  ghost predicate RunsCoded(cl: seq<nat>, rs: seq<Run>) {
    forall i :: 0 <= i < |rs| ==> RunOk(rs[i]) && RunCoded(cl, rs[i])
  }

  function RunsBits(cl: seq<nat>, rs: seq<Run>, rest: seq<bool>): seq<bool>
    requires RunsCoded(cl, rs)
    decreases rs
  {
    if rs == [] then rest else RunBits(cl, rs[0], RunsBits(cl, rs[1..], rest))
  }

  lemma RunBitsRest(cl: seq<nat>, r: Run, rest: seq<bool>)
    requires RunOk(r) && RunCoded(cl, r)
    ensures RunBits(cl, r, rest) == RunBits(cl, r, []) + rest
  {
    if r.Length? {
      assert Code(cl, r.v) + [] == Code(cl, r.v);
    } else {
      Chain3(Code(cl, RunSymbol(r)), BitsOf(RunExtra(r), RunExtraBits(RunSymbol(r))), rest);
    }
  }

  lemma Chain3(a: seq<bool>, b: seq<bool>, rest: seq<bool>)
    ensures a + (b + rest) == (a + (b + [])) + rest
  {
    assert b + [] == b;
  }

  lemma {:induction false} RunsBitsAppend(cl: seq<nat>, rs: seq<Run>, r: Run, rest: seq<bool>)
    requires RunsCoded(cl, rs) && RunOk(r) && RunCoded(cl, r)
    ensures RunsCoded(cl, rs + [r])
    ensures RunsBits(cl, rs + [r], rest) == RunsBits(cl, rs, RunBits(cl, r, rest))
  {
    if rs == [] {
      assert [r][1..] == [];
    } else {
      assert (rs + [r])[1..] == rs[1..] + [r];
      RunsBitsAppend(cl, rs[1..], r, rest);
    }
  }

  lemma {:induction false} RunsBitsRest(cl: seq<nat>, rs: seq<Run>, rest: seq<bool>)
    requires RunsCoded(cl, rs)
    ensures RunsBits(cl, rs, rest) == RunsBits(cl, rs, []) + rest
    decreases rs
  {
    if rs != [] {
      RunsBitsRest(cl, rs[1..], rest);
      RunBitsRest(cl, rs[0], RunsBits(cl, rs[1..], rest));
      RunBitsRest(cl, rs[0], RunsBits(cl, rs[1..], []));
    }
  }

  /** Reading one run. */
  lemma RunInverts(cl: seq<nat>, total: nat, r: Run, rest: seq<bool>, acc: seq<nat>)
    requires |cl| == 19 && Decodable(cl) && RunOk(r) && RunCoded(cl, r) && RunFits(acc, r)
    requires |RunApply(acc, r)| <= total
    ensures |acc| < total && NextRun(cl, total, RunBits(cl, r, rest), acc) == Got(RunApply(acc, r), rest)
  {
    assert Pow2(2) == 4 && Pow2(3) == 8 && Pow2(7) == 128;
    hide Symbol, Number, NextRun, Code, BitsOf, Repeat, Pow2, Decodable;
    if r.Length? {
      SymbolInverts(cl, r.v, rest);
      LengthStep(cl, total, RunBits(cl, r, rest), rest, r.v, acc);
    } else {
      var v, x, k := RunSymbol(r), RunExtra(r), RunExtraBits(RunSymbol(r));
      SymbolInverts(cl, v, BitsOf(x, k) + rest);
      NumberInverts(x, k, rest);
      RepeatStep(cl, total, RunBits(cl, r, rest), BitsOf(x, k) + rest, rest, v, x, acc);
    }
  }

  lemma LengthStep(cl: seq<nat>, total: nat, s: seq<bool>, s1: seq<bool>, v: nat, acc: seq<nat>)
    requires |cl| == 19 && v <= 15 && Symbol(cl, s) == Got(v, s1) && |acc| < total
    ensures NextRun(cl, total, s, acc) == Got(acc + [v], s1)
  {
  }

  lemma RepeatStep(cl: seq<nat>, total: nat, s: seq<bool>, s1: seq<bool>, s2: seq<bool>, v: nat, x: nat, acc: seq<nat>)
    requires |cl| == 19 && v > 15 && Symbol(cl, s) == Got(v, s1) && Number(s1, RunExtraBits(v)) == Got(x, s2)
    requires v == 16 ==> acc != []
    requires |acc| + x + (if v == 18 then 11 else 3) <= total
    ensures |acc| < total && NextRun(cl, total, s, acc)
      == Got(acc + Repeat(if v == 16 then acc[|acc| - 1] else 0, x + (if v == 18 then 11 else 3)), s2)
  {
  }

  lemma {:induction false} RunsInvert(cl: seq<nat>, total: nat, rs: seq<Run>, rest: seq<bool>, acc: seq<nat>)
    requires |cl| == 19 && Decodable(cl) && RunsCoded(cl, rs) && RunsFit(acc, rs)
    requires |RunsExpand(acc, rs)| == total && |acc| <= total
    ensures RunLengths(cl, total, RunsBits(cl, rs, rest), acc) == Got(RunsExpand(acc, rs), rest)
    decreases rs
  {
    if rs != [] {
      RunInverts(cl, total, rs[0], RunsBits(cl, rs[1..], rest), acc);
      RunsInvert(cl, total, rs[1..], rest, RunApply(acc, rs[0]));
    }
  }

  lemma RunsInvertTo(cl: seq<nat>, rs: seq<Run>, rest: seq<bool>, lens: seq<nat>)
    requires |cl| == 19 && Decodable(cl) && RunsCoded(cl, rs) && RunsFit([], rs) && RunsExpand([], rs) == lens
    ensures RunLengths(cl, |lens|, RunsBits(cl, rs, rest), []) == Got(lens, rest)
  {
    RunsInvert(cl, |lens|, rs, rest, []);
  }

  // ---------- the lengths of the code length code

  /** Where each symbol of the code length alphabet stands in the order of the format. */
  function ClPlace(k: nat): (i: nat)
    requires k < 19
    ensures i < 19
  {
    if k >= 16 then k - 16 else if k == 0 then 3 else if k >= 8 then 4 + 2 * (k - 8) else 3 + 2 * (8 - k)
  }

  lemma OrderIsPermutation(k: nat)
    requires k < 19
    ensures ClOrder(ClPlace(k)) == k && ClPlace(ClOrder(k)) == k
  {
  }

  function ClBits(cl: seq<nat>, n: nat, i: nat, rest: seq<bool>): seq<bool>
    requires i <= n <= 19 && |cl| == 19
    decreases n - i
  {
    if i == n then rest else
      OrderIsPermutation(i);
      BitsOf(cl[ClOrder(i)], 3) + ClBits(cl, n, i + 1, rest)
  }

  /** The lengths with only the first i in the order of the format filled in. */
  ghost function FilledUpTo(cl: seq<nat>, i: nat): (a: seq<nat>)
    requires |cl| == 19
    ensures |a| == 19
  {
    seq(19, k requires 0 <= k < 19 => if ClPlace(k) < i then cl[k] else 0)
  }

  lemma FillNext(cl: seq<nat>, i: nat)
    requires |cl| == 19 && i < 19
    ensures ClOrder(i) < 19
    ensures FilledUpTo(cl, i + 1) == FilledUpTo(cl, i)[ClOrder(i) := cl[ClOrder(i)]]
  {
    OrderIsPermutation(i);
    var a, b := FilledUpTo(cl, i + 1), FilledUpTo(cl, i)[ClOrder(i) := cl[ClOrder(i)]];
    forall k | 0 <= k < 19 ensures a[k] == b[k] {
      OrderIsPermutation(k);
    }
  }

  lemma {:induction false} ClLengthsInvert(cl: seq<nat>, n: nat, i: nat, rest: seq<bool>)
    requires i <= n <= 19 && |cl| == 19 && Bounded(cl, 7)
    ensures ClLengths(ClBits(cl, n, i, rest), n, i, FilledUpTo(cl, i)) == Got(FilledUpTo(cl, n), rest)
    decreases n - i
  {
    if i < n {
      FillNext(cl, i);
      assert Pow2(3) == 8;
      NumberInverts(cl[ClOrder(i)], 3, ClBits(cl, n, i + 1, rest));
      ClLengthsInvert(cl, n, i + 1, rest);
    }
  }

  lemma {:induction false} ClBitsAppend(cl: seq<nat>, n: nat, i: nat, rest: seq<bool>)
    requires i <= n < 19 && |cl| == 19
    ensures ClOrder(n) < 19
    ensures ClBits(cl, n + 1, i, rest) == ClBits(cl, n, i, BitsOf(cl[ClOrder(n)], 3) + rest)
    decreases n - i
  {
    OrderIsPermutation(n);
    if i < n { ClBitsAppend(cl, n, i + 1, rest); }
  }

  lemma {:induction false} ClBitsRest(cl: seq<nat>, n: nat, i: nat, rest: seq<bool>)
    requires i <= n <= 19 && |cl| == 19
    ensures ClBits(cl, n, i, rest) == ClBits(cl, n, i, []) + rest
    decreases n - i
  {
    if i < n {
      OrderIsPermutation(i);
      ClBitsRest(cl, n, i + 1, rest);
      Regroup(BitsOf(cl[ClOrder(i)], 3), ClBits(cl, n, i + 1, []), rest);
    }
  }

  // ---------- trailing zero lengths

  /** Symbols without a code at the end change nothing. */
  lemma {:induction false} PaddingKeeps(lens: seq<nat>, k: nat, b: nat)
    ensures Used(lens + Repeat(0, k), b) == Used(lens, b)
    ensures Present(lens + Repeat(0, k)) == Present(lens)
    decreases k
  {
    if k == 0 {
      assert lens + Repeat(0, 0) == lens;
    } else {
      var padded := lens + Repeat(0, k - 1);
      PaddingKeeps(lens, k - 1, b);
      assert lens + Repeat(0, k) == padded + [0];
      UsedAppend(padded, 0, b);
      assert (padded + [0])[..|padded|] == padded;
    }
  }

  lemma PaddingCode(lens: seq<nat>, k: nat, i: nat)
    requires i < |lens| && lens[i] > 0
    ensures (lens + Repeat(0, k))[i] == lens[i] && Code(lens + Repeat(0, k), i) == Code(lens, i)
  {
    PaddingKeeps(lens, k, lens[i] - 1);
    assert (lens + Repeat(0, k))[..i] == lens[..i];
  }

  /** A complete code of at least two symbols, as the encoder makes them. */
  ghost predicate FullCode(lens: seq<nat>, m: nat) {
    Bounded(lens, m) && m <= 15 && Used(lens, 15) == Pow2(15)
  }

  lemma FullIsDecodable(lens: seq<nat>, m: nat)
    requires FullCode(lens, m)
    ensures Decodable(lens)
  {
  }

  lemma PaddedFull(lens: seq<nat>, k: nat)
    requires FullCode(lens, 15)
    ensures FullCode(lens + Repeat(0, k), 15) && TreeOk(lens + Repeat(0, k)) && Decodable(lens + Repeat(0, k))
  {
    PaddingKeeps(lens, k, 15);
  }

  // ---------- the header of a dynamic block

  function HeaderBits(hlit: nat, hdist: nat, hclen: nat, cl: seq<nat>, rs: seq<Run>, rest: seq<bool>): seq<bool>
    requires 257 <= hlit <= 288 && 1 <= hdist <= 32 && 4 <= hclen <= 19 && |cl| == 19 && RunsCoded(cl, rs)
  {
    BitsOf(hlit - 257, 5) + (BitsOf(hdist - 1, 5)
      + (BitsOf(hclen - 4, 4) + ClBits(cl, hclen, 0, RunsBits(cl, rs, rest))))
  }

  /** What the encoder guarantees of a header. */
  ghost predicate HeaderOk(ll: seq<nat>, dd: seq<nat>, hclen: nat, cl: seq<nat>, rs: seq<Run>) {
    && 257 <= |ll| <= 286 && 1 <= |dd| <= 30 && 4 <= hclen <= 19 && |cl| == 19
    && FullCode(ll, 15) && FullCode(dd, 15) && FullCode(cl, 7) && ll[END_CODE] > 0
    && RunsCoded(cl, rs) && RunsFit([], rs) && RunsExpand([], rs) == ll + dd
    && FilledUpTo(cl, hclen) == cl
  }

  lemma TwoTreesInvert(ll: seq<nat>, dd: seq<nat>, hclen: nat, cl: seq<nat>, rs: seq<Run>, rest: seq<bool>)
    requires HeaderOk(ll, dd, hclen, cl, rs)
    ensures TwoTrees(cl, |ll|, |dd|, RunsBits(cl, rs, rest))
         == Got((ll + Repeat(0, 288 - |ll|), dd + Repeat(0, 32 - |dd|)), rest)
  {
    hide RunsBits, RunsExpand, RunsFit, RunsCoded, FullCode, TreeOk, Decodable, FilledUpTo, Used, TwoTrees, RunLengths,
         Repeat;
    FullIsDecodable(cl, 7);
    RunsInvertTo(cl, rs, rest, ll + dd);
    PaddedFull(ll, 288 - |ll|);
    PaddedFull(dd, 32 - |dd|);
    TwoTreesStep(cl, |ll|, |dd|, RunsBits(cl, rs, rest), ll, dd, rest);
  }

  lemma TwoTreesStep(cl: seq<nat>, hlit: nat, hdist: nat, s: seq<bool>, ll: seq<nat>, dd: seq<nat>, rest: seq<bool>)
    requires |cl| == 19 && 257 <= hlit == |ll| <= 288 && 1 <= hdist == |dd| <= 32
    requires RunLengths(cl, |ll + dd|, s, []) == Got(ll + dd, rest) && ll[END_CODE] != 0
    requires TreeOk(ll + Repeat(0, 288 - hlit)) && TreeOk(dd + Repeat(0, 32 - hdist))
    ensures TwoTrees(cl, hlit, hdist, s) == Got((ll + Repeat(0, 288 - hlit), dd + Repeat(0, 32 - hdist)), rest)
  {
    assert (ll + dd)[..hlit] == ll && (ll + dd)[hlit..] == dd;
  }

  lemma TreesAfterCountsInvert(ll: seq<nat>, dd: seq<nat>, hclen: nat, cl: seq<nat>, rs: seq<Run>, rest: seq<bool>)
    requires HeaderOk(ll, dd, hclen, cl, rs)
    ensures TreesAfterCounts(|ll|, |dd|, hclen, ClBits(cl, hclen, 0, RunsBits(cl, rs, rest)))
         == Got((ll + Repeat(0, 288 - |ll|), dd + Repeat(0, 32 - |dd|)), rest)
  {
    assert FilledUpTo(cl, 0) == Repeat(0, 19);
    ClLengthsInvert(cl, hclen, 0, RunsBits(cl, rs, rest));
    TwoTreesInvert(ll, dd, hclen, cl, rs, rest);
  }

  /** The decoder reads back the two trees. */
  lemma HeaderInverts(ll: seq<nat>, dd: seq<nat>, hclen: nat, cl: seq<nat>, rs: seq<Run>, rest: seq<bool>)
    requires HeaderOk(ll, dd, hclen, cl, rs)
    ensures DynamicTrees(HeaderBits(|ll|, |dd|, hclen, cl, rs, rest))
         == Got((ll + Repeat(0, 288 - |ll|), dd + Repeat(0, 32 - |dd|)), rest)
  {
    CountsInvert(|ll| - 257, |dd| - 1, hclen - 4, ClBits(cl, hclen, 0, RunsBits(cl, rs, rest)));
    TreesAfterCountsInvert(ll, dd, hclen, cl, rs, rest);
  }

  lemma CountsInvert(a: nat, b: nat, c: nat, s3: seq<bool>)
    requires a < 32 && b < 32 && c < 16
    ensures DynamicTrees(BitsOf(a, 5) + (BitsOf(b, 5) + (BitsOf(c, 4) + s3)))
      == TreesAfterCounts(a + 257, b + 1, c + 4, s3)
  {
    var s2 := BitsOf(c, 4) + s3;
    var s1 := BitsOf(b, 5) + s2;
    assert Pow2(5) == 32 && Pow2(4) == 16;
    NumberInverts(a, 5, s1);
    NumberInverts(b, 5, s2);
    NumberInverts(c, 4, s3);
    CountsStep(BitsOf(a, 5) + s1, s1, s2, s3, a, b, c);
  }

  lemma CountsStep(s: seq<bool>, s1: seq<bool>, s2: seq<bool>, s3: seq<bool>, a: nat, b: nat, c: nat)
    requires Number(s, 5) == Got(a, s1) && Number(s1, 5) == Got(b, s2) && Number(s2, 4) == Got(c, s3)
    requires a < 32 && b < 32 && c < 16
    ensures DynamicTrees(s) == TreesAfterCounts(a + 257, b + 1, c + 4, s3)
  {
    hide Number, TreesAfterCounts, Pow2;
  }
}
