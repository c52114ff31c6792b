/** No other trees write the tokens of a block with fewer bits. */
module ShortestBlock {
  import opened Bits
  import opened Canonical
  import opened OptimalCode
  import opened CodeLengths
  import opened DeflateSpec
  import opened DeflateCode
  import opened TreeCode
  import opened TreeWriter
  import opened TokenWriter
  import opened Deflater

  // ---------- costs

  /** One more occurrence of a symbol costs the length of its code. */
  lemma CostOneMore(f: seq<nat>, g: seq<nat>, lens: seq<nat>, k: nat)
    requires k < |f| == |g| == |lens| && g == f[k := f[k] + 1]
    ensures Cost(g, lens) == Cost(f, lens) + lens[k]
  {
    hide Cost;
    CostUpdate(f, lens, k);
    CostUpdate(g, lens, k);
    assert g[k := 0] == f[k := 0] && g[k] == f[k] + 1;
    MulStep(f[k], lens[k]);
  }

  /** Symbols that do not occur cost nothing. */
  lemma {:induction false} CostOfPrefix(f: seq<nat>, lens: seq<nat>, n: nat)
    requires |f| == |lens| && n <= |f| && forall i :: n <= i < |f| ==> f[i] == 0
    ensures Cost(f, lens) == Cost(f[..n], lens[..n])
    decreases |f|
  {
    if n == |f| {
      assert f[..n] == f && lens[..n] == lens;
    } else {
      var m := |f| - 1;
      CostOfPrefix(f[..m], lens[..m], n);
      assert f[..m][..n] == f[..n] && lens[..m][..n] == lens[..n];
    }
  }

  lemma {:induction false} KraftOfPrefix(lens: seq<nat>, n: nat, m: nat)
    requires n <= |lens|
    ensures KraftSum(lens[..n], m) <= KraftSum(lens, m)
    decreases |lens|
  {
    if n == |lens| {
      assert lens[..n] == lens;
    } else {
      KraftOfPrefix(lens[..|lens| - 1], n, m);
      assert lens[..|lens| - 1][..n] == lens[..n];
    }
  }

  /** Other lengths for all symbols, each symbol that occurs having one, cost no less than the best. */
  lemma BestIsCheapest(lens: seq<nat>, freqs: seq<nat>, mincodes: nat, m: nat, other: seq<nat>)
    requires BestLengths(lens, freqs, mincodes, m) && |other| == |freqs|
    requires Bounded(other, m) && Used(other, m) <= Pow2(m) && forall i :: 0 <= i < |freqs| && freqs[i] > 0 ==>
      other[i] > 0
    ensures |lens| <= |freqs| && Cost(freqs[..|lens|], lens) <= Cost(freqs, other)
  {
    hide Cost, Determined, Used, KraftSum, Pow2;
    var n := |lens|;
    CostOfPrefix(freqs, other, n);
    UsedIsKraftSum(other, m);
    UsedIsKraftSum(other[..n], m);
    KraftOfPrefix(other, n, m);
    assert Suits(other[..n], freqs[..n], m);
  }

  // ---------- the symbols of a block

  /** The extra bits of a token: no tree changes them. */
  ghost function Extra(t: Token): nat
    requires TokenOk(t)
  {
    if t.Match? then LengthExtra(LengthCode(t.length)) + DistanceExtra(DistanceCode(t.distance)) else 0
  }

  ghost function Extras(ts: seq<Token>): nat
    requires TokensOk(ts)
  {
    if ts == [] then 0 else Extras(ts[..|ts| - 1]) + Extra(ts[|ts| - 1])
  }

  /** The counts of a block without its end code, as sequences. */
  ghost predicate Counted(ts: seq<Token>, f: seq<nat>, g: seq<nat>) {
    && TokensOk(ts) && |f| == 286 && |g| == 30
    && (forall s :: 0 <= s < 286 ==> f[s] == SymbolCount(ts, s))
    && (forall d :: 0 <= d < 30 ==> g[d] == DistanceCount(ts, d))
  }

  lemma SomeCounts(ts: seq<Token>) returns (f: seq<nat>, g: seq<nat>)
    requires TokensOk(ts)
    ensures Counted(ts, f, g)
  {
    f := seq(286, s requires 0 <= s < 286 => SymbolCount(ts, s));
    g := seq(30, d requires 0 <= d < 30 => DistanceCount(ts, d));
  }

  /** The bits of one token. */
  lemma TokenSize(ll: seq<nat>, dd: seq<nat>, t: Token)
    requires TokenOk(t) && Coded(ll, dd, t)
    ensures SymbolOf(t) < |ll|
    ensures t.Match? ==> DistanceCode(t.distance) < |dd|
    ensures |TokenBits(ll, dd, t, [])|
      == ll[SymbolOf(t)] + Extra(t) + (if t.Match? then dd[DistanceCode(t.distance)] else 0)
  {
    hide LengthCode, DistanceCode, IsLengthCode, IsDistanceCode, LengthBase, DistanceBase;
  }

  /** What the last token adds to the counts. */
  lemma LastCounted(ts: seq<Token>, f: seq<nat>, g: seq<nat>, f0: seq<nat>, g0: seq<nat>)
    requires ts != [] && Counted(ts, f, g) && Counted(ts[..|ts| - 1], f0, g0)
    ensures var t := ts[|ts| - 1];
      && TokenOk(t) && f == f0[SymbolOf(t) := f0[SymbolOf(t)] + 1]
      && (if t.Match? then
            DistanceCode(t.distance) < 30
            && g == g0[DistanceCode(t.distance) := g0[DistanceCode(t.distance)] + 1]
          else g == g0)
  {
    var t := ts[|ts| - 1];
    assert TokenOk(t);
    hide LengthCode, DistanceCode;
  }

  /** The bits of the tokens: every symbol as often as it occurs, and the extra bits. */
  lemma {:induction false} TokensSize(ll: seq<nat>, dd: seq<nat>, ts: seq<Token>, f: seq<nat>, g: seq<nat>)
    requires AllCoded(ll, dd, ts) && |ll| == 286 && |dd| == 30 && Counted(ts, f, g)
    ensures |TokensBits(ll, dd, ts, [])| == Cost(f, ll) + Cost(g, dd) + Extras(ts)
    decreases |ts|
  {
    hide Coded, TokenOk, TokensBits, Cost, SymbolOf, Extra, TokenBits, DistanceCode;
    if ts == [] {
      NoTokensNoBits(ll, dd, f, g);
    } else {
      var before, t := ts[..|ts| - 1], ts[|ts| - 1];
      assert TokenOk(t) && Coded(ll, dd, t) && AllCoded(ll, dd, before);
      var f0, g0 := SomeCounts(before);
      LastCounted(ts, f, g, f0, g0);
      hide Counted;
      TokensSize(ll, dd, before, f0, g0);
      assert before + [t] == ts;
      TokensBitsAppend(ll, dd, before, t, []);
      TokensBitsRest(ll, dd, before, TokenBits(ll, dd, t, []));
      TokenSize(ll, dd, t);
      CostOneMore(f0, f, ll, SymbolOf(t));
      if t.Match? { CostOneMore(g0, g, dd, DistanceCode(t.distance)); }
    }
  }

  lemma NoTokensNoBits(ll: seq<nat>, dd: seq<nat>, f: seq<nat>, g: seq<nat>)
    requires |ll| == 286 && |dd| == 30 && Counted([], f, g)
    ensures TokensBits(ll, dd, [], []) == [] && Cost(f, ll) == 0 && Cost(g, dd) == 0
  {
    CostOfZeros(f, ll);
    CostOfZeros(g, dd);
  }

  /** The same with the end code. */
  lemma BlockSizeIs(ll: seq<nat>, dd: seq<nat>, ts: seq<Token>, fll: seq<nat>, fd: seq<nat>)
    requires AllCoded(ll, dd, ts) && |ll| == 286 && |dd| == 30 && Occurrences(ts, fll, fd)
    ensures |TokensBits(ll, dd, ts, [])| + ll[256] == Cost(fll, ll) + Cost(fd, dd) + Extras(ts)
  {
    hide TokensBits, Cost, SymbolCount, DistanceCount, Coded, TokenOk;
    var f, g := SomeCounts(ts);
    TokensSize(ll, dd, ts, f, g);
    NoEndCode(ts);
    assert g == fd;
    assert fll == f[256 := f[256] + 1];
    CostOneMore(f, fll, ll, 256);
  }

  lemma {:induction false} NoEndCode(ts: seq<Token>)
    requires TokensOk(ts)
    ensures SymbolCount(ts, 256) == 0
    decreases |ts|
  {
    if ts != [] { NoEndCode(ts[..|ts| - 1]); }
  }

  /** The trees that the compressor makes for a block write its tokens and its end code with the fewest bits:
      no others for these tokens, with codes of up to 15 bits, need fewer. */
  lemma TreesAreShortest(ts: seq<Token>, t: Trees, ll: seq<nat>, dd: seq<nat>)
    requires TreesChosen(ts, t) && AllCoded(t.ll, t.dd, ts) && |t.ll| > 256 && t.ll[256] > 0
    requires |ll| == 286 && |dd| == 30 && AllCoded(ll, dd, ts) && ll[256] > 0
    requires Bounded(ll, 15) && Used(ll, 15) <= Pow2(15) && Bounded(dd, 15) && Used(dd, 15) <= Pow2(15)
    ensures |TokensBits(t.ll, t.dd, ts, [])| + |Code(t.ll, 256)| <= |TokensBits(ll, dd, ts, [])| + |Code(ll, 256)|
  {
    hide BestLengths, Used, Pow2, TokensBits, Cost, SymbolCount, DistanceCount, Coded, TokenOk, BestHeader, Code,
         Chosen;
    var fll, fd :| Occurrences(ts, fll, fd) && BestLengths(t.ll, fll, 257, 15) && BestLengths(t.dd, fd, 2, 15);
    BestShape(t.ll, fll, 257, 15);
    BestShape(t.dd, fd, 2, 15);
    var j, k := 286 - |t.ll|, 30 - |t.dd|;
    var pl, pd := t.ll + Repeat(0, j), t.dd + Repeat(0, k);
    PaddedTokens(t.ll, t.dd, j, k, ts, []);
    BlockSizeIs(pl, pd, ts, fll, fd);
    BlockSizeIs(ll, dd, ts, fll, fd);
    CostOfPrefix(fll, pl, |t.ll|);
    CostOfPrefix(fd, pd, |t.dd|);
    assert pl[..|t.ll|] == t.ll && pd[..|t.dd|] == t.dd;
    OccurringCoded(ts, fll, fd, ll, dd);
    BestIsCheapest(t.ll, fll, 257, 15, ll);
    BestIsCheapest(t.dd, fd, 2, 15, dd);
  }

  lemma BestShape(lens: seq<nat>, freqs: seq<nat>, mincodes: nat, m: nat)
    requires BestLengths(lens, freqs, mincodes, m)
    ensures |lens| <= |freqs| && forall i :: |lens| <= i < |freqs| ==> freqs[i] == 0
  {
    hide Optimal, Determined;
  }

  /** Symbols that occur have codes. */
  lemma OccurringCoded(ts: seq<Token>, fll: seq<nat>, fd: seq<nat>, ll: seq<nat>, dd: seq<nat>)
    requires Occurrences(ts, fll, fd) && AllCoded(ll, dd, ts) && |ll| == 286 && |dd| == 30 && ll[256] > 0
    ensures forall i :: 0 <= i < 286 && fll[i] > 0 ==> ll[i] > 0
    ensures forall i :: 0 <= i < 30 && fd[i] > 0 ==> dd[i] > 0
  {
    forall i | 0 <= i < 286 && fll[i] > 0 ensures ll[i] > 0 {
      if i != 256 { SymbolHasCode(ts, ll, dd, i); }
    }
    forall i | 0 <= i < 30 && fd[i] > 0 ensures dd[i] > 0 {
      DistanceHasCode(ts, ll, dd, i);
    }
  }

  lemma {:induction false} SymbolHasCode(ts: seq<Token>, ll: seq<nat>, dd: seq<nat>, s: nat)
    requires AllCoded(ll, dd, ts) && TokensOk(ts) && SymbolCount(ts, s) > 0 && |ll| == 286 && |dd| == 30
    ensures s < 286 && ll[s] > 0
    decreases |ts|
  {
    hide LengthCode, DistanceCode;
    var t := ts[|ts| - 1];
    assert TokenOk(t) && Coded(ll, dd, t);
    if SymbolOf(t) != s { SymbolHasCode(ts[..|ts| - 1], ll, dd, s); }
  }

  lemma {:induction false} DistanceHasCode(ts: seq<Token>, ll: seq<nat>, dd: seq<nat>, d: nat)
    requires AllCoded(ll, dd, ts) && TokensOk(ts) && DistanceCount(ts, d) > 0 && |ll| == 286 && |dd| == 30
    ensures d < 30 && dd[d] > 0
    decreases |ts|
  {
    hide LengthCode, DistanceCode;
    var t := ts[|ts| - 1];
    assert TokenOk(t) && Coded(ll, dd, t);
    if HasDistance(t, d) == 0 { DistanceHasCode(ts[..|ts| - 1], ll, dd, d); }
  }

  // ---------- the lengths of the trees

  ghost function RunExtras(rs: seq<Run>): nat {
    if rs == [] then 0
    else RunExtras(rs[..|rs| - 1]) + (if rs[|rs| - 1].Length? then 0 else RunExtraBits(RunSymbol(rs[|rs| - 1])))
  }

  /** The bits of the run-length coded lengths: every symbol as often as it occurs, and the extra bits. */
  lemma {:induction false} RunsSize(cl: seq<nat>, rs: seq<Run>, f: seq<nat>)
    requires RunsCoded(cl, rs) && |cl| == |f| == 19 && forall s :: 0 <= s < 19 ==> f[s] == RunCount(rs, s)
    ensures |RunsBits(cl, rs, [])| == Cost(f, cl) + RunExtras(rs)
    decreases |rs|
  {
    hide RunsBits, Cost, RunBits, RunSymbol, RunExtraBits;
    if rs == [] {
      CostOfZeros(f, cl);
      NoRunsNoBits(cl);
    } else {
      var before, r := rs[..|rs| - 1], rs[|rs| - 1];
      assert RunOk(r) && RunCoded(cl, r) && RunsCoded(cl, before);
      var f0 := seq(19, s requires 0 <= s < 19 => RunCount(before, s));
      RunsSize(cl, before, f0);
      assert before + [r] == rs;
      RunsBitsAppend(cl, before, r, []);
      RunsBitsRest(cl, before, RunBits(cl, r, []));
      RunSize(cl, r);
      assert f == f0[RunSymbol(r) := f0[RunSymbol(r)] + 1];
      CostOneMore(f0, f, cl, RunSymbol(r));
    }
  }

  lemma NoRunsNoBits(cl: seq<nat>)
    ensures RunsBits(cl, [], []) == []
  {
  }

  lemma RunSize(cl: seq<nat>, r: Run)
    requires RunOk(r) && RunCoded(cl, r)
    ensures |RunBits(cl, r, [])| == cl[RunSymbol(r)] + (if r.Length? then 0 else RunExtraBits(RunSymbol(r)))
  {
  }

  /** No other code of up to 7 bits writes the lengths of the trees with fewer bits. */
  lemma HeaderIsShortest(cl: seq<nat>, n: nat, rs: seq<Run>, other: seq<nat>)
    requires BestHeader(cl, n, rs) && RunsCoded(cl, rs) && |other| == 19 && RunsCoded(other, rs)
    requires Bounded(other, 7) && Used(other, 7) <= Pow2(7)
    ensures |RunsBits(cl, rs, [])| <= |RunsBits(other, rs, [])|
  {
    hide BestLengths, Used, Pow2, RunsBits, Cost, RunSymbol, RunOk;
    var freqs: seq<nat> :|
      |freqs| == 19 && (forall s :: 0 <= s < 19 ==> freqs[s] == RunCount(rs, s)) && BestLengths(cl, freqs, 19, 7);
    BestShape(cl, freqs, 19, 7);
    RunsSize(cl, rs, freqs);
    RunsSize(other, rs, freqs);
    forall i | 0 <= i < 19 && freqs[i] > 0 ensures other[i] > 0 {
      RunHasCode(rs, other, i);
    }
    BestIsCheapest(cl, freqs, 19, 7, other);
    assert freqs[..19] == freqs;
  }

  lemma {:induction false} RunHasCode(rs: seq<Run>, cl: seq<nat>, s: nat)
    requires RunsCoded(cl, rs) && RunCount(rs, s) > 0
    ensures s < |cl| && cl[s] > 0
    decreases |rs|
  {
    var r := rs[|rs| - 1];
    assert RunCoded(cl, r);
    hide RunSymbol;
    if RunSymbol(r) != s { RunHasCode(rs[..|rs| - 1], cl, s); }
  }
}
