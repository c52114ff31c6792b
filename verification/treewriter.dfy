/** The trees of the compressor: from frequencies to codes, and their own coded form. */
module TreeWriter {
  import opened Bits
  import opened BitIO
  import opened Canonical
  import opened HuffTable
  import opened HuffmanTrees
  import opened CodeLengths
  import opened DeflateSpec
  import opened DeflateCode
  import opened DeflateTables
  import opened TreeCode
  import opened FixedTrees
  import opened RunLengths

  // ---------- a tree from frequencies

  lemma {:induction false} NoneThatLong(lens: seq<nat>, m: nat, b: nat)
    requires Bounded(lens, m) && b > m
    ensures Count(lens, b) == 0
    decreases |lens|
  {
    if lens != [] {
      assert lens[|lens| - 1] <= m;
      NoneThatLong(lens[..|lens| - 1], m, b);
    }
  }

  /** A complete code is complete at every greater length. */
  lemma {:induction false} StaysComplete(lens: seq<nat>, m: nat, b: nat)
    requires Bounded(lens, m) && Used(lens, m) == Pow2(m) && b >= m
    ensures Used(lens, b) == Pow2(b)
    decreases b
  {
    if b > m {
      StaysComplete(lens, m, b - 1);
      NoneThatLong(lens, m, b);
    }
  }

  lemma LengthsAreFull(lens: seq<nat>, freqs: seq<nat>, m: nat)
    requires LengthsFor(lens, freqs, m) && m <= 15
    ensures FullCode(lens, m) && TreeOk(lens) && Decodable(lens)
  {
    StaysComplete(lens, m, 15);
  }

  /** The lengths that the source chooses: those of package-merge, which no others beat, for all symbols up to
      the last one that occurs, and at least for the first few. */
  ghost predicate BestLengths(lens: seq<nat>, freqs: seq<nat>, mincodes: nat, m: nat) {
    && mincodes <= |lens| <= |freqs| && (|lens| > mincodes ==> freqs[|lens| - 1] > 0)
    && (forall i :: |lens| <= i < |freqs| ==> freqs[i] == 0)
    && Optimal(lens, freqs[..|lens|], m) && Determined(lens, freqs[..|lens|], m)
  }

  method MakeFromFrequencies(tree: HuffmanTree, frequencies: array<nat>, mincodes: nat, maxbitlen: nat)
    returns (error: nat)
    requires 2 <= mincodes <= frequencies.Length <= NUM_DEFLATE_CODE_SYMBOLS && maxbitlen <= 15
    requires frequencies.Length <= Pow2(maxbitlen) && FrequenciesFit(frequencies[..])
    modifies tree
    ensures error == 0 && tree.Valid() && Ready(tree, tree.lengths[..]) && FullCode(tree.lengths[..], maxbitlen)
    ensures mincodes <= tree.numcodes == tree.lengths.Length <= frequencies.Length
    ensures LengthsFor(tree.lengths[..], frequencies[..tree.numcodes], maxbitlen)
    ensures BestLengths(tree.lengths[..], frequencies[..], mincodes, maxbitlen)
    ensures forall i :: tree.numcodes <= i < frequencies.Length ==> frequencies[i] == 0
    ensures fresh(tree.lengths) && fresh(tree.codes) && fresh(tree.tableLen) && fresh(tree.tableValue)
  {
    hide *;
    ghost var freqs := frequencies[..];
    var kept := KeptFrequencies(frequencies, mincodes);
    FitsPrefix(freqs, kept.Length);
    tree.lengths := new nat[kept.Length];
    tree.maxbitlen := maxbitlen;
    tree.numcodes := kept.Length;
    CodeSpace(kept.Length, maxbitlen);
    error := HuffmanCodeLengths(tree.lengths, kept, maxbitlen);
    LengthsAreFull(tree.lengths[..], kept[..], maxbitlen);
    BestLengthsAre(tree.lengths[..], freqs, kept[..], mincodes, maxbitlen);
    TreeHasLengths(tree, kept[..], maxbitlen);
    error := tree.MakeFromLengths2();
    TreeIsReady(tree, tree.lengths[..], maxbitlen);
  }

  /** The frequencies without the zeros at the end, but at least the first few. */
  method KeptFrequencies(frequencies: array<nat>, mincodes: nat) returns (kept: array<nat>)
    requires 2 <= mincodes <= frequencies.Length
    ensures fresh(kept) && mincodes <= kept.Length <= frequencies.Length && kept[..] == frequencies[..kept.Length]
    ensures forall i :: kept.Length <= i < frequencies.Length ==> frequencies[i] == 0
    ensures kept.Length > mincodes ==> frequencies[kept.Length - 1] > 0
  {
    var numcodes := frequencies.Length;
    while frequencies[numcodes - 1] == 0 && numcodes > mincodes
      invariant mincodes <= numcodes <= frequencies.Length
      invariant forall i :: numcodes <= i < frequencies.Length ==> frequencies[i] == 0
    {
      numcodes := numcodes - 1;
    }
    kept := new nat[numcodes](i requires 0 <= i < numcodes
      <= frequencies.Length reads frequencies => frequencies[i]);
    assert kept[..] == frequencies[..numcodes];
  }

  lemma CodeSpace(numcodes: nat, maxbitlen: nat)
    requires 2 <= numcodes <= Pow2(maxbitlen)
    ensures maxbitlen > 0
  {
  }

  lemma BestLengthsAre(lens: seq<nat>, freqs: seq<nat>, kept: seq<nat>, mincodes: nat, m: nat)
    requires mincodes <= |lens| == |kept| <= |freqs| && kept == freqs[..|kept|]
    requires |kept| > mincodes ==> freqs[|kept| - 1] > 0
    requires forall i :: |kept| <= i < |freqs| ==> freqs[i] == 0
    requires Optimal(lens, kept, m) && Determined(lens, kept, m)
    ensures BestLengths(lens, freqs, mincodes, m)
  {
    hide Optimal, Determined;
  }

  lemma TreeHasLengths(tree: HuffmanTree, freqs: seq<nat>, m: nat)
    requires LengthsFor(tree.lengths[..], freqs, m) && tree.maxbitlen == m <= 15 && tree.numcodes == tree.lengths.Length
    requires |freqs| == tree.lengths.Length <= NUM_DEFLATE_CODE_SYMBOLS
    ensures tree.HasLengths()
  {
    hide Used, Pow2;
  }

  lemma TreeIsReady(tree: HuffmanTree, lens: seq<nat>, m: nat)
    requires tree.Valid() && tree.lengths[..] == lens && FullCode(lens, m)
    ensures Ready(tree, lens)
  {
    hide Used, Pow2, HuffmanTree.Valid;
  }

  // ---------- run-length coding of the lengths

  ghost predicate Runs(lens: seq<nat>, i: nat, e: seq<nat>, rs: seq<Run>) {
    && i <= |lens| && RunsOk(rs) && RunsFit([], rs)
    && RunsExpand([], rs) == lens[..i] && e == RunsFlat(rs)
  }

  /** The next n lengths all have this value. */
  ghost predicate Constant(lens: seq<nat>, i: nat, n: nat, v: nat) {
    i + n <= |lens| && forall k: int :: i <= k < i + n ==> lens[k] == v
  }

  lemma NoRuns(lens: seq<nat>)
    ensures Runs(lens, 0, [], [])
  {
  }

  lemma AddRun(lens: seq<nat>, i: nat, e: seq<nat>, rs: seq<Run>, r: Run, n: nat)
    requires Runs(lens, i, e, rs) && RunOk(r) && i + n <= |lens|
    requires match r
      case Length(v) => n == 1 && lens[i] == v
      case Again(m) => n == m && i > 0 && Constant(lens, i, n, lens[i - 1])
      case Zeroes(m) => n == m && Constant(lens, i, n, 0)
    ensures Runs(lens, i + n, e + RunFlat(r), rs + [r])
    ensures |e + RunFlat(r)| <= i + n
  {
    RunsAppend([], rs, r);
    assert RunApply(lens[..i], r) == lens[..i + n];
    RunsShort([], rs + [r]);
  }

  /** How many of the following lengths are the same. */
  method Repetitions(lens: seq<nat>, i: nat) returns (j: nat)
    requires i < |lens|
    ensures Constant(lens, i, j + 1, lens[i])
    ensures i + j + 1 < |lens| ==> lens[i + j + 1] != lens[i]
  {
    j := 0;
    while i + j + 1 < |lens| && lens[i + j + 1] == lens[i]
      invariant Constant(lens, i, j + 1, lens[i])
    {
      j := j + 1;
    }
  }

  /** A length that is repeated: the length itself, and then repeat codes. */
  method EncodeRepeats(lens: seq<nat>, i: nat, j: nat, before: seq<nat>, ghost runs: seq<Run>)
    returns (next: nat, e: seq<nat>, ghost rs: seq<Run>)
    requires Runs(lens, i, before, runs) && i < |lens| && 0 < lens[i] <= 15 && j >= 3
      && Constant(lens, i, j + 1, lens[i])
    ensures next == i + Covered(lens[i], j + 1) <= |lens| && rs == runs + Pieces(lens[i], j + 1)
    ensures Runs(lens, next, e, rs) && |e| <= next
  {
    hide Runs, Pieces, Covered;
    var num, rest := j / 6, j % 6;
    AddRun(lens, i, before, runs, Length(lens[i]), 1);
    e, rs := before + [lens[i]], runs + [Length(lens[i])];
    next := i + 1;
    var k := 0;
    while k < num
      invariant 0 <= k <= num && next == i + 1 + 6 * k && Runs(lens, next, e, rs) && |e| <= next
      invariant rs == runs + [Length(lens[i])] + Sixes(k)
    {
      AddRun(lens, next, e, rs, Again(6), 6);
      e, rs := e + [16, 6 - 3], rs + [Again(6)];
      next := next + 6;
      k := k + 1;
    }
    if rest >= 3 {
      AddRun(lens, next, e, rs, Again(rest), rest);
      e, rs := e + [16, rest - 3], rs + [Again(rest)];
      next := next + rest;
    }
    RepeatPieces(lens[i], j, runs);
  }

  /** The pieces of a repeated length, put together. */
  lemma RepeatPieces(v: nat, j: nat, runs: seq<Run>)
    requires v > 0 && j >= 3
    ensures runs + Pieces(v, j + 1)
      == runs + [Length(v)] + Sixes(j / 6) + (if j % 6 >= 3 then [Again(j % 6)] else [])
    ensures Covered(v, j + 1) == 1 + 6 * (j / 6) + (if j % 6 >= 3 then j % 6 else 0)
  {
  }

  /** Run-length codes the lengths of both trees. The coded form fits in the room of the lengths. */
  method EncodeLengths(lens: seq<nat>) returns (e: seq<nat>, ghost rs: seq<Run>)
    requires Bounded(lens, 15)
    ensures Runs(lens, |lens|, e, rs) && |e| <= |lens| && rs == Chosen(lens, 0)
  {
    hide Runs, Pieces, Covered, Chosen, Same;
    e, rs := [], [];
    NoRuns(lens);
    var i := 0;
    assert [] + Chosen(lens, 0) == Chosen(lens, 0);
    while i < |lens|
      invariant i <= |lens| && Runs(lens, i, e, rs) && |e| <= i && rs + Chosen(lens, i) == Chosen(lens, 0)
    {
      var j := Repetitions(lens, i);
      SameIs(lens, i, j + 1);
      ChosenStep(lens, i, rs, j + 1);
      FewPieces(lens[i], j + 1);
      if lens[i] == 0 && j >= 2 {
        j := j + 1;
        if j <= 10 {
          AddRun(lens, i, e, rs, Zeroes(j), j);
          e, rs := e + [17, j - 3], rs + [Zeroes(j)];
        } else {
          if j > 138 { j := 138; }
          AddRun(lens, i, e, rs, Zeroes(j), j);
          e, rs := e + [18, j - 11], rs + [Zeroes(j)];
        }
        i := i + j;
      } else if j >= 3 {
        i, e, rs := EncodeRepeats(lens, i, j, e, rs);
      } else {
        AddRun(lens, i, e, rs, Length(lens[i]), 1);
        e, rs := e + [lens[i]], rs + [Length(lens[i])];
        i := i + 1;
      }
    }
    NothingChosen(lens, rs);
  }

  lemma NothingChosen(lens: seq<nat>, rs: seq<Run>)
    ensures rs + Chosen(lens, |lens|) == rs
  {
  }

  lemma FewPieces(v: nat, m: nat)
    requires m >= 1
    ensures v == 0 && m >= 3 ==>
      Pieces(v, m) == [Zeroes(if m > 138 then 138 else m)] && Covered(v, m) == (if m > 138 then 138 else m)
    ensures (v == 0 && m < 3) || (v != 0 && m < 4) ==> Pieces(v, m) == [Length(v)] && Covered(v, m) == 1
  {
  }

  // ---------- the code length code

  /** How often a symbol of the code length alphabet occurs. */
  ghost function RunCount(rs: seq<Run>, symbol: nat): nat {
    if rs == [] then 0 else RunCount(rs[..|rs| - 1], symbol) + (if RunSymbol(rs[|rs| - 1]) == symbol then 1 else 0)
  }

  lemma {:induction false} RunCountBound(rs: seq<Run>, symbol: nat)
    requires RunsOk(rs)
    ensures RunCount(rs, symbol) <= |rs| <= |RunsFlat(rs)|
    decreases |rs|
  {
    if rs != [] {
      var m := |rs| - 1;
      RunCountBound(rs[..m], symbol);
      RunsFlatAt(rs, m);
      assert rs[..m + 1] == rs;
    }
  }

  lemma RunCountStep(rs: seq<Run>, n: nat, symbol: nat)
    requires n < |rs|
    ensures RunCount(rs[..n + 1], symbol) == RunCount(rs[..n], symbol) + (if RunSymbol(rs[n]) == symbol then 1 else 0)
  {
    assert rs[..n + 1][..n] == rs[..n];
  }

  lemma {:induction false} RunCountPositive(rs: seq<Run>, k: nat)
    requires k < |rs|
    ensures RunCount(rs, RunSymbol(rs[k])) > 0
    decreases |rs|
  {
    if k < |rs| - 1 { RunCountPositive(rs[..|rs| - 1], k); }
  }

  /** The flat form, first run by first run. */
  lemma FlatFirst(rs: seq<Run>, n: nat)
    requires RunsOk(rs) && 0 < n <= |rs|
    ensures RunsOk(rs[1..]) && RunsFlat(rs[..n]) == RunFlat(rs[0]) + RunsFlat(rs[1..][..n - 1])
  {
    hide RunFlat;
    assert rs[..n][1..] == rs[1..][..n - 1];
  }

  /** The runs from n on, within the flat form of all. */
  lemma FirstPart(a: seq<nat>, b: seq<nat>)
    ensures (a + b)[0..][..|a|] == a && a + [] == [] + a
  {
  }

  lemma LaterPart(a: seq<nat>, b: seq<nat>, x: seq<nat>, y: seq<nat>)
    requires |x| + |y| <= |b| && b[|x|..][..|y|] == y
    ensures (a + b)[|a + x|..][..|y|] == y && a + (x + y) == (a + x) + y
  {
    assert (a + b)[|a + x|..] == b[|x|..];
  }

  lemma {:induction false} RunsFlatAt(rs: seq<Run>, n: nat)
    requires RunsOk(rs) && n < |rs|
    ensures |RunsFlat(rs[..n])| + |RunFlat(rs[n])| <= |RunsFlat(rs)|
    ensures RunsFlat(rs)[|RunsFlat(rs[..n])|..][..|RunFlat(rs[n])|] == RunFlat(rs[n])
    ensures RunsFlat(rs[..n + 1]) == RunsFlat(rs[..n]) + RunFlat(rs[n])
    decreases n
  {
    assert rs[..|rs|] == rs && rs[1..][..|rs| - 1] == rs[1..];
    assert RunsFlat(rs[..0]) == [] && RunsFlat(rs[1..][..0]) == [];
    hide RunFlat, RunsFlat, RunOk;
    FlatFirst(rs, |rs|);
    FlatFirst(rs, n + 1);
    var a, b := RunFlat(rs[0]), RunsFlat(rs[1..]);
    if n == 0 {
      hide *;
      FirstPart(a, b);
    } else {
      assert rs[1..][n - 1] == rs[n] && rs[1..][..n - 1 + 1] == rs[1..][..n];
      RunsFlatAt(rs[1..], n - 1);
      FlatFirst(rs, n);
      hide *;
      LaterPart(a, b, RunsFlat(rs[1..][..n - 1]), RunFlat(rs[n]));
    }
  }

  lemma RunsFlatDone(rs: seq<Run>, n: nat)
    requires RunsOk(rs) && n <= |rs| && |RunsFlat(rs[..n])| == |RunsFlat(rs)|
    ensures n == |rs|
  {
    if n < |rs| { RunsFlatAt(rs, n); }
  }

  lemma RunsFlatMore(rs: seq<Run>, n: nat)
    requires RunsOk(rs) && n <= |rs| && |RunsFlat(rs[..n])| != |RunsFlat(rs)|
    ensures n < |rs|
  {
    assert rs[..|rs|] == rs;
  }

  method CountRunSymbols(e: seq<nat>, ghost rs: seq<Run>) returns (frequencies: array<nat>)
    requires RunsOk(rs) && e == RunsFlat(rs)
    ensures fresh(frequencies) && frequencies.Length == 19
    ensures forall s :: 0 <= s < 19 ==> frequencies[s] == RunCount(rs, s)
  {
    hide RunsFlat;
    frequencies := new nat[19](_ => 0);
    var i := 0;
    ghost var n := 0;
    assert rs[..0] == [];
    NoFlat(rs);
    while i != |e|
      invariant n <= |rs| && RunsOk(rs) && i == |RunsFlat(rs[..n])| <= |e|
      invariant forall s :: 0 <= s < 19 ==> frequencies[s] == RunCount(rs[..n], s)
      decreases |rs| - n
    {
      RunsFlatMore(rs, n);
      RunsFlatAt(rs, n);
      SymbolInRange(rs, n);
      assert e[i..][..|RunFlat(rs[n])|][0] == e[i] == RunSymbol(rs[n]);
      forall s | 0 <= s < 19
        ensures RunCount(rs[..n + 1], s) == RunCount(rs[..n], s) + (if e[i] == s then 1 else 0)
      {
        RunCountStep(rs, n, s);
      }
      frequencies[e[i]] := frequencies[e[i]] + 1;
      i := i + (if e[i] >= 16 then 2 else 1);
      n := n + 1;
    }
    RunsFlatDone(rs, n);
    assert rs[..n] == rs;
  }

  lemma NoFlat(rs: seq<Run>)
    requires RunsOk(rs)
    ensures RunsOk(rs[..0]) && |RunsFlat(rs[..0])| == 0
  {
  }

  lemma SymbolInRange(rs: seq<Run>, n: nat)
    requires RunsOk(rs) && n < |rs|
    ensures RunOk(rs[n]) && RunSymbol(rs[n]) < 19 && RunFlat(rs[n])[0] == RunSymbol(rs[n])
    ensures |RunFlat(rs[n])| == if RunSymbol(rs[n]) >= 16 then 2 else 1
  {
  }

  /** Every run has a code in a tree made from the counts. */
  lemma RunsHaveCodes(cl: seq<nat>, freqs: seq<nat>, rs: seq<Run>, m: nat)
    requires LengthsFor(cl, freqs, m) && |freqs| == 19 && RunsOk(rs)
    requires forall s :: 0 <= s < 19 ==> freqs[s] == RunCount(rs, s)
    ensures RunsCoded(cl, rs)
  {
    forall k | 0 <= k < |rs| ensures RunOk(rs[k]) && RunCoded(cl, rs[k]) {
      SymbolInRange(rs, k);
      RunCountPositive(rs, k);
    }
  }

  /** How many lengths of the code length code have to be written. */
  method TrimClLengths(cl: array<nat>) returns (n: nat)
    requires cl.Length == 19
    ensures 4 <= n <= 19 && FilledUpTo(cl[..], n) == cl[..] && (n > 4 ==> cl[ClOrder(n - 1)] != 0)
  {
    n := 19;
    assert FilledUpTo(cl[..], 19) == cl[..];
    while true
      invariant 4 <= n <= 19 && FilledUpTo(cl[..], n) == cl[..]
      decreases n
    {
      if n <= 4 { break; }
      var at := OrderEntry(n - 1);
      if cl[at] != 0 { break; }
      TrimStep(cl[..], n);
      n := n - 1;
    }
  }

  lemma TrimStep(cl: seq<nat>, n: nat)
    requires 0 < n <= 19 && |cl| == 19 && FilledUpTo(cl, n) == cl && cl[ClOrder(n - 1)] == 0
    ensures FilledUpTo(cl, n - 1) == cl
  {
    forall k | 0 <= k < 19 ensures FilledUpTo(cl, n - 1)[k] == cl[k] {
      OrderIsPermutation(k);
      assert FilledUpTo(cl, n)[k] == cl[k];
    }
  }

  // ---------- writing the trees

  method WriteClLengths(writer: BitWriter, cl: array<nat>, n: nat)
    requires writer.Valid() && cl.Length == 19 && n <= 19
    modifies writer
    ensures writer.Valid() && writer.base == old(writer.base)
    ensures writer.bits == old(writer.bits) + ClBits(cl[..], n, 0, [])
  {
    hide ClBits;
    ghost var start := writer.bits;
    NoClBits(cl[..], start);
    var i := 0;
    while i != n
      invariant 0 <= i <= n && writer.Valid() && writer.base == old(writer.base)
      invariant writer.bits == start + ClBits(cl[..], i, 0, [])
    {
      var at := OrderEntry(i);
      writer.WriteBits(cl[at], 3);
      ClBitsNext(cl[..], i, start);
      i := i + 1;
    }
  }

  lemma NoClBits(cl: seq<nat>, start: seq<bool>)
    requires |cl| == 19
    ensures start + ClBits(cl, 0, 0, []) == start
  {
  }

  lemma ClBitsNext(cl: seq<nat>, i: nat, start: seq<bool>)
    requires |cl| == 19 && i < 19
    ensures (start + ClBits(cl, i, 0, [])) + BitsOf(cl[ClOrder(i)], 3) == start + ClBits(cl, i + 1, 0, [])
  {
    hide ClBits, BitsOf;
    var b := BitsOf(cl[ClOrder(i)], 3);
    ClBitsAppend(cl, i, 0, []);
    assert b + [] == b;
    ClBitsRest(cl, i, 0, b);
    Regroup(start, ClBits(cl, i, 0, []), b);
  }

  /** One code of the code length alphabet with its extra bits. */
  method WriteRun(writer: BitWriter, tree: HuffmanTree, symbol: nat, extra: nat, ghost cl: seq<nat>, ghost r: Run)
    requires writer.Valid() && Ready(tree, cl) && RunOk(r) && RunCoded(cl, r) && symbol == RunSymbol(r)
    requires symbol >= 16 ==> extra == RunExtra(r)
    modifies writer
    ensures writer.Valid() && writer.base == old(writer.base)
    ensures writer.bits == old(writer.bits) + RunBits(cl, r, [])
  {
    ghost var start := writer.bits;
    WriteSymbol(writer, tree, symbol, cl);
    if symbol == 16 {
      writer.WriteBits(extra, 2);
    } else if symbol == 17 {
      writer.WriteBits(extra, 3);
    } else if symbol == 18 {
      writer.WriteBits(extra, 7);
    }
    RunBitsWritten(cl, r, start);
  }

  lemma RunBitsWritten(cl: seq<nat>, r: Run, start: seq<bool>)
    requires RunOk(r) && RunCoded(cl, r)
    ensures start + RunBits(cl, r, [])
         == if r.Length? then start + Code(cl, RunSymbol(r))
            else (start + Code(cl, RunSymbol(r))) + BitsOf(RunExtra(r), RunExtraBits(RunSymbol(r)))
  {
    hide Code, BitsOf;
    var c := Code(cl, RunSymbol(r));
    assert c + [] == c;
    if !r.Length? {
      var b := BitsOf(RunExtra(r), RunExtraBits(RunSymbol(r)));
      assert b + [] == b;
      Regroup(start, c, b);
    }
  }

  /** The coded lengths of both trees. */
  method WriteRuns(writer: BitWriter, tree: HuffmanTree, e: seq<nat>, ghost cl: seq<nat>, ghost rs: seq<Run>)
    requires writer.Valid() && Ready(tree, cl) && |cl| == 19 && RunsOk(rs) && e == RunsFlat(rs) && RunsCoded(cl, rs)
    modifies writer
    ensures writer.Valid() && writer.base == old(writer.base)
    ensures writer.bits == old(writer.bits) + RunsBits(cl, rs, [])
  {
    hide RunsFlat, RunsBits, RunBits, BitWriter.Valid, HuffmanTree.Valid, Ready, Decodable;
    ghost var start := writer.bits;
    var i := 0;
    ghost var n := 0;
    assert rs[..0] == [];
    NoFlat(rs);
    NoRunBits(cl, start);
    while i != |e|
      invariant n <= |rs| && i == |RunsFlat(rs[..n])| <= |e| && Ready(tree, cl)
      invariant writer.Valid() && writer.base == old(writer.base)
      invariant writer.bits == start + RunsBits(cl, rs[..n], [])
      decreases |rs| - n
    {
      RunsFlatMore(rs, n);
      RunsFlatAt(rs, n);
      SymbolInRange(rs, n);
      assert e[i..][..|RunFlat(rs[n])|][0] == e[i] == RunSymbol(rs[n]);
      var symbol, extra := e[i], 0;
      if symbol >= 16 {
        assert e[i..][..2][1] == e[i + 1] == RunExtra(rs[n]);
        extra := e[i + 1];
        i := i + 1;
      }
      i := i + 1;
      WriteRun(writer, tree, symbol, extra, cl, rs[n]);
      RunsBitsNext(cl, rs, n, start);
      n := n + 1;
    }
    RunsFlatDone(rs, n);
    assert rs[..n] == rs;
  }

  lemma NoRunBits(cl: seq<nat>, start: seq<bool>)
    ensures start + RunsBits(cl, [], []) == start
  {
  }

  lemma RunsBitsNext(cl: seq<nat>, rs: seq<Run>, n: nat, start: seq<bool>)
    requires RunsCoded(cl, rs) && n < |rs|
    ensures (start + RunsBits(cl, rs[..n], [])) + RunBits(cl, rs[n], []) == start + RunsBits(cl, rs[..n + 1], [])
  {
    hide RunsBits, RunBits, RunOk, RunCoded;
    RunsBitsAppend(cl, rs[..n], rs[n], []);
    assert rs[..n + 1] == rs[..n] + [rs[n]];
    RunsBitsRest(cl, rs[..n], RunBits(cl, rs[n], []));
    Regroup(start, RunsBits(cl, rs[..n], []), RunBits(cl, rs[n], []));
  }

  // ---------- the header

  /** The code of the code length alphabet is the best one for the runs, and as few of its lengths are
      written as possible. */
  ghost predicate BestHeader(cl: seq<nat>, n: nat, rs: seq<Run>) {
    && |cl| == 19 && 4 <= n <= 19 && (n > 4 ==> cl[ClOrder(n - 1)] != 0)
    && exists freqs: seq<nat> {:trigger BestLengths(cl, freqs, 19, 7)} ::
         |freqs| == 19 && (forall s :: 0 <= s < 19 ==> freqs[s] == RunCount(rs, s)) && BestLengths(cl, freqs, 19, 7)
  }

  /** The code of the code length alphabet for these lengths. */
  method MakeClTree(lens: seq<nat>) returns (treeCl: HuffmanTree, e: seq<nat>, n: nat, ghost cl: seq<nat>,
                    ghost rs: seq<Run>)
    requires Bounded(lens, 15) && |lens| <= 0x4_0001
    ensures fresh(treeCl) && fresh(treeCl.lengths) && Ready(treeCl, cl) && |cl| == 19 && FullCode(cl, 7)
    ensures 4 <= n <= 19 && FilledUpTo(cl, n) == cl
    ensures RunsOk(rs) && e == RunsFlat(rs) && RunsCoded(cl, rs) && RunsFit([], rs) && RunsExpand([], rs) == lens
    ensures rs == Chosen(lens, 0) && BestHeader(cl, n, rs)
  {
    hide RunsFlat, RunsExpand, RunsFit, FilledUpTo, RunsCoded, RunCount;
    e, rs := EncodeLengths(lens);
    assert lens[..|lens|] == lens;
    var frequencies := CountRunSymbols(e, rs);
    forall k | 0 <= k < 19 ensures frequencies[k] <= 0x4_0001 { RunCountBound(rs, k); }
    CountsFit(frequencies[..]);
    treeCl := new HuffmanTree();
    assert 19 <= Pow2(7) by { assert Pow2(7) == 128; }
    var error := MakeFromFrequencies(treeCl, frequencies, 19, 7);
    cl := treeCl.lengths[..];
    assert frequencies[..19] == frequencies[..];
    RunsHaveCodes(cl, frequencies[..], rs, 7);
    n := TrimClLengths(treeCl.lengths);
  }

  /** The trees of a block in their coded form, and all that is known of it. */
  method WriteHeader(writer: BitWriter, treeLl: HuffmanTree, treeD: HuffmanTree, ghost ll: seq<nat>, ghost dd: seq<nat>)
    returns (ghost hclen: nat, ghost cl: seq<nat>, ghost rs: seq<Run>)
    requires writer.Valid() && Ready(treeLl, ll) && Ready(treeD, dd)
    requires 257 <= |ll| <= 286 && 2 <= |dd| <= 30 && FullCode(ll, 15) && FullCode(dd, 15) && ll[END_CODE] > 0
    modifies writer
    ensures writer.Valid() && writer.base == old(writer.base)
    ensures HeaderOk(ll, dd, hclen, cl, rs) && rs == Chosen(ll + dd, 0) && BestHeader(cl, hclen, rs)
    ensures writer.bits == old(writer.bits) + HeaderBits(|ll|, |dd|, hclen, cl, rs, [])
  {
    hide *;
    ReadyShape(treeLl, ll);
    ReadyShape(treeD, dd);
    var numcodesLl, numcodesD := treeLl.numcodes, treeD.numcodes;
    var lens := treeLl.lengths[..] + treeD.lengths[..];
    var treeCl, e, n;
    LengthsBounded(ll, dd);
    treeCl, e, n, cl, rs := MakeClTree(lens);
    hclen := n;
    HeaderFrom(ll, dd, hclen, cl, rs);
    ReadyShape(treeCl, cl);
    ghost var start := writer.bits;
    writer.WriteBits(numcodesLl - 257, 5);
    writer.WriteBits(numcodesD - 1, 5);
    writer.WriteBits(n - 4, 4);
    WriteClLengths(writer, treeCl.lengths, n);
    WriteRuns(writer, treeCl, e, cl, rs);
    HeaderWritten(|ll|, |dd|, hclen, cl, rs, start);
  }

  lemma ReadyShape(tree: HuffmanTree, lens: seq<nat>)
    requires Ready(tree, lens)
    ensures tree.numcodes == |lens| == tree.lengths.Length && tree.lengths[..] == lens
  {
    hide Decodable, Used;
  }

  lemma LengthsBounded(ll: seq<nat>, dd: seq<nat>)
    requires FullCode(ll, 15) && FullCode(dd, 15)
    ensures Bounded(ll + dd, 15)
  {
    hide Used, Pow2;
  }

  lemma HeaderFrom(ll: seq<nat>, dd: seq<nat>, hclen: nat, cl: seq<nat>, rs: seq<Run>)
    requires 257 <= |ll| <= 286 && 1 <= |dd| <= 30 && FullCode(ll, 15) && FullCode(dd, 15) && ll[END_CODE] > 0
    requires |cl| == 19 && FullCode(cl, 7) && 4 <= hclen <= 19 && FilledUpTo(cl, hclen) == cl
    requires RunsCoded(cl, rs) && RunsFit([], rs) && RunsExpand([], rs) == ll + dd
    ensures HeaderOk(ll, dd, hclen, cl, rs)
  {
    hide FullCode, FilledUpTo, RunsCoded, RunsFit, RunsExpand;
  }

  lemma HeaderWritten(hlit: nat, hdist: nat, hclen: nat, cl: seq<nat>, rs: seq<Run>, start: seq<bool>)
    requires 257 <= hlit <= 288 && 1 <= hdist <= 32 && 4 <= hclen <= 19 && |cl| == 19 && RunsCoded(cl, rs)
    ensures start + BitsOf(hlit - 257, 5) + BitsOf(hdist - 1, 5) + BitsOf(hclen - 4, 4) + ClBits(cl, hclen, 0, [])
            + RunsBits(cl, rs, [])
         == start + HeaderBits(hlit, hdist, hclen, cl, rs, [])
  {
    hide BitsOf, ClBits, RunsBits, RunsCoded;
    ClBitsRest(cl, hclen, 0, RunsBits(cl, rs, []));
    FiveParts(start, BitsOf(hlit - 257, 5), BitsOf(hdist - 1, 5), BitsOf(hclen - 4, 4),
              ClBits(cl, hclen, 0, []), RunsBits(cl, rs, []));
  }

  lemma FiveParts(s: seq<bool>, a: seq<bool>, b: seq<bool>, c: seq<bool>, d: seq<bool>, e: seq<bool>)
    ensures s + a + b + c + d + e == s + (a + (b + (c + (d + e))))
  {
  }
}
