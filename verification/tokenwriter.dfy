/** Writing the symbols of a block. */
module TokenWriter {
  import opened Bits
  import opened BitIO
  import opened Canonical
  import opened HuffTable
  import opened HuffmanTrees
  import opened DeflateSpec
  import opened DeflateCode
  import opened DeflateTables
  import opened TreeCode
  import opened FixedTrees
  import opened CodeLengths
  import opened LZ77

  // ---------- the symbols of the tokens

  ghost predicate TokensOk(ts: seq<Token>) {
    forall i :: 0 <= i < |ts| ==> TokenOk(ts[i])
  }

  /** The literal or length symbol of a token. */
  ghost function SymbolOf(t: Token): (s: nat)
    requires TokenOk(t)
    ensures s < 286 && s != END_CODE
  {
    match t
    case Literal(b) => b
    case Match(l, _) => FIRST_LENGTH_CODE + LengthCode(l)
  }

  ghost function SymbolCount(ts: seq<Token>, s: nat): nat
    requires TokensOk(ts)
  {
    if ts == [] then 0 else SymbolCount(ts[..|ts| - 1], s) + (if SymbolOf(ts[|ts| - 1]) == s then 1 else 0)
  }

  ghost function HasDistance(t: Token, d: nat): nat
    requires TokenOk(t)
  {
    if t.Match? && DistanceCode(t.distance) == d then 1 else 0
  }

  ghost function DistanceCount(ts: seq<Token>, d: nat): nat
    requires TokensOk(ts)
  {
    if ts == [] then 0 else DistanceCount(ts[..|ts| - 1], d) + HasDistance(ts[|ts| - 1], d)
  }

  lemma {:induction false} CountsBound(ts: seq<Token>, k: nat)
    requires TokensOk(ts)
    ensures SymbolCount(ts, k) <= |ts| && DistanceCount(ts, k) <= |ts|
  {
    if ts != [] {
      CountsBound(ts[..|ts| - 1], k);
    }
  }

  lemma CountsStep(ts: seq<Token>, n: nat)
    requires TokensOk(ts) && n < |ts|
    ensures TokensOk(ts[..n]) && TokensOk(ts[..n + 1])
    ensures forall s :: SymbolCount(ts[..n + 1], s) == SymbolCount(ts[..n], s) + (if SymbolOf(ts[n]) == s then 1 else 0)
    ensures forall d :: DistanceCount(ts[..n + 1], d) == DistanceCount(ts[..n], d) + HasDistance(ts[n], d)
  {
    assert ts[..n + 1][..n] == ts[..n];
  }

  lemma {:induction false} CountsPositive(ts: seq<Token>, k: nat)
    requires TokensOk(ts) && k < |ts|
    ensures SymbolCount(ts, SymbolOf(ts[k])) > 0
    ensures ts[k].Match? ==> DistanceCount(ts, DistanceCode(ts[k].distance)) > 0
    decreases |ts|
  {
    if k < |ts| - 1 { CountsPositive(ts[..|ts| - 1], k); }
  }

  // ---------- the flat form

  lemma {:induction false} FlatPrefix(ts: seq<Token>, n: nat)
    requires TokensOk(ts) && n <= |ts|
    ensures TokensFlat(ts[..n]) <= TokensFlat(ts)
    decreases |ts| - n
  {
    if n == |ts| {
      assert ts[..n] == ts;
    } else {
      FlatPrefix(ts, n + 1);
      FlatStep(ts, n);
    }
  }

  lemma FlatStep(ts: seq<Token>, n: nat)
    requires TokensOk(ts) && n < |ts|
    ensures TokensFlat(ts[..n + 1]) == TokensFlat(ts[..n]) + Flat(ts[n])
  {
    assert ts[..n + 1][..n] == ts[..n];
  }

  /** Token n within the flat form of all. */
  lemma FlatAt(ts: seq<Token>, n: nat, e: seq<nat>, i: nat)
    requires TokensOk(ts) && n <= |ts| && e == TokensFlat(ts) && i == |TokensFlat(ts[..n])| && i != |e|
    ensures n < |ts| && i + |Flat(ts[n])| == |TokensFlat(ts[..n + 1])| <= |e|
    ensures forall k: nat :: k < |Flat(ts[n])| ==> e[i + k] == Flat(ts[n])[k]
  {
    hide TokensFlat, Flat;
    assert ts[..|ts|] == ts;
    FlatPrefix(ts, n + 1);
    FlatStep(ts, n);
  }

  lemma FlatDone(ts: seq<Token>, n: nat)
    requires TokensOk(ts) && n <= |ts| && |TokensFlat(ts[..n])| == |TokensFlat(ts)|
    ensures ts[..n] == ts
  {
    hide TokensFlat;
    if n < |ts| {
      FlatPrefix(ts, n + 1);
      FlatStep(ts, n);
    }
  }

  lemma FlatShape(t: Token)
    requires TokenOk(t)
    ensures |Flat(t)| == if t.Match? then 4 else 1
    ensures Flat(t)[0] == SymbolOf(t)
    ensures t.Match? <==> SymbolOf(t) > END_CODE
    ensures t.Match? ==> var lc, dc := LengthCode(t.length), DistanceCode(t.distance);
      && Flat(t)[0] == FIRST_LENGTH_CODE + lc && Flat(t)[1] == t.length - LengthBase(lc)
      && Flat(t)[2] == dc && Flat(t)[3] == t.distance - DistanceBase(dc)
  {
  }

  /** How often every symbol occurs, and one end code. */
  method CountSymbols(e: seq<nat>, ghost ts: seq<Token>) returns (frequenciesLl: array<nat>, frequenciesD: array<nat>)
    requires TokensOk(ts) && e == TokensFlat(ts)
    ensures fresh(frequenciesLl) && fresh(frequenciesD) && frequenciesLl.Length == 286 && frequenciesD.Length == 30
    ensures forall s :: 0 <= s < 286 ==> frequenciesLl[s] == if s == END_CODE then 1 else SymbolCount(ts, s)
    ensures forall d :: 0 <= d < 30 ==> frequenciesD[d] == DistanceCount(ts, d)
  {
    hide TokensFlat, Flat, SymbolOf, HasDistance, SymbolCount, DistanceCount;
    frequenciesLl := new nat[286](_ => 0);
    frequenciesD := new nat[30](_ => 0);
    var i := 0;
    ghost var n := 0;
    assert ts[..0] == [];
    NothingCounted();
    while i != |e|
      invariant n <= |ts| && i == |TokensFlat(ts[..n])| <= |e|
      invariant forall s :: 0 <= s < 286 ==> frequenciesLl[s] == SymbolCount(ts[..n], s)
      invariant forall d :: 0 <= d < 30 ==> frequenciesD[d] == DistanceCount(ts[..n], d)
      decreases |ts| - n
    {
      FlatAt(ts, n, e, i);
      FlatShape(ts[n]);
      DistanceSymbol(ts[n]);
      CountsStep(ts, n);
      var symbol := e[i];
      assert e[i + 0] == Flat(ts[n])[0];
      frequenciesLl[symbol] := frequenciesLl[symbol] + 1;
      if symbol > 256 {
        var dist := e[i + 2];
        frequenciesD[dist] := frequenciesD[dist] + 1;
        i := i + 3;
      }
      i := i + 1;
      n := n + 1;
    }
    FlatDone(ts, n);
    frequenciesLl[256] := 1;
  }

  lemma NothingCounted()
    ensures TokensFlat([]) == []
    ensures forall s :: SymbolCount([], s) == 0
    ensures forall d :: DistanceCount([], d) == 0
  {
  }

  lemma DistanceSymbol(t: Token)
    requires TokenOk(t)
    ensures forall d :: HasDistance(t, d) == if t.Match? && DistanceCode(t.distance) == d then 1 else 0
    ensures t.Match? ==> DistanceCode(t.distance) < 30
  {
  }

  // ---------- writing

  /** A tree made from the counts has a code for every token. */
  lemma TokensHaveCodes(ll: seq<nat>, dd: seq<nat>, fll: seq<nat>, fd: seq<nat>, ts: seq<Token>)
    requires TokensOk(ts) && |fll| == 286 && |fd| == 30 && |ll| <= 286 && |dd| <= 30
    requires forall s :: 0 <= s < 286 ==> fll[s] == if s == END_CODE then 1 else SymbolCount(ts, s)
    requires forall d :: 0 <= d < 30 ==> fd[d] == DistanceCount(ts, d)
    requires LengthsFor(ll, fll[..|ll|], 15) && LengthsFor(dd, fd[..|dd|], 15)
    requires forall s :: |ll| <= s < 286 ==> fll[s] == 0
    requires forall d :: |dd| <= d < 30 ==> fd[d] == 0
    ensures AllCoded(ll, dd, ts) && END_CODE < |ll| && ll[END_CODE] > 0
  {
    hide SymbolCount, DistanceCount, Used;
    forall k | 0 <= k < |ts| ensures TokenOk(ts[k]) && Coded(ll, dd, ts[k]) {
      CountsPositive(ts, k);
      var s := SymbolOf(ts[k]);
      assert fll[s] > 0 && fll[..|ll|][s] > 0;
      if ts[k].Match? {
        var d := DistanceCode(ts[k].distance);
        assert fd[d] > 0 && fd[..|dd|][d] > 0;
      }
    }
    assert fll[END_CODE] == 1;
    assert fll[..|ll|][END_CODE] > 0;
  }

  /** The symbols of a token, as the source writes them. */
  method WriteToken(writer: BitWriter, e: seq<nat>, at: nat, treeLl: HuffmanTree, treeD: HuffmanTree,
                    ghost ll: seq<nat>, ghost dd: seq<nat>, ghost t: Token)
    returns (i: nat)
    requires writer.Valid() && Ready(treeLl, ll) && Ready(treeD, dd) && TokenOk(t) && Coded(ll, dd, t)
    requires at + |Flat(t)| <= |e| && forall k: nat :: k < |Flat(t)| ==> e[at + k] == Flat(t)[k]
    modifies writer
    ensures writer.Valid() && writer.base == old(writer.base) && i == at + |Flat(t)|
    ensures writer.bits == old(writer.bits) + TokenBits(ll, dd, t, [])
  {
    hide Flat, TokenBits, SymbolOf, LengthCode, DistanceCode, LengthBase, DistanceBase, Code, Ready, BitWriter.Valid;
    FlatShape(t);
    CodedSymbols(ll, dd, t);
    ghost var start := writer.bits;
    i := at;
    var val := e[i + 0];
    WriteSymbol(writer, treeLl, val, ll);
    if val > 256 {
      var base, bits := LengthEntry(val - FIRST_LENGTH_CODE);
      i := i + 1;
      var lengthExtraBits := e[at + 1];
      i := i + 1;
      var distanceCode := e[at + 2];
      var distanceBase, distanceBits := DistanceEntry(distanceCode);
      i := i + 1;
      var distanceExtraBits := e[at + 3];
      writer.WriteBits(lengthExtraBits, bits);
      WriteSymbol(writer, treeD, distanceCode, dd);
      writer.WriteBits(distanceExtraBits, distanceBits);
    }
    i := i + 1;
    TokenWritten(ll, dd, t, start);
  }

  lemma CodedSymbols(ll: seq<nat>, dd: seq<nat>, t: Token)
    requires TokenOk(t) && Coded(ll, dd, t)
    ensures SymbolOf(t) < |ll| && ll[SymbolOf(t)] > 0
    ensures t.Match? ==> var lc, dc := LengthCode(t.length), DistanceCode(t.distance);
      && lc < 29 && dc < 30 && dc < |dd| && dd[dc] > 0
      && (LengthExtra(lc) == 1 ==> t.length - LengthBase(lc) < 2)
      && (DistanceExtra(dc) == 1 ==> t.distance - DistanceBase(dc) < 2)
  {
    hide LengthBase, DistanceBase, LengthExtra, DistanceExtra;
    assert Pow2(1) == 2;
    if t.Match? {
      LengthExtraFits(t.length);
      DistanceExtraFits(t.distance);
    }
  }

  lemma TokenWritten(ll: seq<nat>, dd: seq<nat>, t: Token, start: seq<bool>)
    requires TokenOk(t) && Coded(ll, dd, t)
    ensures SymbolOf(t) < |ll| && ll[SymbolOf(t)] > 0
    ensures t.Match? ==> DistanceCode(t.distance) < |dd| && dd[DistanceCode(t.distance)] > 0
    ensures start + TokenBits(ll, dd, t, []) ==
      if t.Literal? then start + Code(ll, SymbolOf(t))
      else
        var lc, dc := LengthCode(t.length), DistanceCode(t.distance);
        start + Code(ll, SymbolOf(t)) + BitsOf(t.length - LengthBase(lc), LengthExtra(lc)) + Code(dd, dc)
        + BitsOf(t.distance - DistanceBase(dc), DistanceExtra(dc))
  {
    hide Code, BitsOf, LengthCode, DistanceCode, LengthBase, DistanceBase, LengthExtra, DistanceExtra;
    match t
    case Literal(b) => assert Code(ll, b) + [] == Code(ll, b);
    case Match(l, d) =>
      var lc, dc := LengthCode(l), DistanceCode(d);
      FourParts(start, Code(ll, FIRST_LENGTH_CODE + lc), BitsOf(l - LengthBase(lc), LengthExtra(lc)),
                Code(dd, dc), BitsOf(d - DistanceBase(dc), DistanceExtra(dc)));
  }

  lemma FourParts(s: seq<bool>, a: seq<bool>, b: seq<bool>, c: seq<bool>, d: seq<bool>)
    ensures s + (a + (b + (c + (d + [])))) == s + a + b + c + d
  {
  }

  method WriteLZ77Data(writer: BitWriter, e: seq<nat>, treeLl: HuffmanTree, treeD: HuffmanTree,
                       ghost ll: seq<nat>, ghost dd: seq<nat>, ghost ts: seq<Token>)
    requires writer.Valid() && Ready(treeLl, ll) && Ready(treeD, dd)
    requires TokensOk(ts) && e == TokensFlat(ts) && AllCoded(ll, dd, ts)
    modifies writer
    ensures writer.Valid() && writer.base == old(writer.base)
    ensures writer.bits == old(writer.bits) + TokensBits(ll, dd, ts, [])
  {
    hide TokensFlat, Flat, TokensBits, TokenBits, Coded;
    ghost var start := writer.bits;
    var i := 0;
    ghost var n := 0;
    assert ts[..0] == [];
    NothingCounted();
    NoTokenBits(ll, dd, start);
    while i != |e|
      invariant n <= |ts| && i == |TokensFlat(ts[..n])| <= |e| && Ready(treeLl, ll) && Ready(treeD, dd)
      invariant writer.Valid() && writer.base == old(writer.base)
      invariant writer.bits == start + TokensBits(ll, dd, ts[..n], [])
      decreases |ts| - n
    {
      FlatAt(ts, n, e, i);
      i := WriteToken(writer, e, i, treeLl, treeD, ll, dd, ts[n]);
      TokensBitsNext(ll, dd, ts, n, start);
      n := n + 1;
    }
    FlatDone(ts, n);
  }

  lemma NoTokenBits(ll: seq<nat>, dd: seq<nat>, start: seq<bool>)
    ensures start + TokensBits(ll, dd, [], []) == start
  {
  }

  lemma TokensBitsNext(ll: seq<nat>, dd: seq<nat>, ts: seq<Token>, n: nat, start: seq<bool>)
    requires AllCoded(ll, dd, ts) && n < |ts|
    ensures (start + TokensBits(ll, dd, ts[..n], [])) + TokenBits(ll, dd, ts[n], [])
      == start + TokensBits(ll, dd, ts[..n + 1], [])
  {
    hide TokensBits, TokenBits, Coded;
    TokensBitsAppend(ll, dd, ts[..n], ts[n], []);
    assert ts[..n + 1] == ts[..n] + [ts[n]];
    TokensBitsRest(ll, dd, ts[..n], TokenBits(ll, dd, ts[n], []));
    Regroup(start, TokensBits(ll, dd, ts[..n], []), TokenBits(ll, dd, ts[n], []));
  }
}
