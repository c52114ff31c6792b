/** Reading the trees of a compressed block. */
module TreeReader {
  import opened Bits
  import opened BitIO
  import opened Canonical
  import opened HuffTable
  import opened HuffmanTrees
  import opened DeflateSpec
  import opened DeflateCode
  import opened DeflateTables
  import opened TreeCode
  import opened FixedTrees
  import opened ReadAhead

  // ---------- the code length code

  lemma {:induction false} ClTooShort(s: seq<bool>, n: nat, i: nat, acc: seq<nat>)
    requires i <= n <= 19 && |acc| == 19 && |s| < 3 * (n - i)
    ensures ClLengths(s, n, i, acc).Malformed?
    decreases n - i
  {
    OrderIsPermutation(i);
    if |s| >= 3 { ClTooShort(s[3..], n, i + 1, acc[ClOrder(i) := Val(s[..3])]); }
  }

  /** The first i lengths, in the order of the format, are in the array; the specification has
      zeros for the others. */
  ghost predicate ClSoFar(a: seq<nat>, acc: seq<nat>, i: nat) {
    |a| == |acc| == 19 && Bounded(acc, 7)
    && forall k :: 0 <= k < 19 ==> if ClPlace(k) < i then a[k] == acc[k] else acc[k] == 0
  }

  lemma ClNone(a: seq<nat>)
    requires |a| == 19
    ensures ClSoFar(a, Repeat(0, 19), 0)
  {
  }

  lemma ClOneMore(a: seq<nat>, acc: seq<nat>, i: nat, v: nat)
    requires i < 19 && ClSoFar(a, acc, i) && v <= 7
    ensures ClOrder(i) < 19 && ClSoFar(a[ClOrder(i) := v], acc[ClOrder(i) := v], i + 1)
  {
    OrderIsPermutation(i);
    forall k | 0 <= k < 19
      ensures ClPlace(k) < i + 1 <==> ClPlace(k) < i || k == ClOrder(i)
    {
      OrderIsPermutation(k);
    }
  }

  lemma ClStep(data: seq<byte>, bp: nat, n: nat, i: nat, acc: seq<nat>, v: nat)
    requires i < n <= 19 && |acc| == 19 && bp + 3 <= 8 * |data| && GotNumber(data, bp, 3, v, bp + 3)
    ensures ClOrder(i) < 19
    ensures ClLengths(RestOf(data, bp), n, i, acc) == ClLengths(RestOf(data, bp + 3), n, i + 1, acc[ClOrder(i) := v])
  {
    OrderIsPermutation(i);
  }

  method ReadStatedLengths(reader: BitReader, hclen: nat, bitlen: array<nat>) returns (ghost acc: seq<nat>)
    requires reader.Valid() && reader.bp + 3 * hclen <= 8 * |reader.data| && hclen <= 19 && bitlen.Length == 19
    modifies reader`bp, reader`buffer, reader`avail, bitlen
    ensures reader.Valid() && reader.bp == old(reader.bp) + 3 * hclen
    ensures ClSoFar(bitlen[..], acc, hclen)
    ensures ClLengths(RestOf(reader.data, old(reader.bp)), hclen, 0, Repeat(0, 19)) == Got(acc, reader.Rest())
  {
    assert Pow2(3) == 8;
    hide ClSoFar, ClLengths, ClOrder, ClPlace, Bounded, Pow2, Number, GotNumber;
    ghost var start := reader.Rest();
    acc := Repeat(0, 19);
    ClNone(bitlen[..]);
    var i := 0;
    while i != hclen
      invariant 0 <= i <= hclen && reader.Valid() && reader.bp == old(reader.bp) + 3 * i
      invariant ClSoFar(bitlen[..], acc, i)
      invariant ClLengths(start, hclen, 0, Repeat(0, 19)) == ClLengths(reader.Rest(), hclen, i, acc)
    {
      reader.EnsureBits9();
      ghost var bp := reader.bp;
      var v := NextNumber(reader, 3);
      ClStep(reader.data, bp, hclen, i, acc, v);
      ClOneMore(bitlen[..], acc, i, v);
      var at := OrderEntry(i);
      bitlen[at] := v;
      acc := acc[ClOrder(i) := v];
      i := i + 1;
    }
  }

  method ReadClLengths(reader: BitReader, hclen: nat) returns (bitlen: array<nat>)
    requires reader.Valid() && reader.bp + 3 * hclen <= 8 * |reader.data| && hclen <= 19
    modifies reader`bp, reader`buffer, reader`avail
    ensures reader.Valid() && reader.bp == old(reader.bp) + 3 * hclen && fresh(bitlen)
    ensures bitlen.Length == 19 && Bounded(bitlen[..], 7)
    ensures ClLengths(RestOf(reader.data, old(reader.bp)), hclen, 0, Repeat(0, 19)) == Got(bitlen[..], reader.Rest())
  {
    hide ClSoFar, ClLengths, ClPlace, ClOrder, Bounded;
    bitlen := new nat[19];
    ghost var acc := ReadStatedLengths(reader, hclen, bitlen);
    var i := hclen;
    while i != 19
      invariant hclen <= i <= 19 && ClSoFar(bitlen[..], acc, i)
      modifies bitlen
    {
      ClUnstated(bitlen[..], acc, i);
      var at := OrderEntry(i);
      bitlen[at] := 0;
      i := i + 1;
    }
    AllFilled(bitlen[..], acc);
  }

  lemma ClUnstated(a: seq<nat>, acc: seq<nat>, i: nat)
    requires i < 19 && ClSoFar(a, acc, i)
    ensures ClOrder(i) < 19 && |a| == 19 && ClSoFar(a[ClOrder(i) := 0], acc, i + 1)
  {
    OrderIsPermutation(i);
    ClOneMore(a, acc, i, 0);
    assert acc[ClOrder(i) := 0] == acc;
  }

  lemma AllFilled(a: seq<nat>, acc: seq<nat>)
    requires ClSoFar(a, acc, 19)
    ensures a == acc && Bounded(acc, 7)
  {
    forall k | 0 <= k < 19 ensures a[k] == acc[k] { OrderIsPermutation(k); }
  }

  // ---------- run-length coded lengths

  /** The two arrays hold the lengths so far, and zeros. */
  ghost predicate Holds(ll: seq<nat>, dd: seq<nat>, hlit: nat, acc: seq<nat>) {
    && |ll| == 288 && |dd| == 32 && hlit <= 288 && |acc| <= hlit + 32
    && (forall k :: 0 <= k < 288 ==> ll[k] == if k < hlit && k < |acc| then acc[k] else 0)
    && (forall k :: 0 <= k < 32 ==> dd[k] == if hlit + k < |acc| then acc[hlit + k] else 0)
  }

  method SetLength(bitlenLl: array<nat>, bitlenD: array<nat>, hlit: nat, i: nat, value: nat, ghost acc: seq<nat>)
    requires bitlenLl != bitlenD && Holds(bitlenLl[..], bitlenD[..], hlit, acc) && i == |acc| < hlit + 32
    modifies bitlenLl, bitlenD
    ensures Holds(bitlenLl[..], bitlenD[..], hlit, acc + [value])
  {
    if i < hlit { bitlenLl[i] := value; } else { bitlenD[i - hlit] := value; }
  }

  /** A run of n equal lengths; the error if it is too long. */
  method SetRun(bitlenLl: array<nat>, bitlenD: array<nat>, hlit: nat, total: nat, i: nat, value: nat, n: nat,
                code: nat, ghost acc: seq<nat>)
    returns (next: nat, error: nat)
    requires bitlenLl != bitlenD && Holds(bitlenLl[..], bitlenD[..], hlit, acc) && i == |acc| <= total <= hlit + 32
      && code != 0
    modifies bitlenLl, bitlenD
    ensures error == if i + n <= total then 0 else code
    ensures error == 0 ==> next == i + n && Holds(bitlenLl[..], bitlenD[..], hlit, acc + Repeat(value, n))
  {
    next := i;
    var k := 0;
    assert acc + Repeat(value, 0) == acc;
    while k < n
      invariant 0 <= k <= n && next == i + k <= total && Holds(bitlenLl[..], bitlenD[..], hlit, acc + Repeat(value, k))
    {
      if next >= total { return next, code; }
      SetLength(bitlenLl, bitlenD, hlit, next, value, acc + Repeat(value, k));
      assert (acc + Repeat(value, k)) + [value] == acc + Repeat(value, k + 1);
      next := next + 1;
      k := k + 1;
    }
    error := 0;
  }

  /** A length by itself. */
  lemma LengthRun(cl: seq<nat>, total: nat, data: seq<byte>, bp: nat, v: nat, after: nat, acc: seq<nat>)
    requires |cl| == 19 && |acc| < total && bp <= 8 * |data| && GotSymbol(cl, data, bp, v, after) && v <= 15
    ensures Follows(NextRun(cl, total, RestOf(data, bp), acc), data, after, Got(acc + [v], RestOf(data, after)))
  {
  }

  /** No symbol, or nothing to repeat. */
  lemma InvalidRun(cl: seq<nat>, total: nat, data: seq<byte>, bp: nat, v: nat, after: nat, acc: seq<nat>)
    requires |cl| == 19 && |acc| < total && bp <= 8 * |data| && GotSymbol(cl, data, bp, v, after)
    requires v >= 19 || (v == 16 && acc == [])
    ensures NextRun(cl, total, RestOf(data, bp), acc).Malformed?
  {
  }

  function RunBase(v: nat): nat {
    if v == 18 then 11 else 3
  }

  /** A run is cut off, or longer than what is left. */
  lemma RunFails(cl: seq<nat>, total: nat, s: seq<bool>, v: nat, s1: seq<bool>, x: nat, s2: seq<bool>, acc: seq<nat>)
    requires |cl| == 19 && |acc| < total && (Symbol(cl, s).Malformed? || (Symbol(cl, s) == Got(v, s1) && v >= 16))
    requires Symbol(cl, s).Got? ==>
      || Number(s1, RunExtraBits(v)).Malformed?
      || (Number(s1, RunExtraBits(v)) == Got(x, s2) && |acc| + x + RunBase(v) > total)
    ensures NextRun(cl, total, s, acc).Malformed?
  {
  }

  lemma RepeatedRun(cl: seq<nat>, total: nat, data: seq<byte>, bp: nat, v: nat, bp1: nat, x: nat, bp2: nat,
                    acc: seq<nat>)
    requires |cl| == 19 && |acc| < total && bp <= 8 * |data| && 16 <= v < 19 && (v == 16 ==> acc != []) && bp1 <= bp2
    requires GotSymbol(cl, data, bp, v, bp1) && GotNumber(data, bp1, RunExtraBits(v), x, bp2)
    ensures var r := NextRun(cl, total, RestOf(data, bp), acc);
      if |acc| + x + RunBase(v) <= total
      then Follows(r, data, bp2, Got(acc + Repeat(if v == 16 then acc[|acc| - 1] else 0, x + RunBase(v)),
        RestOf(data, bp2)))
      else r.Malformed?
  {
    if bp2 <= 8 * |data| && |acc| + x + RunBase(v) <= total {
      RepeatStep(cl, total, RestOf(data, bp), RestOf(data, bp1), RestOf(data, bp2), v, x, acc);
    } else {
      RunFails(cl, total, RestOf(data, bp), v, RestOf(data, bp1), x, RestOf(data, bp2), acc);
    }
  }

  /** What one code of the code length alphabet says: lens follow, or an error. */
  ghost predicate GotRun(cl: seq<nat>, total: nat, data: seq<byte>, bp: nat, acc: seq<nat>, error: nat, lens: seq<nat>,
                         after: nat)
    requires |cl| == 19 && |acc| < total
  {
    var r := NextRun(cl, total, RestOf(data, bp), acc);
    if error == 0 then Follows(r, data, after, Got(lens, RestOf(data, after))) else r.Malformed?
  }

  /** A repeat code: its extra bits, and the run they say. */
  method ReadRepeat(reader: BitReader, bitlenLl: array<nat>, bitlenD: array<nat>, hlit: nat, total: nat, i: nat,
                    symbol: nat, value: nat,
                    code: nat, ghost cl: seq<nat>, ghost acc: seq<nat>, ghost bp: nat)
    returns (next: nat, error: nat, ghost lens: seq<nat>)
    requires reader.Valid() && reader.avail >= 7 && bp <= 8 * |reader.data| && |cl| == 19 && code != 0
    requires 16 <= symbol < 19 && GotSymbol(cl, reader.data, bp, symbol, reader.bp)
    requires symbol == 16 ==> acc != []
    requires value == if symbol == 16 then acc[|acc| - 1] else 0
    requires bitlenLl != bitlenD && Holds(bitlenLl[..], bitlenD[..], hlit, acc) && i == |acc| < total <= hlit + 32
    modifies reader`bp, reader`buffer, reader`avail, bitlenLl, bitlenD
    ensures reader.Valid() && old(reader.bp) <= reader.bp && error in {0, code}
    ensures GotRun(cl, total, reader.data, bp, acc, error, lens, reader.bp)
    ensures error == 0 ==> i < next == |lens| <= total && Holds(bitlenLl[..], bitlenD[..], hlit, lens)
  {
    ghost var bp1 := reader.bp;
    var extra := NextNumber(reader, RunExtraBits(symbol));
    RepeatedRun(cl, total, reader.data, bp, symbol, bp1, extra, reader.bp, acc);
    next, error := SetRun(bitlenLl, bitlenD, hlit, total, i, value, RunBase(symbol) + extra, code, acc);
    lens := acc + Repeat(value, RunBase(symbol) + extra);
  }

  ghost predicate Apart(tree: HuffmanTree, a: array<nat>)
    reads tree
  {
    tree.lengths != a && tree.codes != a && tree.tableLen != a && tree.tableValue != a
  }

  /** One step of the loop over the lengths. */
  method ReadRun(reader: BitReader, treeCl: HuffmanTree, bitlenLl: array<nat>, bitlenD: array<nat>, hlit: nat,
                 hdist: nat, i: nat,
                 ghost cl: seq<nat>, ghost acc: seq<nat>)
    returns (next: nat, error: nat, ghost lens: seq<nat>)
    requires reader.Valid() && reader.bp <= 8 * |reader.data| && Ready(treeCl, cl) && |cl| == 19
    requires bitlenLl != bitlenD && Apart(treeCl, bitlenLl) && Apart(treeCl, bitlenD)
    requires Holds(bitlenLl[..], bitlenD[..], hlit, acc) && i == |acc| < hlit + hdist && hdist <= 32
    modifies reader`bp, reader`buffer, reader`avail, bitlenLl, bitlenD
    ensures reader.Valid() && old(reader.bp) < reader.bp
    ensures GotRun(cl, hlit + hdist, reader.data, old(reader.bp), acc, error, lens, reader.bp)
    ensures error == 0 ==> i < next == |lens| <= hlit + hdist && Holds(bitlenLl[..], bitlenD[..], hlit, lens)
    ensures error in {0, 13, 14, 15, 16, 54}
  {
    hide NextRun, Number, Symbol, GotSymbol, Decodable, BitReader.Valid;
    ghost var bp := reader.bp;
    reader.EnsureBits25();
    var code := NextSymbol(reader, treeCl, cl);
    lens := acc;
    if code <= 15 {
      LengthRun(cl, hlit + hdist, reader.data, bp, code, reader.bp, acc);
      SetLength(bitlenLl, bitlenD, hlit, i, code, acc);
      next, error, lens := i + 1, 0, acc + [code];
    } else if code == 16 {
      if i == 0 {
        InvalidRun(cl, hlit + hdist, reader.data, bp, code, reader.bp, acc);
        return i, 54, acc;
      }
      var value := if i < hlit + 1 then bitlenLl[i - 1] else bitlenD[i - hlit - 1];
      next, error, lens := ReadRepeat(reader, bitlenLl, bitlenD, hlit, hlit + hdist, i, code, value, 13, cl, acc, bp);
    } else if code == 17 {
      next, error, lens := ReadRepeat(reader, bitlenLl, bitlenD, hlit, hlit + hdist, i, code, 0, 14, cl, acc, bp);
    } else if code == 18 {
      next, error, lens := ReadRepeat(reader, bitlenLl, bitlenD, hlit, hlit + hdist, i, code, 0, 15, cl, acc, bp);
    } else {
      InvalidRun(cl, hlit + hdist, reader.data, bp, code, reader.bp, acc);
      return i, 16, acc;
    }
  }

  lemma RunsStep(cl: seq<nat>, total: nat, data: seq<byte>, bp: nat, acc: seq<nat>, after: nat, error: nat,
                 lens: seq<nat>)
    requires |cl| == 19 && |acc| < total && bp <= 8 * |data| && (error == 0 ==> |lens| <= total)
    requires GotRun(cl, total, data, bp, acc, error, lens, after)
    ensures var goal := RunLengths(cl, total, RestOf(data, bp), acc);
      if error == 0 && after <= 8 * |data| then goal == RunLengths(cl, total, RestOf(data, after), lens)
        else goal.Malformed?
  {
  }

  /** The same, with the check for the end of the data. */
  method ReadNext(reader: BitReader, treeCl: HuffmanTree, bitlenLl: array<nat>, bitlenD: array<nat>, hlit: nat,
                  hdist: nat, i: nat,
                  ghost cl: seq<nat>, ghost acc: seq<nat>, ghost goal: Read<seq<nat>>)
    returns (next: nat, error: nat, ghost lens: seq<nat>)
    requires reader.Valid() && reader.bp <= 8 * |reader.data| && Ready(treeCl, cl) && |cl| == 19
    requires bitlenLl != bitlenD && Apart(treeCl, bitlenLl) && Apart(treeCl, bitlenD)
    requires Holds(bitlenLl[..], bitlenD[..], hlit, acc) && i == |acc| < hlit + hdist && hdist <= 32
    requires goal == RunLengths(cl, hlit + hdist, reader.Rest(), acc)
    modifies reader`bp, reader`buffer, reader`avail, bitlenLl, bitlenD
    ensures reader.Valid() && old(reader.bp) < reader.bp
    ensures error in {0, 13, 14, 15, 16, 50, 54}
    ensures error == 0 ==> i < next == |lens| <= hlit + hdist && Holds(bitlenLl[..], bitlenD[..], hlit, lens)
    ensures if error == 0
      then reader.bp <= 8 * |reader.data| && goal == RunLengths(cl, hlit + hdist, reader.Rest(), lens)
      else goal.Malformed?
  {
    hide NextRun, RunLengths, GotRun, Holds, Number, Symbol;
    ghost var bp := reader.bp;
    next, error, lens := ReadRun(reader, treeCl, bitlenLl, bitlenD, hlit, hdist, i, cl, acc);
    RunsStep(cl, hlit + hdist, reader.data, bp, acc, reader.bp, error, lens);
    if error == 0 && reader.bp > reader.bitsize { error := 50; }
  }

  /** All the lengths of both trees. */
  method ReadRuns(reader: BitReader, treeCl: HuffmanTree, bitlenLl: array<nat>, bitlenD: array<nat>, hlit: nat,
                  hdist: nat, ghost cl: seq<nat>)
    returns (error: nat, ghost lens: seq<nat>)
    requires reader.Valid() && reader.bp <= 8 * |reader.data| && Ready(treeCl, cl) && |cl| == 19
    requires bitlenLl != bitlenD && Apart(treeCl, bitlenLl) && Apart(treeCl, bitlenD)
    requires Holds(bitlenLl[..], bitlenD[..], hlit, []) && hdist <= 32
    modifies reader`bp, reader`buffer, reader`avail, bitlenLl, bitlenD
    ensures reader.Valid() && error in {0, 13, 14, 15, 16, 50, 54}
    ensures var r := RunLengths(cl, hlit + hdist, RestOf(reader.data, old(reader.bp)), []);
      if error == 0 then reader.bp <= 8 * |reader.data| && r == Got(lens, reader.Rest()) else r.Malformed?
    ensures error == 0 ==> |lens| == hlit + hdist && Holds(bitlenLl[..], bitlenD[..], hlit, lens)
  {
    ghost var goal := RunLengths(cl, hlit + hdist, reader.Rest(), []);
    var i := 0;
    lens, error := [], 0;
    while i < hlit + hdist
      invariant i == |lens| <= hlit + hdist && error == 0 && Ready(treeCl, cl)
      invariant reader.Valid() && reader.bp <= 8 * |reader.data|
      invariant Holds(bitlenLl[..], bitlenD[..], hlit, lens)
      invariant goal == RunLengths(cl, hlit + hdist, reader.Rest(), lens)
      decreases 8 * |reader.data| - reader.bp
    {
      i, error, lens := ReadNext(reader, treeCl, bitlenLl, bitlenD, hlit, hdist, i, cl, lens, goal);
      if error != 0 { return; }
    }
  }

  lemma HeldTrees(ll: seq<nat>, dd: seq<nat>, hlit: nat, hdist: nat, lens: seq<nat>)
    requires Holds(ll, dd, hlit, lens) && |lens| == hlit + hdist && hdist <= 32
    ensures ll == lens[..hlit] + Repeat(0, 288 - hlit) && dd == lens[hlit..] + Repeat(0, 32 - hdist)
  {
  }

  method MakeTwoTrees(treeLl: HuffmanTree, treeD: HuffmanTree, bitlenLl: array<nat>, bitlenD: array<nat>)
    returns (error: nat)
    requires treeLl != treeD && bitlenLl.Length == 288 && bitlenD.Length == 32
    requires Bounded(bitlenLl[..], 15) && Bounded(bitlenD[..], 15)
    modifies treeLl, treeD
    ensures error in {0, 55, 64}
    ensures error == 0 <==> bitlenLl[256] != 0 && TreeOk(bitlenLl[..]) && TreeOk(bitlenD[..])
    ensures error == 0 ==> Ready(treeLl, bitlenLl[..]) && Ready(treeD, bitlenD[..])
  {
    hide Used, Present, HuffmanTree.Valid;
    if bitlenLl[256] == 0 { return 64; }
    error := treeLl.MakeFromLengths(bitlenLl, 15);
    if error != 0 { return; }
    error := treeD.MakeFromLengths(bitlenD, 15);
  }

  /** Both trees, from the run-length coded lengths. */
  method ReadTwoTrees(reader: BitReader, treeCl: HuffmanTree, treeLl: HuffmanTree, treeD: HuffmanTree, hlit: nat,
                      hdist: nat, ghost cl: seq<nat>)
    returns (error: nat, ghost ll: seq<nat>, ghost dd: seq<nat>)
    requires reader.Valid() && reader.bp <= 8 * |reader.data| && Ready(treeCl, cl) && |cl| == 19
    requires treeLl != treeD && 257 <= hlit <= 288 && 1 <= hdist <= 32
    modifies reader`bp, reader`buffer, reader`avail, treeLl, treeD
    ensures reader.Valid() && error in {0, 13, 14, 15, 16, 50, 54, 55, 64}
    ensures var r := TwoTrees(cl, hlit, hdist, RestOf(reader.data, old(reader.bp)));
      if error == 0 then reader.bp <= 8 * |reader.data| && r == Got((ll, dd), reader.Rest()) else r.Malformed?
    ensures error == 0 ==> |ll| == 288 && |dd| == 32 && Ready(treeLl, ll) && Ready(treeD, dd)
  {
    hide RunLengths, TreeOk, Decodable, HuffmanTree.Valid, BitReader.Valid;
    var bitlenLl := new nat[NUM_DEFLATE_CODE_SYMBOLS](_ => 0);
    var bitlenD := new nat[32](_ => 0);
    ghost var lens;
    error, lens := ReadRuns(reader, treeCl, bitlenLl, bitlenD, hlit, hdist, cl);
    ll, dd := bitlenLl[..], bitlenD[..];
    if error != 0 { return; }
    HeldTrees(ll, dd, hlit, hdist, lens);
    error := MakeTwoTrees(treeLl, treeD, bitlenLl, bitlenD);
  }

  lemma HeaderCutOff(s: seq<bool>)
    requires |s| < 14
    ensures DynamicTrees(s).Malformed?
  {
  }

  lemma CountsRead(data: seq<byte>, bp: nat, a: nat, b: nat, c: nat)
    requires bp + 14 <= 8 * |data| && GotNumber(data, bp, 5, a, bp + 5) && GotNumber(data, bp + 5, 5, b, bp + 10)
    requires GotNumber(data, bp + 10, 4, c, bp + 14)
    ensures a < 32 && b < 32 && c < 16
    ensures DynamicTrees(RestOf(data, bp)) == TreesAfterCounts(a + 257, b + 1, c + 4, RestOf(data, bp + 14))
  {
    hide DynamicTrees, TreesAfterCounts, RestOf;
    assert Pow2(5) == 32 && Pow2(4) == 16;
    hide Number, Pow2;
    CountsStep(RestOf(data, bp), RestOf(data, bp + 5), RestOf(data, bp + 10), RestOf(data, bp + 14), a, b, c);
  }

  /** The three counts at the start of a dynamic block. */
  method ReadCounts(reader: BitReader) returns (hlit: nat, hdist: nat, hclen: nat)
    requires reader.Valid() && reader.bp + 14 <= 8 * |reader.data|
    modifies reader`bp, reader`buffer, reader`avail
    ensures reader.Valid() && reader.bp == old(reader.bp) + 14
    ensures 257 <= hlit <= 288 && 1 <= hdist <= 32 && 4 <= hclen <= 19
    ensures DynamicTrees(RestOf(reader.data, old(reader.bp))) == TreesAfterCounts(hlit, hdist, hclen, reader.Rest())
  {
    hide DynamicTrees, TreesAfterCounts, Number, GotNumber, RestOf, BitReader.Valid;
    ghost var bp := reader.bp;
    reader.EnsureBits17();
    var a := NextNumber(reader, 5);
    var b := NextNumber(reader, 5);
    var c := NextNumber(reader, 4);
    CountsRead(reader.data, bp, a, b, c);
    hlit, hdist, hclen := a + 257, b + 1, c + 4;
  }

  lemma TreesStep(hlit: nat, hdist: nat, hclen: nat, s: seq<bool>, cl: seq<nat>, s1: seq<bool>)
    requires 257 <= hlit <= 288 && 1 <= hdist <= 32 && 4 <= hclen <= 19 && |cl| == 19
    requires ClLengths(s, hclen, 0, Repeat(0, 19)) == Got(cl, s1)
    ensures TreesAfterCounts(hlit, hdist, hclen, s) == if TreeOk(cl) then TwoTrees(cl, hlit, hdist, s1) else Malformed
  {
  }

  lemma TreesCutOff(hlit: nat, hdist: nat, hclen: nat, s: seq<bool>)
    requires 257 <= hlit <= 288 && 1 <= hdist <= 32 && 4 <= hclen <= 19 && |s| < 3 * hclen
    ensures TreesAfterCounts(hlit, hdist, hclen, s).Malformed?
  {
    ClTooShort(s, hclen, 0, Repeat(0, 19));
  }

  /** The header of a dynamic block: both trees, or an error exactly if it is malformed. */
  method GetTreeInflateDynamic(treeLl: HuffmanTree, treeD: HuffmanTree, reader: BitReader)
    returns (error: nat, ghost ll: seq<nat>, ghost dd: seq<nat>)
    requires reader.Valid() && reader.bp <= 8 * |reader.data| && treeLl != treeD
    modifies reader`bp, reader`buffer, reader`avail, treeLl, treeD
    ensures reader.Valid() && error in {0, 13, 14, 15, 16, 49, 50, 54, 55, 64}
    ensures var r := DynamicTrees(RestOf(reader.data, old(reader.bp)));
      if error == 0 then reader.bp <= 8 * |reader.data| && r == Got((ll, dd), reader.Rest()) else r.Malformed?
    ensures error == 0 ==> |ll| == 288 && |dd| == 32 && Ready(treeLl, ll) && Ready(treeD, dd)
  {
    hide DynamicTrees, TreesAfterCounts, TwoTrees, ClLengths, HuffmanTree.Valid, Used, BitReader.PeekBits;
    if reader.bitsize - reader.bp < 14 {
      HeaderCutOff(reader.Rest());
      return 49, [], [];
    }
    var hlit, hdist, hclen := ReadCounts(reader);
    ghost var s := reader.Rest();
    if reader.bp + hclen * 3 > reader.bitsize {
      TreesCutOff(hlit, hdist, hclen, s);
      return 50, [], [];
    }
    var bitlenCl := ReadClLengths(reader, hclen);
    ghost var cl := bitlenCl[..];
    TreesStep(hlit, hdist, hclen, s, cl, reader.Rest());
    var treeCl := new HuffmanTree();
    error := treeCl.MakeFromLengths(bitlenCl, 7);
    ll, dd := [], [];
    if error != 0 { return; }
    error, ll, dd := ReadTwoTrees(reader, treeCl, treeLl, treeD, hlit, hdist, cl);
  }
}
