/** The fixed trees (section 3.2.6 of RFC 1951), made by the source like any other tree. */
module FixedTrees {
  import opened Bits
  import opened BitIO
  import opened Canonical
  import opened HuffTable
  import opened HuffmanTrees
  import opened DeflateSpec
  import opened DeflateCode

  /** The tree can be used for reading and writing with these code lengths. */
  ghost predicate Ready(tree: HuffmanTree, lens: seq<nat>)
    reads tree, tree.lengths, tree.codes, tree.tableLen, tree.tableValue
  {
    tree.Valid() && tree.lengths[..] == lens && Decodable(lens)
  }

  /** The code of a symbol, written as the source writes it. */
  method WriteSymbol(writer: BitWriter, tree: HuffmanTree, symbol: nat, ghost lens: seq<nat>)
    requires writer.Valid() && Ready(tree, lens) && symbol < |lens| && lens[symbol] > 0
    modifies writer
    ensures writer.Valid() && writer.base == old(writer.base)
    ensures writer.bits == old(writer.bits) + Code(lens, symbol)
  {
    hide BitWriter.Valid, Decodable;
    writer.WriteBitsReversed(tree.codes[symbol], tree.lengths[symbol]);
  }

  /** n more symbols of length l. */
  lemma {:induction false} UsedRepeat(lens: seq<nat>, l: nat, n: nat, m: nat)
    requires 0 < l <= m
    ensures Used(lens + Repeat(l, n), m) == Used(lens, m) + n * Pow2(m - l)
    decreases n
  {
    if n == 0 {
      assert lens + Repeat(l, 0) == lens;
    } else {
      UsedRepeat(lens, l, n - 1, m);
      assert lens + Repeat(l, n) == (lens + Repeat(l, n - 1)) + [l];
      UsedAppend(lens + Repeat(l, n - 1), l, m);
      assert n * Pow2(m - l) == (n - 1) * Pow2(m - l) + Pow2(m - l);
    }
  }

  lemma FixedLengthsSum(m: nat)
    requires m >= 9
    ensures Used(FixedLengths(), m) == 144 * Pow2(m - 8) + 112 * Pow2(m - 9) + 24 * Pow2(m - 7) + 8 * Pow2(m - 8)
  {
    UsedEmpty(m);
    assert [] + Repeat(8, 144) == Repeat(8, 144);
    UsedRepeat([], 8, 144, m);
    UsedRepeat(Repeat(8, 144), 9, 112, m);
    UsedRepeat(Repeat(8, 144) + Repeat(9, 112), 7, 24, m);
    UsedRepeat(Repeat(8, 144) + Repeat(9, 112) + Repeat(7, 24), 8, 8, m);
  }

  lemma FixedLengthsComplete()
    ensures Used(FixedLengths(), 15) == Pow2(15) && Bounded(FixedLengths(), 9)
  {
    FixedLengthsSum(15);
    Pow2Values();
    assert Pow2(6) == 64;
    hide *;
    assert Used(FixedLengths(), 15) == 144 * 128 + 112 * 64 + 24 * 256 + 8 * 128;
    FixedLengthsBounded();
  }

  lemma FixedLengthsBounded()
    ensures Bounded(FixedLengths(), 9)
  {
    hide Used, Pow2;
  }

  lemma FixedDistancesSum(m: nat)
    requires m >= 5
    ensures Used(FixedDistances(), m) == 32 * Pow2(m - 5)
  {
    UsedEmpty(m);
    assert [] + Repeat(5, 32) == Repeat(5, 32);
    UsedRepeat([], 5, 32, m);
  }

  lemma FixedDistancesComplete()
    ensures Used(FixedDistances(), 15) == Pow2(15) && Bounded(FixedDistances(), 5)
  {
    assert Bounded(FixedDistances(), 5);
    hide Used, Count, FixedDistances;
    FixedDistancesSum(15);
    Pow2Values();
    assert Pow2(10) == 1024;
  }

  method GenerateFixedLitLenTree(tree: HuffmanTree) returns (error: nat)
    modifies tree
    ensures error == 0 && Ready(tree, FixedLengths())
    ensures fresh(tree.lengths) && fresh(tree.codes) && fresh(tree.tableLen) && fresh(tree.tableValue)
  {
    var bitlen := new nat[NUM_DEFLATE_CODE_SYMBOLS];
    for i := 0 to 144
      invariant bitlen[..i] == FixedLengths()[..i]
    {
      bitlen[i] := 8;
    }
    for i := 144 to 256
      invariant bitlen[..i] == FixedLengths()[..i]
    {
      bitlen[i] := 9;
    }
    for i := 256 to 280
      invariant bitlen[..i] == FixedLengths()[..i]
    {
      bitlen[i] := 7;
    }
    for i := 280 to 288
      invariant bitlen[..i] == FixedLengths()[..i]
    {
      bitlen[i] := 8;
    }
    assert bitlen[..] == FixedLengths() by {
      assert bitlen[..] == bitlen[..288] && FixedLengths() == FixedLengths()[..288];
    }
    FixedLengthsComplete();
    error := tree.MakeFromLengths(bitlen, 15);
  }

  method GenerateFixedDistanceTree(tree: HuffmanTree) returns (error: nat)
    modifies tree
    ensures error == 0 && Ready(tree, FixedDistances())
    ensures fresh(tree.lengths) && fresh(tree.codes) && fresh(tree.tableLen) && fresh(tree.tableValue)
  {
    var bitlen := new nat[32];
    for i := 0 to 32
      invariant forall k :: 0 <= k < i ==> bitlen[k] == 5
    {
      bitlen[i] := 5;
    }
    assert bitlen[..] == FixedDistances();
    FixedDistancesComplete();
    error := tree.MakeFromLengths(bitlen, 15);
  }
}
