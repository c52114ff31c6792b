/** Reading with checks only now and then: past its end the stream reads as zeros. */
module ReadAhead {
  import opened Bits
  import opened BitIO
  import opened Canonical
  import opened HuffTable
  import opened HuffmanTrees
  import opened DeflateSpec
  import opened DeflateCode
  import opened FixedTrees

  /** The decoder checks only now and then whether it has read past the end, and reads zeros
      until it does. As long as it has not, the rest of the stream still decodes to the goal;
      once it has, the stream is malformed. */
  ghost predicate Follows<T>(goal: Read<T>, data: seq<byte>, bp: nat, now: Read<T>) {
    if bp <= 8 * |data| then goal == now else goal.Malformed?
  }

  ghost predicate Decoded(lens: seq<nat>, data: seq<byte>, bp: nat, symbol: nat, after: nat) {
    || (Begins(lens, symbol, ZTake(RestOf(data, bp), 15)) && after == bp + lens[symbol])
    || (symbol == INVALID_SYMBOL && after > bp && Unmatched(lens, ZTake(RestOf(data, bp), 15)))
  }

  /** What the table decoder finds is what the reference decoder finds. */
  lemma SymbolRead(lens: seq<nat>, data: seq<byte>, bp: nat, symbol: nat, after: nat)
    requires Decodable(lens) && |lens| <= 288 && bp <= 8 * |data| && Decoded(lens, data, bp, symbol, after)
    ensures Symbol(lens, RestOf(data, bp))
         == if symbol < |lens| && after <= 8 * |data| then Got(symbol, RestOf(data, after)) else Malformed
  {
    var s := RestOf(data, bp);
    var w := ZTake(s, 15);
    var i := FindSymbol(lens, w, 0);
    if Begins(lens, symbol, w) {
      assert i < |lens|;
      PrefixFree(lens, 15, i, symbol, w);
      if after <= 8 * |data| { RestAfter(data, bp, lens[i]); }
    } else {
      assert i == |lens|;
    }
  }

  lemma RestAfter(data: seq<byte>, bp: nat, n: nat)
    requires bp + n <= 8 * |data|
    ensures RestOf(data, bp)[n..] == RestOf(data, bp + n)
  {
  }

  lemma NumberRead(data: seq<byte>, bp: nat, n: nat)
    requires bp <= 8 * |data|
    ensures Number(RestOf(data, bp), n)
         == if bp + n <= 8 * |data| then Got(Val(ZTake(RestOf(data, bp), n)), RestOf(data, bp + n)) else Malformed
  {
    if bp + n <= 8 * |data| {
      RestAfter(data, bp, n);
      assert ZTake(RestOf(data, bp), n) == RestOf(data, bp)[..n];
    }
  }

  ghost predicate GotSymbol(lens: seq<nat>, data: seq<byte>, bp: nat, symbol: nat, after: nat) {
    bp <= 8 * |data| ==>
      Symbol(lens, RestOf(data, bp)) == if symbol < |lens| && after <= 8 * |data| then Got(symbol, RestOf(data, after))
        else Malformed
  }

  ghost predicate GotNumber(data: seq<byte>, bp: nat, n: nat, v: nat, after: nat) {
    bp <= 8 * |data| ==>
      Number(RestOf(data, bp), n) == if after <= 8 * |data| then Got(v, RestOf(data, after)) else Malformed
  }

  /** The next symbol of a tree. */
  method NextSymbol(reader: BitReader, tree: HuffmanTree, ghost lens: seq<nat>) returns (symbol: nat)
    requires reader.Valid() && reader.avail >= 15 && Ready(tree, lens) && |lens| <= 288
    modifies reader`bp, reader`buffer, reader`avail
    ensures reader.Valid() && old(reader.bp) < reader.bp && reader.avail >= old(reader.avail) - 15
    ensures symbol < |lens| || symbol == INVALID_SYMBOL
    ensures GotSymbol(lens, reader.data, old(reader.bp), symbol, reader.bp)
  {
    ghost var bp := reader.bp;
    symbol := tree.DecodeSymbol(reader);
    if bp <= 8 * |reader.data| { SymbolRead(lens, reader.data, bp, symbol, reader.bp); }
  }

  /** The next number of n bits. */
  method NextNumber(reader: BitReader, n: nat) returns (v: nat)
    requires reader.Valid() && n <= reader.avail
    modifies reader`bp, reader`buffer, reader`avail
    ensures reader.Valid() && reader.bp == old(reader.bp) + n && reader.avail == old(reader.avail) - n
    ensures v < Pow2(n)
    ensures GotNumber(reader.data, old(reader.bp), n, v, reader.bp)
  {
    ghost var bp := reader.bp;
    v := reader.ReadBits(n);
    ValBound(ZTake(RestOf(reader.data, bp), n));
    if bp <= 8 * |reader.data| { NumberRead(reader.data, bp, n); }
  }
}
