/** The decompressor. Each method decodes what DeflateSpec says and nothing else. */
module Inflater {
  import opened Bits
  import opened BitIO
  import opened Canonical
  import opened HuffTable
  import opened HuffmanTrees
  import opened DeflateSpec
  import opened DeflateCode
  import opened DeflateTables
  import opened TreeCode
  import opened FixedTrees
  import opened ReadAhead
  import opened TreeReader

  // ---------- the symbols of a block

  /** What a block comes to once its next symbol is known. */
  ghost function AfterSymbol(ll: seq<nat>, dd: seq<nat>, v: nat, s: seq<bool>, out: seq<byte>): Read<seq<byte>>
    requires |ll| == 288 && |dd| == 32
  {
    if v < END_CODE then Block(ll, dd, s, out + [v])
    else if v == END_CODE then Got(out, s)
    else if v > 285 then Malformed
    else AfterPair(ll, dd, Pair(dd, v - FIRST_LENGTH_CODE, s), out)
  }

  ghost function AfterPair(ll: seq<nat>, dd: seq<nat>, p: Read<(nat, nat)>, out: seq<byte>): Read<seq<byte>>
    requires |ll| == 288 && |dd| == 32
  {
    match p
    case Malformed => Malformed
    case Got(p, s) => if p.1 == 0 || p.1 > |out| then Malformed else Block(ll, dd, s, Copy(out, p.0, p.1))
  }

  lemma BlockStep(ll: seq<nat>, dd: seq<nat>, v: nat, s: seq<bool>, s1: seq<bool>, out: seq<byte>)
    requires |ll| == 288 && |dd| == 32 && Symbol(ll, s) == Got(v, s1)
    ensures Block(ll, dd, s, out) == AfterSymbol(ll, dd, v, s1, out)
  {
    if FIRST_LENGTH_CODE <= v <= 285 { BlockPair(ll, dd, v, s, s1, out); }
  }

  lemma BlockPair(ll: seq<nat>, dd: seq<nat>, v: nat, s: seq<bool>, s1: seq<bool>, out: seq<byte>)
    requires |ll| == 288 && |dd| == 32 && Symbol(ll, s) == Got(v, s1) && FIRST_LENGTH_CODE <= v <= 285
    ensures Block(ll, dd, s, out) == AfterPair(ll, dd, Pair(dd, v - FIRST_LENGTH_CODE, s1), out)
  {
    var p := Pair(dd, v - FIRST_LENGTH_CODE, s1);
    if p.Got? && p.value.1 <= |out| {
      BlockMatch(ll, dd, s, s1, p.rest, v - FIRST_LENGTH_CODE, p.value.0, p.value.1, out);
    }
  }

  /** Copies of bytes that may overlap what they are copied to: first as much as there is, then
      byte by byte. */
  method CopyBack(before: seq<byte>, length: nat, distance: nat) returns (out: seq<byte>)
    requires 0 < distance <= |before|
    ensures out == Copy(before, length, distance)
  {
    var start := |before|;
    var backward := start - distance;
    out := before;
    if distance < length {
      out := out + out[backward..backward + distance];
      var forward := distance;
      while forward < length
        invariant distance <= forward <= length && |out| == start + forward && before <= out
        invariant backward == forward + |before| - 2 * distance
        invariant forall k: int :: start <= k < |out| ==> out[k] == out[k - distance]
      {
        CopiedTwice(out, start, distance, forward);
        out := out + [out[backward]];
        backward := backward + 1;
        forward := forward + 1;
      }
    } else {
      out := out + out[backward..backward + length];
    }
    assert Repeats(out, start, length, distance);
    RepeatsCopy(out, start, length, distance);
    assert out[..start] == before && out[..start + length] == out;
  }

  /** The byte two distances back is the byte one distance back. */
  lemma CopiedTwice(out: seq<byte>, start: nat, distance: nat, forward: nat)
    requires 0 < distance <= start && distance <= forward && |out| == start + forward
    requires forall k: int :: start <= k < |out| ==> out[k] == out[k - distance]
    ensures out[start + forward - 2 * distance] == out[start + forward - distance]
  {
  }

  /** The ways a pair can be cut off or invalid. */
  lemma PairFails(dd: seq<nat>, lc: nat, s: seq<bool>, s1: seq<bool>, le: nat, s2: seq<bool>, dc: nat)
    requires |dd| == 32 && lc < 29
    requires
      || Number(s, LengthExtra(lc)).Malformed?
      || (Number(s, LengthExtra(lc)) == Got(le, s1) && Symbol(dd, s1).Malformed?)
      || (Number(s, LengthExtra(lc)) == Got(le, s1) && Symbol(dd, s1) == Got(dc, s2) && dc > 29)
      || (Number(s, LengthExtra(lc)) == Got(le, s1) && Symbol(dd, s1) == Got(dc, s2) && dc <= 29
          && Number(s2, DistanceExtra(dc)).Malformed?)
    ensures Pair(dd, lc, s).Malformed?
  {
  }

  ghost predicate GotPair(dd: seq<nat>, data: seq<byte>, lc: nat, bp: nat, length: nat, distance: nat, error: nat,
                          after: nat)
    requires |dd| == 32 && lc < 29
  {
    bp <= 8 * |data| ==>
      var p := Pair(dd, lc, RestOf(data, bp));
      if error == 0 then Follows(p, data, after, Got((length, distance), RestOf(data, after))) else p.Malformed?
  }

  lemma PairRead(dd: seq<nat>, data: seq<byte>, lc: nat, bp: nat, le: nat, bp1: nat, dc: nat, bp2: nat, de: nat,
                 bp3: nat)
    requires |dd| == 32 && lc < 29 && bp <= bp1 <= bp2 <= bp3 && dc < 30
    requires GotNumber(data, bp, LengthExtra(lc), le, bp1) && GotSymbol(dd, data, bp1, dc, bp2)
    requires GotNumber(data, bp2, DistanceExtra(dc), de, bp3)
    ensures GotPair(dd, data, lc, bp, LengthBase(lc) + le, DistanceBase(dc) + de, 0, bp3)
  {
    hide Pair, Number, Symbol, RestOf, LengthBase, DistanceBase, LengthExtra, DistanceExtra;
    if bp <= 8 * |data| {
      var s, s1, s2, s3 := RestOf(data, bp), RestOf(data, bp1), RestOf(data, bp2), RestOf(data, bp3);
      if bp3 <= 8 * |data| {
        PairSteps(dd, lc, s, s1, s2, s3, le, dc, de);
      } else {
        PairFails(dd, lc, s, s1, le, s2, dc);
      }
    }
  }

  lemma PairInvalid(dd: seq<nat>, data: seq<byte>, lc: nat, bp: nat, le: nat, bp1: nat, dc: nat, bp2: nat, error: nat,
                    length: nat, distance: nat, after: nat)
    requires |dd| == 32 && lc < 29 && bp <= bp1 <= bp2 && dc > 29 && error != 0
    requires GotNumber(data, bp, LengthExtra(lc), le, bp1) && GotSymbol(dd, data, bp1, dc, bp2)
    ensures GotPair(dd, data, lc, bp, length, distance, error, after)
  {
    if bp <= 8 * |data| { PairFails(dd, lc, RestOf(data, bp), RestOf(data, bp1), le, RestOf(data, bp2), dc); }
  }

  lemma NoExtraBits(data: seq<byte>, bp: nat)
    requires bp <= 8 * |data|
    ensures Number(RestOf(data, bp), 0) == Got(0, RestOf(data, bp))
  {
  }

  /** The extra bits of a length or distance, if it has any. */
  method ExtraBits(reader: BitReader, n: nat) returns (v: nat)
    requires reader.Valid() && n <= reader.avail
    modifies reader`bp, reader`buffer, reader`avail
    ensures reader.Valid() && reader.bp == old(reader.bp) + n && reader.avail == old(reader.avail) - n
    ensures v < Pow2(n)
    ensures GotNumber(reader.data, old(reader.bp), n, v, reader.bp)
  {
    v := 0;
    if n != 0 {
      v := NextNumber(reader, n);
    } else if reader.bp <= 8 * |reader.data| {
      NoExtraBits(reader.data, reader.bp);
    }
  }

  lemma LengthInRange(lc: nat, le: nat)
    requires lc < 29 && le < Pow2(LengthExtra(lc))
    ensures 3 <= LengthBase(lc) + le <= 258
  {
    SmallPowers();
    LengthBase27();
    hide Pow2;
    if lc < 27 { LengthBasesGrow(lc + 1, 28); }
  }

  method ReadLength(reader: BitReader, lc: nat) returns (length: nat, ghost le: nat)
    requires reader.Valid() && lc < 29
    modifies reader`bp, reader`buffer, reader`avail
    ensures reader.Valid() && old(reader.bp) <= reader.bp && 3 <= length <= 258 && length == LengthBase(lc) + le
    ensures GotNumber(reader.data, old(reader.bp), LengthExtra(lc), le, reader.bp)
  {
    reader.EnsureBits25();
    var base, bits := LengthEntry(lc);
    var extra := ExtraBits(reader, bits);
    LengthInRange(lc, extra);
    length, le := base + extra, extra;
  }

  method ReadDistance(reader: BitReader, tree: HuffmanTree, ghost dd: seq<nat>)
    returns (distance: nat, error: nat, ghost dc: nat, ghost bp2: nat, ghost de: nat)
    requires reader.Valid() && Ready(tree, dd) && |dd| == 32
    modifies reader`bp, reader`buffer, reader`avail
    ensures reader.Valid() && old(reader.bp) < bp2 <= reader.bp && distance > 0
    ensures error in {0, 16, 18} && (error == 0 <==> dc < 30)
    ensures GotSymbol(dd, reader.data, old(reader.bp), dc, bp2)
    ensures error == 0 ==>
      distance == DistanceBase(dc) + de && GotNumber(reader.data, bp2, DistanceExtra(dc), de, reader.bp)
  {
    reader.EnsureBits32();
    var code := NextSymbol(reader, tree, dd);
    dc, bp2, de := code, reader.bp, 0;
    if code > 29 {
      return 1, if code <= 31 then 18 else 16, dc, bp2, de;
    }
    var base, bits := DistanceEntry(code);
    var extra := ExtraBits(reader, bits);
    distance, error, de := base + extra, 0, extra;
  }

  /** What follows a length code. */
  method ReadPair(reader: BitReader, tree: HuffmanTree, lc: nat, ghost dd: seq<nat>)
    returns (length: nat, distance: nat, error: nat)
    requires reader.Valid() && Ready(tree, dd) && |dd| == 32 && lc < 29
    modifies reader`bp, reader`buffer, reader`avail
    ensures reader.Valid() && old(reader.bp) < reader.bp && 3 <= length <= 258 && distance > 0
    ensures error in {0, 16, 18}
    ensures GotPair(dd, reader.data, lc, old(reader.bp), length, distance, error, reader.bp)
  {
    hide Pair, GotPair, Number, Symbol, LengthBase, DistanceBase, LengthExtra, DistanceExtra;
    ghost var bp := reader.bp;
    ghost var le, dc, bp2, de;
    length, le := ReadLength(reader, lc);
    ghost var bp1 := reader.bp;
    distance, error, dc, bp2, de := ReadDistance(reader, tree, dd);
    if error == 0 {
      PairRead(dd, reader.data, lc, bp, le, bp1, dc, bp2, de, reader.bp);
    } else {
      PairInvalid(dd, reader.data, lc, bp, le, bp1, dc, bp2, error, length, distance, reader.bp);
    }
  }

  /** The state right after a symbol has been read. */
  ghost predicate HasRead(goal: Read<seq<byte>>, ll: seq<nat>, dd: seq<nat>, data: seq<byte>, bp: nat, symbol: nat,
                          out: seq<byte>)
    requires |ll| == 288 && |dd| == 32
  {
    if bp <= 8 * |data| && symbol < 288 then goal == AfterSymbol(ll, dd, symbol, RestOf(data, bp), out)
      else goal.Malformed?
  }

  lemma SymbolFollows(goal: Read<seq<byte>>, ll: seq<nat>, dd: seq<nat>, data: seq<byte>, bp: nat, after: nat,
                      symbol: nat, out: seq<byte>)
    requires |ll| == 288 && |dd| == 32 && bp <= after
    requires Follows(goal, data, bp, Block(ll, dd, RestOf(data, bp), out))
    requires GotSymbol(ll, data, bp, symbol, after)
    ensures HasRead(goal, ll, dd, data, after, symbol, out)
  {
    if after <= 8 * |data| && symbol < 288 {
      BlockStep(ll, dd, symbol, RestOf(data, bp), RestOf(data, after), out);
    }
  }

  lemma LiteralFollows(goal: Read<seq<byte>>, ll: seq<nat>, dd: seq<nat>, data: seq<byte>, bp: nat, symbol: nat,
                       out: seq<byte>)
    requires |ll| == 288 && |dd| == 32 && symbol < 256 && HasRead(goal, ll, dd, data, bp, symbol, out)
    ensures Follows(goal, data, bp, Block(ll, dd, RestOf(data, bp), out + [symbol]))
  {
  }

  lemma PairFollows(goal: Read<seq<byte>>, ll: seq<nat>, dd: seq<nat>, data: seq<byte>, bp: nat, after: nat,
                    symbol: nat, out: seq<byte>,
                    length: nat, distance: nat, error: nat)
    requires |ll| == 288 && |dd| == 32 && bp <= after && FIRST_LENGTH_CODE <= symbol <= 285 && distance > 0
    requires HasRead(goal, ll, dd, data, bp, symbol, out)
    requires GotPair(dd, data, symbol - FIRST_LENGTH_CODE, bp, length, distance, error, after)
    ensures error != 0 || distance > |out| ==> goal.Malformed?
    ensures error == 0 && distance <= |out| ==>
      Follows(goal, data, after, Block(ll, dd, RestOf(data, after), Copy(out, length, distance)))
  {
    if bp <= 8 * |data| {
      var p := Pair(dd, symbol - FIRST_LENGTH_CODE, RestOf(data, bp));
      assert goal == AfterPair(ll, dd, p, out);
    }
  }

  /** What one symbol does. */
  method Perform(reader: BitReader, tree: HuffmanTree, symbol: nat, before: seq<byte>,
                 ghost goal: Read<seq<byte>>, ghost ll: seq<nat>, ghost dd: seq<nat>)
    returns (out: seq<byte>, done: bool, error: nat)
    requires reader.Valid() && Ready(tree, dd) && |ll| == 288 && |dd| == 32
    requires HasRead(goal, ll, dd, reader.data, reader.bp, symbol, before)
    modifies reader`bp, reader`buffer, reader`avail
    ensures reader.Valid() && old(reader.bp) <= reader.bp && |before| <= |out| <= |before| + 258
    ensures error != 0 ==> goal.Malformed?
    ensures error == 0 ==> Follows(goal, reader.data, reader.bp,
      if done then Got(out, reader.Rest()) else Block(ll, dd, reader.Rest(), out))
    ensures error in {0, 16, 18, 52}
  {
    hide Block, Ready, Copy, GotPair;
    out, done, error := before, false, 0;
    if symbol <= 255 {
      LiteralFollows(goal, ll, dd, reader.data, reader.bp, symbol, before);
      out := before + [symbol];
    } else if FIRST_LENGTH_CODE <= symbol <= 285 {
      ghost var bp := reader.bp;
      var length, distance;
      length, distance, error := ReadPair(reader, tree, symbol - FIRST_LENGTH_CODE, dd);
      PairFollows(goal, ll, dd, reader.data, bp, reader.bp, symbol, before, length, distance, error);
      if error != 0 { return; }
      if distance > |before| { return before, false, 52; }
      out := CopyBack(before, length, distance);
    } else if symbol == 256 {
      done := true;
    } else {
      error := 16;
    }
  }

  /** All symbols of a block. Two literals in a row are decoded from one refill of the reader. */
  method DecodeSymbols(reader: BitReader, treeLl: HuffmanTree, treeD: HuffmanTree, before: seq<byte>,
                       maxOutputSize: nat,
                       ghost ll: seq<nat>, ghost dd: seq<nat>)
    returns (out: seq<byte>, error: nat)
    requires reader.Valid() && reader.bp <= 8 * |reader.data|
    requires Ready(treeLl, ll) && Ready(treeD, dd) && |ll| == 288 && |dd| == 32
    modifies reader`bp, reader`buffer, reader`avail
    ensures reader.Valid()
    ensures var goal := Block(ll, dd, RestOf(reader.data, old(reader.bp)), before);
      && (error == 0 ==> reader.bp <= 8 * |reader.data| && goal == Got(out, reader.Rest()))
      && (error != 0 ==> goal.Malformed? || (error == 109 && 0 < maxOutputSize < |goal.value|))
    ensures error in {0, 16, 18, 51, 52, 109}
  {
    hide Block, Ready, BitReader.Valid;
    ghost var goal := Block(ll, dd, reader.Rest(), before);
    var done := false;
    out, error := before, 0;
    while !done
      invariant reader.Valid() && reader.bp <= 8 * |reader.data| && error == 0
      invariant goal == if done then Got(out, reader.Rest()) else Block(ll, dd, reader.Rest(), out)
      decreases !done, 8 * |reader.data| - reader.bp
    {
      ghost var bp := reader.bp;
      ghost var size := |out|;
      reader.EnsureBits32();
      var symbol := NextSymbol(reader, treeLl, ll);
      SymbolFollows(goal, ll, dd, reader.data, bp, reader.bp, symbol, out);
      if symbol <= 255 {
        LiteralFollows(goal, ll, dd, reader.data, reader.bp, symbol, out);
        out := out + [symbol];
        ghost var bp1 := reader.bp;
        symbol := NextSymbol(reader, treeLl, ll);
        SymbolFollows(goal, ll, dd, reader.data, bp1, reader.bp, symbol, out);
      }
      out, done, error := Perform(reader, treeD, symbol, out, goal, ll, dd);
      assert |out| <= size + 260;  // the reserved room is never exceeded
      if error != 0 { return; }
      if reader.bp > reader.bitsize { return out, 51; }
      if maxOutputSize != 0 && |out| > maxOutputSize { return out, 109; }
    }
  }

  /** A block compressed with the fixed trees or with trees of its own. */
  method InflateHuffmanBlock(reader: BitReader, before: seq<byte>, btype: nat, maxOutputSize: nat,
                             ghost ignoreNlen: bool)
    returns (out: seq<byte>, error: nat)
    requires reader.Valid() && reader.bp <= 8 * |reader.data| && 1 <= btype <= 2
    modifies reader`bp, reader`buffer, reader`avail
    ensures reader.Valid()
    ensures Outcome(OneBlock(btype, RestOf(reader.data, old(reader.bp)), before, ignoreNlen),
                    reader.data, reader.bp, out, error, maxOutputSize)
    ensures KnownError(error)
  {
    hide Block, DynamicTrees, Stored, FixedLengths, FixedDistances, BitReader.Valid, Ready, HuffmanTree.Valid, RestOf,
      Decodable;
    var treeLl := new HuffmanTree();
    var treeD := new HuffmanTree();
    ghost var ll, dd;
    if btype == 1 {
      error := GenerateFixedLitLenTree(treeLl);
      error := GenerateFixedDistanceTree(treeD);
      ll, dd := FixedLengths(), FixedDistances();
    } else {
      error, ll, dd := GetTreeInflateDynamic(treeLl, treeD, reader);
    }
    if error != 0 { return before, error; }
    out, error := DecodeSymbols(reader, treeLl, treeD, before, maxOutputSize, ll, dd);
  }

  /** How a result relates to what the reference decoder says: success gives its output, and the
      place where it stopped; an error means that it fails too, or that its output is too large. */
  ghost predicate Outcome(goal: Read<seq<byte>>, data: seq<byte>, bp: nat, out: seq<byte>, error: nat,
                          maxOutputSize: nat) {
    if error == 0 then bp <= 8 * |data| && goal == Got(out, RestOf(data, bp))
    else goal.Malformed? || (error == 109 && 0 < maxOutputSize < |goal.value|)
  }

  // ---------- stored blocks

  lemma {:induction false} BytesOfStream(d: seq<byte>, k: nat, n: nat)
    requires k + n <= |d|
    ensures |StreamBits(d)[8 * k..]| >= 8 * n && Bytes(StreamBits(d)[8 * k..], n) == d[k..k + n]
    decreases n
  {
    if n > 0 {
      BytesOfStream(d, k + 1, n - 1);
      StreamDrop(d, k);
      var s := StreamBits(d)[8 * k..];
      assert s[..8] == ByteBits(d[k]);
      assert Pow2(8) == 256;
      ValBitsOf(d[k], 8);
      assert s[8..] == StreamBits(d)[8 * (k + 1)..];
      assert d[k..k + n] == [d[k]] + d[k + 1..k + n];
    }
  }

  lemma WordBits(d: seq<byte>, k: nat)
    requires k + 2 <= |d|
    ensures |StreamBits(d)[8 * k..]| >= 16 && Val(StreamBits(d)[8 * k..][..16]) == Word(d, k)
  {
    StreamDrop(d, k);
    var s := StreamBits(d)[8 * k..];
    var a, b := ByteBits(d[k]), ByteBits(d[k + 1]);
    assert s == a + StreamBits(d[k..][1..]) && d[k..][1..] == d[k + 1..];
    assert d[k + 1..][0] == d[k + 1];
    assert s[..16] == a + b;
    ValConcat(a, b);
    assert Pow2(8) == 256;
    ValBitsOf(d[k], 8);
    ValBitsOf(d[k + 1], 8);
  }

  lemma WholeByte(n: nat, bp: nat)
    requires bp <= 8 * n
    ensures (bp + 7) / 8 <= n && 0 <= 8 * ((bp + 7) / 8) - bp < 8
    ensures (8 * n - bp) % 8 == 8 * ((bp + 7) / 8) - bp
  {
    var k := (bp + 7) / 8;
    assert 8 * n - bp == 8 * (n - k) + (8 * k - bp);
  }

  /** A stored block starts at the next whole byte. */
  lemma NextByte(data: seq<byte>, bp: nat)
    requires bp <= 8 * |data|
    ensures (bp + 7) / 8 <= |data|
    ensures RestOf(data, bp)[|RestOf(data, bp)| % 8..] == StreamBits(data)[8 * ((bp + 7) / 8)..]
  {
    hide StreamBits;
    WholeByte(|data|, bp);
    DropTwice(StreamBits(data), bp, 8 * ((bp + 7) / 8) - bp);
  }

  lemma DropTwice(s: seq<bool>, i: nat, j: nat)
    requires i + j <= |s|
    ensures s[i..][j..] == s[i + j..]
  {
  }

  /** The bits of a stored block, from its first whole byte on. */
  lemma StoredBits(s: seq<bool>, t: seq<bool>, len: nat, nlen: nat, bytes: seq<byte>, rest: seq<bool>, out: seq<byte>,
                   ignoreNlen: bool)
    requires t == s[|s| % 8..] && |t| > 32 && len == Val(t[..16]) && nlen == Val(t[16..32])
    requires |t| >= 32 + 8 * len ==> bytes == Bytes(t[32..], len) && rest == t[32 + 8 * len..]
    ensures Stored(s, out, ignoreNlen)
         == if (!ignoreNlen && len + nlen != 65535) || |t| < 32 + 8 * len then Malformed else Got(out + bytes, rest)
  {
  }

  /** What a stored block comes to whose first whole byte is at k. */
  ghost function StoredAt(data: seq<byte>, k: nat, out: seq<byte>, ignoreNlen: bool): Read<seq<byte>> {
    if k + 4 >= |data| then Malformed
    else
      var len, nlen := Word(data, k), Word(data, k + 2);
      if (!ignoreNlen && len + nlen != 65535) || k + 4 + len > |data| then Malformed
      else Got(out + data[k + 4..k + 4 + len], RestOf(data, 8 * (k + 4 + len)))
  }

  lemma StoredStep(data: seq<byte>, bp: nat, out: seq<byte>, ignoreNlen: bool)
    requires bp <= 8 * |data|
    ensures Stored(RestOf(data, bp), out, ignoreNlen) == StoredAt(data, (bp + 7) / 8, out, ignoreNlen)
  {
    hide Stored, Bytes, Word, StreamBits, Val;
    var k := (bp + 7) / 8;
    NextByte(data, bp);
    var t := StreamBits(data)[8 * k..];
    if k + 4 < |data| {
      var len := Word(data, k);
      StoredParts(data, k, len);
      var bytes, rest := [], [];
      if k + 4 + len <= |data| { bytes, rest := data[k + 4..k + 4 + len], RestOf(data, 8 * (k + 4 + len)); }
      StoredBits(RestOf(data, bp), t, len, Word(data, k + 2), bytes, rest, out, ignoreNlen);
    } else {
      assert |t| <= 32;
      StoredTooShort(RestOf(data, bp), out, ignoreNlen);
    }
  }

  lemma StoredTooShort(s: seq<bool>, out: seq<byte>, ignoreNlen: bool)
    requires |s[|s| % 8..]| <= 32
    ensures Stored(s, out, ignoreNlen).Malformed?
  {
  }

  /** The four lengths and the bytes of a stored block. */
  lemma StoredParts(data: seq<byte>, k: nat, len: nat)
    requires k + 4 < |data|
    ensures var t := StreamBits(data)[8 * k..];
      && |t| == 8 * (|data| - k) && Val(t[..16]) == Word(data, k) && Val(t[16..32]) == Word(data, k + 2)
      && (k + 4 + len <= |data| ==>
            Bytes(t[32..], len) == data[k + 4..k + 4 + len] && t[32 + 8 * len..] == RestOf(data, 8 * (k + 4 + len)))
  {
    hide Bytes, Word, StreamBits, Val;
    var all := StreamBits(data);
    WordBits(data, k);
    WordBits(data, k + 2);
    DropTwice(all, 8 * k, 16);
    assert all[8 * k..][16..32] == all[8 * k..][16..][..16];
    if k + 4 + len <= |data| {
      BytesOfStream(data, k + 4, len);
      DropTwice(all, 8 * k, 32);
      DropTwice(all, 8 * k, 32 + 8 * len);
    }
  }

  /** Why the stored block whose first whole byte is at k is refused: 52 if there is no byte after the lengths,
      21 if the second is not the complement of the first, 23 if there are not as many bytes. */
  function StoredError(data: seq<byte>, k: nat, ignoreNlen: bool): nat {
    if k + 4 >= |data| then 52
    else
      var len := (data[k] as int) + 256 * (data[k + 1] as int);
      var nlen := (data[k + 2] as int) + 256 * (data[k + 3] as int);
      if !ignoreNlen && len + nlen != 65535 then 21 else if k + 4 + len > |data| then 23 else 0
  }

  lemma StoredErrorIs(data: seq<byte>, k: nat, ignoreNlen: bool)
    ensures k + 4 >= |data| ==> StoredError(data, k, ignoreNlen) == 52
    ensures k + 4 < |data| ==>
      StoredError(data, k, ignoreNlen) == (if !ignoreNlen && Word(data, k) + Word(data, k + 2) != 65535 then 21
        else if k + 4 + Word(data, k) > |data| then 23 else 0)
  {
  }

  method InflateNoCompression(reader: BitReader, before: seq<byte>, ignoreNlen: bool, ghost maxOutputSize: nat)
    returns (out: seq<byte>, error: nat)
    requires reader.Valid() && reader.bp <= 8 * |reader.data|
    modifies reader`bp, reader`buffer, reader`avail
    ensures reader.Valid() && error == StoredError(reader.data, (old(reader.bp) + 7) / 8, ignoreNlen)
    ensures Outcome(OneBlock(0, RestOf(reader.data, old(reader.bp)), before, ignoreNlen),
                    reader.data, reader.bp, out, error, maxOutputSize)
  {
    hide Stored, Word, Bytes, RestOf, ZTake, Val, StoredError;
    StoredStep(reader.data, reader.bp, before, ignoreNlen);
    StoredErrorIs(reader.data, (reader.bp + 7) / 8, ignoreNlen);
    var data := reader.data;
    var bytepos := (reader.bp + 7) / 8;
    if bytepos + 4 >= reader.size { return before, 52; }
    var len := Word(data, bytepos);
    bytepos := bytepos + 2;
    var nlen := Word(data, bytepos);
    bytepos := bytepos + 2;
    if !ignoreNlen && len + nlen != 65535 { return before, 21; }
    if bytepos + len > reader.size { return before, 23; }
    out, error := before, 0;
    assert before + data[bytepos..bytepos] == before;
    if len != 0 {
      out := out + data[bytepos..bytepos + len];
      bytepos := bytepos + len;
    }
    reader.bp, reader.avail := 8 * bytepos, 0;
    AtByte(data, 8 * bytepos, reader.buffer);
  }

  lemma AtByte(data: seq<byte>, bp: nat, buffer: nat)
    ensures Low(buffer, 0) == Val(ZTake(RestOf(data, bp), 0))
  {
    assert Pow2(0) == 1;
  }

  /** What the source refuses although section 3.2.4 of RFC 1951 allows it: a stored block without bytes, where
      the data ends. */
  lemma RefusedExactly(s: seq<bool>, out: seq<byte>)
    requires |s| >= 32 + |s| % 8
    requires Val(s[|s| % 8..][..16]) + Val(s[|s| % 8..][16..32]) == 65535
    requires |s| >= 32 + |s| % 8 + 8 * Val(s[|s| % 8..][..16])
    ensures Stored(s, out, false).Malformed? <==> Val(s[|s| % 8..][..16]) == 0 && |s| == 32 + |s| % 8
  {
  }

  lemma EmptyStreamRefused(ignoreNlen: bool)
    ensures Inflate(StreamBits([1, 0, 0, 255, 255]), [], ignoreNlen).Malformed?
  {
    var s := StreamBits([1, 0, 0, 255, 255]);
    FirstBitsOfOne([0, 0, 255, 255]);
    var t := s[3..];
    assert |t| == 37 && s[0] && s[1..3] == [false, false];
    NoBits();
    hide StreamBits, Val;
    assert t[|t| % 8..] == t[5..];
  }

  lemma FirstBitsOfOne(d: seq<byte>)
    ensures |StreamBits([1] + d)| == 8 + 8 * |d|
    ensures StreamBits([1] + d)[..3] == [true, false, false]
  {
    assert ([1] + d)[1..] == d;
    assert ByteBits(1)[..3] == [true, false, false];
  }

  lemma NoBits()
    ensures Val([false, false]) == 0
  {
    assert [false, false][1..] == [false];
  }

  // ---------- whole streams

  lemma InflateStep(data: seq<byte>, bp: nat, out: seq<byte>, ignoreNlen: bool, bfinal: nat, btype: nat)
    requires bp + 3 <= 8 * |data|
    requires GotNumber(data, bp, 1, bfinal, bp + 1) && GotNumber(data, bp + 1, 2, btype, bp + 3)
    ensures var r := OneBlock(btype, RestOf(data, bp + 3), out, ignoreNlen);
      Inflate(RestOf(data, bp), out, ignoreNlen)
      == if r.Malformed? then Malformed else if bfinal == 1 then r else Inflate(r.rest, r.value, ignoreNlen)
  {
    var s := RestOf(data, bp);
    assert s[..1] == [s[0]] && [s[0]][1..] == [];
    assert bfinal == Bit(s[0]);
    assert s[1..] == RestOf(data, bp + 1);
    assert s[1..3] == s[1..][..2];
    assert s[3..] == RestOf(data, bp + 3);
  }

  lemma {:induction false} InflateGrows(s: seq<bool>, out: seq<byte>, ignoreNlen: bool)
    ensures Inflate(s, out, ignoreNlen).Got? ==> out <= Inflate(s, out, ignoreNlen).value
    decreases |s|
  {
    if |s| >= 3 {
      var r := OneBlock(Val(s[1..3]), s[3..], out, ignoreNlen);
      if r.Got? {
        assert out <= r.value;
        if !s[0] { InflateGrows(r.rest, r.value, ignoreNlen); }
      }
    }
  }

  /** The decompressor: it succeeds exactly if the reference decoder does and the output is not too
      large, and then the output is that of the reference decoder. */
  method Inflatev(before: seq<byte>, data: seq<byte>, ignoreNlen: bool, maxOutputSize: nat)
    returns (out: seq<byte>, error: nat)
    ensures var r := Inflate(StreamBits(data), before, ignoreNlen);
      && (error == 0 <==> r.Got? && (maxOutputSize == 0 || |r.value| <= maxOutputSize))
      && (error == 0 ==> out == r.value)
      && (error != 0 && r.Got? ==> error == 109)
    ensures KnownError(error) && (data == [] ==> error == 52)
  {
    hide Inflate, OneBlock, Number, GotNumber, RestOf, Pow2, BitReader.PeekBits;
    Pow2Small();
    var reader := new BitReader(data);
    ghost var goal := Inflate(StreamBits(data), before, ignoreNlen);
    AtStart(data);
    out, error := before, 0;
    var bfinal := 0;
    while bfinal == 0
      invariant reader.Valid() && reader.data == data && reader.bp <= 8 * |data| && bfinal <= 1 && error == 0
      invariant bfinal == 1 ==> data != []
      invariant if bfinal == 1 then goal == Got(out, reader.Rest()) && !TooLarge(out, maxOutputSize)
                else goal == Inflate(reader.Rest(), out, ignoreNlen)
      decreases 1 - bfinal, 8 * |data| - reader.bp
    {
      if reader.bitsize - reader.bp < 3 {
        HeaderMissing(data, reader.bp, out, ignoreNlen);
        return out, 52;
      }
      bfinal, out, error := NextBlock(reader, out, ignoreNlen, maxOutputSize, goal);
      if error != 0 { return; }
    }
  }

  /** The errors that the decompressor can give. */
  predicate KnownError(error: nat) {
    error in {0, 13, 14, 15, 16, 18, 20, 21, 23, 49, 50, 51, 52, 54, 55, 64, 109}
  }

  predicate TooLarge(out: seq<byte>, maxOutputSize: nat) {
    maxOutputSize != 0 && |out| > maxOutputSize
  }

  lemma AtStart(data: seq<byte>)
    ensures RestOf(data, 0) == StreamBits(data)
  {
  }

  lemma HeaderMissing(data: seq<byte>, bp: nat, out: seq<byte>, ignoreNlen: bool)
    requires bp <= 8 * |data| < bp + 3
    ensures Inflate(RestOf(data, bp), out, ignoreNlen).Malformed?
  {
  }

  /** One block, with its three bits of header. */
  method NextBlock(reader: BitReader, before: seq<byte>, ignoreNlen: bool, maxOutputSize: nat,
                   ghost goal: Read<seq<byte>>)
    returns (bfinal: nat, out: seq<byte>, error: nat)
    requires reader.Valid() && reader.bp + 3 <= 8 * |reader.data|
    requires goal == Inflate(reader.Rest(), before, ignoreNlen)
    modifies reader`bp, reader`buffer, reader`avail
    ensures reader.Valid() && bfinal <= 1
    ensures error == 0 ==> old(reader.bp) < reader.bp <= 8 * |reader.data| && !TooLarge(out, maxOutputSize)
    ensures error == 0 ==>
      goal == if bfinal == 1 then Got(out, reader.Rest()) else Inflate(reader.Rest(), out, ignoreNlen)
    ensures error != 0 ==> goal.Malformed? || (error == 109 && TooLarge(goal.value, maxOutputSize))
    ensures KnownError(error)
  {
    hide Inflate, OneBlock, Number, GotNumber, BitReader.PeekBits;
    ghost var bp := reader.bp;
    reader.EnsureBits9();
    bfinal := NextNumber(reader, 1);
    var btype := NextNumber(reader, 2);
    InflateStep(reader.data, bp, before, ignoreNlen, bfinal, btype);
    ghost var r := OneBlock(btype, reader.Rest(), before, ignoreNlen);
    out, error := BlockBody(reader, btype, before, ignoreNlen, maxOutputSize);
    if error == 0 && maxOutputSize != 0 && |out| > maxOutputSize { error := 109; }
    if r.Got? { InflateGrows(r.rest, r.value, ignoreNlen); }
  }

  method BlockBody(reader: BitReader, btype: nat, before: seq<byte>, ignoreNlen: bool, maxOutputSize: nat)
    returns (out: seq<byte>, error: nat)
    requires reader.Valid() && reader.bp <= 8 * |reader.data| && btype < 4
    modifies reader`bp, reader`buffer, reader`avail
    ensures reader.Valid()
    ensures Outcome(OneBlock(btype, RestOf(reader.data, old(reader.bp)), before, ignoreNlen),
                    reader.data, reader.bp, out, error, maxOutputSize)
    ensures KnownError(error) && (btype == 3 ==> error == 20)
    ensures btype == 0 ==> error == StoredError(reader.data, (old(reader.bp) + 7) / 8, ignoreNlen)
  {
    hide Inflate, OneBlock, RestOf;
    if btype == 3 {
      BadType(reader.Rest(), before, ignoreNlen);
      return before, 20;
    } else if btype == 0 {
      out, error := InflateNoCompression(reader, before, ignoreNlen, maxOutputSize);
    } else {
      out, error := InflateHuffmanBlock(reader, before, btype, maxOutputSize, ignoreNlen);
    }
  }

  lemma Pow2Small()
    ensures Pow2(1) == 2 && Pow2(2) == 4
  {
  }

  lemma BadType(s: seq<bool>, out: seq<byte>, ignoreNlen: bool)
    ensures OneBlock(3, s, out, ignoreNlen).Malformed?
  {
  }
}
