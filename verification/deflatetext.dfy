/** DEFLATE streams as RFC 1951 writes them out: with the numbers of its tables, and without the encoder. What
    the decoder makes of them ties its definitions to the format. */
module DeflateText {
  import opened Bits
  import opened BitIO
  import opened Canonical
  import opened DeflateSpec
  import opened DeflateCode
  import opened DeflateTables
  import opened TreeCode
  import opened FixedTrees
  import opened Inflater
  import opened Deflater

  // ---------- section 3.2.6: the fixed codes

  lemma {:induction false} CountAppended(lens: seq<nat>, l: nat, n: nat, b: nat)
    ensures Count(lens + Repeat(l, n), b) == Count(lens, b) + (if l == b then n else 0)
    decreases n
  {
    if n == 0 {
      assert lens + Repeat(l, 0) == lens;
    } else {
      CountAppended(lens, l, n - 1, b);
      assert (lens + Repeat(l, n))[..|lens| + n - 1] == lens + Repeat(l, n - 1);
    }
  }

  /** Among the symbols before v, how many have codes of b bits. */
  lemma FixedCount(v: nat, b: nat)
    requires v <= 288
    ensures Count(FixedLengths()[..v], b)
      == if b == 8 then (if v <= 144 then v else if v <= 280 then 144 else v - 136)
         else if b == 9 then (if v <= 144 then 0 else if v <= 256 then v - 144 else 112)
         else if b == 7 then (if v <= 256 then 0 else if v <= 280 then v - 256 else 24)
         else 0
  {
    var f, e, n, s := FixedLengths(), Repeat(8, 144), Repeat(9, 112), Repeat(7, 24);
    CountAppended([], 8, if v <= 144 then v else 144, b);
    assert [] + Repeat(8, if v <= 144 then v else 144) == Repeat(8, if v <= 144 then v else 144);
    if v <= 144 {
      assert f[..v] == Repeat(8, v);
    } else if v <= 256 {
      CountAppended(e, 9, v - 144, b);
      assert f[..v] == e + Repeat(9, v - 144);
    } else if v <= 280 {
      CountAppended(e, 9, 112, b);
      CountAppended(e + n, 7, v - 256, b);
      assert f[..v] == e + n + Repeat(7, v - 256);
    } else {
      CountAppended(e, 9, 112, b);
      CountAppended(e + n, 7, 24, b);
      CountAppended(e + n + s, 8, v - 280, b);
      assert f[..v] == e + n + s + Repeat(8, v - 280);
    }
  }

  lemma {:induction false} FixedNoneShorter(b: nat)
    requires b <= 6
    ensures Used(FixedLengths(), b) == 0
  {
    if b > 0 {
      FixedNoneShorter(b - 1);
      FixedCount(288, b);
      assert FixedLengths()[..288] == FixedLengths();
    }
  }

  lemma FixedUsed()
    ensures Used(FixedLengths(), 6) == 0 && Used(FixedLengths(), 7) == 24 && Used(FixedLengths(), 8) == 200
  {
    FixedNoneShorter(6);
    FixedCount(288, 7);
    FixedCount(288, 8);
    assert FixedLengths()[..288] == FixedLengths();
    hide FixedLengths, Count;
  }

  lemma FixedLengthAt(v: nat)
    requires v < 288
    ensures FixedLengths()[v] == if v < 144 then 8 else if v < 256 then 9 else if v < 280 then 7 else 8
  {
  }

  /** The codes of the literals and lengths, as the table of section 3.2.6 gives them. */
  lemma FixedCodesAre(v: nat)
    requires v < 288
    ensures FixedLengths()[v] > 0
    ensures v < 144 ==> Code(FixedLengths(), v) == MsbBits(0x30 + v, 8)
    ensures 144 <= v < 256 ==> Code(FixedLengths(), v) == MsbBits(0x190 + (v - 144), 9)
    ensures 256 <= v < 280 ==> Code(FixedLengths(), v) == MsbBits(v - 256, 7)
    ensures 280 <= v ==> Code(FixedLengths(), v) == MsbBits(0xC0 + (v - 280), 8)
  {
    FixedLengthAt(v);
    FixedUsed();
    FixedCount(v, FixedLengths()[v]);
    hide FixedLengths, Used, Count, MsbBits;
  }

  lemma {:induction false} NoDistanceShorter(b: nat)
    requires b <= 4
    ensures Used(FixedDistances(), b) == 0
  {
    if b > 0 {
      NoDistanceShorter(b - 1);
      CountAppended([], 5, 32, b);
      assert [] + Repeat(5, 32) == FixedDistances();
    }
  }

  /** The distance codes are numbers of five bits. */
  lemma FixedDistanceCodesAre(v: nat)
    requires v < 32
    ensures FixedDistances()[v] > 0 && Code(FixedDistances(), v) == MsbBits(v, 5)
  {
    assert FixedDistances()[v] == 5;
    DistancePosition(v);
    hide FixedDistances, Position, MsbBits;
  }

  lemma DistancePosition(v: nat)
    requires v < 32
    ensures FixedDistances()[v] == 5 && Position(FixedDistances(), v) == v
  {
    NoDistanceShorter(4);
    CountAppended([], 5, v, 5);
    assert [] + Repeat(5, v) == FixedDistances()[..v];
    hide Used, Count;
  }

  // ---------- section 3.2.5: lengths and distances

  /** The tables, with the numbers that the format gives. */
  lemma TablesAre()
    ensures LENGTH_BASE
      == [3, 4, 5, 6, 7, 8, 9, 10, 11, 13, 15, 17, 19, 23, 27, 31, 35, 43, 51, 59, 67, 83, 99, 115, 131, 163, 195, 227,
          258]
    ensures LENGTH_EXTRA
      == [0, 0, 0, 0, 0, 0, 0, 0, 1, 1, 1, 1, 2, 2, 2, 2, 3, 3, 3, 3, 4, 4, 4, 4, 5, 5, 5, 5, 0]
    ensures DISTANCE_BASE
      == [1, 2, 3, 4, 5, 7, 9, 13, 17, 25, 33, 49, 65, 97, 129, 193, 257, 385, 513, 769, 1025, 1537, 2049, 3073, 4097,
          6145, 8193, 12289, 16385, 24577]
    ensures DISTANCE_EXTRA
      == [0, 0, 0, 0, 1, 1, 2, 2, 3, 3, 4, 4, 5, 5, 6, 6, 7, 7, 8, 8, 9, 9, 10, 10, 11, 11, 12, 12, 13, 13]
    ensures CLCL_ORDER == [16, 17, 18, 0, 8, 7, 9, 6, 10, 5, 11, 4, 12, 3, 13, 2, 14, 1, 15]
  {
  }

  // ---------- a fixed block, written out

  /** A literal, or a length and a distance as codes with their extra bits. */
  datatype Item = Byte(v: byte) | Pair(lc: nat, le: nat, dc: nat, de: nat)

  predicate ItemOk(t: Item) {
    t.Pair? ==>
      t.lc < 29 && t.dc < 30 && t.le < Pow2(LengthExtra(t.lc)) && t.de < Pow2(DistanceExtra(t.dc))
  }

  function FixedCodeText(v: nat): seq<bool>
    requires v < 286
  {
    if v < 144 then MsbBits(0x30 + v, 8)
    else if v < 256 then MsbBits(0x190 + (v - 144), 9)
    else if v < 280 then MsbBits(v - 256, 7)
    else MsbBits(0xC0 + (v - 280), 8)
  }

  function ItemText(t: Item, rest: seq<bool>): seq<bool>
    requires ItemOk(t)
  {
    match t
    case Byte(v) => FixedCodeText(v) + rest
    case Pair(lc, le, dc, de) =>
      FixedCodeText(257 + lc)
        + (BitsOf(le, LengthExtra(lc)) + (MsbBits(dc, 5) + (BitsOf(de, DistanceExtra(dc)) + rest)))
  }

  function Text(ts: seq<Item>, rest: seq<bool>): seq<bool>
    requires forall i :: 0 <= i < |ts| ==> ItemOk(ts[i])
  {
    if ts == [] then rest else ItemText(ts[0], Text(ts[1..], rest))
  }

  /** What the items add to the output, unless one of them reaches back too far. */
  function Meaning(out: seq<byte>, ts: seq<Item>): Read<seq<byte>>
    requires forall i :: 0 <= i < |ts| ==> ItemOk(ts[i])
    decreases ts
  {
    if ts == [] then Got(out, [])
    else
      match ts[0]
      case Byte(v) => Meaning(out + [v], ts[1..])
      case Pair(lc, le, dc, de) =>
        assert ItemOk(ts[0]);
        var length, distance := LengthBase(lc) + le, DistanceBase(dc) + de;
        if distance > |out| then Malformed else Meaning(Copy(out, length, distance), ts[1..])
  }

  // ---------- items with any two codes

  /** Every symbol of the item has a code. */
  ghost predicate ItemCoded(ll: seq<nat>, dd: seq<nat>, t: Item) {
    match t
    case Byte(v) => v as int < |ll| && ll[v] > 0
    case Pair(lc, _, dc, _) => 257 + lc < |ll| && ll[257 + lc] > 0 && dc < |dd| && dd[dc] > 0
  }

  function CodedItem(ll: seq<nat>, dd: seq<nat>, t: Item, rest: seq<bool>): seq<bool>
    requires ItemOk(t) && ItemCoded(ll, dd, t)
  {
    match t
    case Byte(v) => Code(ll, v as int) + rest
    case Pair(lc, le, dc, de) =>
      Code(ll, 257 + lc) + (BitsOf(le, LengthExtra(lc)) + (Code(dd, dc) + (BitsOf(de, DistanceExtra(dc)) + rest)))
  }

  ghost predicate ItemsCoded(ll: seq<nat>, dd: seq<nat>, ts: seq<Item>) {
    forall i :: 0 <= i < |ts| ==> ItemOk(ts[i]) && ItemCoded(ll, dd, ts[i])
  }

  function CodedItems(ll: seq<nat>, dd: seq<nat>, ts: seq<Item>, rest: seq<bool>): seq<bool>
    requires ItemsCoded(ll, dd, ts)
    decreases ts
  {
    if ts == [] then rest else CodedItem(ll, dd, ts[0], CodedItems(ll, dd, ts[1..], rest))
  }

  /** The two codes of a block. */
  ghost predicate BlockCodes(ll: seq<nat>, dd: seq<nat>) {
    |ll| == 288 && |dd| == 32 && Decodable(ll) && Decodable(dd) && ll[256] > 0
  }

  lemma ByteText(ll: seq<nat>, dd: seq<nat>, v: byte, rest: seq<bool>, out: seq<byte>)
    requires BlockCodes(ll, dd) && ll[v] > 0
    ensures Block(ll, dd, CodedItem(ll, dd, Byte(v), rest), out) == Block(ll, dd, rest, out + [v])
  {
    hide Code, Symbol, Decodable;
    SymbolInverts(ll, v as int, rest);
  }

  lemma PairText(ll: seq<nat>, dd: seq<nat>, t: Item, rest: seq<bool>, out: seq<byte>)
    requires BlockCodes(ll, dd) && t.Pair? && ItemOk(t) && ItemCoded(ll, dd, t)
    ensures Block(ll, dd, CodedItem(ll, dd, t, rest), out)
      == if DistanceBase(t.dc) + t.de > |out| then Malformed
         else Block(ll, dd, rest, Copy(out, LengthBase(t.lc) + t.le, DistanceBase(t.dc) + t.de))
  {
    hide *;
    var lc, dc := t.lc, t.dc;
    PairItemIs(ll, dd, t, rest);
    var s1 := BitsOf(t.le, LengthExtra(lc)) + (Code(dd, dc) + (BitsOf(t.de, DistanceExtra(dc)) + rest));
    SymbolInverts(ll, 257 + lc, s1);
    PairInverts(dd, lc, dc, t.le, t.de, rest);
    PairStep(ll, dd, CodedItem(ll, dd, t, rest), s1, rest, lc, LengthBase(lc) + t.le, DistanceBase(dc) + t.de, out);
  }

  lemma PairItemIs(ll: seq<nat>, dd: seq<nat>, t: Item, rest: seq<bool>)
    requires BlockCodes(ll, dd) && t.Pair? && ItemOk(t) && ItemCoded(ll, dd, t)
    ensures |ll| == 288 && |dd| == 32 && Decodable(ll) && Decodable(dd) && ll[257 + t.lc] > 0 && dd[t.dc] > 0
    ensures t.lc < 29 && t.dc < 30 && t.le < Pow2(LengthExtra(t.lc)) && t.de < Pow2(DistanceExtra(t.dc))
    ensures CodedItem(ll, dd, t, rest)
      == Code(ll, 257 + t.lc) + (BitsOf(t.le, LengthExtra(t.lc))
        + (Code(dd, t.dc) + (BitsOf(t.de, DistanceExtra(t.dc)) + rest)))
  {
    hide Code, BitsOf, Decodable, LengthExtra, DistanceExtra, Pow2;
  }

  lemma PairStep(ll: seq<nat>, dd: seq<nat>, s: seq<bool>, s1: seq<bool>, s2: seq<bool>, lc: nat,
                 l: nat, d: nat, out: seq<byte>)
    requires |ll| == 288 && |dd| == 32 && lc < 29 && 0 < d
    requires Symbol(ll, s) == Got(257 + lc, s1) && DeflateSpec.Pair(dd, lc, s1) == Got((l, d), s2)
    ensures Block(ll, dd, s, out) == if d > |out| then Malformed else Block(ll, dd, s2, Copy(out, l, d))
  {
  }

  lemma EndText(ll: seq<nat>, dd: seq<nat>, rest: seq<bool>, out: seq<byte>)
    requires BlockCodes(ll, dd)
    ensures Block(ll, dd, Code(ll, 256) + rest, out) == Got(out, rest)
  {
    hide Code, Symbol, Decodable;
    SymbolInverts(ll, 256, rest);
  }

  /** The items of a block and its end code. */
  lemma {:induction false} BlockText(ll: seq<nat>, dd: seq<nat>, ts: seq<Item>, rest: seq<bool>, out: seq<byte>)
    requires BlockCodes(ll, dd) && ItemsCoded(ll, dd, ts)
    ensures var m := Meaning(out, ts);
      Block(ll, dd, CodedItems(ll, dd, ts, Code(ll, 256) + rest), out)
      == if m.Got? then Got(m.value, rest) else Malformed
    decreases ts
  {
    hide Block, CodedItem, Copy, LengthBase, DistanceBase, Code, Decodable, ItemOk, ItemCoded;
    assert |ll| == 288 && |dd| == 32 && ll[256] > 0;
    hide BlockCodes;
    if ts == [] {
      EndText(ll, dd, rest, out);
    } else {
      var t, end := ts[0], CodedItems(ll, dd, ts[1..], Code(ll, 256) + rest);
      MeaningStep(out, ts);
      hide Meaning;
      if t.Byte? {
        CodedByte(ll, dd, t, end, out);
        BlockText(ll, dd, ts[1..], rest, out + [t.v]);
      } else {
        PairText(ll, dd, t, end, out);
        ItemIsPair(t);
        if DistanceBase(t.dc) + t.de <= |out| {
          BlockText(ll, dd, ts[1..], rest, Copy(out, LengthBase(t.lc) + t.le, DistanceBase(t.dc) + t.de));
        }
      }
    }
  }

  lemma ItemIsPair(t: Item)
    requires ItemOk(t) && t.Pair?
    ensures t.lc < 29 && t.dc < 30
  {
    hide LengthExtra, DistanceExtra, Pow2;
  }

  lemma MeaningStep(out: seq<byte>, ts: seq<Item>)
    requires ts != [] && forall i :: 0 <= i < |ts| ==> ItemOk(ts[i])
    ensures ts[0].Byte? ==> Meaning(out, ts) == Meaning(out + [ts[0].v], ts[1..])
    ensures ts[0].Pair? ==>
      && ts[0].lc < 29 && ts[0].dc < 30
      && Meaning(out, ts) == (if DistanceBase(ts[0].dc) + ts[0].de > |out| then Malformed
          else Meaning(Copy(out, LengthBase(ts[0].lc) + ts[0].le, DistanceBase(ts[0].dc) + ts[0].de), ts[1..]))
  {
    assert ItemOk(ts[0]);
    hide LengthExtra, DistanceExtra, Pow2, LengthBase, DistanceBase, Copy;
  }

  lemma CodedByte(ll: seq<nat>, dd: seq<nat>, t: Item, rest: seq<bool>, out: seq<byte>)
    requires BlockCodes(ll, dd) && t.Byte? && ItemCoded(ll, dd, t)
    ensures Block(ll, dd, CodedItem(ll, dd, t, rest), out) == Block(ll, dd, rest, out + [t.v])
  {
    hide Block, CodedItem, Code, Decodable;
    ByteText(ll, dd, t.v, rest, out);
  }

  // ---------- the fixed block

  lemma FixedAreDecodable()
    ensures BlockCodes(FixedLengths(), FixedDistances())
  {
    hide FixedLengths, FixedDistances, Used, Pow2;
    FixedLengthsComplete();
    FixedDistancesComplete();
    FixedLengthAt(256);
  }

  lemma FixedCodeTextIs(v: nat)
    requires v < 286
    ensures FixedLengths()[v] > 0 && FixedCodeText(v) == Code(FixedLengths(), v)
  {
    hide Code, MsbBits, FixedLengths;
    FixedCodesAre(v);
  }

  lemma FixedItemIs(t: Item, rest: seq<bool>)
    requires ItemOk(t)
    ensures ItemCoded(FixedLengths(), FixedDistances(), t)
    ensures ItemText(t, rest) == CodedItem(FixedLengths(), FixedDistances(), t, rest)
  {
    hide Code, FixedLengths, FixedDistances, FixedCodeText, BitsOf, MsbBits, LengthExtra, DistanceExtra, Pow2;
    match t {
      case Byte(v) => FixedCodeTextIs(v as int);
      case Pair(lc, _, dc, _) =>
        FixedCodeTextIs(257 + lc);
        FixedDistanceCodesAre(dc);
    }
  }

  lemma {:induction false} FixedItemsAre(ts: seq<Item>, rest: seq<bool>)
    requires forall i :: 0 <= i < |ts| ==> ItemOk(ts[i])
    ensures ItemsCoded(FixedLengths(), FixedDistances(), ts)
    ensures Text(ts, rest) == CodedItems(FixedLengths(), FixedDistances(), ts, rest)
    decreases ts
  {
    hide FixedLengths, FixedDistances, ItemText, CodedItem, ItemOk, ItemCoded;
    if ts != [] {
      FixedItemsAre(ts[1..], rest);
      FixedItemIs(ts[0], Text(ts[1..], rest));
      forall i | 0 <= i < |ts| ensures ItemCoded(FixedLengths(), FixedDistances(), ts[i]) {
        if i > 0 { assert ts[i] == ts[1..][i - 1]; }
      }
    }
  }

  lemma SevenZeros()
    ensures MsbBits(0, 7) == [false, false, false, false, false, false, false]
  {
    assert MsbBits(0, 3) == [false, false, false];
    assert MsbBits(0, 5) == [false, false, false, false, false];
  }

  /** Where a stream goes on after a block that has come to m. */
  function Onward(final: bool, m: Read<seq<byte>>, rest: seq<bool>, ignoreNlen: bool): Read<seq<byte>> {
    if m.Malformed? then Malformed else if final then Got(m.value, rest) else Inflate(rest, m.value, ignoreNlen)
  }

  /** A fixed block inflates to what its items mean, and to nothing else. */
  lemma FixedTextInflates(final: bool, ts: seq<Item>, rest: seq<bool>, out: seq<byte>, ignoreNlen: bool)
    requires forall i :: 0 <= i < |ts| ==> ItemOk(ts[i])
    ensures
      Inflate([final, true, false] + Text(ts, [false, false, false, false, false, false, false] + rest), out,
        ignoreNlen)
      == Onward(final, Meaning(out, ts), rest, ignoreNlen)
  {
    var end := [false, false, false, false, false, false, false] + rest;
    var s := Text(ts, end);
    FixedItemsAre(ts, end);
    FixedAreDecodable();
    FixedCodeTextIs(256);
    SevenZeros();
    BlockText(FixedLengths(), FixedDistances(), ts, rest, out);
    hide Text, Meaning, Block, FixedLengths, FixedDistances, ItemOk, Code, Inflate;
    FixedBlockIs(s, out, ignoreNlen);
    hide OneBlock;
    BlockHeaderIs(final, true, false, s, out, ignoreNlen);
  }

  lemma FixedBlockIs(s: seq<bool>, out: seq<byte>, ignoreNlen: bool)
    ensures OneBlock(1, s, out, ignoreNlen) == Block(FixedLengths(), FixedDistances(), s, out)
  {
  }

  /** The header of a block: whether it is the last one, and the type, least significant bit first. */
  lemma BlockHeaderIs(final: bool, b1: bool, b2: bool, s: seq<bool>, out: seq<byte>, ignoreNlen: bool)
    ensures var m := OneBlock((if b1 then 1 else 0) + (if b2 then 2 else 0), s, out, ignoreNlen);
      Inflate([final, b1, b2] + s, out, ignoreNlen)
      == Onward(final, m, if m.Got? then m.rest else [], ignoreNlen)
  {
    hide OneBlock;
    var all := [final, b1, b2] + s;
    assert all[0] == final && all[1..3] == [b1, b2];
    AfterPrefix([final, b1, b2], s);
    assert Val([b1, b2]) == Bit(b1) + 2 * Bit(b2) by {
      assert [b2][1..] == [];
      assert Val([b2]) == Bit(b2);
      assert [b1, b2][1..] == [b2];
    }
  }

  /** Three bytes that hold the letter a. */
  lemma FixedExample(ignoreNlen: bool)
    ensures Inflate(StreamBits([0x4B, 0x04, 0x00]), [], ignoreNlen)
      == Got([0x61], [false, false, false, false, false, false])
  {
    var rest := [false, false, false, false, false, false];
    ExampleBits();
    assert Text([Byte(0x61)], [false, false, false, false, false, false, false] + rest)
      == MsbBits(0x91, 8) + ([false, false, false, false, false, false, false] + rest);
    hide StreamBits, Inflate, MsbBits, Text;
    FixedTextInflates(true, [Byte(0x61)], rest, [], ignoreNlen);
    assert [Byte(0x61)][1..] == [] && [] + [0x61 as byte] == [0x61];
  }

  lemma ExampleBits()
    ensures StreamBits([0x4B, 0x04, 0x00])
      == [true, true, false] + (MsbBits(0x91, 8) + ([false, false, false, false, false, false, false]
        + [false, false, false, false, false, false]))
  {
    ExampleCode();
    hide MsbBits;
    ExampleBytes();
    hide ByteBits, BitsOf;
    var d: seq<byte> := [0x4B, 0x04, 0x00];
    assert d[1..] == [0x04, 0x00] && d[1..][1..] == [0x00] && d[1..][1..][1..] == [];
    assert StreamBits([0x00 as byte]) == ByteBits(0x00) + [];
  }

  lemma ExampleCode()
    ensures MsbBits(0x91, 8) == [true, false, false, true, false, false, false, true]
  {
    assert MsbBits(0x9, 4) == [true, false, false, true];
    assert MsbBits(0x24, 6) == [true, false, false, true, false, false];
  }

  lemma ExampleBytes()
    ensures ByteBits(0x4B) == [true, true, false, true, false, false, true, false]
    ensures ByteBits(0x04) == [false, false, true, false, false, false, false, false]
    ensures ByteBits(0x00) == [false, false, false, false, false, false, false, false]
  {
    FirstExampleByte();
    OtherExampleBytes();
  }

  lemma FirstExampleByte()
    ensures BitsOf(0x4B, 8) == [true, true, false, true, false, false, true, false]
  {
    assert BitsOf(0x4, 4) == [false, false, true, false];
    assert BitsOf(0x12, 6) == [false, true, false, false, true, false];
  }

  lemma OtherExampleBytes()
    ensures BitsOf(0x04, 8) == [false, false, true, false, false, false, false, false]
    ensures BitsOf(0x00, 8) == [false, false, false, false, false, false, false, false]
  {
    assert BitsOf(0, 4) == [false, false, false, false];
    assert BitsOf(0, 6) == [false, false, false, false, false, false];
    assert BitsOf(1, 6) == [true, false, false, false, false, false];
  }

  // ---------- a stored block

  /** Section 3.2.4: a byte whose three low bits are the header, the length and its complement, each with
      its low byte first, and the bytes themselves. The source wants one byte at least after the lengths. */
  lemma StoredTextInflates(x: byte, data: seq<byte>, rest: seq<byte>, out: seq<byte>, ignoreNlen: bool)
    requires x % 8 <= 1 && |data| <= 65535 && data + rest != []
    ensures var n := |data|;
      Inflate(StreamBits([x, n % 256, n / 256, 255 - n % 256, 255 - n / 256] + data + rest), out, ignoreNlen)
      == Onward(x % 2 == 1, Got(out + data, []), StreamBits(rest), ignoreNlen)
  {
    hide Inflate, StreamBits, Stored, Val;
    var n := |data|;
    var d: seq<byte> := [x, n % 256, n / 256, 255 - n % 256, 255 - n / 256] + data + rest;
    StoredStep(d, 3, out, ignoreNlen);
    assert Word(d, 1) == n && Word(d, 3) == 65535 - n;
    assert d[5..5 + n] == data && d[5 + n..] == rest;
    RestIsStream(d, 5 + n);
    FirstByte(d, x % 2 == 1);
    StoredTypeIs(RestOf(d, 3), out, ignoreNlen);
    hide OneBlock;
    BlockHeaderIs(x % 2 == 1, false, false, RestOf(d, 3), out, ignoreNlen);
  }

  lemma StoredTypeIs(s: seq<bool>, out: seq<byte>, ignoreNlen: bool)
    ensures OneBlock(0, s, out, ignoreNlen) == Stored(s, out, ignoreNlen)
  {
  }

  // ---------- what no encoder writes

  /** Block type 3, the length codes 286 and 287 and the distance codes 30 and 31 are refused. */
  lemma ReservedFails(final: bool, s: seq<bool>, out: seq<byte>, ignoreNlen: bool)
    ensures Inflate([final, true, true] + s, out, ignoreNlen) == Malformed
  {
    assert OneBlock(3, s, out, ignoreNlen) == Malformed;
    hide OneBlock;
    BlockHeaderIs(final, true, true, s, out, ignoreNlen);
  }

  lemma UnusedLengthFails(v: nat, rest: seq<bool>, out: seq<byte>)
    requires v == 286 || v == 287
    ensures Block(FixedLengths(), FixedDistances(), MsbBits(0xC0 + (v - 280), 8) + rest, out) == Malformed
  {
    FixedCodesAre(v);
    FixedAreDecodable();
    hide Code, FixedLengths, FixedDistances, MsbBits, Symbol, Decodable;
    SymbolInverts(FixedLengths(), v, rest);
  }

  lemma UnusedDistanceFails(lc: nat, le: nat, dc: nat, rest: seq<bool>, out: seq<byte>)
    requires lc < 29 && le < Pow2(LengthExtra(lc)) && (dc == 30 || dc == 31)
    ensures Block(FixedLengths(), FixedDistances(),
      FixedCodeText(257 + lc) + (BitsOf(le, LengthExtra(lc)) + (MsbBits(dc, 5) + rest)), out) == Malformed
  {
    hide Code, FixedLengths, FixedDistances, MsbBits, Symbol, Decodable, BitsOf, Number, FixedCodeText, LengthExtra,
      Pow2;
    FixedCodeTextIs(257 + lc);
    FixedDistanceCodesAre(dc);
    FixedAreDecodable();
    SymbolInverts(FixedLengths(), 257 + lc, BitsOf(le, LengthExtra(lc)) + (MsbBits(dc, 5) + rest));
    NumberInverts(le, LengthExtra(lc), MsbBits(dc, 5) + rest);
    SymbolInverts(FixedDistances(), dc, rest);
  }
}
