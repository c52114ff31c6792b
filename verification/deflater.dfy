/** The compressor. What it writes decodes to what it was given. */
module Deflater {
  import CodeLengths
  import opened Bits
  import opened BitIO
  import opened Canonical
  import opened HuffTable
  import opened HuffmanTrees
  import opened DeflateSpec
  import opened DeflateCode
  import opened TreeCode
  import opened FixedTrees
  import opened LZ77
  import opened Matches
  import opened TreeWriter
  import opened TokenWriter
  import opened Inflater
  import opened RunLengths

  datatype Settings = Settings(btype: nat, useLz77: bool, windowsize: nat, minmatch: nat, nicematch: nat,
    lazymatching: bool)

  // ---------- blocks that decode

  /** Wherever these bits follow a stream that came to `before`, they take it to `after`. */
  ghost predicate Decodes(b: seq<bool>, final: bool, before: seq<byte>, after: seq<byte>) {
    forall rest: seq<bool>, ignoreNlen: bool {:trigger Inflate(b + rest, before, ignoreNlen)} ::
      Inflate(b + rest, before, ignoreNlen) == if final then Got(after, rest) else Inflate(rest, after, ignoreNlen)
  }

  lemma DecodesChain(a: seq<bool>, b: seq<bool>, final: bool, before: seq<byte>, mid: seq<byte>, after: seq<byte>)
    requires Decodes(a, false, before, mid) && Decodes(b, final, mid, after)
    ensures Decodes(a + b, final, before, after)
  {
    hide Inflate;
    forall rest: seq<bool>, ignoreNlen: bool
      ensures Inflate((a + b) + rest, before, ignoreNlen)
           == if final then Got(after, rest) else Inflate(rest, after, ignoreNlen)
    {
      assert (a + b) + rest == a + (b + rest);
      assert Inflate(a + (b + rest), before, ignoreNlen) == Inflate(b + rest, mid, ignoreNlen);
    }
  }

  lemma NothingDecodes(out: seq<byte>)
    ensures Decodes([], false, out, out)
  {
    hide Inflate;
    forall rest: seq<bool>, ignoreNlen: bool
      ensures Inflate([] + rest, out, ignoreNlen) == Inflate(rest, out, ignoreNlen)
    {
      assert [] + rest == rest;
    }
  }

  lemma AfterPrefix(a: seq<bool>, s: seq<bool>)
    ensures (a + s)[|a|..] == s
  {
  }

  /** The three bits in front of a block. */
  lemma HeaderDecodes(final: bool, b1: bool, b2: bool, s: seq<bool>, out: seq<byte>, ignoreNlen: bool, next: seq<byte>,
                      t: seq<bool>)
    requires OneBlock(Bit(b1) + 2 * Bit(b2), s, out, ignoreNlen) == Got(next, t)
    ensures Inflate([final, b1, b2] + s, out, ignoreNlen) == if final then Got(next, t)
      else Inflate(t, next, ignoreNlen)
  {
    hide OneBlock;
    var all := [final, b1, b2] + s;
    assert all[0] == final && all[1] == b1 && all[2] == b2;
    assert all[1..3] == [b1, b2];
    AfterPrefix([final, b1, b2], s);
    assert Val([b1, b2]) == Bit(b1) + 2 * Bit(b2) by {
      assert [b2][1..] == [];
      assert Val([b2]) == Bit(b2);
      assert [b1, b2][1..] == [b2];
    }
  }

  // ---------- fixed and dynamic blocks

  lemma FixedDecodes(final: bool, ts: seq<Token>, before: seq<byte>)
    requires AllCoded(FixedLengths(), FixedDistances(), ts) && AllReach(before, ts)
    ensures FixedLengths()[END_CODE] > 0
    ensures Decodes([final, true, false] + TokensBits(FixedLengths(), FixedDistances(), ts, [])
      + Code(FixedLengths(), END_CODE),
                    final, before, Expand(before, ts))
  {
    var ll, dd := FixedLengths(), FixedDistances();
    FixedLengthsComplete();
    FixedDistancesComplete();
    hide Used, Count, Pow2, TokensBits, Code, Expand, AllCoded, AllReach, Decodes;
    FixedDecodesFor(ll, dd, final, ts, before);
  }

  lemma FixedDecodesFor(ll: seq<nat>, dd: seq<nat>, final: bool, ts: seq<Token>, before: seq<byte>)
    requires ll == FixedLengths() && dd == FixedDistances() && Decodable(ll) && Decodable(dd) && ll[END_CODE] > 0
    requires AllCoded(ll, dd, ts) && AllReach(before, ts)
    ensures Decodes([final, true, false] + TokensBits(ll, dd, ts, []) + Code(ll, END_CODE), final, before,
      Expand(before, ts))
  {
    hide Inflate, Block, TokensBits, Code, FixedLengths, FixedDistances, Expand, AllReach, AllCoded, Decodable;
    var b := [final, true, false] + TokensBits(ll, dd, ts, []) + Code(ll, END_CODE);
    forall rest: seq<bool>, ignoreNlen: bool
      ensures Inflate(b + rest, before, ignoreNlen)
           == if final then Got(Expand(before, ts), rest) else Inflate(rest, Expand(before, ts), ignoreNlen)
    {
      var s := TokensBits(ll, dd, ts, Code(ll, END_CODE) + rest);
      TokensBitsRest(ll, dd, ts, Code(ll, END_CODE) + rest);
      ThreeParts([final, true, false], TokensBits(ll, dd, ts, []), Code(ll, END_CODE), rest);
      BlockInverts(ll, dd, ts, rest, before);
      HeaderDecodes(final, true, false, s, before, ignoreNlen, Expand(before, ts), rest);
    }
  }

  lemma ThreeParts(h: seq<bool>, a: seq<bool>, b: seq<bool>, rest: seq<bool>)
    ensures (h + a + b) + rest == h + (a + (b + rest))
  {
  }

  /** The decoder pads the trees with symbols that have no code; the coded tokens stay the same. */
  lemma {:induction false} PaddedTokens(ll: seq<nat>, dd: seq<nat>, j: nat, k: nat, ts: seq<Token>, rest: seq<bool>)
    requires AllCoded(ll, dd, ts)
    ensures AllCoded(ll + Repeat(0, j), dd + Repeat(0, k), ts)
    ensures TokensBits(ll + Repeat(0, j), dd + Repeat(0, k), ts, rest) == TokensBits(ll, dd, ts, rest)
    decreases ts
  {
    hide Code, LengthCode, DistanceCode, BitsOf, IsLengthCode, IsDistanceCode;
    if ts != [] {
      PaddedTokens(ll, dd, j, k, ts[1..], rest);
      PaddedToken(ll, dd, j, k, ts[0], TokensBits(ll, dd, ts[1..], rest));
    }
  }

  lemma PaddedToken(ll: seq<nat>, dd: seq<nat>, j: nat, k: nat, t: Token, rest: seq<bool>)
    requires TokenOk(t) && Coded(ll, dd, t)
    ensures Coded(ll + Repeat(0, j), dd + Repeat(0, k), t)
    ensures TokenBits(ll + Repeat(0, j), dd + Repeat(0, k), t, rest) == TokenBits(ll, dd, t, rest)
  {
    hide Code, LengthCode, DistanceCode, BitsOf, IsLengthCode, IsDistanceCode, LengthBase, DistanceBase;
    match t
    case Literal(b) => PaddingCode(ll, j, b);
    case Match(l, d) =>
      PaddingCode(ll, j, FIRST_LENGTH_CODE + LengthCode(l));
      PaddingCode(dd, k, DistanceCode(d));
  }

  lemma HeaderBitsRest(hlit: nat, hdist: nat, hclen: nat, cl: seq<nat>, rs: seq<Run>, rest: seq<bool>)
    requires 257 <= hlit <= 288 && 1 <= hdist <= 32 && 4 <= hclen <= 19 && |cl| == 19 && RunsCoded(cl, rs)
    ensures HeaderBits(hlit, hdist, hclen, cl, rs, rest) == HeaderBits(hlit, hdist, hclen, cl, rs, []) + rest
  {
    hide BitsOf, ClBits, RunsBits, RunsCoded;
    RunsBitsRest(cl, rs, rest);
    ClBitsRest(cl, hclen, 0, RunsBits(cl, rs, rest));
    ClBitsRest(cl, hclen, 0, RunsBits(cl, rs, []));
    FiveRest(BitsOf(hlit - 257, 5), BitsOf(hdist - 1, 5), BitsOf(hclen - 4, 4), ClBits(cl, hclen, 0, []),
      RunsBits(cl, rs, []), rest);
  }

  lemma FiveRest(a: seq<bool>, b: seq<bool>, c: seq<bool>, d: seq<bool>, e: seq<bool>, rest: seq<bool>)
    ensures a + (b + (c + (d + (e + rest)))) == a + (b + (c + (d + e))) + rest
  {
  }

  /** A dynamic block, trees and all. */
  lemma DynamicDecodes(final: bool, ll: seq<nat>, dd: seq<nat>, hclen: nat, cl: seq<nat>, rs: seq<Run>, ts: seq<Token>,
                       before: seq<byte>)
    requires HeaderOk(ll, dd, hclen, cl, rs) && AllCoded(ll, dd, ts) && AllReach(before, ts)
    ensures Decodes([final, false, true] + HeaderBits(|ll|, |dd|, hclen, cl, rs, []) + TokensBits(ll, dd, ts, [])
      + Code(ll, END_CODE),
                    final, before, Expand(before, ts))
  {
    hide Inflate, Block, TokensBits, Code, Expand, AllReach, AllCoded, OneBlock, HeaderBits;
    var b := [final, false, true] + HeaderBits(|ll|, |dd|, hclen, cl, rs, []) + TokensBits(ll, dd, ts, [])
      + Code(ll, END_CODE);
    forall rest: seq<bool>, ignoreNlen: bool
      ensures Inflate(b + rest, before, ignoreNlen)
           == if final then Got(Expand(before, ts), rest) else Inflate(rest, Expand(before, ts), ignoreNlen)
    {
      var body := TokensBits(ll, dd, ts, Code(ll, END_CODE) + rest);
      var s := HeaderBits(|ll|, |dd|, hclen, cl, rs, body);
      TokensBitsRest(ll, dd, ts, Code(ll, END_CODE) + rest);
      HeaderBitsRest(|ll|, |dd|, hclen, cl, rs, body);
      FourWithRest([final, false, true], HeaderBits(|ll|, |dd|, hclen, cl, rs, []), TokensBits(ll, dd, ts, []),
        Code(ll, END_CODE), rest);
      DynamicInverts(ll, dd, hclen, cl, rs, ts, rest, before, ignoreNlen);
      HeaderDecodes(final, false, true, s, before, ignoreNlen, Expand(before, ts), rest);
    }
  }

  lemma FourWithRest(h: seq<bool>, a: seq<bool>, b: seq<bool>, c: seq<bool>, rest: seq<bool>)
    ensures (h + a + b + c) + rest == h + (a + (b + (c + rest)))
  {
  }

  lemma DynamicInverts(ll: seq<nat>, dd: seq<nat>, hclen: nat, cl: seq<nat>, rs: seq<Run>, ts: seq<Token>,
                       rest: seq<bool>,
                       before: seq<byte>, ignoreNlen: bool)
    requires HeaderOk(ll, dd, hclen, cl, rs) && AllCoded(ll, dd, ts) && AllReach(before, ts)
    ensures OneBlock(2, HeaderBits(|ll|, |dd|, hclen, cl, rs, TokensBits(ll, dd, ts, Code(ll, END_CODE) + rest)),
      before, ignoreNlen)
         == Got(Expand(before, ts), rest)
  {
    hide Inflate, Block, TokensBits, Code, Expand, AllReach, AllCoded, HeaderBits, DynamicTrees, Stored;
    var j, k := 288 - |ll|, 32 - |dd|;
    var pl, pd := ll + Repeat(0, j), dd + Repeat(0, k);
    PaddedFull(ll, j);
    PaddedFull(dd, k);
    PaddedTokens(ll, dd, j, k, ts, Code(ll, END_CODE) + rest);
    PaddingCode(ll, j, END_CODE);
    HeaderInverts(ll, dd, hclen, cl, rs, TokensBits(ll, dd, ts, Code(ll, END_CODE) + rest));
    BlockInverts(pl, pd, ts, rest, before);
  }

  // ---------- stored blocks

  function StoredLength(data: seq<byte>, pos: nat): (len: nat)
    requires pos < |data|
    ensures 0 < len <= 65535 && pos + len <= |data|
  {
    if |data| - pos < 65535 then |data| - pos else 65535
  }

  /** One stored block. */
  function StoredBlock(data: seq<byte>, pos: nat): (d: seq<byte>)
    requires pos < |data|
    ensures |d| == 5 + StoredLength(data, pos)
  {
    var len := StoredLength(data, pos);
    var nlen := 65535 - len;
    [if pos + len == |data| then 1 else 0, len % 256, len / 256, nlen % 256, nlen / 256] + data[pos..pos + len]
  }

  /** All stored blocks from a place in the data on. */
  ghost function StoredBlocks(data: seq<byte>, pos: nat): seq<byte>
    requires pos <= |data|
    decreases |data| - pos
  {
    if pos == |data| then [] else StoredBlock(data, pos) + StoredBlocks(data, pos + StoredLength(data, pos))
  }

  method DeflateNoCompression(before: seq<byte>, data: seq<byte>) returns (out: seq<byte>)
    ensures out == before + StoredBlocks(data, 0)
  {
    hide StoredBlocks;
    var numdeflateblocks := (|data| + 65534) / 65535;
    var datapos := 0;
    out := before;
    NoBlocksYet(data);
    var i := 0;
    while i != numdeflateblocks
      invariant 0 <= i <= numdeflateblocks && datapos <= |data|
      invariant datapos == if i == numdeflateblocks then |data| else 65535 * i
      invariant out + StoredBlocks(data, datapos) == before + StoredBlocks(data, 0)
    {
      var bfinal := if i == numdeflateblocks - 1 then 1 else 0;
      var len := 65535;
      if |data| - datapos < 65535 { len := |data| - datapos; }
      var nlen := 65535 - len;
      BlocksStep(data, datapos, out);
      out := out + ([bfinal, len % 256, len / 256, nlen % 256, nlen / 256] + data[datapos..datapos + len]);
      datapos := datapos + len;
      i := i + 1;
    }
    BlocksDone(data, out);
  }

  lemma NoBlocksYet(data: seq<byte>)
    ensures data == [] ==> StoredBlocks(data, 0) == []
  {
  }

  lemma BlocksStep(data: seq<byte>, pos: nat, out: seq<byte>)
    requires pos < |data|
    ensures out + StoredBlocks(data, pos) == (out + StoredBlock(data, pos))
      + StoredBlocks(data, pos + StoredLength(data, pos))
  {
    assert StoredBlocks(data, pos) == StoredBlock(data, pos) + StoredBlocks(data, pos + StoredLength(data, pos));
  }

  lemma BlocksDone(data: seq<byte>, out: seq<byte>)
    ensures out + StoredBlocks(data, |data|) == out
  {
  }

  /** The stored blocks decode to the data, and nothing is left. */
  lemma {:induction false} StoredDecodes(data: seq<byte>, pos: nat, ignoreNlen: bool)
    requires pos < |data|
    ensures Inflate(StreamBits(StoredBlocks(data, pos)), data[..pos], ignoreNlen) == Got(data, [])
    decreases |data| - pos
  {
    hide Inflate, OneBlock, StoredBlock, Val;
    var len := StoredLength(data, pos);
    var d := StoredBlocks(data, pos);
    var final := pos + len == |data|;
    FirstStored(data, pos, d, ignoreNlen);
    assert data[..pos] + data[pos..pos + len] == data[..pos + len];
    if final {
      assert data[..pos + len] == data;
    } else {
      StoredDecodes(data, pos + len, ignoreNlen);
    }
  }

  lemma FirstStored(data: seq<byte>, pos: nat, d: seq<byte>, ignoreNlen: bool)
    requires pos < |data| && d == StoredBlock(data, pos) + StoredBlocks(data, pos + StoredLength(data, pos))
    ensures var len, rest := StoredLength(data, pos), StreamBits(StoredBlocks(data, pos + StoredLength(data, pos)));
      var out := data[..pos] + data[pos..pos + len];
      Inflate(StreamBits(d), data[..pos], ignoreNlen)
      == if pos + len == |data| then Got(out, rest) else Inflate(rest, out, ignoreNlen)
  {
    hide Inflate, StreamBits, Stored, StoredBlocks, Val;
    var len := StoredLength(data, pos);
    var final := pos + len == |data|;
    StoredStep(d, 3, data[..pos], ignoreNlen);
    assert Word(d, 1) == len && Word(d, 3) == 65535 - len;
    assert d[5..5 + len] == data[pos..pos + len];
    RestIsStream(d, 5 + len);
    AfterPrefixBytes(StoredBlock(data, pos), StoredBlocks(data, pos + len));
    FirstByte(d, final);
    HeaderDecodes(final, false, false, RestOf(d, 3), data[..pos], ignoreNlen, data[..pos] + data[pos..pos + len],
      RestOf(d, 8 * (5 + len)));
  }

  lemma AfterPrefixBytes(a: seq<byte>, s: seq<byte>)
    ensures (a + s)[|a|..] == s
  {
  }

  lemma RestIsStream(d: seq<byte>, k: nat)
    requires k <= |d|
    ensures RestOf(d, 8 * k) == StreamBits(d[k..])
  {
    StreamDrop(d, k);
  }

  lemma FirstByte(d: seq<byte>, final: bool)
    requires d != [] && d[0] % 8 == if final then 1 else 0
    ensures StreamBits(d) == [final, false, false] + RestOf(d, 3)
  {
    hide ByteBits;
    LowThreeBits(d[0], final);
    var s := StreamBits(d);
    assert s[..8] == ByteBits(d[0]);
    assert s[0] == s[..8][0] && s[1] == s[..8][1] && s[2] == s[..8][2];
  }

  lemma LowThreeBits(v: byte, final: bool)
    requires v % 8 == if final then 1 else 0
    ensures ByteBits(v)[0] == final && !ByteBits(v)[1] && !ByteBits(v)[2]
  {
    BitsOfAt(v, 8, 0);
    BitsOfAt(v, 8, 1);
    BitsOfAt(v, 8, 2);
    assert Pow2(0) == 1 && Pow2(1) == 2 && Pow2(2) == 4;
    hide BitsOf, Pow2;
  }

  // ---------- blocks of symbols

  /** Symbols that stand for data[start..end). */
  ghost predicate TokensFor(data: seq<byte>, start: nat, end: nat, ts: seq<Token>, e: seq<nat>) {
    && start <= end <= |data| && TokensOk(ts) && e == TokensFlat(ts)
    && AllReach(data[..start], ts) && Expand(data[..start], ts) == data[..end]
  }

  lemma FewTokens(data: seq<byte>, start: nat, end: nat, ts: seq<Token>, e: seq<nat>)
    requires TokensFor(data, start, end, ts, e)
    ensures |ts| <= end - start
  {
    TokensShort(data[..start], ts);
  }

  function Literals(d: seq<byte>): (ts: seq<Token>)
    ensures |ts| == |d| && forall i :: 0 <= i < |d| ==> ts[i] == Literal(d[i])
  {
    seq(|d|, i requires 0 <= i < |d| => Literal(d[i]))
  }

  /** The trees of a block, the code for their lengths, and how many of the latter's lengths are written. */
  datatype Trees = Trees(ll: seq<nat>, dd: seq<nat>, hclen: nat, cl: seq<nat>, runs: seq<Run>)

  /** A block: the keys of all positions before it, the decisions of the matcher, the tokens that they lead
      to, and the trees, if it has its own. */
  datatype Plan = Plan(keys: seq<nat>, choices: seq<Choice>, tokens: seq<Token>, trees: Trees)

  /** The tokens of the block are those that the settings ask for. */
  ghost predicate TokensChosen(data: seq<byte>, start: nat, end: nat, settings: Settings, p: Plan) {
    && start <= end <= |data|
    && if settings.useLz77 then
         && |p.keys| == start
         && Decided(JobOf(data, start, end, settings.windowsize, settings.minmatch, settings.nicematch,
              settings.lazymatching, p.keys), start, p.choices, end, p.tokens)
       else p.tokens == Literals(data[start..end])
  }

  /** The keys of all positions up to the end of the block. */
  ghost function KeysAfter(data: seq<byte>, start: nat, end: nat, settings: Settings, keys: seq<nat>): seq<nat>
    requires start <= end <= |data| && |keys| == start
  {
    keys + NewKeys(data, end, start, end)
  }

  /** How often each symbol occurs in the block; the end code occurs once. */
  ghost predicate Occurrences(ts: seq<Token>, fll: seq<nat>, fd: seq<nat>) {
    && TokensOk(ts) && |fll| == 286 && |fd| == 30
    && (forall s :: 0 <= s < 286 ==> fll[s] == if s == END_CODE then 1 else SymbolCount(ts, s))
    && (forall d :: 0 <= d < 30 ==> fd[d] == DistanceCount(ts, d))
  }

  /** The trees are the best ones for the tokens, and so is the way they are written. */
  ghost predicate TreesChosen(ts: seq<Token>, t: Trees) {
    && t.runs == Chosen(t.ll + t.dd, 0) && BestHeader(t.cl, t.hclen, t.runs)
    && exists fll: seq<nat>, fd: seq<nat> {:trigger Occurrences(ts, fll, fd)} ::
         Occurrences(ts, fll, fd) && BestLengths(t.ll, fll, 257, 15) && BestLengths(t.dd, fd, 2, 15)
  }

  /** A block of the type that the settings ask for can be written. */
  ghost predicate Writable(btype: nat, p: Plan) {
    if btype == 1 then AllCoded(FixedLengths(), FixedDistances(), p.tokens) && FixedLengths()[END_CODE] > 0
    else
      && HeaderOk(p.trees.ll, p.trees.dd, p.trees.hclen, p.trees.cl, p.trees.runs)
      && AllCoded(p.trees.ll, p.trees.dd, p.tokens)
  }

  ghost function BlockBits(btype: nat, p: Plan, final: bool): seq<bool>
    requires Writable(btype, p)
  {
    if btype == 1 then
      [final, true, false] + TokensBits(FixedLengths(), FixedDistances(), p.tokens, []) + Code(FixedLengths(), END_CODE)
    else
      var t := p.trees;
      HeaderShape(t.ll, t.dd, t.hclen, t.cl, t.runs);
      [final, false, true] + HeaderBits(|t.ll|, |t.dd|, t.hclen, t.cl, t.runs, [])
        + TokensBits(t.ll, t.dd, p.tokens, [])
        + Code(t.ll, END_CODE)
  }

  /** The block is planned as the settings ask for. */
  ghost predicate Planned(data: seq<byte>, start: nat, end: nat, settings: Settings, p: Plan) {
    && TokensChosen(data, start, end, settings, p) && Writable(settings.btype, p)
    && (settings.btype == 2 ==> TreesChosen(p.tokens, p.trees))
  }

  /** Either the matcher, or every byte as a literal. */
  method MakeTokens(hash: Hash, data: seq<byte>, start: nat, end: nat, settings: Settings)
    returns (e: seq<nat>, error: nat, ghost ts: seq<Token>, ghost cs: seq<Choice>)
    requires start <= end <= |data| && hash.windowsize == settings.windowsize
    requires settings.useLz77 && settings.windowsize > 0 ==> hash.Entered(data, start)
    modifies hash.Frame()
    ensures error == if settings.useLz77 then WindowError(settings.windowsize) else 0
    ensures error == 0 ==> TokensFor(data, start, end, ts, e)
    ensures error == 0 && settings.useLz77 ==> hash.Entered(data, end)
    ensures error == 0 ==> forall t: Trees :: TokensChosen(data, start, end, settings, Plan(old(hash.keys), cs, ts, t))
    ensures error == 0 && settings.useLz77 ==>
      |old(hash.keys)| == start && hash.keys == KeysAfter(data, start, end, settings, old(hash.keys))
  {
    hide Expand, AllReach, TokensFlat, Decided, WindowError, Hash.Entered, Encodes, NewKeys;
    cs := [];
    if settings.useLz77 {
      e, error, ts, cs := EncodeLZ77(hash, data, start, end, settings.windowsize, settings.minmatch, settings.nicematch,
        settings.lazymatching);
    } else {
      e, error, ts := [], 0, [];
      NoTokens(data, start);
      for i := start to end
        invariant Encodes(data, start, i, 0, 0, ts, e) && ts == Literals(data[start..i])
      {
        LiteralEncodes(data, start, i, 0, 0, ts, e);
        e, ts := e + [data[i]], ts + [Literal(data[i])];
        assert ts == Literals(data[start..i + 1]);
      }
    }
    if error == 0 { TokensForIs(data, start, end, settings, ts, e); }
  }

  lemma TokensForIs(data: seq<byte>, start: nat, end: nat, settings: Settings, ts: seq<Token>, e: seq<nat>)
    requires start <= end <= |data|
    requires if settings.useLz77 then Encodes(data, start, end, settings.windowsize, settings.minmatch, ts, e)
      else Encodes(data, start, end, 0, 0, ts, e)
    ensures TokensFor(data, start, end, ts, e)
  {
    hide Expand, AllReach, TokensFlat;
  }

  lemma NoTokens(data: seq<byte>, start: nat)
    requires start <= |data|
    ensures Encodes(data, start, start, 0, 0, [], [])
  {
  }

  /** The fixed trees have a code for every token. */
  lemma FixedCodesAll(ts: seq<Token>)
    requires TokensOk(ts)
    ensures AllCoded(FixedLengths(), FixedDistances(), ts) && FixedLengths()[END_CODE] > 0
  {
    hide LengthCode, DistanceCode;
    forall k | 0 <= k < |ts| ensures TokenOk(ts[k]) && Coded(FixedLengths(), FixedDistances(), ts[k]) {
      FixedCodes(ts[k]);
    }
  }

  lemma FixedCodes(t: Token)
    requires TokenOk(t)
    ensures Coded(FixedLengths(), FixedDistances(), t)
  {
    hide LengthCode, DistanceCode, LengthBase, DistanceBase;
  }

  method WriteBlockHeader(writer: BitWriter, final: bool, b1: nat, b2: nat)
    requires writer.Valid() && b1 < 2 && b2 < 2
    modifies writer
    ensures writer.Valid() && writer.base == old(writer.base)
    ensures writer.bits == old(writer.bits) + [final, b1 == 1, b2 == 1]
  {
    hide BitsOf;
    OneBit(if final then 1 else 0);
    OneBit(b1);
    OneBit(b2);
    writer.WriteBits(if final then 1 else 0, 1);
    writer.WriteBits(b1, 1);
    writer.WriteBits(b2, 1);
  }

  lemma OneBit(b: nat)
    requires b < 2
    ensures BitsOf(b, 1) == [b == 1]
  {
    assert BitsOf(b, 1) == [b % 2 == 1] + BitsOf(b / 2, 0);
  }

  method WriteEndCode(writer: BitWriter, tree: HuffmanTree, ghost ll: seq<nat>)
    requires writer.Valid() && Ready(tree, ll) && END_CODE < |ll| && ll[END_CODE] > 0
    modifies writer
    ensures writer.Valid() && writer.base == old(writer.base)
    ensures writer.bits == old(writer.bits) + Code(ll, END_CODE)
  {
    WriteSymbol(writer, tree, END_CODE, ll);
  }

  /** Every byte as a literal, straight from the data. */
  method WriteLiterals(writer: BitWriter, tree: HuffmanTree, data: seq<byte>, start: nat, end: nat, ghost ll: seq<nat>,
                       ghost dd: seq<nat>)
    returns (ghost ts: seq<Token>)
    requires writer.Valid() && Ready(tree, ll) && start <= end <= |data|
    requires ll == FixedLengths() && dd == FixedDistances()
    modifies writer
    ensures writer.Valid() && writer.base == old(writer.base)
    ensures TokensOk(ts) && AllReach(data[..start], ts) && Expand(data[..start], ts) == data[..end]
    ensures AllCoded(ll, dd, ts) && writer.bits == old(writer.bits) + TokensBits(ll, dd, ts, [])
    ensures ts == Literals(data[start..end])
  {
    hide Expand, AllReach, TokensFlat, TokensBits, Code, FixedLengths, FixedDistances, AllCoded, Position, Used, Ready,
         BitWriter.Valid, Literals;
    ghost var bits := writer.bits;
    ts := [];
    NoTokens(data, start);
    NoTokenBits(ll, dd, bits);
    FixedCodesAll(ts);
    ghost var e := [];
    var i := start;
    LiteralsNext(data, start, start);
    while i < end
      invariant start <= i <= end && Encodes(data, start, i, 0, 0, ts, e) && Ready(tree, ll)
      invariant writer.Valid() && writer.base == old(writer.base) && AllCoded(ll, dd, ts)
      invariant writer.bits == bits + TokensBits(ll, dd, ts, []) && ts == Literals(data[start..i])
    {
      LiteralsNext(data, start, i);
      LiteralCode(ll, dd, data[i], ts, bits);
      LiteralEncodes(data, start, i, 0, 0, ts, e);
      WriteSymbol(writer, tree, data[i], ll);
      e, ts := e + [data[i]], ts + [Literal(data[i])];
      FixedCodesAll(ts);
      i := i + 1;
    }
  }

  lemma LiteralsNext(data: seq<byte>, start: nat, i: nat)
    requires start <= i <= |data|
    ensures start == i ==> Literals(data[start..i]) == []
    ensures i < |data| ==> Literals(data[start..i + 1]) == Literals(data[start..i]) + [Literal(data[i])]
  {
  }

  lemma LiteralCode(ll: seq<nat>, dd: seq<nat>, b: byte, ts: seq<Token>, start: seq<bool>)
    requires ll == FixedLengths() && dd == FixedDistances() && AllCoded(ll, dd, ts)
    ensures |ll| == 288 && ll[b] > 0 && AllCoded(ll, dd, ts + [Literal(b)])
    ensures (start + TokensBits(ll, dd, ts, [])) + Code(ll, b) == start + TokensBits(ll, dd, ts + [Literal(b)], [])
  {
    hide TokensBits, Code;
    FixedCodes(Literal(b));
    TokensBitsAppend(ll, dd, ts, Literal(b), []);
    assert TokenBits(ll, dd, Literal(b), []) == Code(ll, b) + [] == Code(ll, b);
    TokensBitsRest(ll, dd, ts, Code(ll, b));
    Regroup(start, TokensBits(ll, dd, ts, []), Code(ll, b));
  }

  /** The symbols of a block with the fixed trees. */
  method WriteFixedSymbols(writer: BitWriter, hash: Hash, treeLl: HuffmanTree, treeD: HuffmanTree,
                           data: seq<byte>, start: nat, end: nat, settings: Settings, ghost ll: seq<nat>,
                           ghost dd: seq<nat>)
    returns (error: nat, ghost ts: seq<Token>, ghost cs: seq<Choice>)
    requires writer.Valid() && start <= end <= |data| && hash.windowsize == settings.windowsize
    requires settings.useLz77 && settings.windowsize > 0 ==> hash.Entered(data, start)
    requires Ready(treeLl, ll) && Ready(treeD, dd) && ll == FixedLengths() && dd == FixedDistances()
    requires Separate(hash, treeLl) && Separate(hash, treeD)
    modifies writer, hash.Frame()
    ensures writer.Valid() && writer.base == old(writer.base) && Ready(treeLl, ll)
    ensures error == if settings.useLz77 then WindowError(settings.windowsize) else 0
    ensures error == 0 ==> TokensOk(ts) && AllReach(data[..start], ts) && Expand(data[..start], ts) == data[..end]
    ensures error == 0 ==> AllCoded(ll, dd, ts) && writer.bits == old(writer.bits) + TokensBits(ll, dd, ts, [])
    ensures error == 0 && settings.useLz77 ==> hash.Entered(data, end)
    ensures error == 0 ==> forall t: Trees :: TokensChosen(data, start, end, settings, Plan(old(hash.keys), cs, ts, t))
    ensures error == 0 && settings.useLz77 ==>
      |old(hash.keys)| == start && hash.keys == KeysAfter(data, start, end, settings, old(hash.keys))
  {
    hide Expand, AllReach, TokensFlat, TokensBits, Code, FixedLengths, FixedDistances, AllCoded,
         Hash.Entered, BitWriter.Valid, WindowError, Ready, HuffmanTree.Valid, Decided, NewKeys;
    cs := [];
    if settings.useLz77 {
      var e;
      e, error, ts, cs := EncodeLZ77(hash, data, start, end, settings.windowsize, settings.minmatch, settings.nicematch,
        settings.lazymatching);
      if error != 0 { return; }
      FixedCodesAll(ts);
      WriteLZ77Data(writer, e, treeLl, treeD, ll, dd, ts);
    } else {
      ts := WriteLiterals(writer, treeLl, data, start, end, ll, dd);
      error := 0;
    }
  }

  /** The arrays of the matcher are not those of the tree. */
  ghost predicate Separate(hash: Hash, tree: HuffmanTree)
    reads tree
  {
    tree.lengths !in hash.Frame() && tree.codes !in hash.Frame() && tree.tableLen !in hash.Frame()
      && tree.tableValue !in hash.Frame()
  }

  /** A block with the fixed trees. */
  method DeflateFixed(writer: BitWriter, hash: Hash, data: seq<byte>, start: nat, end: nat, settings: Settings,
                      final: bool)
    returns (error: nat, ghost p: Plan)
    requires writer.Valid() && start <= end <= |data| && hash.windowsize == settings.windowsize && settings.btype == 1
    requires settings.useLz77 && settings.windowsize > 0 ==> hash.Entered(data, start)
    modifies writer, hash.Frame()
    ensures writer.Valid() && writer.base == old(writer.base)
    ensures error == if settings.useLz77 then WindowError(settings.windowsize) else 0
    ensures error == 0 ==> Planned(data, start, end, settings, p) && p.keys == old(hash.keys)
    ensures error == 0 ==> writer.bits == old(writer.bits) + BlockBits(settings.btype, p, final)
    ensures error == 0 ==> Decodes(BlockBits(settings.btype, p, final), final, data[..start], data[..end])
    ensures error == 0 && settings.useLz77 ==> hash.Entered(data, end)
    ensures error == 0 && settings.useLz77 ==>
      |old(hash.keys)| == start && hash.keys == KeysAfter(data, start, end, settings, old(hash.keys))
  {
    hide Expand, AllReach, TokensFlat, TokensBits, Code, FixedLengths, FixedDistances, Decodes, AllCoded, TokensOk,
         Hash.Entered, Ready, WindowError, BitWriter.Valid, HuffmanTree.Valid, Planned, BlockBits, Writable, KeysAfter,
         TokensChosen;
    var treeLl := new HuffmanTree();
    var treeD := new HuffmanTree();
    error := GenerateFixedLitLenTree(treeLl);
    error := GenerateFixedDistanceTree(treeD);
    ApartFromHash(hash, treeLl);
    ApartFromHash(hash, treeD);
    error, p := WriteFixedBlock(writer, hash, treeLl, treeD, data, start, end, settings, final);
  }

  /** The arrays of a new tree are those of nothing else. */
  lemma ApartFromHash(hash: Hash, tree: HuffmanTree)
    requires tree.lengths !in hash.Frame() && tree.codes !in hash.Frame() && tree.tableLen !in hash.Frame()
    requires tree.tableValue !in hash.Frame()
    ensures Separate(hash, tree)
  {
  }

  method WriteFixedBlock(writer: BitWriter, hash: Hash, treeLl: HuffmanTree, treeD: HuffmanTree,
                         data: seq<byte>, start: nat, end: nat, settings: Settings, final: bool)
    returns (error: nat, ghost p: Plan)
    requires writer.Valid() && start <= end <= |data| && hash.windowsize == settings.windowsize && settings.btype == 1
    requires settings.useLz77 && settings.windowsize > 0 ==> hash.Entered(data, start)
    requires Ready(treeLl, FixedLengths()) && Ready(treeD, FixedDistances())
    requires Separate(hash, treeLl) && Separate(hash, treeD)
    modifies writer, hash.Frame()
    ensures writer.Valid() && writer.base == old(writer.base)
    ensures error == if settings.useLz77 then WindowError(settings.windowsize) else 0
    ensures error == 0 ==> Planned(data, start, end, settings, p) && p.keys == old(hash.keys)
    ensures error == 0 ==> writer.bits == old(writer.bits) + BlockBits(settings.btype, p, final)
    ensures error == 0 ==> Decodes(BlockBits(settings.btype, p, final), final, data[..start], data[..end])
    ensures error == 0 && settings.useLz77 ==> hash.Entered(data, end)
    ensures error == 0 && settings.useLz77 ==>
      |old(hash.keys)| == start && hash.keys == KeysAfter(data, start, end, settings, old(hash.keys))
  {
    hide Expand, AllReach, TokensFlat, TokensBits, Code, FixedLengths, FixedDistances, Decodes, AllCoded, TokensOk,
         Hash.Entered, Ready, WindowError, BitWriter.Valid, HuffmanTree.Valid, Planned, BlockBits, Writable, KeysAfter,
         TokensChosen;
    ghost var bits, keys := writer.bits, hash.keys;
    WriteBlockHeader(writer, final, 1, 0);
    ghost var ll, dd := FixedLengths(), FixedDistances();
    ghost var ts, cs;
    error, ts, cs := WriteFixedSymbols(writer, hash, treeLl, treeD, data, start, end, settings, ll, dd);
    p := Plan(keys, cs, ts, Trees([], [], 0, [], []));
    if error != 0 { return; }
    FixedCodesAll(ts);
    WriteEndCode(writer, treeLl, ll);
    FixedPlanned(data, start, end, settings, p, final);
    StackThree(bits, [final, true, false], TokensBits(ll, dd, ts, []), Code(ll, END_CODE));
  }

  lemma FixedPlanned(data: seq<byte>, start: nat, end: nat, settings: Settings, p: Plan, final: bool)
    requires start <= end <= |data| && TokensChosen(data, start, end, settings, p) && settings.btype == 1
    requires AllCoded(FixedLengths(), FixedDistances(), p.tokens) && FixedLengths()[END_CODE] > 0
    requires AllReach(data[..start], p.tokens) && Expand(data[..start], p.tokens) == data[..end]
    ensures Planned(data, start, end, settings, p)
    ensures BlockBits(1, p, final) == [final, true, false]
      + TokensBits(FixedLengths(), FixedDistances(), p.tokens, []) + Code(FixedLengths(), END_CODE)
    ensures Decodes(BlockBits(1, p, final), final, data[..start], data[..end])
  {
    hide TokensChosen, AllCoded, AllReach, Expand, Code, TokensBits, FixedLengths, FixedDistances, Decodes;
    FixedDecodes(final, p.tokens, data[..start]);
  }

  lemma StackThree(s: seq<bool>, h: seq<bool>, a: seq<bool>, b: seq<bool>)
    ensures s + h + a + b == s + (h + a + b)
  {
  }

  lemma StackFour(s: seq<bool>, h: seq<bool>, a: seq<bool>, b: seq<bool>, c: seq<bool>)
    ensures s + h + a + b + c == s + (h + a + b + c)
  {
  }

  /** The greatest size of a block with trees of its own. */
  const MAX_BLOCK: nat := 262144

  /** The two trees of a block, from the symbols it has. */
  method MakeTrees(e: seq<nat>, ghost ts: seq<Token>)
    returns (treeLl: HuffmanTree, treeD: HuffmanTree, ghost ll: seq<nat>, ghost dd: seq<nat>)
    requires TokensOk(ts) && e == TokensFlat(ts) && |ts| <= MAX_BLOCK
    ensures fresh(treeLl) && fresh(treeD) && Ready(treeLl, ll) && Ready(treeD, dd)
    ensures 257 <= |ll| <= 286 && 2 <= |dd| <= 30 && FullCode(ll, 15) && FullCode(dd, 15)
    ensures AllCoded(ll, dd, ts) && ll[END_CODE] > 0
    ensures exists fll: seq<nat>, fd: seq<nat> {:trigger Occurrences(ts, fll, fd)} ::
      Occurrences(ts, fll, fd) && BestLengths(ll, fll, 257, 15) && BestLengths(dd, fd, 2, 15)
  {
    hide TokensFlat, AllCoded, SymbolCount, DistanceCount, FullCode, CodeLengths.LengthsFor, HuffmanTree.Valid, Ready,
         Decodable, BestLengths, Pow2;
    var frequenciesLl, frequenciesD := CountSymbols(e, ts);
    ghost var fll, fd := frequenciesLl[..], frequenciesD[..];
    Pow2Values();
    assert Occurrences(ts, fll, fd);
    forall k: nat ensures SymbolCount(ts, k) <= |ts| && DistanceCount(ts, k) <= |ts| { CountsBound(ts, k); }
    CodeLengths.CountsFit(fll);
    CodeLengths.CountsFit(fd);
    treeLl := new HuffmanTree();
    treeD := new HuffmanTree();
    var error := MakeFromFrequencies(treeLl, frequenciesLl, 257, 15);
    ll := treeLl.lengths[..];
    error := MakeFromFrequencies(treeD, frequenciesD, 2, 15);
    dd := treeD.lengths[..];
    TokensHaveCodes(ll, dd, fll, fd, ts);
  }

  /** A block with trees of its own. */
  method DeflateDynamic(writer: BitWriter, hash: Hash, data: seq<byte>, start: nat, end: nat, settings: Settings,
                        final: bool)
    returns (error: nat, ghost p: Plan)
    requires writer.Valid() && start <= end <= |data| && hash.windowsize == settings.windowsize && settings.btype == 2
    requires settings.useLz77 && settings.windowsize > 0 ==> hash.Entered(data, start)
    requires end - start <= MAX_BLOCK
    modifies writer, hash.Frame()
    ensures writer.Valid() && writer.base == old(writer.base)
    ensures error == if settings.useLz77 then WindowError(settings.windowsize) else 0
    ensures error == 0 ==> Planned(data, start, end, settings, p) && p.keys == old(hash.keys)
    ensures error == 0 ==> writer.bits == old(writer.bits) + BlockBits(settings.btype, p, final)
    ensures error == 0 ==> Decodes(BlockBits(settings.btype, p, final), final, data[..start], data[..end])
    ensures error == 0 && settings.useLz77 ==> hash.Entered(data, end)
    ensures error == 0 && settings.useLz77 ==>
      |old(hash.keys)| == start && hash.keys == KeysAfter(data, start, end, settings, old(hash.keys))
  {
    hide Expand, AllReach, TokensFlat, TokensBits, Code, HeaderBits, HeaderOk, Decodes, AllCoded, TokensOk, Decodable,
         FullCode, Hash.Entered, WindowError, BitWriter.Valid, HuffmanTree.Valid, Planned, BlockBits, Writable,
           KeysAfter,
         TokensChosen, BestHeader, BestLengths, Chosen, Occurrences, TreesChosen, Ready;
    ghost var keys := hash.keys;
    p := Plan([], [], [], Trees([], [], 0, [], []));
    var e;
    ghost var ts, cs;
    e, error, ts, cs := MakeTokens(hash, data, start, end, settings);
    if error != 0 { return; }
    FewTokens(data, start, end, ts, e);
    ghost var bits := writer.bits;
    var treeLl, treeD;
    ghost var ll, dd;
    treeLl, treeD, ll, dd := MakeTrees(e, ts);
    WriteBlockHeader(writer, final, 0, 1);
    ghost var hclen, cl, rs := WriteHeader(writer, treeLl, treeD, ll, dd);
    WriteLZ77Data(writer, e, treeLl, treeD, ll, dd, ts);
    assert treeLl.lengths[256] != 0 by { ReadyShape(treeLl, ll); }  // error 64 cannot occur
    WriteEndCode(writer, treeLl, ll);
    HeaderShape(ll, dd, hclen, cl, rs);
    p := Plan(keys, cs, ts, Trees(ll, dd, hclen, cl, rs));
    DynamicPlanned(data, start, end, settings, p, e, final);
    StackFour(bits, [final, false, true], HeaderBits(|ll|, |dd|, hclen, cl, rs, []), TokensBits(ll, dd, ts, []),
      Code(ll, END_CODE));
  }

  lemma DynamicPlanned(data: seq<byte>, start: nat, end: nat, settings: Settings, p: Plan, e: seq<nat>, final: bool)
    requires start <= end <= |data| && TokensChosen(data, start, end, settings, p) && settings.btype == 2
    requires TokensFor(data, start, end, p.tokens, e)
    requires HeaderOk(p.trees.ll, p.trees.dd, p.trees.hclen, p.trees.cl, p.trees.runs)
    requires AllCoded(p.trees.ll, p.trees.dd, p.tokens)
    requires p.trees.runs == Chosen(p.trees.ll + p.trees.dd, 0)
    requires BestHeader(p.trees.cl, p.trees.hclen, p.trees.runs)
    requires exists fll: seq<nat>, fd: seq<nat> {:trigger Occurrences(p.tokens, fll, fd)} ::
      Occurrences(p.tokens, fll, fd) && BestLengths(p.trees.ll, fll, 257, 15) && BestLengths(p.trees.dd, fd, 2, 15)
    ensures Planned(data, start, end, settings, p)
    ensures var t := p.trees;
      && 257 <= |t.ll| <= 288 && 1 <= |t.dd| <= 32 && 4 <= t.hclen <= 19 && |t.cl| == 19 && RunsCoded(t.cl, t.runs)
      && t.ll[END_CODE] > 0
      && BlockBits(2, p, final) == [final, false, true] + HeaderBits(|t.ll|, |t.dd|, t.hclen, t.cl, t.runs, [])
        + TokensBits(t.ll, t.dd, p.tokens, []) + Code(t.ll, END_CODE)
    ensures Decodes(BlockBits(2, p, final), final, data[..start], data[..end])
  {
    hide TokensChosen, AllCoded, AllReach, Expand, Code, TokensBits, Decodes, HeaderBits, Chosen, BestHeader, FullCode,
      Occurrences, BestLengths, RunsCoded, RunsFit, RunsExpand, FilledUpTo, TokensFlat;
    var t := p.trees;
    HeaderShape(t.ll, t.dd, t.hclen, t.cl, t.runs);
    DynamicDecodes(final, t.ll, t.dd, t.hclen, t.cl, t.runs, p.tokens, data[..start]);
  }

  lemma HeaderShape(ll: seq<nat>, dd: seq<nat>, hclen: nat, cl: seq<nat>, rs: seq<Run>)
    requires HeaderOk(ll, dd, hclen, cl, rs)
    ensures 257 <= |ll| <= 288 && 1 <= |dd| <= 32 && 4 <= hclen <= 19 && |cl| == 19 && RunsCoded(cl, rs)
  {
  }

  // ---------- whole streams

  /** The error of the settings alone. */
  function SettingsError(settings: Settings): nat {
    if settings.btype > 2 then 61
    else if settings.btype != 0 && settings.useLz77 then WindowError(settings.windowsize)
    else 0
  }

  /** The bytes d decode to the data. */
  ghost predicate InflatesTo(d: seq<byte>, data: seq<byte>) {
    forall ignoreNlen: bool {:trigger Inflate(StreamBits(d), [], ignoreNlen)} ::
      Inflate(StreamBits(d), [], ignoreNlen).Got? && Inflate(StreamBits(d), [], ignoreNlen).value == data
  }

  function BlockSize(btype: nat, insize: nat): (size: nat)
    ensures size > 0 || (btype == 1 && insize == 0)
    ensures btype != 1 ==> size <= MAX_BLOCK
  {
    if btype == 1 then insize
    else
      var size := insize / 8 + 8;
      if size < 65536 then 65536 else if size > MAX_BLOCK then MAX_BLOCK else size
  }

  /** One block with the fixed trees; with trees of their own, blocks of an eighth of the data and eight bytes,
      but of 65536 bytes at least and of 262144 at most. */
  lemma BlockSizes(n: nat)
    ensures BlockSize(1, n) == n
    ensures n <= 524231 ==> BlockSize(2, n) == 65536
    ensures 524224 <= n < 2097096 ==> 8 * BlockSize(2, n) <= n + 64 < 8 * BlockSize(2, n) + 8
    ensures n >= 2097088 ==> BlockSize(2, n) == 262144
  {
  }

  /** Block i begins inside the data, and the last block ends it. */
  lemma BlockBounds(n: nat, size: nat, i: nat)
    requires size > 0 && n > 0 && i < (n + size - 1) / size
    ensures 0 <= i * size < n
    ensures i == (n + size - 1) / size - 1 <==> i * size + size >= n
  {
    var num := (n + size - 1) / size;
    assert n + size - 1 == num * size + (n + size - 1) % size;
    MulNat(i, size);
    MulStrict(i, num, size);
    if i + 1 < num { MulStrict(i + 1, num, size); }
    assert (i + 1) * size == i * size + size;
  }

  method WriteBlock(writer: BitWriter, hash: Hash, data: seq<byte>, start: nat, end: nat, settings: Settings,
                    final: bool)
    returns (error: nat, ghost p: Plan)
    requires writer.Valid() && start <= end <= |data| && hash.windowsize == settings.windowsize
      && 1 <= settings.btype <= 2
    requires settings.useLz77 && settings.windowsize > 0 ==> hash.Entered(data, start)
    requires settings.btype == 2 ==> end - start <= MAX_BLOCK
    requires Decodes(writer.bits, false, [], data[..start])
    modifies writer, hash.Frame()
    ensures writer.Valid() && writer.base == old(writer.base)
    ensures error == SettingsError(settings)
    ensures error == 0 ==> Planned(data, start, end, settings, p) && p.keys == old(hash.keys)
    ensures error == 0 ==> writer.bits == old(writer.bits) + BlockBits(settings.btype, p, final)
    ensures error == 0 ==> Decodes(writer.bits, final, [], data[..end])
    ensures error == 0 && settings.useLz77 ==> hash.Entered(data, end)
    ensures error == 0 && settings.useLz77 ==>
      |old(hash.keys)| == start && hash.keys == KeysAfter(data, start, end, settings, old(hash.keys))
  {
    hide *;
    ghost var bits := writer.bits;
    if settings.btype == 1 {
      error, p := DeflateFixed(writer, hash, data, start, end, settings, final);
    } else {
      error, p := DeflateDynamic(writer, hash, data, start, end, settings, final);
    }
    SettingsErrorIs(settings);
    if error == 0 {
      PlannedIs(data, start, end, settings, p);
      DecodesChain(bits, BlockBits(settings.btype, p, final), final, [], data[..start], data[..end]);
    }
  }

  lemma SettingsErrorIs(settings: Settings)
    requires 1 <= settings.btype <= 2
    ensures SettingsError(settings) == if settings.useLz77 then WindowError(settings.windowsize) else 0
  {
    hide WindowError;
  }

  lemma PlannedIs(data: seq<byte>, start: nat, end: nat, settings: Settings, p: Plan)
    requires Planned(data, start, end, settings, p)
    ensures Writable(settings.btype, p)
  {
    hide TokensChosen, Writable, TreesChosen;
  }

  /** How many blocks there are: one at least. */
  function NumBlocks(n: nat, size: nat): nat
    requires size > 0
  {
    if n == 0 then 1 else (n + size - 1) / size
  }

  /** Where block i begins and ends. */
  function BlockStart(n: nat, size: nat, i: nat): (start: nat)
    ensures start <= n
  {
    MulNat(i, size);
    if i * size > n then n else i * size
  }

  /** Block i has the data between its borders, and its matcher goes on from the keys of the blocks before. */
  ghost predicate PlanFits(data: seq<byte>, settings: Settings, size: nat, plans: seq<Plan>, i: nat)
    requires i < |plans|
  {
    var start, end := BlockStart(|data|, size, i), BlockStart(|data|, size, i + 1);
    && Planned(data, start, end, settings, plans[i])
    && (settings.useLz77 ==>
          |plans[i].keys| == start && (i == 0 || KeysFollow(data, settings, size, plans[i - 1], plans[i], i)))
  }

  ghost predicate KeysFollow(data: seq<byte>, settings: Settings, size: nat, before: Plan, p: Plan, i: nat)
    requires i > 0
  {
    var start, end := BlockStart(|data|, size, i - 1), BlockStart(|data|, size, i);
    |before.keys| == start <= end && p.keys == KeysAfter(data, start, end, settings, before.keys)
  }

  ghost predicate PlansFit(data: seq<byte>, settings: Settings, size: nat, plans: seq<Plan>) {
    forall i: nat :: i < |plans| ==> PlanFits(data, settings, size, plans, i)
  }

  ghost predicate AllWritable(btype: nat, plans: seq<Plan>) {
    forall i :: 0 <= i < |plans| ==> Writable(btype, plans[i])
  }

  /** The blocks one after the other, the last of so many being marked as the last one. */
  ghost function PlansBits(btype: nat, plans: seq<Plan>, num: nat): seq<bool>
    requires AllWritable(btype, plans)
  {
    if plans == [] then []
    else PlansBits(btype, plans[..|plans| - 1], num) + BlockBits(btype, plans[|plans| - 1], |plans| == num)
  }

  /** What the compressor writes: blocks of the size that the settings ask for, each as planned. */
  ghost predicate WrittenAs(d: seq<byte>, data: seq<byte>, settings: Settings, plans: seq<Plan>) {
    && BlockSize(settings.btype, |data|) > 0 && |plans| == NumBlocks(|data|, BlockSize(settings.btype, |data|))
    && PlansFit(data, settings, BlockSize(settings.btype, |data|), plans)
    && AllWritable(settings.btype, plans) && Packed(d, PlansBits(settings.btype, plans, |plans|))
  }

  /** The compressor: whatever it succeeds on can be decompressed again. Without compression it
      writes nothing at all for empty data. */
  method Deflatev(before: seq<byte>, data: seq<byte>, settings: Settings)
    returns (out: seq<byte>, error: nat, ghost plans: seq<Plan>)
    requires settings.btype == 1 ==> data != []
    ensures error == SettingsError(settings)
    ensures error == 0 ==> before <= out
    ensures error == 0 && settings.btype == 0 ==> out == before + StoredBlocks(data, 0)
    ensures error == 0 && settings.btype != 0 ==> WrittenAs(out[|before|..], data, settings, plans)
    ensures error == 0 && (settings.btype == 0 ==> data != []) ==> InflatesTo(out[|before|..], data)
    ensures settings.btype == 0 && data == [] ==> out == before
  {
    hide Decodes, Inflate, InflatesTo, Hash.Entered, StoredBlocks, WrittenAs;
    plans := [];
    if settings.btype > 2 {
      return before, 61, plans;
    } else if settings.btype == 0 {
      out := DeflateNoCompression(before, data);
      NoBlocksYet(data);
      assert out[|before|..] == StoredBlocks(data, 0);
      if data != [] { StoredRoundTrip(data); }
      return out, 0, plans;
    }
    var blocksize := BlockSize(settings.btype, |data|);
    var numdeflateblocks := (|data| + blocksize - 1) / blocksize;
    if numdeflateblocks == 0 { numdeflateblocks := 1; }
    var writer := new BitWriter(before);
    var hash := new Hash(settings.windowsize);
    out, error, plans := WriteBlocks(writer, hash, data, settings, blocksize, numdeflateblocks);
  }

  lemma StoredRoundTrip(data: seq<byte>)
    requires data != []
    ensures InflatesTo(StoredBlocks(data, 0), data)
  {
    hide Inflate, StoredBlocks;
    forall ignoreNlen: bool ensures Inflate(StreamBits(StoredBlocks(data, 0)), [], ignoreNlen) == Got(data, []) {
      StoredDecodes(data, 0, ignoreNlen);
      assert data[..0] == [];
    }
  }

  /** The bits of a finished stream, padded to whole bytes. */
  lemma FinishedStream(d: seq<byte>, bits: seq<bool>, data: seq<byte>)
    requires Packed(d, bits) && Decodes(bits, true, [], data)
    ensures InflatesTo(d, data)
  {
    hide Inflate, StreamBits;
    var pad := Zeros(8 * |d| - |bits|);
    forall ignoreNlen: bool ensures Inflate(StreamBits(d), [], ignoreNlen) == Got(data, pad) {
      assert Inflate(bits + pad, [], ignoreNlen) == Got(data, pad);
    }
  }

  method WriteBlocks(writer: BitWriter, hash: Hash, data: seq<byte>, settings: Settings, blocksize: nat, numblocks: nat)
    returns (out: seq<byte>, error: nat, ghost plans: seq<Plan>)
    requires writer.Valid() && writer.bits == [] && hash.windowsize == settings.windowsize && 1 <= settings.btype <= 2
    requires blocksize > 0 && (settings.btype == 2 ==> blocksize <= MAX_BLOCK)
    requires numblocks == NumBlocks(|data|, blocksize) && blocksize == BlockSize(settings.btype, |data|)
    requires settings.windowsize > 0 ==> hash.Entered(data, 0)
    requires hash.keys == []
    modifies writer, hash.Frame()
    ensures error == SettingsError(settings) && old(writer.base) <= out
    ensures error == 0 ==> InflatesTo(out[|old(writer.base)|..], data)
    ensures error == 0 ==> WrittenAs(out[|old(writer.base)|..], data, settings, plans)
  {
    hide *;
    error, plans := 0, [];
    NothingDecodes([]);
    assert data[..0] == [];
    SomeBlocks(|data|, blocksize, numblocks);
    NothingPlanned(data, settings, blocksize, numblocks);
    var i := 0;
    while i != numblocks && error == 0
      invariant 0 <= i <= numblocks && writer.Valid() && writer.base == old(writer.base)
      invariant error == 0 || error == SettingsError(settings)
      invariant error == 0 && i > 0 ==> SettingsError(settings) == 0
      invariant error == 0 ==> Decodes(writer.bits, i == numblocks, [], data[..BlockStart(|data|, blocksize, i)])
      invariant error == 0 && settings.useLz77 && settings.windowsize > 0 ==>
        hash.Entered(data, BlockStart(|data|, blocksize, i))
      invariant i == numblocks && error == 0 ==> BlockStart(|data|, blocksize, i) == |data|
      invariant error == 0 ==> |plans| == i && PlansFit(data, settings, blocksize, plans)
      invariant error == 0 ==> AllWritable(settings.btype, plans)
      invariant error == 0 ==> writer.bits == PlansBits(settings.btype, plans, numblocks)
      invariant error == 0 ==> NextKeys(data, settings, blocksize, plans, hash.keys)
      decreases numblocks - i, error == 0
    {
      var final := i == numblocks - 1;
      BlockEnds(|data|, blocksize, numblocks, i);
      var start := i * blocksize;
      var end := start + blocksize;
      if end > |data| { end := |data|; }
      ghost var p, keys := plans, hash.keys;
      ghost var q;
      error, q := WriteBlock(writer, hash, data, start, end, settings, final);
      if error == 0 {
        AddPlan(data, settings, blocksize, p, q, i, numblocks, start, end, keys, hash.keys);
        plans := p + [q];
      }
      i := i + 1;
    }
    out := writer.data;
    WriterPacks(writer);
    if error == 0 {
      assert data[..|data|] == data;
      FinishedStream(writer.data[|writer.base|..], writer.bits, data);
      WrittenIs(writer.data[|writer.base|..], data, settings, plans, blocksize);
    }
  }

  /** The keys of all positions before the next block. */
  ghost predicate NextKeys(data: seq<byte>, settings: Settings, size: nat, plans: seq<Plan>, keys: seq<nat>) {
    settings.useLz77 ==>
      if plans == [] then keys == []
      else
        var p, i := plans[|plans| - 1], |plans| - 1;
        var start, end := BlockStart(|data|, size, i), BlockStart(|data|, size, i + 1);
        |p.keys| == start <= end && keys == KeysAfter(data, start, end, settings, p.keys)
  }

  lemma NothingPlanned(data: seq<byte>, settings: Settings, size: nat, num: nat)
    ensures PlansFit(data, settings, size, []) && AllWritable(settings.btype, [])
    ensures PlansBits(settings.btype, [], num) == [] && NextKeys(data, settings, size, [], [])
  {
  }

  /** One more block has been written. */
  lemma AddPlan(data: seq<byte>, settings: Settings, size: nat, plans: seq<Plan>, p: Plan, i: nat, num: nat,
                start: nat, end: nat, keys: seq<nat>, after: seq<nat>)
    requires |plans| == i && PlansFit(data, settings, size, plans) && AllWritable(settings.btype, plans)
    requires start == BlockStart(|data|, size, i) && end == BlockStart(|data|, size, i + 1) && start <= end
    requires Planned(data, start, end, settings, p) && p.keys == keys && NextKeys(data, settings, size, plans, keys)
    requires settings.useLz77 ==> |keys| == start && after == KeysAfter(data, start, end, settings, keys)
    ensures PlansFit(data, settings, size, plans + [p]) && AllWritable(settings.btype, plans + [p])
    ensures PlansBits(settings.btype, plans + [p], num)
      == PlansBits(settings.btype, plans, num) + BlockBits(settings.btype, p, i + 1 == num)
    ensures NextKeys(data, settings, size, plans + [p], after)
  {
    hide Planned, Writable, BlockBits, KeysAfter, BlockStart;
    PlannedIs(data, start, end, settings, p);
    var all := plans + [p];
    assert all[..i] == plans;
    forall k: nat | k < |all| ensures PlanFits(data, settings, size, all, k) {
      if k < i {
        assert PlanFits(data, settings, size, plans, k);
      }
    }
  }

  lemma WriterPacks(writer: BitWriter)
    requires writer.Valid()
    ensures |writer.base| <= |writer.data| && writer.base <= writer.data
    ensures Packed(writer.data[|writer.base|..], writer.bits)
  {
    hide Packed;
  }

  lemma WrittenIs(d: seq<byte>, data: seq<byte>, settings: Settings, plans: seq<Plan>, size: nat)
    requires size == BlockSize(settings.btype, |data|) > 0 && |plans| == NumBlocks(|data|, size)
    requires PlansFit(data, settings, size, plans) && AllWritable(settings.btype, plans)
    requires Packed(d, PlansBits(settings.btype, plans, |plans|))
    ensures WrittenAs(d, data, settings, plans)
  {
    hide Packed, PlansBits, PlansFit, AllWritable;
  }

  lemma SomeBlocks(n: nat, size: nat, num: nat)
    requires size > 0 && num == NumBlocks(n, size)
    ensures num > 0 && BlockStart(n, size, 0) == 0
  {
    if n > 0 { DivAtLeastOne(n + size - 1, size); }
  }

  lemma DivAtLeastOne(a: nat, b: nat)
    requires b > 0 && a >= b
    ensures a / b >= 1
  {
  }

  lemma BlockEnds(n: nat, size: nat, num: nat, i: nat)
    requires size > 0 && num == NumBlocks(n, size) && i < num
    ensures 0 <= i * size == BlockStart(n, size, i) <= n
    ensures BlockStart(n, size, i + 1) == if i * size + size > n then n else i * size + size
    ensures i + 1 == num ==> BlockStart(n, size, i + 1) == n
  {
    assert (i + 1) * size == i * size + size;
    if n > 0 { BlockBounds(n, size, i); }
  }

  /** The law the codec is for: compressing and decompressing gives the data back, for all data
      and settings the compressor accepts. */
  method RoundTrip(data: seq<byte>, settings: Settings, ignoreNlen: bool) returns (back: seq<byte>, error: nat)
    requires settings.btype <= 1 ==> data != []
    requires SettingsError(settings) == 0
    ensures error == 0 && back == data
  {
    hide Inflate;
    ghost var plans;
    var packed, deflateError;
    packed, deflateError, plans := Deflatev([], data, settings);
    assert packed[0..] == packed;
    back, error := Inflatev([], packed, ignoreNlen, 0);
  }

  /** Empty data without compression gives no block, and that is not a stream. */
  lemma EmptyStoredFails(ignoreNlen: bool)
    ensures StoredBlocks([], 0) == [] && Inflate(StreamBits([]), [], ignoreNlen).Malformed?
  {
  }
}
