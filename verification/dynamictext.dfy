/** Dynamic blocks as section 3.2.7 of RFC 1951 writes them out, and what the decoder makes of them. */
module DynamicText {
  import opened Bits
  import opened Canonical
  import opened DeflateSpec
  import opened DeflateCode
  import opened DeflateTables
  import opened TreeCode
  import opened DeflateText

  // ---------- run-length coded lengths

  /** A code length, or 16 with 2 extra bits, 17 with 3 or 18 with 7. */
  datatype Piece = Given(v: nat) | Repeated(e: nat) | FewZeros(e: nat) | ManyZeros(e: nat)

  ghost predicate PieceOk(cl: seq<nat>, p: Piece) {
    match p
    case Given(v) => v <= 15 && v < |cl| && cl[v] > 0
    case Repeated(e) => e < 4 && |cl| > 16 && cl[16] > 0
    case FewZeros(e) => e < 8 && |cl| > 17 && cl[17] > 0
    case ManyZeros(e) => e < 128 && |cl| > 18 && cl[18] > 0
  }

  function PieceText(cl: seq<nat>, p: Piece, rest: seq<bool>): seq<bool>
    requires PieceOk(cl, p)
  {
    match p
    case Given(v) => Code(cl, v) + rest
    case Repeated(e) => Code(cl, 16) + (BitsOf(e, 2) + rest)
    case FewZeros(e) => Code(cl, 17) + (BitsOf(e, 3) + rest)
    case ManyZeros(e) => Code(cl, 18) + (BitsOf(e, 7) + rest)
  }

  /** The first length cannot be a repetition. 16 stands for 3 to 6 copies of the length before, 17 for
      3 to 10 zeros, 18 for 11 to 138. */
  function PieceMeaning(lens: seq<nat>, p: Piece): seq<nat> {
    match p
    case Given(v) => lens + [v]
    case Repeated(e) => if lens == [] then [] else lens + Repeat(lens[|lens| - 1], 3 + e)
    case FewZeros(e) => lens + Repeat(0, 3 + e)
    case ManyZeros(e) => lens + Repeat(0, 11 + e)
  }

  ghost predicate PiecesOk(cl: seq<nat>, ps: seq<Piece>) {
    forall i :: 0 <= i < |ps| ==> PieceOk(cl, ps[i])
  }

  function PiecesText(cl: seq<nat>, ps: seq<Piece>, rest: seq<bool>): seq<bool>
    requires PiecesOk(cl, ps)
    decreases ps
  {
    if ps == [] then rest else PieceText(cl, ps[0], PiecesText(cl, ps[1..], rest))
  }

  function PiecesMeaning(lens: seq<nat>, ps: seq<Piece>): seq<nat>
    decreases ps
  {
    if ps == [] then lens else PiecesMeaning(PieceMeaning(lens, ps[0]), ps[1..])
  }

  /** The same as a run of the decoder's definition. */
  function RunOf(p: Piece): Run {
    match p
    case Given(v) => Length(v)
    case Repeated(e) => Again(3 + e)
    case FewZeros(e) => Zeroes(3 + e)
    case ManyZeros(e) => Zeroes(11 + e)
  }

  lemma PieceIsRun(cl: seq<nat>, p: Piece, rest: seq<bool>, lens: seq<nat>)
    requires PieceOk(cl, p)
    ensures RunOk(RunOf(p)) && RunCoded(cl, RunOf(p)) && RunBits(cl, RunOf(p), rest) == PieceText(cl, p, rest)
    ensures lens != [] || !p.Repeated? ==>
      RunFits(lens, RunOf(p)) && RunApply(lens, RunOf(p)) == PieceMeaning(lens, p)
  {
    hide Code, BitsOf, Repeat;
  }

  function RunsOf(ps: seq<Piece>): (rs: seq<Run>)
    ensures |rs| == |ps| && forall i :: 0 <= i < |ps| ==> rs[i] == RunOf(ps[i])
  {
    seq(|ps|, i requires 0 <= i < |ps| => RunOf(ps[i]))
  }

  lemma {:induction false} PiecesAreRuns(cl: seq<nat>, ps: seq<Piece>, rest: seq<bool>, lens: seq<nat>)
    requires PiecesOk(cl, ps) && (lens == [] && ps != [] ==> !ps[0].Repeated?)
    ensures RunsCoded(cl, RunsOf(ps)) && RunsBits(cl, RunsOf(ps), rest) == PiecesText(cl, ps, rest)
    ensures RunsFit(lens, RunsOf(ps)) && RunsExpand(lens, RunsOf(ps)) == PiecesMeaning(lens, ps)
    decreases ps
  {
    hide PieceOk, PieceText, RunOf, RunOk, RunCoded, RunBits;
    if ps != [] {
      var p := ps[0];
      assert PieceOk(cl, p);
      assert RunsOf(ps)[1..] == RunsOf(ps[1..]);
      PieceIsRun(cl, p, PiecesText(cl, ps[1..], rest), lens);
      NotEmpty(cl, lens, p);
      hide PieceMeaning, RunApply, RunFits;
      PiecesAreRuns(cl, ps[1..], rest, PieceMeaning(lens, p));
    }
  }

  lemma NotEmpty(cl: seq<nat>, lens: seq<nat>, p: Piece)
    requires PieceOk(cl, p) && (lens == [] ==> !p.Repeated?)
    ensures PieceMeaning(lens, p) != []
  {
  }

  // ---------- the header

  /** The order of section 3.2.7. */
  function Order(i: nat): (k: nat)
    requires i < 19
    ensures k < 19
  {
    [16, 17, 18, 0, 8, 7, 9, 6, 10, 5, 11, 4, 12, 3, 13, 2, 14, 1, 15][i]
  }

  lemma OrderIs(i: nat)
    requires i < 19
    ensures Order(i) == ClOrder(i)
  {
    OrderTable(i);
  }

  /** The lengths of the code length code from place i of the order on, three bits each. */
  function OrderText(cl: seq<nat>, n: nat, i: nat, rest: seq<bool>): seq<bool>
    requires i <= n <= 19 && |cl| == 19
    decreases n - i
  {
    if i == n then rest else BitsOf(cl[Order(i)], 3) + OrderText(cl, n, i + 1, rest)
  }

  lemma {:induction false} OrderTextIs(cl: seq<nat>, n: nat, i: nat, rest: seq<bool>)
    requires i <= n <= 19 && |cl| == 19
    ensures OrderText(cl, n, i, rest) == ClBits(cl, n, i, rest)
    decreases n - i
  {
    hide BitsOf, Order, ClOrder;
    if i < n {
      OrderIs(i);
      OrderTextIs(cl, n, i + 1, rest);
    }
  }

  /** A complete prefix code of at most m bits. */
  ghost predicate Complete(lens: seq<nat>, m: nat) {
    Bounded(lens, m) && Used(lens, 15) == Pow2(15)
  }

  /** What a dynamic block needs: complete codes, an end code, n lengths of the code length code of which
      the others are zero, and run-length coded lengths of both codes together. */
  ghost predicate HeaderFits(ll: seq<nat>, dd: seq<nat>, n: nat, cl: seq<nat>, ps: seq<Piece>) {
    && 257 <= |ll| <= 286 && 1 <= |dd| <= 30 && 4 <= n <= 19 && |cl| == 19
    && Complete(ll, 15) && Complete(dd, 15) && Complete(cl, 7) && ll[256] > 0
    && (forall i :: n <= i < 19 ==> cl[Order(i)] == 0)
    && PiecesOk(cl, ps) && ps != [] && !ps[0].Repeated? && PiecesMeaning([], ps) == ll + dd
  }

  function HeaderText(ll: seq<nat>, dd: seq<nat>, n: nat, cl: seq<nat>, ps: seq<Piece>, rest: seq<bool>): seq<bool>
    requires |ll| >= 257 && |dd| >= 1 && 4 <= n <= 19 && |cl| == 19 && PiecesOk(cl, ps)
  {
    BitsOf(|ll| - 257, 5)
      + (BitsOf(|dd| - 1, 5) + (BitsOf(n - 4, 4) + OrderText(cl, n, 0, PiecesText(cl, ps, rest))))
  }

  lemma NothingCutOff(cl: seq<nat>, n: nat)
    requires |cl| == 19 && n <= 19 && forall i :: n <= i < 19 ==> cl[Order(i)] == 0
    ensures FilledUpTo(cl, n) == cl
  {
    var f := FilledUpTo(cl, n);
    forall k | 0 <= k < 19 ensures f[k] == cl[k] {
      OrderIsPermutation(k);
      OrderIs(ClPlace(k));
      if ClPlace(k) >= n { assert cl[Order(ClPlace(k))] == 0; }
    }
  }

  lemma HeaderTextIs(ll: seq<nat>, dd: seq<nat>, n: nat, cl: seq<nat>, ps: seq<Piece>, rest: seq<bool>)
    requires HeaderFits(ll, dd, n, cl, ps)
    ensures HeaderOk(ll, dd, n, cl, RunsOf(ps))
    ensures HeaderText(ll, dd, n, cl, ps, rest) == HeaderBits(|ll|, |dd|, n, cl, RunsOf(ps), rest)
  {
    hide BitsOf, PiecesMeaning, RunsExpand, RunsFit, RunsCoded, PiecesText, RunsBits, OrderText, ClBits, Used, Pow2,
      FilledUpTo, Order, RunsOf, PieceOk;
    PiecesAreRuns(cl, ps, rest, []);
    OrderTextIs(cl, n, 0, PiecesText(cl, ps, rest));
    NothingCutOff(cl, n);
  }

  // ---------- the block

  lemma {:induction false} PaddedItems(ll: seq<nat>, dd: seq<nat>, j: nat, k: nat, ts: seq<Item>, rest: seq<bool>)
    requires ItemsCoded(ll, dd, ts)
    ensures ItemsCoded(ll + Repeat(0, j), dd + Repeat(0, k), ts)
    ensures CodedItems(ll + Repeat(0, j), dd + Repeat(0, k), ts, rest) == CodedItems(ll, dd, ts, rest)
    decreases ts
  {
    hide CodedItem, ItemOk, ItemCoded, Repeat;
    var pl, pd := ll + Repeat(0, j), dd + Repeat(0, k);
    if ts != [] {
      assert ItemOk(ts[0]) && ItemCoded(ll, dd, ts[0]);
      PaddedItems(ll, dd, j, k, ts[1..], rest);
      PaddedItem(ll, dd, j, k, ts[0], CodedItems(ll, dd, ts[1..], rest));
      forall i | 0 <= i < |ts| ensures ItemOk(ts[i]) && ItemCoded(pl, pd, ts[i]) {
        if i > 0 { assert ts[i] == ts[1..][i - 1]; }
      }
    }
  }

  lemma PaddedItem(ll: seq<nat>, dd: seq<nat>, j: nat, k: nat, t: Item, rest: seq<bool>)
    requires ItemOk(t) && ItemCoded(ll, dd, t)
    ensures ItemCoded(ll + Repeat(0, j), dd + Repeat(0, k), t)
    ensures CodedItem(ll + Repeat(0, j), dd + Repeat(0, k), t, rest) == CodedItem(ll, dd, t, rest)
  {
    hide Code, BitsOf, LengthExtra, DistanceExtra, Pow2, Repeat;
    match t
    case Byte(v) => PaddingCode(ll, j, v as int);
    case Pair(lc, _, dc, _) =>
      PaddingCode(ll, j, 257 + lc);
      PaddingCode(dd, k, dc);
  }

  lemma PaddedCodes(ll: seq<nat>, dd: seq<nat>)
    requires 257 <= |ll| <= 286 && 1 <= |dd| <= 30 && Complete(ll, 15) && Complete(dd, 15) && ll[256] > 0
    ensures BlockCodes(ll + Repeat(0, 288 - |ll|), dd + Repeat(0, 32 - |dd|))
    ensures Code(ll + Repeat(0, 288 - |ll|), 256) == Code(ll, 256)
  {
    hide Used, Pow2, Code, TreeOk;
    PaddedFull(ll, 288 - |ll|);
    PaddedFull(dd, 32 - |dd|);
    PaddingCode(ll, 288 - |ll|, 256);
  }

  lemma DynamicTypeIs(s: seq<bool>, out: seq<byte>, ignoreNlen: bool, ll: seq<nat>, dd: seq<nat>, t: seq<bool>)
    requires |ll| == 288 && |dd| == 32 && DynamicTrees(s) == Got((ll, dd), t)
    ensures OneBlock(2, s, out, ignoreNlen) == Block(ll, dd, t, out)
  {
    hide DynamicTrees, Block;
  }

  lemma HeaderFacts(ll: seq<nat>, dd: seq<nat>, n: nat, cl: seq<nat>, ps: seq<Piece>)
    requires HeaderFits(ll, dd, n, cl, ps)
    ensures 257 <= |ll| <= 286 && 1 <= |dd| <= 30 && Complete(ll, 15) && Complete(dd, 15) && ll[256] > 0
    ensures 4 <= n <= 19 && |cl| == 19 && PiecesOk(cl, ps)
  {
  }

  /** A dynamic block, header and all, inflates to what its items mean, and to nothing else. */
  lemma DynamicTextInflates(final: bool, ll: seq<nat>, dd: seq<nat>, n: nat, cl: seq<nat>, ps: seq<Piece>,
                            ts: seq<Item>, rest: seq<bool>, out: seq<byte>, ignoreNlen: bool)
    requires HeaderFits(ll, dd, n, cl, ps) && ItemsCoded(ll, dd, ts)
    ensures Inflate([final, false, true] + HeaderText(ll, dd, n, cl, ps, CodedItems(ll, dd, ts, Code(ll, 256) + rest)),
      out, ignoreNlen)
      == Onward(final, Meaning(out, ts), rest, ignoreNlen)
  {
    HeaderFacts(ll, dd, n, cl, ps);
    ItemsOkOf(ll, dd, ts);
    hide *;
    var pl, pd := ll + Repeat(0, 288 - |ll|), dd + Repeat(0, 32 - |dd|);
    var items := CodedItems(ll, dd, ts, Code(ll, 256) + rest);
    var s := HeaderText(ll, dd, n, cl, ps, items);
    HeaderTextIs(ll, dd, n, cl, ps, items);
    HeaderInverts(ll, dd, n, cl, RunsOf(ps), items);
    PaddedCodes(ll, dd);
    PaddedItems(ll, dd, 288 - |ll|, 32 - |dd|, ts, Code(ll, 256) + rest);
    DynamicTypeIs(s, out, ignoreNlen, pl, pd, items);
    BlockText(pl, pd, ts, rest, out);
    BlockHeaderIs(final, false, true, s, out, ignoreNlen);
    OnwardFrom(final, OneBlock(2, s, out, ignoreNlen), Meaning(out, ts), rest, ignoreNlen);
  }

  lemma ItemsOkOf(ll: seq<nat>, dd: seq<nat>, ts: seq<Item>)
    requires ItemsCoded(ll, dd, ts)
    ensures forall i :: 0 <= i < |ts| ==> ItemOk(ts[i])
  {
  }

  lemma OnwardFrom(final: bool, m: Read<seq<byte>>, v: Read<seq<byte>>, rest: seq<bool>, ignoreNlen: bool)
    requires m == if v.Got? then Got(v.value, rest) else Malformed
    ensures Onward(final, m, if m.Got? then m.rest else [], ignoreNlen) == Onward(final, v, rest, ignoreNlen)
  {
  }
}
