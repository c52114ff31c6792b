/** Huffman trees: canonical codes from lengths, the decoding table, and symbol decoding. */
module HuffmanTrees {
  import opened Bits
  import opened BitIO
  import opened Canonical
  import opened HuffTable

  const NUM_DEFLATE_CODE_SYMBOLS: nat := 288

  /** The bits of a number in the opposite order. */
  method ReverseBits(bits: nat, num: nat) returns (result: nat)
    ensures result == Val(MsbBits(bits, num))
  {
    result := 0;
    ghost var s := MsbBits(bits, num);
    for i := 0 to num
      invariant result == Val(s[..i])
    {
      MsbBitsAt(bits, num, i);
      var bit := Shr(bits, num - i - 1) % 2;
      ValBound(s[..i]);
      OrDisjoint(result, bit, i);
      assert s[..i + 1] == s[..i] + [s[i]];
      ValConcat(s[..i], [s[i]]);
      assert Val([s[i]]) == Bit(s[i]) + 2 * Val([]);
      MulComm(bit, Pow2(i));
      result := Or(result, Shl(bit, i));
    }
    assert s[..num] == s;
  }

  class HuffmanTree {
    var codes: array<nat>
    var lengths: array<nat>
    var maxbitlen: nat
    var numcodes: nat
    var tableLen: array<nat>
    var tableValue: array<nat>

    ghost predicate HasLengths()
      reads this, lengths
    {
      && lengths.Length == numcodes <= NUM_DEFLATE_CODE_SYMBOLS
      && maxbitlen <= MAX_BITS
      && Bounded(lengths[..], maxbitlen)
    }

    ghost predicate HasCodes()
      reads this, lengths, codes
    {
      && HasLengths()
      && codes.Length == numcodes
      && forall i :: 0 <= i < numcodes && lengths[i] > 0
           ==> MsbBits(codes[i], lengths[i]) == Code(lengths[..], i)
    }

    /** The tree is ready for reading and writing. */
    ghost predicate Valid()
      reads this, lengths, codes, tableLen, tableValue
    {
      && HasCodes()
      && TableOk(lengths[..], tableLen[..], tableValue[..])
    }

    constructor ()
      ensures fresh(codes) && fresh(lengths) && fresh(tableLen) && fresh(tableValue)
    {
      codes, lengths, tableLen, tableValue := new nat[0], new nat[0], new nat[0], new nat[0];
      maxbitlen, numcodes := 0, 0;
    }

    /** For each string of 9 bits, the longest long code that begins with it. */
    method ComputeMaxLens() returns (maxlens: array<nat>)
      requires HasCodes()
      ensures fresh(maxlens) && MaxLensOk(lengths[..], maxlens[..], numcodes)
    {
      maxlens := new nat[HEAD_SIZE](_ => 0);
      ghost var lens := lengths[..];
      var i := 0;
      while i < numcodes
        invariant 0 <= i <= numcodes
        invariant MaxLensOk(lens, maxlens[..], i)
      {
        var symbol, l := codes[i], lengths[i];
        if l > FIRST_BITS {
          var index := ReverseBits(Shr(symbol, l - FIRST_BITS), FIRST_BITS);
          MsbBitsTake(symbol, l, l - FIRST_BITS);
          assert index == HeadOf(lens, i);
          MaxLensStep(lens, maxlens[..], i);
          maxlens[index] := if maxlens[index] > l then maxlens[index] else l;
        } else {
          MaxLensSkip(lens, maxlens[..], i);
        }
        i := i + 1;
      }
    }

    /** The size of both levels together. */
    static method TableSize(maxlens: array<nat>) returns (size: nat)
      requires maxlens.Length == HEAD_SIZE && forall x :: 0 <= x < maxlens.Length ==> maxlens[x] <= MAX_BITS
      ensures size == Ptr(maxlens[..], HEAD_SIZE)
    {
      size := HEAD_SIZE;
      for i := 0 to HEAD_SIZE
        invariant size == Ptr(maxlens[..], i)
      {
        var l := maxlens[i];
        if l > FIRST_BITS { size := size + Pow2(l - FIRST_BITS); }
      }
    }

    /** Head entries of long codes get the length of their longest code and point to their
        secondary tables, which follow each other after the head. */
    static method FillHeads(maxlens: array<nat>, tl: array<nat>, tv: array<nat>)
      requires maxlens.Length == HEAD_SIZE && forall x :: 0 <= x < maxlens.Length ==> maxlens[x] <= MAX_BITS
      requires tl.Length == tv.Length == Ptr(maxlens[..], HEAD_SIZE) >= HEAD_SIZE
      requires tl != tv && tl != maxlens && tv != maxlens
      requires forall p :: 0 <= p < tl.Length ==> tl[p] == UNUSED
      modifies tl, tv
      ensures forall x :: 0 <= x < HEAD_SIZE ==>
        if maxlens[x] > FIRST_BITS then tl[x] == maxlens[x] && tv[x] == Ptr(maxlens[..], x) else tl[x] == UNUSED
      ensures forall p :: HEAD_SIZE <= p < tl.Length ==> tl[p] == UNUSED
    {
      var pointer := HEAD_SIZE;
      for i := 0 to HEAD_SIZE
        invariant pointer == Ptr(maxlens[..], i)
        invariant forall x :: 0 <= x < i ==>
          if maxlens[x] > FIRST_BITS then tl[x] == maxlens[x] && tv[x] == Ptr(maxlens[..], x) else tl[x] == UNUSED
        invariant forall p :: i <= p < tl.Length ==> tl[p] == UNUSED
      {
        var l := maxlens[i];
        if l > FIRST_BITS {
          PtrBound(maxlens[..], i);
          tl[i] := l;
          tv[i] := pointer % 0x1_0000;
          pointer := pointer + Pow2(l - FIRST_BITS);
        }
      }
    }

    static method Store(tableLen: array<nat>, tableValue: array<nat>, index: nat, l: nat, i: nat)
      requires tableLen != tableValue && index < tableLen.Length == tableValue.Length && i < 0x1_0000
      modifies tableLen, tableValue
      ensures tableLen[..] == old(tableLen[..])[index := l]
      ensures tableValue[..] == old(tableValue[..])[index := i]
    {
      tableLen[index] := l;
      tableValue[index] := i % 0x1_0000;
    }

    /** A short symbol is replicated over all head entries that begin with its code. */
    static method FillShort(i: nat, l: nat, reverse: nat, tableLen: array<nat>, tableValue: array<nat>,
                            ghost lens: seq<nat>, ghost ml: seq<nat>) returns (ok: bool)
      requires i < |lens| <= NUM_DEFLATE_CODE_SYMBOLS && 0 < l == lens[i] <= FIRST_BITS
      requires reverse == Val(Code(lens, i)) && tableLen != tableValue
      requires Filled(lens, ml, tableLen[..], tableValue[..], i, i)
      modifies tableLen, tableValue
      ensures ok ==> Filled(lens, ml, tableLen[..], tableValue[..], i + 1, i + 1)
      ensures !ok ==> Clash(lens)
    {
      var num := Pow2(FIRST_BITS - l);
      ghost var tl: seq<nat>, tv: seq<nat> := tableLen[..], tableValue[..];
      BeginSymbol(lens, ml, tl, tv, i);
      NotYetOurs(lens, ml, tl, tv, i);
      var j := 0;
      while j < num
        invariant 0 <= j <= num && tl == tableLen[..] && tv == tableValue[..]
        invariant Filled(lens, ml, tl, tv, i, i + 1)
        invariant OwnsFirst(lens, ml, tl, tv, i, j) && OnlyFirst(lens, ml, tl, tv, i, j)
      {
        var index := Or(reverse, Shl(j, l));
        ShortIndex(lens, i, j);
        if tableLen[index] != UNUSED {
          HeadClash(lens, ml, tl, tv, i, index);
          return false;
        }
        ShortEntered(lens, ml, tl, tv, i, j, index);
        Store(tableLen, tableValue, index, l, i);
        tl, tv := tl[index := l], tv[index := i];
        j := j + 1;
      }
      FinishShort(lens, ml, tl, tv, i);
      return true;
    }

    /** The j-th secondary entry of a long symbol. */
    static method EnterLong(i: nat, j: nat, l: nat, reverse: nat, ghost maxlen: nat, start: nat,
                            tableLen: array<nat>, tableValue: array<nat>, ghost lens: seq<nat>, ghost ml: seq<nat>)
      requires i < |lens| <= NUM_DEFLATE_CODE_SYMBOLS && l == lens[i] > FIRST_BITS && reverse == Val(Code(lens, i))
      requires tableLen != tableValue && l <= maxlen && j < Pow2(maxlen - l)
      requires LongSoFar(lens, ml, tableLen[..], tableValue[..], i, j, maxlen, start)
      modifies tableLen, tableValue
      ensures LongSoFar(lens, ml, tableLen[..], tableValue[..], i, j + 1, maxlen, start)
    {
      var reverse2 := Shr(reverse, FIRST_BITS);
      var offset := Or(reverse2, Shl(j, l - FIRST_BITS));
      ghost var tl: seq<nat>, tv: seq<nat> := tableLen[..], tableValue[..];
      LongStep(lens, ml, tl, tv, i, j, maxlen, start, offset);
      Store(tableLen, tableValue, start + offset, l, i);
      assert tableLen[..] == tl[start + offset := lens[i]] && tableValue[..] == tv[start + offset := i];
    }

    /** A long symbol is replicated over the secondary entries that begin with the rest of its
        code. The head entry always holds a length of at least that of the symbol, so the test
        for a too short one in the source cannot fail. */
    static method FillLong(i: nat, l: nat, reverse: nat, tableLen: array<nat>, tableValue: array<nat>,
                           ghost lens: seq<nat>, ghost ml: seq<nat>)
      requires i < |lens| <= NUM_DEFLATE_CODE_SYMBOLS && l == lens[i] > FIRST_BITS
      requires reverse == Val(Code(lens, i)) && tableLen != tableValue
      requires Filled(lens, ml, tableLen[..], tableValue[..], i, i)
      modifies tableLen, tableValue
      ensures Filled(lens, ml, tableLen[..], tableValue[..], i + 1, i + 1)
    {
      var index := Low(reverse, FIRST_BITS);
      LongHead(lens, ml, tableLen[..], tableValue[..], i, reverse);
      var maxlen := tableLen[index];
      var start := tableValue[index];
      assert l <= maxlen;
      var num := Pow2(maxlen - l);
      var j := 0;
      while j < num
        invariant 0 <= j <= num
        invariant LongSoFar(lens, ml, tableLen[..], tableValue[..], i, j, maxlen, start)
      {
        EnterLong(i, j, l, reverse, maxlen, start, tableLen, tableValue, lens, ml);
        j := j + 1;
      }
      LongDone(lens, ml, tableLen[..], tableValue[..], i, maxlen, start, num);
    }

    /** Builds the table, or reports that the lengths are no code. */
    method MakeTable() returns (error: nat)
      requires HasCodes()
      modifies this
      ensures lengths == old(lengths) && codes == old(codes) && HasCodes()
      ensures fresh(tableLen) && fresh(tableValue)
      ensures error == 0 || error == 55
      ensures error == 0 ==> Valid() && ShortApart(lengths[..]) && (Present(lengths[..]) >= 2 ==> !Gap(lengths[..]))
      ensures error != 0 ==> Clash(lengths[..]) || (Present(lengths[..]) >= 2 && Gap(lengths[..]))
    {
      ghost var lens := lengths[..];
      var maxlens := ComputeMaxLens();
      ghost var ml := maxlens[..];
      MaxLensBound(lens, ml);
      var size := TableSize(maxlens);
      PtrBound(ml, HEAD_SIZE);
      tableLen := new nat[size](_ => UNUSED);
      tableValue := new nat[size](_ => 0);
      FillHeads(maxlens, tableLen, tableValue);
      NothingFilled(lens, ml, tableLen[..], tableValue[..]);
      var ok, numpresent := EnterSymbols(codes, lengths, tableLen, tableValue, lens, ml);
      if !ok { return 55; }
      FilledApart(lens, ml, tableLen[..], tableValue[..]);
      error := FinishTable(numpresent, tableLen, tableValue, lens, ml);
    }

    /** The main loop: every symbol in turn, until one clashes with an earlier one. */
    static method EnterSymbols(codes: array<nat>, lengths: array<nat>, tableLen: array<nat>, tableValue: array<nat>,
                               ghost lens: seq<nat>, ghost ml: seq<nat>) returns (ok: bool, numpresent: nat)
      requires codes.Length == lengths.Length == |lens| <= NUM_DEFLATE_CODE_SYMBOLS && lens == lengths[..]
      requires forall i :: 0 <= i < |lens| && lens[i] > 0 ==> MsbBits(codes[i], lens[i]) == Code(lens, i)
      requires tableLen != tableValue && tableLen !in {codes, lengths} && tableValue !in {codes, lengths}
      requires Filled(lens, ml, tableLen[..], tableValue[..], 0, 0)
      modifies tableLen, tableValue
      ensures ok ==> Filled(lens, ml, tableLen[..], tableValue[..], |lens|, |lens|) && numpresent == Present(lens)
      ensures !ok ==> Clash(lens)
    {
      numpresent := 0;
      var numcodes := lengths.Length;
      var i := 0;
      while i < numcodes
        invariant 0 <= i <= numcodes
        invariant Filled(lens, ml, tableLen[..], tableValue[..], i, i)
        invariant numpresent == i - Count(lens[..i], 0)
      {
        var l := lengths[i];
        assert l == lens[i];
        CountStep(lens, 0, i);
        if l == 0 {
          FinishAbsent(lens, ml, tableLen[..], tableValue[..], i);
        } else {
          var reverse := ReverseBits(codes[i], l);
          numpresent := numpresent + 1;
          if l <= FIRST_BITS {
            ok := FillShort(i, l, reverse, tableLen, tableValue, lens, ml);
            if !ok { return; }
          } else {
            FillLong(i, l, reverse, tableLen, tableValue, lens, ml);
          }
        }
        i := i + 1;
      }
      assert lens[..numcodes] == lens;
      ok := true;
    }

    /** Canonical codes from the lengths. The count of absent symbols is not cleared before the
        first codes are computed, so every first code of length b is too large by a multiple of
        2^b; the mask at the end takes that off. */
    static method CanonicalCodes(lengths: array<nat>, maxbitlen: nat) returns (codes: array<nat>)
      requires lengths.Length <= NUM_DEFLATE_CODE_SYMBOLS && maxbitlen <= MAX_BITS && Bounded(lengths[..], maxbitlen)
      ensures fresh(codes) && codes.Length == lengths.Length
      ensures forall i :: 0 <= i < codes.Length && lengths[i] > 0
                ==> MsbBits(codes[i], lengths[i]) == Code(lengths[..], i)
    {
      hide FirstCode, Code, MsbBits, Low, Count;
      ghost var lens := lengths[..];
      NoneCounted(lens);
      var numcodes := lengths.Length;
      codes := new nat[numcodes](_ => 0);
      var blcount := new nat[maxbitlen + 1](_ => 0);
      var nextcode := new nat[maxbitlen + 1](_ => 0);
      var n := 0;
      while n != numcodes
        invariant 0 <= n <= numcodes
        invariant forall b :: 0 <= b <= maxbitlen ==> blcount[b] == Count(lens[..n], b)
        invariant nextcode[0] == 0
      {
        assert lens[n] == lengths[n] <= maxbitlen;
        CountSteps(lens, n);
        blcount[lengths[n]] := blcount[lengths[n]] + 1;
        n := n + 1;
      }
      assert lens[..numcodes] == lens;
      var bits := 1;
      while bits <= maxbitlen
        invariant 1 <= bits <= maxbitlen + 1
        invariant nextcode[0] == 0
        invariant forall b :: 0 <= b <= maxbitlen ==> blcount[b] == Count(lens, b)
        invariant forall b :: 1 <= b < bits ==> nextcode[b] == FirstCode(lens, b)
      {
        FirstCodeStep(lens, bits);
        FirstCodeSmall(lens, bits);
        nextcode[bits] := ((nextcode[bits - 1] + blcount[bits - 1]) * 2) % 0x1_0000_0000;
        bits := bits + 1;
      }
      n := 0;
      while n != numcodes
        invariant 0 <= n <= numcodes
        invariant forall b :: 1 <= b <= maxbitlen ==> nextcode[b] == FirstCode(lens, b) + Count(lens[..n], b)
        invariant forall i :: 0 <= i < n && lens[i] > 0 ==> MsbBits(codes[i], lens[i]) == Code(lens, i)
      {
        CountSteps(lens, n);
        if lengths[n] != 0 {
          var l := lengths[n];
          assert l == lens[n];
          codes[n] := nextcode[l];
          nextcode[l] := nextcode[l] + 1;
          MaskedCode(lens, n, codes[n]);
          codes[n] := Low(codes[n], l);
        }
        n := n + 1;
      }
    }

    /** The second step of both ways to make a tree. */
    method MakeFromLengths2() returns (error: nat)
      requires HasLengths()
      modifies this
      ensures lengths == old(lengths) && numcodes == old(numcodes) && lengths[..] == old(lengths[..])
      ensures error == 0 || error == 55
      ensures error == 0 <==> TreeOk(lengths[..])
      ensures error == 0 ==> Valid() && Used(lengths[..], MAX_BITS) <= Pow2(MAX_BITS)
      ensures fresh(codes) && fresh(tableLen) && fresh(tableValue)
    {
      codes := CanonicalCodes(lengths, maxbitlen);
      error := MakeTable();
      VerdictIsCompleteness(lengths[..], error);
    }

    /** The tree for given code lengths; error 55 exactly if they are no code. */
    method MakeFromLengths(bitlen: array<nat>, maxbitlen: nat) returns (error: nat)
      requires bitlen.Length <= NUM_DEFLATE_CODE_SYMBOLS && maxbitlen <= MAX_BITS && Bounded(bitlen[..], maxbitlen)
      modifies this
      ensures lengths[..] == bitlen[..] == old(bitlen[..])
      ensures error == 0 || error == 55
      ensures error == 0 <==> TreeOk(bitlen[..])
      ensures error == 0 ==> Valid() && Used(lengths[..], MAX_BITS) <= Pow2(MAX_BITS)
      ensures fresh(lengths) && fresh(codes) && fresh(tableLen) && fresh(tableValue)
    {
      lengths := new nat[bitlen.Length](i requires 0 <= i < bitlen.Length reads bitlen => bitlen[i]);
      assert lengths[..] == bitlen[..];
      numcodes := bitlen.Length;
      this.maxbitlen := maxbitlen;
      error := MakeFromLengths2();
    }

    /** Decodes the next symbol. The reader must have 15 bits at hand; past the end of the stream
        these are zeros. */
    method DecodeSymbol(reader: BitReader) returns (symbol: nat)
      requires TableOk(lengths[..], tableLen[..], tableValue[..]) && reader.Valid() && reader.avail >= MAX_BITS
      modifies reader`bp, reader`buffer, reader`avail
      ensures reader.Valid()
      ensures old(reader.bp) < reader.bp <= old(reader.bp) + MAX_BITS
      ensures reader.avail == old(reader.avail) - (reader.bp - old(reader.bp))
      ensures
        || (Begins(lengths[..], symbol, old(reader.Next(MAX_BITS))) && reader.bp == old(reader.bp) + lengths[symbol])
        || (symbol == INVALID_SYMBOL && Unmatched(lengths[..], old(reader.Next(MAX_BITS))))
    {
      hide BitReader.Valid, Code, TableOk, Val, RestOf;
      ghost var w := reader.Next(MAX_BITS);
      ghost var lens, tl, tv := lengths[..], tableLen[..], tableValue[..];
      var code := reader.PeekBits(FIRST_BITS);
      assert w[..FIRST_BITS] == reader.Next(FIRST_BITS);
      ghost var p := Lookup(lens, tl, tv, w, code);
      var l := tableLen[code];
      var value := tableValue[code];
      if l <= FIRST_BITS {
        reader.AdvanceBits(l);
        return value;
      } else {
        AfterHead(reader.data, reader.bp, l, w);
        reader.AdvanceBits(FIRST_BITS);
        value := (value + reader.PeekBits(l - FIRST_BITS)) % 0x1_0000;
        assert value == p;
        var len: nat := tableLen[value];
        assert len == tl[p];
        reader.AdvanceBits(len - FIRST_BITS);
        return tableValue[value];
      }
    }

    /** With fewer than two symbols the rest of the table is marked invalid; otherwise an unused
        place is an error. */
    static method FinishTable(numpresent: nat, tableLen: array<nat>, tableValue: array<nat>,
                              ghost lens: seq<nat>, ghost ml: seq<nat>) returns (error: nat)
      requires tableLen != tableValue && |lens| <= NUM_DEFLATE_CODE_SYMBOLS
      requires Filled(lens, ml, tableLen[..], tableValue[..], |lens|, |lens|)
      modifies tableLen, tableValue
      ensures error == 0 || error == 55
      ensures error == 0 ==> TableOk(lens, tableLen[..], tableValue[..]) && (numpresent >= 2 ==> !Gap(lens))
      ensures error != 0 ==> numpresent >= 2 && Gap(lens)
    {
      ghost var tl, tv := tableLen[..], tableValue[..];
      var size := tableLen.Length;
      if numpresent < 2 {
        for i := 0 to size
          invariant forall p :: i <= p < size ==> tableLen[p] == tl[p] && tableValue[p] == tv[p]
          invariant Marked(tl[..i], tv[..i], tableLen[..i], tableValue[..i])
        {
          if tableLen[i] == UNUSED {
            tableLen[i] := if i < HEAD_SIZE then 1 else FIRST_BITS + 1;
            tableValue[i] := INVALID_SYMBOL;
          }
        }
        TableAfterMarking(lens, ml, tl, tv, tableLen[..], tableValue[..]);
      } else {
        for i := 0 to size
          invariant forall p :: 0 <= p < i ==> tl[p] != UNUSED
          invariant tableLen[..] == tl && tableValue[..] == tv
        {
          if tableLen[i] == UNUSED {
            UnusedIsGap(lens, ml, tl, tv, i);
            return 55;
          }
        }
        UsedIsNoGap(lens, ml, tl, tv);
        TableAfterMarking(lens, ml, tl, tv, tl, tv);
      }
      return 0;
    }
  }

  /** The place p in the table where the lookup of w ends, and what it finds there. */
  lemma Lookup(lens: seq<nat>, tl: seq<nat>, tv: seq<nat>, w: seq<bool>, code: nat) returns (p: nat)
    requires TableOk(lens, tl, tv) && |w| == MAX_BITS && code == Val(w[..FIRST_BITS])
    ensures p < |tl| == |tv| && code < |tl| && Finds(lens, tl[p], tv[p], w) && tl[p] <= MAX_BITS
    ensures if tl[code] <= FIRST_BITS then p == code
      else tl[code] <= MAX_BITS && tl[p] > FIRST_BITS && p == (tv[code] + Val(w[FIRST_BITS..tl[code]])) % 0x1_0000
  {
    assert LookupOk(lens, tl, tv, w);
    p := if tl[code] <= FIRST_BITS then code else tv[code] + Val(w[FIRST_BITS..tl[code]]);
  }

  lemma AfterHead(data: seq<byte>, bp: nat, l: nat, w: seq<bool>)
    requires FIRST_BITS <= l <= MAX_BITS && w == ZTake(RestOf(data, bp), MAX_BITS)
    ensures w[FIRST_BITS..l] == ZTake(RestOf(data, bp + FIRST_BITS), l - FIRST_BITS)
  {
  }

  // ---------- acceptance is completeness

  lemma FitsNoClash(lens: seq<nat>)
    requires Bounded(lens, MAX_BITS) && Used(lens, MAX_BITS) <= Pow2(MAX_BITS)
    ensures !Clash(lens)
  {
    forall i: nat, j: nat, w: seq<bool> | |w| == MAX_BITS && Begins(lens, i, w) && Begins(lens, j, w)
      ensures i == j
    {
      PrefixFree(lens, MAX_BITS, i, j, w);
    }
  }

  lemma GapIffIncomplete(lens: seq<nat>)
    requires Bounded(lens, MAX_BITS) && Used(lens, MAX_BITS) <= Pow2(MAX_BITS)
    ensures Gap(lens) <==> Used(lens, MAX_BITS) < Pow2(MAX_BITS)
  {
    if Used(lens, MAX_BITS) < Pow2(MAX_BITS) {
      forall i | 0 <= i < |lens| ensures !Begins(lens, i, Ones(MAX_BITS)) {
        IncompleteMisses(lens, MAX_BITS, i);
      }
      assert Unmatched(lens, Ones(MAX_BITS));
    } else {
      forall w: seq<bool> | |w| == MAX_BITS ensures !Unmatched(lens, w) {
        var i := CompleteDecodes(lens, MAX_BITS, w);
      }
    }
  }

  /** An oversubscribed code of at most 288 symbols has a short code that clashes. */
  lemma OversubscribedNotApart(lens: seq<nat>)
    requires Bounded(lens, MAX_BITS) && |lens| <= NUM_DEFLATE_CODE_SYMBOLS
    requires Used(lens, MAX_BITS) > Pow2(MAX_BITS)
    ensures !ShortApart(lens)
  {
    hide Used, Pow2, Code, Count, KraftSum;
    var i, j := OversubscribedClashes(lens, MAX_BITS);
    if lens[i] > FIRST_BITS { LongOnlyFits(lens, i); }
    var w := Zeros(MAX_BITS);
    assert w[..lens[i]] == Zeros(lens[i]) && w[..lens[j]] == Zeros(lens[j]);
    assert Begins(lens, i, w) && Begins(lens, j, w);
  }

  lemma LongOnlyFits(lens: seq<nat>, i: nat)
    requires |lens| <= NUM_DEFLATE_CODE_SYMBOLS && i < |lens| && FIRST_BITS < lens[i] <= MAX_BITS
    requires Used(lens, lens[i] - 1) == 0
    ensures Used(lens, MAX_BITS) <= Pow2(MAX_BITS)
  {
    forall k | 0 <= k < |lens| ensures lens[k] == 0 || lens[k] >= 10 {
      AbsentLength(lens, k);
      if 0 < lens[k] < lens[i] { CountZeroBelow(lens, lens[k], lens[i] - 1); }
    }
    KraftBound(lens, MAX_BITS, 10);
    UsedIsKraftSum(lens, MAX_BITS);
    Pow2Values();
    assert Pow2(5) == 32;
  }

  /** The verdict of the table builder, in terms of the Kraft sum alone. */
  lemma VerdictIsCompleteness(lens: seq<nat>, error: nat)
    requires Bounded(lens, MAX_BITS) && |lens| <= NUM_DEFLATE_CODE_SYMBOLS
    requires error == 0 ==> ShortApart(lens) && (Present(lens) >= 2 ==> !Gap(lens))
    requires error != 0 ==> Clash(lens) || (Present(lens) >= 2 && Gap(lens))
    ensures error == 0 <==> TreeOk(lens)
    ensures error == 0 ==> Used(lens, MAX_BITS) <= Pow2(MAX_BITS)
  {
    if Present(lens) < 2 { FewSymbolsFit(lens, MAX_BITS); }
    if Used(lens, MAX_BITS) > Pow2(MAX_BITS) {
      OversubscribedNotApart(lens);
    } else {
      FitsNoClash(lens);
      GapIffIncomplete(lens);
    }
  }

  lemma NoneCounted(lens: seq<nat>)
    ensures forall b: nat :: Count(lens[..0], b) == 0
  {
  }

  /** The first code of length b as the source computes it. */
  ghost function FirstCode(lens: seq<nat>, b: nat): nat
    requires b > 0
  {
    2 * Used(lens, b - 1) + Shl(Count(lens, 0), b)
  }

  lemma FirstCodeStep(lens: seq<nat>, b: nat)
    requires b > 0
    ensures FirstCode(lens, b) == 2 * ((if b == 1 then 0 else FirstCode(lens, b - 1)) + Count(lens, b - 1))
  {
    MulTwo(Count(lens, 0), Pow2(b - 1));
    if b == 1 { assert Pow2(1) == 2; }
  }

  lemma CountSteps(lens: seq<nat>, n: nat)
    requires n < |lens|
    ensures forall b: nat :: Count(lens[..n + 1], b) == Count(lens[..n], b) + (if lens[n] == b then 1 else 0)
  {
    forall b: nat ensures Count(lens[..n + 1], b) == Count(lens[..n], b) + (if lens[n] == b then 1 else 0) {
      CountStep(lens, b, n);
    }
  }

  /** Codes as numbers fit easily in 32 bits. */
  lemma FirstCodeSmall(lens: seq<nat>, b: nat)
    requires 0 < b <= MAX_BITS && |lens| <= NUM_DEFLATE_CODE_SYMBOLS
    ensures FirstCode(lens, b) + |lens| < 0x1_0000_0000
  {
    FirstCodeBound(lens, b);
    Pow2Mono(b, MAX_BITS);
    Pow2Values();
    MulLe(2 * |lens|, 2 * NUM_DEFLATE_CODE_SYMBOLS, Pow2(b), Pow2(MAX_BITS));
  }

  lemma {:induction false} FirstCodeBound(lens: seq<nat>, b: nat)
    requires 0 < b
    ensures FirstCode(lens, b) + 2 * |lens| <= Shl(2 * |lens|, b)
  {
    FirstCodeStep(lens, b);
    CountBound(lens, b - 1);
    assert Shl(2 * |lens|, b) == 2 * Shl(2 * |lens|, b - 1) by { MulTwo(2 * |lens|, Pow2(b - 1)); }
    if b > 1 { FirstCodeBound(lens, b - 1); } else { assert Pow2(0) == 1; }
  }

  /** Masking leaves the canonical code. */
  lemma MaskedCode(lens: seq<nat>, i: nat, code: nat)
    requires i < |lens| && lens[i] > 0
    requires code == FirstCode(lens, lens[i]) + Count(lens[..i], lens[i])
    ensures MsbBits(Low(code, lens[i]), lens[i]) == Code(lens, i)
  {
    var l := lens[i];
    LowBits(code, l);
    assert code == Position(lens, i) + Shl(Count(lens, 0), l);
    MsbPlusMultiple(Position(lens, i), Count(lens, 0), l);
  }

  lemma LowBits(x: nat, n: nat)
    ensures MsbBits(Low(x, n), n) == MsbBits(x, n)
  {
    LowPart(x, Pow2(n));
    MsbPlusMultiple(Low(x, n), x / Pow2(n), n);
  }

  lemma LowPart(x: nat, p: nat)
    requires p > 0
    ensures x / p >= 0 && x == x % p + (x / p) * p
  {
  }

  lemma {:induction false} MsbPlusMultiple(x: nat, q: nat, n: nat)
    ensures MsbBits(x + Shl(q, n), n) == MsbBits(x, n)
    decreases n
  {
    if n > 0 {
      assert Shl(q, n) == 2 * Shl(q, n - 1) by { MulTwo(q, Pow2(n - 1)); }
      MsbPlusMultiple(x / 2, q, n - 1);
    }
  }

  ghost predicate OnlyFirst(lens: seq<nat>, ml: seq<nat>, tl: seq<nat>, tv: seq<nat>, n: nat, j: nat)
    requires n < |lens| && 0 < lens[n] <= FIRST_BITS && |ml| == HEAD_SIZE && |tl| == |tv| >= HEAD_SIZE
  {
    forall x :: 0 <= x < HEAD_SIZE && ml[x] <= FIRST_BITS && tl[x] != UNUSED && tv[x] == n
      ==> Val(BitsOf(x, FIRST_BITS)[lens[n]..]) < j
  }

  lemma NotYetOurs(lens: seq<nat>, ml: seq<nat>, tl: seq<nat>, tv: seq<nat>, n: nat)
    requires n < |lens| && 0 < lens[n] <= FIRST_BITS && Filled(lens, ml, tl, tv, n, n)
    ensures OnlyFirst(lens, ml, tl, tv, n, 0)
  {
    forall x | 0 <= x < HEAD_SIZE && ml[x] <= FIRST_BITS && tl[x] != UNUSED
      ensures tv[x] != n
    {
      assert IsSlot(ml, x, 0) && SlotOk(lens, ml, tl, tv, n, n, x, 0);
    }
  }

  lemma ShortIndex(lens: seq<nat>, i: nat, j: nat)
    requires i < |lens| && 0 < lens[i] <= FIRST_BITS && j < Pow2(FIRST_BITS - lens[i])
    ensures var x := Or(Val(Code(lens, i)), Shl(j, lens[i]));
      && x < HEAD_SIZE
      && Begins(lens, i, BitsOf(x, FIRST_BITS))
      && Val(BitsOf(x, FIRST_BITS)[lens[i]..]) == j
  {
    var c := Code(lens, i);
    IndexOf(c, j, FIRST_BITS);
    assert Pow2(FIRST_BITS) == HEAD_SIZE;
    var s := BitsOf(Or(Val(c), Shl(j, lens[i])), FIRST_BITS);
    assert s[..lens[i]] == c && s[lens[i]..] == BitsOf(j, FIRST_BITS - lens[i]);
    ValBitsOf(j, FIRST_BITS - lens[i]);
  }

  lemma ShortEntered(lens: seq<nat>, ml: seq<nat>, tl: seq<nat>, tv: seq<nat>, n: nat, j: nat, x: nat)
    requires n < |lens| && 0 < lens[n] <= FIRST_BITS && Filled(lens, ml, tl, tv, n, n + 1)
    requires OwnsFirst(lens, ml, tl, tv, n, j) && OnlyFirst(lens, ml, tl, tv, n, j)
    requires x < HEAD_SIZE && Begins(lens, n, BitsOf(x, FIRST_BITS)) && tl[x] == UNUSED
    requires Val(BitsOf(x, FIRST_BITS)[lens[n]..]) == j
    ensures var tl', tv' := tl[x := lens[n]], tv[x := n];
      && Filled(lens, ml, tl', tv', n, n + 1)
      && OwnsFirst(lens, ml, tl', tv', n, j + 1) && OnlyFirst(lens, ml, tl', tv', n, j + 1)
  {
    MaxLensBound(lens, ml);
    assert ml[x] <= FIRST_BITS;
    assert IsSlot(ml, x, 0) && SlotAt(ml, x, 0) == x;
    assert SlotStr(ml, x, 0) == BitsOf(x, FIRST_BITS);
    EnterSlot(lens, ml, tl, tv, n, x, 0);
    OwnsStep(lens, ml, tl, tv, n, j, x);
  }

  lemma LongHead(lens: seq<nat>, ml: seq<nat>, tl: seq<nat>, tv: seq<nat>, i: nat, reverse: nat)
    requires i < |lens| && lens[i] > FIRST_BITS && Filled(lens, ml, tl, tv, i, i)
    requires reverse == Val(Code(lens, i))
    ensures var x := Low(reverse, FIRST_BITS); x < |tl| && LongSoFar(lens, ml, tl, tv, i, 0, tl[x], tv[x])
  {
    ValSplit(Code(lens, i), FIRST_BITS);
    MaxLensBound(lens, ml);
    BeginSymbol(lens, ml, tl, tv, i);
  }

  lemma LongIndex(lens: seq<nat>, ml: seq<nat>, i: nat, j: nat, reverse: nat)
    requires i < |lens| && lens[i] > FIRST_BITS && MaxLensOk(lens, ml, |lens|) && Bounded(lens, MAX_BITS)
    requires reverse == Val(Code(lens, i)) && j < Pow2(ml[HeadOf(lens, i)] - lens[i])
    requires lens[i] <= ml[HeadOf(lens, i)]
    ensures var x, k := HeadOf(lens, i), Or(Shr(reverse, FIRST_BITS), Shl(j, lens[i] - FIRST_BITS));
      && IsSlot(ml, x, k) && Begins(lens, i, SlotStr(ml, x, k))
      && Val(SlotStr(ml, x, k)[lens[i]..]) == j
      && SlotAt(ml, x, k) < Ptr(ml, HEAD_SIZE)
  {
    var x, k := HeadOf(lens, i), Or(Shr(reverse, FIRST_BITS), Shl(j, lens[i] - FIRST_BITS));
    var c, m := Code(lens, i)[FIRST_BITS..], ml[HeadOf(lens, i)] - FIRST_BITS;
    ValSplit(Code(lens, i), FIRST_BITS);
    IndexOf(c, j, m);
    SecondaryPart(lens, ml, i, k);
    var s := BitsOf(k, m);
    assert s[..|c|] == c && s[|c|..] == BitsOf(j, m - |c|);
    ValBitsOf(j, m - |c|);
    MaxLensBound(lens, ml);
    SlotInTable(ml, x, k);
  }

  lemma LongEntered(lens: seq<nat>, ml: seq<nat>, tl: seq<nat>, tv: seq<nat>, n: nat, j: nat, k: nat)
    requires n < |lens| && lens[n] > FIRST_BITS && Filled(lens, ml, tl, tv, n, n + 1) && UsedFirst(lens, ml, tl, n, j)
    requires var x := HeadOf(lens, n);
      && lens[n] <= ml[x] && IsSlot(ml, x, k) && Begins(lens, n, SlotStr(ml, x, k))
      && Val(SlotStr(ml, x, k)[lens[n]..]) == j && SlotAt(ml, x, k) < |tl|
    ensures var p := SlotAt(ml, HeadOf(lens, n), k);
      && Filled(lens, ml, tl[p := lens[n]], tv[p := n], n, n + 1)
      && UsedFirst(lens, ml, tl[p := lens[n]], n, j + 1)
  {
    EnterSlot(lens, ml, tl, tv, n, HeadOf(lens, n), k);
    UsedStep(lens, ml, tl, n, j, k, lens[n]);
  }

  /** The head entry of a long symbol: its length and where its secondary table starts. */
  ghost predicate LongAt(lens: seq<nat>, ml: seq<nat>, i: nat, maxlen: nat, start: nat) {
    && i < |lens| && lens[i] > FIRST_BITS && |ml| == HEAD_SIZE
    && lens[i] <= maxlen == ml[HeadOf(lens, i)] && start == Ptr(ml, HeadOf(lens, i))
  }

  /** The first j secondary entries of long symbol n are entered. */
  ghost predicate LongSoFar(lens: seq<nat>, ml: seq<nat>, tl: seq<nat>, tv: seq<nat>, n: nat, j: nat, maxlen: nat,
                            start: nat) {
    && LongAt(lens, ml, n, maxlen, start)
    && Filled(lens, ml, tl, tv, n, n + 1)
    && UsedFirst(lens, ml, tl, n, j)
  }

  lemma LongDone(lens: seq<nat>, ml: seq<nat>, tl: seq<nat>, tv: seq<nat>, n: nat, maxlen: nat, start: nat, num: nat)
    requires LongSoFar(lens, ml, tl, tv, n, num, maxlen, start) && num == Pow2(maxlen - lens[n])
    ensures Filled(lens, ml, tl, tv, n + 1, n + 1)
  {
    hide Filled, UsedFirst;
    FinishLong(lens, ml, tl, tv, n);
  }

  lemma LongReady(lens: seq<nat>, ml: seq<nat>, tl: seq<nat>, tv: seq<nat>, n: nat, j: nat, maxlen: nat, start: nat)
    requires LongSoFar(lens, ml, tl, tv, n, j, maxlen, start)
    ensures MaxLensOk(lens, ml, |lens|) && Bounded(lens, MAX_BITS) && |tl| == |tv| == Ptr(ml, HEAD_SIZE)
  {
  }

  lemma LongStep(lens: seq<nat>, ml: seq<nat>, tl: seq<nat>, tv: seq<nat>,
                 n: nat, j: nat, maxlen: nat, start: nat, offset: nat)
    requires LongSoFar(lens, ml, tl, tv, n, j, maxlen, start) && j < Pow2(maxlen - lens[n])
    requires offset == Or(Shr(Val(Code(lens, n)), FIRST_BITS), Shl(j, lens[n] - FIRST_BITS))
    ensures start + offset < |tl|
    ensures LongSoFar(lens, ml, tl[start + offset := lens[n]], tv[start + offset := n], n, j + 1, maxlen, start)
  {
    hide Val, Code, Filled, UsedFirst, Begins, Or, Shr, Shl, Pow2, MaxLensOk, SlotStr;
    LongReady(lens, ml, tl, tv, n, j, maxlen, start);
    LongIndex(lens, ml, n, j, Val(Code(lens, n)));
    assert start + offset == SlotAt(ml, HeadOf(lens, n), offset);
    LongEntered(lens, ml, tl, tv, n, j, offset);
  }

  lemma MaxLensStep(lens: seq<nat>, ml: seq<nat>, n: nat)
    requires n < |lens| && lens[n] > FIRST_BITS && MaxLensOk(lens, ml, n)
    ensures var x := HeadOf(lens, n);
      MaxLensOk(lens, ml[x := if ml[x] > lens[n] then ml[x] else lens[n]], n + 1)
  {
    var x := HeadOf(lens, n);
    var ml' := ml[x := if ml[x] > lens[n] then ml[x] else lens[n]];
    forall y | 0 <= y < HEAD_SIZE && ml'[y] != 0
      ensures LongestAt(lens, n + 1, y, ml'[y])
    {
      if y != x || ml[x] > lens[n] {
        assert LongestAt(lens, n, y, ml[y]);
      } else {
        assert lens[n] == ml'[y] && HeadOf(lens, n) == y;
      }
    }
  }

  lemma MaxLensSkip(lens: seq<nat>, ml: seq<nat>, n: nat)
    requires n < |lens| && lens[n] <= FIRST_BITS && MaxLensOk(lens, ml, n)
    ensures MaxLensOk(lens, ml, n + 1)
  {
    forall y | 0 <= y < HEAD_SIZE && ml[y] != 0
      ensures LongestAt(lens, n + 1, y, ml[y])
    {
      assert LongestAt(lens, n, y, ml[y]);
    }
  }
}
