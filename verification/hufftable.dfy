/** The two-level decoding table, as numbers and sequences.

    The head of the table has one entry for every string of 9 bits. If some code longer than 9
    bits begins with that string, the entry points to a secondary table for the bits that follow;
    otherwise it is itself the place of the symbol. */
module HuffTable {
  import opened Bits
  import opened Canonical

  const MAX_BITS: nat := 15
  const FIRST_BITS: nat := 9
  const HEAD_SIZE: nat := 512
  const UNUSED: nat := 16
  const INVALID_SYMBOL: nat := 65535

  /** ml[x] is the length of the longest long code whose first 9 bits are x, or 0. */
  ghost predicate MaxLensOk(lens: seq<nat>, ml: seq<nat>, n: nat) {
    && |ml| == HEAD_SIZE && n <= |lens|
    && (forall x {:trigger LongestAt(lens, n, x, ml[x])} :: 0 <= x < HEAD_SIZE && ml[x] != 0 ==>
      LongestAt(lens, n, x, ml[x]))
    && (forall i :: 0 <= i < n && lens[i] > FIRST_BITS ==> lens[i] <= ml[HeadOf(lens, i)])
  }

  ghost predicate LongestAt(lens: seq<nat>, n: nat, x: nat, l: nat) {
    exists i :: 0 <= i < n && i < |lens| && lens[i] == l && l > FIRST_BITS && HeadOf(lens, i) == x
  }

  /** The head entry under which a long code falls. */
  ghost function HeadOf(lens: seq<nat>, i: nat): (x: nat)
    requires i < |lens| && lens[i] > FIRST_BITS
    ensures x < HEAD_SIZE && BitsOf(x, FIRST_BITS) == Code(lens, i)[..FIRST_BITS]
  {
    var s := Code(lens, i)[..FIRST_BITS];
    ValBound(s);
    BitsOfVal(s);
    assert Pow2(FIRST_BITS) == HEAD_SIZE;
    Val(s)
  }

  function Secondary(l: nat): nat {
    if l > FIRST_BITS then Pow2(l - FIRST_BITS) else 0
  }

  /** Where the secondary table of head entry x starts. */
  function Ptr(ml: seq<nat>, x: nat): nat
    requires x <= |ml|
  {
    if x == 0 then HEAD_SIZE else Ptr(ml, x - 1) + Secondary(ml[x - 1])
  }

  lemma {:induction false} PtrMono(ml: seq<nat>, x: nat, y: nat)
    requires x < y <= |ml|
    ensures Ptr(ml, x) + Secondary(ml[x]) <= Ptr(ml, y)
    decreases y
  {
    if x < y - 1 { PtrMono(ml, x, y - 1); }
  }

  /** Pointers fit in 16 bits. */
  lemma {:induction false} PtrBound(ml: seq<nat>, x: nat)
    requires x <= |ml| && forall y :: 0 <= y < |ml| ==> ml[y] <= MAX_BITS
    ensures HEAD_SIZE <= Ptr(ml, x) <= HEAD_SIZE + 64 * x
  {
    if x > 0 {
      PtrBound(ml, x - 1);
      if ml[x - 1] > FIRST_BITS { Pow2Mono(ml[x - 1] - FIRST_BITS, 6); }
      assert Pow2(6) == 64;
    }
  }

  // ---------- the places for symbols

  ghost predicate IsSlot(ml: seq<nat>, x: nat, k: nat) {
    x < |ml| && k < (if ml[x] > FIRST_BITS then Secondary(ml[x]) else 1)
  }

  /** The k-th place under head entry x. */
  ghost function SlotAt(ml: seq<nat>, x: nat, k: nat): nat
    requires IsSlot(ml, x, k)
  {
    if ml[x] > FIRST_BITS then Ptr(ml, x) + k else x
  }

  /** The bits that lead to this place. */
  ghost function SlotStr(ml: seq<nat>, x: nat, k: nat): (s: seq<bool>)
    requires IsSlot(ml, x, k)
    ensures |s| == if ml[x] > FIRST_BITS then ml[x] else FIRST_BITS
  {
    BitsOf(x, FIRST_BITS) + (if ml[x] > FIRST_BITS then BitsOf(k, ml[x] - FIRST_BITS) else [])
  }

  lemma SlotsApart(ml: seq<nat>, x: nat, k: nat, y: nat, j: nat)
    requires |ml| == HEAD_SIZE && forall z :: 0 <= z < |ml| ==> ml[z] <= MAX_BITS
    requires IsSlot(ml, x, k) && IsSlot(ml, y, j)
    requires SlotAt(ml, x, k) == SlotAt(ml, y, j)
    ensures x == y && k == j
  {
    PtrBound(ml, x);
    PtrBound(ml, y);
    if x < y { PtrMono(ml, x, y); } else if y < x { PtrMono(ml, y, x); }
  }

  lemma SlotInTable(ml: seq<nat>, x: nat, k: nat)
    requires |ml| == HEAD_SIZE && IsSlot(ml, x, k) && forall z :: 0 <= z < |ml| ==> ml[z] <= MAX_BITS
    ensures SlotAt(ml, x, k) < Ptr(ml, HEAD_SIZE)
  {
    PtrBound(ml, HEAD_SIZE);
    PtrMono(ml, x, HEAD_SIZE);
  }

  // ---------- the state of the table while symbols are entered

  /** A used place holds a symbol below `top` whose code leads there; an unused one is led to by
      no code of the first n symbols. */
  ghost predicate SlotOk(lens: seq<nat>, ml: seq<nat>, tl: seq<nat>, tv: seq<nat>, n: nat, top: nat, x: nat, k: nat)
    requires IsSlot(ml, x, k)
  {
    var p, s := SlotAt(ml, x, k), SlotStr(ml, x, k);
    && p < |tl| == |tv|
    && (tl[p] == UNUSED ==> forall i :: 0 <= i < n ==> !Begins(lens, i, s))
    && (tl[p] != UNUSED ==>
      tv[p] < top && Begins(lens, tv[p], s) && tl[p] == lens[tv[p]] && (ml[x] > FIRST_BITS ==> tl[p] > FIRST_BITS))
  }

  /** Short symbol i owns every head entry its code leads to. */
  ghost predicate Owns(lens: seq<nat>, ml: seq<nat>, tl: seq<nat>, tv: seq<nat>, i: nat)
    requires i < |lens| && |ml| == HEAD_SIZE && |tl| == |tv| >= HEAD_SIZE
  {
    forall x :: 0 <= x < HEAD_SIZE && Begins(lens, i, BitsOf(x, FIRST_BITS))
      ==> ml[x] <= FIRST_BITS && tl[x] == lens[i] && tv[x] == i
  }

  ghost predicate Table(lens: seq<nat>, ml: seq<nat>, tl: seq<nat>, tv: seq<nat>) {
    && Bounded(lens, MAX_BITS)
    && MaxLensOk(lens, ml, |lens|)
    && |tl| == |tv| == Ptr(ml, HEAD_SIZE) && |tl| >= HEAD_SIZE
    && forall x :: 0 <= x < HEAD_SIZE && ml[x] > FIRST_BITS ==> tl[x] == ml[x] && tv[x] == Ptr(ml, x)
  }

  ghost predicate Filled(lens: seq<nat>, ml: seq<nat>, tl: seq<nat>, tv: seq<nat>, n: nat, top: nat) {
    && n <= |lens|
    && Table(lens, ml, tl, tv)
    && (forall x, k :: IsSlot(ml, x, k) ==> SlotOk(lens, ml, tl, tv, n, top, x, k))
    && (forall i :: 0 <= i < n && 0 < lens[i] <= FIRST_BITS ==> Owns(lens, ml, tl, tv, i))
  }

  /** The first j head entries of short symbol n are entered. */
  ghost predicate OwnsFirst(lens: seq<nat>, ml: seq<nat>, tl: seq<nat>, tv: seq<nat>, n: nat, j: nat)
    requires n < |lens| && 0 < lens[n] <= FIRST_BITS && |ml| == HEAD_SIZE && |tl| == |tv| >= HEAD_SIZE
  {
    forall x :: 0 <= x < HEAD_SIZE && Begins(lens, n, BitsOf(x, FIRST_BITS))
        && Val(BitsOf(x, FIRST_BITS)[lens[n]..]) < j
      ==> ml[x] <= FIRST_BITS && tl[x] == lens[n] && tv[x] == n
  }

  /** The first j secondary entries of long symbol n are used. */
  ghost predicate UsedFirst(lens: seq<nat>, ml: seq<nat>, tl: seq<nat>, n: nat, j: nat)
    requires n < |lens| && lens[n] > FIRST_BITS && |ml| == HEAD_SIZE
  {
    var x := HeadOf(lens, n);
    forall k :: IsSlot(ml, x, k) && lens[n] <= ml[x] && Begins(lens, n, SlotStr(ml, x, k))
        && Val(SlotStr(ml, x, k)[lens[n]..]) < j && SlotAt(ml, x, k) < |tl|
      ==> tl[SlotAt(ml, x, k)] != UNUSED
  }

  lemma MaxLensBound(lens: seq<nat>, ml: seq<nat>)
    requires Bounded(lens, MAX_BITS) && MaxLensOk(lens, ml, |lens|)
    ensures forall z :: 0 <= z < |ml| ==> ml[z] <= MAX_BITS
  {
    forall z | 0 <= z < |ml| && ml[z] != 0 ensures ml[z] <= MAX_BITS {
      assert LongestAt(lens, |lens|, z, ml[z]);
    }
  }

  /** Entering symbol n in one of its places keeps everything else. */
  lemma EnterSlot(lens: seq<nat>, ml: seq<nat>, tl: seq<nat>, tv: seq<nat>, n: nat, x: nat, k: nat)
    requires n < |lens| && Filled(lens, ml, tl, tv, n, n + 1)
    requires IsSlot(ml, x, k) && Begins(lens, n, SlotStr(ml, x, k)) && SlotAt(ml, x, k) < |tl|
    requires ml[x] > FIRST_BITS ==> lens[n] > FIRST_BITS
    requires ml[x] <= FIRST_BITS ==> tl[x] == UNUSED
    ensures var p := SlotAt(ml, x, k); Filled(lens, ml, tl[p := lens[n]], tv[p := n], n, n + 1)
  {
    var p := SlotAt(ml, x, k);
    var tl', tv' := tl[p := lens[n]], tv[p := n];
    MaxLensBound(lens, ml);
    EnterKeepsTable(lens, ml, tl, tv, n, x, k);
    forall y, j | IsSlot(ml, y, j)
      ensures SlotOk(lens, ml, tl', tv', n, n + 1, y, j)
    {
      EnterKeepsSlot(lens, ml, tl, tv, n, x, k, y, j);
    }
  }

  lemma EnterKeepsTable(lens: seq<nat>, ml: seq<nat>, tl: seq<nat>, tv: seq<nat>, n: nat, x: nat, k: nat)
    requires n < |lens| && Table(lens, ml, tl, tv) && IsSlot(ml, x, k) && SlotAt(ml, x, k) < |tl|
    requires ml[x] <= FIRST_BITS ==> tl[x] == UNUSED
    ensures var p := SlotAt(ml, x, k);
      && Table(lens, ml, tl[p := lens[n]], tv[p := n])
      && forall i :: 0 <= i < n && 0 < lens[i] <= FIRST_BITS && Owns(lens, ml, tl, tv, i)
           ==> Owns(lens, ml, tl[p := lens[n]], tv[p := n], i)
  {
    MaxLensBound(lens, ml);
    PtrBound(ml, x);
  }

  lemma EnterKeepsSlot(lens: seq<nat>, ml: seq<nat>, tl: seq<nat>, tv: seq<nat>, n: nat, x: nat, k: nat, y: nat, j: nat)
    requires n < |lens| && Bounded(lens, MAX_BITS) && |ml| == HEAD_SIZE
    requires forall z :: 0 <= z < |ml| ==> ml[z] <= MAX_BITS
    requires IsSlot(ml, x, k) && Begins(lens, n, SlotStr(ml, x, k)) && SlotAt(ml, x, k) < |tl| == |tv|
    requires ml[x] > FIRST_BITS ==> lens[n] > FIRST_BITS
    requires IsSlot(ml, y, j) && SlotOk(lens, ml, tl, tv, n, n + 1, y, j)
    ensures var p := SlotAt(ml, x, k); SlotOk(lens, ml, tl[p := lens[n]], tv[p := n], n, n + 1, y, j)
  {
    if SlotAt(ml, y, j) == SlotAt(ml, x, k) { SlotsApart(ml, x, k, y, j); }
  }

  /** The j-th string of n bits that begins with c has number c | (j << |c|). */
  lemma IndexOf(c: seq<bool>, j: nat, n: nat)
    requires |c| <= n && j < Pow2(n - |c|)
    ensures Or(Val(c), Shl(j, |c|)) < Pow2(n)
    ensures BitsOf(Or(Val(c), Shl(j, |c|)), n) == c + BitsOf(j, n - |c|)
  {
    var t := BitsOf(j, n - |c|);
    ValBitsOf(j, n - |c|);
    ValConcat(c, t);
    ValBound(c);
    OrDisjoint(Val(c), j, |c|);
    MulComm(j, Pow2(|c|));
    ValBound(c + t);
    BitsOfVal(c + t);
  }

  lemma IndexUnique(c: seq<bool>, x: nat, y: nat, n: nat)
    requires |c| <= n && x < Pow2(n) && y < Pow2(n)
    requires BitsOf(x, n)[..|c|] == c == BitsOf(y, n)[..|c|]
    requires Val(BitsOf(x, n)[|c|..]) == Val(BitsOf(y, n)[|c|..])
    ensures x == y
  {
    ValInjective(BitsOf(x, n)[|c|..], BitsOf(y, n)[|c|..]);
    assert BitsOf(x, n) == c + BitsOf(x, n)[|c|..];
    assert BitsOf(y, n) == c + BitsOf(y, n)[|c|..];
    ValBitsOf(x, n);
    ValBitsOf(y, n);
  }

  lemma OwnsStep(lens: seq<nat>, ml: seq<nat>, tl: seq<nat>, tv: seq<nat>, n: nat, j: nat, x: nat)
    requires n < |lens| && 0 < lens[n] <= FIRST_BITS && |ml| == HEAD_SIZE && |tl| == |tv| >= HEAD_SIZE
    requires OwnsFirst(lens, ml, tl, tv, n, j)
    requires x < HEAD_SIZE && ml[x] <= FIRST_BITS && Begins(lens, n, BitsOf(x, FIRST_BITS))
    requires Val(BitsOf(x, FIRST_BITS)[lens[n]..]) == j
    ensures OwnsFirst(lens, ml, tl[x := lens[n]], tv[x := n], n, j + 1)
  {
    assert Pow2(FIRST_BITS) == HEAD_SIZE;
    forall y | 0 <= y < HEAD_SIZE && Begins(lens, n, BitsOf(y, FIRST_BITS))
        && Val(BitsOf(y, FIRST_BITS)[lens[n]..]) < j + 1
      ensures ml[y] <= FIRST_BITS && tl[x := lens[n]][y] == lens[n] && tv[x := n][y] == n
    {
      if Val(BitsOf(y, FIRST_BITS)[lens[n]..]) == j {
        IndexUnique(Code(lens, n), x, y, FIRST_BITS);
      }
    }
  }

  lemma UsedStep(lens: seq<nat>, ml: seq<nat>, tl: seq<nat>, n: nat, j: nat, k: nat, v: nat)
    requires n < |lens| && lens[n] > FIRST_BITS && |ml| == HEAD_SIZE && UsedFirst(lens, ml, tl, n, j)
    requires var x := HeadOf(lens, n);
      && lens[n] <= ml[x] && IsSlot(ml, x, k) && Begins(lens, n, SlotStr(ml, x, k))
      && Val(SlotStr(ml, x, k)[lens[n]..]) == j && SlotAt(ml, x, k) < |tl|
    requires v != UNUSED
    ensures UsedFirst(lens, ml, tl[SlotAt(ml, HeadOf(lens, n), k) := v], n, j + 1)
  {
    var x := HeadOf(lens, n);
    forall y | IsSlot(ml, x, y) && Begins(lens, n, SlotStr(ml, x, y))
        && Val(SlotStr(ml, x, y)[lens[n]..]) == j
      ensures y == k
    {
      SameSecondary(lens, ml, n, y, k);
    }
  }

  lemma SameSecondary(lens: seq<nat>, ml: seq<nat>, n: nat, y: nat, k: nat)
    requires n < |lens| && lens[n] > FIRST_BITS && |ml| == HEAD_SIZE && lens[n] <= ml[HeadOf(lens, n)]
    requires var x := HeadOf(lens, n);
      && IsSlot(ml, x, y) && IsSlot(ml, x, k)
      && Begins(lens, n, SlotStr(ml, x, y)) && Begins(lens, n, SlotStr(ml, x, k))
      && Val(SlotStr(ml, x, y)[lens[n]..]) == Val(SlotStr(ml, x, k)[lens[n]..])
    ensures y == k
  {
    SecondaryPart(lens, ml, n, y);
    SecondaryPart(lens, ml, n, k);
    IndexUnique(Code(lens, n)[FIRST_BITS..], y, k, ml[HeadOf(lens, n)] - FIRST_BITS);
  }

  lemma SecondaryPart(lens: seq<nat>, ml: seq<nat>, n: nat, k: nat)
    requires n < |lens| && lens[n] > FIRST_BITS && |ml| == HEAD_SIZE
    requires lens[n] <= ml[HeadOf(lens, n)] && IsSlot(ml, HeadOf(lens, n), k)
    ensures var x := HeadOf(lens, n);
      var c, t, s := Code(lens, n)[FIRST_BITS..], BitsOf(k, ml[x] - FIRST_BITS), SlotStr(ml, x, k);
      && (Begins(lens, n, s) <==> t[..|c|] == c)
      && s[lens[n]..] == t[|c|..]
  {
    hide Pow2, Used, MsbBits, Position, Val;
    var x := HeadOf(lens, n);
    var c, t, s := Code(lens, n)[FIRST_BITS..], BitsOf(k, ml[x] - FIRST_BITS), SlotStr(ml, x, k);
    assert s[..lens[n]] == BitsOf(x, FIRST_BITS) + t[..|c|];
    assert Code(lens, n) == BitsOf(x, FIRST_BITS) + c;
    assert t[..|c|] == s[..lens[n]][FIRST_BITS..];
  }

  /** All entries of short symbol n are in place. */
  lemma FinishShort(lens: seq<nat>, ml: seq<nat>, tl: seq<nat>, tv: seq<nat>, n: nat)
    requires n < |lens| && 0 < lens[n] <= FIRST_BITS && Filled(lens, ml, tl, tv, n, n + 1)
    requires OwnsFirst(lens, ml, tl, tv, n, Pow2(FIRST_BITS - lens[n]))
    ensures Filled(lens, ml, tl, tv, n + 1, n + 1)
  {
    OwnsAll(lens, ml, tl, tv, n);
    forall x, k | IsSlot(ml, x, k)
      ensures SlotOk(lens, ml, tl, tv, n + 1, n + 1, x, k)
    {
      FinishShortSlot(lens, ml, tl, tv, n, x, k);
    }
  }

  lemma OwnsAll(lens: seq<nat>, ml: seq<nat>, tl: seq<nat>, tv: seq<nat>, n: nat)
    requires n < |lens| && 0 < lens[n] <= FIRST_BITS && |ml| == HEAD_SIZE && |tl| == |tv| >= HEAD_SIZE
    requires OwnsFirst(lens, ml, tl, tv, n, Pow2(FIRST_BITS - lens[n]))
    ensures Owns(lens, ml, tl, tv, n)
  {
    forall x | 0 <= x < HEAD_SIZE && Begins(lens, n, BitsOf(x, FIRST_BITS))
      ensures ml[x] <= FIRST_BITS && tl[x] == lens[n] && tv[x] == n
    {
      ValBound(BitsOf(x, FIRST_BITS)[lens[n]..]);
    }
  }

  lemma FinishShortSlot(lens: seq<nat>, ml: seq<nat>, tl: seq<nat>, tv: seq<nat>, n: nat, x: nat, k: nat)
    requires n < |lens| && 0 < lens[n] <= FIRST_BITS && |ml| == HEAD_SIZE && |tl| == |tv| >= HEAD_SIZE
    requires Owns(lens, ml, tl, tv, n) && Bounded(lens, MAX_BITS)
    requires IsSlot(ml, x, k) && SlotOk(lens, ml, tl, tv, n, n + 1, x, k)
    ensures SlotOk(lens, ml, tl, tv, n + 1, n + 1, x, k)
  {
    if Begins(lens, n, SlotStr(ml, x, k)) {
      assert BitsOf(x, FIRST_BITS)[..lens[n]] == SlotStr(ml, x, k)[..lens[n]];
      assert Begins(lens, n, BitsOf(x, FIRST_BITS));
    }
  }

  /** All entries of long symbol n are in place. */
  lemma FinishLong(lens: seq<nat>, ml: seq<nat>, tl: seq<nat>, tv: seq<nat>, n: nat)
    requires n < |lens| && lens[n] > FIRST_BITS && Filled(lens, ml, tl, tv, n, n + 1)
    requires UsedFirst(lens, ml, tl, n, Pow2(ml[HeadOf(lens, n)] - lens[n]))
    ensures Filled(lens, ml, tl, tv, n + 1, n + 1)
  {
    MaxLensBound(lens, ml);
    forall x, k | IsSlot(ml, x, k)
      ensures SlotOk(lens, ml, tl, tv, n + 1, n + 1, x, k)
    {
      assert SlotOk(lens, ml, tl, tv, n, n + 1, x, k);
      if Begins(lens, n, SlotStr(ml, x, k)) {
        HeadIs(lens, ml, n, x, k);
        SlotInTable(ml, x, k);
        ValBound(SlotStr(ml, x, k)[lens[n]..]);
      }
    }
  }

  lemma HeadIs(lens: seq<nat>, ml: seq<nat>, n: nat, x: nat, k: nat)
    requires n < |lens| && lens[n] > FIRST_BITS && |ml| == HEAD_SIZE
    requires IsSlot(ml, x, k) && Begins(lens, n, SlotStr(ml, x, k))
    ensures x == HeadOf(lens, n)
  {
    assert BitsOf(x, FIRST_BITS) == SlotStr(ml, x, k)[..lens[n]][..FIRST_BITS];
    assert Pow2(FIRST_BITS) == HEAD_SIZE;
    ValBitsOf(x, FIRST_BITS);
    ValBitsOf(HeadOf(lens, n), FIRST_BITS);
  }

  lemma FinishAbsent(lens: seq<nat>, ml: seq<nat>, tl: seq<nat>, tv: seq<nat>, n: nat)
    requires n < |lens| && lens[n] == 0 && Filled(lens, ml, tl, tv, n, n)
    ensures Filled(lens, ml, tl, tv, n + 1, n + 1)
  {
    forall x, k | IsSlot(ml, x, k)
      ensures SlotOk(lens, ml, tl, tv, n + 1, n + 1, x, k)
    {
      assert SlotOk(lens, ml, tl, tv, n, n, x, k);
    }
  }

  /** Starting on symbol n. */
  lemma BeginSymbol(lens: seq<nat>, ml: seq<nat>, tl: seq<nat>, tv: seq<nat>, n: nat)
    requires n < |lens| && Filled(lens, ml, tl, tv, n, n)
    ensures Filled(lens, ml, tl, tv, n, n + 1)
  {
    forall x, k | IsSlot(ml, x, k)
      ensures SlotOk(lens, ml, tl, tv, n, n + 1, x, k)
    {
      assert SlotOk(lens, ml, tl, tv, n, n, x, k);
    }
  }

  /** The empty table. */
  lemma NothingFilled(lens: seq<nat>, ml: seq<nat>, tl: seq<nat>, tv: seq<nat>)
    requires Table(lens, ml, tl, tv)
    requires forall x :: 0 <= x < HEAD_SIZE && ml[x] <= FIRST_BITS ==> tl[x] == UNUSED
    requires forall p :: HEAD_SIZE <= p < |tl| ==> tl[p] == UNUSED
    ensures Filled(lens, ml, tl, tv, 0, 0)
  {
    MaxLensBound(lens, ml);
    forall x, k | IsSlot(ml, x, k)
      ensures SlotOk(lens, ml, tl, tv, 0, 0, x, k)
    {
      SlotInTable(ml, x, k);
      PtrBound(ml, x);
    }
  }

  // ---------- what a finished table means

  /** Two symbols whose codes begin the same bits. */
  ghost predicate Clash(lens: seq<nat>) {
    exists i: nat, j: nat, w: seq<bool> {:trigger Begins(lens, i, w), Begins(lens, j, w)} :: |w| == MAX_BITS && i != j
      && Begins(lens, i, w) && Begins(lens, j, w)
  }

  /** No code begins these bits. */
  ghost predicate Unmatched(lens: seq<nat>, w: seq<bool>) {
    forall i :: 0 <= i < |lens| ==> !Begins(lens, i, w)
  }

  ghost predicate Gap(lens: seq<nat>) {
    exists w: seq<bool> {:trigger Unmatched(lens, w)} :: |w| == MAX_BITS && Unmatched(lens, w)
  }

  /** Codes of at most 9 bits begin nothing that another code begins. */
  ghost predicate ShortApart(lens: seq<nat>) {
    forall i: nat, j: nat, w: seq<bool> {:trigger Begins(lens, i, w), Begins(lens, j, w)} :: |w| == MAX_BITS && i != j
      && Begins(lens, i, w) && Begins(lens, j, w)
      ==> lens[i] > FIRST_BITS
  }

  /** Looking up any 15 bits gives the symbol whose code they begin with and its length, or, if
      there is none, the invalid symbol. */
  ghost predicate LookupOk(lens: seq<nat>, tl: seq<nat>, tv: seq<nat>, w: seq<bool>)
    requires |w| == MAX_BITS
  {
    var x := Val(w[..FIRST_BITS]);
    && |tl| == |tv| && x < |tl|
    && if tl[x] <= FIRST_BITS then
         Finds(lens, tl[x], tv[x], w) && (tv[x] == INVALID_SYMBOL ==> tl[x] == 1)
       else
         && tl[x] <= MAX_BITS
         && var p := tv[x] + Val(w[FIRST_BITS..tl[x]]);
         && p < |tl| && FIRST_BITS < tl[p] <= MAX_BITS
         && Finds(lens, tl[p], tv[p], w)
  }

  ghost predicate Finds(lens: seq<nat>, l: nat, v: nat, w: seq<bool>) {
    || (Begins(lens, v, w) && l == lens[v])
    || (v == INVALID_SYMBOL && l > 0 && Unmatched(lens, w))
  }

  ghost predicate TableOk(lens: seq<nat>, tl: seq<nat>, tv: seq<nat>) {
    |tl| <= 0x1_0000 && forall w: seq<bool> {:trigger LookupOk(lens, tl, tv, w)} :: |w| == MAX_BITS ==>
      LookupOk(lens, tl, tv, w)
  }

  /** A head entry that short symbol n should get is already in use: two codes begin the same bits. */
  lemma HeadClash(lens: seq<nat>, ml: seq<nat>, tl: seq<nat>, tv: seq<nat>, n: nat, x: nat)
    requires n < |lens| && 0 < lens[n] <= FIRST_BITS && Filled(lens, ml, tl, tv, n, n + 1)
    requires x < HEAD_SIZE && Begins(lens, n, BitsOf(x, FIRST_BITS)) && tl[x] != UNUSED
    requires ml[x] <= FIRST_BITS ==> tv[x] != n
    ensures Clash(lens)
  {
    if ml[x] > FIRST_BITS {
      assert LongestAt(lens, |lens|, x, ml[x]);
      var i :| 0 <= i < |lens| && lens[i] == ml[x] && HeadOf(lens, i) == x;
      Extend(lens, i, n, Code(lens, i));
    } else {
      assert IsSlot(ml, x, 0) && SlotOk(lens, ml, tl, tv, n, n + 1, x, 0);
      assert SlotStr(ml, x, 0) == BitsOf(x, FIRST_BITS);
      Extend(lens, tv[x], n, BitsOf(x, FIRST_BITS));
    }
  }

  lemma Extend(lens: seq<nat>, i: nat, j: nat, s: seq<bool>)
    requires i != j && |s| <= MAX_BITS && Begins(lens, i, s)
    requires j < |lens| && 0 < lens[j] <= FIRST_BITS <= |s| && Begins(lens, j, s[..FIRST_BITS])
    ensures Clash(lens)
  {
    var w := ZTake(s, MAX_BITS);
    assert w[..lens[i]] == s[..lens[i]];
    assert w[..lens[j]] == s[..FIRST_BITS][..lens[j]];
    assert Begins(lens, i, w) && Begins(lens, j, w);
  }

  /** The place that 15 bits lead to. */
  ghost predicate LeadsTo(ml: seq<nat>, w: seq<bool>, x: nat, k: nat) {
    |w| == MAX_BITS && IsSlot(ml, x, k) && |SlotStr(ml, x, k)| <= MAX_BITS
      && w[..|SlotStr(ml, x, k)|] == SlotStr(ml, x, k)
  }

  lemma SlotFor(lens: seq<nat>, ml: seq<nat>, w: seq<bool>) returns (x: nat, k: nat)
    requires Bounded(lens, MAX_BITS) && MaxLensOk(lens, ml, |lens|) && |w| == MAX_BITS
    ensures LeadsTo(ml, w, x, k) && x == Val(w[..FIRST_BITS]) < HEAD_SIZE
    ensures k == if ml[x] > FIRST_BITS then Val(w[FIRST_BITS..ml[x]]) else 0
    ensures ml[x] <= MAX_BITS
  {
    MaxLensBound(lens, ml);
    x := Val(w[..FIRST_BITS]);
    ValBound(w[..FIRST_BITS]);
    BitsOfVal(w[..FIRST_BITS]);
    assert Pow2(FIRST_BITS) == HEAD_SIZE;
    if ml[x] > FIRST_BITS {
      var t := w[FIRST_BITS..ml[x]];
      k := Val(t);
      ValBound(t);
      BitsOfVal(t);
      assert w[..ml[x]] == w[..FIRST_BITS] + t;
    } else {
      k := 0;
    }
  }

  /** The symbols that begin the 15 bits are those that lead to the place the bits lead to. */
  lemma SlotDecides(lens: seq<nat>, ml: seq<nat>, w: seq<bool>, x: nat, k: nat, i: nat)
    requires Bounded(lens, MAX_BITS) && MaxLensOk(lens, ml, |lens|) && LeadsTo(ml, w, x, k)
    ensures Begins(lens, i, w) <==> Begins(lens, i, SlotStr(ml, x, k))
  {
    var s := SlotStr(ml, x, k);
    if i < |lens| && 0 < lens[i] {
      if lens[i] <= |s| {
        assert w[..lens[i]] == s[..lens[i]];
      } else if Begins(lens, i, w) {
        assert w[..FIRST_BITS] == s[..FIRST_BITS] == BitsOf(x, FIRST_BITS);
        assert Code(lens, i)[..FIRST_BITS] == w[..FIRST_BITS];
        assert Pow2(FIRST_BITS) == HEAD_SIZE;
        ValBitsOf(x, FIRST_BITS);
      }
    }
  }

  /** The places left over are marked: with length 1 in the head and 10 in secondary tables. */
  ghost predicate Marked(tl: seq<nat>, tv: seq<nat>, tl': seq<nat>, tv': seq<nat>) {
    && |tl| == |tv| == |tl'| == |tv'|
    && forall p :: 0 <= p < |tl| ==>
      if tl[p] == UNUSED then tl'[p] == (if p < HEAD_SIZE then 1 else FIRST_BITS + 1) && tv'[p] == INVALID_SYMBOL
      else tl'[p] == tl[p] && tv'[p] == tv[p]
  }

  lemma LookupAfterMarking(lens: seq<nat>, ml: seq<nat>, tl: seq<nat>, tv: seq<nat>,
                           tl': seq<nat>, tv': seq<nat>, w: seq<bool>)
    requires Filled(lens, ml, tl, tv, |lens|, |lens|) && |lens| <= INVALID_SYMBOL && |w| == MAX_BITS
    requires Marked(tl, tv, tl', tv')
    ensures LookupOk(lens, tl', tv', w)
  {
    var x, k := SlotFor(lens, ml, w);
    assert SlotOk(lens, ml, tl, tv, |lens|, |lens|, x, k);
    FoundInSlot(lens, ml, tl, tv, w, x, k);
    MaxLensBound(lens, ml);
    PtrBound(ml, x);
    var p := SlotAt(ml, x, k);
    assert Finds(lens, tl'[p], tv'[p], w);
    if ml[x] > FIRST_BITS {
      assert tl'[x] == ml[x] && tv'[x] == Ptr(ml, x);
      assert p == tv'[x] + Val(w[FIRST_BITS..tl'[x]]);
    } else {
      assert p == x;
    }
  }

  lemma FoundInSlot(lens: seq<nat>, ml: seq<nat>, tl: seq<nat>, tv: seq<nat>, w: seq<bool>, x: nat, k: nat)
    requires Bounded(lens, MAX_BITS) && MaxLensOk(lens, ml, |lens|) && LeadsTo(ml, w, x, k)
    requires SlotOk(lens, ml, tl, tv, |lens|, |lens|, x, k)
    ensures var p := SlotAt(ml, x, k);
      if tl[p] == UNUSED then Unmatched(lens, w) else Finds(lens, tl[p], tv[p], w)
  {
    var p := SlotAt(ml, x, k);
    if tl[p] == UNUSED {
      forall j | 0 <= j < |lens| ensures !Begins(lens, j, w) {
        SlotDecides(lens, ml, w, x, k, j);
      }
    } else {
      SlotDecides(lens, ml, w, x, k, tv[p]);
    }
  }

  lemma TableAfterMarking(lens: seq<nat>, ml: seq<nat>, tl: seq<nat>, tv: seq<nat>, tl': seq<nat>, tv': seq<nat>)
    requires Filled(lens, ml, tl, tv, |lens|, |lens|) && |lens| <= INVALID_SYMBOL
    requires Marked(tl, tv, tl', tv')
    ensures TableOk(lens, tl', tv')
  {
    MaxLensBound(lens, ml);
    PtrBound(ml, HEAD_SIZE);
    forall w: seq<bool> | |w| == MAX_BITS ensures LookupOk(lens, tl', tv', w) {
      LookupAfterMarking(lens, ml, tl, tv, tl', tv', w);
    }
  }

  /** Short codes are apart from all others once every symbol is entered. */
  lemma FilledApart(lens: seq<nat>, ml: seq<nat>, tl: seq<nat>, tv: seq<nat>)
    requires Filled(lens, ml, tl, tv, |lens|, |lens|)
    ensures ShortApart(lens)
  {
    forall i: nat, j: nat, w: seq<bool> | |w| == MAX_BITS && i != j && Begins(lens, i, w) && Begins(lens, j, w)
      ensures lens[i] > FIRST_BITS
    {
      HeadOwner(lens, ml, tl, tv, i, w);
      HeadOwner(lens, ml, tl, tv, j, w);
    }
  }

  /** What the head entry of these 15 bits says about a symbol they begin with. */
  lemma HeadOwner(lens: seq<nat>, ml: seq<nat>, tl: seq<nat>, tv: seq<nat>, i: nat, w: seq<bool>)
    requires Filled(lens, ml, tl, tv, |lens|, |lens|) && |w| == MAX_BITS && Begins(lens, i, w)
    ensures var x := Val(w[..FIRST_BITS]);
      && x < HEAD_SIZE
      && (lens[i] > FIRST_BITS ==> ml[x] > FIRST_BITS)
      && (lens[i] <= FIRST_BITS ==> ml[x] <= FIRST_BITS && tv[x] == i)
  {
    var x, k := SlotFor(lens, ml, w);
    if lens[i] <= FIRST_BITS {
      assert BitsOf(x, FIRST_BITS) == w[..FIRST_BITS] by { BitsOfVal(w[..FIRST_BITS]); }
      assert w[..FIRST_BITS][..lens[i]] == w[..lens[i]];
      assert Owns(lens, ml, tl, tv, i);
      assert Begins(lens, i, BitsOf(x, FIRST_BITS));
    } else {
      SlotDecides(lens, ml, w, x, k, i);
    }
  }

  /** A place in no use shows bits that no code begins. */
  lemma UnusedIsGap(lens: seq<nat>, ml: seq<nat>, tl: seq<nat>, tv: seq<nat>, p: nat)
    requires Filled(lens, ml, tl, tv, |lens|, |lens|) && p < |tl| && tl[p] == UNUSED
    ensures Gap(lens)
  {
    MaxLensBound(lens, ml);
    var x, k := SlotOf(lens, ml, tl, tv, p);
    var w := ZTake(SlotStr(ml, x, k), MAX_BITS);
    assert w[..|SlotStr(ml, x, k)|] == SlotStr(ml, x, k);
    assert SlotOk(lens, ml, tl, tv, |lens|, |lens|, x, k);
    forall i | 0 <= i < |lens| ensures !Begins(lens, i, w) {
      SlotDecides(lens, ml, w, x, k, i);
    }
    assert Unmatched(lens, w);
  }

  lemma SlotOf(lens: seq<nat>, ml: seq<nat>, tl: seq<nat>, tv: seq<nat>, p: nat) returns (x: nat, k: nat)
    requires Table(lens, ml, tl, tv) && p < |tl| && tl[p] == UNUSED
    ensures IsSlot(ml, x, k) && SlotAt(ml, x, k) == p && ml[x] <= MAX_BITS
  {
    MaxLensBound(lens, ml);
    if p < HEAD_SIZE {
      x, k := p, 0;
    } else {
      x := HEAD_SIZE;
      while Ptr(ml, x) > p
        invariant 0 <= x <= HEAD_SIZE
        invariant x == HEAD_SIZE || p < Ptr(ml, x + 1)
        decreases x
      {
        x := x - 1;
      }
      k := p - Ptr(ml, x);
    }
  }

  lemma UsedIsNoGap(lens: seq<nat>, ml: seq<nat>, tl: seq<nat>, tv: seq<nat>)
    requires Filled(lens, ml, tl, tv, |lens|, |lens|) && forall p :: 0 <= p < |tl| ==> tl[p] != UNUSED
    ensures !Gap(lens)
  {
    MaxLensBound(lens, ml);
    forall w: seq<bool> | |w| == MAX_BITS ensures !Unmatched(lens, w) {
      var x, k := SlotFor(lens, ml, w);
      assert SlotOk(lens, ml, tl, tv, |lens|, |lens|, x, k);
      SlotDecides(lens, ml, w, x, k, tv[SlotAt(ml, x, k)]);
    }
  }
}
