/** What the matcher of the encoder is to find: which earlier positions it can look up, which of them it
    prefers, and which tokens its preferences lead to. */
module Matches {
  import opened Bits
  import opened DeflateSpec
  import opened DeflateCode

  const MAX_LENGTH: nat := 258
  const HASH_NUM_VALUES: nat := 0x1_0000

  // ---------- the key of a position

  /** Three bytes make a key of 16 bits. */
  function Mixed(a: byte, b: byte, c: byte): nat {
    Xor(Xor(Xor(0, a as nat), (b as nat) * 0x10), (c as nat) * 0x100) % HASH_NUM_VALUES
  }

  /** The first i of the bytes that are left before the end, one above the other. */
  function Stacked(data: seq<byte>, pos: nat, i: nat): nat
    requires pos + i <= |data|
  {
    if i == 0 then 0 else Xor(Stacked(data, pos, i - 1), Shl(data[pos + i - 1], (i - 1) * 8))
  }

  function KeyOf(data: seq<byte>, size: nat, pos: nat): (h: nat)
    requires size <= |data|
    ensures h < HASH_NUM_VALUES
  {
    if pos + 2 < size then Mixed(data[pos], data[pos + 1], data[pos + 2])
    else if pos >= size then 0
    else Stacked(data, pos, size - pos) % HASH_NUM_VALUES
  }

  /** The last position below n with this key, or -1. */
  ghost function LastWith(keys: seq<nat>, h: nat, n: nat): (q: int)
    requires n <= |keys|
    ensures -1 <= q < n && (q >= 0 ==> keys[q] == h)
    ensures forall k: nat :: q < k < n ==> keys[k] != h
    decreases n
  {
    if n == 0 then -1 else if keys[n - 1] == h then n - 1 else LastWith(keys, h, n - 1)
  }

  lemma {:induction false} LastWithPrefix(keys: seq<nat>, more: seq<nat>, h: nat, n: nat)
    requires n <= |keys| <= |more| && keys == more[..|keys|]
    ensures LastWith(keys, h, n) == LastWith(more, h, n)
    decreases n
  {
    if n > 0 {
      assert more[..|keys|][n - 1] == more[n - 1];
      LastWithPrefix(keys, more, h, n - 1);
    }
  }

  /** How many positions from lo to hi have this key. */
  ghost function CountWith(keys: seq<nat>, h: nat, lo: nat, hi: nat): nat
    requires lo <= hi <= |keys|
    decreases hi - lo
  {
    if lo == hi then 0 else (if keys[lo] == h then 1 else 0) + CountWith(keys, h, lo + 1, hi)
  }

  lemma {:induction false} CountGap(keys: seq<nat>, h: nat, lo: nat, mid: nat, hi: nat)
    requires lo <= mid <= hi <= |keys| && forall k: nat :: lo <= k < mid ==> keys[k] != h
    ensures CountWith(keys, h, lo, hi) == CountWith(keys, h, mid, hi)
    decreases mid - lo
  {
    if lo < mid { CountGap(keys, h, lo + 1, mid, hi); }
  }

  lemma {:induction false} CountMore(keys: seq<nat>, h: nat, lo: nat, mid: nat, hi: nat)
    requires lo <= mid <= hi <= |keys|
    ensures CountWith(keys, h, lo, hi) >= CountWith(keys, h, mid, hi)
    decreases mid - lo
  {
    if lo < mid { CountMore(keys, h, lo + 1, mid, hi); }
  }

  lemma {:induction false} CountPrefix(keys: seq<nat>, more: seq<nat>, h: nat, lo: nat, hi: nat)
    requires lo <= hi <= |keys| <= |more| && keys == more[..|keys|]
    ensures CountWith(keys, h, lo, hi) == CountWith(more, h, lo, hi)
    decreases hi - lo
  {
    if lo < hi {
      assert more[..|keys|][lo] == more[lo];
      CountPrefix(keys, more, h, lo + 1, hi);
    }
  }

  // ---------- chains of positions with the same key

  function SlotOf(q: nat, w: nat): (s: nat)
    requires w > 0
    ensures s < w
  {
    q % w
  }

  lemma SlotsDiffer(a: nat, b: nat, w: nat)
    requires w > 0 && a < b < a + w
    ensures SlotOf(a, w) != SlotOf(b, w)
  {
    var q, r := a / w, a % w;
    assert a == q * w + r;
    if r + (b - a) < w {
      DivModUnique(b, w, q, r + (b - a));
    } else {
      assert (q + 1) * w == q * w + w;
      DivModUnique(b, w, q + 1, r + (b - a) - w);
    }
  }

  /** The slot of position q holds its key, and leads to the last position before it with that key. */
  ghost predicate ChainOk(keys: seq<nat>, w: nat, q: nat, val: int, chain: nat)
    requires q < |keys| && w > 0
  {
    val == keys[q] && (LastWith(keys, keys[q], q) >= 0 ==> chain == SlotOf(LastWith(keys, keys[q], q), w))
  }

  /** Where the chain of a key begins. Right before the last position is entered a second time, its
      own key has been forgotten. */
  ghost function HeadOf(keys: seq<nat>, again: bool, w: nat, h: nat): int
    requires w > 0 && (again ==> keys != [])
  {
    if again && keys[|keys| - 1] == h then -1
    else if LastWith(keys, h, |keys|) < 0 then -1 else SlotOf(LastWith(keys, h, |keys|), w)
  }

  ghost predicate ChainsOk(keys: seq<nat>, w: nat, val: seq<int>, chain: seq<nat>)
    requires w > 0 && |val| == |chain| == w
  {
    forall q: nat {:trigger SlotOf(q, w)} :: q < |keys| && |keys| - q <= w ==>
      ChainOk(keys, w, q, val[SlotOf(q, w)], chain[SlotOf(q, w)])
  }

  /** All positions so far are linked, each to the one before it with the same key, as far as the
      window goes. */
  ghost predicate Linked(keys: seq<nat>, again: bool, w: nat, head: seq<int>, val: seq<int>, chain: seq<nat>) {
    && w > 0 && |head| == HASH_NUM_VALUES && |val| == |chain| == w && (again ==> keys != [])
    && (forall h: nat :: h < HASH_NUM_VALUES ==> head[h] == HeadOf(keys, again, w, h))
    && ChainsOk(keys, w, val, chain)
  }

  lemma NothingLinked(w: nat, head: seq<int>, val: seq<int>, chain: seq<nat>)
    requires w > 0 && |head| == HASH_NUM_VALUES && |val| == |chain| == w && forall h: nat :: h < |head| ==>
      head[h] == -1
    ensures Linked([], false, w, head, val, chain)
  {
  }

  lemma HeadNext(keys: seq<nat>, w: nat, h: nat, g: nat)
    requires w > 0
    ensures HeadOf(keys + [h], false, w, g) == if g == h then SlotOf(|keys|, w) else HeadOf(keys, false, w, g)
  {
    assert (keys + [h])[..|keys|] == keys;
    LastWithPrefix(keys, keys + [h], g, |keys|);
  }

  lemma ChainNext(keys: seq<nat>, w: nat, h: nat, q: nat, val: int, chain: nat)
    requires q < |keys| && w > 0 && ChainOk(keys, w, q, val, chain)
    ensures ChainOk(keys + [h], w, q, val, chain)
  {
    assert (keys + [h])[..|keys|] == keys;
    LastWithPrefix(keys, keys + [h], keys[q], q);
  }

  /** Entering the next position. */
  lemma LinkNext(keys: seq<nat>, w: nat, head: seq<int>, val: seq<int>, chain: seq<nat>, h: nat, s: nat,
                 link: nat)
    requires Linked(keys, false, w, head, val, chain) && h < HASH_NUM_VALUES && s == SlotOf(|keys|, w)
    requires head[h] != -1 ==> link == head[h]
    ensures Linked(keys + [h], false, w, head[h := s], val[s := h], chain[s := link])
  {
    hide ChainOk, HeadOf, SlotOf;
    var keys', head', val', chain' := keys + [h], head[h := s], val[s := h], chain[s := link];
    forall g: nat | g < HASH_NUM_VALUES ensures head'[g] == HeadOf(keys', false, w, g) {
      HeadNext(keys, w, h, g);
    }
    forall q: nat | q < |keys'| && |keys'| - q <= w
      ensures ChainOk(keys', w, q, val'[SlotOf(q, w)], chain'[SlotOf(q, w)])
    {
      if q < |keys| {
        SlotsDiffer(q, |keys|, w);
        ChainNext(keys, w, h, q, val[SlotOf(q, w)], chain[SlotOf(q, w)]);
      } else {
        NewChain(keys, w, h, link);
      }
    }
  }

  lemma NewChain(keys: seq<nat>, w: nat, h: nat, link: nat)
    requires w > 0 && (HeadOf(keys, false, w, h) != -1 ==> link == HeadOf(keys, false, w, h))
    ensures ChainOk(keys + [h], w, |keys|, h, link)
  {
    assert (keys + [h])[..|keys|] == keys;
    LastWithPrefix(keys, keys + [h], h, |keys|);
  }

  /** Entering the last position a second time. */
  lemma LinkAgain(keys: seq<nat>, w: nat, head: seq<int>, val: seq<int>, chain: seq<nat>, h: nat, s: nat)
    requires Linked(keys, true, w, head, val, chain) && h == keys[|keys| - 1] < HASH_NUM_VALUES
    requires s == SlotOf(|keys| - 1, w)
    ensures head[h] == -1 && Linked(keys, false, w, head[h := s], val[s := h], chain)
  {
    var n := |keys| - 1;
    assert LastWith(keys, h, |keys|) == n;
    assert ChainOk(keys, w, n, val[s], chain[s]);
    assert val[s := h] == val;
    hide ChainOk, SlotOf, LastWith;
    forall g: nat | g < HASH_NUM_VALUES ensures head[h := s][g] == HeadOf(keys, false, w, g) {
      assert head[g] == HeadOf(keys, true, w, g);
    }
  }

  lemma LinkForget(keys: seq<nat>, w: nat, head: seq<int>, val: seq<int>, chain: seq<nat>, h: nat)
    requires Linked(keys, false, w, head, val, chain) && keys != [] && h == keys[|keys| - 1] < HASH_NUM_VALUES
    ensures Linked(keys, true, w, head[h := -1], val, chain)
  {
    hide ChainsOk, SlotOf, LastWith;
  }

  // ---------- what a search finds

  /** What a search has found, and how many zeros it knew of at its position. */
  datatype Candidate = Candidate(length: nat, offset: nat, zeros: nat)

  ghost predicate ZerosAt(data: seq<byte>, pos: int, n: nat) {
    n == 0 || (0 <= pos && pos + n <= |data| && forall k: int :: pos <= k < pos + n ==> data[k] == 0)
  }

  /** Nothing found, or a true match inside the window. */
  ghost predicate Found(data: seq<byte>, size: nat, pos: nat, w: nat, length: nat, offset: nat) {
    && length <= MAX_LENGTH && pos + length <= size <= |data|
    && (length > 0 ==> offset < w && Repeats(data, pos, length, offset))
  }

  /** The match goes as far as it can: it ends with the data, with the greatest length there is, or
      before two bytes that differ. */
  ghost predicate Maximal(data: seq<byte>, size: nat, pos: nat, length: nat, offset: nat) {
    length < MAX_LENGTH && pos + length < size <= |data| && 0 < offset <= pos ==>
      data[pos + length] != data[pos + length - offset]
  }

  /** The bytes from pos on agree with those from q on, as far as this length. */
  ghost predicate Agrees(data: seq<byte>, size: nat, pos: nat, q: int, l: nat) {
    l <= MAX_LENGTH && pos + l <= size <= |data| && 0 <= q < pos && Repeats(data, pos, l, pos - q)
  }

  ghost predicate Beaten(data: seq<byte>, size: nat, pos: nat, q: int, length: nat) {
    forall l: nat :: Agrees(data, size, pos, q, l) ==> l <= length
  }

  /** The positions of the window that the chain of this key can lead to. */
  ghost predicate Keyed(keys: seq<nat>, h: nat, pos: nat, w: nat, q: int) {
    0 <= q < pos <= |keys| && pos - q < w && keys[q] == h
  }

  /** No position with this key from lo on agrees further. */
  ghost predicate AllBeaten(data: seq<byte>, size: nat, pos: nat, w: nat, keys: seq<nat>, h: nat, lo: int,
                            length: nat) {
    forall q: int {:trigger Keyed(keys, h, pos, w, q)} ::
      Keyed(keys, h, pos, w, q) && q >= lo ==> Beaten(data, size, pos, q, length)
  }

  /** Of those that agree as far as the match found, it is the nearest. */
  ghost predicate Nearest(data: seq<byte>, size: nat, pos: nat, w: nat, keys: seq<nat>, h: nat, length: nat,
                          offset: nat) {
    forall q: int, l: nat {:trigger Agrees(data, size, pos, q, l), Keyed(keys, h, pos, w, q)} ::
      Keyed(keys, h, pos, w, q) && pos - q < offset && Agrees(data, size, pos, q, l) ==> l < length
  }

  /** The search gives up after so many positions with the key, and when it has found a match that is
      nice enough. Among many zeros it may pass over positions once it has found more than the zeros.
      Otherwise it finds the longest match, and of the longest the nearest. */
  ghost predicate Best(data: seq<byte>, size: nat, pos: nat, w: nat, keys: seq<nat>, h: nat, maxchain: nat,
                       nice: nat, c: Candidate) {
    && (c.length >= nice || (c.zeros >= 3 && c.length > c.zeros) || LongestOf(data, size, pos, w, keys, h, maxchain,
          c.length))
    && (c.zeros < 3 ==> Nearest(data, size, pos, w, keys, h, c.length, c.offset))
  }

  ghost predicate LongestOf(data: seq<byte>, size: nat, pos: nat, w: nat, keys: seq<nat>, h: nat, maxchain: nat,
                            length: nat) {
    forall q: int {:trigger Keyed(keys, h, pos, w, q)} ::
      Keyed(keys, h, pos, w, q) && CountWith(keys, h, q + 1, pos) < maxchain ==> Beaten(data, size, pos, q, length)
  }

  /** Only the keys before the position matter. */
  lemma BestPrefix(data: seq<byte>, size: nat, pos: nat, w: nat, keys: seq<nat>, more: seq<nat>, h: nat,
                   maxchain: nat, nice: nat, c: Candidate)
    requires pos <= |keys| <= |more| && keys == more[..|keys|] && Best(data, size, pos, w, keys, h, maxchain, nice, c)
    ensures Best(data, size, pos, w, more, h, maxchain, nice, c)
  {
    hide Beaten, Agrees, CountWith;
    forall q: int | Keyed(more, h, pos, w, q) ensures Keyed(keys, h, pos, w, q) {
      assert more[..|keys|][q] == more[q];
    }
    if LongestOf(data, size, pos, w, keys, h, maxchain, c.length) {
      forall q: int | Keyed(more, h, pos, w, q) && CountWith(more, h, q + 1, pos) < maxchain
        ensures Beaten(data, size, pos, q, c.length)
      {
        assert Keyed(keys, h, pos, w, q);
        CountPrefix(keys, more, h, q + 1, pos);
      }
    }
  }

  // ---------- what that means for the bytes

  /** A match of three bytes or more has the same key. */
  lemma SameKey(data: seq<byte>, size: nat, pos: nat, d: nat, l: nat)
    requires pos + 2 < size <= |data| && l >= 3 && Repeats(data, pos, l, d)
    ensures KeyOf(data, size, pos - d) == KeyOf(data, size, pos)
  {
    assert data[pos] == data[pos - d] && data[pos + 1] == data[pos + 1 - d] && data[pos + 2] == data[pos + 2 - d];
    hide Mixed;
  }

  lemma {:induction false} CountAtMost(keys: seq<nat>, h: nat, lo: nat, hi: nat)
    requires lo <= hi <= |keys|
    ensures CountWith(keys, h, lo, hi) <= hi - lo
    decreases hi - lo
  {
    if lo < hi { CountAtMost(keys, h, lo + 1, hi); }
  }

  /** If the chains may be followed as far as the window goes, and there are no three zeros here, the
      search finds the longest match of the window: nothing that begins inside it and agrees for three
      bytes or more is longer, and nothing nearer is as long. */
  lemma LongestMatch(data: seq<byte>, size: nat, from: nat, pos: nat, w: nat, keys: seq<nat>, nice: nat,
                     c: Candidate, d: nat, l: nat)
    requires from <= pos < size <= |data| && pos <= |keys|
    requires forall q: nat :: from <= q < pos ==> keys[q] == KeyOf(data, size, q)
    requires Best(data, size, pos, w, keys, KeyOf(data, size, pos), w, nice, c) && ZerosAt(data, pos, c.zeros)
    requires exists k: int :: pos <= k < pos + 3 && k < size && data[k] != 0
    requires 1 <= d < w && from + d <= pos && 3 <= l <= MAX_LENGTH && pos + l <= size && Repeats(data, pos, l, d)
    ensures l <= c.length || nice <= c.length
    ensures d < c.offset ==> l < c.length
  {
    hide KeyOf;
    var h, q := KeyOf(data, size, pos), pos - d;
    SameKey(data, size, pos, d, l);
    assert Keyed(keys, h, pos, w, q) && Agrees(data, size, pos, q, l);
    var k: int :| pos <= k < pos + 3 && k < size && data[k] != 0;
    assert c.zeros < 3;
    CountAtMost(keys, h, q + 1, pos);
  }

  // ---------- following a chain

  /** The next position with the key that has not been looked at is at hand: the slot of the last one
      before seen. */
  ghost predicate OnChain(keys: seq<nat>, h: nat, pos: nat, w: nat, seen: nat, slot: nat, count: nat, prev: nat) {
    && w > 0 && seen <= pos <= |keys| && prev <= pos - seen
    && Keyed(keys, h, pos, w, LastWith(keys, h, seen)) && slot == SlotOf(LastWith(keys, h, seen), w)
    && count == CountWith(keys, h, seen, pos)
  }

  /** No position with the key is left inside the window. */
  ghost predicate ChainEnded(keys: seq<nat>, h: nat, pos: nat, w: nat, seen: nat) {
    seen <= pos <= |keys| && forall q: int :: Keyed(keys, h, pos, w, q) ==> q >= seen
  }

  /** The link of a position leads to the next one with its key, if that is inside the window. */
  lemma ChainLeads(keys: seq<nat>, pos: nat, w: nat, q: nat, val: int, chain: nat, count: nat, prev: nat)
    requires q <= pos < |keys| && pos - q < w && ChainOk(keys, w, q, val, chain) && prev <= pos - q
    requires count == CountWith(keys, keys[q], q, pos)
    ensures OnChain(keys, keys[q], pos, w, q, chain, count, prev) || ChainEnded(keys, keys[q], pos, w, q)
  {
    var p := LastWith(keys, keys[q], q);
    if 0 <= p && pos - p < w {
      assert Keyed(keys, keys[q], pos, w, p);
    }
  }

  /** Inside the window, the next position is in another slot, and its slot holds its key. */
  lemma NextSlot(keys: seq<nat>, h: nat, pos: nat, w: nat, q: nat, slot: nat, count: nat, prev: nat,
                 val: seq<int>, chain: seq<nat>)
    requires OnChain(keys, h, pos, w, q, slot, count, prev) && pos + 1 == |keys|
    requires |val| == |chain| == w && ChainsOk(keys, w, val, chain)
    ensures val[slot] == h && slot != SlotOf(q, w) && LastWith(keys, h, q) >= 0
    ensures ChainOk(keys, w, LastWith(keys, h, q), val[slot], chain[slot])
  {
    var p := LastWith(keys, h, q);
    assert Keyed(keys, h, pos, w, p);
    SlotsDiffer(p, q, w);
    assert ChainOk(keys, w, p, val[SlotOf(p, w)], chain[SlotOf(p, w)]);
  }

  /** One more position has been looked at. */
  lemma OneMoreSeen(keys: seq<nat>, h: nat, pos: nat, w: nat, seen: nat, slot: nat, count: nat, prev: nat)
    requires OnChain(keys, h, pos, w, seen, slot, count, prev)
    ensures var q := LastWith(keys, h, seen);
      0 <= q < seen && pos - q > prev && count + 1 == CountWith(keys, h, q, pos)
      && forall k: int :: Keyed(keys, h, pos, w, k) && k >= q ==> k == q || k >= seen
  {
    var q := LastWith(keys, h, seen);
    assert Keyed(keys, h, pos, w, q);
    CountGap(keys, h, q + 1, seen, pos);
  }

  /** Looking at one position: what it agrees with is now known. */
  lemma SeenBeaten(data: seq<byte>, size: nat, pos: nat, w: nat, keys: seq<nat>, h: nat, seen: nat, q: nat,
                   before: nat, length: nat)
    requires AllBeaten(data, size, pos, w, keys, h, seen, before) && before <= length
    requires forall k: int :: Keyed(keys, h, pos, w, k) && k >= q ==> k == q || k >= seen
    requires Beaten(data, size, pos, q, length)
    ensures AllBeaten(data, size, pos, w, keys, h, q, length)
  {
    hide Agrees;
  }

  /** A match that goes as far as it can is as long as its position allows. */
  lemma MaximalBeats(data: seq<byte>, size: nat, pos: nat, q: nat, length: nat)
    requires q < pos < size <= |data| && length <= MAX_LENGTH && pos + length <= size
    requires Maximal(data, size, pos, length, pos - q)
    ensures Beaten(data, size, pos, q, length)
  {
    forall l: nat | Agrees(data, size, pos, q, l) ensures l <= length {
    }
  }

  /** Where a search stands: what it has found is the nearest of its length, and either there is a next
      position to look at, or nothing longer is left. */
  ghost predicate Walk(data: seq<byte>, size: nat, pos: nat, w: nat, keys: seq<nat>, h: nat, on: bool, seen: nat,
                       slot: nat, count: nat, prev: nat, c: Candidate) {
    && (c.zeros < 3 ==> Nearest(data, size, pos, w, keys, h, c.length, c.offset))
    && (on ==> (OnChain(keys, h, pos, w, seen, slot, count, prev)
          && AllBeaten(data, size, pos, w, keys, h, seen, c.length)))
    && (!on ==> (c.zeros >= 3 && c.length > c.zeros) || AllBeaten(data, size, pos, w, keys, h, 0, c.length))
  }

  lemma WalkBegins(data: seq<byte>, size: nat, w: nat, keys: seq<nat>, pos: nat, zeros: nat, val: seq<int>,
                   chain: seq<nat>)
    returns (on: bool)
    requires pos + 1 == |keys| && w > 0 && |val| == |chain| == w && ChainsOk(keys, w, val, chain)
    ensures Walk(data, size, pos, w, keys, keys[pos], on, pos, chain[SlotOf(pos, w)], 0, 0, Candidate(0, 0, zeros))
  {
    hide Beaten, LastWith;
    assert ChainOk(keys, w, pos, val[SlotOf(pos, w)], chain[SlotOf(pos, w)]);
    ChainLeads(keys, pos, w, pos, val[SlotOf(pos, w)], chain[SlotOf(pos, w)], 0, 0);
    on := OnChain(keys, keys[pos], pos, w, pos, chain[SlotOf(pos, w)], 0, 0);
  }

  /** The distance of a position in the window, from the two slots. */
  lemma DistanceOf(pos: nat, q: nat, w: nat)
    requires w > 0 && q < pos < q + w
    ensures var a, b := SlotOf(q, w), SlotOf(pos, w); pos - q == if a <= b then b - a else b - a + w
  {
    var k, r := q / w, q % w;
    assert q == k * w + r;
    if r + (pos - q) < w {
      DivModUnique(pos, w, k, r + (pos - q));
    } else {
      assert (k + 1) * w == k * w + w;
      DivModUnique(pos, w, k + 1, r + (pos - q) - w);
    }
  }

  /** On the chain, the distance is that of the next position, which is further back than the one before. */
  lemma OffsetOf(data: seq<byte>, size: nat, pos: nat, w: nat, keys: seq<nat>, h: nat, on: bool, seen: nat, slot: nat,
                 count: nat, prev: nat, c: Candidate, own: nat, current: int)
    requires Walk(data, size, pos, w, keys, h, on, seen, slot, count, prev, c) && w > 0 && own == SlotOf(pos, w)
    requires current == if slot <= own then own - slot else own - slot + w
    ensures on ==> seen <= |keys| && current == pos - LastWith(keys, h, seen) && current > prev
  {
    hide Beaten, CountWith, SlotOf;
    if on {
      DistanceOf(pos, LastWith(keys, h, seen), w);
    }
  }

  /** Off the chain, only what has been found matters. */
  lemma OffTheChain(data: seq<byte>, size: nat, pos: nat, w: nat, keys: seq<nat>, h: nat, seen: nat, slot: nat,
                    count: nat, prev: nat, c: Candidate)
    requires c.zeros < 3 ==> Nearest(data, size, pos, w, keys, h, c.length, c.offset)
    requires (c.zeros >= 3 && c.length > c.zeros) || AllBeaten(data, size, pos, w, keys, h, 0, c.length)
    ensures Walk(data, size, pos, w, keys, h, false, seen, slot, count, prev, c)
  {
  }

  lemma StayOff(data: seq<byte>, size: nat, pos: nat, w: nat, keys: seq<nat>, h: nat, on: bool, seen: nat, slot: nat,
                count: nat, prev: nat, c: Candidate, seen': nat, slot': nat, count': nat, prev': nat)
    requires Walk(data, size, pos, w, keys, h, on, seen, slot, count, prev, c)
    requires !on || (c.zeros >= 3 && c.length > c.zeros)
    ensures Walk(data, size, pos, w, keys, h, false, seen', slot', count', prev', c)
  {
  }

  lemma NiceBest(data: seq<byte>, size: nat, pos: nat, w: nat, keys: seq<nat>, h: nat, maxchain: nat, nice: nat,
                 c: Candidate)
    requires c.zeros < 3 ==> Nearest(data, size, pos, w, keys, h, c.length, c.offset)
    requires c.length >= nice
    ensures Best(data, size, pos, w, keys, h, maxchain, nice, c)
  {
  }

  /** The candidate after a look at one more position. */
  function Better(c: Candidate, found: nat, offset: nat): Candidate {
    if found > c.length then Candidate(found, offset, c.zeros) else c
  }

  /** A look at the next position. */
  lemma Looked(data: seq<byte>, size: nat, pos: nat, w: nat, keys: seq<nat>, h: nat, on: bool, seen: nat, slot: nat,
               count: nat, prev: nat, c: Candidate, found: nat, current: nat)
    returns (q: nat)
    requires Walk(data, size, pos, w, keys, h, on, seen, slot, count, prev, c)
    requires pos < size <= |data| && found <= MAX_LENGTH && pos + found <= size
    requires on ==> current == pos - LastWith(keys, h, seen) && Maximal(data, size, pos, found, current)
    ensures var b := Better(c, found, current);
      && (b.zeros < 3 ==> Nearest(data, size, pos, w, keys, h, b.length, b.offset))
      && (on ==> (q == LastWith(keys, h, seen) && slot == SlotOf(q, w)
        && AllBeaten(data, size, pos, w, keys, h, q, b.length)
            && 0 < current == pos - q < w && current > prev && count + 1 == CountWith(keys, h, q, pos)))
      && (!on ==> (b.zeros >= 3 && b.length > b.zeros) || AllBeaten(data, size, pos, w, keys, h, 0, b.length))
  {
    hide Agrees, LastWith, CountWith, Maximal;
    var b := Better(c, found, current);
    q := 0;
    if on {
      OneMoreSeen(keys, h, pos, w, seen, slot, count, prev);
      q := LastWith(keys, h, seen);
      MaximalBeats(data, size, pos, q, found);
      SeenBeaten(data, size, pos, w, keys, h, seen, q, c.length, b.length);
    }
    hide Beaten;
  }

  /** The step to the next position, or to the end of the chain. */
  lemma Stepped(data: seq<byte>, size: nat, pos: nat, w: nat, keys: seq<nat>, h: nat, q: nat, count: nat, b: Candidate,
                val: seq<int>, chain: seq<nat>)
    returns (on: bool)
    requires pos + 1 == |keys| && q < pos && pos - q < w && keys[q] == h && w > 0 && |val| == |chain| == w
    requires ChainsOk(keys, w, val, chain) && AllBeaten(data, size, pos, w, keys, h, q, b.length)
    requires count == CountWith(keys, h, q, pos)
    requires b.zeros < 3 ==> Nearest(data, size, pos, w, keys, h, b.length, b.offset)
    ensures Walk(data, size, pos, w, keys, h, on, q, chain[SlotOf(q, w)], count, pos - q, b)
    ensures on ==> chain[SlotOf(q, w)] < w && chain[SlotOf(q, w)] != SlotOf(q, w) && val[chain[SlotOf(q, w)]] == h
  {
    hide Beaten, LastWith, CountWith, Nearest;
    var slot := SlotOf(q, w);
    assert ChainOk(keys, w, q, val[slot], chain[slot]);
    ChainLeads(keys, pos, w, q, val[slot], chain[slot], count, pos - q);
    on := OnChain(keys, h, pos, w, q, chain[slot], count, pos - q);
    if on {
      NextSlot(keys, h, pos, w, q, chain[slot], count, pos - q, val, chain);
    }
  }

  /** Why the search is over, and that its result is the best. */
  lemma EndedBest(data: seq<byte>, size: nat, pos: nat, w: nat, keys: seq<nat>, h: nat, maxchain: nat, nice: nat,
                  on: bool, seen: nat, slot: nat, count: nat, prev: nat, c: Candidate)
    requires Walk(data, size, pos, w, keys, h, on, seen, slot, count, prev, c) && (!on || count >= maxchain)
    ensures Best(data, size, pos, w, keys, h, maxchain, nice, c)
  {
    hide Beaten, Nearest, LastWith;
    if on {
      forall q: int | Keyed(keys, h, pos, w, q) && CountWith(keys, h, q + 1, pos) < maxchain
        ensures Beaten(data, size, pos, q, c.length)
      {
        if q < seen { CountMore(keys, h, q + 1, seen, pos); }
      }
    }
  }

  // ---------- what becomes of the matches found

  /** A run of the encoder: the data up to its end, the window, the keys of all positions, and the settings. */
  datatype Job = Job(data: seq<byte>, size: nat, w: nat, keys: seq<nat>, minmatch: nat, nice: nat, lazy: bool)

  /** Large windows are searched completely, small ones only in part. */
  function MaxChain(w: nat): nat {
    if w >= 8192 then w else w / 8
  }

  function MaxLazy(w: nat): nat {
    if w >= 8192 then 258 else 64
  }

  /** The candidate is what a search at p comes to. */
  ghost predicate CandidateOk(j: Job, p: nat, c: Candidate) {
    && p < j.size <= |j.data| && p <= |j.keys|
    && Found(j.data, j.size, p, j.w, c.length, c.offset) && Maximal(j.data, j.size, p, c.length, c.offset)
    && ZerosAt(j.data, p, c.zeros)
    && Best(j.data, j.size, p, j.w, j.keys, KeyOf(j.data, j.size, p), MaxChain(j.w), j.nice, c)
  }

  /** A match is put off until the next position has been searched, unless it is too long for that. */
  predicate PutOff(j: Job, c: Candidate) {
    j.lazy && 3 <= c.length <= MaxLazy(j.w) && c.length < 258
  }

  /** Matches of three bytes from far away, and those that are too short, are not worth it. */
  predicate Worth(j: Job, c: Candidate) {
    c.length >= 3 && c.length >= j.minmatch && !(c.length == 3 && c.offset > 4096)
  }

  function TokenAt(j: Job, p: nat, c: Candidate): Token
    requires p < |j.data|
  {
    if Worth(j, c) then Match(c.length, c.offset) else Literal(j.data[p])
  }

  function EndAt(j: Job, p: nat, c: Candidate): nat {
    p + (if Worth(j, c) then c.length else 1)
  }

  /** One decision: at a position, from what was found there and, if that was put off, at the next one. */
  datatype Choice = Choice(at: nat, here: Candidate, next: Candidate)

  ghost predicate ChoiceOk(j: Job, c: Choice) {
    CandidateOk(j, c.at, c.here) && (PutOff(j, c.here) ==> CandidateOk(j, c.at + 1, c.next))
  }

  /** The next position wins if its match is longer by more than one: then the byte here is a literal. */
  predicate NextWins(j: Job, c: Choice) {
    PutOff(j, c.here) && c.next.length > c.here.length + 1
  }

  ghost function ChoiceTokens(j: Job, c: Choice): seq<Token>
    requires ChoiceOk(j, c)
  {
    if NextWins(j, c) then [Literal(j.data[c.at]), TokenAt(j, c.at + 1, c.next)] else [TokenAt(j, c.at, c.here)]
  }

  function ChoiceEnd(j: Job, c: Choice): nat {
    if NextWins(j, c) then EndAt(j, c.at + 1, c.next) else EndAt(j, c.at, c.here)
  }

  /** The decisions lead from one position to another. */
  ghost predicate Steps(j: Job, from: nat, cs: seq<Choice>, to: nat)
    decreases |cs|
  {
    if cs == [] then from == to
    else
      var c := cs[|cs| - 1];
      Steps(j, from, cs[..|cs| - 1], c.at) && ChoiceOk(j, c) && to == ChoiceEnd(j, c)
  }

  ghost function StepTokens(j: Job, from: nat, cs: seq<Choice>, to: nat): seq<Token>
    requires Steps(j, from, cs, to)
    decreases |cs|
  {
    if cs == [] then []
    else
      var c := cs[|cs| - 1];
      StepTokens(j, from, cs[..|cs| - 1], c.at) + ChoiceTokens(j, c)
  }

  /** The tokens so far are those that the decisions lead to. */
  ghost predicate Decided(j: Job, from: nat, cs: seq<Choice>, to: nat, ts: seq<Token>) {
    Steps(j, from, cs, to) && ts == StepTokens(j, from, cs, to)
  }

  lemma DecideOne(j: Job, from: nat, cs: seq<Choice>, to: nat, ts: seq<Token>, c: Choice)
    requires Decided(j, from, cs, to, ts) && c.at == to && ChoiceOk(j, c)
    ensures Decided(j, from, cs + [c], ChoiceEnd(j, c), ts + ChoiceTokens(j, c))
  {
    hide ChoiceOk, ChoiceTokens, ChoiceEnd;
    assert (cs + [c])[..|cs|] == cs;
  }

  lemma NothingDecided(j: Job, from: nat)
    ensures Decided(j, from, [], from, [])
  {
  }
}
