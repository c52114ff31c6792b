/** LZ77 encoding with hash chains, a second chain for runs of zeros, and lazy matching. */
module LZ77 {
  import opened Bits
  import opened DeflateSpec
  import opened DeflateCode
  import opened DeflateTables
  import opened Matches

  // ---------- the circular window

  /** The last position below upto that falls into this slot of the window. */
  ghost function LastPos(slot: nat, upto: nat, w: nat): (p: int)
    requires slot < w && upto > 0
    ensures p < upto
  {
    var at := (upto - 1) % w;
    if slot <= at then upto - 1 - (at - slot) else upto - 1 - (at - slot + w)
  }

  /** A slot of the window into which some position below upto falls. */
  ghost predicate Slot(s: int, upto: nat, w: nat) {
    0 <= s < w && s < upto
  }

  /** The chains lead only to slots in use, and the cached count of zeros never exceeds the zeros
      that are really there. */
  ghost predicate SlotOk(data: seq<byte>, upto: nat, w: nat, s: nat, chain: nat, chainz: nat, zeros: nat) {
    if Slot(s, upto, w) then
      Slot(chain, upto, w) && Slot(chainz, upto, w) && ZerosAt(data, LastPos(s, upto, w), zeros)
    else chain == s && chainz == s
  }

  lemma ModNext(pos: nat, w: nat)
    requires w > 0
    ensures pos % w <= pos
    ensures pos < w ==> pos % w == pos
    ensures pos > 0 ==> pos % w == if (pos - 1) % w == w - 1 then 0 else (pos - 1) % w + 1
  {
    LowLe(pos, w);
    if pos > 0 {
      var q, r := (pos - 1) / w, (pos - 1) % w;
      assert pos - 1 == q * w + r && q >= 0;
      if r == w - 1 {
        assert (q + 1) * w == q * w + w by { MulDist(w, q, 1); }
        DivModUnique(pos, w, q + 1, 0);
      } else {
        DivModUnique(pos, w, q, r + 1);
      }
    }
  }

  lemma LowLe(pos: nat, w: nat)
    requires w > 0
    ensures pos % w <= pos
    ensures pos < w ==> pos % w == pos
    ensures pos >= w ==> pos - pos % w >= w
  {
    var q := pos / w;
    assert pos == w * q + pos % w;
    DivLe(pos, w);
    if q > 0 { MulPos(q, w); }
  }

  lemma LastPosInside(s: nat, upto: nat, w: nat)
    requires Slot(s, upto, w)
    ensures 0 <= LastPos(s, upto, w)
  {
    LowLe(upto - 1, w);
  }

  /** One more position changes the last position of its own slot only. */
  lemma SlotsMove(s: nat, pos: nat, w: nat)
    requires s < w
    ensures s != pos % w ==> (Slot(s, pos + 1, w) <==> Slot(s, pos, w))
    ensures s != pos % w && Slot(s, pos, w) ==> LastPos(s, pos + 1, w) == LastPos(s, pos, w)
  {
    ModNext(pos, w);
  }

  lemma OwnSlot(pos: nat, w: nat)
    requires w > 0
    ensures pos % w < w && Slot(pos % w, pos + 1, w) && LastPos(pos % w, pos + 1, w) == pos
  {
    LowLe(pos, w);
  }

  lemma SlotKept(data: seq<byte>, upto: nat, pos: nat, w: nat, s: nat, chain: nat, chainz: nat, zeros: nat)
    requires s < w && (upto == pos || upto == pos + 1) && SlotOk(data, upto, w, s, chain, chainz, zeros)
    ensures s != pos % w ==> SlotOk(data, pos + 1, w, s, chain, chainz, zeros)
    ensures s == pos % w ==> Slot(chain, pos + 1, w) && Slot(chainz, pos + 1, w)
  {
    SlotsMove(s, pos, w);
    OwnSlot(pos, w);
  }

  // ---------- the hash chains

  class Hash {
    const windowsize: nat
    const head: array<int>
    const chain: array<nat>
    const val: array<int>
    const headz: array<int>
    const chainz: array<nat>
    const zeros: array<nat>
    ghost var keys: seq<nat>  // of all positions so far

    ghost function Frame(): set<object> {
      {this as object, head as object, chain as object, val as object, headz as object, chainz as object,
        zeros as object}
    }

    ghost predicate Shape() {
      && windowsize > 0
      && head.Length == HASH_NUM_VALUES && headz.Length == MAX_LENGTH + 1
      && chain.Length == val.Length == chainz.Length == zeros.Length == windowsize
      && head != val && head != headz && val != headz
      && chain != chainz && chain != zeros && chainz != zeros
    }

    /** The heads lead only to slots in use. */
    ghost predicate HeadsOk(upto: nat)
      reads head, headz
    {
      && Shape()
      && (forall h :: 0 <= h < HASH_NUM_VALUES ==> head[h] == -1 || Slot(head[h], upto, windowsize))
      && (forall h :: 0 <= h <= MAX_LENGTH ==> headz[h] == -1 || Slot(headz[h], upto, windowsize))
    }

    ghost predicate SlotsOk(data: seq<byte>, upto: nat)
      reads chain, chainz, zeros
    {
      && Shape()
      && (forall s :: 0 <= s < windowsize ==> SlotOk(data, upto, windowsize, s, chain[s], chainz[s], zeros[s]))
    }

    /** All positions of the data below upto have been entered; the last of them will perhaps be entered
        again. */
    ghost predicate Holds(data: seq<byte>, upto: nat, again: bool)
      reads Frame()
    {
      && HeadsOk(upto) && SlotsOk(data, upto) && |keys| == upto
      && Linked(keys, again, windowsize, head[..], val[..], chain[..])
    }

    ghost predicate Entered(data: seq<byte>, upto: nat)
      reads Frame()
    {
      Holds(data, upto, false)
    }

    constructor (windowsize: nat)
      ensures this.windowsize == windowsize && keys == [] && fresh(Frame())
      ensures windowsize > 0 ==> forall data: seq<byte> :: Entered(data, 0)
    {
      this.windowsize := windowsize;
      head := new int[HASH_NUM_VALUES](_ => -1);
      val := new int[windowsize](_ => -1);
      chain := new nat[windowsize](i => i);
      zeros := new nat[windowsize](_ => 0);
      headz := new int[MAX_LENGTH + 1](_ => -1);
      chainz := new nat[windowsize](i => i);
      keys := [];
      new;
      if windowsize > 0 { NothingLinked(windowsize, head[..], val[..], chain[..]); }
    }

    /** Enters a position, for the first time or once more. */
    method UpdateHashChain(wpos: nat, hashval: nat, numzeros: nat, ghost data: seq<byte>, ghost pos: nat,
                           ghost again: bool)
      requires Holds(data, if again then pos + 1 else pos, again) && (again ==> keys[pos] == hashval)
      requires wpos == pos % windowsize && hashval < HASH_NUM_VALUES && numzeros <= MAX_LENGTH
      requires ZerosAt(data, pos, numzeros)
      modifies Frame()
      ensures Holds(data, pos + 1, false) && keys == if again then old(keys) else old(keys) + [hashval]
    {
      hide Linked, ZerosAt, LastPos;
      ghost var upto := if again then pos + 1 else pos;
      OwnSlot(pos, windowsize);
      forall s | 0 <= s < windowsize
        ensures s != wpos ==> SlotOk(data, pos + 1, windowsize, s, chain[s], chainz[s], zeros[s])
        ensures s == wpos ==> Slot(chain[s], pos + 1, windowsize) && Slot(chainz[s], pos + 1, windowsize)
      {
        SlotKept(data, upto, pos, windowsize, s, chain[s], chainz[s], zeros[s]);
      }
      ghost var link := if head[hashval] != -1 then head[hashval] else chain[wpos];
      if again {
        LinkAgain(keys, windowsize, head[..], val[..], chain[..], hashval, wpos);
      } else {
        LinkNext(keys, windowsize, head[..], val[..], chain[..], hashval, wpos, link);
      }
      ghost var heads, vals, chains := head[..][hashval := wpos], val[..][wpos := hashval], chain[..][wpos := link];
      assert again ==> chains == chain[..];
      val[wpos] := hashval;
      if head[hashval] != -1 { chain[wpos] := head[hashval]; }
      head[hashval] := wpos;
      assert head[..] == heads && val[..] == vals && chain[..] == chains;
      zeros[wpos] := numzeros;
      if headz[numzeros] != -1 { chainz[wpos] := headz[numzeros]; }
      headz[numzeros] := wpos;
      if !again { keys := keys + [hashval]; }
    }

    /** Before a position is entered again: its own slot must not become its predecessor. */
    method ForgetHeads(hashval: nat, numzeros: nat, ghost data: seq<byte>, ghost upto: nat)
      requires Holds(data, upto, false) && upto > 0 && numzeros <= MAX_LENGTH
      requires hashval == keys[upto - 1] < HASH_NUM_VALUES
      modifies Frame()
      ensures Holds(data, upto, true) && keys == old(keys)
    {
      hide Linked;
      LinkForget(keys, windowsize, head[..], val[..], chain[..], hashval);
      ghost var heads := head[..][hashval := -1];
      head[hashval] := -1;
      assert head[..] == heads;
      headz[numzeros] := -1;
    }
  }

  // ---------- the two keys of a position

  method GetHash(data: seq<byte>, size: nat, pos: nat) returns (result: nat)
    requires size <= |data|
    ensures result == KeyOf(data, size, pos)
  {
    result := 0;
    if pos + 2 < size {
      result := Xor(result, data[pos]);
      result := Xor(result, (data[pos + 1] as int) * 0x10);
      result := Xor(result, (data[pos + 2] as int) * 0x100);
    } else {
      if pos >= size { return 0; }
      var amount := size - pos;
      var i := 0;
      while i != amount
        invariant 0 <= i <= amount && result == Stacked(data, pos, i)
      {
        result := Xor(result, Shl(data[pos + i], i * 8));
        i := i + 1;
      }
    }
    result := result % HASH_NUM_VALUES;
  }

  /** As many zeros as follow, but no more than a match can have. */
  method CountZeros(data: seq<byte>, size: nat, pos: nat) returns (n: nat)
    requires pos <= size <= |data|
    ensures n <= MAX_LENGTH && pos + n <= size && ZerosAt(data, pos, n)
    ensures n < MAX_LENGTH && pos + n < size ==> data[pos + n] != 0
  {
    var end := if pos + MAX_LENGTH > size then size else pos + MAX_LENGTH;
    var p := pos;
    while p != end && data[p] == 0
      invariant pos <= p <= end && ZerosAt(data, pos, p - pos)
      decreases end - p
    {
      p := p + 1;
    }
    n := p - pos;
  }

  /** What is known of the count of zeros when a position is reached: one zero less than the
      count is certain. */
  ghost predicate Expected(data: seq<byte>, size: nat, pos: nat, numzeros: nat) {
    numzeros <= MAX_LENGTH && (numzeros > 0 ==> pos + numzeros - 1 <= size && ZerosAt(data, pos, numzeros - 1))
  }

  /** The count of zeros at a position, from the one at the position before it or at the same one. */
  method NextZeros(data: seq<byte>, size: nat, pos: nat, hashval: nat, numzeros: nat) returns (n: nat)
    requires pos < size <= |data| && Expected(data, size, pos, numzeros)
    ensures n <= MAX_LENGTH && pos + n <= size && ZerosAt(data, pos, n)
    ensures Expected(data, size, pos, n) && Expected(data, size, pos + 1, n)
  {
    n := numzeros;
    if hashval == 0 {
      if n == 0 {
        n := CountZeros(data, size, pos);
      } else if pos + n > size || data[pos + n - 1] != 0 {
        n := n - 1;
      }
    } else {
      n := 0;
    }
  }

  // ---------- matches

  /** Extends a match as far as it goes, from a distance that is already known to agree. */
  method Extend(data: seq<byte>, size: nat, pos: nat, offset: nat, skip: nat) returns (length: nat)
    requires pos < size <= |data| && skip <= MAX_LENGTH && pos + skip <= size && Repeats(data, pos, skip, offset)
    ensures length <= MAX_LENGTH && pos + length <= size && Repeats(data, pos, length, offset)
    ensures Maximal(data, size, pos, length, offset)
  {
    var last := if size < pos + MAX_LENGTH then size else pos + MAX_LENGTH;
    var fore := pos + skip;
    while fore != last && data[fore - offset] == data[fore]
      invariant pos <= fore <= last && Repeats(data, pos, fore - pos, offset)
      decreases last - fore
    {
      fore := fore + 1;
    }
    length := fore - pos;
  }

  /** Walks the chains for the longest match. */
  method FindMatch(hash: Hash, data: seq<byte>, size: nat, pos: nat, wpos: nat, hashval: nat, numzeros: nat,
                   maxchainlength: nat, nicematch: nat)
    returns (length: nat, offset: nat)
    requires hash.Entered(data, pos + 1) && pos < size <= |data| && wpos == pos % hash.windowsize
    requires numzeros <= MAX_LENGTH && pos + numzeros <= size && ZerosAt(data, pos, numzeros)
    requires hashval == hash.keys[pos]
    ensures Found(data, size, pos, hash.windowsize, length, offset) && Maximal(data, size, pos, length, offset)
    ensures Best(data, size, pos, hash.windowsize, hash.keys, hashval, maxchainlength, nicematch,
      Candidate(length, offset, numzeros))
    ensures hash.Entered(data, pos + 1)
  {
    hide ZerosAt, Walk, ChainsOk, Best, LastWith, CountWith, HeadOf, AllBeaten, Nearest, SlotOf, LastPos, Maximal,
      Repeats, Hash.HeadsOk;
    SlotIs(pos, hash.windowsize);
    var w := hash.windowsize;
    length, offset := 0, 0;
    OwnSlot(pos, w);
    assert SlotOk(data, pos + 1, w, wpos, hash.chain[wpos], hash.chainz[wpos], hash.zeros[wpos]);
    var hashpos := hash.chain[wpos];
    var prev := 0;
    var chainlength := 0;
    ghost var keys, val, chain, seen: nat, over := hash.keys, hash.val[..], hash.chain[..], pos, false;
    ghost var on := WalkBegins(data, size, w, keys, pos, numzeros, val, chain);
    NothingFound(data, size, pos, w);
    while chainlength < maxchainlength
      invariant Slot(hashpos, pos + 1, w) && Found(data, size, pos, w, length, offset)
      invariant Maximal(data, size, pos, length, offset) && !over
      invariant Walk(data, size, pos, w, keys, hashval, on, seen, hashpos, chainlength, prev,
        Candidate(length, offset, numzeros))
    {
      ghost var before, c, count := prev, Candidate(length, offset, numzeros), chainlength;
      chainlength := chainlength + 1;
      var current := if hashpos <= wpos then wpos - hashpos else wpos - hashpos + w;
      OffsetOf(data, size, pos, w, keys, hashval, on, seen, hashpos, count, before, c, wpos, current);
      if current < prev {
        over := true;
        EndedBest(data, size, pos, w, keys, hashval, maxchainlength, nicematch, on, seen, hashpos, count, before, c);
        break;
      }
      prev := current;
      assert SlotOk(data, pos + 1, w, hashpos, hash.chain[hashpos], hash.chainz[hashpos], hash.zeros[hashpos]);
      ghost var q: nat := 0;
      if current > 0 {
        LastPosInside(hashpos, pos + 1, w);
        var skip := 0;
        if numzeros >= 3 {
          skip := hash.zeros[hashpos];
          if skip > numzeros { skip := numzeros; }
        }
        OffsetIsLastPos(pos, hashpos, w, wpos, current);
        ZerosRepeat(data, pos, skip, current, hash.zeros[hashpos], numzeros);
        var currentLength := Extend(data, size, pos, current, skip);
        q := Looked(data, size, pos, w, keys, hashval, on, seen, hashpos, count, before, c, currentLength, current);
        if currentLength > length {
          length, offset := currentLength, current;
          if currentLength >= nicematch {
            over := true;
            NiceBest(data, size, pos, w, keys, hashval, maxchainlength, nicematch, Candidate(length, offset, numzeros));
            break;
          }
        }
      }
      ghost var b := Candidate(length, offset, numzeros);
      if on {
        on := Stepped(data, size, pos, w, keys, hashval, q, chainlength, b, val, chain);
      } else if current > 0 {
        OffTheChain(data, size, pos, w, keys, hashval, q, hash.chain[hashpos], chainlength, prev, b);
      } else {
        StayOff(data, size, pos, w, keys, hashval, on, seen, hashpos, count, before, c, q, hash.chain[hashpos],
          chainlength, prev);
      }
      seen := q;
      if hashpos == hash.chain[hashpos] {
        over := true;
        EndedBest(data, size, pos, w, keys, hashval, maxchainlength, nicematch, on, seen, hash.chain[hashpos],
          chainlength, prev, b);
        break;
      }
      if numzeros >= 3 && length > numzeros {
        StayOff(data, size, pos, w, keys, hashval, on, seen, hash.chain[hashpos], chainlength, prev, b, seen,
          hash.chainz[hashpos], chainlength, prev);
        on := false;
        hashpos := hash.chainz[hashpos];
        if hash.zeros[hashpos] != numzeros {
          over := true;
          EndedBest(data, size, pos, w, keys, hashval, maxchainlength, nicematch, on, seen, hashpos, chainlength, prev,
            b);
          break;
        }
      } else {
        hashpos := hash.chain[hashpos];
        if hash.val[hashpos] != hashval {
          over := true;
          EndedBest(data, size, pos, w, keys, hashval, maxchainlength, nicematch, on, seen, hashpos, chainlength, prev,
            b);
          break;
        }
      }
    }
    if !over {
      EndedBest(data, size, pos, w, keys, hashval, maxchainlength, nicematch, on, seen, hashpos, chainlength, prev,
        Candidate(length, offset, numzeros));
    }
  }

  lemma SlotIs(pos: nat, w: nat)
    requires w > 0
    ensures SlotOf(pos, w) == pos % w
  {
  }

  /** Before anything has been found. */
  lemma NothingFound(data: seq<byte>, size: nat, pos: nat, w: nat)
    requires pos <= size <= |data|
    ensures Found(data, size, pos, w, 0, 0) && Maximal(data, size, pos, 0, 0)
  {
  }

  /** The distance to the last position in a slot. */
  lemma OffsetIsLastPos(pos: nat, slot: nat, w: nat, own: nat, current: int)
    requires Slot(slot, pos + 1, w) && own == SlotOf(pos, w)
    requires current == if slot <= own then own - slot else own - slot + w
    ensures pos - current == LastPos(slot, pos + 1, w)
  {
  }

  /** Zeros at both places need not be compared. */
  lemma ZerosRepeat(data: seq<byte>, pos: nat, skip: nat, offset: nat, a: nat, b: nat)
    requires 0 < offset <= pos <= |data| && skip <= a && skip <= b
    requires ZerosAt(data, pos - offset, a) && ZerosAt(data, pos, b)
    ensures Repeats(data, pos, skip, offset)
  {
  }

  // ---------- the output

  /** The tokens of an encoding: literals, and matches inside the window that are worth it. */
  ghost predicate Acceptable(t: Token, w: nat, minmatch: nat) {
    t.Match? ==>
      && 3 <= t.length <= MAX_LENGTH && minmatch <= t.length && 1 <= t.distance < w
      && (t.length == 3 ==> t.distance <= 4096)
  }

  ghost predicate AllAcceptable(ts: seq<Token>, w: nat, minmatch: nat) {
    w <= 32768 && forall i :: 0 <= i < |ts| ==> Acceptable(ts[i], w, minmatch)
  }

  ghost function TokensFlat(ts: seq<Token>): (r: seq<nat>)
    requires forall i :: 0 <= i < |ts| ==> TokenOk(ts[i])
  {
    if ts == [] then [] else TokensFlat(ts[..|ts| - 1]) + Flat(ts[|ts| - 1])
  }

  /** The tokens so far put out, after what came before, the data up to done. */
  ghost predicate Encodes(data: seq<byte>, inpos: nat, done: nat, w: nat, minmatch: nat, ts: seq<Token>,
                          out: seq<nat>) {
    && inpos <= done <= |data| && AllAcceptable(ts, w, minmatch) && out == TokensFlat(ts)
    && AllReach(data[..inpos], ts) && Expand(data[..inpos], ts) == data[..done]
  }

  lemma FlatAppend(ts: seq<Token>, t: Token, w: nat, minmatch: nat)
    requires AllAcceptable(ts, w, minmatch) && Acceptable(t, w, minmatch)
    ensures AllAcceptable(ts + [t], w, minmatch) && TokensFlat(ts + [t]) == TokensFlat(ts) + Flat(t)
  {
    assert (ts + [t])[..|ts|] == ts;
  }

  lemma LiteralEncodes(data: seq<byte>, inpos: nat, done: nat, w: nat, minmatch: nat, ts: seq<Token>, out: seq<nat>)
    requires done < |data| && Encodes(data, inpos, done, w, minmatch, ts, out)
    ensures Encodes(data, inpos, done + 1, w, minmatch, ts + [Literal(data[done])], out + [data[done]])
  {
    FlatAppend(ts, Literal(data[done]), w, minmatch);
    LiteralExpands(data, inpos, done, ts);
  }

  lemma LiteralExpands(data: seq<byte>, inpos: nat, done: nat, ts: seq<Token>)
    requires inpos <= done < |data| && AllReach(data[..inpos], ts) && Expand(data[..inpos], ts) == data[..done]
    ensures AllReach(data[..inpos], ts + [Literal(data[done])])
    ensures Expand(data[..inpos], ts + [Literal(data[done])]) == data[..done + 1]
  {
    ExpandAppend(data[..inpos], ts, Literal(data[done]));
    assert data[..done + 1] == data[..done] + [data[done]];
  }

  lemma MatchEncodes(data: seq<byte>, inpos: nat, done: nat, w: nat, minmatch: nat, ts: seq<Token>, out: seq<nat>,
                     length: nat, offset: nat)
    requires Encodes(data, inpos, done, w, minmatch, ts, out) && Repeats(data, done, length, offset)
    requires Acceptable(Match(length, offset), w, minmatch)
    ensures TokenOk(Match(length, offset))
    ensures Encodes(data, inpos, done + length, w, minmatch, ts + [Match(length, offset)],
      out + Flat(Match(length, offset)))
  {
    var t := Match(length, offset);
    RepeatsCopy(data, done, length, offset);
    ExpandAppend(data[..inpos], ts, t);
    FlatAppend(ts, t, w, minmatch);
  }

  // ---------- the encoder

  /** The positions taken up so far have the keys of the job. */
  ghost predicate Taken(hash: Hash, j: Job, upto: nat, again: bool)
    reads hash.Frame()
  {
    && hash.Holds(j.data, upto, again) && j.w == hash.windowsize && upto <= |j.keys| && hash.keys == j.keys[..upto]
  }

  /** The keys of the part that is encoded are those of its bytes. */
  ghost predicate KeysOf(j: Job, inpos: nat) {
    && inpos <= j.size == |j.keys| <= |j.data| && IsPowerOfTwo(j.w)
    && forall q: nat :: inpos <= q < j.size ==> j.keys[q] == KeyOf(j.data, j.size, q)
  }

  /** Takes up one position: its two keys, and its places in the chains. */
  method Enter(hash: Hash, data: seq<byte>, insize: nat, pos: nat, zeros: nat, ghost j: Job, ghost inpos: nat,
               ghost again: bool)
    returns (wpos: nat, hashval: nat, numzeros: nat)
    requires data == j.data && insize == j.size && KeysOf(j, inpos) && inpos <= pos < insize
    requires Taken(hash, j, if again then pos + 1 else pos, again) && Expected(data, insize, pos, zeros)
    modifies hash.Frame()
    ensures Taken(hash, j, pos + 1, false) && wpos == pos % hash.windowsize
    ensures hashval == KeyOf(data, insize, pos) == hash.keys[pos] < HASH_NUM_VALUES
    ensures numzeros <= MAX_LENGTH && pos + numzeros <= insize && ZerosAt(data, pos, numzeros)
    ensures Expected(data, insize, pos, numzeros) && Expected(data, insize, pos + 1, numzeros)
  {
    hide Linked, ZerosAt, KeyOf, IsPowerOfTwo;
    wpos := And(pos, hash.windowsize - 1);
    WindowMask(pos, hash.windowsize);
    hashval := GetHash(data, insize, pos);
    numzeros := NextZeros(data, insize, pos, hashval, zeros);
    assert j.keys[..pos + 1] == j.keys[..pos] + [hashval];
    hash.UpdateHashChain(wpos, hashval, numzeros, data, pos, again);
  }

  /** Enters the positions inside a match that has just been put out. */
  method EnterMatch(hash: Hash, data: seq<byte>, insize: nat, start: nat, length: nat, zeros: nat, ghost j: Job,
                    ghost inpos: nat, ghost again: bool)
    returns (pos: nat, numzeros: nat)
    requires data == j.data && insize == j.size && KeysOf(j, inpos) && inpos <= start
    requires 2 <= length && start + length <= insize
    requires Taken(hash, j, if again then start + 2 else start + 1, again)
    requires Expected(data, insize, start + 1, zeros)
    modifies hash.Frame()
    ensures pos == start + length - 1
    ensures Taken(hash, j, start + length, false) && Expected(data, insize, start + length, numzeros)
  {
    hide Taken, KeysOf, Expected;
    pos, numzeros := start, zeros;
    ghost var more := again;
    var i := 1;
    while i < length
      invariant 1 <= i <= length && pos == start + i - 1 && (more ==> i == 1)
      invariant Taken(hash, j, if more then pos + 2 else pos + 1, more)
      invariant Expected(data, insize, pos + 1, numzeros)
    {
      pos := pos + 1;
      var wpos, hashval;
      wpos, hashval, numzeros := Enter(hash, data, insize, pos, numzeros, j, inpos, more);
      more := false;
      i := i + 1;
    }
  }

  /** Puts out a literal or a match at pos, whichever the settings prefer. */
  method Put(hash: Hash, data: seq<byte>, ghost inpos: nat, insize: nat, minmatch: nat, start: nat, length: nat,
             offset: nat, zeros: nat, values: seq<nat>, ghost tokens: seq<Token>, ghost j: Job, ghost c: Candidate,
             ghost again: bool)
    returns (pos: nat, numzeros: nat, out: seq<nat>, ghost ts: seq<Token>, ghost more: bool)
    requires data == j.data && insize == j.size && minmatch == j.minmatch && KeysOf(j, inpos) && inpos <= start < insize
    requires Found(data, insize, start, hash.windowsize, length, offset) && c.length == length && c.offset == offset
    requires Taken(hash, j, if again then start + 2 else start + 1, again) && (again ==> start + 1 < insize)
    requires Expected(data, insize, start + 1, zeros)
    requires Encodes(data, inpos, start, hash.windowsize, minmatch, tokens, values)
    modifies hash.Frame()
    ensures start < pos == EndAt(j, start, c) <= insize && Encodes(data, inpos, pos, hash.windowsize, minmatch, ts, out)
    ensures ts == tokens + [TokenAt(j, start, c)]
    ensures Taken(hash, j, if more then pos + 1 else pos, more) && (more ==> pos < insize)
      && Expected(data, insize, pos, numzeros)
  {
    hide Encodes, Expected, IsPowerOfTwo, Flat, Taken, KeysOf;
    if length < 3 || length < minmatch || (length == 3 && offset > 4096) {
      LiteralEncodes(data, inpos, start, hash.windowsize, minmatch, tokens, values);
      out, ts, more := values + [data[start]], tokens + [Literal(data[start])], again;
      pos, numzeros := start + 1, zeros;
    } else {
      MatchEncodes(data, inpos, start, hash.windowsize, minmatch, tokens, values, length, offset);
      out := AddLengthDistance(values, length, offset);
      ts := tokens + [Match(length, offset)];
      pos, numzeros := EnterMatch(hash, data, insize, start, length, zeros, j, inpos, again);
      pos := pos + 1;
      more := false;
    }
  }

  /** Decides between the match kept from the position before and the one found here: either the
      byte before becomes a literal, or the encoder steps back to it. */
  method Settle(hash: Hash, data: seq<byte>, ghost inpos: nat, insize: nat, ghost minmatch: nat, at: nat, here: nat,
                hereOffset: nat, lazylength: nat, lazyoffset: nat, hashval: nat, numzeros: nat, values: seq<nat>,
                ghost tokens: seq<Token>, ghost j: Job)
    returns (pos: nat, length: nat, offset: nat, out: seq<nat>, ghost ts: seq<Token>)
    requires data == j.data && inpos < at < insize && Taken(hash, j, at + 1, false)
    requires hashval == hash.keys[at] < HASH_NUM_VALUES && numzeros <= MAX_LENGTH
    requires Found(data, insize, at, hash.windowsize, here, hereOffset)
    requires Found(data, insize, at - 1, hash.windowsize, lazylength, lazyoffset)
    requires Encodes(data, inpos, at - 1, hash.windowsize, minmatch, tokens, values)
    modifies hash.Frame()
    ensures Taken(hash, j, at + 1, pos == at - 1)
    ensures Found(data, insize, pos, hash.windowsize, length, offset)
    ensures Encodes(data, inpos, pos, hash.windowsize, minmatch, ts, out)
    ensures if here > lazylength + 1
      then pos == at && length == here && offset == hereOffset && ts == tokens + [Literal(data[at - 1])]
      else pos == at - 1 && length == lazylength && offset == lazyoffset && ts == tokens
  {
    hide Encodes, Linked, Repeats, Hash.HeadsOk, Hash.SlotsOk;
    if here > lazylength + 1 {
      LiteralEncodes(data, inpos, at - 1, hash.windowsize, minmatch, tokens, values);
      out, ts := values + [data[at - 1]], tokens + [Literal(data[at - 1])];
      pos, length, offset := at, here, hereOffset;
    } else {
      length, offset := lazylength, lazyoffset;
      hash.ForgetHeads(hashval, numzeros, data, at + 1);
      pos, out, ts := at - 1, values, tokens;
    }
  }

  /** The choice is about the match that has been kept, if there is one, and about the one found here. */
  ghost predicate ChoiceFits(j: Job, c: Choice, at: nat, here: nat, hereOffset: nat, lazy: bool, lazylength: nat,
                             lazyoffset: nat) {
    if lazy then
      && c.at == at - 1 && PutOff(j, c.here) && c.here.length == lazylength && c.here.offset == lazyoffset
      && c.next.length == here && c.next.offset == hereOffset
    else c.at == at && !PutOff(j, c.here) && c.here.length == here && c.here.offset == hereOffset
  }

  /** What becomes of a position that is not put off. */
  method Decide(hash: Hash, data: seq<byte>, ghost inpos: nat, insize: nat, minmatch: nat, at: nat, here: nat,
                hereOffset: nat, lazy: bool, lazylength: nat, lazyoffset: nat, hashval: nat, zeros: nat,
                values: seq<nat>, ghost tokens: seq<Token>, ghost j: Job, ghost cs: seq<Choice>, ghost c: Choice)
    returns (pos: nat, numzeros: nat, out: seq<nat>, ghost ts: seq<Token>, ghost more: bool)
    requires data == j.data && insize == j.size && minmatch == j.minmatch && KeysOf(j, inpos) && inpos <= at < insize
    requires Taken(hash, j, at + 1, false) && hashval == hash.keys[at] < HASH_NUM_VALUES && zeros <= MAX_LENGTH
    requires Expected(data, insize, at, zeros) && Expected(data, insize, at + 1, zeros) && (lazy ==> inpos < at)
    requires Encodes(data, inpos, c.at, hash.windowsize, minmatch, tokens, values)
    requires Decided(j, inpos, cs, c.at, tokens) && ChoiceOk(j, c)
    requires ChoiceFits(j, c, at, here, hereOffset, lazy, lazylength, lazyoffset)
    modifies hash.Frame()
    ensures c.at < pos <= insize
    ensures Encodes(data, inpos, pos, hash.windowsize, minmatch, ts, out) && Decided(j, inpos, cs + [c], pos, ts)
    ensures Taken(hash, j, if more then pos + 1 else pos, more) && (more ==> pos < insize)
    ensures Expected(data, insize, pos, numzeros)
  {
    hide *;
    var length, offset;
    TakenIs(hash, j, at + 1);
    ChoiceFitsIs(j, c, at, here, hereOffset, lazy, lazylength, lazyoffset);
    pos, length, offset, out, ts := at, here, hereOffset, values, tokens;
    DecideOne(j, inpos, cs, c.at, tokens, c);
    ChoiceFound(j, c);
    if lazy {
      assert at != 0;  // error 81 cannot occur
      pos, length, offset, out, ts := Settle(hash, data, inpos, insize, minmatch, at, here, hereOffset, lazylength,
        lazyoffset, hashval, zeros, values, tokens, j);
    }
    FoundInside(data, insize, pos, hash.windowsize, length, offset);
    assert length >= 3 ==> offset <= hash.windowsize;  // error 86 cannot occur
    ghost var best := if pos == c.at then c.here else c.next;
    ghost var start := pos;
    pos, numzeros, out, ts, more := Put(hash, data, inpos, insize, minmatch, pos, length, offset, zeros, out, ts, j,
      best,
      pos == at - 1);
    ChoiceIs(j, c, start, best, tokens);
  }

  lemma ChoiceFitsIs(j: Job, c: Choice, at: nat, here: nat, hereOffset: nat, lazy: bool, lazylength: nat,
                     lazyoffset: nat)
    requires ChoiceFits(j, c, at, here, hereOffset, lazy, lazylength, lazyoffset)
    ensures lazy ==> c.at == at - 1 && PutOff(j, c.here) && c.here.length == lazylength && c.here.offset == lazyoffset
    ensures lazy ==> c.next.length == here && c.next.offset == hereOffset
    ensures !lazy ==> c.at == at && !PutOff(j, c.here) && c.here.length == here && c.here.offset == hereOffset
    ensures NextWins(j, c) <==> lazy && here > lazylength + 1
  {
    hide PutOff;
  }

  lemma ChoiceFound(j: Job, c: Choice)
    requires ChoiceOk(j, c)
    ensures c.at < |j.data| && (PutOff(j, c.here) ==> c.at + 1 < |j.data|)
    ensures Found(j.data, j.size, c.at, j.w, c.here.length, c.here.offset)
    ensures PutOff(j, c.here) ==> Found(j.data, j.size, c.at + 1, j.w, c.next.length, c.next.offset)
  {
    hide Found, Maximal, Best, ZerosAt, PutOff;
  }

  lemma FoundInside(data: seq<byte>, size: nat, pos: nat, w: nat, length: nat, offset: nat)
    requires Found(data, size, pos, w, length, offset)
    ensures pos + length <= size && (length > 0 ==> offset < w)
  {
  }

  /** The tokens of a choice, from where its last token stands. */
  lemma ChoiceIs(j: Job, c: Choice, start: nat, best: Candidate, tokens: seq<Token>)
    requires ChoiceOk(j, c) && start < |j.data| && c.at < |j.data|
    requires if NextWins(j, c) then start == c.at + 1 && best == c.next else start == c.at && best == c.here
    ensures ChoiceEnd(j, c) == EndAt(j, start, best)
    ensures tokens + ChoiceTokens(j, c)
      == (if NextWins(j, c) then tokens + [Literal(j.data[c.at])] else tokens) + [TokenAt(j, start, best)]
  {
    hide CandidateOk, Worth;
  }

  predicate IsPowerOfTwo(w: nat) {
    w > 0 && And(w, w - 1) == 0
  }

  lemma WindowMask(pos: nat, w: nat)
    requires IsPowerOfTwo(w)
    ensures And(pos, w - 1) == pos % w
  {
    var k := PowerOfTwo(w);
    AndMask(pos, k);
  }

  function WindowError(windowsize: nat): nat {
    if windowsize == 0 || windowsize > 32768 then 60
    else if And(windowsize, windowsize - 1) != 0 then 90
    else 0
  }

  /** The keys of the positions from one place to another. */
  ghost function NewKeys(data: seq<byte>, size: nat, from: nat, end: nat): (keys: seq<nat>)
    requires from <= end && size <= |data|
    ensures |keys| == end - from && forall q: nat :: from <= q < end ==> keys[q - from] == KeyOf(data, size, q)
    decreases end
  {
    if from == end then [] else NewKeys(data, size, from, end - 1) + [KeyOf(data, size, end - 1)]
  }

  /** What a run of the encoder is asked to do. */
  ghost function JobOf(data: seq<byte>, inpos: nat, insize: nat, windowsize: nat, minmatch: nat, nicematch: nat,
                       lazymatching: bool, keys: seq<nat>): (j: Job)
    requires inpos <= insize <= |data| && |keys| == inpos
    ensures |j.keys| == insize && j.keys[..inpos] == keys
  {
    Job(data, insize, windowsize,
        keys + NewKeys(data, insize, inpos, insize),
        minmatch, if nicematch > MAX_LENGTH then MAX_LENGTH else nicematch, lazymatching)
  }

  lemma JobKeys(data: seq<byte>, inpos: nat, insize: nat, windowsize: nat, minmatch: nat, nicematch: nat,
                lazymatching: bool, keys: seq<nat>)
    requires inpos <= insize <= |data| && |keys| == inpos && IsPowerOfTwo(windowsize)
    ensures KeysOf(JobOf(data, inpos, insize, windowsize, minmatch, nicematch, lazymatching, keys), inpos)
  {
    hide KeyOf, IsPowerOfTwo;
  }

  /** The result of the search at a position, in terms of the whole job. */
  lemma CandidateFound(j: Job, inpos: nat, pos: nat, keys: seq<nat>, c: Candidate)
    requires KeysOf(j, inpos) && inpos <= pos < j.size && keys == j.keys[..pos + 1]
    requires Found(j.data, j.size, pos, j.w, c.length, c.offset) && Maximal(j.data, j.size, pos, c.length, c.offset)
    requires ZerosAt(j.data, pos, c.zeros)
    requires Best(j.data, j.size, pos, j.w, keys, KeyOf(j.data, j.size, pos), MaxChain(j.w), j.nice, c)
    ensures CandidateOk(j, pos, c)
  {
    hide Found, Maximal, ZerosAt, Best, KeyOf, IsPowerOfTwo;
    BestPrefix(j.data, j.size, pos, j.w, keys, j.keys, KeyOf(j.data, j.size, pos), MaxChain(j.w), j.nice, c);
  }

  lemma KeysBound(j: Job, inpos: nat)
    requires KeysOf(j, inpos)
    ensures j.size <= |j.data|
  {
    hide KeyOf;
  }

  /** Enters a position and searches it. */
  method Search(hash: Hash, data: seq<byte>, insize: nat, pos: nat, zeros: nat, maxchainlength: nat, nice: nat,
                ghost j: Job, ghost inpos: nat, ghost again: bool)
    returns (hashval: nat, numzeros: nat, length: nat, offset: nat)
    requires data == j.data && insize == j.size && KeysOf(j, inpos) && inpos <= pos < insize
    requires maxchainlength == MaxChain(j.w) && nice == j.nice
    requires Taken(hash, j, if again then pos + 1 else pos, again) && Expected(data, insize, pos, zeros)
    modifies hash.Frame()
    ensures Taken(hash, j, pos + 1, false) && hashval == hash.keys[pos] < HASH_NUM_VALUES && numzeros <= MAX_LENGTH
    ensures Expected(data, insize, pos, numzeros) && Expected(data, insize, pos + 1, numzeros)
    ensures pos + length <= insize
    ensures CandidateOk(j, pos, Candidate(length, offset, numzeros))
  {
    hide *;
    var wpos;
    KeysBound(j, inpos);
    wpos, hashval, numzeros := Enter(hash, data, insize, pos, zeros, j, inpos, again);
    TakenIs(hash, j, pos + 1);
    length, offset := FindMatch(hash, data, insize, pos, wpos, hashval, numzeros, maxchainlength, nice);
    TakenFrom(hash, j, pos + 1);
    CandidateFound(j, inpos, pos, hash.keys, Candidate(length, offset, numzeros));
    FoundInside(data, insize, pos, j.w, length, offset);
  }

  /** The loop over the positions. */
  method EncodeAll(hash: Hash, data: seq<byte>, inpos: nat, insize: nat, minmatch: nat, nice: nat, lazymatching: bool,
                   maxchainlength: nat, maxlazymatch: nat, ghost j: Job)
    returns (out: seq<nat>, ghost ts: seq<Token>, ghost cs: seq<Choice>)
    requires data == j.data && insize == j.size && minmatch == j.minmatch && nice == j.nice && lazymatching == j.lazy
    requires maxchainlength == MaxChain(j.w) && maxlazymatch == MaxLazy(j.w) && j.w <= 32768
    requires inpos <= insize && KeysOf(j, inpos) && Taken(hash, j, inpos, false)
    modifies hash.Frame()
    ensures Encodes(data, inpos, insize, j.w, minmatch, ts, out) && Decided(j, inpos, cs, insize, ts)
    ensures Taken(hash, j, insize, false)
  {
    hide *;
    out, ts, cs := [], [], [];
    var numzeros: nat := 0;
    var lazy := false;
    var lazylength: nat, lazyoffset: nat := 0, 0;
    ghost var again, kept := false, Candidate(0, 0, 0);
    var pos: nat := inpos;
    NothingYet(j, inpos, minmatch);
    TakenIs(hash, j, inpos);
    ghost var upto: nat, done: nat := inpos, inpos;
    while pos < insize
      invariant inpos <= pos <= insize && (lazy ==> inpos < pos < insize && !again)
      invariant upto == if again then pos + 1 else pos
      invariant done == if lazy then pos - 1 else pos
      invariant Taken(hash, j, upto, again) && (again ==> pos < insize)
      invariant Expected(data, insize, pos, numzeros)
      invariant Encodes(data, inpos, done, j.w, minmatch, ts, out)
      invariant Decided(j, inpos, cs, done, ts)
      invariant lazy ==> CandidateOk(j, pos - 1, kept) && PutOff(j, kept)
      invariant kept.length == lazylength && kept.offset == lazyoffset
      decreases insize - pos + (if lazy then 1 else 0), !lazy
    {
      var hashval, length, offset;
      hashval, numzeros, length, offset := Search(hash, data, insize, pos, numzeros, maxchainlength, nice, j, inpos,
        again);
      again := false;
      ghost var c := Candidate(length, offset, numzeros);
      PutOffIs(j, c);
      if lazymatching && !lazy && length >= 3 && length <= maxlazymatch && length < MAX_LENGTH {
        lazy, lazylength, lazyoffset, kept := true, length, offset, c;
        pos := pos + 1;
      } else {
        ghost var choice := ChoiceMade(j, pos, lazy, kept, c);
        pos, numzeros, out, ts, again := Decide(hash, data, inpos, insize, minmatch, pos, length, offset, lazy,
          lazylength, lazyoffset, hashval, numzeros, out, ts, j, cs, choice);
        cs := cs + [choice];
        lazy := false;
        done := pos;
      }
      upto := if again then pos + 1 else pos;
    }
  }

  lemma NothingYet(j: Job, inpos: nat, minmatch: nat)
    requires KeysOf(j, inpos) && j.w <= 32768
    ensures Expected(j.data, j.size, inpos, 0)
    ensures Encodes(j.data, inpos, inpos, j.w, minmatch, [], []) && Decided(j, inpos, [], inpos, [])
  {
    hide IsPowerOfTwo, KeyOf;
  }

  /** Encodes data[inpos..insize), with data[..inpos) as history. */
  method EncodeLZ77(hash: Hash, data: seq<byte>, inpos: nat, insize: nat, windowsize: nat,
                    minmatch: nat, nicematch: nat, lazymatching: bool)
    returns (out: seq<nat>, error: nat, ghost ts: seq<Token>, ghost cs: seq<Choice>)
    requires inpos <= insize <= |data| && hash.windowsize == windowsize
    requires windowsize > 0 ==> hash.Entered(data, inpos)
    modifies hash.Frame()
    ensures error == WindowError(windowsize)
    ensures error == 0 ==> Encodes(data, inpos, insize, windowsize, minmatch, ts, out) && hash.Entered(data, insize)
    ensures error == 0 ==>
      |old(hash.keys)| == inpos
      && var j := JobOf(data, inpos, insize, windowsize, minmatch, nicematch, lazymatching, old(hash.keys));
      Decided(j, inpos, cs, insize, ts) && hash.keys == j.keys
  {
    out, ts, cs := [], [], [];
    var maxchainlength := if windowsize >= 8192 then windowsize else windowsize / 8;
    var maxlazymatch := if windowsize >= 8192 then MAX_LENGTH else 64;
    if windowsize == 0 || windowsize > 32768 { return out, 60, ts, cs; }
    if And(windowsize, windowsize - 1) != 0 { return out, 90, ts, cs; }
    assert IsPowerOfTwo(windowsize) && |hash.keys| == inpos;
    hide IsPowerOfTwo, Encodes, And, Linked, Decided, KeysOf, JobOf, Hash.SlotsOk, Hash.HeadsOk;
    ghost var j := JobOf(data, inpos, insize, windowsize, minmatch, nicematch, lazymatching, hash.keys);
    JobIs(data, inpos, insize, windowsize, minmatch, nicematch, lazymatching, hash.keys);
    JobKeys(data, inpos, insize, windowsize, minmatch, nicematch, lazymatching, hash.keys);
    error := 0;
    var nice := if nicematch > MAX_LENGTH then MAX_LENGTH else nicematch;
    out, ts, cs := EncodeAll(hash, data, inpos, insize, minmatch, nice, lazymatching, maxchainlength, maxlazymatch, j);
    TakenIs(hash, j, insize);
    assert j.keys[..insize] == j.keys;
  }

  lemma PutOffIs(j: Job, c: Candidate)
    ensures PutOff(j, c)
      <==> j.lazy && c.length >= 3 && c.length <= MaxLazy(j.w) && c.length < MAX_LENGTH
  {
  }

  lemma ChoiceMade(j: Job, pos: nat, lazy: bool, kept: Candidate, c: Candidate) returns (choice: Choice)
    requires CandidateOk(j, pos, c)
    requires if lazy then pos > 0 && CandidateOk(j, pos - 1, kept) && PutOff(j, kept) else !PutOff(j, c)
    ensures ChoiceOk(j, choice) && choice.at == if lazy then pos - 1 else pos
    ensures ChoiceFits(j, choice, pos, c.length, c.offset, lazy, kept.length, kept.offset)
  {
    hide CandidateOk, PutOff;
    choice := if lazy then Choice(pos - 1, kept, c) else Choice(pos, c, c);
  }

  lemma JobIs(data: seq<byte>, inpos: nat, insize: nat, windowsize: nat, minmatch: nat, nicematch: nat,
              lazymatching: bool, keys: seq<nat>)
    requires inpos <= insize <= |data| && |keys| == inpos
    ensures var j := JobOf(data, inpos, insize, windowsize, minmatch, nicematch, lazymatching, keys);
      && j.data == data && j.size == insize && j.w == windowsize && j.minmatch == minmatch
      && j.nice == (if nicematch > MAX_LENGTH then MAX_LENGTH else nicematch) && j.lazy == lazymatching
  {
  }

  lemma TakenIs(hash: Hash, j: Job, upto: nat)
    requires Taken(hash, j, upto, false)
    ensures hash.Entered(j.data, upto) && upto <= |j.keys| && hash.keys == j.keys[..upto] && j.w == hash.windowsize
  {
  }

  lemma TakenFrom(hash: Hash, j: Job, upto: nat)
    requires hash.Entered(j.data, upto) && upto <= |j.keys| && hash.keys == j.keys[..upto] && j.w == hash.windowsize
    ensures Taken(hash, j, upto, false)
  {
  }
}
