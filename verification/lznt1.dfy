/** LZNT1 decompression (section 2.5 of [MS-XCA]): the two fields of a copy share 16 bits, and the
    border between them moves as the output grows. */
module Lznt1 {
  import opened Bits
  import DeflateSpec

  // ---------- the border between length and distance

  /** While the output is n bytes long, the length has this many bits. */
  function Split(n: nat): int {
    SplitFrom(n, 12, 16)
  }

  function SplitFrom(n: nat, split: int, threshold: nat): int
    requires threshold > 0
    decreases n - threshold
  {
    if n <= threshold then split else SplitFrom(n, split - 1, 2 * threshold)
  }

  /** The loop of the source, in general. */
  lemma {:induction false} SplitFromIs(n: nat, split: int, k: nat)
    requires split == 12 - k && (k > 0 ==> n > Pow2(k + 3))
    ensures var s := SplitFrom(n, split, Pow2(k + 4));
      s <= split && n <= Pow2(16 - s) && (s < 12 ==> n > Pow2(15 - s))
    decreases n - Pow2(k + 4)
  {
    if n > Pow2(k + 4) {
      assert Pow2(k + 5) == 2 * Pow2(k + 4);
      SplitFromIs(n, split - 1, k + 1);
    } else {
      assert 16 - split == k + 4;
    }
  }

  /** The distance field is the shortest of 4 bits or more that covers the output so far. */
  lemma SplitIsLeast(n: nat)
    ensures Split(n) <= 12 && n <= Pow2(16 - Split(n))
    ensures forall k: nat :: k >= 4 && n <= Pow2(k) ==> 16 - Split(n) <= k
  {
    assert Pow2(4) == 16;
    SplitFromIs(n, 12, 0);
    forall k: nat | k >= 4 && n <= Pow2(k) ensures 16 - Split(n) <= k {
      if k < 16 - Split(n) { Pow2Mono(k, 15 - Split(n)); }
    }
  }

  /** The length field has bits left, or none, as long as the output has at most 65536 bytes; up to
      4096 bytes, the most that a block of the format has, it has 4 bits at least. */
  lemma SplitInRange(n: nat)
    ensures Split(n) >= 0 <==> n <= 0x1_0000
    ensures n <= 4096 ==> Split(n) >= 4
  {
    SplitIsLeast(n);
    assert Pow2(12) == 4096 && Pow2(16) == 0x1_0000 by { assert Pow2(6) == 64; Pow2Add(6, 6); Pow2Add(12, 4); }
    if Split(n) >= 0 { Pow2Mono(16 - Split(n), 16); }
  }

  // ---------- the fields

  function ValueLen(tuple: nat, split: nat): (len: nat)
    ensures len >= 3
  {
    Low(tuple, split) + 3
  }

  function ValueOffset(tuple: nat, split: nat): (distance: nat)
    ensures distance >= 1
  {
    Shr(tuple, split) + 1
  }

  /** Every distance that the output so far allows can be expressed, and every length that the
      length field has room for. */
  lemma Expressible(n: nat, length: nat, distance: nat) returns (tuple: nat)
    requires Split(n) >= 0 && 1 <= distance <= n && 3 <= length < Pow2(Split(n)) + 3
    ensures tuple < 0x1_0000 && ValueLen(tuple, Split(n)) == length && ValueOffset(tuple, Split(n)) == distance
  {
    SplitIsLeast(n);
    SplitInRange(n);
    Pow2Is16();
    hide Split, SplitFrom, Pow2;
    var s := Split(n);
    tuple := Shl(distance - 1, s) + (length - 3);
    DivModUnique(tuple, Pow2(s), distance - 1, length - 3);
    MulStrict(distance - 1, Pow2(16 - s), Pow2(s));
    Pow2Add(16 - s, s);
  }

  lemma Pow2Is16()
    ensures Pow2(16) == 0x1_0000
  {
    assert Pow2(8) == 256;
    Pow2Add(8, 8);
  }

  // ---------- values

  datatype Value = Byte(b: byte) | Copy(length: nat, distance: nat)

  function Length(v: Value): nat {
    if v.Byte? then 1 else v.length
  }

  function Total(vs: seq<Value>): nat {
    if vs == [] then 0 else Total(vs[..|vs| - 1]) + Length(vs[|vs| - 1])
  }

  /** No copy reaches back before the block. */
  ghost predicate Legal(vs: seq<Value>) {
    forall i {:trigger vs[i]} :: 0 <= i < |vs| && vs[i].Copy? ==> 0 < vs[i].distance <= Total(vs[..i])
  }

  /** What the values of a block stand for. */
  function Expand(vs: seq<Value>): (out: seq<byte>)
    requires Legal(vs)
    ensures |out| == Total(vs)
  {
    if vs == [] then []
    else
      LegalPrefix(vs, |vs| - 1);
      var before, v := Expand(vs[..|vs| - 1]), vs[|vs| - 1];
      if v.Byte? then before + [v.b] else DeflateSpec.Copy(before, v.length, v.distance)
  }

  lemma LegalPrefix(vs: seq<Value>, n: nat)
    requires Legal(vs) && n <= |vs|
    ensures Legal(vs[..n])
  {
    forall i | 0 <= i < n && vs[..n][i].Copy? ensures 0 < vs[..n][i].distance <= Total(vs[..n][..i]) {
      assert vs[..n][..i] == vs[..i] && vs[..n][i] == vs[i];
    }
  }

  // ---------- reading a block

  datatype Status = Fine | Overrun | Unsupported

  /** The values of a block and how reading them ended. */
  datatype Parsed = Parsed(vs: seq<Value>, status: Status)

  function Prepend(v: Value, p: Parsed): Parsed {
    Parsed([v] + p.vs, p.status)
  }

  /** The values from offset on: eight of them after each tag byte, whose bits say which of them are
      copies. A copy that begins after more than 65536 bytes has no bits for its length. */
  function Parse(data: seq<byte>, limit: nat, offset: nat, tagBit: nat, tag: nat, n: nat): Parsed
    requires offset <= limit <= |data|
    decreases limit - offset, 1
  {
    if offset == limit then Parsed([], Fine)
    else if tagBit == 0 then
      if offset + 1 == limit then Parsed([], Fine) else ParseValue(data, limit, offset + 1, tagBit, data[offset], n)
    else ParseValue(data, limit, offset, tagBit, tag, n)
  }

  function ParseValue(data: seq<byte>, limit: nat, offset: nat, tagBit: nat, tag: nat, n: nat): Parsed
    requires offset < limit <= |data|
    decreases limit - offset, 0
  {
    if tag % 2 == 1 then
      if offset + 2 > limit then Parsed([], Overrun)
      else if Split(n) < 0 then Parsed([], Unsupported)
      else
        var tuple := Word(data, offset);
        var v := Copy(ValueLen(tuple, Split(n)), ValueOffset(tuple, Split(n)));
        Prepend(v, Parse(data, limit, offset + 2, (tagBit + 1) % 8, tag / 2, n + v.length))
    else Prepend(Byte(data[offset]), Parse(data, limit, offset + 1, (tagBit + 1) % 8, tag / 2, n + 1))
  }

  // ---------- the block decoder

  /** What has been read so far, and what is still to be read. */
  ghost predicate Reading(goal: Parsed, done: seq<Value>, rest: Parsed) {
    goal.vs == done + rest.vs && goal.status == rest.status
  }

  lemma ReadOne(goal: Parsed, done: seq<Value>, v: Value, rest: Parsed)
    requires Reading(goal, done, Prepend(v, rest))
    ensures Reading(goal, done + [v], rest) && Total(done + [v]) == Total(done) + Length(v)
  {
    assert done + ([v] + rest.vs) == (done + [v]) + rest.vs;
    assert (done + [v])[..|done|] == done;
  }

  /** The buffer holds the output of the block so far, if there is a buffer; what lies before the
      block is as it was. */
  ghost predicate Holds(buf: array?<byte>, base: nat, before: seq<byte>, done: seq<Value>)
    reads buf
  {
    buf != null ==>
      && Legal(done) && base + Total(done) <= buf.Length == |before|
      && buf[base..base + Total(done)] == Expand(done) && buf[..base] == before[..base]
  }

  method PutByte(buf: array<byte>, base: nat, ghost before: seq<byte>, ghost done: seq<Value>, at: nat, b: byte)
    requires Holds(buf, base, before, done) && at == base + Total(done) < buf.Length
    modifies buf
    ensures Holds(buf, base, before, done + [Byte(b)])
  {
    hide Expand, Total;
    ghost var was := buf[..];
    ghost var n := Total(done);
    buf[at] := b;
    OneByte(done, b);
    assert buf[base..base + n] == was[base..base + n];
    assert buf[base..base + n + 1] == buf[base..base + n] + [b];
    assert buf[..base] == was[..base];
  }

  lemma OneByte(done: seq<Value>, b: byte)
    requires Legal(done)
    ensures Legal(done + [Byte(b)]) && Total(done + [Byte(b)]) == Total(done) + 1
    ensures Expand(done + [Byte(b)]) == Expand(done) + [b]
  {
    LegalAppend(done, Byte(b));
    assert (done + [Byte(b)])[..|done|] == done;
  }

  lemma LegalAppend(done: seq<Value>, v: Value)
    requires Legal(done) && (v.Copy? ==> 0 < v.distance <= Total(done))
    ensures Legal(done + [v])
  {
    var all := done + [v];
    forall i | 0 <= i < |all| && all[i].Copy? ensures 0 < all[i].distance <= Total(all[..i]) {
      if i < |done| {
        assert all[..i] == done[..i] && all[i] == done[i];
      } else {
        assert all[..i] == done;
      }
    }
  }

  lemma OneCopy(done: seq<Value>, length: nat, distance: nat)
    requires Legal(done) && 0 < distance <= Total(done)
    ensures Legal(done + [Copy(length, distance)]) && Total(done + [Copy(length, distance)]) == Total(done) + length
    ensures Expand(done + [Copy(length, distance)]) == DeflateSpec.Copy(Expand(done), length, distance)
  {
    LegalAppend(done, Copy(length, distance));
    assert (done + [Copy(length, distance)])[..|done|] == done;
  }

  /** Byte by byte, so that a copy may overlap what it puts out. */
  method PutCopy(buf: array<byte>, base: nat, ghost before: seq<byte>, ghost done: seq<Value>, at: nat, length: nat,
                 distance: nat)
    requires Holds(buf, base, before, done) && at == base + Total(done) && at + length <= buf.Length
    requires 0 < distance <= Total(done)
    modifies buf
    ensures Holds(buf, base, before, done + [Copy(length, distance)])
  {
    hide Expand, Total;
    ghost var was := buf[..];
    var dest, src := at, at - distance;
    var left: nat := length;
    while left != 0
      invariant 0 <= left <= length && dest == at + (length - left) && src == dest - distance
      invariant forall k: int :: at <= k < dest ==> buf[k] == buf[k - distance]
      invariant forall k: int :: 0 <= k < at ==> buf[k] == was[k]
    {
      buf[dest] := buf[src];
      dest, src, left := dest + 1, src + 1, left - 1;
    }
    CopiedBlock(buf[..], was, base, at, length, distance, Expand(done));
    OneCopy(done, length, distance);
  }

  lemma CopiedBlock(now: seq<byte>, was: seq<byte>, base: nat, at: nat, length: nat, distance: nat, out: seq<byte>)
    requires |now| == |was| && base <= at && at + length <= |now| && 0 < distance <= |out| && was[base..at] == out
    requires forall k: int :: at <= k < at + length ==> now[k] == now[k - distance]
    requires forall k: int :: 0 <= k < at ==> now[k] == was[k]
    ensures now[base..at + length] == DeflateSpec.Copy(out, length, distance) && now[..base] == was[..base]
  {
    var d := now[base..at + length];
    assert d[..|out|] == out;
    assert DeflateSpec.Repeats(d, |out|, length, distance);
    DeflateSpec.RepeatsCopy(d, |out|, length, distance);
    assert d[..|out| + length] == d;
  }

  /** The split and the threshold follow the length of the output. */
  method UpdateSplit(n: nat, split: int, threshold: nat) returns (s: int, t: nat)
    requires threshold > 0 && split <= 12 && SplitFrom(n, split, threshold) == Split(n) && threshold == Threshold(split)
    ensures s == Split(n) && t == Threshold(s) && n <= t
  {
    s, t := split, threshold;
    while n > t
      invariant t > 0 && s <= 12 && SplitFrom(n, s, t) == Split(n) && t == Threshold(s)
      decreases n - t
    {
      s := s - 1;
      t := 2 * t;
    }
  }

  /** The threshold that belongs to a split: 2^(16 - split). */
  function Threshold(split: int): nat {
    if split >= 16 then 1 else Pow2(16 - split)
  }

  /** A longer output only moves the border on. */
  lemma {:induction false} SplitOn(m: nat, n: nat, split: int, threshold: nat)
    requires threshold > 0 && m <= n
    ensures SplitFrom(n, split, threshold)
         == SplitFrom(n, SplitFrom(m, split, threshold), ThresholdFrom(m, threshold))
    decreases m - threshold
  {
    if m > threshold { SplitOn(m, n, split - 1, 2 * threshold); }
  }

  function ThresholdFrom(n: nat, threshold: nat): (t: nat)
    requires threshold > 0
    ensures t > 0
    decreases n - threshold
  {
    if n <= threshold then threshold else ThresholdFrom(n, 2 * threshold)
  }

  lemma {:induction false} ThresholdsAgree(n: nat, split: int, threshold: nat)
    requires threshold > 0 && split <= 12 && threshold == Threshold(split)
    ensures ThresholdFrom(n, threshold) == Threshold(SplitFrom(n, split, threshold))
    decreases n - threshold
  {
    if n > threshold {
      assert Pow2(16 - (split - 1)) == 2 * Pow2(16 - split);
      ThresholdsAgree(n, split - 1, 2 * threshold);
    }
  }

  /** The state of the decoder is enough to go on. */
  lemma SplitContinues(m: nat, n: nat)
    requires m <= n
    ensures Threshold(Split(m)) > 0 && SplitFrom(n, Split(m), Threshold(Split(m))) == Split(n)
  {
    assert Pow2(4) == 16;
    SplitOn(m, n, 12, 16);
    ThresholdsAgree(m, 12, 16);
  }

  /** Appending values only makes the output longer. */
  lemma {:induction false} TotalPrefix(vs: seq<Value>, n: nat)
    requires n <= |vs|
    ensures Total(vs[..n]) <= Total(vs)
    decreases |vs| - n
  {
    if n == |vs| {
      assert vs[..n] == vs;
    } else {
      TotalPrefix(vs, n + 1);
      assert vs[..n + 1][..n] == vs[..n];
    }
  }

  /** What is known when the buffer is in use: all values are legal and there is room for them. */
  ghost predicate Room(buf: array?<byte>, base: nat, vs: seq<Value>) {
    buf != null ==> Legal(vs) && base + Total(vs) <= buf.Length
  }

  lemma RoomForNext(buf: array?<byte>, base: nat, vs: seq<Value>, done: seq<Value>, v: Value, rest: seq<Value>)
    requires Room(buf, base, vs) && vs == done + ([v] + rest) && buf != null
    ensures base + Total(done) + Length(v) <= buf.Length && (v.Copy? ==> 0 < v.distance <= Total(done))
  {
    assert vs[..|done|] == done && vs[|done|] == v;
    assert vs[..|done| + 1] == done + [v];
    assert (done + [v])[..|done|] == done;
    TotalPrefix(vs, |done| + 1);
  }

  /** Puts out one value, if there is a buffer. */
  method PutValue(buf: array?<byte>, base: nat, ghost before: seq<byte>, ghost vs: seq<Value>, ghost done: seq<Value>,
                  n: nat, v: Value,
                  ghost rest: seq<Value>)
    requires Holds(buf, base, before, done) && n == Total(done) && Room(buf, base, vs) && vs == done + ([v] + rest)
    modifies if buf == null then {} else {buf}
    ensures Holds(buf, base, before, done + [v])
  {
    hide Holds, Expand, Total, Legal;
    if buf != null {
      RoomForNext(buf, base, vs, done, v, rest);
      if v.Byte? {
        PutByte(buf, base, before, done, base + n, v.b);
      } else {
        PutCopy(buf, base, before, done, base + n, v.length, v.distance);
      }
    } else {
      NoBuffer(base, before, done + [v]);
    }
  }

  lemma NoBuffer(base: nat, before: seq<byte>, done: seq<Value>)
    ensures Holds(null, base, before, done)
  {
  }

  /** lznt1_block: with a buffer it writes the expansion of the values; without one it only measures
      it. The result is the same in both modes. */
  method Block(data: seq<byte>, limit: nat, start: nat, buf: array?<byte>, base: nat) returns (outLen: int)
    requires start <= limit <= |data| && Parse(data, limit, start, 0, 0, 0).status != Unsupported
    requires Room(buf, base, Parse(data, limit, start, 0, 0, 0).vs) && (buf != null ==> base <= buf.Length)
    modifies if buf == null then {} else {buf}
    ensures var p := Parse(data, limit, start, 0, 0, 0);
      && outLen == (if p.status == Fine then Total(p.vs) else -1)
      && Holds(buf, base, if buf == null then [] else old(buf[..]), p.vs)
  {
    hide Holds, Expand, Total, Legal, Room, Split, SplitFrom, Threshold, ValueLen, ValueOffset, Parse, ParseValue;
    ghost var goal := Parse(data, limit, start, 0, 0, 0);
    ghost var before: seq<byte> := if buf == null then [] else buf[..];
    ghost var done: seq<Value> := [];
    NothingPutOut(buf, base, before);
    var offset: nat, n: nat, split: int, threshold: nat := start, 0, 12, 16;
    var tagBit: nat, tag: nat := 0, 0;
    FirstSplit();
    while offset != limit
      invariant start <= offset <= limit && tagBit < 8
      invariant n == Total(done) && split == Split(n) && threshold == Threshold(split)
      invariant Reading(goal, done, Parse(data, limit, offset, tagBit, tag, n)) && goal.status != Unsupported
      invariant Holds(buf, base, before, done)
      decreases limit - offset
    {
      ParseStep(data, limit, offset, tagBit, tag, n);
      if tagBit == 0 {
        tag := data[offset];
        offset := offset + 1;
        if offset == limit { break; }
      }
      assert Reading(goal, done, ParseValue(data, limit, offset, tagBit, tag, n));
      ghost var rest;
      var v, stop;
      v, offset, stop, rest := ReadValue(data, limit, offset, tagBit, tag, n, split, goal, done);
      if stop {
        assert goal.vs == done + [] == done;
        return -1;
      }
      PutValue(buf, base, before, goal.vs, done, n, v, rest.vs);
      ReadOne(goal, done, v, rest);
      done := done + [v];
      ghost var was := n;
      n := n + Length(v);
      SplitContinues(was, n);
      SplitIsLeast(was);
      split, threshold := UpdateSplit(n, split, threshold);
      tag := tag / 2;
      tagBit := (tagBit + 1) % 8;
    }
    ParseEnd(data, limit, offset, tagBit, tag, n);
    assert goal.vs == done + [] == done;
    outLen := n;
  }

  lemma FirstSplit()
    ensures Split(0) == 12 && Threshold(12) == 16 && Total([]) == 0
  {
    assert Pow2(4) == 16;
  }

  lemma NothingPutOut(buf: array?<byte>, base: nat, before: seq<byte>)
    requires buf != null ==> base <= buf.Length && before == buf[..]
    ensures Holds(buf, base, before, [])
  {
  }

  lemma ParseStep(data: seq<byte>, limit: nat, offset: nat, tagBit: nat, tag: nat, n: nat)
    requires offset < limit <= |data|
    ensures tagBit != 0 ==>
      Parse(data, limit, offset, tagBit, tag, n) == ParseValue(data, limit, offset, tagBit, tag, n)
    ensures tagBit == 0 && offset + 1 < limit ==>
      Parse(data, limit, offset, tagBit, tag, n) == ParseValue(data, limit, offset + 1, tagBit, data[offset], n)
    ensures tagBit == 0 && offset + 1 == limit ==> Parse(data, limit, offset, tagBit, tag, n) == Parsed([], Fine)
    ensures Parse(data, limit, limit, tagBit, tag, n) == Parsed([], Fine)
  {
    hide ParseValue;
  }

  lemma ParseEnd(data: seq<byte>, limit: nat, offset: nat, tagBit: nat, tag: nat, n: nat)
    requires limit <= |data| && offset == limit
    ensures Parse(data, limit, offset, tagBit, tag, n) == Parsed([], Fine)
  {
  }

  /** One value. */
  method ReadValue(data: seq<byte>, limit: nat, at: nat, tagBit: nat, tag: nat, n: nat, split: int, ghost goal: Parsed,
                   ghost done: seq<Value>)
    returns (v: Value, offset: nat, stop: bool, ghost rest: Parsed)
    requires at < limit <= |data| && split == Split(n) && goal.status != Unsupported
    requires Reading(goal, done, ParseValue(data, limit, at, tagBit, tag, n))
    ensures stop ==> goal.vs == done && goal.status == Overrun
    ensures !stop ==>
      at < offset <= limit && rest == Parse(data, limit, offset, (tagBit + 1) % 8, tag / 2, n + Length(v))
    ensures !stop ==> Reading(goal, done, Prepend(v, rest))
  {
    hide Split, SplitFrom, ValueLen, ValueOffset, Parse;
    v, rest, offset, stop := Byte(0), goal, at, false;
    if tag % 2 == 1 {
      if offset + 2 > limit { return v, offset, true, rest; }
      assert split >= 0;
      var tuple := Word(data, offset);
      offset := offset + 2;
      v := Copy(ValueLen(tuple, split), ValueOffset(tuple, split));
    } else {
      v := Byte(data[offset]);
      offset := offset + 1;
    }
    rest := Parse(data, limit, offset, (tagBit + 1) % 8, tag / 2, n + Length(v));
  }

  // ---------- the whole stream

  datatype Chunk = Stored(bytes: seq<byte>) | Compressed(vs: seq<Value>)

  datatype Stream = Stream(chunks: seq<Chunk>, status: Status)

  /** A chunk says in its header how long it is, and whether it is compressed. */
  function BlockLen(header: nat): (len: nat)
    ensures 1 <= len <= 4096
  {
    header % 0x1000 + 1
  }

  function BlockCompressed(header: nat): bool
    requires header < 0x1_0000
  {
    header >= 0x8000
  }

  /** The chunks from offset on. The source does not check that a compressed chunk ends inside the
      data; such a stream is not supported. */
  function Chunks(data: seq<byte>, offset: nat): Stream
    requires offset <= |data|
    decreases |data| - offset
  {
    if offset == |data| || (offset + 1 == |data| && data[offset] == 0) then Stream([], Fine)
    else if offset + 2 > |data| then Stream([], Overrun)
    else
      var header := Word(data, offset);
      var start, limit := offset + 2, offset + 2 + BlockLen(header);
      if BlockCompressed(header) then
        if limit > |data| then Stream([], Unsupported)
        else
          var p := Parse(data, limit, start, 0, 0, 0);
          if p.status != Fine then Stream([Compressed(p.vs)], p.status)
            else Follow(Compressed(p.vs), Chunks(data, limit))
      else if limit > |data| then Stream([], Overrun)
      else Follow(Stored(data[start..limit]), Chunks(data, limit))
  }

  function Follow(c: Chunk, s: Stream): Stream {
    Stream([c] + s.chunks, s.status)
  }

  function ChunkSize(c: Chunk): nat {
    if c.Stored? then |c.bytes| else Total(c.vs)
  }

  function Size(cs: seq<Chunk>): nat {
    if cs == [] then 0 else Size(cs[..|cs| - 1]) + ChunkSize(cs[|cs| - 1])
  }

  ghost predicate ChunksLegal(cs: seq<Chunk>) {
    forall i :: 0 <= i < |cs| && cs[i].Compressed? ==> Legal(cs[i].vs)
  }

  function Output(cs: seq<Chunk>): (out: seq<byte>)
    requires ChunksLegal(cs)
    ensures |out| == Size(cs)
  {
    if cs == [] then []
    else
      var c := cs[|cs| - 1];
      Output(cs[..|cs| - 1]) + (if c.Stored? then c.bytes else Expand(c.vs))
  }

  lemma {:induction false} SizePrefix(cs: seq<Chunk>, n: nat)
    requires n <= |cs|
    ensures Size(cs[..n]) <= Size(cs)
    decreases |cs| - n
  {
    if n == |cs| {
      assert cs[..n] == cs;
    } else {
      SizePrefix(cs, n + 1);
      assert cs[..n + 1][..n] == cs[..n];
    }
  }

  ghost predicate ReadingChunks(goal: Stream, done: seq<Chunk>, rest: Stream) {
    goal.chunks == done + rest.chunks && goal.status == rest.status
  }

  ghost predicate HoldsChunks(buf: array?<byte>, done: seq<Chunk>)
    reads buf
  {
    buf != null ==> ChunksLegal(done) && Size(done) <= buf.Length && buf[..Size(done)] == Output(done)
  }

  ghost predicate RoomForChunks(buf: array?<byte>, cs: seq<Chunk>) {
    buf != null ==> ChunksLegal(cs) && Size(cs) <= buf.Length
  }

  lemma RoomForChunk(buf: array?<byte>, cs: seq<Chunk>, done: seq<Chunk>, c: Chunk, rest: seq<Chunk>)
    requires RoomForChunks(buf, cs) && cs == done + ([c] + rest)
    ensures Size(done + [c]) == Size(done) + ChunkSize(c)
    ensures buf != null ==> Size(done) + ChunkSize(c) <= buf.Length && (c.Compressed? ==> Legal(c.vs))
  {
    assert (done + [c])[..|done|] == done;
    if buf != null {
      assert cs[|done|] == c && cs[..|done| + 1] == done + [c];
      SizePrefix(cs, |done| + 1);
    }
  }

  lemma OutputAppend(done: seq<Chunk>, c: Chunk)
    requires ChunksLegal(done) && (c.Compressed? ==> Legal(c.vs))
    ensures ChunksLegal(done + [c]) && Size(done + [c]) == Size(done) + ChunkSize(c)
    ensures Output(done + [c]) == Output(done) + (if c.Stored? then c.bytes else Expand(c.vs))
  {
    hide Expand, Legal, Total;
    assert (done + [c])[..|done|] == done;
  }

  lemma OneMoreChunk(buf: array?<byte>, before: seq<byte>, done: seq<Chunk>, c: Chunk)
    requires buf != null ==> |before| == buf.Length && ChunksLegal(done) && Size(done) + ChunkSize(c) <= buf.Length
    requires buf != null ==> before[..Size(done)] == Output(done) && buf[..Size(done)] == before[..Size(done)]
    requires buf != null && c.Compressed? ==> Legal(c.vs) && buf[Size(done)..Size(done) + ChunkSize(c)] == Expand(c.vs)
    requires buf != null && c.Stored? ==> buf[Size(done)..Size(done) + ChunkSize(c)] == c.bytes
    ensures HoldsChunks(buf, done + [c])
  {
    hide Expand, Legal, Total, Size, ChunkSize, Output, ChunksLegal;
    if buf != null {
      OutputAppend(done, c);
      var n, m := Size(done), ChunkSize(c);
      assert buf[..n + m] == buf[..n] + buf[n..n + m];
    }
  }

  /** An uncompressed chunk is copied, if there is a buffer. */
  method PutStored(data: seq<byte>, offset: nat, len: nat, buf: array?<byte>, at: nat)
    requires offset + len <= |data| && (buf != null ==> at + len <= buf.Length)
    modifies if buf == null then {} else {buf}
    ensures buf != null ==> buf[at..at + len] == data[offset..offset + len] && buf[..at] == old(buf[..at])
  {
    if buf != null {
      var k := 0;
      while k < len
        invariant 0 <= k <= len
        invariant buf[at..at + k] == data[offset..offset + k]
        invariant buf[..at] == old(buf[..at])
      {
        buf[at + k] := data[offset + k];
        assert buf[at..at + k + 1] == buf[at..at + k] + [data[offset + k]];
        k := k + 1;
      }
    }
  }

  /** One chunk. */
  method PutChunk(data: seq<byte>, start: nat, limit: nat, compressed: bool, buf: array?<byte>, at: nat,
                  ghost cs: seq<Chunk>, ghost done: seq<Chunk>, ghost c: Chunk, ghost rest: seq<Chunk>)
    returns (len: int)
    requires start <= limit <= |data| && at == Size(done) && HoldsChunks(buf, done)
    requires RoomForChunks(buf, cs) && cs == done + ([c] + rest)
    requires if compressed
      then var p := Parse(data, limit, start, 0, 0, 0); p.status != Unsupported && c == Compressed(p.vs)
      else c == Stored(data[start..limit])
    modifies if buf == null then {} else {buf}
    ensures len == if compressed && Parse(data, limit, start, 0, 0, 0).status != Fine then -1 else ChunkSize(c)
    ensures HoldsChunks(buf, done + [c])
  {
    hide Parse, Expand, Total, Size, Legal;
    RoomForChunk(buf, cs, done, c, rest);
    ghost var before: seq<byte> := if buf == null then [] else buf[..];
    if compressed {
      len := Block(data, limit, start, buf, at);
    } else {
      len := limit - start;
      PutStored(data, start, len, buf, at);
    }
    OneMoreChunk(buf, before, done, c);
  }

  lemma ReadChunk(goal: Stream, done: seq<Chunk>, c: Chunk, rest: Stream)
    requires ReadingChunks(goal, done, Follow(c, rest))
    ensures ReadingChunks(goal, done + [c], rest) && goal.chunks == done + ([c] + rest.chunks)
    ensures Size(done + [c]) == Size(done) + ChunkSize(c)
  {
    assert done + ([c] + rest.chunks) == (done + [c]) + rest.chunks;
    assert (done + [c])[..|done|] == done;
  }

  lemma ChunksEnd(data: seq<byte>)
    ensures Chunks(data, |data|) == Stream([], Fine)
  {
  }

  /** What stands at one place of the stream. */
  lemma ChunksStep(data: seq<byte>, offset: nat)
    requires offset < |data|
    ensures offset + 1 == |data| && data[offset] == 0 ==> Chunks(data, offset) == Stream([], Fine)
    ensures offset + 1 == |data| && data[offset] != 0 ==> Chunks(data, offset) == Stream([], Overrun)
    ensures offset + 2 <= |data| ==>
      var header, start := Word(data, offset), offset + 2;
      var limit := start + BlockLen(header);
      && (limit > |data| ==>
        Chunks(data, offset) == Stream([], if BlockCompressed(header) then Unsupported else Overrun))
      && (limit <= |data| && !BlockCompressed(header) ==>
            Chunks(data, offset) == Follow(Stored(data[start..limit]), Chunks(data, limit)))
      && (limit <= |data| && BlockCompressed(header) ==>
            var p := Parse(data, limit, start, 0, 0, 0);
            Chunks(data, offset) == Follow(Compressed(p.vs), if p.status != Fine then Stream([], p.status)
              else Chunks(data, limit)))
  {
    hide Parse, Word, BlockLen, BlockCompressed;
  }

  /** lznt1_decompress: with or without a buffer it returns the same length or the same error, and
      with a buffer it leaves the output there. */
  method Decompress(data: seq<byte>, buf: array?<byte>) returns (outLen: int)
    requires Chunks(data, 0).status != Unsupported && RoomForChunks(buf, Chunks(data, 0).chunks)
    modifies if buf == null then {} else {buf}
    ensures var s := Chunks(data, 0);
      && outLen == (if s.status == Fine then Size(s.chunks) else -1)
      && HoldsChunks(buf, s.chunks)
  {
    hide Parse, Output, Size, RoomForChunks, HoldsChunks, Chunks;
    ghost var goal := Chunks(data, 0);
    ghost var done: seq<Chunk> := [];
    var offset: nat, len: nat := 0, |data|;
    NoChunks(buf);
    outLen := 0;
    ChunksEnd(data);
    while offset != len
      invariant offset <= len == |data| && goal.status != Unsupported
      invariant outLen == Size(done) && HoldsChunks(buf, done)
      invariant ReadingChunks(goal, done, Chunks(data, offset))
      decreases len - offset
    {
      ChunksStep(data, offset);
      if offset + 1 == len && data[offset] == 0 { break; }
      if offset + 2 > len {
        assert goal.chunks == done + [] == done;
        return -1;
      }
      var header := Word(data, offset);
      offset := offset + 2;
      var blockLen := BlockLen(header);
      var limit := offset + blockLen;
      var compressed := BlockCompressed(header);
      if !compressed && limit > len {
        assert goal.chunks == done + [] == done;
        return -1;
      }
      ghost var c := if compressed then Compressed(Parse(data, limit, offset, 0, 0, 0).vs)
        else Stored(data[offset..limit]);
      ghost var failed := compressed && Parse(data, limit, offset, 0, 0, 0).status != Fine;
      ghost var rest := if failed then Stream([], goal.status) else Chunks(data, limit);
      ReadChunk(goal, done, c, rest);
      var blockOutLen := PutChunk(data, offset, limit, compressed, buf, outLen, goal.chunks, done, c, rest.chunks);
      done := done + [c];
      if blockOutLen < 0 {
        assert goal.chunks == done + [] == done;
        return -1;
      }
      offset := limit;
      outLen := outLen + blockOutLen;
    }
    assert goal.chunks == done + [] == done;
  }

  lemma NoChunks(buf: array?<byte>)
    ensures HoldsChunks(buf, []) && Size([]) == 0
  {
  }

  /** Measuring first and then decompressing into a buffer of that size. */
  method MeasureAndDecompress(data: seq<byte>) returns (out: array?<byte>, measured: int, written: int)
    requires Chunks(data, 0).status != Unsupported && ChunksLegal(Chunks(data, 0).chunks)
    ensures measured == written && (measured >= 0 <==> Chunks(data, 0).status == Fine)
    ensures measured >= 0 ==>
      measured == Size(Chunks(data, 0).chunks) && out != null && out[..] == Output(Chunks(data, 0).chunks)
  {
    hide Parse, Chunks, Output, Size;
    measured := Decompress(data, null);
    if measured < 0 { return null, measured, measured; }
    out := new byte[measured];
    written := Decompress(data, out);
    assert out[..measured] == out[..];
  }
}
