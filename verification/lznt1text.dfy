/** LZNT1 streams as section 2.5 of [MS-XCA] writes them out, and that decompression reads them back: the
    writer shares no definition of a field with the decoder. */
module Lznt1Text {
  import opened Bits
  import opened Lznt1

  // ---------- one value

  /** How many bits the length has in a copy after n bytes of the chunk; the rest of 16 are the distance. */
  function LengthBits(n: nat): (bits: nat)
    ensures bits <= 12
  {
    if n <= 16 then 12
    else if n <= 32 then 11
    else if n <= 64 then 10
    else if n <= 128 then 9
    else if n <= 256 then 8
    else if n <= 512 then 7
    else if n <= 1024 then 6
    else if n <= 2048 then 5
    else if n <= 4096 then 4
    else if n <= 8192 then 3
    else if n <= 16384 then 2
    else if n <= 32768 then 1
    else 0
  }

  /** The value can be written after n bytes of the chunk. */
  ghost predicate ValueFits(v: Value, n: nat) {
    v.Copy? ==>
      && n <= 65536 && 1 <= v.distance <= Pow2(16 - LengthBits(n))
      && 3 <= v.length < Pow2(LengthBits(n)) + 3
  }

  ghost predicate AllFit(vs: seq<Value>, n: nat)
    decreases |vs|
  {
    vs == [] || (ValueFits(vs[0], n) && AllFit(vs[1..], n + Length(vs[0])))
  }

  ghost function Tuple(length: nat, distance: nat, n: nat): nat
    requires distance >= 1 && length >= 3
  {
    Shl(distance - 1, LengthBits(n)) + (length - 3)
  }

  lemma TupleFits(v: Value, n: nat)
    requires v.Copy? && ValueFits(v, n)
    ensures Tuple(v.length, v.distance, n) < 0x1_0000
    ensures Low(Tuple(v.length, v.distance, n), LengthBits(n)) == v.length - 3
    ensures Shr(Tuple(v.length, v.distance, n), LengthBits(n)) == v.distance - 1
  {
    hide LengthBits, Pow2;
    var s := LengthBits(n);
    Pow2Is16();
    Pow2Add(16 - s, s);
    TupleParts(v.length - 3, v.distance - 1, Pow2(s), Pow2(16 - s));
  }

  lemma TupleParts(l: nat, d: nat, p: nat, q: nat)
    requires l < p && d < q
    ensures d * p + l < q * p && (d * p + l) % p == l && (d * p + l) / p == d
  {
    MulStrict(d, q, p);
    DivModUnique(d * p + l, p, d, l);
  }

  /** A byte is written as it is, a copy as two bytes with the low one first. */
  ghost function ValueText(v: Value, n: nat): seq<byte>
    requires ValueFits(v, n)
  {
    match v
    case Byte(b) => [b]
    case Copy(length, distance) =>
      TupleFits(v, n);
      [Tuple(length, distance, n) % 256, Tuple(length, distance, n) / 256]
  }

  // ---------- a compressed chunk

  /** The tag for the values that are left of a group of eight from place k on: a bit is one for a copy,
      and the first value has the least significant bit. */
  function Tag(vs: seq<Value>, k: nat): nat
    decreases |vs|
  {
    if vs == [] || k >= 8 then 0 else (if vs[0].Copy? then 1 else 0) + 2 * Tag(vs[1..], k + 1)
  }

  lemma {:induction false} TagFits(vs: seq<Value>, k: nat)
    requires k <= 8
    ensures Tag(vs, k) < Pow2(8 - k)
    decreases |vs|
  {
    if vs != [] && k < 8 { TagFits(vs[1..], k + 1); }
  }

  lemma TagIsByte(vs: seq<Value>)
    ensures Tag(vs, 0) < 256
  {
    TagFits(vs, 0);
    assert Pow2(4) == 16;
    Pow2Add(4, 4);
  }

  /** The values of a chunk from place k of a group on, with a tag before every group. */
  ghost function ValuesText(vs: seq<Value>, k: nat, n: nat): seq<byte>
    requires k < 8 && AllFit(vs, n)
    decreases |vs|
  {
    if vs == [] then []
    else
      TagIsByte(vs);
      (if k == 0 then [Tag(vs, 0)] else [])
        + (ValueText(vs[0], n) + ValuesText(vs[1..], (k + 1) % 8, n + Length(vs[0])))
  }

  lemma SplitIs(n: nat)
    requires n <= 65536
    ensures Split(n) == LengthBits(n)
  {
    hide SplitFrom;
    SplitStep(n, 12, 16);
    SplitStep(n, 11, 32);
    SplitStep(n, 10, 64);
    SplitStep(n, 9, 128);
    SplitStep(n, 8, 256);
    SplitStep(n, 7, 512);
    SplitStep(n, 6, 1024);
    SplitStep(n, 5, 2048);
    SplitStep(n, 4, 4096);
    SplitStep(n, 3, 8192);
    SplitStep(n, 2, 16384);
    SplitStep(n, 1, 32768);
    SplitStep(n, 0, 65536);
  }

  lemma SplitStep(n: nat, split: int, threshold: nat)
    requires threshold > 0
    ensures SplitFrom(n, split, threshold) == if n <= threshold then split else SplitFrom(n, split - 1, 2 * threshold)
  {
  }

  /** A value that stands at a place of the data, with its bit of the tag, is read there. */
  lemma ValueReads(data: seq<byte>, limit: nat, at: nat, k: nat, tag: nat, n: nat, v: Value)
    requires ValueFits(v, n) && at + |ValueText(v, n)| <= limit <= |data|
    requires data[at..at + |ValueText(v, n)|] == ValueText(v, n) && tag % 2 == (if v.Copy? then 1 else 0)
    ensures ParseValue(data, limit, at, k, tag, n)
      == Prepend(v, Parse(data, limit, at + |ValueText(v, n)|, (k + 1) % 8, tag / 2, n + Length(v)))
  {
    hide Parse, Split, LengthBits;
    if v.Copy? {
      CopyReads(data, at, n, v);
    } else {
      assert data[at] == data[at..at + 1][0];
    }
  }

  lemma CopyReads(data: seq<byte>, at: nat, n: nat, v: Value)
    requires v.Copy? && ValueFits(v, n) && at + 2 <= |data| && data[at..at + 2] == ValueText(v, n)
    ensures Split(n) >= 0 && |ValueText(v, n)| == 2
    ensures ValueLen(Word(data, at), Split(n)) == v.length && ValueOffset(Word(data, at), Split(n)) == v.distance
  {
    SplitIs(n);
    TupleFits(v, n);
    hide Split, LengthBits, Tuple;
    var t := Tuple(v.length, v.distance, n);
    assert data[at] == data[at..at + 2][0] && data[at + 1] == data[at..at + 2][1];
    assert Word(data, at) == t;
  }

  /** What stands at the beginning of the rest of the data, and what after that. */
  lemma StandsHere(data: seq<byte>, at: nat, limit: nat, a: seq<byte>, b: seq<byte>)
    requires at <= limit <= |data| && data[at..limit] == a + b
    ensures at + |a| <= limit && data[at..at + |a|] == a && data[at + |a|..limit] == b
  {
    assert data[at..at + |a|] == data[at..limit][..|a|];
    assert data[at + |a|..limit] == data[at..limit][|a|..];
  }

  /** A chunk that has been written is read back, value by value. */
  lemma {:induction false} ValuesRead(data: seq<byte>, limit: nat, at: nat, k: nat, tag: nat, n: nat, vs: seq<Value>)
    requires k < 8 && AllFit(vs, n) && at <= limit <= |data| && data[at..limit] == ValuesText(vs, k, n)
    requires k > 0 ==> tag == Tag(vs, k)
    ensures Parse(data, limit, at, k, tag, n) == Parsed(vs, Fine)
    decreases |vs|
  {
    hide Parse, ParseValue, Tag, ValueText, ValueFits, Length;
    if vs == [] {
      ParseEnd(data, limit, at, k, tag, n);
    } else {
      var m, j := n + Length(vs[0]), (k + 1) % 8;
      var from, t := TagReads(data, limit, at, k, tag, n, vs);
      hide ValuesText;
      var value := ValueText(vs[0], n);
      StandsHere(data, from, limit, value, ValuesText(vs[1..], j, m));
      TagStep(vs, k);
      ValueReads(data, limit, from, k, t, n, vs[0]);
      ValuesRead(data, limit, from + |value|, j, t / 2, m, vs[1..]);
      assert [vs[0]] + vs[1..] == vs;
    }
  }

  lemma TagStep(vs: seq<Value>, k: nat)
    requires vs != [] && k < 8
    ensures Tag(vs, k) % 2 == (if vs[0].Copy? then 1 else 0)
    ensures Tag(vs, k) / 2 == Tag(vs[1..], k + 1)
  {
  }

  /** The tag of a group is read before its first value. */
  lemma TagReads(data: seq<byte>, limit: nat, at: nat, k: nat, tag: nat, n: nat, vs: seq<Value>)
    returns (from: nat, t: nat)
    requires vs != [] && k < 8 && AllFit(vs, n) && at <= limit <= |data| && data[at..limit] == ValuesText(vs, k, n)
    requires k > 0 ==> tag == Tag(vs, k)
    ensures from < limit && t == Tag(vs, k)
    ensures data[from..limit] == ValueText(vs[0], n) + ValuesText(vs[1..], (k + 1) % 8, n + Length(vs[0]))
    ensures Parse(data, limit, at, k, tag, n) == ParseValue(data, limit, from, k, t, n)
  {
    hide Parse, ParseValue, Tag;
    var value, rest := ValueText(vs[0], n), ValuesText(vs[1..], (k + 1) % 8, n + Length(vs[0]));
    TagIsByte(vs);
    from, t := at, tag;
    if k == 0 {
      StandsHere(data, at, limit, [Tag(vs, 0)], value + rest);
      from, t := at + 1, data[at];
      assert data[at] == data[at..at + 1][0];
    } else {
      assert [] + (value + rest) == value + rest;
    }
    assert |data[from..limit]| > 0;
    ParseStep(data, limit, at, k, tag, n);
  }

  // ---------- the stream

  /** A chunk of 1 to 4096 bytes, after a header of two bytes. */
  ghost predicate ChunkFits(c: Chunk) {
    match c
    case Stored(bytes) => 1 <= |bytes| <= 4096
    case Compressed(vs) => AllFit(vs, 0) && 1 <= |ValuesText(vs, 0, 0)| <= 4096
  }

  /** The header is the number 0x3000, or 0xB000 if the chunk is compressed, plus one less than the
      number of bytes that follow; its low byte is first. */
  ghost function ChunkText(c: Chunk): seq<byte>
    requires ChunkFits(c)
  {
    match c
    case Stored(bytes) => [(|bytes| - 1) % 256, 0x30 + (|bytes| - 1) / 256] + bytes
    case Compressed(vs) =>
      var text := ValuesText(vs, 0, 0);
      [(|text| - 1) % 256, 0xB0 + (|text| - 1) / 256] + text
  }

  ghost predicate ChunksFit(cs: seq<Chunk>) {
    forall i :: 0 <= i < |cs| ==> ChunkFits(cs[i])
  }

  ghost function Written(cs: seq<Chunk>, end: seq<byte>): seq<byte>
    requires ChunksFit(cs)
  {
    if cs == [] then end else ChunkText(cs[0]) + Written(cs[1..], end)
  }

  lemma HeaderReads(data: seq<byte>, at: nat, base: nat, len: nat)
    requires 1 <= len <= 4096 && (base == 0x30 || base == 0xB0) && at + 2 <= |data|
    requires data[at] as int == (len - 1) % 256 && data[at + 1] as int == base + (len - 1) / 256
    ensures BlockLen(Word(data, at)) == len && (BlockCompressed(Word(data, at)) <==> base == 0xB0)
  {
    var q, r := (len - 1) / 256, (len - 1) % 256;
    assert Word(data, at) == 256 * base + (len - 1);
    HeaderParts(base, len);
    hide Word;
  }

  lemma HeaderParts(base: nat, len: nat)
    requires 1 <= len <= 4096 && (base == 0x30 || base == 0xB0)
    ensures (256 * base + (len - 1)) % 0x1000 == len - 1
    ensures 256 * base + (len - 1) < 0x1_0000 && (256 * base + (len - 1) >= 0x8000 <==> base == 0xB0)
  {
  }

  /** One chunk, and what is read after it. */
  lemma ChunkReads(data: seq<byte>, at: nat, c: Chunk, rest: seq<byte>)
    requires ChunkFits(c) && at <= |data| && data[at..] == ChunkText(c) + rest
    ensures at + |ChunkText(c)| <= |data| && data[at + |ChunkText(c)|..] == rest
    ensures Chunks(data, at) == Follow(c, Chunks(data, at + |ChunkText(c)|))
  {
    hide Chunks, BlockLen, BlockCompressed, Word, Parse, ValuesText, AllFit;
    var text := if c.Stored? then c.bytes else ValuesText(c.vs, 0, 0);
    var base := if c.Stored? then 0x30 else 0xB0;
    assert ChunkText(c) == Header(base, |text|) + text;
    HeaderThenText(data, at, base, text, rest);
    ChunksStep(data, at);
    if c.Compressed? {
      ValuesRead(data, at + 2 + |text|, at + 2, 0, 0, 0, c.vs);
    }
  }

  ghost function Header(base: nat, len: nat): seq<byte>
    requires 1 <= len <= 4096 && base <= 0xB0
  {
    [(len - 1) % 256, base + (len - 1) / 256]
  }

  lemma HeaderThenText(data: seq<byte>, at: nat, base: nat, text: seq<byte>, rest: seq<byte>)
    requires 1 <= |text| <= 4096 && (base == 0x30 || base == 0xB0) && at <= |data|
    requires data[at..] == (Header(base, |text|) + text) + rest
    ensures at + 2 + |text| <= |data| && data[at + 2..at + 2 + |text|] == text && data[at + 2 + |text|..] == rest
    ensures BlockLen(Word(data, at)) == |text| && (BlockCompressed(Word(data, at)) <==> base == 0xB0)
  {
    hide BlockLen, BlockCompressed, Word;
    var header := Header(base, |text|);
    assert data[at..|data|] == data[at..] && (header + text) + rest == header + (text + rest);
    StandsHere(data, at, |data|, header, text + rest);
    StandsHere(data, at + 2, |data|, text, rest);
    assert data[at] == data[at..at + 2][0] && data[at + 1] == data[at..at + 2][1];
    HeaderReads(data, at, base, |text|);
  }

  /** What has been written is read back, chunk by chunk, up to where something else stands. */
  lemma {:induction false} ChunksRead(data: seq<byte>, at: nat, cs: seq<Chunk>, end: seq<byte>)
    requires ChunksFit(cs) && at <= |data| && data[at..] == Written(cs, end)
    ensures |end| <= |data| && data[|data| - |end|..] == end
    ensures var s := Chunks(data, |data| - |end|); Chunks(data, at) == Stream(cs + s.chunks, s.status)
    decreases |cs|
  {
    hide Chunks, ChunkText, ChunkFits;
    var s;
    if cs == [] {
      s := Chunks(data, |data| - |end|);
      assert [] + s.chunks == s.chunks;
    } else {
      var rest := Written(cs[1..], end);
      assert data[at..] == ChunkText(cs[0]) + rest;
      hide Written;
      ChunkReads(data, at, cs[0], rest);
      ChunksRead(data, at + |ChunkText(cs[0])|, cs[1..], end);
      s := Chunks(data, |data| - |end|);
      assert cs + s.chunks == [cs[0]] + (cs[1..] + s.chunks);
    }
  }

  /** For every list of chunks, with or without a zero byte as an end marker, the decoder sees exactly
      these chunks. */
  lemma WrittenReads(cs: seq<Chunk>, marked: bool)
    requires ChunksFit(cs)
    ensures Chunks(Written(cs, if marked then [0] else []), 0) == Stream(cs, Fine)
  {
    hide ChunkText, ChunkFits, Written;
    var end: seq<byte> := if marked then [0] else [];
    var data := Written(cs, end);
    assert data[0..] == data;
    ChunksRead(data, 0, cs, end);
    if marked {
      assert data[|data| - 1] == data[|data| - 1..][0];
    }
    assert Chunks(data, |data| - |end|) == Stream([], Fine);
    assert cs + [] == cs;
  }

  /** A stream that breaks off is refused: in the middle of a header, or inside a stored chunk. */
  lemma BrokenOff(cs: seq<Chunk>, x: byte, bytes: seq<byte>, len: nat)
    requires ChunksFit(cs) && 1 <= len <= 4096 && |bytes| < len
    ensures x != 0 ==> Chunks(Written(cs, [x]), 0) == Stream(cs, Overrun)
    ensures Chunks(Written(cs, [(len - 1) % 256, 0x30 + (len - 1) / 256] + bytes), 0) == Stream(cs, Overrun)
  {
    hide ChunkText, ChunkFits, Written, Chunks, BlockLen, BlockCompressed, Word;
    assert cs + [] == cs;
    var one := Written(cs, [x]);
    assert one[0..] == one;
    ChunksRead(one, 0, cs, [x]);
    assert one[|one| - 1] == one[|one| - 1..][0];
    ChunksStep(one, |one| - 1);
    var end: seq<byte> := [(len - 1) % 256, 0x30 + (len - 1) / 256] + bytes;
    var data := Written(cs, end);
    assert data[0..] == data;
    ChunksRead(data, 0, cs, end);
    var at := |data| - |end|;
    assert data[at] == data[at..][0] && data[at + 1] == data[at..][1];
    HeaderReads(data, at, 0x30, len);
    ChunksStep(data, at);
  }

  /** Decompressing what has been written: the size and the contents. */
  method DecompressWritten(data: seq<byte>, ghost cs: seq<Chunk>) returns (out: array?<byte>, measured: int)
    requires ChunksFit(cs) && ChunksLegal(cs) && data == Written(cs, [])
    ensures measured == Size(cs) && out != null && out[..] == Output(cs)
  {
    hide Written, ChunkFits, Chunks, Output, Size;
    WrittenReads(cs, false);
    var written;
    out, measured, written := MeasureAndDecompress(data);
  }
}
