/** DEFLATE streams (RFC 1951): what a string of bits decodes to, one symbol at a time. */
module DeflateSpec {
  import opened Bits
  import opened Canonical

  // ---------- the rules behind the tables of section 3.2.5 and 3.2.7

  /** How many extra bits a length code has. */
  function LengthExtra(lc: nat): nat
    requires lc < 29
  {
    if lc < 8 || lc == 28 then 0 else (lc - 4) / 4
  }

  /** The first length of a length code: the codes cover the lengths without gaps, and the last
      code is for the greatest length alone. */
  function LengthBase(lc: nat): (base: nat)
    requires lc < 29
    ensures base >= 3
  {
    if lc == 0 then 3 else if lc == 28 then 258 else LengthBase(lc - 1) + Pow2(LengthExtra(lc - 1))
  }

  function DistanceExtra(dc: nat): nat
    requires dc < 30
  {
    if dc < 4 then 0 else (dc - 2) / 2
  }

  function DistanceBase(dc: nat): (base: nat)
    requires dc < 30
    ensures base >= 1
  {
    if dc == 0 then 1 else DistanceBase(dc - 1) + Pow2(DistanceExtra(dc - 1))
  }

  /** The order in which the lengths of the code length code are stored: the three run codes, then
      0, then outwards from 8. */
  function ClOrder(i: nat): (k: nat)
    requires i < 19
    ensures k < 19
  {
    if i < 3 then 16 + i else if i == 3 then 0 else if i % 2 == 0 then 8 + (i - 4) / 2 else 8 - (i - 3) / 2
  }

  const END_CODE: nat := 256
  const FIRST_LENGTH_CODE: nat := 257

  // ---------- reading

  /** A value read and the bits after it, or a malformed stream. */
  datatype Read<+T> = Got(value: T, rest: seq<bool>) | Malformed

  /** n bits, least significant first. */
  function Number(s: seq<bool>, n: nat): (r: Read<nat>)
    ensures r.Got? ==> r.value < Pow2(n) && |r.rest| == |s| - n
  {
    if |s| < n then Malformed else
      ValBound(s[..n]);
      Got(Val(s[..n]), s[n..])
  }

  /** The first symbol from i on whose code begins w, or |lens|. */
  function FindSymbol(lens: seq<nat>, w: seq<bool>, i: nat): (r: nat)
    requires i <= |lens|
    ensures i <= r <= |lens|
    ensures r < |lens| ==> Begins(lens, r, w)
    ensures forall j :: i <= j < r ==> !Begins(lens, j, w)
    decreases |lens| - i
  {
    if i == |lens| || Begins(lens, i, w) then i else FindSymbol(lens, w, i + 1)
  }

  /** The symbol whose code comes next. */
  function Symbol(lens: seq<nat>, s: seq<bool>): (r: Read<nat>)
    ensures r.Got? ==> r.value < |lens| && |r.rest| < |s|
  {
    var i := FindSymbol(lens, ZTake(s, 15), 0);
    if i == |lens| || lens[i] > |s| then Malformed else Got(i, s[lens[i]..])
  }

  // ---------- copying

  /** Appends length bytes, each a copy of the byte distance places back. */
  function Copy(out: seq<byte>, length: nat, distance: nat): (r: seq<byte>)
    requires 0 < distance <= |out|
    ensures |r| == |out| + length && out <= r
    decreases length
  {
    if length == 0 then out else Copy(out + [out[|out| - distance]], length - 1, distance)
  }

  /** length bytes from pos on are the same as those offset places before. */
  ghost predicate Repeats(data: seq<byte>, pos: nat, length: nat, offset: nat) {
    && 0 < offset <= pos && pos + length <= |data|
    && forall k: int :: pos <= k < pos + length ==> data[k] == data[k - offset]
  }

  /** A match is what a copy puts out, also when the copied bytes overlap. */
  lemma {:induction false} RepeatsCopy(data: seq<byte>, pos: nat, length: nat, offset: nat)
    requires Repeats(data, pos, length, offset)
    ensures Copy(data[..pos], length, offset) == data[..pos + length]
    decreases length
  {
    if length > 0 {
      assert data[..pos] + [data[pos]] == data[..pos + 1];
      RepeatsCopy(data, pos + 1, length - 1, offset);
    }
  }

  // ---------- blocks

  /** The symbols of a block, up to the end code. */
  function Block(ll: seq<nat>, dd: seq<nat>, s: seq<bool>, out: seq<byte>): (r: Read<seq<byte>>)
    requires |ll| == 288 && |dd| == 32
    ensures r.Got? ==> |r.rest| <= |s| && out <= r.value
    decreases |s|
  {
    match Symbol(ll, s)
    case Malformed => Malformed
    case Got(v, s1) =>
      if v < END_CODE then Block(ll, dd, s1, out + [v])
      else if v == END_CODE then Got(out, s1)
      else if v > 285 then Malformed
      else
        match Pair(dd, v - FIRST_LENGTH_CODE, s1)
        case Malformed => Malformed
        case Got(p, s2) =>
          if p.1 > |out| then Malformed
          else Block(ll, dd, s2, Copy(out, p.0, p.1))
  }

  /** The rest of a length and distance pair, after the length code. */
  function Pair(dd: seq<nat>, lc: nat, s: seq<bool>): (r: Read<(nat, nat)>)
    requires lc < 29 && |dd| == 32
    ensures r.Got? ==> |r.rest| <= |s| && r.value.0 >= LengthBase(lc) && r.value.1 > 0
  {
    match Number(s, LengthExtra(lc))
    case Malformed => Malformed
    case Got(le, s2) =>
      match Symbol(dd, s2)
      case Malformed => Malformed
      case Got(dc, s3) =>
        if dc > 29 then Malformed
        else
          match Number(s3, DistanceExtra(dc))
          case Malformed => Malformed
          case Got(de, s4) => Got((LengthBase(lc) + le, DistanceBase(dc) + de), s4)
  }

  // ---------- the trees of a dynamic block

  function Repeat(v: nat, n: nat): (r: seq<nat>)
    ensures |r| == n
    ensures forall i :: 0 <= i < n ==> r[i] == v
  {
    seq(n, _ => v)
  }

  /** The lengths of the code length code: n numbers of 3 bits, in the order of the format. */
  function ClLengths(s: seq<bool>, n: nat, i: nat, acc: seq<nat>): (r: Read<seq<nat>>)
    requires i <= n <= 19 && |acc| == 19
    ensures r.Got? ==> |r.value| == 19 && |r.rest| <= |s|
    decreases n - i
  {
    if i == n then Got(acc, s)
    else
      match Number(s, 3)
      case Malformed => Malformed
      case Got(v, s1) => ClLengths(s1, n, i + 1, acc[ClOrder(i) := v])
  }

  /** One code of the code length alphabet, applied to the lengths so far: a length, or 16 to
      repeat the last one, or 17 and 18 for runs of zeros. */
  function NextRun(cl: seq<nat>, total: nat, s: seq<bool>, acc: seq<nat>): (r: Read<seq<nat>>)
    requires |cl| == 19 && |acc| < total
    ensures r.Got? ==> |acc| < |r.value| <= total && |r.rest| < |s|
    ensures r.Got? && Bounded(acc, 15) ==> Bounded(r.value, 15)
  {
    match Symbol(cl, s)
    case Malformed => Malformed
    case Got(v, s1) =>
      if v <= 15 then Got(acc + [v], s1)
      else
        match Number(s1, if v == 16 then 2 else if v == 17 then 3 else 7)
        case Malformed => Malformed
        case Got(x, s2) =>
          var n := x + (if v == 18 then 11 else 3);
          if (v == 16 && acc == []) || |acc| + n > total then Malformed
          else Got(acc + Repeat(if v == 16 then acc[|acc| - 1] else 0, n), s2)
  }

  /** Run-length coded lengths, after those already in acc, until there are `total` of them. */
  function RunLengths(cl: seq<nat>, total: nat, s: seq<bool>, acc: seq<nat>): (r: Read<seq<nat>>)
    requires |cl| == 19 && |acc| <= total
    ensures r.Got? ==> |r.value| == total && |r.rest| <= |s|
    ensures r.Got? && Bounded(acc, 15) ==> Bounded(r.value, 15)
    decreases |s|
  {
    if |acc| == total then Got(acc, s)
    else
      match NextRun(cl, total, s, acc)
      case Malformed => Malformed
      case Got(next, s1) => RunLengths(cl, total, s1, next)
  }

  /** Section 3.2.7: the header of a dynamic block. */
  function DynamicTrees(s: seq<bool>): (r: Read<(seq<nat>, seq<nat>)>)
    ensures r.Got? ==> |r.value.0| == 288 && |r.value.1| == 32 && |r.rest| <= |s|
  {
    match Number(s, 5)
    case Malformed => Malformed
    case Got(hlit, s1) =>
      match Number(s1, 5)
      case Malformed => Malformed
      case Got(hdist, s2) =>
        match Number(s2, 4)
        case Malformed => Malformed
        case Got(hclen, s3) => TreesAfterCounts(hlit + 257, hdist + 1, hclen + 4, s3)
  }

  function TreesAfterCounts(hlit: nat, hdist: nat, hclen: nat, s: seq<bool>): (r: Read<(seq<nat>, seq<nat>)>)
    requires 257 <= hlit <= 288 && 1 <= hdist <= 32 && 4 <= hclen <= 19
    ensures r.Got? ==> |r.value.0| == 288 && |r.value.1| == 32 && |r.rest| <= |s|
  {
    match ClLengths(s, hclen, 0, Repeat(0, 19))
    case Malformed => Malformed
    case Got(cl, s1) => if !TreeOk(cl) then Malformed else TwoTrees(cl, hlit, hdist, s1)
  }

  /** The run-length coded lengths of both trees, read with the code length code. */
  function TwoTrees(cl: seq<nat>, hlit: nat, hdist: nat, s: seq<bool>): (r: Read<(seq<nat>, seq<nat>)>)
    requires |cl| == 19 && 257 <= hlit <= 288 && 1 <= hdist <= 32
    ensures r.Got? ==> |r.value.0| == 288 && |r.value.1| == 32 && |r.rest| <= |s|
  {
    match RunLengths(cl, hlit + hdist, s, [])
    case Malformed => Malformed
    case Got(lens, s2) =>
      var ll := lens[..hlit] + Repeat(0, 288 - hlit);
      var dd := lens[hlit..] + Repeat(0, 32 - hdist);
      if ll[END_CODE] == 0 || !TreeOk(ll) || !TreeOk(dd) then Malformed
      else Got((ll, dd), s2)
  }

  /** Section 3.2.6: the fixed codes. */
  function FixedLengths(): (r: seq<nat>)
    ensures |r| == 288
  {
    Repeat(8, 144) + Repeat(9, 112) + Repeat(7, 24) + Repeat(8, 8)
  }

  function FixedDistances(): (r: seq<nat>)
    ensures |r| == 32
  {
    Repeat(5, 32)
  }

  // ---------- whole streams

  /** The first n bytes of a bit string. */
  function Bytes(s: seq<bool>, n: nat): (d: seq<byte>)
    requires |s| >= 8 * n
    ensures |d| == n
    decreases n
  {
    if n == 0 then [] else
      ValBound(s[..8]);
      assert Pow2(8) == 256;
      var b: byte := Val(s[..8]);
      [b] + Bytes(s[8..], n - 1)
  }

  /** Section 3.2.4: an uncompressed block. It starts at the next byte, and the source wants at
      least one byte after the two lengths. */
  function Stored(s: seq<bool>, out: seq<byte>, ignoreNlen: bool): (r: Read<seq<byte>>)
    ensures r.Got? ==> |r.rest| <= |s|
  {
    var t := s[|s| % 8..];
    if |t| <= 32 then Malformed
    else
      var len, nlen := Val(t[..16]), Val(t[16..32]);
      if (!ignoreNlen && len + nlen != 65535) || |t| < 32 + 8 * len then Malformed
      else Got(out + Bytes(t[32..], len), t[32 + 8 * len..])
  }

  function OneBlock(btype: nat, s: seq<bool>, out: seq<byte>, ignoreNlen: bool): (r: Read<seq<byte>>)
    ensures r.Got? ==> |r.rest| <= |s|
  {
    if btype == 0 then Stored(s, out, ignoreNlen)
    else if btype == 1 then Block(FixedLengths(), FixedDistances(), s, out)
    else if btype == 2 then
      match DynamicTrees(s)
      case Malformed => Malformed
      case Got(trees, t) => Block(trees.0, trees.1, t, out)
    else Malformed
  }

  /** Section 3.2.3: blocks up to the last one. */
  function Inflate(s: seq<bool>, out: seq<byte>, ignoreNlen: bool): (r: Read<seq<byte>>)
    decreases |s|
  {
    if |s| < 3 then Malformed
    else
      match OneBlock(Val(s[1..3]), s[3..], out, ignoreNlen)
      case Malformed => Malformed
      case Got(next, t) => if s[0] then Got(next, t) else Inflate(t, next, ignoreNlen)
  }
}
