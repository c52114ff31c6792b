/** The other direction: the bits that stand for symbols, copies and code lengths, and that the
    decoder of DeflateSpec takes them back. */
module DeflateCode {
  import opened Bits
  import opened Canonical
  import opened DeflateSpec

  // ---------- symbols

  /** A code that can be decoded. */
  ghost predicate Decodable(lens: seq<nat>) {
    Bounded(lens, 15) && Used(lens, 15) <= Pow2(15)
  }

  lemma SymbolInverts(lens: seq<nat>, i: nat, rest: seq<bool>)
    requires Decodable(lens) && i < |lens| && lens[i] > 0
    ensures Symbol(lens, Code(lens, i) + rest) == Got(i, rest)
  {
    var s := Code(lens, i) + rest;
    var w := ZTake(s, 15);
    assert w[..lens[i]] == Code(lens, i);
    assert Begins(lens, i, w);
    var j := FindSymbol(lens, w, 0);
    assert j < |lens|;
    PrefixFree(lens, 15, i, j, w);
    assert s[lens[i]..] == rest;
  }

  lemma NumberInverts(x: nat, n: nat, rest: seq<bool>)
    requires x < Pow2(n)
    ensures Number(BitsOf(x, n) + rest, n) == Got(x, rest)
  {
    ValBitsOf(x, n);
    assert (BitsOf(x, n) + rest)[..n] == BitsOf(x, n);
  }

  // ---------- literals and copies

  datatype Token = Literal(b: byte) | Match(length: nat, distance: nat)

  /** lc is the last length code that does not begin above the length. */
  ghost predicate IsLengthCode(length: nat, lc: nat) {
    lc < 29 && LengthBase(lc) <= length && (lc < 28 ==> length < LengthBase(lc + 1))
  }

  ghost predicate IsDistanceCode(distance: nat, dc: nat) {
    dc < 30 && DistanceBase(dc) <= distance && (dc < 29 ==> distance < DistanceBase(dc + 1))
  }

  lemma {:induction false} SomeLengthCode(length: nat, i: nat) returns (lc: nat)
    requires length >= 3 && i < 29 && (i < 28 ==> length < LengthBase(i + 1))
    ensures IsLengthCode(length, lc)
    decreases i
  {
    if LengthBase(i) <= length { lc := i; } else { lc := SomeLengthCode(length, i - 1); }
  }

  lemma {:induction false} SomeDistanceCode(distance: nat, i: nat) returns (dc: nat)
    requires distance >= 1 && i < 30 && (i < 29 ==> distance < DistanceBase(i + 1))
    ensures IsDistanceCode(distance, dc)
    decreases i
  {
    if DistanceBase(i) <= distance { dc := i; } else { dc := SomeDistanceCode(distance, i - 1); }
  }

  lemma {:induction false} LengthBasesGrow(i: nat, j: nat)
    requires i < j < 29
    ensures LengthBase(i) < LengthBase(j)
    decreases j
  {
    if j == 28 { LengthBase27(); }
    if i < j - 1 { LengthBasesGrow(i, j - 1); }
  }

  lemma LengthBase27()
    ensures LengthBase(27) == 227
  {
    assert LengthBase(7) == 10 && LengthBase(11) == 17 && LengthBase(15) == 31;
    assert LengthBase(19) == 59 && LengthBase(23) == 115;
  }

  lemma {:induction false} DistanceBasesGrow(i: nat, j: nat)
    requires i < j < 30
    ensures DistanceBase(i) < DistanceBase(j)
    decreases j
  {
    if i < j - 1 { DistanceBasesGrow(i, j - 1); }
  }

  ghost function LengthCode(length: nat): (lc: nat)
    requires length >= 3
    ensures IsLengthCode(length, lc)
  {
    LengthCodeExists(length);
    var lc :| IsLengthCode(length, lc);
    lc
  }

  lemma LengthCodeExists(length: nat)
    requires length >= 3
    ensures exists lc :: IsLengthCode(length, lc)
  {
    var lc := SomeLengthCode(length, 28);
  }

  ghost function DistanceCode(distance: nat): (dc: nat)
    requires distance >= 1
    ensures IsDistanceCode(distance, dc)
  {
    DistanceCodeExists(distance);
    var dc :| IsDistanceCode(distance, dc);
    dc
  }

  lemma DistanceCodeExists(distance: nat)
    requires distance >= 1
    ensures exists dc :: IsDistanceCode(distance, dc)
  {
    var dc := SomeDistanceCode(distance, 29);
  }

  lemma LengthCodeUnique(length: nat, a: nat, b: nat)
    requires IsLengthCode(length, a) && IsLengthCode(length, b)
    ensures a == b
  {
    if a + 1 < b { LengthBasesGrow(a + 1, b); } else if b + 1 < a { LengthBasesGrow(b + 1, a); }
  }

  lemma DistanceCodeUnique(distance: nat, a: nat, b: nat)
    requires IsDistanceCode(distance, a) && IsDistanceCode(distance, b)
    ensures a == b
  {
    if a + 1 < b { DistanceBasesGrow(a + 1, b); } else if b + 1 < a { DistanceBasesGrow(b + 1, a); }
  }

  ghost predicate TokenOk(t: Token) {
    t.Match? ==> 3 <= t.length <= 258 && 1 <= t.distance <= 32768
  }

  /** The numbers that stand for a token between the two stages of the encoder. */
  ghost function Flat(t: Token): seq<nat>
    requires TokenOk(t)
  {
    match t
    case Literal(b) => [b]
    case Match(l, d) =>
      var lc, dc := LengthCode(l), DistanceCode(d);
      [FIRST_LENGTH_CODE + lc, l - LengthBase(lc), dc, d - DistanceBase(dc)]
  }

  /** The extra bits are enough for every length and distance. */
  lemma LengthExtraFits(length: nat)
    requires 3 <= length <= 258
    ensures length - LengthBase(LengthCode(length)) < Pow2(LengthExtra(LengthCode(length)))
  {
    var lc := LengthCode(length);
    if lc == 27 {
      LengthBase27();
      assert Pow2(LengthExtra(27)) == 32;
    }
  }

  lemma DistanceExtraFits(distance: nat)
    requires 1 <= distance <= 32768
    ensures distance - DistanceBase(DistanceCode(distance)) < Pow2(DistanceExtra(DistanceCode(distance)))
  {
    if DistanceCode(distance) == 29 { DistanceBase29(); }
  }

  lemma DistanceBase29()
    ensures DistanceBase(29) == 24577 && Pow2(DistanceExtra(29)) == 8192
  {
    DistanceBase21();
    PowersTo13();
    hide Pow2;
    assert DistanceBase(23) == 3073;
    assert DistanceBase(25) == 6145;
    assert DistanceBase(27) == 12289;
  }

  lemma PowersTo13()
    ensures Pow2(9) == 512 && Pow2(10) == 1024 && Pow2(11) == 2048 && Pow2(12) == 4096 && Pow2(13) == 8192
  {
    PowersTo8();
    hide Pow2;
    Pow2Add(8, 1);
    Pow2Add(8, 2);
    Pow2Add(8, 3);
    Pow2Add(8, 4);
    Pow2Add(8, 5);
  }

  lemma PowersTo8()
    ensures Pow2(0) == 1 && Pow2(1) == 2 && Pow2(2) == 4 && Pow2(3) == 8 && Pow2(4) == 16
    ensures Pow2(5) == 32 && Pow2(6) == 64 && Pow2(7) == 128 && Pow2(8) == 256
  {
    assert Pow2(4) == 16;
  }

  lemma DistanceBase21()
    ensures DistanceBase(21) == 1537
  {
    Pow2Add(8, 1);
    PowersTo8();
    hide Pow2;
    assert DistanceBase(3) == 4 && DistanceBase(5) == 7 && DistanceBase(7) == 13 && DistanceBase(9) == 25;
    assert DistanceBase(11) == 49 && DistanceBase(13) == 97 && DistanceBase(15) == 193;
    assert DistanceBase(17) == 385 && DistanceBase(19) == 769;
  }

  /** Every symbol the token needs has a code. */
  ghost predicate Coded(ll: seq<nat>, dd: seq<nat>, t: Token)
    requires TokenOk(t)
  {
    match t
    case Literal(b) => b < |ll| && ll[b] > 0
    case Match(l, d) =>
      var lc, dc := FIRST_LENGTH_CODE + LengthCode(l), DistanceCode(d);
      lc < |ll| && ll[lc] > 0 && dc < |dd| && dd[dc] > 0
  }

  /** The bits of a token, and then the rest. */
  ghost function TokenBits(ll: seq<nat>, dd: seq<nat>, t: Token, rest: seq<bool>): seq<bool>
    requires TokenOk(t) && Coded(ll, dd, t)
  {
    match t
    case Literal(b) => Code(ll, b) + rest
    case Match(l, d) =>
      Code(ll, FIRST_LENGTH_CODE + LengthCode(l)) + PairBits(dd, LengthCode(l), DistanceCode(d), l, d, rest)
  }

  /** What follows the length code of a match. */
  function PairBits(dd: seq<nat>, lc: nat, dc: nat, length: nat, distance: nat, rest: seq<bool>): seq<bool>
    requires lc < 29 && dc < 30 && dc < |dd| && dd[dc] > 0
    requires length >= LengthBase(lc) && distance >= DistanceBase(dc)
  {
    BitsOf(length - LengthBase(lc), LengthExtra(lc))
      + (Code(dd, dc) + (BitsOf(distance - DistanceBase(dc), DistanceExtra(dc)) + rest))
  }

  lemma TokenBitsRest(ll: seq<nat>, dd: seq<nat>, t: Token, rest: seq<bool>)
    requires TokenOk(t) && Coded(ll, dd, t)
    ensures TokenBits(ll, dd, t, rest) == TokenBits(ll, dd, t, []) + rest
  {
    match t
    case Literal(b) =>
      assert Code(ll, b) + [] == Code(ll, b);
    case Match(l, d) =>
      var lc, dc := LengthCode(l), DistanceCode(d);
      Chain(Code(ll, FIRST_LENGTH_CODE + lc), BitsOf(l - LengthBase(lc), LengthExtra(lc)),
            Code(dd, dc), BitsOf(d - DistanceBase(dc), DistanceExtra(dc)), rest);
  }

  lemma Chain(a: seq<bool>, b: seq<bool>, c: seq<bool>, d: seq<bool>, rest: seq<bool>)
    ensures a + (b + (c + (d + rest))) == (a + (b + (c + (d + [])))) + rest
  {
    assert d + [] == d;
  }

  /** What a token adds to the output. */
  ghost predicate Reaches(out: seq<byte>, t: Token) {
    t.Match? ==> 0 < t.distance <= |out|
  }

  function Apply(out: seq<byte>, t: Token): (r: seq<byte>)
    requires Reaches(out, t)
    ensures out <= r
  {
    match t
    case Literal(b) => out + [b]
    case Match(l, d) => Copy(out, l, d)
  }

  /** The output after a list of tokens; none of them reaches back too far. */
  ghost predicate AllReach(out: seq<byte>, ts: seq<Token>)
    decreases ts
  {
    ts == [] || (Reaches(out, ts[0]) && AllReach(Apply(out, ts[0]), ts[1..]))
  }

  function Expand(out: seq<byte>, ts: seq<Token>): (r: seq<byte>)
    requires AllReach(out, ts)
    ensures out <= r
    decreases ts
  {
    if ts == [] then out else Expand(Apply(out, ts[0]), ts[1..])
  }

  lemma {:induction false} ExpandAppend(out: seq<byte>, ts: seq<Token>, t: Token)
    requires AllReach(out, ts) && Reaches(Expand(out, ts), t)
    ensures AllReach(out, ts + [t]) && Expand(out, ts + [t]) == Apply(Expand(out, ts), t)
    decreases ts
  {
    if ts == [] {
      assert [t][1..] == [];
    } else {
      assert (ts + [t])[1..] == ts[1..] + [t];
      ExpandAppend(Apply(out, ts[0]), ts[1..], t);
    }
  }

  /** Every token adds a byte at least. */
  lemma {:induction false} TokensShort(out: seq<byte>, ts: seq<Token>)
    requires AllReach(out, ts) && forall i :: 0 <= i < |ts| ==> TokenOk(ts[i])
    ensures |out| + |ts| <= |Expand(out, ts)|
    decreases ts
  {
    if ts != [] {
      TokensShort(Apply(out, ts[0]), ts[1..]);
    }
  }

  ghost predicate AllCoded(ll: seq<nat>, dd: seq<nat>, ts: seq<Token>) {
    forall i :: 0 <= i < |ts| ==> TokenOk(ts[i]) && Coded(ll, dd, ts[i])
  }

  ghost function TokensBits(ll: seq<nat>, dd: seq<nat>, ts: seq<Token>, rest: seq<bool>): seq<bool>
    requires AllCoded(ll, dd, ts)
    decreases ts
  {
    if ts == [] then rest else TokenBits(ll, dd, ts[0], TokensBits(ll, dd, ts[1..], rest))
  }

  /** Tokens are written one after the other. */
  lemma {:induction false} TokensBitsAppend(ll: seq<nat>, dd: seq<nat>, ts: seq<Token>, t: Token, rest: seq<bool>)
    requires AllCoded(ll, dd, ts) && TokenOk(t) && Coded(ll, dd, t)
    ensures AllCoded(ll, dd, ts + [t])
    ensures TokensBits(ll, dd, ts + [t], rest) == TokensBits(ll, dd, ts, TokenBits(ll, dd, t, rest))
  {
    if ts == [] {
      assert [t][1..] == [];
    } else {
      assert (ts + [t])[1..] == ts[1..] + [t];
      TokensBitsAppend(ll, dd, ts[1..], t, rest);
    }
  }

  lemma {:induction false} TokensBitsRest(ll: seq<nat>, dd: seq<nat>, ts: seq<Token>, rest: seq<bool>)
    requires AllCoded(ll, dd, ts)
    ensures TokensBits(ll, dd, ts, rest) == TokensBits(ll, dd, ts, []) + rest
    decreases ts
  {
    if ts != [] {
      TokensBitsRest(ll, dd, ts[1..], rest);
      TokenBitsRest(ll, dd, ts[0], TokensBits(ll, dd, ts[1..], rest));
      TokenBitsRest(ll, dd, ts[0], TokensBits(ll, dd, ts[1..], []));
    }
  }

  lemma PairInverts(dd: seq<nat>, lc: nat, dc: nat, le: nat, de: nat, rest: seq<bool>)
    requires |dd| == 32 && Decodable(dd) && lc < 29 && dc < 30 && dd[dc] > 0
    requires le < Pow2(LengthExtra(lc)) && de < Pow2(DistanceExtra(dc))
    ensures Pair(dd, lc, BitsOf(le, LengthExtra(lc)) + (Code(dd, dc) + (BitsOf(de, DistanceExtra(dc)) + rest)))
         == Got((LengthBase(lc) + le, DistanceBase(dc) + de), rest)
  {
    hide *;
    var s3 := BitsOf(de, DistanceExtra(dc)) + rest;
    var s2 := Code(dd, dc) + s3;
    NumberInverts(le, LengthExtra(lc), s2);
    SymbolInverts(dd, dc, s3);
    NumberInverts(de, DistanceExtra(dc), rest);
    PairSteps(dd, lc, BitsOf(le, LengthExtra(lc)) + s2, s2, s3, rest, le, dc, de);
  }

  lemma PairSteps(dd: seq<nat>, lc: nat, s1: seq<bool>, s2: seq<bool>, s3: seq<bool>, s4: seq<bool>,
                  le: nat, dc: nat, de: nat)
    requires |dd| == 32 && lc < 29 && dc < 30
    requires Number(s1, LengthExtra(lc)) == Got(le, s2) && Symbol(dd, s2) == Got(dc, s3)
    requires Number(s3, DistanceExtra(dc)) == Got(de, s4)
    ensures Pair(dd, lc, s1) == Got((LengthBase(lc) + le, DistanceBase(dc) + de), s4)
  {
  }

  /** Decoding one coded token. */
  lemma TokenInverts(ll: seq<nat>, dd: seq<nat>, t: Token, rest: seq<bool>, out: seq<byte>)
    requires |ll| == 288 && |dd| == 32 && Decodable(ll) && Decodable(dd)
    requires TokenOk(t) && Coded(ll, dd, t) && Reaches(out, t)
    ensures Block(ll, dd, TokenBits(ll, dd, t, rest), out) == Block(ll, dd, rest, Apply(out, t))
  {
    match t
    case Literal(b) =>
      SymbolInverts(ll, b, rest);
    case Match(l, d) =>
      LengthExtraFits(l);
      DistanceExtraFits(d);
      MatchInverts(ll, dd, LengthCode(l), DistanceCode(d), l, d, rest, out);
  }

  lemma PairBitsInvert(dd: seq<nat>, lc: nat, dc: nat, l: nat, d: nat, rest: seq<bool>)
    requires |dd| == 32 && Decodable(dd) && lc < 29 && dc < 30 && dd[dc] > 0
    requires 0 <= l - LengthBase(lc) < Pow2(LengthExtra(lc))
    requires 0 <= d - DistanceBase(dc) < Pow2(DistanceExtra(dc))
    ensures Pair(dd, lc, PairBits(dd, lc, dc, l, d, rest)) == Got((l, d), rest)
  {
    hide Pair, Code, BitsOf, LengthBase, DistanceBase, LengthExtra, DistanceExtra, Decodable, Pow2;
    PairInverts(dd, lc, dc, l - LengthBase(lc), d - DistanceBase(dc), rest);
  }

  lemma MatchInverts(ll: seq<nat>, dd: seq<nat>, lc: nat, dc: nat, l: nat, d: nat, rest: seq<bool>, out: seq<byte>)
    requires |ll| == 288 && |dd| == 32 && Decodable(ll) && Decodable(dd) && lc < 29 && dc < 30
    requires ll[FIRST_LENGTH_CODE + lc] > 0 && dd[dc] > 0 && 0 < d <= |out|
    requires 0 <= l - LengthBase(lc) < Pow2(LengthExtra(lc))
    requires 0 <= d - DistanceBase(dc) < Pow2(DistanceExtra(dc))
    ensures Block(ll, dd, Code(ll, FIRST_LENGTH_CODE + lc) + PairBits(dd, lc, dc, l, d, rest), out)
         == Block(ll, dd, rest, Copy(out, l, d))
  {
    assert FIRST_LENGTH_CODE + lc < 288;
    hide *;
    var s1 := PairBits(dd, lc, dc, l, d, rest);
    SymbolInverts(ll, FIRST_LENGTH_CODE + lc, s1);
    PairBitsInvert(dd, lc, dc, l, d, rest);
    BlockMatch(ll, dd, Code(ll, FIRST_LENGTH_CODE + lc) + s1, s1, rest, lc, l, d, out);
  }

  lemma BlockMatch(ll: seq<nat>, dd: seq<nat>, s: seq<bool>, s1: seq<bool>, s2: seq<bool>, lc: nat,
                   l: nat, d: nat, out: seq<byte>)
    requires |ll| == 288 && |dd| == 32 && lc < 29 && 0 < d <= |out|
    requires Symbol(ll, s) == Got(FIRST_LENGTH_CODE + lc, s1) && Pair(dd, lc, s1) == Got((l, d), s2)
    ensures Block(ll, dd, s, out) == Block(ll, dd, s2, Copy(out, l, d))
  {
  }

  /** A whole block: coded tokens and the end code decode to what the tokens expand to. */
  lemma {:induction false} BlockInverts(ll: seq<nat>, dd: seq<nat>, ts: seq<Token>, rest: seq<bool>, out: seq<byte>)
    requires |ll| == 288 && |dd| == 32 && Decodable(ll) && Decodable(dd) && ll[END_CODE] > 0
    requires AllCoded(ll, dd, ts) && AllReach(out, ts)
    ensures Block(ll, dd, TokensBits(ll, dd, ts, Code(ll, END_CODE) + rest), out) == Got(Expand(out, ts), rest)
    decreases ts
  {
    var fin := Code(ll, END_CODE) + rest;
    if ts == [] {
      SymbolInverts(ll, END_CODE, rest);
    } else {
      TokenInverts(ll, dd, ts[0], TokensBits(ll, dd, ts[1..], fin), out);
      BlockInverts(ll, dd, ts[1..], rest, Apply(out, ts[0]));
    }
  }
}
