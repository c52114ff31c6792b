/** The filters of section 9.2 of the PNG Specification, Second Edition: what a filtered line
    says, and that undoing a filter gives the line back. */
module Filters {
  import opened Bits

  // ---------- predictors

  function Abs(x: int): nat {
    if x < 0 then -x else x
  }

  /** The neighbour that is nearest to a + b - c, in the order a, b, c. */
  function Paeth(a: byte, b: byte, c: byte): (p: byte)
    ensures p == a || p == b || p == c
  {
    var pa, pb, pc := Abs((b as int) - c), Abs((a as int) - c), Abs((a as int) + b - c - c);
    if pa <= pb && pa <= pc then a else if pb <= pc then b else c
  }

  /** The prediction of filter type f from the bytes to the left, above, and above to the left. */
  function Predict(f: nat, a: byte, b: byte, c: byte): byte {
    if f == 0 then 0
    else if f == 1 then a
    else if f == 2 then b
    else if f == 3 then ((a as int) + b) / 2
    else Paeth(a, b, c)
  }

  /** Section 9.4: with t = a + b - c, no neighbour is nearer to t than the predictor. Of equally near ones
      a is taken before b, and b before c. */
  lemma PaethIsNearest(a: byte, b: byte, c: byte)
    ensures var t, p: int := a as int + b - c, Paeth(a, b, c);
      var ofA, ofB, ofC := if t < a then a - t else t - a, if t < b then b - t else t - b, if t < c then c - t
        else t - c;
      var ofP := if t < p then p - t else t - p;
      && p in [a, b, c] && ofP <= ofA && ofP <= ofB && ofP <= ofC
      && (p != a ==> ofP < ofA) && (p != a && p != b ==> ofP < ofB)
  {
  }

  /** The other filter types of section 9.2: no prediction, the byte to the left, the byte above, and
      the average of the two, rounded down. */
  lemma PredictIs(a: byte, b: byte, c: byte)
    ensures Predict(0, a, b, c) == 0 && Predict(1, a, b, c) == a && Predict(2, a, b, c) == b
    ensures 2 * (Predict(3, a, b, c) as int) <= a as int + b <= 2 * (Predict(3, a, b, c) as int) + 1
    ensures Predict(4, a, b, c) == Paeth(a, b, c)
  {
  }

  /** The byte bw places before place i, or zero. */
  function Left(line: seq<byte>, bw: nat, i: nat): byte
    requires bw > 0 && i <= |line|
  {
    if i >= bw then line[i - bw] else 0
  }

  /** The previous line, which is zero before the first. */
  function Above(prev: seq<byte>, i: nat): byte {
    if i < |prev| then prev[i] else 0
  }

  function AboveLeft(prev: seq<byte>, bw: nat, i: nat): byte {
    if bw <= i < bw + |prev| then prev[i - bw] else 0
  }

  /** The prediction for place i of a line of which the places before i are known. */
  function PredictAt(f: nat, known: seq<byte>, prev: seq<byte>, bw: nat, i: nat): byte
    requires bw > 0 && i <= |known|
  {
    Predict(f, Left(known, bw, i), Above(prev, i), AboveLeft(prev, bw, i))
  }

  // ---------- lines

  /** o is the line x after filtering. */
  ghost predicate Filtered(f: nat, x: seq<byte>, prev: seq<byte>, bw: nat, o: seq<byte>)
    requires bw > 0
  {
    |o| == |x| && forall i :: 0 <= i < |x| ==> o[i] == (x[i] as int - PredictAt(f, x, prev, bw, i)) % 256
  }

  /** r is what the filtered line o is reconstructed to. */
  ghost predicate Unfiltered(f: nat, o: seq<byte>, prev: seq<byte>, bw: nat, r: seq<byte>)
    requires bw > 0
  {
    |r| == |o| && forall i :: 0 <= i < |o| ==> r[i] == (o[i] as int + PredictAt(f, r, prev, bw, i)) % 256
  }

  lemma PredictedByte(f: nat, x: seq<byte>, prev: seq<byte>, bw: nat, o: seq<byte>, i: nat)
    requires bw > 0 && i < |x| && (Filtered(f, x, prev, bw, o) || Unfiltered(f, o, prev, bw, x))
    ensures |o| == |x| && x[i] == (o[i] as int + PredictAt(f, x, prev, bw, i)) % 256
  {
    hide PredictAt;
    if Filtered(f, x, prev, bw, o) {
      AddBack(x[i], PredictAt(f, x, prev, bw, i));
    }
  }

  /** What the predicates say of one byte: filtered and predicted together make it, modulo 256. The
      bytes left of the line are zero, and so is the line above the first. */
  lemma FilteredByte(f: nat, x: seq<byte>, prev: seq<byte>, bw: nat, o: seq<byte>, i: nat)
    requires bw > 0 && i < |x| && (prev == [] || |prev| == |x|)
    requires Filtered(f, x, prev, bw, o) || Unfiltered(f, o, prev, bw, x)
    ensures |o| == |x|
    ensures var a: byte := if i < bw then 0 else x[i - bw];
      var b: byte := if prev == [] then 0 else prev[i];
      var c: byte := if prev == [] || i < bw then 0 else prev[i - bw];
      && (f == 0 ==> x[i] == o[i])
      && (f == 1 ==> x[i] == (o[i] as int + a) % 256)
      && (f == 2 ==> x[i] == (o[i] as int + b) % 256)
      && (f == 3 ==> x[i] == (o[i] as int + (a as int + b) / 2) % 256)
      && (f == 4 ==> x[i] == (o[i] as int + Paeth(a, b, c)) % 256)
  {
    PredictedByte(f, x, prev, bw, o, i);
    hide Filtered, Unfiltered, Paeth;
  }

  /** Undoing a filter: for every type, width of pixel and length of line. */
  lemma UnfilterInverts(f: nat, x: seq<byte>, prev: seq<byte>, bw: nat, o: seq<byte>, r: seq<byte>)
    requires bw > 0 && Filtered(f, x, prev, bw, o) && Unfiltered(f, o, prev, bw, r)
    ensures r == x
  {
    SamePrefix(f, x, prev, bw, o, r, |x|);
    assert r[..|x|] == r && x[..|x|] == x;
  }

  lemma {:induction false} SamePrefix(f: nat, x: seq<byte>, prev: seq<byte>, bw: nat, o: seq<byte>, r: seq<byte>,
                                      n: nat)
    requires bw > 0 && Filtered(f, x, prev, bw, o) && Unfiltered(f, o, prev, bw, r) && n <= |x|
    ensures r[..n] == x[..n]
    decreases n
  {
    if n > 0 {
      SamePrefix(f, x, prev, bw, o, r, n - 1);
      assert Left(r, bw, n - 1) == Left(x, bw, n - 1) by {
        if n - 1 >= bw { assert r[n - 1 - bw] == r[..n - 1][n - 1 - bw] == x[..n - 1][n - 1 - bw]; }
      }
      AddBack(x[n - 1], PredictAt(f, x, prev, bw, n - 1));
      assert r[n - 1] == x[n - 1];
      assert r[..n] == r[..n - 1] + [r[n - 1]] && x[..n] == x[..n - 1] + [x[n - 1]];
    }
  }

  lemma AddBack(x: byte, p: byte)
    ensures ((x as int - p) % 256 + p) % 256 == x
  {
  }

  /** There is only one reconstruction. */
  lemma {:induction false} UnfilteredUnique(f: nat, o: seq<byte>, prev: seq<byte>, bw: nat, r: seq<byte>, s: seq<byte>,
                                            n: nat)
    requires bw > 0 && Unfiltered(f, o, prev, bw, r) && Unfiltered(f, o, prev, bw, s) && n <= |o|
    ensures r[..n] == s[..n]
    decreases n
  {
    if n > 0 {
      UnfilteredUnique(f, o, prev, bw, r, s, n - 1);
      assert Left(r, bw, n - 1) == Left(s, bw, n - 1) by {
        if n - 1 >= bw { assert r[n - 1 - bw] == r[..n - 1][n - 1 - bw] == s[..n - 1][n - 1 - bw]; }
      }
      assert r[..n] == r[..n - 1] + [r[n - 1]] && s[..n] == s[..n - 1] + [s[n - 1]];
    }
  }

  // ---------- images

  /** Row y of rows of n bytes; it begins at y * n. */
  function Row(d: seq<byte>, n: nat, y: nat): seq<byte>
    requires Mul(y, n) + n <= |d|
  {
    d[Mul(y, n)..Mul(y, n) + n]
  }

  /** The row before row y, or none. */
  function Before(d: seq<byte>, n: nat, y: nat): seq<byte>
    requires y > 0 ==> Mul(y - 1, n) + n <= |d|
  {
    if y == 0 then [] else Row(d, n, y - 1)
  }

  /** Row y of the filtered image f, with its filter type, is the filtered row y of x. */
  ghost predicate RowFiltered(f: seq<byte>, x: seq<byte>, n: nat, bw: nat, y: nat) {
    && bw > 0 && Mul(y, 1 + n) + 1 + n <= |f| && Mul(y, n) + n <= |x|
    && (y > 0 ==> Mul(y - 1, n) + n <= |x|)
    && f[Mul(y, 1 + n)] <= 4
    && Filtered(f[Mul(y, 1 + n)], Row(x, n, y), Before(x, n, y), bw, f[Mul(y, 1 + n) + 1..Mul(y, 1 + n) + 1 + n])
  }

  ghost predicate RowUnfiltered(f: seq<byte>, r: seq<byte>, n: nat, bw: nat, y: nat) {
    && bw > 0 && Mul(y, 1 + n) + 1 + n <= |f| && Mul(y, n) + n <= |r|
    && (y > 0 ==> Mul(y - 1, n) + n <= |r|)
    && f[Mul(y, 1 + n)] <= 4
    && Unfiltered(f[Mul(y, 1 + n)], f[Mul(y, 1 + n) + 1..Mul(y, 1 + n) + 1 + n], Before(r, n, y), bw, Row(r, n, y))
  }

  ghost predicate ImageFiltered(f: seq<byte>, x: seq<byte>, n: nat, bw: nat, h: nat) {
    |x| == Mul(h, n) && |f| == Mul(h, 1 + n) && forall y :: 0 <= y < h ==> RowFiltered(f, x, n, bw, y)
  }

  ghost predicate ImageUnfiltered(f: seq<byte>, r: seq<byte>, n: nat, bw: nat, h: nat) {
    |r| == Mul(h, n) && |f| == Mul(h, 1 + n) && forall y :: 0 <= y < h ==> RowUnfiltered(f, r, n, bw, y)
  }

  /** A filtered image is reconstructed to itself. */
  lemma ImageInverts(f: seq<byte>, x: seq<byte>, n: nat, bw: nat, h: nat, r: seq<byte>)
    requires ImageFiltered(f, x, n, bw, h) && ImageUnfiltered(f, r, n, bw, h)
    ensures r == x
  {
    ImagePrefix(f, x, n, bw, h, r, h);
    assert r[..Mul(h, n)] == r && x[..Mul(h, n)] == x;
  }

  lemma {:induction false} ImagePrefix(f: seq<byte>, x: seq<byte>, n: nat, bw: nat, h: nat, r: seq<byte>, y: nat)
    requires ImageFiltered(f, x, n, bw, h) && ImageUnfiltered(f, r, n, bw, h) && y <= h
    ensures Mul(y, n) <= |x| && r[..Mul(y, n)] == x[..Mul(y, n)]
    decreases y
  {
    hide Filtered, Unfiltered, Mul;
    MulZero(n);
    if y > 0 {
      ImagePrefix(f, x, n, bw, h, r, y - 1);
      assert RowFiltered(f, x, n, bw, y - 1) && RowUnfiltered(f, r, n, bw, y - 1);
      MulNext(y, n);
      SameBefore(x, n, r, y - 1);
      UnfilterInverts(f[Mul(y - 1, 1 + n)], Row(x, n, y - 1), Before(x, n, y - 1), bw,
                      f[Mul(y - 1, 1 + n) + 1..Mul(y - 1, 1 + n) + 1 + n], Row(r, n, y - 1));
      assert r[..Mul(y, n)] == r[..Mul(y - 1, n)] + Row(r, n, y - 1);
      assert x[..Mul(y, n)] == x[..Mul(y - 1, n)] + Row(x, n, y - 1);
    }
  }

  lemma SameBefore(x: seq<byte>, n: nat, r: seq<byte>, y: nat)
    requires Mul(y, n) <= |x| == |r| && r[..Mul(y, n)] == x[..Mul(y, n)]
    ensures y > 0 ==> Mul(y - 1, n) + n <= |x|
    ensures Before(r, n, y) == Before(x, n, y)
  {
    if y > 0 {
      MulNext(y, n);
      assert Row(r, n, y - 1) == r[..Mul(y, n)][Mul(y - 1, n)..];
      assert Row(x, n, y - 1) == x[..Mul(y, n)][Mul(y - 1, n)..];
    }
  }

  /** There is only one reconstruction of an image. */
  lemma {:induction false} ImageUnique(f: seq<byte>, n: nat, bw: nat, h: nat, r: seq<byte>, s: seq<byte>, y: nat)
    requires ImageUnfiltered(f, s, n, bw, h) && ImageUnfiltered(f, r, n, bw, h) && y <= h
    ensures Mul(y, n) <= |s| && r[..Mul(y, n)] == s[..Mul(y, n)]
    decreases y
  {
    hide Unfiltered, Mul;
    MulZero(n);
    if y > 0 {
      ImageUnique(f, n, bw, h, r, s, y - 1);
      assert RowUnfiltered(f, s, n, bw, y - 1) && RowUnfiltered(f, r, n, bw, y - 1);
      MulNext(y, n);
      SameBefore(s, n, r, y - 1);
      UnfilteredUnique(f[Mul(y - 1, 1 + n)], f[Mul(y - 1, 1 + n) + 1..Mul(y - 1, 1 + n) + 1 + n], Before(s, n, y - 1),
        bw,
                       Row(r, n, y - 1), Row(s, n, y - 1), n);
      assert Row(r, n, y - 1)[..n] == Row(r, n, y - 1) && Row(s, n, y - 1)[..n] == Row(s, n, y - 1);
      assert r[..Mul(y, n)] == r[..Mul(y - 1, n)] + Row(r, n, y - 1);
      assert s[..Mul(y, n)] == s[..Mul(y - 1, n)] + Row(s, n, y - 1);
    }
  }
}
