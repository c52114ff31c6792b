/** Which run-length code the compressor chooses for the lengths of its trees. */
module RunLengths {
  import opened Bits
  import opened DeflateSpec
  import opened TreeCode

  /** How many of the lengths from i on are the same. */
  function Same(lens: seq<nat>, i: nat): (m: nat)
    requires i < |lens|
    ensures 1 <= m && i + m <= |lens|
    ensures forall k: int :: i <= k < i + m ==> lens[k] == lens[i]
    ensures i + m < |lens| ==> lens[i + m] != lens[i]
    decreases |lens| - i
  {
    if i + 1 < |lens| && lens[i + 1] == lens[i] then 1 + Same(lens, i + 1) else 1
  }

  lemma {:induction false} SameIs(lens: seq<nat>, i: nat, m: nat)
    requires i < |lens| && 1 <= m && i + m <= |lens| && (i + m < |lens| ==> lens[i + m] != lens[i])
    requires forall k: int :: i <= k < i + m ==> lens[k] == lens[i]
    ensures Same(lens, i) == m
    decreases m
  {
    if m > 1 { SameIs(lens, i + 1, m - 1); }
  }

  function Sixes(n: nat): (rs: seq<Run>)
    ensures |rs| == n && forall i :: 0 <= i < n ==> rs[i] == Again(6)
  {
    seq(n, _ => Again(6))
  }

  /** Three zeros or more become one code, up to 138 of them. Any other length that occurs four times or more
      is followed by codes for its repetitions, six at a time, and less than three are left over. */
  function Pieces(v: nat, m: nat): (rs: seq<Run>)
    requires m >= 1
    ensures rs != []
  {
    if v == 0 && m >= 3 then [Zeroes(if m > 138 then 138 else m)]
    else if m >= 4 then
      [Length(v)] + Sixes((m - 1) / 6) + (if (m - 1) % 6 >= 3 then [Again((m - 1) % 6)] else [])
    else [Length(v)]
  }

  /** How many lengths they stand for. */
  function Covered(v: nat, m: nat): (n: nat)
    requires m >= 1
    ensures 1 <= n <= m
  {
    if v == 0 && m >= 3 then (if m > 138 then 138 else m)
    else if m >= 4 then (if (m - 1) % 6 >= 3 then m else m - (m - 1) % 6)
    else 1
  }

  /** The code of the lengths from i on. */
  function Chosen(lens: seq<nat>, i: nat): seq<Run>
    requires i <= |lens|
    decreases |lens| - i
  {
    if i == |lens| then []
    else Pieces(lens[i], Same(lens, i)) + Chosen(lens, i + Covered(lens[i], Same(lens, i)))
  }

  lemma ChosenStep(lens: seq<nat>, i: nat, rs: seq<Run>, m: nat)
    requires i < |lens| && m == Same(lens, i) && rs + Chosen(lens, i) == Chosen(lens, 0)
    ensures (rs + Pieces(lens[i], m)) + Chosen(lens, i + Covered(lens[i], m)) == Chosen(lens, 0)
  {
    hide Pieces, Covered, Same;
    Together(rs, Pieces(lens[i], m), Chosen(lens, i + Covered(lens[i], m)));
  }

  lemma Together(a: seq<Run>, b: seq<Run>, c: seq<Run>)
    ensures (a + b) + c == a + (b + c)
  {
  }

  // ---------- it is worth its name

  /** From place k on there are n single codes for the same length. */
  ghost predicate Singles(rs: seq<Run>, k: nat, n: nat, v: nat) {
    k + n <= |rs| && forall a: int :: k <= a < k + n ==> rs[a] == Length(v)
  }

  /** Only the first piece can be a length, and it is no repetition. */
  lemma PieceKinds(v: nat, m: nat, k: nat)
    requires m >= 1 && k < |Pieces(v, m)|
    ensures !Pieces(v, m)[0].Again? && (k > 0 ==> Pieces(v, m)[k].Again?)
    ensures Pieces(v, m)[0].Length? ==> Pieces(v, m)[0] == Length(v)
    ensures |Pieces(v, m)| == 1 && Pieces(v, m)[0].Length? ==> m <= if v == 0 then 2 else 3
  {
  }

  /** Single codes come from the lengths themselves, one by one. */
  lemma SingleFirst(lens: seq<nat>, i: nat, v: nat, n: nat)
    requires i <= |lens| && n >= 2 && Singles(Chosen(lens, i), 0, n, v)
    ensures i < |lens| && lens[i] == v && Singles(Chosen(lens, i + 1), 0, n - 1, v)
    ensures Chosen(lens, i) == [Length(v)] + Chosen(lens, i + 1)
  {
    var rs, p := Chosen(lens, i), Pieces(lens[i], Same(lens, i));
    assert rs[0] == p[0] == Length(v);
    PieceKinds(lens[i], Same(lens, i), if |p| > 1 then 1 else 0);
    assert rs[1] == Length(v);
    assert (p + Chosen(lens, i + Covered(lens[i], Same(lens, i))))[1].Length?;
    assert p == [Length(v)];
    var rest := Chosen(lens, i + 1);
    forall a: int | 0 <= a < n - 1 ensures rest[a] == Length(v) { assert rest[a] == rs[a + 1]; }
  }

  lemma {:induction false} SinglesAre(lens: seq<nat>, i: nat, v: nat, n: nat)
    requires i <= |lens| && n >= 1 && Singles(Chosen(lens, i), 0, n, v)
    ensures i + n <= |lens| && forall k: int :: i <= k < i + n ==> lens[k] == v
    decreases n
  {
    if n > 1 {
      SingleFirst(lens, i, v, n);
      SinglesAre(lens, i + 1, v, n - 1);
    } else {
      assert Chosen(lens, i)[0] == Pieces(lens[i], Same(lens, i))[0];
    }
  }

  /** No more than two zeros and no more than three equal lengths in a row are written one by one. */
  lemma {:induction false} RunsArePacked(lens: seq<nat>, i: nat, k: nat, n: nat, v: nat)
    requires i <= |lens| && n >= 1 && Singles(Chosen(lens, i), k, n, v)
    ensures n <= if v == 0 then 2 else 3
    decreases |lens| - i
  {
    hide Pieces, Covered, Same;
    var rs, m := Chosen(lens, i), Same(lens, i);
    var p, next := Pieces(lens[i], m), i + Covered(lens[i], m);
    if k >= |p| {
      var rest := Chosen(lens, next);
      forall a: int | k - |p| <= a < k - |p| + n ensures rest[a] == Length(v) { assert rest[a] == rs[a + |p|]; }
      RunsArePacked(lens, next, k - |p|, n, v);
    } else {
      assert rs[k] == p[k];
      PieceKinds(lens[i], m, k);
      assert k == 0;
      if n >= 2 {
        SingleFirst(lens, i, v, n);
        SinglesAre(lens, i, v, n);
        SingleRunShort(lens, i, v);
        assert lens[i + n - 1] == v;
      }
    }
  }

  /** A length that is written alone does not begin a long run. */
  lemma SingleRunShort(lens: seq<nat>, i: nat, v: nat)
    requires i < |lens| && Chosen(lens, i) == [Length(v)] + Chosen(lens, i + 1)
    ensures Same(lens, i) <= if v == 0 then 2 else 3
  {
    var rs, m := Chosen(lens, i), Same(lens, i);
    var p := Pieces(lens[i], m);
    assert rs[0] == p[0];
    assert |p| > 1 ==> rs[1] == p[1];
    assert |rs| > 1 ==> rs[1] == Chosen(lens, i + 1)[0] == Pieces(lens[i + 1], Same(lens, i + 1))[0];
    PieceKinds(lens[i], m, if |p| > 1 then 1 else 0);
    if i + 1 < |lens| { PieceKinds(lens[i + 1], Same(lens, i + 1), 0); }
    assert |p| == 1;
  }
}
