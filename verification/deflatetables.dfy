/** The tables of the source, and that they are what the format says. */
module DeflateTables {
  import opened Bits
  import opened DeflateSpec
  import opened DeflateCode

  const LENGTH_BASE: seq<nat> :=
    [3, 4, 5, 6, 7, 8, 9, 10, 11, 13, 15, 17, 19, 23, 27, 31, 35, 43, 51, 59,
     67, 83, 99, 115, 131, 163, 195, 227, 258]

  const LENGTH_EXTRA: seq<nat> :=
    [0, 0, 0, 0, 0, 0, 0, 0, 1, 1, 1, 1, 2, 2, 2, 2, 3, 3, 3, 3, 4, 4, 4, 4, 5, 5, 5, 5, 0]

  const DISTANCE_BASE: seq<nat> :=
    [1, 2, 3, 4, 5, 7, 9, 13, 17, 25, 33, 49, 65, 97, 129, 193, 257, 385, 513,
     769, 1025, 1537, 2049, 3073, 4097, 6145, 8193, 12289, 16385, 24577]

  const DISTANCE_EXTRA: seq<nat> :=
    [0, 0, 0, 0, 1, 1, 2, 2, 3, 3, 4, 4, 5, 5, 6, 6, 7, 7, 8, 8, 9, 9, 10, 10, 11, 11, 12, 12, 13, 13]

  const CLCL_ORDER: seq<nat> := [16, 17, 18, 0, 8, 7, 9, 6, 10, 5, 11, 4, 12, 3, 13, 2, 14, 1, 15]

  lemma ExtraTables(i: nat)
    ensures i < 29 ==> LENGTH_EXTRA[i] == LengthExtra(i)
    ensures i < 30 ==> DISTANCE_EXTRA[i] == DistanceExtra(i)
  {
  }

  lemma OrderTable(i: nat)
    requires i < 19
    ensures CLCL_ORDER[i] == ClOrder(i)
  {
  }

  lemma {:induction false} LengthTable(i: nat)
    requires i < 29
    ensures LENGTH_BASE[i] == LengthBase(i)
  {
    if 0 < i < 28 {
      LengthTable(i - 1);
      LengthTableStep(i);
    }
  }

  lemma LengthTableStep(i: nat)
    requires 0 < i < 28
    ensures LENGTH_BASE[i] == LENGTH_BASE[i - 1] + Pow2(LengthExtra(i - 1))
  {
    SmallPowers();
    hide Pow2;
  }

  lemma {:induction false} DistanceTable(i: nat)
    requires i < 30
    ensures DISTANCE_BASE[i] == DistanceBase(i)
  {
    if 0 < i {
      DistanceTable(i - 1);
      DistanceTableStep(i);
    }
  }

  lemma DistanceTableStep(i: nat)
    requires 0 < i < 30
    ensures DISTANCE_BASE[i] == DISTANCE_BASE[i - 1] + Pow2(DistanceExtra(i - 1))
  {
    SmallPowers();
    hide Pow2;
  }

  lemma SmallPowers()
    ensures Pow2(0) == 1 && Pow2(1) == 2 && Pow2(2) == 4 && Pow2(3) == 8 && Pow2(4) == 16 && Pow2(5) == 32
    ensures Pow2(6) == 64 && Pow2(7) == 128 && Pow2(8) == 256 && Pow2(9) == 512 && Pow2(10) == 1024
    ensures Pow2(11) == 2048 && Pow2(12) == 4096 && Pow2(13) == 8192
  {
    assert Pow2(5) == 32;
    assert Pow2(10) == 32 * Pow2(5);
    assert Pow2(13) == 8 * Pow2(10);
  }

  // ---------- reading the tables

  method LengthEntry(lc: nat) returns (base: nat, extra: nat)
    requires lc < 29
    ensures base == LengthBase(lc) && extra == LengthExtra(lc) <= 5
  {
    base, extra := LENGTH_BASE[lc], LENGTH_EXTRA[lc];
    LengthTable(lc);
    ExtraTables(lc);
  }

  method DistanceEntry(dc: nat) returns (base: nat, extra: nat)
    requires dc < 30
    ensures base == DistanceBase(dc) && extra == DistanceExtra(dc) <= 13
  {
    base, extra := DISTANCE_BASE[dc], DISTANCE_EXTRA[dc];
    DistanceTable(dc);
    ExtraTables(dc);
  }

  method OrderEntry(i: nat) returns (k: nat)
    requires i < 19
    ensures k == ClOrder(i) < 19
  {
    k := CLCL_ORDER[i];
    OrderTable(i);
  }

  // ---------- searching the tables

  ghost predicate Growing(base: seq<nat>) {
    forall i, j :: 0 <= i < j < |base| ==> base[i] < base[j]
  }

  /** The source's binary search for the last base that is not above the value. */
  method SearchCodeIndex(base: seq<nat>, value: nat) returns (left: nat)
    requires |base| >= 2 && base[0] <= value && Growing(base)
    ensures left < |base| && base[left] <= value && (left + 1 < |base| ==> value < base[left + 1])
  {
    left := 1;
    var right := |base| - 1;
    while left <= right
      invariant 1 <= left <= right + 1 <= |base|
      invariant forall i :: 1 <= i < left ==> base[i] < value
      invariant forall i :: right < i < |base| ==> base[i] >= value
      decreases right + 1 - left
    {
      var mid := (left + right) / 2;
      if base[mid] >= value { right := mid - 1; } else { left := mid + 1; }
    }
    if left >= |base| || base[left] > value { left := left - 1; }
  }

  lemma TablesGrow()
    ensures Growing(LENGTH_BASE) && Growing(DISTANCE_BASE)
  {
    forall i, j | 0 <= i < j < 29 ensures LENGTH_BASE[i] < LENGTH_BASE[j] {
      LengthTable(i);
      LengthTable(j);
      LengthBasesGrow(i, j);
    }
    forall i, j | 0 <= i < j < 30 ensures DISTANCE_BASE[i] < DISTANCE_BASE[j] {
      DistanceTable(i);
      DistanceTable(j);
      DistanceBasesGrow(i, j);
    }
  }

  /** The code of a length, and its extra bits. */
  method SearchLength(length: nat) returns (lc: nat, extra: nat)
    requires length >= 3
    ensures lc == LengthCode(length) && extra == length - LengthBase(lc)
  {
    hide LengthExtra, DistanceExtra, DistanceBase, Growing;
    TablesGrow();
    lc := SearchCodeIndex(LENGTH_BASE, length);
    LengthTable(lc);
    if lc < 28 { LengthTable(lc + 1); }
    LengthCodeUnique(length, lc, LengthCode(length));
    extra := length - LENGTH_BASE[lc];
  }

  method SearchDistance(distance: nat) returns (dc: nat, extra: nat)
    requires distance >= 1
    ensures dc == DistanceCode(distance) && extra == distance - DistanceBase(dc)
  {
    TablesGrow();
    dc := SearchCodeIndex(DISTANCE_BASE, distance);
    DistanceTable(dc);
    if dc < 29 { DistanceTable(dc + 1); }
    DistanceCodeUnique(distance, dc, DistanceCode(distance));
    extra := distance - DISTANCE_BASE[dc];
  }

  /** The four numbers of a match, added to the output of the matcher. */
  method AddLengthDistance(values: seq<nat>, length: nat, distance: nat) returns (r: seq<nat>)
    requires TokenOk(Match(length, distance))
    ensures r == values + Flat(Match(length, distance))
  {
    hide LengthBase, DistanceBase, LengthExtra, DistanceExtra, LengthCode, DistanceCode, IsLengthCode, IsDistanceCode;
    var lengthCode, extraLength := SearchLength(length);
    var distCode, extraDistance := SearchDistance(distance);
    r := values + [lengthCode + FIRST_LENGTH_CODE, extraLength, distCode, extraDistance];
  }
}
