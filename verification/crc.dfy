/** The CRC of PNG chunks (section 5.5 of the PNG Specification, Second Edition), eight bytes at a
    time. */
module Crc {

  // ---------- names for the operations, so that proofs can keep them closed

  function Xor32(x: bv32, y: bv32): bv32 { x ^ y }
  function Shift8(x: bv32): bv32 { x >> 8 }
  function Low(x: bv32): bv8 { (x & 0xff) as bv8 }
  function Wide(b: bv8): bv32 { b as bv32 }
  function Xor8(a: bv8, b: bv8): bv8 { a ^ b }

  // ---------- one bit, one byte

  /** Division by the polynomial, one bit further. */
  function BitStep(x: bv32): bv32 {
    if x & 1 == 1 then 0xedb88320 ^ (x >> 1) else x >> 1
  }

  /** Eight bits further. */
  function ByteStep(x: bv32): bv32 {
    BitStep(BitStep(BitStep(BitStep(BitStep(BitStep(BitStep(BitStep(x))))))))
  }

  /** The tables of the source: the first one divides a byte, and each of the others takes the one
      before eight bits further. */
  function Table(k: nat, b: bv8): bv32 {
    if k == 0 then ByteStep(Wide(b))
    else Xor32(Shift8(Table(k - 1, b)), Table(0, Low(Table(k - 1, b))))
  }

  /** The definition: division, one byte at a time. */
  function Update(r: bv32, data: seq<bv8>): bv32
    decreases |data|
  {
    if data == [] then r else ByteStep(Xor32(Update(r, data[..|data| - 1]), Wide(data[|data| - 1])))
  }

  function Crc32(data: seq<bv8>): bv32 {
    Xor32(Update(0xffff_ffff, data), 0xffff_ffff)
  }

  // ---------- facts about bits

  lemma XorAssoc(x: bv32, y: bv32, z: bv32)
    ensures Xor32(Xor32(x, y), z) == Xor32(x, Xor32(y, z))
  {
  }

  lemma XorComm(x: bv32, y: bv32)
    ensures Xor32(x, y) == Xor32(y, x)
  {
  }

  lemma XorZero(x: bv32)
    ensures Xor32(x, 0) == x
  {
  }

  lemma OddBits(x: bv32, y: bv32)
    ensures (x ^ y) & 1 == (x & 1) ^ (y & 1) && (x & 1 == 0 || x & 1 == 1)
  {
  }

  lemma BothOdd(x: bv32, y: bv32)
    requires x & 1 == 1 && y & 1 == 1
    ensures BitStep(x ^ y) == BitStep(x) ^ BitStep(y)
  {
  }

  lemma BothEven(x: bv32, y: bv32)
    requires x & 1 == 0 && y & 1 == 0
    ensures BitStep(x ^ y) == BitStep(x) ^ BitStep(y)
  {
  }

  lemma OddEven(x: bv32, y: bv32)
    requires x & 1 == 1 && y & 1 == 0
    ensures BitStep(x ^ y) == BitStep(x) ^ BitStep(y)
    ensures BitStep(y ^ x) == BitStep(y) ^ BitStep(x)
  {
  }

  /** A step of the division is linear. */
  lemma BitStepXor(x: bv32, y: bv32)
    ensures BitStep(Xor32(x, y)) == Xor32(BitStep(x), BitStep(y))
  {
    hide BitStep;
    OddBits(x, y);
    OddBits(y, x);
    if x & 1 == 1 {
      if y & 1 == 1 { BothOdd(x, y); } else { OddEven(x, y); }
    } else {
      if y & 1 == 1 { OddEven(y, x); } else { BothEven(x, y); }
    }
  }

  lemma TwoStepsXor(x: bv32, y: bv32)
    ensures BitStep(BitStep(Xor32(x, y))) == Xor32(BitStep(BitStep(x)), BitStep(BitStep(y)))
  {
    hide BitStep, Xor32;
    BitStepXor(x, y);
    BitStepXor(BitStep(x), BitStep(y));
  }

  function FourSteps(x: bv32): bv32 {
    BitStep(BitStep(BitStep(BitStep(x))))
  }

  lemma FourStepsXor(x: bv32, y: bv32)
    ensures FourSteps(Xor32(x, y)) == Xor32(FourSteps(x), FourSteps(y))
  {
    hide BitStep, Xor32;
    TwoStepsXor(x, y);
    TwoStepsXor(BitStep(BitStep(x)), BitStep(BitStep(y)));
  }

  lemma EightIsTwiceFour(x: bv32)
    ensures ByteStep(x) == FourSteps(FourSteps(x))
  {
    hide BitStep;
  }

  lemma ByteStepXor(x: bv32, y: bv32)
    ensures ByteStep(Xor32(x, y)) == Xor32(ByteStep(x), ByteStep(y))
  {
    hide FourSteps, ByteStep, Xor32;
    EightIsTwiceFour(x);
    EightIsTwiceFour(y);
    EightIsTwiceFour(Xor32(x, y));
    FourStepsXor(x, y);
    FourStepsXor(FourSteps(x), FourSteps(y));
  }

  function Up8(x: bv32): bv32 { x << 8 }

  /** A number of at most 24 bits, moved up, moves down again. */
  lemma Down8(x: bv32)
    requires x & 0xff00_0000 == 0
    ensures BitStep(x << 8) == x << 7
  {
  }

  lemma Down7(x: bv32)
    requires x & 0xff00_0000 == 0
    ensures BitStep(x << 7) == x << 6
  {
  }

  lemma Down6(x: bv32)
    requires x & 0xff00_0000 == 0
    ensures BitStep(x << 6) == x << 5
  {
  }

  lemma Down5(x: bv32)
    requires x & 0xff00_0000 == 0
    ensures BitStep(x << 5) == x << 4
  {
  }

  lemma Down4(x: bv32)
    requires x & 0xff00_0000 == 0
    ensures BitStep(x << 4) == x << 3
  {
  }

  lemma Down3(x: bv32)
    requires x & 0xff00_0000 == 0
    ensures BitStep(x << 3) == x << 2
  {
  }

  lemma Down2(x: bv32)
    requires x & 0xff00_0000 == 0
    ensures BitStep(x << 2) == x << 1
  {
  }

  lemma Down1(x: bv32)
    requires x & 0xff00_0000 == 0
    ensures BitStep(x << 1) == x
  {
  }

  lemma FourDown(a: bv32, b: bv32, c: bv32, d: bv32, e: bv32)
    requires BitStep(a) == b && BitStep(b) == c && BitStep(c) == d && BitStep(d) == e
    ensures FourSteps(a) == e
  {
    hide BitStep;
  }

  /** Eight zeros below are shifted out. */
  lemma ShiftOut(x: bv32)
    requires x & 0xff00_0000 == 0
    ensures FourSteps(Up8(x)) == x << 4 && FourSteps(x << 4) == x
  {
    hide BitStep, FourSteps;
    Down8(x);
    Down7(x);
    Down6(x);
    Down5(x);
    FourDown(x << 8, x << 7, x << 6, x << 5, x << 4);
    Down4(x);
    Down3(x);
    Down2(x);
    Down1(x);
    FourDown(x << 4, x << 3, x << 2, x << 1, x);
  }

  lemma ShiftedOut(x: bv32)
    ensures ByteStep(Up8(Shift8(x))) == Shift8(x)
  {
    hide FourSteps, ByteStep;
    TopClear(x);
    ShiftOut(Shift8(x));
    EightIsTwiceFour(Up8(Shift8(x)));
  }

  lemma TopClear(x: bv32)
    ensures Shift8(x) & 0xff00_0000 == 0
  {
  }

  /** A byte xor-ed into a number, and the rest of the number. */
  lemma ByteAndRest(x: bv32, d: bv8)
    ensures Xor32(x, Wide(d)) == Xor32(Wide(Xor8(d, Low(x))), Up8(Shift8(x)))
  {
  }

  // ---------- the steps of slicing by eight

  /** The usual loop with one table: what the source does with the last bytes. */
  lemma OneTable(x: bv32, d: bv8)
    ensures ByteStep(Xor32(x, Wide(d))) == Xor32(Table(0, Xor8(d, Low(x))), Shift8(x))
  {
    hide ByteStep, Low, Xor32, Shift8, Wide, Xor8, Up8;
    ByteAndRest(x, d);
    ByteStepXor(Wide(Xor8(d, Low(x))), Up8(Shift8(x)));
    ShiftedOut(x);
  }

  lemma NoData(x: bv32)
    ensures Xor32(x, Wide(0)) == x && Xor8(0, Low(x)) == Low(x)
  {
  }

  /** The next table is the division of the one before. */
  lemma NextTable(k: nat, b: bv8)
    ensures ByteStep(Table(k, b)) == Table(k + 1, b)
  {
    hide ByteStep, Low, Xor32, Shift8, Wide, Xor8;
    var x := Table(k, b);
    NoData(x);
    OneTable(x, 0);
    XorComm(Table(0, Low(x)), Shift8(x));
  }

  /** A data byte that meets none of the old remainder. */
  lemma StepData(a: bv32, d: bv8)
    ensures ByteStep(Xor32(a, Wide(d))) == Xor32(ByteStep(a), Table(0, d))
  {
    hide ByteStep, Xor32, Wide;
    ByteStepXor(a, Wide(d));
  }

  /** A data byte that meets the low byte of what is left of the old remainder r. */
  lemma StepIn(a: bv32, r: bv32, d: bv8)
    ensures ByteStep(Xor32(Xor32(a, r), Wide(d))) == Xor32(Xor32(ByteStep(a), Table(0, Xor8(d, Low(r)))), Shift8(r))
  {
    hide ByteStep, Xor32, Wide, Low, Xor8, Shift8;
    XorAssoc(a, r, Wide(d));
    ByteStepXor(a, Xor32(r, Wide(d)));
    OneTable(r, d);
    XorAssoc(ByteStep(a), Table(0, Xor8(d, Low(r))), Shift8(r));
  }

  /** The sum of tables k, k - 1, ... of the bytes ys, added from the left as in the source. */
  function Sum(ys: seq<bv8>, k: nat): bv32
    requires ys != []
  {
    var last := Table(k, ys[|ys| - 1]);
    if |ys| == 1 then last else Xor32(Sum(ys[..|ys| - 1], k + 1), last)
  }

  lemma {:induction false} NextSum(ys: seq<bv8>, k: nat)
    requires ys != []
    ensures ByteStep(Sum(ys, k)) == Sum(ys, k + 1)
    decreases |ys|
  {
    hide ByteStep, Xor32, Table;
    NextTable(k, ys[|ys| - 1]);
    if |ys| > 1 {
      NextSum(ys[..|ys| - 1], k + 1);
      ByteStepXor(Sum(ys[..|ys| - 1], k + 1), Table(k, ys[|ys| - 1]));
    }
  }

  lemma SumAppend(ys: seq<bv8>, y: bv8)
    requires ys != []
    ensures Xor32(ByteStep(Sum(ys, 0)), Table(0, y)) == Sum(ys + [y], 0)
  {
    hide ByteStep, Xor32, Table;
    NextSum(ys, 0);
    assert (ys + [y])[..|ys|] == ys;
  }

  lemma SumOne(y: bv8)
    ensures Sum([y], 0) == Table(0, y)
  {
  }

  /** The four bytes that meet the old remainder. */
  lemma FirstFour(r: bv32, d0: bv8, d1: bv8, d2: bv8, d3: bv8)
    ensures var r1, r2, r3 := Shift8(r), Shift8(Shift8(r)), Shift8(Shift8(Shift8(r)));
      ByteStep(Xor32(ByteStep(Xor32(ByteStep(Xor32(ByteStep(Xor32(r, Wide(d0))), Wide(d1))), Wide(d2))), Wide(d3)))
      == Sum([Xor8(d0, Low(r)), Xor8(d1, Low(r1)), Xor8(d2, Low(r2)), Xor8(d3, Low(r3))], 0)
  {
    hide ByteStep, Xor32, Wide, Low, Xor8, Shift8, Table, Sum;
    var r1, r2, r3 := Shift8(r), Shift8(Shift8(r)), Shift8(Shift8(Shift8(r)));
    var y0, y1, y2, y3 := Xor8(d0, Low(r)), Xor8(d1, Low(r1)), Xor8(d2, Low(r2)), Xor8(d3, Low(r3));
    OneTable(r, d0);
    SumOne(y0);
    StepIn(Sum([y0], 0), r1, d1);
    SumAppend([y0], y1);
    assert [y0] + [y1] == [y0, y1];
    StepIn(Sum([y0, y1], 0), r2, d2);
    SumAppend([y0, y1], y2);
    assert [y0, y1] + [y2] == [y0, y1, y2];
    StepIn(Sum([y0, y1, y2], 0), r3, d3);
    SumAppend([y0, y1, y2], y3);
    assert [y0, y1, y2] + [y3] == [y0, y1, y2, y3];
    AllShifted(r);
    XorZero(Sum([y0, y1, y2, y3], 0));
  }

  lemma AllShifted(r: bv32)
    ensures Shift8(Shift8(Shift8(Shift8(r)))) == 0
  {
  }

  /** One more data byte. */
  lemma OneMore(ys: seq<bv8>, d: bv8)
    requires ys != []
    ensures ByteStep(Xor32(Sum(ys, 0), Wide(d))) == Sum(ys + [d], 0)
  {
    hide ByteStep, Xor32, Wide, Table, Sum;
    StepData(Sum(ys, 0), d);
    SumAppend(ys, d);
  }

  /** Update, byte by byte from the left. */
  lemma UpdateLast(r: bv32, data: seq<bv8>, d: bv8)
    ensures Update(r, data + [d]) == ByteStep(Xor32(Update(r, data), Wide(d)))
  {
    hide ByteStep, Xor32, Wide;
    assert (data + [d])[..|data|] == data;
  }

  /** The eight bytes as the source looks them up. */
  function Keys(r: bv32, d: seq<bv8>): seq<bv8>
    requires |d| == 8
  {
    [Xor8(d[0], Low(r)), Xor8(d[1], Low(Shift8(r))), Xor8(d[2], Low(Shift8(Shift8(r)))),
      Xor8(d[3], Low(Shift8(Shift8(Shift8(r))))),
     d[4], d[5], d[6], d[7]]
  }

  /** Eight bytes at once are eight bytes one after the other. */
  lemma EightBytes(r: bv32, d: seq<bv8>)
    requires |d| == 8
    ensures Update(r, d) == Sum(Keys(r, d), 0)
  {
    hide ByteStep, Xor32, Wide, Low, Xor8, Shift8, Table, Sum;
    UpdateFour(r, d[..4]);
    FirstFour(r, d[0], d[1], d[2], d[3]);
    var k := Keys(r, d);
    assert k[..4] == [k[0], k[1], k[2], k[3]];
    FourMore(r, d, k);
  }

  lemma UpdateFour(r: bv32, d: seq<bv8>)
    requires |d| == 4
    ensures Update(r, d)
      == ByteStep(Xor32(ByteStep(Xor32(ByteStep(Xor32(ByteStep(Xor32(r, Wide(d[0]))), Wide(d[1]))), Wide(d[2]))),
        Wide(d[3])))
  {
    hide ByteStep, Xor32, Wide;
    assert d[..4] == d && d[..0] == [];
    assert d[..3] + [d[3]] == d && d[..2] + [d[2]] == d[..3] && d[..1] + [d[1]] == d[..2] && [] + [d[0]] == d[..1];
    UpdateLast(r, [], d[0]);
    UpdateLast(r, d[..1], d[1]);
    UpdateLast(r, d[..2], d[2]);
    UpdateLast(r, d[..3], d[3]);
  }

  lemma FourMore(r: bv32, d: seq<bv8>, k: seq<bv8>)
    requires |d| == |k| == 8 && k[4..] == d[4..] && Update(r, d[..4]) == Sum(k[..4], 0)
    ensures Update(r, d) == Sum(k, 0)
  {
    hide ByteStep, Xor32, Wide, Table, Sum, Update;
    forall i | 4 <= i < 8 ensures k[i] == d[i] && k[..i] + [k[i]] == k[..i + 1] && d[..i] + [d[i]] == d[..i + 1] {
      assert k[i] == k[4..][i - 4] == d[4..][i - 4];
    }
    UpdateLast(r, d[..4], d[4]);
    OneMore(k[..4], d[4]);
    UpdateLast(r, d[..5], d[5]);
    OneMore(k[..5], d[5]);
    UpdateLast(r, d[..6], d[6]);
    OneMore(k[..6], d[6]);
    UpdateLast(r, d[..7], d[7]);
    OneMore(k[..7], d[7]);
    assert k[..8] == k && d[..8] == d;
  }

  /** The sum of eight tables, as it is written in the source. */
  lemma SumOfEight(k: seq<bv8>)
    requires |k| == 8
    ensures Sum(k, 0) == Xor32(Xor32(Xor32(Xor32(Xor32(Xor32(Xor32(Table(7, k[0]), Table(6, k[1])), Table(5, k[2])),
      Table(4, k[3])),
                                 Table(3, k[4])), Table(2, k[5])), Table(1, k[6])), Table(0, k[7]))
  {
    hide Xor32, Table, Sum;
    SumOfFour(k, 4);
    SumStep(k[..5], 3);
    SumStep(k[..6], 2);
    SumStep(k[..7], 1);
    SumStep(k, 0);
    assert k[..7][..6] == k[..6] && k[..6][..5] == k[..5] && k[..5][..4] == k[..4];
  }

  lemma SumOfFour(k: seq<bv8>, j: nat)
    requires |k| >= 4
    ensures Sum(k[..4], j)
      == Xor32(Xor32(Xor32(Table(j + 3, k[0]), Table(j + 2, k[1])), Table(j + 1, k[2])), Table(j, k[3]))
  {
    hide Xor32, Table, Sum;
    SumStep(k[..4], j);
    SumStep(k[..3], j + 1);
    SumStep(k[..2], j + 2);
    assert k[..4][..3] == k[..3] && k[..3][..2] == k[..2] && k[..2][..1] == k[..1] == [k[0]];
  }

  lemma SumStep(ys: seq<bv8>, j: nat)
    requires |ys| > 1
    ensures Sum(ys, j) == Xor32(Sum(ys[..|ys| - 1], j + 1), Table(j, ys[|ys| - 1]))
    ensures |ys| == 2 ==> Sum(ys[..1], j + 1) == Table(j + 1, ys[0])
  {
  }

  lemma {:induction false} UpdateConcat(r: bv32, a: seq<bv8>, b: seq<bv8>)
    ensures Update(r, a + b) == Update(Update(r, a), b)
    decreases |b|
  {
    hide ByteStep, Xor32, Wide;
    if b == [] {
      assert a + b == a;
    } else {
      UpdateConcat(r, a, b[..|b| - 1]);
      assert (a + b)[..|a + b| - 1] == a + b[..|b| - 1];
    }
  }

  /** One round of the main loop. */
  method Slice(data: seq<bv8>, pos: nat, before: bv32) returns (r: bv32)
    requires pos + 8 <= |data|
    ensures r == Update(before, data[pos..pos + 8])
  {
    hide ByteStep, Xor32, Wide, Low, Xor8, Shift8, Table, Sum, Update;
    ghost var d := data[pos..pos + 8];
    var k := Keys(before, data[pos..pos + 8]);
    EightBytes(before, d);
    SumOfEight(k);
    r := Xor32(Xor32(Xor32(Xor32(Xor32(Xor32(Xor32(Table(7, k[0]), Table(6, k[1])), Table(5, k[2])), Table(4, k[3])),
           Table(3, k[4])), Table(2, k[5])), Table(1, k[6])), Table(0, k[7]));
  }

  /** lodepng_crc32: slicing by eight, then byte by byte. */
  method LodepngCrc32(data: seq<bv8>) returns (crc: bv32)
    ensures crc == Crc32(data)
  {
    hide ByteStep, Xor32, Wide, Low, Xor8, Shift8, Table, Update;
    var r: bv32 := 0xffff_ffff;
    var pos, length: nat := 0, |data|;
    NothingYet(data);
    while length >= 8
      invariant pos + length == |data| && r == Update(0xffff_ffff, data[..pos])
    {
      ghost var was := r;
      r := Slice(data, pos, r);
      UpdateConcat(0xffff_ffff, data[..pos], data[pos..pos + 8]);
      assert data[..pos] + data[pos..pos + 8] == data[..pos + 8];
      pos := pos + 8;
      length := length - 8;
    }
    while length != 0
      invariant pos + length == |data| && r == Update(0xffff_ffff, data[..pos])
    {
      length := length - 1;
      OneTable(r, data[pos]);
      UpdateLast(0xffff_ffff, data[..pos], data[pos]);
      assert data[..pos] + [data[pos]] == data[..pos + 1];
      r := Xor32(Table(0, Xor8(data[pos], Low(r))), Shift8(r));
      pos := pos + 1;
    }
    assert data[..pos] == data;
    crc := Xor32(r, 0xffff_ffff);
  }

  lemma NothingYet(data: seq<bv8>)
    ensures Update(0xffff_ffff, data[..0]) == 0xffff_ffff
  {
  }

  // ---------- which polynomial, and which checksum

  /** The bit that stands for the power k: the first power is the last bit. */
  function Power(k: nat): bv32
    requires k < 32
  {
    1 << (31 - k)
  }

  /** The quotient by the polynomial of section 5.5: x^32 + x^26 + x^23 + x^22 + x^16 + x^12 + x^11 + x^10
      + x^8 + x^7 + x^5 + x^4 + x^2 + x + 1, written as the powers below 32. */
  lemma PolynomialIs(x: bv32)
    ensures BitStep(1)
      == Power(26) | Power(23) | Power(22) | Power(16) | Power(12) | Power(11) | Power(10) | Power(8) | Power(7)
       | Power(5) | Power(4) | Power(2) | Power(1) | Power(0)
    ensures x & 1 == 0 ==> BitStep(x) == x / 2
    ensures x & 1 == 1 ==> BitStep(x) == BitStep(x - 1) ^ BitStep(1)
  {
  }

  lemma CheckBytes0()
    ensures ByteStep(0xffff_ffce) == 0x7c23_1048
    ensures ByteStep(0x7c23_107a) == 0xb0ac_bb32
    ensures ByteStep(0xb0ac_bb01) == 0x77b7_9c2d
  {
  }

  lemma CheckBytes1()
    ensures ByteStep(0x77b7_9c19) == 0x641c_1f5c
    ensures ByteStep(0x641c_1f69) == 0x340a_c5e3
    ensures ByteStep(0x340a_c5d5) == 0xf68d_2c9e
  {
  }

  lemma CheckBytes2()
    ensures ByteStep(0xf68d_2ca9) == 0xaffc_9660
    ensures ByteStep(0xaffc_9658) == 0x651f_2550
    ensures ByteStep(0x651f_2569) == 0x340b_c6d9
  {
  }

  /** What the next byte does to a remainder r. */
  lemma NextByte(data: seq<bv8>, k: nat, d: bv8, r: bv32, x: bv32, next: bv32)
    requires k < |data| && data[k] == d && Update(0xffff_ffff, data[..k]) == r
    requires x == Xor32(r, Wide(d)) && ByteStep(x) == next
    ensures Update(0xffff_ffff, data[..k + 1]) == next
  {
    hide ByteStep, Xor32, Wide, Update;
    assert data[..k] + [d] == data[..k + 1];
    UpdateLast(0xffff_ffff, data[..k], d);
  }

  /** The check value of the checksum: that of the digits 1 to 9 as ASCII text. */
  lemma CheckValue()
    ensures Crc32([0x31, 0x32, 0x33, 0x34, 0x35, 0x36, 0x37, 0x38, 0x39]) == 0xcbf4_3926
  {
    CheckBytes0();
    CheckBytes1();
    CheckBytes2();
    hide ByteStep, Update;
    var digits: seq<bv8> := [0x31, 0x32, 0x33, 0x34, 0x35, 0x36, 0x37, 0x38, 0x39];
    NothingYet(digits);
    NextByte(digits, 0, 0x31, 0xffff_ffff, 0xffff_ffce, 0x7c23_1048);
    NextByte(digits, 1, 0x32, 0x7c23_1048, 0x7c23_107a, 0xb0ac_bb32);
    NextByte(digits, 2, 0x33, 0xb0ac_bb32, 0xb0ac_bb01, 0x77b7_9c2d);
    NextByte(digits, 3, 0x34, 0x77b7_9c2d, 0x77b7_9c19, 0x641c_1f5c);
    NextByte(digits, 4, 0x35, 0x641c_1f5c, 0x641c_1f69, 0x340a_c5e3);
    NextByte(digits, 5, 0x36, 0x340a_c5e3, 0x340a_c5d5, 0xf68d_2c9e);
    NextByte(digits, 6, 0x37, 0xf68d_2c9e, 0xf68d_2ca9, 0xaffc_9660);
    NextByte(digits, 7, 0x38, 0xaffc_9660, 0xaffc_9658, 0x651f_2550);
    NextByte(digits, 8, 0x39, 0x651f_2550, 0x651f_2569, 0x340b_c6d9);
    assert digits[..9] == digits;
  }
}
