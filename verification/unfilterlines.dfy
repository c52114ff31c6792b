/** Undoing the filter of one scanline, possibly in the buffer it came in. */
module UnfilterLines {
  import opened Bits
  import opened Filters

  /** The source's way to choose among the three neighbours. */
  function PaethPredictor(a: byte, b: byte, c: byte): (p: byte)
    ensures p == Paeth(a, b, c)
  {
    var pa, pb, pc := Abs((b as int) - c), Abs((a as int) - c), Abs((a as int) + b - c - c);
    var a', pa' := if pb < pa then b else a, if pb < pa then pb else pa;
    if pc < pa' then c else a'
  }

  /** Addition of unsigned chars. */
  function Add8(x: byte, y: byte): byte {
    (x + y) % 256
  }

  /** The first |done| bytes of the line have been reconstructed. The line itself is read from a
      buffer `scan` that may be the one written to, at the same place or further on; `prev` is the
      line before, at po in the buffer written to, or nothing. */
  ghost predicate Going(recon: array<byte>, ro: nat, scan: array<byte>, so: nat, po: int,
                        before: seq<byte>, line: seq<byte>, prev: seq<byte>, f: nat, bw: nat, done: seq<byte>)
    reads recon, scan
  {
    && bw > 0 && |done| <= |line| && |before| == recon.Length
    && ro + |line| <= recon.Length && so + |line| <= scan.Length && (scan == recon ==> ro <= so)
    && (if po < 0 then prev == [] else |prev| == |line| && po + |line| <= ro)
    && (forall q: int {:trigger recon[q]} :: 0 <= q < recon.Length ==>
          recon[q] == if ro <= q < ro + |done| then done[q - ro] else before[q])
    && (forall q: int {:trigger scan[q]} :: so + |done| <= q < so + |line| ==> scan[q] == line[q - so])
    && (po >= 0 ==> forall q: int {:trigger before[q]} :: po <= q < po + |line| ==> before[q] == prev[q - po])
    && Partial(f, line, prev, bw, done)
  }

  ghost predicate Partial(f: nat, line: seq<byte>, prev: seq<byte>, bw: nat, done: seq<byte>)
    requires bw > 0 && |done| <= |line|
  {
    forall k :: 0 <= k < |done| ==> done[k] == (line[k] as int + PredictAt(f, done, prev, bw, k)) % 256
  }

  lemma PartialStep(f: nat, line: seq<byte>, prev: seq<byte>, bw: nat, done: seq<byte>, d: byte)
    requires bw > 0 && |done| < |line| && Partial(f, line, prev, bw, done)
    requires d == (line[|done|] as int + PredictAt(f, done, prev, bw, |done|)) % 256
    ensures Partial(f, line, prev, bw, done + [d])
  {
    hide Predict;
    var more := done + [d];
    forall k | 0 <= k < |more| ensures more[k] == (line[k] as int + PredictAt(f, more, prev, bw, k)) % 256 {
      assert Left(more, bw, k) == if k < |done| then Left(done, bw, k) else Left(done, bw, |done|);
    }
  }

  lemma PartialDone(f: nat, line: seq<byte>, prev: seq<byte>, bw: nat, done: seq<byte>)
    requires bw > 0 && |done| == |line| && Partial(f, line, prev, bw, done)
    ensures Unfiltered(f, line, prev, bw, done)
  {
  }

  /** What the buffers hold while a line is being reconstructed. */
  lemma Reads(recon: array<byte>, ro: nat, scan: array<byte>, so: nat, po: int,
              before: seq<byte>, line: seq<byte>, prev: seq<byte>, f: nat, bw: nat, done: seq<byte>)
    requires Going(recon, ro, scan, so, po, before, line, prev, f, bw, done)
    ensures forall q: int {:trigger recon[q]} :: ro <= q < ro + |done| ==> recon[q] == done[q - ro]
    ensures forall q: int {:trigger scan[q]} :: so + |done| <= q < so + |line| ==> scan[q] == line[q - so]
    ensures po >= 0 ==> forall q: int {:trigger recon[q]} :: po <= q < po + |line| ==> recon[q] == prev[q - po]
  {
    if po >= 0 {
      forall q: int | po <= q < po + |line| ensures recon[q] == prev[q - po] {
        assert recon[q] == before[q];
      }
    }
  }

  /** One predicted byte, from the line before and the pixels already done. */
  ghost predicate ByteOk(f: nat, line: seq<byte>, prev: seq<byte>, bw: nat, done: seq<byte>, at: nat, d: byte) {
    at < |line| && d == (line[at] as int + Predict(f, AboveLeft(done, bw, at), Above(prev, at),
      AboveLeft(prev, bw, at))) % 256
  }

  /** Writes one byte: the scanline byte plus the prediction. */
  method Put(recon: array<byte>, ro: nat, ghost scan: array<byte>, ghost so: nat, i: nat, d: byte, ghost po: int,
             ghost before: seq<byte>, ghost line: seq<byte>, ghost prev: seq<byte>, ghost f: nat, ghost bw: nat,
               ghost done: seq<byte>)
    requires Going(recon, ro, scan, so, po, before, line, prev, f, bw, done) && i == |done| < |line|
    requires ByteOk(f, line, prev, bw, done, i, d)
    modifies recon
    ensures Going(recon, ro, scan, so, po, before, line, prev, f, bw, done + [d])
  {
    hide Predict, Partial;
    assert AboveLeft(done, bw, i) == Left(done, bw, i);
    PartialStep(f, line, prev, bw, done, d);
    ghost var was := recon[..];
    recon[ro + i] := d;
    ghost var more := done + [d];
    forall q: int | 0 <= q < recon.Length
      ensures recon[q] == if ro <= q < ro + |more| then more[q - ro] else before[q]
    {
      assert q != ro + i ==> recon[q] == was[q];
    }
    forall q: int | so + |more| <= q < so + |line| ensures scan[q] == line[q - so] {
      if scan == recon { assert recon[q] == was[q]; }
    }
  }

  lemma Start(recon: array<byte>, ro: nat, scan: array<byte>, so: nat, po: int, length: nat, f: nat, bw: nat)
    requires bw > 0 && ro + length <= recon.Length && so + length <= scan.Length && (scan == recon ==> ro <= so)
    requires po >= 0 ==> po + length <= ro
    ensures Going(recon, ro, scan, so, po, recon[..], scan[so..so + length], PrevLine(recon, po, length), f, bw, [])
  {
  }

  ghost function PrevLine(recon: array<byte>, po: int, length: nat): seq<byte>
    requires po >= 0 ==> po + length <= recon.Length
    reads recon
  {
    if po < 0 then [] else recon[po..po + length]
  }

  /** A line that is complete: reconstructed, and everything else untouched. */
  ghost predicate Finished(recon: array<byte>, ro: nat, before: seq<byte>, line: seq<byte>, prev: seq<byte>, f: nat,
                           bw: nat)
    reads recon
  {
    && bw > 0 && ro + |line| <= recon.Length == |before|
    && Unfiltered(f, line, prev, bw, recon[ro..ro + |line|])
    && recon[..ro] == before[..ro] && recon[ro + |line|..] == before[ro + |line|..]
  }

  lemma Finish(recon: array<byte>, ro: nat, scan: array<byte>, so: nat, po: int,
               before: seq<byte>, line: seq<byte>, prev: seq<byte>, f: nat, bw: nat, done: seq<byte>)
    requires Going(recon, ro, scan, so, po, before, line, prev, f, bw, done) && |done| == |line|
    ensures Finished(recon, ro, before, line, prev, f, bw)
  {
    PartialDone(f, line, prev, bw, done);
    assert recon[ro..ro + |line|] == done;
  }

  /** A group of bytes that do not depend on each other. */
  ghost predicate GroupOk(f: nat, line: seq<byte>, prev: seq<byte>, bw: nat, done: seq<byte>, ds: seq<byte>) {
    |ds| <= bw && |done| + |ds| <= |line| && forall k: nat {:trigger ds[k]} :: k < |ds| ==>
      ByteOk(f, line, prev, bw, done, |done| + k, ds[k])
  }

  lemma Unmoved(done: seq<byte>, ds: seq<byte>, bw: nat, at: nat)
    requires at < |done| + bw
    ensures AboveLeft(done + ds, bw, at) == AboveLeft(done, bw, at)
  {
  }

  /** Writes a group. */
  method PutGroup(recon: array<byte>, ro: nat, ghost scan: array<byte>, ghost so: nat, i: nat, ds: seq<byte>,
                  ghost po: int,
                  ghost before: seq<byte>, ghost line: seq<byte>, ghost prev: seq<byte>, ghost f: nat, ghost bw: nat,
                    ghost done: seq<byte>)
    requires Going(recon, ro, scan, so, po, before, line, prev, f, bw, done) && i == |done|
    requires GroupOk(f, line, prev, bw, done, ds)
    modifies recon
    ensures Going(recon, ro, scan, so, po, before, line, prev, f, bw, done + ds)
  {
    hide Going, Predict, Above, AboveLeft;
    var k := 0;
    assert done + ds[..0] == done;
    while k < |ds|
      invariant 0 <= k <= |ds| && Going(recon, ro, scan, so, po, before, line, prev, f, bw, done + ds[..k])
    {
      Shape(recon, ro, scan, so, po, before, line, prev, f, bw, done + ds[..k]);
      Unmoved(done, ds[..k], bw, i + k);
      assert ByteOk(f, line, prev, bw, done, i + k, ds[k]);
      Put(recon, ro, scan, so, i + k, ds[k], po, before, line, prev, f, bw, done + ds[..k]);
      assert (done + ds[..k]) + [ds[k]] == done + ds[..k + 1];
      k := k + 1;
    }
    assert ds[..|ds|] == ds;
  }

  lemma Shape(recon: array<byte>, ro: nat, scan: array<byte>, so: nat, po: int,
              before: seq<byte>, line: seq<byte>, prev: seq<byte>, f: nat, bw: nat, done: seq<byte>)
    requires Going(recon, ro, scan, so, po, before, line, prev, f, bw, done)
    ensures |done| <= |line| && ro + |line| <= recon.Length && so + |line| <= scan.Length
    ensures po >= 0 ==> |prev| == |line| && po + |line| <= ro
  {
  }

  // ---------- Paeth: the neighbours are carried in locals

  /** b and d are the bytes above and to the left of place `at` + bw, or zero before the first pixel. */
  ghost predicate Carried(prev: seq<byte>, done: seq<byte>, bw: nat, at: nat, b: byte, d: byte) {
    b == AboveLeft(prev, bw, at) && d == AboveLeft(done, bw, at)
  }

  lemma CarriedAtStart(prev: seq<byte>, bw: nat, at: nat)
    requires at < bw
    ensures Carried(prev, [], bw, at, 0, 0)
  {
  }

  /** After a whole pixel, the bytes just read and written are the neighbours of the next one. */
  lemma CarriedOn(prev: seq<byte>, done: seq<byte>, ds: seq<byte>, bw: nat, k: nat)
    requires k < |ds| == bw && |done| + bw <= |prev|
    ensures Carried(prev, done + ds, bw, |done| + bw + k, prev[|done| + k], ds[k])
  {
  }

  lemma PaethByte(line: seq<byte>, prev: seq<byte>, bw: nat, done: seq<byte>, at: nat, c: byte, a: byte)
    requires at < |line| == |prev| && c == AboveLeft(prev, bw, at) && a == AboveLeft(done, bw, at)
    ensures ByteOk(4, line, prev, bw, done, at, Add8(line[at], PaethPredictor(a, prev[at], c)))
  {
  }

  lemma Neighbours(prev: seq<byte>, done: seq<byte>, bw: nat, at: nat, b: byte, d: byte)
    requires Carried(prev, done, bw, at, b, d)
    ensures b == AboveLeft(prev, bw, at) && d == AboveLeft(done, bw, at)
  {
  }

  /** Pixels of one byte. */
  method Paeth1(recon: array<byte>, ro: nat, scan: array<byte>, so: nat, po: nat, length: nat,
                ghost before: seq<byte>, ghost line: seq<byte>, ghost prev: seq<byte>)
    returns (i: nat, ghost done: seq<byte>)
    requires Going(recon, ro, scan, so, po, before, line, prev, 4, 1, []) && length == |line| == |prev| && length >= 1
    modifies recon
    ensures Going(recon, ro, scan, so, po, before, line, prev, 4, 1, done) && 1 <= i == |done| <= length
  {
    hide Going, Paeth, AboveLeft, ByteOk, Add8, PaethPredictor, Carried;
    var a0, b0, c0, d0: byte := 0, 0, 0, 0;
    i, done := 0, [];
    CarriedAtStart(prev, 1, 0);
    while i + 0 < length
      invariant i == |done| <= length && (i > 0 ==> i >= 1)
      invariant Going(recon, ro, scan, so, po, before, line, prev, 4, 1, done)
      invariant Carried(prev, done, 1, i + 0, b0, d0)
      decreases length - i
    {
      Shape(recon, ro, scan, so, po, before, line, prev, 4, 1, done);
      Reads(recon, ro, scan, so, po, before, line, prev, 4, 1, done);
      c0 := b0;
      b0 := recon[po + i + 0];
      a0 := d0;
      Neighbours(prev, done, 1, i + 0, c0, a0);
      d0 := Add8(scan[so + i + 0], PaethPredictor(a0, b0, c0));
      PaethByte(line, prev, 1, done, i + 0, c0, a0);
      ghost var ds := [d0];
      PutGroup(recon, ro, scan, so, i, [d0], po, before, line, prev, 4, 1, done);
      CarriedOn(prev, done, ds, 1, 0);
      done := done + ds;
      i := i + 1;
    }
  }

  /** Pixels of two bytes. */
  method Paeth2(recon: array<byte>, ro: nat, scan: array<byte>, so: nat, po: nat, length: nat,
                ghost before: seq<byte>, ghost line: seq<byte>, ghost prev: seq<byte>)
    returns (i: nat, ghost done: seq<byte>)
    requires Going(recon, ro, scan, so, po, before, line, prev, 4, 2, []) && length == |line| == |prev| && length >= 2
    modifies recon
    ensures Going(recon, ro, scan, so, po, before, line, prev, 4, 2, done) && 2 <= i == |done| <= length
  {
    hide Going, Paeth, AboveLeft, ByteOk, Add8, PaethPredictor, Carried;
    var a0, b0, c0, d0: byte := 0, 0, 0, 0;
    var a1, b1, c1, d1: byte := 0, 0, 0, 0;
    i, done := 0, [];
    CarriedAtStart(prev, 2, 0);
    CarriedAtStart(prev, 2, 1);
    while i + 1 < length
      invariant i == |done| <= length && (i > 0 ==> i >= 2)
      invariant Going(recon, ro, scan, so, po, before, line, prev, 4, 2, done)
      invariant Carried(prev, done, 2, i + 0, b0, d0)
      invariant Carried(prev, done, 2, i + 1, b1, d1)
      decreases length - i
    {
      Shape(recon, ro, scan, so, po, before, line, prev, 4, 2, done);
      Reads(recon, ro, scan, so, po, before, line, prev, 4, 2, done);
      c0, c1 := b0, b1;
      b0, b1 := recon[po + i + 0], recon[po + i + 1];
      a0, a1 := d0, d1;
      Neighbours(prev, done, 2, i + 0, c0, a0);
      Neighbours(prev, done, 2, i + 1, c1, a1);
      d0 := Add8(scan[so + i + 0], PaethPredictor(a0, b0, c0));
      d1 := Add8(scan[so + i + 1], PaethPredictor(a1, b1, c1));
      PaethByte(line, prev, 2, done, i + 0, c0, a0);
      PaethByte(line, prev, 2, done, i + 1, c1, a1);
      ghost var ds := [d0, d1];
      PutGroup(recon, ro, scan, so, i, [d0, d1], po, before, line, prev, 4, 2, done);
      CarriedOn(prev, done, ds, 2, 0);
      CarriedOn(prev, done, ds, 2, 1);
      done := done + ds;
      i := i + 2;
    }
  }

  /** Pixels of three bytes. */
  method Paeth3(recon: array<byte>, ro: nat, scan: array<byte>, so: nat, po: nat, length: nat,
                ghost before: seq<byte>, ghost line: seq<byte>, ghost prev: seq<byte>)
    returns (i: nat, ghost done: seq<byte>)
    requires Going(recon, ro, scan, so, po, before, line, prev, 4, 3, []) && length == |line| == |prev| && length >= 3
    modifies recon
    ensures Going(recon, ro, scan, so, po, before, line, prev, 4, 3, done) && 3 <= i == |done| <= length
  {
    hide Going, Paeth, AboveLeft, ByteOk, Add8, PaethPredictor, Carried;
    var a0, b0, c0, d0: byte := 0, 0, 0, 0;
    var a1, b1, c1, d1: byte := 0, 0, 0, 0;
    var a2, b2, c2, d2: byte := 0, 0, 0, 0;
    i, done := 0, [];
    CarriedAtStart(prev, 3, 0);
    CarriedAtStart(prev, 3, 1);
    CarriedAtStart(prev, 3, 2);
    while i + 2 < length
      invariant i == |done| <= length && (i > 0 ==> i >= 3)
      invariant Going(recon, ro, scan, so, po, before, line, prev, 4, 3, done)
      invariant Carried(prev, done, 3, i + 0, b0, d0)
      invariant Carried(prev, done, 3, i + 1, b1, d1)
      invariant Carried(prev, done, 3, i + 2, b2, d2)
      decreases length - i
    {
      Shape(recon, ro, scan, so, po, before, line, prev, 4, 3, done);
      Reads(recon, ro, scan, so, po, before, line, prev, 4, 3, done);
      c0, c1, c2 := b0, b1, b2;
      b0, b1, b2 := recon[po + i + 0], recon[po + i + 1], recon[po + i + 2];
      a0, a1, a2 := d0, d1, d2;
      Neighbours(prev, done, 3, i + 0, c0, a0);
      Neighbours(prev, done, 3, i + 1, c1, a1);
      Neighbours(prev, done, 3, i + 2, c2, a2);
      d0 := Add8(scan[so + i + 0], PaethPredictor(a0, b0, c0));
      d1 := Add8(scan[so + i + 1], PaethPredictor(a1, b1, c1));
      d2 := Add8(scan[so + i + 2], PaethPredictor(a2, b2, c2));
      PaethByte(line, prev, 3, done, i + 0, c0, a0);
      PaethByte(line, prev, 3, done, i + 1, c1, a1);
      PaethByte(line, prev, 3, done, i + 2, c2, a2);
      ghost var ds := [d0, d1, d2];
      PutGroup(recon, ro, scan, so, i, [d0, d1, d2], po, before, line, prev, 4, 3, done);
      CarriedOn(prev, done, ds, 3, 0);
      CarriedOn(prev, done, ds, 3, 1);
      CarriedOn(prev, done, ds, 3, 2);
      done := done + ds;
      i := i + 3;
    }
  }

  /** Pixels of four bytes. */
  method Paeth4(recon: array<byte>, ro: nat, scan: array<byte>, so: nat, po: nat, length: nat,
                ghost before: seq<byte>, ghost line: seq<byte>, ghost prev: seq<byte>)
    returns (i: nat, ghost done: seq<byte>)
    requires Going(recon, ro, scan, so, po, before, line, prev, 4, 4, []) && length == |line| == |prev| && length >= 4
    modifies recon
    ensures Going(recon, ro, scan, so, po, before, line, prev, 4, 4, done) && 4 <= i == |done| <= length
  {
    hide Going, Paeth, AboveLeft, ByteOk, Add8, PaethPredictor, Carried;
    var a0, b0, c0, d0: byte := 0, 0, 0, 0;
    var a1, b1, c1, d1: byte := 0, 0, 0, 0;
    var a2, b2, c2, d2: byte := 0, 0, 0, 0;
    var a3, b3, c3, d3: byte := 0, 0, 0, 0;
    i, done := 0, [];
    CarriedAtStart(prev, 4, 0);
    CarriedAtStart(prev, 4, 1);
    CarriedAtStart(prev, 4, 2);
    CarriedAtStart(prev, 4, 3);
    while i + 3 < length
      invariant i == |done| <= length && (i > 0 ==> i >= 4)
      invariant Going(recon, ro, scan, so, po, before, line, prev, 4, 4, done)
      invariant Carried(prev, done, 4, i + 0, b0, d0)
      invariant Carried(prev, done, 4, i + 1, b1, d1)
      invariant Carried(prev, done, 4, i + 2, b2, d2)
      invariant Carried(prev, done, 4, i + 3, b3, d3)
      decreases length - i
    {
      Shape(recon, ro, scan, so, po, before, line, prev, 4, 4, done);
      Reads(recon, ro, scan, so, po, before, line, prev, 4, 4, done);
      c0, c1, c2, c3 := b0, b1, b2, b3;
      b0, b1, b2, b3 := recon[po + i + 0], recon[po + i + 1], recon[po + i + 2], recon[po + i + 3];
      a0, a1, a2, a3 := d0, d1, d2, d3;
      Neighbours(prev, done, 4, i + 0, c0, a0);
      Neighbours(prev, done, 4, i + 1, c1, a1);
      Neighbours(prev, done, 4, i + 2, c2, a2);
      Neighbours(prev, done, 4, i + 3, c3, a3);
      d0 := Add8(scan[so + i + 0], PaethPredictor(a0, b0, c0));
      d1 := Add8(scan[so + i + 1], PaethPredictor(a1, b1, c1));
      d2 := Add8(scan[so + i + 2], PaethPredictor(a2, b2, c2));
      d3 := Add8(scan[so + i + 3], PaethPredictor(a3, b3, c3));
      PaethByte(line, prev, 4, done, i + 0, c0, a0);
      PaethByte(line, prev, 4, done, i + 1, c1, a1);
      PaethByte(line, prev, 4, done, i + 2, c2, a2);
      PaethByte(line, prev, 4, done, i + 3, c3, a3);
      ghost var ds := [d0, d1, d2, d3];
      PutGroup(recon, ro, scan, so, i, [d0, d1, d2, d3], po, before, line, prev, 4, 4, done);
      CarriedOn(prev, done, ds, 4, 0);
      CarriedOn(prev, done, ds, 4, 1);
      CarriedOn(prev, done, ds, 4, 2);
      CarriedOn(prev, done, ds, 4, 3);
      done := done + ds;
      i := i + 4;
    }
  }

  /** Pixels of six bytes. */
  method Paeth6(recon: array<byte>, ro: nat, scan: array<byte>, so: nat, po: nat, length: nat,
                ghost before: seq<byte>, ghost line: seq<byte>, ghost prev: seq<byte>)
    returns (i: nat, ghost done: seq<byte>)
    requires Going(recon, ro, scan, so, po, before, line, prev, 4, 6, []) && length == |line| == |prev| && length >= 6
    modifies recon
    ensures Going(recon, ro, scan, so, po, before, line, prev, 4, 6, done) && 6 <= i == |done| <= length
  {
    hide Going, Paeth, AboveLeft, ByteOk, Add8, PaethPredictor, Carried;
    var a0, b0, c0, d0: byte := 0, 0, 0, 0;
    var a1, b1, c1, d1: byte := 0, 0, 0, 0;
    var a2, b2, c2, d2: byte := 0, 0, 0, 0;
    var a3, b3, c3, d3: byte := 0, 0, 0, 0;
    var a4, b4, c4, d4: byte := 0, 0, 0, 0;
    var a5, b5, c5, d5: byte := 0, 0, 0, 0;
    i, done := 0, [];
    CarriedAtStart(prev, 6, 0);
    CarriedAtStart(prev, 6, 1);
    CarriedAtStart(prev, 6, 2);
    CarriedAtStart(prev, 6, 3);
    CarriedAtStart(prev, 6, 4);
    CarriedAtStart(prev, 6, 5);
    while i + 5 < length
      invariant i == |done| <= length && (i > 0 ==> i >= 6)
      invariant Going(recon, ro, scan, so, po, before, line, prev, 4, 6, done)
      invariant Carried(prev, done, 6, i + 0, b0, d0)
      invariant Carried(prev, done, 6, i + 1, b1, d1)
      invariant Carried(prev, done, 6, i + 2, b2, d2)
      invariant Carried(prev, done, 6, i + 3, b3, d3)
      invariant Carried(prev, done, 6, i + 4, b4, d4)
      invariant Carried(prev, done, 6, i + 5, b5, d5)
      decreases length - i
    {
      Shape(recon, ro, scan, so, po, before, line, prev, 4, 6, done);
      Reads(recon, ro, scan, so, po, before, line, prev, 4, 6, done);
      c0, c1, c2, c3, c4, c5 := b0, b1, b2, b3, b4, b5;
      b0, b1, b2, b3, b4, b5 := recon[po + i + 0], recon[po + i + 1], recon[po + i + 2], recon[po + i + 3],
        recon[po + i + 4], recon[po + i + 5];
      a0, a1, a2, a3, a4, a5 := d0, d1, d2, d3, d4, d5;
      Neighbours(prev, done, 6, i + 0, c0, a0);
      Neighbours(prev, done, 6, i + 1, c1, a1);
      Neighbours(prev, done, 6, i + 2, c2, a2);
      Neighbours(prev, done, 6, i + 3, c3, a3);
      Neighbours(prev, done, 6, i + 4, c4, a4);
      Neighbours(prev, done, 6, i + 5, c5, a5);
      d0 := Add8(scan[so + i + 0], PaethPredictor(a0, b0, c0));
      d1 := Add8(scan[so + i + 1], PaethPredictor(a1, b1, c1));
      d2 := Add8(scan[so + i + 2], PaethPredictor(a2, b2, c2));
      d3 := Add8(scan[so + i + 3], PaethPredictor(a3, b3, c3));
      d4 := Add8(scan[so + i + 4], PaethPredictor(a4, b4, c4));
      d5 := Add8(scan[so + i + 5], PaethPredictor(a5, b5, c5));
      PaethByte(line, prev, 6, done, i + 0, c0, a0);
      PaethByte(line, prev, 6, done, i + 1, c1, a1);
      PaethByte(line, prev, 6, done, i + 2, c2, a2);
      PaethByte(line, prev, 6, done, i + 3, c3, a3);
      PaethByte(line, prev, 6, done, i + 4, c4, a4);
      PaethByte(line, prev, 6, done, i + 5, c5, a5);
      ghost var ds := [d0, d1, d2, d3, d4, d5];
      PutGroup(recon, ro, scan, so, i, [d0, d1, d2, d3, d4, d5], po, before, line, prev, 4, 6, done);
      CarriedOn(prev, done, ds, 6, 0);
      CarriedOn(prev, done, ds, 6, 1);
      CarriedOn(prev, done, ds, 6, 2);
      CarriedOn(prev, done, ds, 6, 3);
      CarriedOn(prev, done, ds, 6, 4);
      CarriedOn(prev, done, ds, 6, 5);
      done := done + ds;
      i := i + 6;
    }
  }

  /** Pixels of eight bytes. */
  method Paeth8(recon: array<byte>, ro: nat, scan: array<byte>, so: nat, po: nat, length: nat,
                ghost before: seq<byte>, ghost line: seq<byte>, ghost prev: seq<byte>)
    returns (i: nat, ghost done: seq<byte>)
    requires Going(recon, ro, scan, so, po, before, line, prev, 4, 8, []) && length == |line| == |prev| && length >= 8
    modifies recon
    ensures Going(recon, ro, scan, so, po, before, line, prev, 4, 8, done) && 8 <= i == |done| <= length
  {
    hide Going, Paeth, AboveLeft, ByteOk, Add8, PaethPredictor, Carried;
    var a0, b0, c0, d0: byte := 0, 0, 0, 0;
    var a1, b1, c1, d1: byte := 0, 0, 0, 0;
    var a2, b2, c2, d2: byte := 0, 0, 0, 0;
    var a3, b3, c3, d3: byte := 0, 0, 0, 0;
    var a4, b4, c4, d4: byte := 0, 0, 0, 0;
    var a5, b5, c5, d5: byte := 0, 0, 0, 0;
    var a6, b6, c6, d6: byte := 0, 0, 0, 0;
    var a7, b7, c7, d7: byte := 0, 0, 0, 0;
    i, done := 0, [];
    CarriedAtStart(prev, 8, 0);
    CarriedAtStart(prev, 8, 1);
    CarriedAtStart(prev, 8, 2);
    CarriedAtStart(prev, 8, 3);
    CarriedAtStart(prev, 8, 4);
    CarriedAtStart(prev, 8, 5);
    CarriedAtStart(prev, 8, 6);
    CarriedAtStart(prev, 8, 7);
    while i + 7 < length
      invariant i == |done| <= length && (i > 0 ==> i >= 8)
      invariant Going(recon, ro, scan, so, po, before, line, prev, 4, 8, done)
      invariant Carried(prev, done, 8, i + 0, b0, d0)
      invariant Carried(prev, done, 8, i + 1, b1, d1)
      invariant Carried(prev, done, 8, i + 2, b2, d2)
      invariant Carried(prev, done, 8, i + 3, b3, d3)
      invariant Carried(prev, done, 8, i + 4, b4, d4)
      invariant Carried(prev, done, 8, i + 5, b5, d5)
      invariant Carried(prev, done, 8, i + 6, b6, d6)
      invariant Carried(prev, done, 8, i + 7, b7, d7)
      decreases length - i
    {
      Shape(recon, ro, scan, so, po, before, line, prev, 4, 8, done);
      Reads(recon, ro, scan, so, po, before, line, prev, 4, 8, done);
      c0, c1, c2, c3, c4, c5, c6, c7 := b0, b1, b2, b3, b4, b5, b6, b7;
      b0, b1, b2, b3, b4, b5, b6, b7 := recon[po + i + 0], recon[po + i + 1], recon[po + i + 2], recon[po + i + 3],
        recon[po + i + 4], recon[po + i + 5],
        recon[po + i + 6], recon[po + i + 7];
      a0, a1, a2, a3, a4, a5, a6, a7 := d0, d1, d2, d3, d4, d5, d6, d7;
      Neighbours(prev, done, 8, i + 0, c0, a0);
      Neighbours(prev, done, 8, i + 1, c1, a1);
      Neighbours(prev, done, 8, i + 2, c2, a2);
      Neighbours(prev, done, 8, i + 3, c3, a3);
      Neighbours(prev, done, 8, i + 4, c4, a4);
      Neighbours(prev, done, 8, i + 5, c5, a5);
      Neighbours(prev, done, 8, i + 6, c6, a6);
      Neighbours(prev, done, 8, i + 7, c7, a7);
      d0 := Add8(scan[so + i + 0], PaethPredictor(a0, b0, c0));
      d1 := Add8(scan[so + i + 1], PaethPredictor(a1, b1, c1));
      d2 := Add8(scan[so + i + 2], PaethPredictor(a2, b2, c2));
      d3 := Add8(scan[so + i + 3], PaethPredictor(a3, b3, c3));
      d4 := Add8(scan[so + i + 4], PaethPredictor(a4, b4, c4));
      d5 := Add8(scan[so + i + 5], PaethPredictor(a5, b5, c5));
      d6 := Add8(scan[so + i + 6], PaethPredictor(a6, b6, c6));
      d7 := Add8(scan[so + i + 7], PaethPredictor(a7, b7, c7));
      PaethByte(line, prev, 8, done, i + 0, c0, a0);
      PaethByte(line, prev, 8, done, i + 1, c1, a1);
      PaethByte(line, prev, 8, done, i + 2, c2, a2);
      PaethByte(line, prev, 8, done, i + 3, c3, a3);
      PaethByte(line, prev, 8, done, i + 4, c4, a4);
      PaethByte(line, prev, 8, done, i + 5, c5, a5);
      PaethByte(line, prev, 8, done, i + 6, c6, a6);
      PaethByte(line, prev, 8, done, i + 7, c7, a7);
      ghost var ds := [d0, d1, d2, d3, d4, d5, d6, d7];
      PutGroup(recon, ro, scan, so, i, [d0, d1, d2, d3, d4, d5, d6, d7], po, before, line, prev, 4, 8, done);
      CarriedOn(prev, done, ds, 8, 0);
      CarriedOn(prev, done, ds, 8, 1);
      CarriedOn(prev, done, ds, 8, 2);
      CarriedOn(prev, done, ds, 8, 3);
      CarriedOn(prev, done, ds, 8, 4);
      CarriedOn(prev, done, ds, 8, 5);
      CarriedOn(prev, done, ds, 8, 6);
      CarriedOn(prev, done, ds, 8, 7);
      done := done + ds;
      i := i + 8;
    }
  }

  /** Pixels of another width, and what is left of a line: the neighbours are read again. */
  method PaethRest(recon: array<byte>, ro: nat, scan: array<byte>, so: nat, po: nat, bw: nat, start: nat, length: nat,
                   ghost before: seq<byte>, ghost line: seq<byte>, ghost prev: seq<byte>, ghost begun: seq<byte>)
    returns (ghost done: seq<byte>)
    requires Going(recon, ro, scan, so, po, before, line, prev, 4, bw, begun)
      && 0 < bw <= start == |begun| <= length == |line| == |prev|
    modifies recon
    ensures Going(recon, ro, scan, so, po, before, line, prev, 4, bw, done) && |done| == length
  {
    hide Going, Paeth, Add8, ByteOk, PaethPredictor;
    done := begun;
    var i := start;
    while i != length
      invariant bw <= i == |done| <= length && Going(recon, ro, scan, so, po, before, line, prev, 4, bw, done)
    {
      Shape(recon, ro, scan, so, po, before, line, prev, 4, bw, done);
      Reads(recon, ro, scan, so, po, before, line, prev, 4, bw, done);
      var d := Add8(scan[so + i], PaethPredictor(recon[ro + i - bw], recon[po + i], recon[po + i - bw]));
      PaethByte(line, prev, bw, done, i, prev[i - bw], done[i - bw]);
      Put(recon, ro, scan, so, i, d, po, before, line, prev, 4, bw, done);
      done := done + [d];
      i := i + 1;
    }
  }

  // ---------- the other filters

  /** Places where the prediction is zero. */
  ghost predicate NoPrediction(f: nat, prev: seq<byte>, bw: nat, at: nat) {
    f == 0 || (f == 1 && at < bw) || (f == 2 && prev == []) || ((f == 3 || f == 4) && prev == [] && at < bw)
  }

  lemma PredictsZero(f: nat, line: seq<byte>, prev: seq<byte>, bw: nat, done: seq<byte>, at: nat)
    requires NoPrediction(f, prev, bw, at) && at == |done| < |line|
    ensures ByteOk(f, line, prev, bw, done, at, line[at])
  {
  }

  /** Bytes that are only copied. */
  method CopyPart(recon: array<byte>, ro: nat, scan: array<byte>, so: nat, po: int, end: nat,
                  ghost f: nat, ghost bw: nat, ghost before: seq<byte>, ghost line: seq<byte>, ghost prev: seq<byte>)
    returns (ghost done: seq<byte>)
    requires Going(recon, ro, scan, so, po, before, line, prev, f, bw, []) && end <= |line|
    requires forall at: nat {:trigger NoPrediction(f, prev, bw, at)} :: at < end ==> NoPrediction(f, prev, bw, at)
    modifies recon
    ensures Going(recon, ro, scan, so, po, before, line, prev, f, bw, done) && |done| == end
  {
    hide Going, Predict, ByteOk;
    done := [];
    var i := 0;
    while i != end
      invariant i == |done| <= end && Going(recon, ro, scan, so, po, before, line, prev, f, bw, done)
    {
      Shape(recon, ro, scan, so, po, before, line, prev, f, bw, done);
      Reads(recon, ro, scan, so, po, before, line, prev, f, bw, done);
      assert NoPrediction(f, prev, bw, i);
      PredictsZero(f, line, prev, bw, done, i);
      var d := scan[so + i];
      Put(recon, ro, scan, so, i, d, po, before, line, prev, f, bw, done);
      done := done + [d];
      i := i + 1;
    }
  }

  lemma LeftByte(f: nat, line: seq<byte>, prev: seq<byte>, bw: nat, done: seq<byte>, at: nat)
    requires 0 < bw <= at == |done| < |line| && (f == 1 || (f == 4 && prev == []))
    ensures ByteOk(f, line, prev, bw, done, at, Add8(line[at], done[at - bw]))
  {
  }

  lemma AboveByte(f: nat, line: seq<byte>, prev: seq<byte>, bw: nat, done: seq<byte>, at: nat)
    requires at == |done| < |line| == |prev| && (f == 2 || (f == 4 && at < bw))
    ensures ByteOk(f, line, prev, bw, done, at, Add8(line[at], prev[at]))
  {
  }

  /** Adds the byte to the left: filter 1, and filter 4 when there is no line before. */
  method AddLeft(recon: array<byte>, ro: nat, scan: array<byte>, so: nat, po: int, bw: nat, length: nat,
                 ghost f: nat, ghost before: seq<byte>, ghost line: seq<byte>, ghost prev: seq<byte>,
                   ghost begun: seq<byte>)
    requires Going(recon, ro, scan, so, po, before, line, prev, f, bw, begun) && 0 < bw == |begun| <= length == |line|
    requires f == 1 || (f == 4 && prev == [])
    modifies recon
    ensures Finished(recon, ro, before, line, prev, f, bw)
  {
    hide Going, Finished, ByteOk, Add8, Average, Half;
    ghost var done := begun;
    var i, j := bw, 0;
    while i != length
      invariant bw <= i == |done| <= length && j == i - bw && bw > 0
      invariant Going(recon, ro, scan, so, po, before, line, prev, f, bw, done)
    {
      Shape(recon, ro, scan, so, po, before, line, prev, f, bw, done);
      Reads(recon, ro, scan, so, po, before, line, prev, f, bw, done);
      var d := Add8(scan[so + i], recon[ro + j]);
      LeftByte(f, line, prev, bw, done, i);
      Put(recon, ro, scan, so, i, d, po, before, line, prev, f, bw, done);
      done := done + [d];
      i, j := i + 1, j + 1;
    }
    Finish(recon, ro, scan, so, po, before, line, prev, f, bw, done);
  }

  /** Adds the byte above: filter 2, and the first pixel of filter 4. */
  method AddAbove(recon: array<byte>, ro: nat, scan: array<byte>, so: nat, po: nat, end: nat,
                  ghost f: nat, ghost bw: nat, ghost before: seq<byte>, ghost line: seq<byte>, ghost prev: seq<byte>)
    returns (ghost done: seq<byte>)
    requires Going(recon, ro, scan, so, po, before, line, prev, f, bw, []) && end <= |line| == |prev|
    requires f == 2 || (f == 4 && end <= bw)
    modifies recon
    ensures Going(recon, ro, scan, so, po, before, line, prev, f, bw, done) && |done| == end
  {
    hide Going, ByteOk, Add8;
    done := [];
    var i := 0;
    while i != end
      invariant i == |done| <= end && Going(recon, ro, scan, so, po, before, line, prev, f, bw, done)
    {
      Shape(recon, ro, scan, so, po, before, line, prev, f, bw, done);
      Reads(recon, ro, scan, so, po, before, line, prev, f, bw, done);
      var d := Add8(scan[so + i], recon[po + i]);
      AboveByte(f, line, prev, bw, done, i);
      Put(recon, ro, scan, so, i, d, po, before, line, prev, f, bw, done);
      done := done + [d];
      i := i + 1;
    }
  }

  /** The average of two bytes. */
  function Average(r: byte, p: byte): byte {
    ((r as int) + p) / 2
  }

  lemma AverageByte(line: seq<byte>, prev: seq<byte>, bw: nat, done: seq<byte>, at: nat, r: byte)
    requires at < |line| == |prev| && r == AboveLeft(done, bw, at)
    ensures ByteOk(3, line, prev, bw, done, at, Add8(line[at], Average(r, prev[at])))
  {
  }

  function Half(p: byte): byte {
    p / 2
  }

  lemma HalfAboveByte(line: seq<byte>, prev: seq<byte>, bw: nat, done: seq<byte>, at: nat)
    requires at < bw && at == |done| < |line| == |prev|
    ensures ByteOk(3, line, prev, bw, done, at, Add8(line[at], Half(prev[at])))
  {
  }

  lemma HalfLeftByte(line: seq<byte>, bw: nat, done: seq<byte>, at: nat)
    requires 0 < bw <= at == |done| < |line|
    ensures ByteOk(3, line, [], bw, done, at, Add8(line[at], Half(done[at - bw])))
  {
  }

  /** Filter 3 on the first pixel, where there is nothing to the left. */
  method AverageStart(recon: array<byte>, ro: nat, scan: array<byte>, so: nat, po: nat, bw: nat,
                      ghost before: seq<byte>, ghost line: seq<byte>, ghost prev: seq<byte>)
    returns (ghost done: seq<byte>)
    requires Going(recon, ro, scan, so, po, before, line, prev, 3, bw, []) && bw <= |line| == |prev|
    modifies recon
    ensures Going(recon, ro, scan, so, po, before, line, prev, 3, bw, done) && |done| == bw
  {
    hide Going, ByteOk, Add8, Half;
    done := [];
    var i := 0;
    while i != bw
      invariant i == |done| <= bw && Going(recon, ro, scan, so, po, before, line, prev, 3, bw, done)
    {
      Shape(recon, ro, scan, so, po, before, line, prev, 3, bw, done);
      Reads(recon, ro, scan, so, po, before, line, prev, 3, bw, done);
      var d := Add8(scan[so + i], Half(recon[po + i]));
      HalfAboveByte(line, prev, bw, done, i);
      Put(recon, ro, scan, so, i, d, po, before, line, prev, 3, bw, done);
      done := done + [d];
      i := i + 1;
    }
  }

  /** Four bytes at a time. */
  method Average4(recon: array<byte>, ro: nat, scan: array<byte>, so: nat, po: nat, bw: nat, length: nat,
                  ghost before: seq<byte>, ghost line: seq<byte>, ghost prev: seq<byte>, ghost begun: seq<byte>)
    returns (i: nat, ghost done: seq<byte>)
    requires Going(recon, ro, scan, so, po, before, line, prev, 3, bw, begun)
    requires 4 <= bw == |begun| <= length == |line| == |prev|
    modifies recon
    ensures Going(recon, ro, scan, so, po, before, line, prev, 3, bw, done) && bw <= i == |done| <= length
  {
    hide Going, ByteOk, Average, Add8;
    i, done := bw, begun;
    var j := 0;
    while i + 3 < length
      invariant bw <= i == |done| <= length && j == i - bw
      invariant Going(recon, ro, scan, so, po, before, line, prev, 3, bw, done)
      decreases length - i
    {
      Shape(recon, ro, scan, so, po, before, line, prev, 3, bw, done);
      Reads(recon, ro, scan, so, po, before, line, prev, 3, bw, done);
      var s0, s1, s2, s3 := scan[so + i + 0], scan[so + i + 1], scan[so + i + 2], scan[so + i + 3];
      var r0, r1, r2, r3 := recon[ro + j + 0], recon[ro + j + 1], recon[ro + j + 2], recon[ro + j + 3];
      var p0, p1, p2, p3 := recon[po + i + 0], recon[po + i + 1], recon[po + i + 2], recon[po + i + 3];
      AverageByte(line, prev, bw, done, i + 0, r0);
      AverageByte(line, prev, bw, done, i + 1, r1);
      AverageByte(line, prev, bw, done, i + 2, r2);
      AverageByte(line, prev, bw, done, i + 3, r3);
      var ds := [Add8(s0, Average(r0, p0)),
                 Add8(s1, Average(r1, p1)),
                 Add8(s2, Average(r2, p2)),
                 Add8(s3, Average(r3, p3))];
      PutGroup(recon, ro, scan, so, i, ds, po, before, line, prev, 3, bw, done);
      done := done + ds;
      i, j := i + 4, j + 4;
    }
  }

  /** Three bytes at a time. */
  method Average3(recon: array<byte>, ro: nat, scan: array<byte>, so: nat, po: nat, bw: nat, length: nat,
                  ghost before: seq<byte>, ghost line: seq<byte>, ghost prev: seq<byte>, ghost begun: seq<byte>)
    returns (i: nat, ghost done: seq<byte>)
    requires Going(recon, ro, scan, so, po, before, line, prev, 3, bw, begun)
    requires 3 <= bw == |begun| <= length == |line| == |prev|
    modifies recon
    ensures Going(recon, ro, scan, so, po, before, line, prev, 3, bw, done) && bw <= i == |done| <= length
  {
    hide Going, ByteOk, Average, Add8;
    i, done := bw, begun;
    var j := 0;
    while i + 2 < length
      invariant bw <= i == |done| <= length && j == i - bw
      invariant Going(recon, ro, scan, so, po, before, line, prev, 3, bw, done)
      decreases length - i
    {
      Shape(recon, ro, scan, so, po, before, line, prev, 3, bw, done);
      Reads(recon, ro, scan, so, po, before, line, prev, 3, bw, done);
      var s0, s1, s2 := scan[so + i + 0], scan[so + i + 1], scan[so + i + 2];
      var r0, r1, r2 := recon[ro + j + 0], recon[ro + j + 1], recon[ro + j + 2];
      var p0, p1, p2 := recon[po + i + 0], recon[po + i + 1], recon[po + i + 2];
      AverageByte(line, prev, bw, done, i + 0, r0);
      AverageByte(line, prev, bw, done, i + 1, r1);
      AverageByte(line, prev, bw, done, i + 2, r2);
      var ds := [Add8(s0, Average(r0, p0)),
                 Add8(s1, Average(r1, p1)),
                 Add8(s2, Average(r2, p2))];
      PutGroup(recon, ro, scan, so, i, ds, po, before, line, prev, 3, bw, done);
      done := done + ds;
      i, j := i + 3, j + 3;
    }
  }

  /** Two bytes at a time. */
  method Average2(recon: array<byte>, ro: nat, scan: array<byte>, so: nat, po: nat, bw: nat, length: nat,
                  ghost before: seq<byte>, ghost line: seq<byte>, ghost prev: seq<byte>, ghost begun: seq<byte>)
    returns (i: nat, ghost done: seq<byte>)
    requires Going(recon, ro, scan, so, po, before, line, prev, 3, bw, begun)
    requires 2 <= bw == |begun| <= length == |line| == |prev|
    modifies recon
    ensures Going(recon, ro, scan, so, po, before, line, prev, 3, bw, done) && bw <= i == |done| <= length
  {
    hide Going, ByteOk, Average, Add8;
    i, done := bw, begun;
    var j := 0;
    while i + 1 < length
      invariant bw <= i == |done| <= length && j == i - bw
      invariant Going(recon, ro, scan, so, po, before, line, prev, 3, bw, done)
      decreases length - i
    {
      Shape(recon, ro, scan, so, po, before, line, prev, 3, bw, done);
      Reads(recon, ro, scan, so, po, before, line, prev, 3, bw, done);
      var s0, s1 := scan[so + i + 0], scan[so + i + 1];
      var r0, r1 := recon[ro + j + 0], recon[ro + j + 1];
      var p0, p1 := recon[po + i + 0], recon[po + i + 1];
      AverageByte(line, prev, bw, done, i + 0, r0);
      AverageByte(line, prev, bw, done, i + 1, r1);
      var ds := [Add8(s0, Average(r0, p0)), Add8(s1, Average(r1, p1))];
      PutGroup(recon, ro, scan, so, i, ds, po, before, line, prev, 3, bw, done);
      done := done + ds;
      i, j := i + 2, j + 2;
    }
  }

  /** What is left of a line, byte by byte. */
  method AverageRest(recon: array<byte>, ro: nat, scan: array<byte>, so: nat, po: nat, bw: nat, start: nat, length: nat,
                     ghost before: seq<byte>, ghost line: seq<byte>, ghost prev: seq<byte>, ghost begun: seq<byte>)
    requires Going(recon, ro, scan, so, po, before, line, prev, 3, bw, begun)
    requires 0 < bw <= start == |begun| <= length == |line| == |prev|
    modifies recon
    ensures Finished(recon, ro, before, line, prev, 3, bw)
  {
    hide Going, Finished, ByteOk, Add8, Average, Half;
    ghost var done := begun;
    var i, j := start, start - bw;
    while i != length
      invariant bw <= i == |done| <= length && j == i - bw
      invariant Going(recon, ro, scan, so, po, before, line, prev, 3, bw, done)
    {
      Shape(recon, ro, scan, so, po, before, line, prev, 3, bw, done);
      Reads(recon, ro, scan, so, po, before, line, prev, 3, bw, done);
      var d := Add8(scan[so + i], Average(recon[ro + j], recon[po + i]));
      AverageByte(line, prev, bw, done, i, done[j]);
      Put(recon, ro, scan, so, i, d, po, before, line, prev, 3, bw, done);
      done := done + [d];
      i, j := i + 1, j + 1;
    }
    Finish(recon, ro, scan, so, po, before, line, prev, 3, bw, done);
  }

  /** Filter 3 when there is no line before: half of the byte to the left. */
  method AddHalfLeft(recon: array<byte>, ro: nat, scan: array<byte>, so: nat, po: int, bw: nat, length: nat,
                     ghost before: seq<byte>, ghost line: seq<byte>, ghost prev: seq<byte>, ghost begun: seq<byte>)
    requires Going(recon, ro, scan, so, po, before, line, prev, 3, bw, begun) && 0 < bw == |begun| <= length == |line|
      && prev == []
    modifies recon
    ensures Finished(recon, ro, before, line, prev, 3, bw)
  {
    hide Going, Finished, ByteOk, Add8, Average, Half;
    ghost var done := begun;
    var i, j := bw, 0;
    while i != length
      invariant bw <= i == |done| <= length && j == i - bw && bw > 0
      invariant Going(recon, ro, scan, so, po, before, line, prev, 3, bw, done)
    {
      Shape(recon, ro, scan, so, po, before, line, prev, 3, bw, done);
      Reads(recon, ro, scan, so, po, before, line, prev, 3, bw, done);
      var d := Add8(scan[so + i], Half(recon[ro + j]));
      HalfLeftByte(line, bw, done, i);
      Put(recon, ro, scan, so, i, d, po, before, line, prev, 3, bw, done);
      done := done + [d];
      i, j := i + 1, j + 1;
    }
    Finish(recon, ro, scan, so, po, before, line, prev, 3, bw, done);
  }

  // ---------- the five filters

  method UnfilterAverage(recon: array<byte>, ro: nat, scan: array<byte>, so: nat, po: int, bw: nat, length: nat,
                         ghost before: seq<byte>, ghost line: seq<byte>, ghost prev: seq<byte>)
    requires Going(recon, ro, scan, so, po, before, line, prev, 3, bw, []) && 0 < bw <= length == |line|
    modifies recon
    ensures Finished(recon, ro, before, line, prev, 3, bw)
  {
    hide Going, Finished;
    PrevShape(recon, ro, scan, so, po, before, line, prev, 3, bw, []);
    ghost var done;
    if po >= 0 {
      done := AverageStart(recon, ro, scan, so, po, bw, before, line, prev);
      var i := bw;
      if bw >= 4 {
        i, done := Average4(recon, ro, scan, so, po, bw, length, before, line, prev, done);
      } else if bw >= 3 {
        i, done := Average3(recon, ro, scan, so, po, bw, length, before, line, prev, done);
      } else if bw >= 2 {
        i, done := Average2(recon, ro, scan, so, po, bw, length, before, line, prev, done);
      }
      AverageRest(recon, ro, scan, so, po, bw, i, length, before, line, prev, done);
    } else {
      done := CopyPart(recon, ro, scan, so, po, bw, 3, bw, before, line, prev);
      AddHalfLeft(recon, ro, scan, so, po, bw, length, before, line, prev, done);
    }
  }

  lemma PrevShape(recon: array<byte>, ro: nat, scan: array<byte>, so: nat, po: int,
                  before: seq<byte>, line: seq<byte>, prev: seq<byte>, f: nat, bw: nat, done: seq<byte>)
    requires Going(recon, ro, scan, so, po, before, line, prev, f, bw, done)
    ensures if po < 0 then prev == [] else |prev| == |line|
  {
  }

  method UnfilterPaeth(recon: array<byte>, ro: nat, scan: array<byte>, so: nat, po: int, bw: nat, length: nat,
                       ghost before: seq<byte>, ghost line: seq<byte>, ghost prev: seq<byte>)
    requires Going(recon, ro, scan, so, po, before, line, prev, 4, bw, []) && 0 < bw <= length == |line|
    modifies recon
    ensures Finished(recon, ro, before, line, prev, 4, bw)
  {
    hide Going, Finished;
    PrevShape(recon, ro, scan, so, po, before, line, prev, 4, bw, []);
    ghost var done;
    if po >= 0 {
      var i;
      if bw == 8 {
        i, done := Paeth8(recon, ro, scan, so, po, length, before, line, prev);
      } else if bw == 6 {
        i, done := Paeth6(recon, ro, scan, so, po, length, before, line, prev);
      } else if bw == 4 {
        i, done := Paeth4(recon, ro, scan, so, po, length, before, line, prev);
      } else if bw == 3 {
        i, done := Paeth3(recon, ro, scan, so, po, length, before, line, prev);
      } else if bw == 2 {
        i, done := Paeth2(recon, ro, scan, so, po, length, before, line, prev);
      } else if bw == 1 {
        i, done := Paeth1(recon, ro, scan, so, po, length, before, line, prev);
      } else {
        done := AddAbove(recon, ro, scan, so, po, bw, 4, bw, before, line, prev);
        i := bw;
      }
      done := PaethRest(recon, ro, scan, so, po, bw, i, length, before, line, prev, done);
      Finish(recon, ro, scan, so, po, before, line, prev, 4, bw, done);
    } else {
      done := CopyPart(recon, ro, scan, so, po, bw, 4, bw, before, line, prev);
      AddLeft(recon, ro, scan, so, po, bw, length, 4, before, line, prev, done);
    }
  }

  /** unfilterScanline. The line before is at po in the buffer written to, or there is none if po is
      negative. */
  method UnfilterScanline(recon: array<byte>, ro: nat, scan: array<byte>, so: nat, po: int, bw: nat, f: byte,
                          length: nat)
    returns (error: nat)
    requires 0 < bw <= length && ro + length <= recon.Length && so + length <= scan.Length
      && (scan == recon ==> ro <= so)
    requires po >= 0 ==> po + length <= ro
    modifies recon
    ensures error == if f <= 4 then 0 else 36
    ensures error != 0 ==> recon[..] == old(recon[..])
    ensures error == 0 ==>
      Finished(recon, ro, old(recon[..]), old(scan[so..so + length]), old(PrevLine(recon, po, length)), f, bw)
  {
    hide Going, Finished, Predict;
    ghost var before, line, prev := recon[..], scan[so..so + length], PrevLine(recon, po, length);
    Start(recon, ro, scan, so, po, length, f, bw);
    error := 0;
    ghost var done;
    if f == 0 {
      done := CopyPart(recon, ro, scan, so, po, length, 0, bw, before, line, prev);
      Finish(recon, ro, scan, so, po, before, line, prev, 0, bw, done);
    } else if f == 1 {
      done := CopyPart(recon, ro, scan, so, po, bw, 1, bw, before, line, prev);
      AddLeft(recon, ro, scan, so, po, bw, length, 1, before, line, prev, done);
    } else if f == 2 {
      if po >= 0 {
        done := AddAbove(recon, ro, scan, so, po, length, 2, bw, before, line, prev);
      } else {
        done := CopyPart(recon, ro, scan, so, po, length, 2, bw, before, line, prev);
      }
      Finish(recon, ro, scan, so, po, before, line, prev, 2, bw, done);
    } else if f == 3 {
      UnfilterAverage(recon, ro, scan, so, po, bw, length, before, line, prev);
    } else if f == 4 {
      UnfilterPaeth(recon, ro, scan, so, po, bw, length, before, line, prev);
    } else {
      error := 36;
    }
  }
}
