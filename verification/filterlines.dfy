/** Filtering one scanline, and whole images in both directions. */
module FilterLines {
  import opened Bits
  import opened Filters
  import opened UnfilterLines

  // ---------- one line

  /** Subtraction of unsigned chars. */
  function Sub8(x: byte, p: byte): byte {
    (x as int - p) % 256
  }

  /** Byte `at` of the filtered line. */
  ghost predicate FilterOk(f: nat, line: seq<byte>, prev: seq<byte>, bw: nat, at: nat, d: byte) {
    bw > 0 && at < |line| && d == (line[at] as int - PredictAt(f, line, prev, bw, at)) % 256
  }

  /** The first i bytes have been filtered, into out from oo on. */
  ghost predicate Writing(out: array<byte>, oo: nat, before: seq<byte>, line: seq<byte>, prev: seq<byte>, f: nat,
                          bw: nat, i: nat)
    reads out
  {
    && i <= |line| && |before| == out.Length && oo + |line| <= out.Length
    && (forall q: int {:trigger out[q]} :: oo <= q < oo + i ==> FilterOk(f, line, prev, bw, q - oo, out[q]))
    && (forall q: int {:trigger out[q]} :: 0 <= q < out.Length && !(oo <= q < oo + i) ==> out[q] == before[q])
  }

  method Write(out: array<byte>, oo: nat, i: nat, d: byte,
               ghost before: seq<byte>, ghost line: seq<byte>, ghost prev: seq<byte>, ghost f: nat, ghost bw: nat)
    requires Writing(out, oo, before, line, prev, f, bw, i) && i < |line| && FilterOk(f, line, prev, bw, i, d)
    modifies out
    ensures Writing(out, oo, before, line, prev, f, bw, i + 1)
  {
    hide FilterOk;
    out[oo + i] := d;
  }

  /** A filtered line, and nothing else touched. */
  ghost predicate Written(out: array<byte>, oo: nat, before: seq<byte>, line: seq<byte>, prev: seq<byte>, f: nat,
                          bw: nat)
    reads out
  {
    && bw > 0 && oo + |line| <= out.Length == |before|
    && Filtered(f, line, prev, bw, out[oo..oo + |line|])
    && out[..oo] == before[..oo] && out[oo + |line|..] == before[oo + |line|..]
  }

  lemma WritingDone(out: array<byte>, oo: nat, before: seq<byte>, line: seq<byte>, prev: seq<byte>, f: nat, bw: nat)
    requires Writing(out, oo, before, line, prev, f, bw, |line|) && bw > 0
    ensures Written(out, oo, before, line, prev, f, bw)
  {
    forall k {:trigger line[k]} | 0 <= k < |line| ensures FilterOk(f, line, prev, bw, k, out[oo..oo + |line|][k]) {
      assert out[oo..oo + |line|][k] == out[oo + k];
    }
  }

  /** The formulas of the source, by filter type and by what is to the left and above. */
  lemma Formulas(f: nat, line: seq<byte>, prev: seq<byte>, bw: nat, i: nat)
    requires 0 < bw && i < |line| && (prev == [] || |prev| == |line|)
    ensures NoPrediction(f, prev, bw, i) ==> FilterOk(f, line, prev, bw, i, line[i])
    ensures i >= bw && (f == 1 || (f == 4 && prev == [])) ==>
      FilterOk(f, line, prev, bw, i, Sub8(line[i], line[i - bw]))
    ensures prev != [] && (f == 2 || (f == 4 && i < bw)) ==> FilterOk(f, line, prev, bw, i, Sub8(line[i], prev[i]))
    ensures prev != [] && f == 3 && i < bw ==> FilterOk(f, line, prev, bw, i, Sub8(line[i], Half(prev[i])))
    ensures prev != [] && f == 3 && i >= bw ==>
      FilterOk(f, line, prev, bw, i, Sub8(line[i], Average(line[i - bw], prev[i])))
    ensures prev == [] && f == 3 && i >= bw ==> FilterOk(f, line, prev, bw, i, Sub8(line[i], Half(line[i - bw])))
    ensures prev != [] && f == 4 && i >= bw ==>
      FilterOk(f, line, prev, bw, i, Sub8(line[i], PaethPredictor(line[i - bw], prev[i], prev[i - bw])))
  {
  }

  /** filterScanline: the same choice of formulas as in the source, for the line at io of src, and
      the line before at po, or none if po is negative. */
  method FilterScanline(out: array<byte>, oo: nat, src: array<byte>, io: nat, po: int, length: nat, bw: nat, f: byte)
    requires 0 < bw <= length && oo + length <= out.Length && io + length <= src.Length && out != src && f <= 4
    requires po >= 0 ==> po + length <= src.Length
    modifies out
    ensures Written(out, oo, old(out[..]), src[io..io + length], PrevLine(src, po, length), f, bw)
  {
    hide FilterOk, Sub8, Half, Average, PaethPredictor, Paeth, Filtered;
    ghost var before, line, prev := out[..], src[io..io + length], PrevLine(src, po, length);
    var i := 0;
    while i != length
      invariant 0 <= i <= length && Writing(out, oo, before, line, prev, f, bw, i)
    {
      Formulas(f, line, prev, bw, i);
      assert line[i] == src[io + i];
      var d;
      if i < bw {
        d := FilterFirst(src, io, po, i, f, length, bw, line, prev);
      } else {
        d := FilterLater(src, io, po, i, f, length, bw, line, prev);
      }
      Write(out, oo, i, d, before, line, prev, f, bw);
      i := i + 1;
    }
    WritingDone(out, oo, before, line, prev, f, bw);
  }

  /** A byte of the first pixel. */
  method FilterFirst(src: array<byte>, io: nat, po: int, i: nat, f: byte, length: nat, bw: nat, ghost line: seq<byte>,
                     ghost prev: seq<byte>)
    returns (d: byte)
    requires i < bw <= length && io + length <= src.Length && f <= 4 && (po >= 0 ==> po + length <= src.Length)
    requires line == src[io..io + length] && prev == PrevLine(src, po, length)
    ensures FilterOk(f, line, prev, bw, i, d)
  {
    hide FilterOk, Sub8, Half, Average, PaethPredictor, Paeth;
    Formulas(f, line, prev, bw, i);
    var x := src[io + i];
    if f == 0 || f == 1 || po < 0 {
      d := x;
    } else if f == 2 || f == 4 {
      d := Sub8(x, src[po + i]);
    } else {
      d := Sub8(x, Half(src[po + i]));
    }
  }

  /** A byte that has another pixel to its left. */
  method FilterLater(src: array<byte>, io: nat, po: int, i: nat, f: byte, length: nat, bw: nat, ghost line: seq<byte>,
                     ghost prev: seq<byte>)
    returns (d: byte)
    requires 0 < bw <= i < length && io + length <= src.Length && f <= 4 && (po >= 0 ==> po + length <= src.Length)
    requires line == src[io..io + length] && prev == PrevLine(src, po, length)
    ensures FilterOk(f, line, prev, bw, i, d)
  {
    hide FilterOk, Sub8, Half, Average, PaethPredictor, Paeth;
    Formulas(f, line, prev, bw, i);
    var x, left := src[io + i], src[io + i - bw];
    if f == 0 || (f == 2 && po < 0) {
      d := x;
    } else if f == 1 || (f == 4 && po < 0) {
      d := Sub8(x, left);
    } else if f == 2 {
      d := Sub8(x, src[po + i]);
    } else if f == 3 {
      d := if po >= 0 then Sub8(x, Average(left, src[po + i])) else Sub8(x, Half(left));
    } else {
      d := Sub8(x, PaethPredictor(left, src[po + i], src[po + i - bw]));
    }
  }

  // ---------- whole images

  lemma RowFits(n: nat, y: nat, h: nat)
    requires y < h
    ensures Mul(y, n) + n <= Mul(h, n) && Mul(y + 1, n) == Mul(y, n) + n
    ensures y > 0 ==> Mul(y - 1, n) + n == Mul(y, n)
  {
    MulStrict(y, h, n);
    assert (y + 1) * n == y * n + n;
    if y > 0 { assert y * n == (y - 1) * n + n; }
  }

  /** The first y rows of the filtered image r have been reconstructed. */
  ghost predicate RowsUnfiltered(f: seq<byte>, r: seq<byte>, n: nat, bw: nat, y: nat) {
    forall k :: 0 <= k < y ==> RowUnfiltered(f, r, n, bw, k)
  }

  ghost predicate RowsFiltered(f: seq<byte>, x: seq<byte>, n: nat, bw: nat, y: nat) {
    forall k :: 0 <= k < y ==> RowFiltered(f, x, n, bw, k)
  }

  lemma UnfilteredRow(f: seq<byte>, r: seq<byte>, r2: seq<byte>, n: nat, bw: nat, h: nat, y: nat)
    requires |r| == |r2| == Mul(h, n) && |f| == Mul(h, 1 + n) && y < h && bw > 0
    requires RowsUnfiltered(f, r, n, bw, y)
    requires Mul(y, n) <= |r| && r2[..Mul(y, n)] == r[..Mul(y, n)]
    requires Mul(y, 1 + n) + 1 + n <= |f| && Mul(y, n) + n <= |r|
    requires y > 0 ==> Mul(y - 1, n) + n <= |r|
    requires f[Mul(y, 1 + n)] <= 4
    requires Unfiltered(f[Mul(y, 1 + n)], f[Mul(y, 1 + n) + 1..Mul(y, 1 + n) + 1 + n], Before(r, n, y), bw,
      Row(r2, n, y))
    ensures RowsUnfiltered(f, r2, n, bw, y + 1)
  {
    hide Unfiltered, Mul;
    forall k | 0 <= k < y + 1 ensures RowUnfiltered(f, r2, n, bw, k) {
      RowFits(n, k, h);
      RowFits(1 + n, k, h);
      if k < y {
        RowFits(n, k, y);
        assert RowUnfiltered(f, r, n, bw, k);
        SameRow(r, r2, n, Mul(y, n), k);
      }
      if k > 0 {
        if k - 1 < y { RowFits(n, k - 1, y); }
        SameRow(r, r2, n, Mul(y, n), k - 1);
      }
    }
  }

  lemma SameRow(r: seq<byte>, r2: seq<byte>, n: nat, m: nat, k: nat)
    requires |r| == |r2| && m <= |r| && r2[..m] == r[..m] && Mul(k, n) + n <= m
    ensures Row(r2, n, k) == Row(r, n, k)
  {
    assert Row(r2, n, k) == r2[..m][Mul(k, n)..Mul(k, n) + n];
    assert Row(r, n, k) == r[..m][Mul(k, n)..Mul(k, n) + n];
  }

  /** Everything outside a stretch of the buffer is as before. */
  ghost predicate Outside(now: seq<byte>, before: seq<byte>, at: nat, n: nat) {
    |now| == |before| && forall q: int {:trigger now[q]} :: 0 <= q < |now| && !(at <= q < at + n) ==>
      now[q] == before[q]
  }

  lemma Untouched(now: seq<byte>, at: nat, n: nat)
    ensures Outside(now, now, at, n)
  {
  }

  /** Reading stays ahead of writing: the scanline of row y lies behind everything written so far. */
  lemma ReadingAhead(oo: nat, io: nat, n: nat, y: nat)
    ensures n * y == Mul(y, n) <= Mul(y, 1 + n) == (1 + n) * y
    ensures oo <= io ==> oo + Mul(y, n) <= io + Mul(y, 1 + n)
  {
    assert y * (1 + n) == y * n + y;
  }

  lemma PrefixKept(now: seq<byte>, was: seq<byte>, oo: nat, m: nat, n: nat, total: nat)
    requires Outside(now, was, oo + m, n) && m <= total && oo + total <= |now|
    ensures now[oo..oo + total][..m] == was[oo..oo + total][..m]
  {
    assert now[oo..oo + total][..m] == was[oo..oo + total][..m];
  }

  lemma RowDone(now: seq<byte>, was: seq<byte>, oo: nat, f: seq<byte>, n: nat, bw: nat, h: nat, y: nat, prev: seq<byte>)
    requires bw > 0 && y < h && oo + Mul(h, n) <= |now| && |f| == Mul(h, 1 + n)
    requires Mul(y, n) + n <= Mul(h, n) && Mul(y, 1 + n) + 1 + n <= |f|
    requires Outside(now, was, oo + Mul(y, n), n) && RowsUnfiltered(f, was[oo..oo + Mul(h, n)], n, bw, y)
    requires y > 0 ==> n <= oo + Mul(y, n) && prev == was[oo + Mul(y, n) - n..oo + Mul(y, n)]
    requires y == 0 ==> prev == []
    requires f[Mul(y, 1 + n)] <= 4
    requires Unfiltered(f[Mul(y, 1 + n)], f[Mul(y, 1 + n) + 1..Mul(y, 1 + n) + 1 + n], prev, bw,
      now[oo + Mul(y, n)..oo + Mul(y, n) + n])
    ensures RowsUnfiltered(f, now[oo..oo + Mul(h, n)], n, bw, y + 1)
  {
    hide Unfiltered, RowsUnfiltered, Mul;
    var r, r2 := was[oo..oo + Mul(h, n)], now[oo..oo + Mul(h, n)];
    RowFits(n, y, h);
    PrefixKept(now, was, oo, Mul(y, n), n, Mul(h, n));
    SliceOf(now, oo, oo + Mul(h, n), Mul(y, n), Mul(y, n) + n);
    if y > 0 { SliceOf(was, oo, oo + Mul(h, n), Mul(y, n) - n, Mul(y, n)); }
    UnfilteredRow(f, r, r2, n, bw, h, y);
  }

  /** A line that is done, seen as a stretch of the buffer. */
  lemma LineDone(out: array<byte>, at: nat, was: seq<byte>, line: seq<byte>, prev: seq<byte>, f: nat, bw: nat)
    requires Finished(out, at, was, line, prev, f, bw)
    ensures Outside(out[..], was, at, |line|) && at + |line| <= out.Length
    ensures Unfiltered(f, line, prev, bw, out[at..at + |line|])
  {
    forall q: int | 0 <= q < out.Length && !(at <= q < at + |line|) ensures out[..][q] == was[q] {
      if q < at {
        assert out[..at][q] == was[..at][q];
      } else {
        assert out[at + |line|..][q - at - |line|] == was[at + |line|..][q - at - |line|];
      }
    }
  }

  lemma RowFinished(out: array<byte>, was: seq<byte>, oo: nat, f: seq<byte>, n: nat, bw: nat, h: nat, y: nat,
                    prev: seq<byte>)
    requires bw > 0 && y < h && oo + Mul(h, n) <= out.Length == |was| && |f| == Mul(h, 1 + n)
    requires Mul(y, n) + n <= Mul(h, n) && Mul(y, 1 + n) + 1 + n <= |f|
    requires f[Mul(y, 1 + n)] <= 4
    requires Finished(out, oo + Mul(y, n), was, f[Mul(y, 1 + n) + 1..Mul(y, 1 + n) + 1 + n], prev,
      f[Mul(y, 1 + n)], bw)
    requires RowsUnfiltered(f, was[oo..oo + Mul(h, n)], n, bw, y)
    requires y > 0 ==> n <= oo + Mul(y, n) && prev == was[oo + Mul(y, n) - n..oo + Mul(y, n)]
    requires y == 0 ==> prev == []
    ensures Outside(out[..], was, oo + Mul(y, n), n)
    ensures RowsUnfiltered(f, out[oo..oo + Mul(h, n)], n, bw, y + 1)
  {
    hide RowsUnfiltered, Unfiltered, Finished, Mul, Outside;
    LineDone(out, oo + Mul(y, n), was, f[Mul(y, 1 + n) + 1..Mul(y, 1 + n) + 1 + n], prev, f[Mul(y, 1 + n)], bw);
    RowDone(out[..], was, oo, f, n, bw, h, y, prev);
    assert out[..][oo..oo + Mul(h, n)] == out[oo..oo + Mul(h, n)];
  }

  /** A row with an invalid filter type. */
  ghost predicate BadTypeAt(f: seq<byte>, n: nat, y: nat) {
    0 <= Mul(y, 1 + n) < |f| && f[Mul(y, 1 + n)] > 4
  }

  ghost predicate BadType(f: seq<byte>, n: nat, h: nat) {
    exists y: nat :: y < h && BadTypeAt(f, n, y)
  }

  /** What is still to be read of the filtered image. */
  ghost predicate StillThere(src: array<byte>, io: nat, f: seq<byte>, from: nat)
    reads src
  {
    io + |f| <= src.Length && forall q: int {:trigger src[q]} :: io + from <= q < io + |f| ==> src[q] == f[q - io]
  }

  lemma ScanRow(src: array<byte>, io: nat, f: seq<byte>, from: nat, n: nat)
    requires StillThere(src, io, f, from) && from + 1 + n <= |f|
    ensures src[io + from] == f[from] && src[io + from + 1..io + from + 1 + n] == f[from + 1..from + 1 + n]
  {
  }

  lemma StillThereAfter(src: array<byte>, io: nat, f: seq<byte>, from: nat, to: nat, was: seq<byte>, at: nat, n: nat)
    requires |was| == src.Length && io + |f| <= src.Length && from <= to
    requires forall q: int {:trigger was[q]} :: io + from <= q < io + |f| ==> was[q] == f[q - io]
    requires src[..] == was || (Outside(src[..], was, at, n) && at + n <= io + to)
    ensures StillThere(src, io, f, to)
  {
    forall q: int | io + to <= q < io + |f| ensures src[q] == f[q - io] {
      assert src[q] == src[..][q];
      assert src[..][q] == was[q];
    }
  }

  /** One row. */
  method UnfilterRow(out: array<byte>, oo: nat, src: array<byte>, io: nat, n: nat, bw: nat, h: nat, y: nat,
                     ghost f: seq<byte>)
    returns (error: nat)
    requires bw > 0 && y < h && bw <= n && (out == src ==> oo <= io)
    requires oo + Mul(h, n) <= out.Length && |f| == Mul(h, 1 + n)
    requires StillThere(src, io, f, Mul(y, 1 + n))
    requires RowsUnfiltered(f, out[oo..oo + Mul(h, n)], n, bw, y)
    modifies out
    ensures (error == 0 || error == 36)
    ensures Outside(out[..], old(out[..]), oo + Mul(y, n), n)
    ensures error == 0 ==>
      RowsUnfiltered(f, out[oo..oo + Mul(h, n)], n, bw, y + 1) && StillThere(src, io, f, Mul(y + 1, 1 + n))
    ensures error != 0 ==> BadTypeAt(f, n, y)
  {
    hide RowsUnfiltered, RowUnfiltered, Unfiltered, Finished, Mul, Row, Before, Outside;
    RowFits(n, y, h);
    RowFits(1 + n, y, h);
    ReadingAhead(oo, io, n, y);
    ReadingAhead(oo, io, n, y + 1);
    ScanRow(src, io, f, Mul(y, 1 + n), n);
    ghost var was, scan := out[..], src[..];
    var outindex := oo + n * y;
    var inindex := io + (1 + n) * y;
    var filterType := src[inindex];
    var prev := if y == 0 then -1 else outindex - n;
    ghost var prevLine := PrevLine(out, prev, n);
    error := UnfilterScanline(out, outindex, src, inindex + 1, prev, bw, filterType, n);
    if error == 0 {
      RowFinished(out, was, oo, f, n, bw, h, y, prevLine);
      StillThereAfter(src, io, f, Mul(y, 1 + n), Mul(y + 1, 1 + n), scan, outindex, n);
    } else {
      Untouched(out[..], outindex, n);
    }
  }

  /** Undoes the filters of an image, in its own buffer if so wished. Only a filter type above 4 is
      an error. */
  method Unfilter(out: array<byte>, oo: nat, src: array<byte>, io: nat, n: nat, bw: nat, h: nat) returns (error: nat)
    requires bw > 0 && (h > 0 ==> bw <= n) && (out == src ==> oo <= io)
    requires oo + Mul(h, n) <= out.Length && io + Mul(h, 1 + n) <= src.Length
    modifies out
    ensures error == 0 || error == 36
    ensures Outside(out[..], old(out[..]), oo, Mul(h, n))
    ensures error == 0 ==> ImageUnfiltered(old(src[io..io + Mul(h, 1 + n)]), out[oo..oo + Mul(h, n)], n, bw, h)
    ensures error != 0 ==> BadType(old(src[io..io + Mul(h, 1 + n)]), n, h)
  {
    hide RowUnfiltered, Unfiltered, BadTypeAt, Mul;
    MulZero(n);
    MulZero(1 + n);
    ghost var f := src[io..io + Mul(h, 1 + n)];
    ghost var before := out[..];
    var y := 0;
    error := 0;
    while y < h
      invariant 0 <= y <= h && Mul(y, n) <= Mul(h, n) && error == 0
      invariant Outside(out[..], before, oo, Mul(y, n))
      invariant StillThere(src, io, f, Mul(y, 1 + n))
      invariant RowsUnfiltered(f, out[oo..oo + Mul(h, n)], n, bw, y)
    {
      RowFits(n, y, h);
      ghost var was := out[..];
      error := UnfilterRow(out, oo, src, io, n, bw, h, y, f);
      OutsideJoin(out[..], was, before, oo, Mul(y, n), n, Mul(h, n));
      if error != 0 { return; }
      y := y + 1;
    }
  }

  lemma OutsideJoin(now: seq<byte>, was: seq<byte>, before: seq<byte>, at: nat, m: nat, n: nat, all: nat)
    requires Outside(was, before, at, m) && Outside(now, was, at + m, n) && m + n <= all
    ensures Outside(now, before, at, m + n) && Outside(now, before, at, all)
  {
  }

  lemma FilteredRow(f: seq<byte>, f2: seq<byte>, x: seq<byte>, n: nat, bw: nat, h: nat, y: nat)
    requires |f| == |f2| == Mul(h, 1 + n) && |x| == Mul(h, n) && y < h && bw > 0 && RowsFiltered(f, x, n, bw, y)
    requires Mul(y, 1 + n) + 1 + n <= |f| && f2[..Mul(y, 1 + n)] == f[..Mul(y, 1 + n)]
    requires RowFiltered(f2, x, n, bw, y)
    ensures RowsFiltered(f2, x, n, bw, y + 1)
  {
    hide Filtered, Mul;
    forall k | 0 <= k < y ensures RowFiltered(f2, x, n, bw, k) {
      RowFits(1 + n, k, y);
      assert RowFiltered(f, x, n, bw, k);
      var at, m := Mul(k, 1 + n), Mul(y, 1 + n);
      assert f2[at] == f2[..m][at] == f[..m][at];
      SliceOf(f2, 0, m, at + 1, at + 1 + n);
      SliceOf(f, 0, m, at + 1, at + 1 + n);
    }
  }

  /** The filter type and the filtered line make row y of the filtered image. */
  lemma RowWritten(now: seq<byte>, typed: seq<byte>, before: seq<byte>, oo: nat, x: seq<byte>, n: nat, bw: nat, h: nat,
                   y: nat,
                   filterType: byte, line: seq<byte>, prev: seq<byte>)
    requires bw > 0 && y < h && |x| == Mul(h, n) && filterType <= 4 && oo + Mul(h, 1 + n) <= |before|
    requires Mul(y, 1 + n) + 1 + n <= Mul(h, 1 + n) && Mul(y, n) + n <= |x|
    requires var at := oo + Mul(y, 1 + n);
      typed == before[at := filterType] && Outside(now, typed, at + 1, n)
        && Filtered(filterType, line, prev, bw, now[at + 1..at + 1 + n])
    requires line == x[Mul(y, n)..Mul(y, n) + n]
    requires if y == 0 then prev == [] else n <= Mul(y, n) && prev == x[Mul(y, n) - n..Mul(y, n)]
    requires RowsFiltered(before[oo..oo + Mul(h, 1 + n)], x, n, bw, y)
    ensures Outside(now, before, oo + Mul(y, 1 + n), 1 + n)
    ensures RowsFiltered(now[oo..oo + Mul(h, 1 + n)], x, n, bw, y + 1)
  {
    hide RowsFiltered, RowFiltered, Filtered, Mul;
    var at, size := Mul(y, 1 + n), Mul(h, 1 + n);
    var f, f2 := before[oo..oo + size], now[oo..oo + size];
    OutsideJoin(now, typed, before, oo + at, 1, n, 1 + n);
    PrefixKept(now, before, oo, at, 1 + n, size);
    SliceOf(now, oo, oo + size, at + 1, at + 1 + n);
    assert f2[at] == now[oo + at] == typed[oo + at];
    RowIsFiltered(f2, x, n, bw, h, y, filterType, line, prev);
    FilteredRow(f, f2, x, n, bw, h, y);
  }

  /** One row: the filter type, and the filtered line. */
  method FilterRow(out: array<byte>, oo: nat, src: array<byte>, io: nat, n: nat, bw: nat, h: nat, y: nat,
                   filterType: byte,
                   ghost x: seq<byte>)
    requires bw > 0 && y < h && bw <= n && out != src && filterType <= 4
    requires io + Mul(h, n) <= src.Length && x == src[io..io + Mul(h, n)]
    requires oo + Mul(h, 1 + n) <= out.Length
    requires RowsFiltered(out[oo..oo + Mul(h, 1 + n)], x, n, bw, y)
    modifies out
    ensures Outside(out[..], old(out[..]), oo + Mul(y, 1 + n), 1 + n)
    ensures RowsFiltered(out[oo..oo + Mul(h, 1 + n)], x, n, bw, y + 1)
    ensures oo + Mul(y, 1 + n) < out.Length && out[oo + Mul(y, 1 + n)] == filterType
  {
    hide RowsFiltered, RowFiltered, Filtered, Written, Mul, Row, Before, Outside;
    RowFits(n, y, h);
    RowFits(1 + n, y, h);
    ReadingAhead(oo, io, n, y);
    ghost var before := out[..];
    var outindex := oo + (1 + n) * y;
    var inindex := io + n * y;
    var prev := if y == 0 then -1 else inindex - n;
    ghost var line, prevLine := src[inindex..inindex + n], PrevLine(src, prev, n);
    assert line == x[Mul(y, n)..Mul(y, n) + n] by { SliceOf(src[..], io, io + Mul(h, n), Mul(y, n), Mul(y, n) + n); }
    assert if y == 0 then prevLine == [] else prevLine == x[Mul(y, n) - n..Mul(y, n)] by {
      if y > 0 { SliceOf(src[..], io, io + Mul(h, n), Mul(y, n) - n, Mul(y, n)); }
    }
    out[outindex] := filterType;
    ghost var typed := out[..];
    FilterScanline(out, outindex + 1, src, inindex, prev, n, bw, filterType);
    LineWritten(out, outindex + 1, typed, line, prevLine, filterType, bw);
    TypeStays(out[..], typed, outindex, n);
    RowWritten(out[..], typed, before, oo, x, n, bw, h, y, filterType, line, prevLine);
  }

  lemma TypeStays(now: seq<byte>, was: seq<byte>, at: nat, n: nat)
    requires Outside(now, was, at + 1, n) && at < |was|
    ensures |now| == |was| && now[at] == was[at]
  {
  }

  lemma LineWritten(out: array<byte>, at: nat, was: seq<byte>, line: seq<byte>, prev: seq<byte>, f: nat, bw: nat)
    requires Written(out, at, was, line, prev, f, bw)
    ensures Outside(out[..], was, at, |line|) && at + |line| <= out.Length
    ensures Filtered(f, line, prev, bw, out[at..at + |line|])
  {
    forall q: int | 0 <= q < out.Length && !(at <= q < at + |line|) ensures out[..][q] == was[q] {
      if q < at {
        assert out[..at][q] == was[..at][q];
      } else {
        assert out[at + |line|..][q - at - |line|] == was[at + |line|..][q - at - |line|];
      }
    }
  }

  lemma RowIsFiltered(f: seq<byte>, x: seq<byte>, n: nat, bw: nat, h: nat, y: nat, filterType: byte, line: seq<byte>,
                      prev: seq<byte>)
    requires bw > 0 && y < h && |f| == Mul(h, 1 + n) && |x| == Mul(h, n) && filterType <= 4
    requires Mul(y, 1 + n) + 1 + n <= |f| && Mul(y, n) + n <= |x|
    requires f[Mul(y, 1 + n)] == filterType && line == x[Mul(y, n)..Mul(y, n) + n]
    requires if y == 0 then prev == [] else n <= Mul(y, n) && prev == x[Mul(y, n) - n..Mul(y, n)]
    requires Filtered(filterType, line, prev, bw, f[Mul(y, 1 + n) + 1..Mul(y, 1 + n) + 1 + n])
    ensures RowFiltered(f, x, n, bw, y)
  {
    hide Filtered, Mul;
    RowFits(n, y, h);
  }

  /** Row k begins with this filter type. */
  ghost predicate TypeIs(f: seq<byte>, at: nat, n: nat, k: nat, filterType: byte) {
    at + Mul(k, 1 + n) < |f| && f[at + Mul(k, 1 + n)] == filterType
  }

  /** The first y rows begin with these filter types. */
  ghost predicate TypedAs(f: seq<byte>, at: nat, n: nat, y: nat, types: seq<byte>) {
    y <= |types| && forall k: nat :: k < y ==> TypeIs(f, at, n, k, types[k])
  }

  lemma TypedMore(now: seq<byte>, was: seq<byte>, at: nat, n: nat, y: nat, types: seq<byte>)
    requires TypedAs(was, at, n, y, types) && Outside(now, was, at + Mul(y, 1 + n), 1 + n) && y < |types|
    requires at + Mul(y, 1 + n) < |now| && now[at + Mul(y, 1 + n)] == types[y]
    ensures TypedAs(now, at, n, y + 1, types)
  {
    hide Mul;
    forall k: nat | k < y + 1 ensures TypeIs(now, at, n, k, types[k]) {
      if k < y { RowFits(1 + n, k, y); }
    }
  }

  /** Types before everything that is written stay as they are. */
  lemma TypesKept(now: seq<byte>, was: seq<byte>, at: nat, n: nat, y: nat, types: seq<byte>, from: nat, len: nat)
    requires TypedAs(was, at, n, y, types) && Outside(now, was, from, len) && at + Mul(y, 1 + n) <= from
    ensures TypedAs(now, at, n, y, types)
  {
    hide Mul;
    forall k: nat | k < y ensures TypeIs(now, at, n, k, types[k]) {
      RowFits(1 + n, k, y);
    }
  }

  /** Filters an image; the choice of the filter types is up to the caller. */
  method Filter(out: array<byte>, oo: nat, src: array<byte>, io: nat, n: nat, bw: nat, h: nat, types: seq<byte>)
    requires bw > 0 && (h > 0 ==> bw <= n) && out != src
    requires |types| >= h && forall y :: 0 <= y < h ==> types[y] <= 4
    requires io + Mul(h, n) <= src.Length && oo + Mul(h, 1 + n) <= out.Length
    modifies out
    ensures Outside(out[..], old(out[..]), oo, Mul(h, 1 + n))
    ensures ImageFiltered(out[oo..oo + Mul(h, 1 + n)], src[io..io + Mul(h, n)], n, bw, h)
    ensures TypedAs(out[..], oo, n, h, types)
  {
    hide RowFiltered, Filtered, Mul, TypedAs;
    NothingTyped(out[..], oo, n, types);
    MulZero(1 + n);
    ghost var x := src[io..io + Mul(h, n)];
    ghost var before := out[..];
    var y := 0;
    while y < h
      invariant 0 <= y <= h && Mul(y, 1 + n) <= Mul(h, 1 + n)
      invariant Outside(out[..], before, oo, Mul(y, 1 + n))
      invariant RowsFiltered(out[oo..oo + Mul(h, 1 + n)], x, n, bw, y) && TypedAs(out[..], oo, n, y, types)
    {
      RowFits(1 + n, y, h);
      ghost var was := out[..];
      FilterRow(out, oo, src, io, n, bw, h, y, types[y], x);
      TypedMore(out[..], was, oo, n, y, types);
      OutsideJoin(out[..], was, before, oo, Mul(y, 1 + n), 1 + n, Mul(h, 1 + n));
      y := y + 1;
    }
  }

  lemma NothingTyped(f: seq<byte>, at: nat, n: nat, types: seq<byte>)
    ensures TypedAs(f, at, n, 0, types)
  {
  }

  /** Unfiltering a filtered image, in place, gives the image back, whatever the filter types. */
  method FilterRoundTrip(image: array<byte>, n: nat, bw: nat, h: nat, types: seq<byte>)
    returns (back: array<byte>, error: nat)
    requires bw > 0 && (h > 0 ==> bw <= n) && image.Length == Mul(h, n)
    requires |types| >= h && forall y :: 0 <= y < h ==> types[y] <= 4
    ensures error == 0 && back.Length >= Mul(h, n) && back[..Mul(h, n)] == image[..]
  {
    hide Mul, ImageFiltered, ImageUnfiltered, BadType, Outside;
    back := new byte[Mul(h, 1 + n)];
    Filter(back, 0, image, 0, n, bw, h, types);
    ghost var f := back[..];
    assert back[0..0 + Mul(h, 1 + n)] == f && image[0..0 + Mul(h, n)] == image[..];
    NoInvalidType(f, image[..], n, bw, h);
    MulMore(h, n);
    error := Unfilter(back, 0, back, 0, n, bw, h);
    ImageInverts(f, image[..], n, bw, h, back[0..0 + Mul(h, n)]);
  }

  lemma NoInvalidType(f: seq<byte>, x: seq<byte>, n: nat, bw: nat, h: nat)
    requires ImageFiltered(f, x, n, bw, h)
    ensures !BadType(f, n, h)
  {
    hide Mul;
    forall y: nat | y < h ensures !BadTypeAt(f, n, y) {
      assert RowFiltered(f, x, n, bw, y);
    }
  }
}
