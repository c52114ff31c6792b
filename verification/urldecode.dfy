/** Decoding of percent-escaped paths in the web server. */
module UrlDecode {

  datatype Option<+T> = None | Some(value: T)

  /** What scanning two characters as a hexadecimal number gives; the C library decides. */
  type Hex = (char, char) -> Option<char>

  datatype Phase = Normal | FirstDigit | SecondDigit(first: char)

  /** What a decoder in this phase makes of one character. */
  function Step(hex: Hex, phase: Phase, out: seq<char>, c: char): (Phase, seq<char>) {
    match phase
    case Normal =>
      if c == '%' then (FirstDigit, out)
      else if c == '+' then (Normal, out + [' '])
      else (Normal, out + [c])
    case FirstDigit => (SecondDigit(c), out)
    case SecondDigit(first) =>
      var d := hex(first, c);
      (Normal, if d.Some? then out + [d.value] else out)
  }

  /** The output for the rest of a string, and whether it fits with a NUL after it. */
  function Scan(hex: Hex, s: seq<char>, parameter: bool, capacity: nat, phase: Phase, out: seq<char>): (seq<char>, bool)
    requires capacity >= 1
    decreases |s|
  {
    if s == [] || (s[0] == '&' && parameter) then (out, true)
    else if |out| >= capacity - 1 then (out, false)
    else
      var next := Step(hex, phase, out, s[0]);
      Scan(hex, s[1..], parameter, capacity, next.0, next.1)
  }

  /** The meaning of an escaped string. */
  function Decoded(hex: Hex, s: seq<char>): seq<char>
    decreases |s|
  {
    if s == [] then []
    else if s[0] == '%' then
      if |s| < 3 then []
      else
        var d := hex(s[1], s[2]);
        (if d.Some? then [d.value] else []) + Decoded(hex, s[3..])
    else [if s[0] == '+' then ' ' else s[0]] + Decoded(hex, s[1..])
  }

  /** A string always fits where it would fit without escapes. */
  lemma {:induction false} ScanFits(hex: Hex, s: seq<char>, parameter: bool, capacity: nat, phase: Phase,
                                    out: seq<char>)
    requires capacity >= 1 && |s| + |out| <= capacity - 1
    ensures Scan(hex, s, parameter, capacity, phase, out).1
    ensures |Scan(hex, s, parameter, capacity, phase, out).0| <= |s| + |out|
    decreases |s|
  {
    if s != [] && !(s[0] == '&' && parameter) {
      var next := Step(hex, phase, out, s[0]);
      ScanFits(hex, s[1..], parameter, capacity, next.0, next.1);
    }
  }

  /** The state machine computes the meaning. */
  lemma {:induction false} ScanDecodes(hex: Hex, s: seq<char>, capacity: nat, out: seq<char>)
    requires capacity >= 1 && |s| + |out| <= capacity - 1
    ensures Scan(hex, s, false, capacity, Normal, out) == (out + Decoded(hex, s), true)
    decreases |s|
  {
    if s == [] {
      assert out + [] == out;
    } else if s[0] == '%' {
      if |s| == 1 {
        assert s[1..] == [] && out + [] == out;
        assert Scan(hex, s, false, capacity, Normal, out) == Scan(hex, s[1..], false, capacity, FirstDigit, out)
          == (out, true);
      } else if |s| == 2 {
        assert s[1..][1..] == [] && out + [] == out;
        assert Scan(hex, s[1..], false, capacity, FirstDigit, out)
          == Scan(hex, [], false, capacity, SecondDigit(s[1]), out) == (out, true);
        assert Scan(hex, s, false, capacity, Normal, out) == Scan(hex, s[1..], false, capacity, FirstDigit, out);
      } else {
        var d := hex(s[1], s[2]);
        var next := if d.Some? then out + [d.value] else out;
        assert s[1..][1..][1..] == s[3..];
        ThreeSteps(hex, s, capacity, out);
        ScanDecodes(hex, s[3..], capacity, next);
        if d.Some? { assert (out + [d.value]) + Decoded(hex, s[3..]) == out + ([d.value] + Decoded(hex, s[3..])); }
        else { assert out + ([] + Decoded(hex, s[3..])) == out + Decoded(hex, s[3..]); }
      }
    } else {
      var c := if s[0] == '+' then ' ' else s[0];
      ScanDecodes(hex, s[1..], capacity, out + [c]);
      assert (out + [c]) + Decoded(hex, s[1..]) == out + ([c] + Decoded(hex, s[1..]));
    }
  }

  lemma ThreeSteps(hex: Hex, s: seq<char>, capacity: nat, out: seq<char>)
    requires |s| >= 3 && |out| < capacity - 1 && s[0] == '%'
    ensures var d := hex(s[1], s[2]);
      Scan(hex, s, false, capacity, Normal, out)
      == Scan(hex, s[3..], false, capacity, Normal, if d.Some? then out + [d.value] else out)
  {
    assert Scan(hex, s, false, capacity, Normal, out) == Scan(hex, s[1..], false, capacity, FirstDigit, out);
    assert Scan(hex, s[1..], false, capacity, FirstDigit, out)
      == Scan(hex, s[1..][1..], false, capacity, SecondDigit(s[1]), out);
    assert s[1..][1..] == s[2..] && s[2..][1..] == s[3..];
  }

  // ---------- texts without room enough, and parts of texts

  /** Where there is not enough room, the buffer is filled with what comes first. */
  lemma {:induction false} ScanFills(hex: Hex, s: seq<char>, capacity: nat, out: seq<char>)
    requires |out| <= capacity - 1
    ensures var r, all := Scan(hex, s, false, capacity, Normal, out), out + Decoded(hex, s);
      r.0 <= all && (r.1 ==> r.0 == all) && (!r.1 ==> |r.0| == capacity - 1)
    decreases |s|
  {
    if s == [] {
      assert out + [] == out;
    } else if |out| == capacity - 1 {
      assert Scan(hex, s, false, capacity, Normal, out) == (out, false);
    } else if s[0] == '%' && |s| < 3 {
      CutEscape(hex, s, capacity, out);
      assert out + [] == out;
    } else if s[0] == '%' {
      var d := hex(s[1], s[2]);
      ThreeSteps(hex, s, capacity, out);
      EscapeAppends(hex, s, out);
      hide Scan, Decoded, Step;
      ScanFills(hex, s[3..], capacity, if d.Some? then out + [d.value] else out);
    } else {
      CharAppends(hex, s, capacity, out);
      hide Scan, Decoded, Step;
      ScanFills(hex, s[1..], capacity, out + [if s[0] == '+' then ' ' else s[0]]);
    }
  }

  lemma EscapeAppends(hex: Hex, s: seq<char>, out: seq<char>)
    requires |s| >= 3 && s[0] == '%'
    ensures var d := hex(s[1], s[2]);
      out + Decoded(hex, s) == (if d.Some? then out + [d.value] else out) + Decoded(hex, s[3..])
  {
    var d, rest := hex(s[1], s[2]), Decoded(hex, s[3..]);
    if d.Some? { assert (out + [d.value]) + rest == out + ([d.value] + rest); } else { assert [] + rest == rest; }
  }

  lemma CharAppends(hex: Hex, s: seq<char>, capacity: nat, out: seq<char>)
    requires s != [] && s[0] != '%' && |out| < capacity - 1
    ensures var c := if s[0] == '+' then ' ' else s[0];
      && Scan(hex, s, false, capacity, Normal, out) == Scan(hex, s[1..], false, capacity, Normal, out + [c])
      && out + Decoded(hex, s) == (out + [c]) + Decoded(hex, s[1..])
  {
    var c, rest := if s[0] == '+' then ' ' else s[0], Decoded(hex, s[1..]);
    assert (out + [c]) + rest == out + ([c] + rest);
  }

  /** An escape that the end of the text cuts off adds nothing. */
  lemma CutEscape(hex: Hex, s: seq<char>, capacity: nat, out: seq<char>)
    requires s != [] && |s| < 3 && s[0] == '%' && |out| < capacity - 1
    ensures Scan(hex, s, false, capacity, Normal, out) == (out, true)
  {
    if |s| == 1 {
      assert s[1..] == [];
      assert Scan(hex, s, false, capacity, Normal, out) == Scan(hex, [], false, capacity, FirstDigit, out);
    } else {
      assert s[1..][1..] == [];
      assert Scan(hex, s[1..], false, capacity, FirstDigit, out)
        == Scan(hex, [], false, capacity, SecondDigit(s[1]), out);
      assert Scan(hex, s, false, capacity, Normal, out) == Scan(hex, s[1..], false, capacity, FirstDigit, out);
    }
  }

  /** A parameter ends before the first &, even inside an escape. */
  lemma {:induction false} ParameterEnds(hex: Hex, s: seq<char>, n: nat, capacity: nat, phase: Phase, out: seq<char>)
    requires capacity >= 1 && n <= |s| && '&' !in s[..n] && (n < |s| ==> s[n] == '&')
    ensures Scan(hex, s, true, capacity, phase, out) == Scan(hex, s[..n], false, capacity, phase, out)
    decreases n
  {
    if n > 0 && |out| < capacity - 1 {
      var next := Step(hex, phase, out, s[0]);
      assert s[..n][0] == s[0] && s[..n][1..] == s[1..][..n - 1];
      ParameterEnds(hex, s[1..], n - 1, capacity, next.0, next.1);
    } else if n > 0 {
      assert s[..n][0] == s[0];
    }
  }

  // ---------- texts, escaped

  /** How a character can be written: as itself, a space as a plus, or as an escape of two digits. */
  datatype Piece = Plain(c: char) | Plus | Escape(a: char, b: char)

  function Written(ps: seq<Piece>): seq<char> {
    if ps == [] then []
    else
      (match ps[0]
       case Plain(c) => [c]
       case Plus => ['+']
       case Escape(a, b) => ['%', a, b]) + Written(ps[1..])
  }

  /** Two characters that are not digits stand for nothing. */
  function Meant(hex: Hex, ps: seq<Piece>): seq<char> {
    if ps == [] then []
    else
      (match ps[0]
       case Plain(c) => [c]
       case Plus => [' ']
       case Escape(a, b) => if hex(a, b).Some? then [hex(a, b).value] else []) + Meant(hex, ps[1..])
  }

  lemma {:induction false} WrittenDecodes(hex: Hex, ps: seq<Piece>)
    requires forall i :: 0 <= i < |ps| && ps[i].Plain? ==> ps[i].c != '%' && ps[i].c != '+'
    ensures Decoded(hex, Written(ps)) == Meant(hex, ps)
    decreases ps
  {
    if ps != [] {
      WrittenDecodes(hex, ps[1..]);
      var rest := Written(ps[1..]);
      match ps[0]
      case Plain(c) => DecodedPlain(hex, c, rest);
      case Plus => DecodedPlain(hex, '+', rest);
      case Escape(a, b) => DecodedEscape(hex, a, b, rest);
    }
  }

  lemma DecodedPlain(hex: Hex, c: char, rest: seq<char>)
    requires c != '%'
    ensures Decoded(hex, [c] + rest) == [if c == '+' then ' ' else c] + Decoded(hex, rest)
  {
    assert ([c] + rest)[1..] == rest;
  }

  lemma DecodedEscape(hex: Hex, a: char, b: char, rest: seq<char>)
    ensures Decoded(hex, ['%', a, b] + rest)
      == (if hex(a, b).Some? then [hex(a, b).value] else []) + Decoded(hex, rest)
  {
    assert (['%', a, b] + rest)[3..] == rest;
  }

  // ---------- C strings

  /** The characters before the first NUL. */
  function CString(a: seq<char>): (s: seq<char>)
    ensures |s| <= |a| && s == a[..|s|] && (|s| < |a| ==> a[|s|] == '\0')
    ensures forall k :: 0 <= k < |s| ==> s[k] != '\0'
  {
    if a == [] || a[0] == '\0' then [] else [a[0]] + CString(a[1..])
  }

  ghost predicate Terminated(a: seq<char>) {
    |CString(a)| < |a|
  }

  /** A string that ends with a NUL in the last place at the latest. */
  lemma {:induction false} EndsSomewhere(a: seq<char>)
    requires a != [] && a[|a| - 1] == '\0'
    ensures Terminated(a)
    decreases |a|
  {
    if a[0] != '\0' { EndsSomewhere(a[1..]); }
  }

  /** Appends one character to the output. */
  method PutChar(decoded: array<char>, at: nat, c: char, ghost out: seq<char>, ghost before: seq<char>)
    requires at == |out| < decoded.Length == |before| && decoded[..] == out + before[|out|..]
    modifies decoded
    ensures decoded[..] == (out + [c]) + before[|out| + 1..]
  {
    decoded[at] := c;
    Appended(decoded[..], out, before, c);
  }

  /** What the loop does with one character, and when it ends. */
  lemma ScanOn(hex: Hex, s: seq<char>, parameter: bool, capacity: nat, phase: Phase, out: seq<char>)
    requires capacity >= 1
    ensures s == [] || (s[0] == '&' && parameter) ==> Scan(hex, s, parameter, capacity, phase, out) == (out, true)
    ensures s != [] && !(s[0] == '&' && parameter) ==>
      var next := Step(hex, phase, out, s[0]);
      Scan(hex, s, parameter, capacity, phase, out)
        == if |out| >= capacity - 1 then (out, false) else Scan(hex, s[1..], parameter, capacity, next.0, next.1)
  {
  }

  /** URLDecode. */
  method URLDecode(encoded: array<char>, decoded: array<char>, parameter: bool, hex: Hex)
    returns (success: bool, decodedLength: nat)
    requires encoded != decoded && Terminated(encoded[..]) && decoded.Length >= 1
    modifies decoded
    ensures var r := Scan(hex, CString(encoded[..]), parameter, decoded.Length, Normal, []);
      && success == r.1 && decodedLength == |r.0| < decoded.Length
      && decoded[..] == r.0 + ['\0'] + old(decoded[..])[|r.0| + 1..]
  {
    hide CString, Decoded, Scan, Step;
    ghost var all := CString(encoded[..]);
    ghost var before := decoded[..];
    ghost var goal := Scan(hex, all, parameter, decoded.Length, Normal, []);
    ghost var out: seq<char> := [];
    var i, deci := 0, 0;
    var phase := Normal;
    success := true;
    assert all[0..] == all;
    while true
      invariant 0 <= i <= |all| && deci == |out| <= decoded.Length - 1 && success
      invariant goal == Scan(hex, all[i..], parameter, decoded.Length, phase, out)
      invariant decoded[..] == out + before[|out|..]
      decreases |all| - i
    {
      ScanOn(hex, all[i..], parameter, decoded.Length, phase, out);
      if encoded[i] == '\0' { break; }
      assert all[i..][0] == encoded[i];
      if encoded[i] == '&' && parameter { break; }
      if deci >= decoded.Length - 1 {
        success := false;
        break;
      }
      assert all[i..][1..] == all[i + 1..];
      phase, deci, out := DecodeChar(decoded, deci, phase, encoded[i], hex, out, before);
      i := i + 1;
    }
    PutChar(decoded, deci, '\0', out, before);
    decodedLength := deci;
  }

  /** One character of the text, in the state that the ones before it have led to. */
  method DecodeChar(decoded: array<char>, at: nat, before: Phase, c: char, hex: Hex, ghost out: seq<char>,
                    ghost was: seq<char>)
    returns (phase: Phase, deci: nat, ghost now: seq<char>)
    requires at == |out| < decoded.Length == |was| && decoded[..] == out + was[|out|..]
    modifies decoded
    ensures (phase, now) == Step(hex, before, out, c)
    ensures deci == |now| <= at + 1 && decoded[..] == now + was[|now|..]
  {
    phase, deci, now := before, at, Step(hex, before, out, c).1;
    match before {
      case Normal =>
        if c == '%' {
          phase := FirstDigit;
        } else {
          PutChar(decoded, at, if c == '+' then ' ' else c, out, was);
          deci := at + 1;
        }
      case FirstDigit =>
        phase := SecondDigit(c);
      case SecondDigit(first) =>
        var d := hex(first, c);
        if d.Some? {
          PutChar(decoded, at, d.value, out, was);
          deci := at + 1;
        }
        phase := Normal;
    }
  }

  lemma Appended(now: seq<char>, out: seq<char>, before: seq<char>, c: char)
    requires |out| < |before| && now == (out + before[|out|..])[|out| := c]
    ensures now == (out + [c]) + before[|out| + 1..]
  {
  }
}
