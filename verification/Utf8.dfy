/**
 What a string becomes when it is put into JSON and read back: every byte that is not part of a valid UTF-8 encoding is
 replaced by U+FFFD. Also how many bytes it takes up in the JSON text.
 */
module Utf8 {
  import opened Bytes

  predicate Between(b: Byte, lo: int, hi: int) { lo <= b <= hi }

  /** Second bytes a first byte admits: no overlong forms, no surrogates, nothing above U+10FFFF. */
  predicate Second(first: Byte, b: Byte) {
    if first == 0xE0 then Between(b, 0xA0, 0xBF)
    else if first == 0xED then Between(b, 0x80, 0x9F)
    else if first == 0xF0 then Between(b, 0x90, 0xBF)
    else if first == 0xF4 then Between(b, 0x80, 0x8F)
    else Between(b, 0x80, 0xBF)
  }

  /** Length of the valid encoding the string begins with, 0 when there is none. */
  function RuneLength(s: seq<Byte>): (n: nat)
    ensures n <= |s|
  {
    if s == [] then 0
    else if s[0] < 0x80 then 1
    else if Between(s[0], 0xC2, 0xDF) then (if |s| >= 2 && Second(s[0], s[1]) then 2 else 0)
    else if Between(s[0], 0xE0, 0xEF) then
      (if |s| >= 3 && Second(s[0], s[1]) && Between(s[2], 0x80, 0xBF) then 3 else 0)
    else if Between(s[0], 0xF0, 0xF4) then
      (if |s| >= 4 && Second(s[0], s[1]) && Between(s[2], 0x80, 0xBF) && Between(s[3], 0x80, 0xBF) then 4 else 0)
    else 0
  }

  predicate Valid(s: seq<Byte>) {
    s == [] || (RuneLength(s) > 0 && Valid(s[RuneLength(s)..]))
  }

  /** U+FFFD */
  const REPLACEMENT: seq<Byte> := [0xEF, 0xBF, 0xBD]

  /** The string as it comes back from JSON. */
  function Sanitize(s: seq<Byte>): seq<Byte> {
    if s == [] then []
    else
      var n := RuneLength(s);
      if n == 0 then REPLACEMENT + Sanitize(s[1..]) else s[..n] + Sanitize(s[n..])
  }

  /** A valid encoding is recognised whatever follows it. */
  lemma RuneAlone(s: seq<Byte>, t: seq<Byte>)
    requires RuneLength(s) > 0
    ensures RuneLength(s[..RuneLength(s)] + t) == RuneLength(s)
  {
    var r := s[..RuneLength(s)] + t;
    assert forall i :: 0 <= i < RuneLength(s) ==> r[i] == s[i];
  }

  lemma ValidMore(rune: seq<Byte>, t: seq<Byte>)
    requires rune != [] && RuneLength(rune) == |rune| && Valid(t)
    ensures Valid(rune + t)
  {
    RuneAlone(rune, t);
    assert rune[..|rune|] == rune && (rune + t)[|rune|..] == t;
  }

  /** What comes back is always valid. */
  lemma {:induction false} SanitizeIsValid(s: seq<Byte>)
    ensures Valid(Sanitize(s))
    decreases |s|
  {
    if s != [] {
      var n := RuneLength(s);
      if n == 0 {
        SanitizeIsValid(s[1..]);
        ValidMore(REPLACEMENT, Sanitize(s[1..]));
      } else {
        SanitizeIsValid(s[n..]);
        RuneAlone(s, []);
        assert s[..n] + [] == s[..n];
        ValidMore(s[..n], Sanitize(s[n..]));
      }
    }
  }

  lemma {:induction false} ValidIsKept(s: seq<Byte>)
    requires Valid(s)
    ensures Sanitize(s) == s
    decreases |s|
  {
    if s != [] {
      ValidIsKept(s[RuneLength(s)..]);
    }
  }

  /** A string comes back unchanged if and only if it is valid UTF-8. */
  lemma KeptIffValid(s: seq<Byte>)
    ensures Sanitize(s) == s <==> Valid(s)
  {
    if Valid(s) {
      ValidIsKept(s);
    }
    SanitizeIsValid(s);
  }

  /** Being put into JSON once more changes nothing further. */
  lemma SanitizeTwice(s: seq<Byte>)
    ensures Sanitize(Sanitize(s)) == Sanitize(s)
  {
    SanitizeIsValid(s);
    ValidIsKept(Sanitize(s));
  }

  /** Bytes one leading character takes up in the JSON text. */
  function EscapedRune(s: seq<Byte>): nat
    requires s != []
  {
    var n, b := RuneLength(s), s[0];
    if n == 0 then 6
    else if n == 1 then
      (if b == 0x22 || b == 0x5C || b == 0x0A || b == 0x0D || b == 0x09 then 2
       else if b < 0x20 || b == 0x3C || b == 0x3E || b == 0x26 then 6
       else 1)
    else if n == 3 && s[0] == 0xE2 && s[1] == 0x80 && (s[2] == 0xA8 || s[2] == 0xA9) then 6
    else n
  }

  /** Bytes the whole string takes up between its quotes. */
  function Escaped(s: seq<Byte>): nat {
    if s == [] then 0
    else
      var n := RuneLength(s);
      EscapedRune(s) + Escaped(if n == 0 then s[1..] else s[n..])
  }

  /** A run of less-than signs grows sixfold. */
  lemma {:induction false} AnglesGrow(s: seq<Byte>)
    requires forall i :: 0 <= i < |s| ==> s[i] == 0x3C
    ensures Escaped(s) == 6 * |s|
    decreases |s|
  {
    if s != [] {
      AnglesGrow(s[1..]);
    }
  }

  // ---- What the valid strings are ----

  /** Unicode scalar values: code points other than surrogates. */
  type Scalar = c: int | 0 <= c < 0xD800 || 0xE000 <= c <= 0x10FFFF

  /** The UTF-8 form of one, by section 3 of RFC 3629. */
  function EncodeRune(c: Scalar): seq<Byte> {
    if c < 0x80 then [c]
    else if c < 0x800 then [0xC0 + c / 64, 0x80 + c % 64]
    else if c < 0x10000 then [0xE0 + c / 4096, 0x80 + c / 64 % 64, 0x80 + c % 64]
    else [0xF0 + c / 262144, 0x80 + c / 4096 % 64, 0x80 + c / 64 % 64, 0x80 + c % 64]
  }

  function EncodeAll(cs: seq<Scalar>): seq<Byte> {
    if cs == [] then [] else EncodeRune(cs[0]) + EncodeAll(cs[1..])
  }

  lemma EncodedIsRune(c: Scalar, t: seq<Byte>)
    ensures RuneLength(EncodeRune(c) + t) == |EncodeRune(c)|
  {
  }

  lemma TwoBytes(a: Byte, b: Byte) returns (c: Scalar)
    requires Between(a, 0xC2, 0xDF) && Second(a, b)
    ensures EncodeRune(c) == [a, b]
  {
    c := Low(a, 0xC0) * 64 + Low(b, 0x80);
  }

  lemma ThreeBytes(a: Byte, b: Byte, d: Byte) returns (c: Scalar)
    requires Between(a, 0xE0, 0xEF) && Second(a, b) && Between(d, 0x80, 0xBF)
    ensures EncodeRune(c) == [a, b, d]
  {
    var x, y, z := Low(a, 0xE0), Low(b, 0x80), Low(d, 0x80);
    c := x * 4096 + y * 64 + z;
    assert c / 4096 == x && c / 64 == x * 64 + y && c % 64 == z;
  }

  lemma FourBytes(a: Byte, b: Byte, d: Byte, e: Byte) returns (c: Scalar)
    requires Between(a, 0xF0, 0xF4) && Second(a, b) && Between(d, 0x80, 0xBF) && Between(e, 0x80, 0xBF)
    ensures EncodeRune(c) == [a, b, d, e]
  {
    var w, x, y, z := Low(a, 0xF0), Low(b, 0x80), Low(d, 0x80), Low(e, 0x80);
    c := w * 262144 + x * 4096 + y * 64 + z;
    assert c / 262144 == w && c / 4096 == w * 64 + x && c / 64 == w * 4096 + x * 64 + y && c % 64 == z;
  }

  /** The payload of a byte with the given marker bits. */
  function Low(b: Byte, mark: int): int { b - mark }

  /** Every encoding the string can begin with is that of a scalar value. */
  lemma RuneIsEncoded(s: seq<Byte>) returns (c: Scalar)
    requires RuneLength(s) > 0
    ensures s[..RuneLength(s)] == EncodeRune(c)
  {
    var n, first: int := RuneLength(s), s[0];
    if n == 1 {
      c := first;
    } else if n == 2 {
      c := TwoBytes(first, s[1]);
    } else if n == 3 {
      c := ThreeBytes(first, s[1], s[2]);
    } else {
      c := FourBytes(first, s[1], s[2], s[3]);
    }
    assert s[..n] == EncodeRune(c);
  }

  lemma {:induction false} ValidDecodes(s: seq<Byte>) returns (cs: seq<Scalar>)
    requires Valid(s)
    ensures EncodeAll(cs) == s
    decreases |s|
  {
    if s == [] {
      cs := [];
    } else {
      var n := RuneLength(s);
      var c := RuneIsEncoded(s);
      var rest := ValidDecodes(s[n..]);
      cs := [c] + rest;
      assert cs[1..] == rest && s[..n] + s[n..] == s;
    }
  }

  lemma {:induction false} EncodedIsValid(cs: seq<Scalar>)
    ensures Valid(EncodeAll(cs))
  {
    if cs != [] {
      EncodedIsValid(cs[1..]);
      EncodedIsRune(cs[0], []);
      assert EncodeRune(cs[0]) + [] == EncodeRune(cs[0]);
      ValidMore(EncodeRune(cs[0]), EncodeAll(cs[1..]));
    }
  }

  /** The valid strings are exactly the encodings of sequences of scalar values. */
  lemma ValidIffEncoded(s: seq<Byte>)
    ensures Valid(s) <==> exists cs :: EncodeAll(cs) == s
  {
    if Valid(s) {
      var cs := ValidDecodes(s);
    }
    if cs :| EncodeAll(cs) == s {
      EncodedIsValid(cs);
    }
  }
}
