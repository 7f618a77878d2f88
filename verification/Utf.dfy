/** UTF-8 (section 3 of RFC 3629) and UTF-16 (section 2.2 of RFC 2781), written from those texts. */
module Utf {
  import opened Wrappers

  predicate IsHighSurrogate(u: nat) {
    0xD800 <= u <= 0xDBFF
  }

  predicate IsLowSurrogate(u: nat) {
    0xDC00 <= u <= 0xDFFF
  }

  /** A Unicode scalar value. */
  predicate IsScalar(cp: nat) {
    cp <= 0x10FFFF && !(0xD800 <= cp <= 0xDFFF)
  }

  predicate AllScalars(cps: seq<nat>) {
    forall i :: 0 <= i < |cps| ==> IsScalar(cps[i])
  }

  function Pair(high: nat, low: nat): (cp: nat)
    requires IsHighSurrogate(high) && IsLowSurrogate(low)
    ensures 0x10000 <= cp <= 0x10FFFF
  {
    0x10000 + (high - 0xD800) * 0x400 + (low - 0xDC00)
  }

  /** The code points of a sequence of 16-bit units; None when a surrogate stands alone. */
  function Utf16Decode(units: seq<nat>): Option<seq<nat>> {
    if units == [] then Some([])
    else if IsHighSurrogate(units[0]) then
      if |units| > 1 && IsLowSurrogate(units[1]) then
        match Utf16Decode(units[2..])
        case None => None
        case Some(rest) => Some([Pair(units[0], units[1])] + rest)
      else None
    else if IsLowSurrogate(units[0]) then None
    else
      match Utf16Decode(units[1..])
      case None => None
      case Some(rest) => Some([units[0]] + rest)
  }

  /** The 16-bit units of a sequence of code points. */
  function Utf16Encode(cps: seq<nat>): (units: seq<nat>)
    requires AllScalars(cps)
  {
    if cps == [] then []
    else
      assert IsScalar(cps[0]);
      Utf16Units(cps[0]) + Utf16Encode(cps[1..])
  }

  /** One unit, or from U+10000 on a high surrogate with the upper ten bits and a low one with the lower ten. */
  function Utf16Units(cp: nat): (units: seq<nat>)
    requires IsScalar(cp)
  {
    if cp < 0x10000 then [cp] else [0xD800 + (cp - 0x10000) / 1024, 0xDC00 + (cp - 0x10000) % 1024]
  }

  /** Decoding undoes encoding, for every sequence of scalar values. */
  lemma {:induction false} Utf16RoundTrip(cps: seq<nat>)
    requires AllScalars(cps)
    ensures Utf16Decode(Utf16Encode(cps)) == Some(cps)
  {
    if cps != [] {
      var u, rest := Utf16Units(cps[0]), Utf16Encode(cps[1..]);
      Utf16RoundTrip(cps[1..]);
      assert IsScalar(cps[0]);
      assert cps == [cps[0]] + cps[1..];
      assert (u + rest)[|u|..] == rest;
    }
  }

  /** And encoding undoes decoding: units decode exactly when they are the form of some code points. */
  lemma {:induction false} Utf16Exact(units: seq<nat>)
    requires forall i :: 0 <= i < |units| ==> units[i] < 0x10000
    ensures Utf16Decode(units).Some? ==>
              AllScalars(Utf16Decode(units).value) && Utf16Encode(Utf16Decode(units).value) == units
    decreases |units|
  {
    hide Utf16Units, Pair, IsScalar;
    Utf16DecodeScalars(units);
    if units != [] && Utf16Decode(units).Some? {
      if IsHighSurrogate(units[0]) {
        PairUnits(units[0], units[1]);
        Utf16Exact(units[2..]);
        assert units == [units[0], units[1]] + units[2..];
        EncodeCons(Pair(units[0], units[1]), Utf16Decode(units[2..]).value);
      } else {
        OneUnit(units[0]);
        Utf16Exact(units[1..]);
        assert units == [units[0]] + units[1..];
        EncodeCons(units[0], Utf16Decode(units[1..]).value);
      }
    }
  }

  lemma PairUnits(high: nat, low: nat)
    requires IsHighSurrogate(high) && IsLowSurrogate(low)
    ensures IsScalar(Pair(high, low)) && Utf16Units(Pair(high, low)) == [high, low]
  {
  }

  lemma OneUnit(unit: nat)
    requires unit < 0x10000 && !IsHighSurrogate(unit) && !IsLowSurrogate(unit)
    ensures IsScalar(unit) && Utf16Units(unit) == [unit]
  {
  }

  lemma EncodeCons(cp: nat, rest: seq<nat>)
    requires IsScalar(cp) && AllScalars(rest)
    ensures AllScalars([cp] + rest) && Utf16Encode([cp] + rest) == Utf16Units(cp) + Utf16Encode(rest)
  {
    hide Utf16Units, IsScalar;
    assert ([cp] + rest)[1..] == rest;
  }

  function Continuation(bits: nat): char {
    (0x80 + bits % 0x40) as char
  }

  /** The one to four bytes that encode a code point. */
  function Utf8Bytes(cp: nat): (s: string)
    requires cp <= 0x10FFFF
    ensures 1 <= |s| <= 4
    ensures cp < 0x10000 ==> |s| <= 3
  {
    if cp < 0x80 then [cp as char]
    else if cp < 0x800 then [(0xC0 + cp / 0x40) as char, Continuation(cp)]
    else if cp < 0x10000 then [(0xE0 + cp / 0x1000) as char, Continuation(cp / 0x40), Continuation(cp)]
    else [(0xF0 + cp / 0x40000) as char, Continuation(cp / 0x1000), Continuation(cp / 0x40), Continuation(cp)]
  }

  function Utf8Encode(cps: seq<nat>): string
    requires AllScalars(cps)
  {
    if cps == [] then [] else assert IsScalar(cps[0]); Utf8Bytes(cps[0]) + Utf8Encode(cps[1..])
  }

  predicate IsContinuation(c: char) {
    0x80 <= c as int < 0xC0
  }

  /** How many bytes the sequence that starts with `c` has; 0 when `c` cannot start one. */
  function SequenceLength(c: char): (n: nat)
    ensures n <= 4
  {
    var b := c as int;
    if b < 0x80 then 1
    else if 0xC0 <= b < 0xE0 then 2
    else if 0xE0 <= b < 0xF0 then 3
    else if 0xF0 <= b < 0xF8 then 4
    else 0
  }

  function Bits(c: char): nat
    requires IsContinuation(c)
  {
    c as int - 0x80
  }

  /** The code point of one byte sequence of the right length. */
  function Utf8Point(s: string): (cp: Option<nat>)
    requires s != [] && |s| == SequenceLength(s[0])
  {
    if forall i :: 1 <= i < |s| ==> IsContinuation(s[i]) then
      var b := s[0] as int;
      var cp :=
        if |s| == 1 then b
        else if |s| == 2 then (b - 0xC0) * 0x40 + Bits(s[1])
        else if |s| == 3 then (b - 0xE0) * 0x1000 + Bits(s[1]) * 0x40 + Bits(s[2])
        else (b - 0xF0) * 0x40000 + Bits(s[1]) * 0x1000 + Bits(s[2]) * 0x40 + Bits(s[3]);
      var shortest := if |s| == 1 then 0 else if |s| == 2 then 0x80 else if |s| == 3 then 0x800 else 0x10000;
      if shortest <= cp && IsScalar(cp) then Some(cp) else None
    else None
  }

  /** Decoding a byte string; None for anything that is not well-formed UTF-8. */
  function Utf8Decode(s: string): Option<seq<nat>>
    decreases |s|
  {
    if s == [] then Some([])
    else
      var n := SequenceLength(s[0]);
      if n == 0 || n > |s| then None
      else
        match Utf8Point(s[..n])
        case None => None
        case Some(cp) =>
          match Utf8Decode(s[n..])
          case None => None
          case Some(rest) => Some([cp] + rest)
  }

  lemma Utf8PointInverse(cp: nat)
    requires IsScalar(cp)
    ensures SequenceLength(Utf8Bytes(cp)[0]) == |Utf8Bytes(cp)|
    ensures Utf8Point(Utf8Bytes(cp)) == Some(cp)
  {
    assert cp / 0x1000 == cp / 0x40 / 0x40;
    assert cp / 0x40000 == cp / 0x1000 / 0x40;
  }

  /** Decoding undoes encoding, for every sequence of scalar values. */
  lemma {:induction false} Utf8RoundTrip(cps: seq<nat>)
    requires AllScalars(cps)
    ensures Utf8Decode(Utf8Encode(cps)) == Some(cps)
  {
    if cps != [] {
      var b := Utf8Bytes(cps[0]);
      var rest := Utf8Encode(cps[1..]);
      Utf8PointInverse(cps[0]);
      Utf8RoundTrip(cps[1..]);
      assert (b + rest)[..|b|] == b;
      assert (b + rest)[|b|..] == rest;
      assert cps == [cps[0]] + cps[1..];
    }
  }

  /** Decoding 16-bit units yields scalar values only. */
  lemma {:induction false} Utf16DecodeScalars(units: seq<nat>)
    requires forall i :: 0 <= i < |units| ==> units[i] < 0x10000
    ensures Utf16Decode(units).Some? ==> AllScalars(Utf16Decode(units).value)
  {
    if units != [] {
      Utf16DecodeScalars(units[1..]);
      if |units| > 1 {
        Utf16DecodeScalars(units[2..]);
      }
    }
  }
}
