/** `\uXXXX` escapes: what the decoder writes is the UTF-8 form of what the UTF-16 units mean. */
module JsonUnicode {
  import opened JsonText
  import opened JsonRoundTrip
  import opened Utf
  import opened Wrappers

  /** The four hexadecimal digits of one unit, in either case. */
  predicate IsHex4(h: string) {
    |h| == 4 && forall k :: 0 <= k < 4 ==> IsHexDigit(h[k])
  }

  const LOWER_DIGITS: string := "0123456789abcdef"
  const UPPER_DIGITS: string := "0123456789ABCDEF"

  predicate IsNumeral(c: char, d: nat)
    requires d < 16
  {
    c == LOWER_DIGITS[d] || c == UPPER_DIGITS[d]
  }

  /** `h` is a numeral of `n` with four hexadecimal digits, the most significant one first, each in either case. */
  predicate Spells(h: string, n: nat) {
    && |h| == 4 && n < 0x10000
    && IsNumeral(h[0], n / 4096) && IsNumeral(h[1], n / 256 % 16) && IsNumeral(h[2], n / 16 % 16) && IsNumeral(h[3], n % 16)
  }

  lemma NumeralValue(c: char, d: nat)
    requires d < 16 && IsNumeral(c, d)
    ensures IsHexDigit(c) && HexValue(c) == d
  {
  }

  lemma ValueNumeral(c: char)
    requires IsHexDigit(c)
    ensures IsNumeral(c, HexValue(c))
  {
  }

  /** A numeral is read as the number it spells. */
  lemma HexReads(h: string, n: nat)
    requires Spells(h, n)
    ensures IsHex4(h) && ParseHex4(h) == n
  {
    hide IsHexDigit, HexValue, IsNumeral;
    FourNibbles(n);
    NumeralValue(h[0], n / 4096);
    NumeralValue(h[1], n / 256 % 16);
    NumeralValue(h[2], n / 16 % 16);
    NumeralValue(h[3], n % 16);
  }

  lemma FourNibbles(n: nat)
    requires n < 0x10000
    ensures n / 4096 < 16 && n == ((n / 4096 * 16 + n / 256 % 16) * 16 + n / 16 % 16) * 16 + n % 16
  {
    assert n / 16 / 16 == n / 256 && n / 256 / 16 == n / 4096;
  }

  /** Every string of four hexadecimal digits spells the number that is read. */
  lemma HexSpells(h: string)
    requires IsHex4(h)
    ensures Spells(h, ParseHex4(h))
  {
    hide IsHexDigit, HexValue, IsNumeral;
    ValueNumeral(h[0]);
    ValueNumeral(h[1]);
    ValueNumeral(h[2]);
    ValueNumeral(h[3]);
    Nibbles(HexValue(h[0]), HexValue(h[1]), HexValue(h[2]), HexValue(h[3]));
  }

  lemma Nibbles(a: nat, b: nat, c: nat, d: nat)
    requires a < 16 && b < 16 && c < 16 && d < 16
    ensures var n := ((a * 16 + b) * 16 + c) * 16 + d;
            n / 4096 == a && n / 256 % 16 == b && n / 16 % 16 == c && n % 16 == d
  {
  }

  predicate AllHex4(hexes: seq<string>) {
    forall i :: 0 <= i < |hexes| ==> IsHex4(hexes[i])
  }

  function Units(hexes: seq<string>): (units: seq<nat>)
    requires AllHex4(hexes)
    ensures |units| == |hexes| && forall i :: 0 <= i < |units| ==> units[i] < 0x10000
  {
    if hexes == [] then []
    else
      assert IsHex4(hexes[0]);
      [ParseHex4(hexes[0])] + Units(hexes[1..])
  }

  function UnitText(hexes: seq<string>): (t: string)
    requires AllHex4(hexes)
    ensures |t| == 6 * |hexes|
  {
    if hexes == [] then "" else assert IsHex4(hexes[0]); ("\\u" + hexes[0]) + UnitText(hexes[1..])
  }

  lemma UnitAt(hexes: seq<string>, c: string, i: nat)
    requires AllHex4(hexes) && hexes != [] && StartsWith(c, i, UnitText(hexes))
    ensures i + 6 * |hexes| <= |c| && c[i] == '\\' && c[i + 1] == 'u' && c[i + 2..i + 6] == hexes[0]
    ensures StartsWith(c, i + 6, UnitText(hexes[1..]))
  {
    hide StartsWith, UnitText, IsHexDigit;
    var h := hexes[0];
    assert IsHex4(h);
    FirstUnit(hexes);
    UnitChars(h, UnitText(hexes[1..]), c, i);
  }

  lemma FirstUnit(hexes: seq<string>)
    requires AllHex4(hexes) && hexes != []
    ensures UnitText(hexes) == ("\\u" + hexes[0]) + UnitText(hexes[1..])
  {
  }

  lemma UnitChars(h: string, rest: string, c: string, i: nat)
    requires |h| == 4 && StartsWith(c, i, ("\\u" + h) + rest)
    ensures i + 6 + |rest| <= |c| && c[i] == '\\' && c[i + 1] == 'u' && c[i + 2..i + 6] == h
    ensures StartsWith(c, i + 6, rest)
  {
    Split(c, i, "\\u" + h, rest);
    Split(c, i, "\\u", h);
    CharsOf(c, i, "\\u");
  }

  lemma TwoUnitsAt(hexes: seq<string>, c: string, i: nat)
    requires AllHex4(hexes) && |hexes| > 1 && StartsWith(c, i, UnitText(hexes))
    ensures i + 6 * |hexes| <= |c| && c[i + 6] == '\\' && c[i + 7] == 'u' && c[i + 8..i + 12] == hexes[1]
    ensures StartsWith(c, i + 12, UnitText(hexes[2..]))
  {
    hide StartsWith, UnitText, IsHexDigit;
    UnitAt(hexes, c, i);
    UnitAt(hexes[1..], c, i + 6);
    assert hexes[1..][1..] == hexes[2..];
  }

  lemma UnitsTail(hexes: seq<string>, k: nat)
    requires AllHex4(hexes) && k <= |hexes| && k <= 2
    ensures Units(hexes[k..]) == Units(hexes)[k..]
  {
    hide IsHex4, ParseHex4;
    assert hexes[0..] == hexes;
    if k == 2 {
      assert hexes[1..][1..] == hexes[2..];
      assert Units(hexes[1..]) == Units(hexes)[1..] && Units(hexes[2..]) == Units(hexes[1..])[1..];
    }
  }

  /** The literal at the start of some units: one unit, a surrogate pair, or an error, as RFC 2781 has it. */
  lemma LiteralOfUnits(hexes: seq<string>, c: string, i: nat, end: nat)
    requires AllHex4(hexes) && hexes != [] && StartsWith(c, i, UnitText(hexes))
    requires end == i + 6 * |hexes| && end < |c|
    ensures var u := Units(hexes);
            Utf16Literal(c, i, end) ==
              if IsLowSurrogate(u[0]) then None
              else if !IsHighSurrogate(u[0]) then Some(Literal(u[0], 6))
              else if |u| > 1 && IsLowSurrogate(u[1]) then Some(Literal(Pair(u[0], u[1]), 12))
              else None
  {
    hide StartsWith, UnitText, ParseHex4;
    UnitAt(hexes, c, i);
    if |hexes| > 1 {
      TwoUnitsAt(hexes, c, i);
      UnitsTail(hexes, 1);
      assert Units(hexes)[1] == ParseHex4(hexes[1]);
    }
  }

  /** For every sequence of units: decoding succeeds exactly when RFC 2781 assigns them code points, and then writes
      those code points as RFC 3629 encodes them. */
  lemma {:induction false} DecodeUnits(hexes: seq<string>, c: string, i: nat, end: nat)
    requires AllHex4(hexes) && StartsWith(c, i, UnitText(hexes))
    requires end == i + 6 * |hexes| && end < |c|
    ensures Utf16Decode(Units(hexes)).None? ==> Decode(c, i, end).Bad?
    ensures Utf16Decode(Units(hexes)).Some? ==>
              && AllScalars(Utf16Decode(Units(hexes)).value)
              && Decode(c, i, end) == Decoded(Utf8Encode(Utf16Decode(Units(hexes)).value))
    decreases |hexes|
  {
    hide StartsWith, UnitText, Utf8Bytes, Utf16Literal, IsHex4, ParseHex4;
    var u := Units(hexes);
    Utf16DecodeScalars(u);
    if hexes != [] {
      UnitAt(hexes, c, i);
      LiteralOfUnits(hexes, c, i, end);
      if Utf16Literal(c, i, end).Some? {
        if Utf16Literal(c, i, end).value.length == 6 {
          UnitsTail(hexes, 1);
          DecodeUnits(hexes[1..], c, i + 6, end);
          EncodeTail(u[0], Utf16Decode(u[1..]));
        } else {
          TwoUnitsAt(hexes, c, i);
          UnitsTail(hexes, 2);
          DecodeUnits(hexes[2..], c, i + 12, end);
          EncodeTail(Pair(u[0], u[1]), Utf16Decode(u[2..]));
        }
      }
    }
  }

  lemma EncodeTail(cp: nat, rest: Option<seq<nat>>)
    requires IsScalar(cp) && (rest.Some? ==> AllScalars(rest.value))
    ensures rest.Some? ==> Utf8Encode([cp] + rest.value) == Utf8Bytes(cp) + Utf8Encode(rest.value)
  {
    if rest.Some? {
      assert ([cp] + rest.value)[1..] == rest.value;
    }
  }

  lemma {:induction false} ScanUnits(hexes: seq<string>, c: string, i: nat)
    requires AllHex4(hexes) && StartsWith(c, i, UnitText(hexes))
    requires i + 6 * |hexes| < |c| && c[i + 6 * |hexes|] == '"'
    ensures ScanString(c, i) == Some(i + 6 * |hexes|)
    decreases |hexes|
  {
    hide StartsWith, UnitText;
    if hexes != [] {
      UnitAt(hexes, c, i);
      ScanUnits(hexes[1..], c, i + 6);
      SkipHex(c, i, hexes[0]);
    }
  }

  lemma SkipHex(c: string, i: nat, h: string)
    requires IsHex4(h) && i + 6 <= |c| && c[i] == '\\' && c[i + 2..i + 6] == h
    ensures ScanString(c, i) == ScanString(c, i + 6)
  {
    assert forall k :: i + 2 <= k < i + 6 ==> c[k] == h[k - (i + 2)];
    assert ScanString(c, i + 5) == ScanString(c, i + 6);
    assert ScanString(c, i + 3) == ScanString(c, i + 4) == ScanString(c, i + 5);
    assert ScanString(c, i) == ScanString(c, i + 2) == ScanString(c, i + 3);
  }

  /** A string literal of `\uXXXX` units.  A lone surrogate rejects it; otherwise UTF-8 decoding of what the decoder
      wrote gives the code points back, and the item's C string is that text up to its first NUL. */
  lemma UnicodeLiteral(hexes: seq<string>, c: string, o: nat)
    requires AllHex4(hexes) && StartsWith(c, o, "\"" + (UnitText(hexes) + "\""))
    ensures Utf16Decode(Units(hexes)).None? ==> ParseString(c, o).Err?
    ensures Utf16Decode(Units(hexes)).Some? ==>
              var cps := Utf16Decode(Units(hexes)).value;
              && AllScalars(cps)
              && Decode(c, o + 1, o + 1 + 6 * |hexes|) == Decoded(Utf8Encode(cps))
              && Utf8Decode(Utf8Encode(cps)) == Some(cps)
              && ParseString(c, o) == Ok(CString(Utf8Encode(cps)), o + 2 + 6 * |hexes|)
  {
    hide StartsWith, UnitText, ParseString, Decode, ScanString, Units, Utf16Decode, Utf8Decode, Utf8Encode, CString;
    hide AllHex4, AllScalars;
    var end := o + 1 + 6 * |hexes|;
    LiteralLayout(UnitText(hexes), c, o);
    ScanUnits(hexes, c, o + 1);
    ParseStringByPasses(c, o, end);
    DecodeUnits(hexes, c, o + 1, end);
    if Utf16Decode(Units(hexes)).Some? {
      Utf8RoundTrip(Utf16Decode(Units(hexes)).value);
    }
  }

  predicate SpellAll(hexes: seq<string>, units: seq<nat>) {
    |hexes| == |units| && forall i :: 0 <= i < |hexes| ==> Spells(hexes[i], units[i])
  }

  lemma {:induction false} SpelledUnits(hexes: seq<string>, units: seq<nat>)
    requires SpellAll(hexes, units)
    ensures AllHex4(hexes) && Units(hexes) == units
  {
    hide Spells, IsHex4, ParseHex4;
    forall i | 0 <= i < |hexes| ensures IsHex4(hexes[i]) { HexReads(hexes[i], units[i]); }
    if hexes != [] {
      HexReads(hexes[0], units[0]);
      SpelledUnits(hexes[1..], units[1..]);
    }
  }

  /** A string literal whose `\uXXXX` escapes spell 16-bit units.  If they are the UTF-16 form of some code points, it is
      read as the UTF-8 form of these, up to the first NUL; if they are not the form of any, it is rejected. */
  lemma {:induction false} SpelledLiteral(units: seq<nat>, hexes: seq<string>, c: string, o: nat)
    requires SpellAll(hexes, units) && AllHex4(hexes) && StartsWith(c, o, "\"" + (UnitText(hexes) + "\""))
    ensures forall cps :: AllScalars(cps) && Utf16Encode(cps) == units ==>
              && Decode(c, o + 1, o + 1 + 6 * |hexes|) == Decoded(Utf8Encode(cps))
              && ParseString(c, o) == Ok(CString(Utf8Encode(cps)), o + 2 + 6 * |hexes|)
    ensures (forall cps | AllScalars(cps) :: Utf16Encode(cps) != units) ==> ParseString(c, o).Err?
  {
    hide StartsWith, UnitText, ParseString, Decode, ScanString, Utf16Decode, Utf16Encode, Utf8Decode, Utf8Encode, CString, Spells;
    SpelledUnits(hexes, units);
    UnicodeLiteral(hexes, c, o);
    forall cps | AllScalars(cps) && Utf16Encode(cps) == units ensures Utf16Decode(units) == Some(cps) {
      Utf16RoundTrip(cps);
    }
    assert forall i :: 0 <= i < |units| ==> units[i] == Units(hexes)[i];
    Utf16Exact(units);
  }

  lemma ParseStringByPasses(c: string, o: nat, end: nat)
    requires o < |c| && c[o] == '"' && ScanString(c, o + 1) == Some(end)
    ensures Decode(c, o + 1, end).Bad? ==> ParseString(c, o).Err?
    ensures Decode(c, o + 1, end).Decoded? ==> ParseString(c, o) == Ok(CString(Decode(c, o + 1, end).text), end + 1)
  {
    hide Decode, ScanString, CString;
  }

  lemma LiteralLayout(t: string, c: string, o: nat)
    requires StartsWith(c, o, "\"" + (t + "\""))
    ensures o + 2 + |t| <= |c| && c[o] == '"' && c[o + 1 + |t|] == '"' && StartsWith(c, o + 1, t)
  {
    hide StartsWith;
    Split(c, o, "\"", t + "\"");
    StartChar(c, o, "\"");
    Split(c, o + 1, t, "\"");
    StartChar(c, o + 1 + |t|, "\"");
  }
}
