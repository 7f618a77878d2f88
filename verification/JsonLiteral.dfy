/** String literals spelled out: plain characters, two-character escapes and `\uXXXX` escapes, in any mixture. */
module JsonLiteral {
  import opened Json
  import opened JsonText
  import opened JsonUnicode
  import R = JsonRoundTrip
  import opened Utf
  import opened Wrappers

  /** The characters behind a backslash, and the codes of the characters they stand for. */
  const ESCAPES: string := "\"\\/bfnrt"
  const CODES: seq<nat> := [34, 92, 47, 8, 12, 10, 13, 9]

  /** A character for itself, the `k`-th of the escapes above, a code point written as one or two units, or `\u` before
      four characters that are not all hexadecimal digits, which is read as U+0000. */
  datatype Piece = Raw(c: char) | Short(k: nat) | Point(cp: nat, hexes: seq<string>) | Malformed(h: string)

  predicate Proper(p: Piece) {
    match p
    case Raw(c) => c != '"' && c != '\\'
    case Short(k) => k < 8
    case Point(cp, hexes) => IsScalar(cp) && SpellAll(hexes, Utf16Units(cp)) && AllHex4(hexes)
    case Malformed(h) => |h| == 4 && (exists k :: 0 <= k < 4 && !IsHexDigit(h[k])) && NoMarks(h)
  }

  /** No quote and no backslash. */
  predicate NoMarks(s: string) {
    forall k :: 0 <= k < |s| ==> s[k] != '"' && s[k] != '\\'
  }

  predicate AllProper(ps: seq<Piece>) {
    forall i :: 0 <= i < |ps| ==> Proper(ps[i])
  }

  function Spelling(p: Piece): string
    requires Proper(p)
  {
    match p
    case Raw(c) => [c]
    case Short(k) => ['\\', ESCAPES[k]]
    case Point(_, hexes) => UnitText(hexes)
    case Malformed(h) => "\\u" + h
  }

  function Meaning(p: Piece): string
    requires Proper(p)
  {
    match p
    case Raw(c) => [c]
    case Short(k) => [CODES[k] as char]
    case Point(cp, _) => Utf8Bytes(cp)
    case Malformed(_) => [NUL]
  }

  function Spellings(ps: seq<Piece>): string
    requires AllProper(ps)
  {
    if ps == [] then "" else assert Proper(ps[0]); Spelling(ps[0]) + Spellings(ps[1..])
  }

  function Meanings(ps: seq<Piece>): string
    requires AllProper(ps)
  {
    if ps == [] then "" else assert Proper(ps[0]); Meaning(ps[0]) + Meanings(ps[1..])
  }

  /** The escapes with two characters are these eight and no others. */
  lemma UnescapeTable(c: char)
    ensures forall k :: 0 <= k < 8 && ESCAPES[k] == c ==> Unescape(c) == Some(CODES[k] as char)
    ensures c !in ESCAPES <==> Unescape(c) == None
  {
    assert ESCAPES == ['"', '\\', '/', 'b', 'f', 'n', 'r', 't'];
    if c in ESCAPES {
      var k :| 0 <= k < 8 && ESCAPES[k] == c;
    }
  }

  /** How a string is printed, character by character: seven of the eight as they are escaped above, the slash as it is,
      every other character below the space as a unit with two zeros in front and small letters, and all others as they
      are. */
  lemma EscapeTable(c: char)
    ensures forall k :: 0 <= k < 8 && k != 2 && CODES[k] as char == c ==> EscapeChar(c) == ['\\', ESCAPES[k]]
    ensures c as int < 32 && c as int !in CODES ==>
              var e := EscapeChar(c);
              |e| == 6 && e[..2] == "\\u" && Spells(e[2..], c as int) && forall k :: 2 <= k < 6 ==> e[k] in LOWER_DIGITS
    ensures c as int >= 32 && c != '"' && c != '\\' ==> EscapeChar(c) == [c]
  {
    SevenEscapes();
    if c as int < 32 && c as int !in CODES {
      ControlEscape(c as int);
    }
  }

  lemma SevenEscapes()
    ensures forall k :: 0 <= k < 8 && k != 2 ==> EscapeChar(CODES[k] as char) == ['\\', ESCAPES[k]]
  {
    assert ESCAPES == ['"', '\\', '/', 'b', 'f', 'n', 'r', 't'];
  }

  lemma ControlEscape(n: nat)
    requires n < 32 && n !in CODES
    ensures var e := EscapeChar(n as char);
            && e == ['\\', 'u', '0', '0', LOWER_DIGITS[n / 16], LOWER_DIGITS[n % 16]]
            && |e| == 6 && e[..2] == "\\u" && Spells(e[2..], n) && forall k :: 2 <= k < 6 ==> e[k] in LOWER_DIGITS
  {
    assert CODES[3] == 8 && CODES[4] == 12 && CODES[5] == 10 && CODES[6] == 13 && CODES[7] == 9;
    HexDigitIs(n / 16);
    HexDigitIs(n % 16);
    var e := EscapeChar(n as char);
    assert e == ['\\', 'u', '0', '0', LOWER_DIGITS[n / 16], LOWER_DIGITS[n % 16]];
    assert e[2..] == ['0', '0', LOWER_DIGITS[n / 16], LOWER_DIGITS[n % 16]];
    assert LOWER_DIGITS[0] == '0' && n / 4096 == 0 && n / 256 % 16 == 0 && n / 16 % 16 == n / 16;
  }

  lemma HexDigitIs(d: nat)
    requires d < 16
    ensures HexDigit(d) == LOWER_DIGITS[d]
  {
  }

  // ---- One piece ----

  lemma PointLiteral(cp: nat, hexes: seq<string>, c: string, i: nat, end: nat)
    requires IsScalar(cp) && SpellAll(hexes, Utf16Units(cp)) && AllHex4(hexes)
    requires StartsWith(c, i, UnitText(hexes)) && i + 6 * |hexes| <= end < |c|
    ensures c[i] == '\\' && c[i + 1] == 'u'
    ensures Utf16Literal(c, i, end) == Some(Literal(cp, 6 * |hexes|))
  {
    hide StartsWith, UnitText, Spells, IsHex4, ParseHex4;
    var u := Utf16Units(cp);
    HexReads(hexes[0], u[0]);
    UnitAt(hexes, c, i);
    if |u| == 2 {
      HexReads(hexes[1], u[1]);
      TwoUnitsAt(hexes, c, i);
      assert Pair(u[0], u[1]) == cp;
    }
  }

  lemma ScanPiece(p: Piece, c: string, i: nat)
    requires Proper(p) && StartsWith(c, i, Spelling(p))
    ensures i + |Spelling(p)| <= |c| && ScanString(c, i) == ScanString(c, i + |Spelling(p)|)
  {
    R.CharsOf(c, i, Spelling(p));
    match p
    case Raw(_) =>
    case Short(_) =>
    case Point(cp, hexes) =>
      hide StartsWith, UnitText, Spells, IsHex4, ScanString;
      UnitAt(hexes, c, i);
      SkipHex(c, i, hexes[0]);
      if |hexes| == 2 {
        TwoUnitsAt(hexes, c, i);
        SkipHex(c, i + 6, hexes[1]);
      }
    case Malformed(h) => SkipMarks(c, i, h);
  }

  lemma SkipMarks(c: string, i: nat, h: string)
    requires |h| == 4 && NoMarks(h) && StartsWith(c, i, "\\u" + h)
    ensures ScanString(c, i) == ScanString(c, i + 6)
  {
    R.CharsOf(c, i, "\\u" + h);
    assert forall k :: i + 2 <= k < i + 6 ==> c[k] == h[k - i - 2];
    assert ScanString(c, i + 4) == ScanString(c, i + 5) == ScanString(c, i + 6);
    assert ScanString(c, i) == ScanString(c, i + 2) == ScanString(c, i + 3) == ScanString(c, i + 4);
  }

  lemma MalformedLiteral(h: string, c: string, i: nat, end: nat)
    requires Proper(Malformed(h)) && StartsWith(c, i, "\\u" + h) && i + 6 <= end < |c|
    ensures Utf16Literal(c, i, end) == Some(Literal(0, 6)) && c[i] == '\\' && c[i + 1] == 'u'
  {
    R.CharsOf(c, i, "\\u" + h);
    assert c[i + 2..i + 6] == h;
    hide IsHexDigit, NoMarks;
    var k :| 0 <= k < 4 && !IsHexDigit(h[k]);
    assert ParseHex4(h) == 0;
  }

  lemma DecodePiece(p: Piece, c: string, i: nat, end: nat)
    requires Proper(p) && StartsWith(c, i, Spelling(p)) && i + |Spelling(p)| <= end < |c|
    ensures Decode(c, i, end) == Before(Meaning(p), Decode(c, i + |Spelling(p)|, end))
  {
    hide Utf16Literal, Unescape, Utf8Bytes, Before;
    R.CharsOf(c, i, Spelling(p));
    match p
    case Raw(_) =>
    case Short(k) => UnescapeTable(ESCAPES[k]);
    case Point(cp, hexes) => PointLiteral(cp, hexes, c, i, end);
    case Malformed(h) =>
      MalformedLiteral(h, c, i, end);
      assert Utf8Bytes(0) == [NUL] by { NulByte(); }
  }

  lemma NulByte()
    ensures Utf8Bytes(0) == [NUL]
  {
  }

  // ---- A whole literal ----

  lemma {:induction false} ScanPieces(ps: seq<Piece>, c: string, i: nat)
    requires AllProper(ps) && StartsWith(c, i, Spellings(ps))
    ensures i + |Spellings(ps)| <= |c| && ScanString(c, i) == ScanString(c, i + |Spellings(ps)|)
    decreases |ps|
  {
    hide Proper, Spelling, StartsWith, ScanString;
    if ps == [] {
      assert Spellings(ps) == "";
      Empty(c, i);
    } else {
      assert Proper(ps[0]);
      R.Split(c, i, Spelling(ps[0]), Spellings(ps[1..]));
      ScanPiece(ps[0], c, i);
      ScanPieces(ps[1..], c, i + |Spelling(ps[0])|);
    }
  }

  lemma Empty(c: string, i: nat)
    requires StartsWith(c, i, "")
    ensures i <= |c|
  {
  }

  lemma {:induction false} DecodePieces(ps: seq<Piece>, c: string, i: nat, end: nat)
    requires AllProper(ps) && StartsWith(c, i, Spellings(ps)) && i + |Spellings(ps)| <= end < |c|
    ensures Decode(c, i, end) == Before(Meanings(ps), Decode(c, i + |Spellings(ps)|, end))
    decreases |ps|
  {
    hide Proper, Spelling, Meaning, StartsWith, Decode;
    if ps == [] {
      BeforeNothing(Decode(c, i, end));
    } else {
      assert Proper(ps[0]);
      R.Split(c, i, Spelling(ps[0]), Spellings(ps[1..]));
      DecodePiece(ps[0], c, i, end);
      DecodePieces(ps[1..], c, i + |Spelling(ps[0])|, end);
      BeforeBefore(Meaning(ps[0]), Meanings(ps[1..]), Decode(c, i + |Spellings(ps)|, end));
    }
  }

  /** Any literal made of pieces is read as what the pieces mean, up to the first NUL among it. */
  lemma LiteralMeans(ps: seq<Piece>, c: string, o: nat)
    requires AllProper(ps) && StartsWith(c, o, "\"" + (Spellings(ps) + "\""))
    ensures ParseString(c, o) == Ok(CString(Meanings(ps)), o + 2 + |Spellings(ps)|)
  {
    hide AllProper, Spellings, Meanings, StartsWith, ParseString, Decode, ScanString, CString;
    var t := Spellings(ps);
    var end := o + 1 + |t|;
    LiteralLayout(t, c, o);
    ScanPieces(ps, c, o + 1);
    EndsHere(c, end);
    DecodePieces(ps, c, o + 1, end);
    assert Meanings(ps) + "" == Meanings(ps);
    ParseStringByPasses(c, o, end);
  }

  lemma EndsHere(c: string, end: nat)
    requires end < |c| && c[end] == '"'
    ensures ScanString(c, end) == Some(end) && Decode(c, end, end) == Decoded("")
  {
  }

  /** A backslash before any other character than the eight and `u` is an error, found at the backslash. */
  lemma UnknownEscape(ps: seq<Piece>, x: char, c: string, o: nat)
    requires AllProper(ps) && StartsWith(c, o, "\"" + (Spellings(ps) + ['\\', x]))
    requires x !in ESCAPES && x != 'u' && ScanString(c, o + 1).Some?
    ensures ParseString(c, o) == Err(o + 1 + |Spellings(ps)|)
  {
    hide AllProper, Spellings, Meanings, StartsWith, ScanString, Decode;
    var t := Spellings(ps);
    var i := o + 1 + |t|;
    R.Split(c, o, "\"", t + ['\\', x]);
    R.StartChar(c, o, "\"");
    R.Split(c, o + 1, t, ['\\', x]);
    R.CharsOf(c, i, ['\\', x]);
    ScanPieces(ps, c, o + 1);
    var end := ScanString(c, o + 1).value;
    UnknownAt(x, c, i, end);
    DecodePieces(ps, c, o + 1, end);
  }

  lemma UnknownAt(x: char, c: string, i: nat, end: nat)
    requires x !in ESCAPES && x != 'u' && i + 1 < |c| && c[i] == '\\' && c[i + 1] == x && ScanString(c, i) == Some(end)
    ensures i < end && Decode(c, i, end) == Bad(i)
  {
    hide ScanString;
    UnescapeTable(x);
  }

  /** `n` is a surrogate that is not the first of a pair: it is a low one, or what follows is no `\u` with a low one. */
  predicate IsLone(n: nat, rest: string) {
    || 0xDC00 <= n <= 0xDFFF
    || (0xD800 <= n <= 0xDBFF && (rest != "" ==> (rest[0] != '\\' || (|rest| > 1 && rest[1] != 'u'))))
  }

  lemma LoneLiteral(h: string, n: nat, c: string, i: nat, end: nat)
    requires Spells(h, n) && StartsWith(c, i, "\\u" + h) && i + 6 <= end < |c| && IsLone(n, c[i + 6..])
    ensures c[i] == '\\' && c[i + 1] == 'u' && Utf16Literal(c, i, end) == None
  {
    R.CharsOf(c, i, "\\u" + h);
    assert c[i + 2..i + 6] == h;
    HexReads(h, n);
    hide Spells, IsHex4, ParseHex4;
    if end - (i + 6) >= 6 {
      assert c[i + 6..][0] == c[i + 6] && c[i + 6..][1] == c[i + 7];
    }
  }

  /** A lone surrogate is an error, found at its backslash. */
  lemma LoneSurrogate(ps: seq<Piece>, h: string, n: nat, c: string, o: nat)
    requires AllProper(ps) && StartsWith(c, o, "\"" + (Spellings(ps) + ("\\u" + h))) && Spells(h, n)
    requires IsLone(n, c[o + 1 + |Spellings(ps)| + 6..]) && ScanString(c, o + 1).Some?
    ensures ParseString(c, o) == Err(o + 1 + |Spellings(ps)|)
  {
    hide AllProper, Spellings, Meanings, StartsWith, IsLone, Spells, IsHex4, ScanString, Utf16Literal, ParseString;
    var t := Spellings(ps);
    var i := o + 1 + |t|;
    R.Split(c, o, "\"", t + ("\\u" + h));
    R.StartChar(c, o, "\"");
    R.Split(c, o + 1, t, "\\u" + h);
    ScanPieces(ps, c, o + 1);
    HexReads(h, n);
    HexAt(h, n, c, i);
    SkipHex(c, i, h);
    var end := ScanString(c, o + 1).value;
    LoneLiteral(h, n, c, i, end);
    BadAt(ps, c, o, end);
  }

  lemma HexAt(h: string, n: nat, c: string, i: nat)
    requires Spells(h, n) && StartsWith(c, i, "\\u" + h)
    ensures i + 6 <= |c| && c[i] == '\\' && c[i + 1] == 'u' && c[i + 2..i + 6] == h
  {
    R.CharsOf(c, i, "\\u" + h);
  }

  /** An error in decoding behind the pieces is the error of the literal. */
  lemma BadAt(ps: seq<Piece>, c: string, o: nat, end: nat)
    requires AllProper(ps) && o < |c| && c[o] == '"' && ScanString(c, o + 1) == Some(end) && StartsWith(c, o + 1, Spellings(ps))
    requires var i := o + 1 + |Spellings(ps)|; i < end && c[i] == '\\' && c[i + 1] == 'u' && Utf16Literal(c, i, end) == None
    ensures ParseString(c, o) == Err(o + 1 + |Spellings(ps)|)
  {
    hide AllProper, Spellings, Meanings, StartsWith, ScanString, Utf16Literal;
    DecodePieces(ps, c, o + 1, end);
  }

  /** An escape with fewer than four characters before the closing quote is an error, found at its backslash. */
  lemma ShortEscape(ps: seq<Piece>, t: string, c: string, o: nat)
    requires AllProper(ps) && |t| < 4 && NoMarks(t) && StartsWith(c, o, "\"" + (Spellings(ps) + ("\\u" + (t + "\""))))
    ensures ParseString(c, o) == Err(o + 1 + |Spellings(ps)|)
  {
    hide AllProper, Spellings, Meanings, StartsWith, ScanString, ParseString, NoMarks;
    var s := Spellings(ps);
    var i := o + 1 + |s|;
    R.Split(c, o, "\"", s + ("\\u" + (t + "\"")));
    R.StartChar(c, o, "\"");
    R.Split(c, o + 1, s, "\\u" + (t + "\""));
    ScanPieces(ps, c, o + 1);
    ShortAt(t, c, i);
    BadAt(ps, c, o, i + 2 + |t|);
  }

  lemma ShortAt(t: string, c: string, i: nat)
    requires |t| < 4 && NoMarks(t) && StartsWith(c, i, "\\u" + (t + "\""))
    ensures var end := i + 2 + |t|;
            && end < |c| && c[i] == '\\' && c[i + 1] == 'u' && c[end] == '"'
            && ScanString(c, i) == Some(end) && Utf16Literal(c, i, end) == None
  {
    R.CharsOf(c, i, "\\u" + (t + "\""));
    var end := i + 2 + |t|;
    assert forall k :: i + 2 <= k < end ==> c[k] == t[k - i - 2];
    PlainToEnd(c, i + 2, end);
  }

  lemma {:induction false} PlainToEnd(c: string, i: nat, end: nat)
    requires i <= end < |c| && c[end] == '"' && forall k :: i <= k < end ==> c[k] != '"' && c[k] != '\\'
    ensures ScanString(c, i) == Some(end)
    decreases end - i
  {
    if i < end { PlainToEnd(c, i + 1, end); }
  }
}
