/** What the parser computes, as functions of the text and a position in it. */
module JsonText {
  import opened Decimal
  import opened Json
  import opened Utf
  import opened Wrappers

  const NESTING_LIMIT: nat := 1000

  /** The outcome of parsing at a position: where parsing stopped, and what was read if it succeeded. */
  datatype Parsed<+T> = Ok(value: T, offset: nat) | Err(offset: nat)

  /** A C string with its terminator, which is its only NUL. */
  predicate Terminated(c: string) {
    |c| > 0 && c[|c| - 1] == NUL && NulFree(c[..|c| - 1])
  }

  /** A character that is not the terminator is not the last one. */
  lemma NotLast(c: string, i: nat)
    requires Terminated(c) && i < |c|
    ensures c[i] != NUL ==> i + 1 < |c|
  {
  }

  // ---- Blanks ----

  function SkipBlank(c: string, o: nat): (e: nat)
    requires o <= |c|
    ensures o <= e <= |c|
    ensures forall i :: o <= i < e ==> c[i] <= ' '
    ensures e < |c| ==> c[e] > ' '
    decreases |c| - o
  {
    if o < |c| && c[o] <= ' ' then SkipBlank(c, o + 1) else o
  }

  /** The terminator counts as a blank; running off the end steps back onto it. */
  function SkipWhitespace(c: string, o: nat): (e: nat)
    requires o < |c|
    ensures o <= e < |c|
  {
    var e := SkipBlank(c, o);
    if e == |c| then e - 1 else e
  }

  predicate StartsWith(c: string, o: nat, word: string) {
    o + |word| <= |c| && c[o..o + |word|] == word
  }

  // ---- Numbers ----

  predicate IsNumberChar(c: char) {
    IsDigit(c) || c == '+' || c == '-' || c == 'e' || c == 'E' || c == '.'
  }

  function SpanNumber(c: string, o: nat, limit: nat): (e: nat)
    requires o <= |c|
    ensures o <= e <= |c| && e <= o + limit
    ensures forall i :: o <= i < e ==> IsNumberChar(c[i])
    decreases limit
  {
    if limit > 0 && o < |c| && IsNumberChar(c[o]) then SpanNumber(c, o + 1, limit - 1) else o
  }

  function Scale(e: int): (r: real)
    ensures r > 0.0
  {
    if e >= 0 then Pow10(e) as real else 1.0 / Pow10(-e) as real
  }

  /** `w` and a fraction of `k` digits, times ten to the power `e`. */
  function Magnitude(w: nat, f: nat, k: int, e: int): real {
    (w as real + f as real * Scale(-k)) * Scale(e)
  }

  /** `strtod` in the C locale on a string of number characters: the value and how much of the string it used;
      nothing used means no conversion. */
  function Strtod(t: string): (r: (real, nat))
    ensures r.1 <= |t|
  {
    var start := if t != [] && (t[0] == '-' || t[0] == '+') then 1 else 0;
    var whole := SpanDigits(t, start);
    var frac := if whole < |t| && t[whole] == '.' then SpanDigits(t, whole + 1) else whole;
    var fracDigits := if frac > whole then frac - whole - 1 else 0;
    if whole - start + fracDigits == 0 then (0.0, 0)
    else
      var expSign := if frac + 1 < |t| && (t[frac + 1] == '-' || t[frac + 1] == '+') then 1 else 0;
      var expStart := frac + 1 + expSign;
      var expEnd := if frac < |t| && (t[frac] == 'e' || t[frac] == 'E') then SpanDigits(t, expStart) else expStart;
      var exp :=
        if expEnd == expStart then 0
        else if t[frac + 1] == '-' then -(NatValue(t[expStart..expEnd]) as int)
        else NatValue(t[expStart..expEnd]);
      var magnitude := Magnitude(NatValue(t[start..whole]), NatValue(t[frac - fracDigits..frac]), fracDigits, exp);
      (if t[0] == '-' then -magnitude else magnitude, if expEnd == expStart then frac else expEnd)
  }

  function ParseNumber(c: string, o: nat): (p: Parsed<Json>)
    requires o <= |c|
    ensures p.Ok? ==> o < p.offset <= |c| && forall i :: o <= i < p.offset ==> IsNumberChar(c[i])
  {
    var (r, used) := Strtod(c[o..SpanNumber(c, o, 63)]);
    if used == 0 then Err(o) else Ok(Number(r), o + used)
  }

  // ---- Strings ----

  /** The quote that closes a string whose first character is at `i`. */
  function ScanString(c: string, i: nat): (e: Option<nat>)
    requires i <= |c|
    ensures e.Some? ==> i <= e.value < |c| && c[e.value] == '"'
    decreases |c| - i
  {
    if i == |c| then None
    else if c[i] == '"' then Some(i)
    else if c[i] == '\\' then
      if i + 1 < |c| then ScanString(c, i + 2) else None
    else ScanString(c, i + 1)
  }

  predicate IsHexDigit(c: char) {
    '0' <= c <= '9' || 'A' <= c <= 'F' || 'a' <= c <= 'f'
  }

  function HexValue(c: char): (d: nat)
    requires IsHexDigit(c)
    ensures d < 16
  {
    if c <= '9' then c as int - '0' as int
    else if c <= 'F' then 10 + c as int - 'A' as int
    else 10 + c as int - 'a' as int
  }

  /** Four hexadecimal digits; a character that is not one makes the whole number 0. */
  function ParseHex4(s: string): (h: nat)
    requires |s| == 4
    ensures h < 0x10000
    ensures (exists k :: 0 <= k < 4 && !IsHexDigit(s[k])) ==> h == 0
  {
    if forall k :: 0 <= k < 4 ==> IsHexDigit(s[k]) then
      ((HexValue(s[0]) * 16 + HexValue(s[1])) * 16 + HexValue(s[2])) * 16 + HexValue(s[3])
    else 0
  }

  datatype Literal = Literal(codePoint: nat, length: nat)

  /** The code point of the one or two `\uXXXX` sequences at `i`, in a string that ends at `end`. */
  function Utf16Literal(c: string, i: nat, end: nat): (l: Option<Literal>)
    requires i <= end < |c|
    ensures l.Some? ==> (l.value.length == 6 || l.value.length == 12) && i + l.value.length <= end
    ensures l.Some? ==> IsScalar(l.value.codePoint)
    ensures l.Some? && l.value.length == 6 ==> l.value.codePoint < 0x10000
  {
    if end - i < 6 then None
    else
      var first := ParseHex4(c[i + 2..i + 6]);
      if IsLowSurrogate(first) then None
      else if IsHighSurrogate(first) then
        if end - (i + 6) < 6 || c[i + 6] != '\\' || c[i + 7] != 'u' then None
        else
          var second := ParseHex4(c[i + 8..i + 12]);
          if IsLowSurrogate(second) then Some(Literal(Pair(first, second), 12)) else None
      else Some(Literal(first, 6))
  }

  /** The character a two-character escape stands for. */
  function Unescape(c: char): Option<char> {
    match c
    case 'b' => Some(BACKSPACE)
    case 'f' => Some(FORM_FEED)
    case 'n' => Some('\n')
    case 'r' => Some('\r')
    case 't' => Some('\t')
    case '"' => Some('"')
    case '\\' => Some('\\')
    case '/' => Some('/')
    case _ => None
  }

  datatype Decoded = Decoded(text: string) | Bad(offset: nat)

  /** Decoding from `i`; it may step one past `end`, when the last backslash escapes the closing quote. */
  function Decode(c: string, i: nat, end: nat): (d: Decoded)
    requires i <= end + 1 && end < |c|
    ensures d.Bad? ==> d.offset < |c|
    decreases end + 1 - i
  {
    if i >= end then Decoded("")
    else if c[i] != '\\' then Before([c[i]], Decode(c, i + 1, end))
    else if c[i + 1] == 'u' then
      match Utf16Literal(c, i, end)
      case None => Bad(i)
      case Some(l) => Before(Utf8Bytes(l.codePoint), Decode(c, i + l.length, end))
    else
      match Unescape(c[i + 1])
      case None => Bad(i)
      case Some(ch) => Before([ch], Decode(c, i + 2, end))
  }

  function Before(s: string, d: Decoded): Decoded {
    match d
    case Decoded(t) => Decoded(s + t)
    case Bad(_) => d
  }

  lemma BeforeNothing(d: Decoded)
    ensures Before("", d) == d
  {
    if d.Decoded? {
      assert "" + d.text == d.text;
    }
  }

  lemma BeforeBefore(s: string, t: string, d: Decoded)
    ensures Before(s, Before(t, d)) == Before(s + t, d)
  {
    if d.Decoded? {
      assert s + t + d.text == s + (t + d.text);
    }
  }

  /** The C string in a character array: what precedes the first NUL. */
  function CString(s: string): (t: string)
    ensures t <= s && NulFree(t)
    ensures |t| < |s| ==> s[|t|] == NUL
  {
    if s == [] || s[0] == NUL then [] else [s[0]] + CString(s[1..])
  }

  function ParseString(c: string, o: nat): (p: Parsed<string>)
    requires o < |c|
    ensures p.Ok? ==> o < p.offset <= |c| && c[p.offset - 1] == '"' && NulFree(p.value)
    ensures p.offset <= |c|
  {
    if c[o] != '"' then Err(o + 1)
    else
      match ScanString(c, o + 1)
      case None => Err(o + 1)
      case Some(end) =>
        match Decode(c, o + 1, end)
        case Bad(at) => Err(at)
        case Decoded(t) => Ok(CString(t), end + 1)
  }

  // ---- Values ----

  /** The value at `o`, with `d` containers already open.  A success ends before the terminator. */
  function ParseValue(c: string, o: nat, d: nat): (p: Parsed<Json>)
    requires Terminated(c) && o < |c|
    ensures p.Ok? ==> o < p.offset < |c|
    ensures p.offset <= |c|
    decreases |c| - o, 3
  {
    if StartsWith(c, o, "null") then
      assert c[o + 3] == "null"[3];
      Ok(Null, o + 4)
    else if StartsWith(c, o, "false") then
      assert c[o + 4] == "false"[4];
      Ok(Bool(false), o + 5)
    else if StartsWith(c, o, "true") then
      assert c[o + 3] == "true"[3];
      Ok(Bool(true), o + 4)
    else if c[o] == '"' then
      match ParseString(c, o)
      case Err(at) => Err(at)
      case Ok(s, q) => Ok(String(s), q)
    else if c[o] == '-' || IsDigit(c[o]) then ParseNumber(c, o)
    else if c[o] == '[' then ParseArray(c, o, d)
    else if c[o] == '{' then ParseObject(c, o, d)
    else Err(o)
  }

  function ParseArray(c: string, o: nat, d: nat): (p: Parsed<Json>)
    requires Terminated(c) && o < |c| && c[o] == '['
    ensures p.Ok? ==> o < p.offset < |c|
    ensures p.offset <= |c|
    decreases |c| - o, 1
  {
    if d >= NESTING_LIMIT then Err(o)
    else
      var o1 := SkipWhitespace(c, o + 1);
      if c[o1] == ']' then Ok(Array([]), o1 + 1)
      else
        match ParseElements(c, o1 - 1, d + 1)
        case Err(at) => Err(at)
        case Ok(items, q) => Ok(Array(items), q)
  }

  /** The elements and the closing bracket; `o` is the character in front of the first element. */
  function ParseElements(c: string, o: nat, d: nat): (p: Parsed<seq<Json>>)
    requires Terminated(c) && o + 1 < |c|
    ensures p.Ok? ==> o < p.offset < |c|
    ensures p.offset <= |c|
    decreases |c| - o, 0
  {
    match ParseValue(c, SkipWhitespace(c, o + 1), d)
    case Err(at) => Err(at)
    case Ok(v, q) =>
      var q1 := SkipWhitespace(c, q);
      if c[q1] == ',' then Cons(v, ParseElements(c, q1, d))
      else if c[q1] == ']' then Ok([v], q1 + 1)
      else Err(q1)
  }

  function Cons<T>(x: T, p: Parsed<seq<T>>): Parsed<seq<T>> {
    match p
    case Ok(xs, q) => Ok([x] + xs, q)
    case Err(_) => p
  }

  function ParseObject(c: string, o: nat, d: nat): (p: Parsed<Json>)
    requires Terminated(c) && o < |c| && c[o] == '{'
    ensures p.Ok? ==> o < p.offset < |c|
    ensures p.offset <= |c|
    decreases |c| - o, 2
  {
    if d >= NESTING_LIMIT then Err(o)
    else
      var o1 := SkipWhitespace(c, o + 1);
      if c[o1] == '}' then Ok(Object([]), o1 + 1)
      else
        match ParseMembers(c, o1 - 1, d + 1)
        case Err(at) => Err(at)
        case Ok(ms, q) => Ok(Object(ms), q)
  }

  /** A key, its colon and its value. */
  function ParseMember(c: string, o: nat, d: nat): (p: Parsed<Member>)
    requires Terminated(c) && o + 1 < |c|
    ensures p.Ok? ==> o + 1 < p.offset < |c|
    ensures p.offset <= |c|
    decreases |c| - o, 0
  {
    match ParseString(c, SkipWhitespace(c, o + 1))
    case Err(at) => Err(at)
    case Ok(key, q) =>
      var q1 := SkipWhitespace(c, q);
      if c[q1] != ':' then Err(q1)
      else
        match ParseValue(c, SkipWhitespace(c, q1 + 1), d)
        case Err(at) => Err(at)
        case Ok(v, q2) => Ok(Member(key, v), q2)
  }

  /** The members and the closing brace; `o` is the character in front of the first key. */
  function ParseMembers(c: string, o: nat, d: nat): (p: Parsed<seq<Member>>)
    requires Terminated(c) && o + 1 < |c|
    ensures p.Ok? ==> o < p.offset < |c|
    ensures p.offset <= |c|
    decreases |c| - o, 1
  {
    match ParseMember(c, o, d)
    case Err(at) => Err(at)
    case Ok(m, q) =>
      var q1 := SkipWhitespace(c, q);
      if c[q1] == ',' then Cons(m, ParseMembers(c, q1, d))
      else if c[q1] == '}' then Ok([m], q1 + 1)
      else Err(q1)
  }

  /** A byte order mark is skipped when at least one more character than the mark and the terminator follows. */
  function SkipBom(c: string): (o: nat)
    requires |c| > 0
    ensures o < |c|
  {
    if |c| > 4 && c[..3] == [0xEF as char, 0xBB as char, 0xBF as char] then 3 else 0
  }

  /** A whole text; with `strict`, only blanks may follow the value.  An error is reported inside the text. */
  function Parse(text: string, strict: bool): (p: Parsed<Json>)
    requires NulFree(text)
    ensures p.offset <= |text|
  {
    var c := text + [NUL];
    match ParseValue(c, SkipWhitespace(c, SkipBom(c)), 0)
    case Err(at) => Err(if at < |c| then at else |c| - 1)
    case Ok(v, q) =>
      if !strict then Ok(v, q)
      else
        var q1 := SkipWhitespace(c, q);
        if c[q1] == NUL then Ok(v, q1) else Err(q1)
  }
}
