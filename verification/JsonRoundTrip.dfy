/** Parsing what the printer renders gives the value back, exactly up to the nesting limit. */
module JsonRoundTrip {
  import opened Decimal
  import opened Json
  import opened JsonText
  import opened Wrappers

  lemma Split(c: string, o: nat, a: string, b: string)
    requires StartsWith(c, o, a + b)
    ensures StartsWith(c, o, a) && StartsWith(c, o + |a|, b) && o + |a| + |b| <= |c|
  {
    var w := c[o..o + |a + b|];
    assert w[..|a|] == a && w[|a|..] == b;
    assert c[o..o + |a|] == w[..|a|];
    assert c[o + |a|..o + |a| + |b|] == w[|a|..];
  }

  // ---- Numbers ----

  lemma {:induction false} SpanNumberExactly(c: string, o: nat, e: nat, limit: nat)
    requires o <= e < |c| && e - o <= limit
    requires forall i :: o <= i < e ==> IsNumberChar(c[i])
    requires !IsNumberChar(c[e])
    ensures SpanNumber(c, o, limit) == e
    decreases e - o
  {
    if o < e {
      SpanNumberExactly(c, o + 1, e, limit - 1);
    }
  }

  lemma StrtodInteger(n: int)
    ensures Strtod(RenderInt(n)) == (n as real, |RenderInt(n)|)
  {
    var t := RenderInt(n);
    var m: nat := if n < 0 then -n else n;
    var start := if n < 0 then 1 else 0;
    DigitsValue(m);
    assert t[start..|t|] == Digits(m);
    assert n >= 0 ==> IsDigit(t[0]);
    SpanExactly(t, start, |t|);
    assert t[|t|..|t|] == [];
  }

  lemma RenderIntShape(n: int)
    requires -1_000_000_000_000_000 < n < 1_000_000_000_000_000
    ensures |RenderInt(n)| <= 16
    ensures forall i :: 0 <= i < |RenderInt(n)| ==> IsNumberChar(RenderInt(n)[i])
    ensures RenderInt(n)[0] == '-' || IsDigit(RenderInt(n)[0])
  {
    var m: nat := if n < 0 then -n else n;
    assert Pow10(5) == 100_000;
    assert Pow10(10) == 10_000_000_000;
    assert Pow10(15) == 1_000_000_000_000_000;
    DigitsLength(m, 15);
  }

  lemma ParseRenderedNumber(n: int, c: string, o: nat)
    requires -1_000_000_000_000_000 < n < 1_000_000_000_000_000
    requires StartsWith(c, o, RenderInt(n))
    requires o + |RenderInt(n)| < |c| && !IsNumberChar(c[o + |RenderInt(n)|])
    ensures ParseNumber(c, o) == Ok(Number(n as real), o + |RenderInt(n)|)
  {
    hide RenderInt, Strtod;
    var t := RenderInt(n);
    RenderIntShape(n);
    CharsOf(c, o, t);
    SpanNumberExactly(c, o, o + |t|, 63);
    StrtodInteger(n);
  }

  // ---- Strings ----

  lemma CharsOf(c: string, o: nat, w: string)
    requires StartsWith(c, o, w)
    ensures forall k :: o <= k < o + |w| ==> c[k] == w[k - o]
  {
    forall k | o <= k < o + |w| ensures c[k] == w[k - o] {
      assert c[o..o + |w|][k - o] == c[k];
    }
  }

  lemma ScanOne(c: string, i: nat, ch: char)
    requires StartsWith(c, i, EscapeChar(ch))
    ensures ScanString(c, i) == ScanString(c, i + |EscapeChar(ch)|)
  {
    CharsOf(c, i, EscapeChar(ch));
    if |EscapeChar(ch)| == 6 {
      assert c[i + 4] != '"' && c[i + 4] != '\\' && c[i + 5] != '"' && c[i + 5] != '\\';
      assert ScanString(c, i + 4) == ScanString(c, i + 5) == ScanString(c, i + 6);
      assert ScanString(c, i) == ScanString(c, i + 2) == ScanString(c, i + 3) == ScanString(c, i + 4);
    }
  }

  lemma {:induction false} ScanEscaped(c: string, i: nat, s: string)
    requires StartsWith(c, i, Escape(s)) && StartsWith(c, i + |Escape(s)|, "\"")
    ensures ScanString(c, i) == Some(i + |Escape(s)|)
    decreases |s|
  {
    hide StartsWith, EscapeChar;
    if s == [] {
      StartChar(c, i, "\"");
      assert Escape(s) == [];
    } else {
      Split(c, i, EscapeChar(s[0]), Escape(s[1..]));
      ScanOne(c, i, s[0]);
      ScanEscaped(c, i + |EscapeChar(s[0])|, s[1..]);
    }
  }

  lemma DecodeOne(c: string, i: nat, end: nat, ch: char)
    requires end < |c| && StartsWith(c, i, EscapeChar(ch)) && i + |EscapeChar(ch)| <= end
    ensures Decode(c, i, end) == Before([ch], Decode(c, i + |EscapeChar(ch)|, end))
  {
    var e := EscapeChar(ch);
    CharsOf(c, i, e);
    if |e| == 6 {
      var h := c[i + 2..i + 6];
      assert h[0] == '0' && h[1] == '0' && h[2] == e[4] && h[3] == e[5];
      assert ParseHex4(h) == ch as int;
    }
  }

  lemma {:induction false} DecodeEscaped(c: string, i: nat, end: nat, s: string)
    requires end < |c| && StartsWith(c, i, Escape(s)) && i + |Escape(s)| == end
    ensures Decode(c, i, end) == Decoded(s)
    decreases |s|
  {
    hide StartsWith, EscapeChar;
    if s != [] {
      var e := EscapeChar(s[0]);
      Split(c, i, e, Escape(s[1..]));
      DecodeOne(c, i, end, s[0]);
      DecodeEscaped(c, i + |e|, end, s[1..]);
      assert s == [s[0]] + s[1..];
    }
  }

  lemma ParseRenderedString(s: string, c: string, o: nat)
    requires NulFree(s) && StartsWith(c, o, RenderString(s))
    ensures ParseString(c, o) == Ok(s, o + |RenderString(s)|)
  {
    hide StartsWith, Escape, Decode, ScanString, CString;
    WholeCString(s);
    assert RenderString(s) == "\"" + (Escape(s) + "\"");
    Split(c, o, "\"", Escape(s) + "\"");
    StartChar(c, o, "\"");
    Split(c, o + 1, Escape(s), "\"");
    ScanEscaped(c, o + 1, s);
    DecodeEscaped(c, o + 1, o + 1 + |Escape(s)|, s);
  }

  lemma WholeCString(s: string)
    requires NulFree(s)
    ensures CString(s) == s
  {
    assert |CString(s)| == |s|;
  }

  // ---- Values ----

  predicate Blank(c: string, a: nat, b: nat) {
    a <= b <= |c| && forall i :: a <= i < b ==> c[i] <= ' '
  }

  lemma {:induction false} SkipTo(c: string, a: nat, b: nat)
    requires Blank(c, a, b) && b < |c| && c[b] > ' '
    ensures SkipWhitespace(c, a) == b && SkipBlank(c, a) == b
    decreases b - a
  {
    if a < b {
      SkipTo(c, a + 1, b);
    }
  }

  lemma RenderStart(v: Json, fmt: bool, depth: nat)
    requires Printable(v)
    ensures Render(v, fmt, depth)[0] > ' ' && Render(v, fmt, depth)[0] != ']'
  {
    if v.Number? {
      RenderIntShape(v.r.Floor);
    }
  }

  lemma StartChar(c: string, o: nat, s: string)
    requires StartsWith(c, o, s) && s != []
    ensures o + |s| <= |c| && c[o] == s[0]
  {
    assert c[o] == c[o..o + |s|][0];
  }

  // What the parser does next, by the character it is at.

  lemma OtherWord(c: string, o: nat, w: string)
    requires o < |c| && w != [] && c[o] != w[0]
    ensures !StartsWith(c, o, w)
  {
    if StartsWith(c, o, w) {
      StartChar(c, o, w);
      assert false;
    }
  }

  lemma NoWord(c: string, o: nat)
    requires o < |c| && c[o] != 'n' && c[o] != 'f' && c[o] != 't'
    ensures !StartsWith(c, o, "null") && !StartsWith(c, o, "false") && !StartsWith(c, o, "true")
  {
    OtherWord(c, o, "null");
    OtherWord(c, o, "false");
    OtherWord(c, o, "true");
  }

  lemma ParseWord(c: string, o: nat, d: nat)
    requires Terminated(c) && o < |c|
    ensures StartsWith(c, o, "null") ==> ParseValue(c, o, d) == Ok(Null, o + 4)
    ensures StartsWith(c, o, "false") ==> ParseValue(c, o, d) == Ok(Bool(false), o + 5)
    ensures StartsWith(c, o, "true") ==> ParseValue(c, o, d) == Ok(Bool(true), o + 4)
  {
    if StartsWith(c, o, "false") {
      StartChar(c, o, "false");
      OtherWord(c, o, "null");
    } else if StartsWith(c, o, "true") {
      StartChar(c, o, "true");
      OtherWord(c, o, "null");
    }
  }

  lemma ParseDispatch(c: string, o: nat, d: nat)
    requires Terminated(c) && o < |c|
    ensures c[o] == '[' ==> ParseValue(c, o, d) == ParseArray(c, o, d)
    ensures c[o] == '{' ==> ParseValue(c, o, d) == ParseObject(c, o, d)
    ensures c[o] == '-' || IsDigit(c[o]) ==> ParseValue(c, o, d) == ParseNumber(c, o)
    ensures c[o] == '"' && ParseString(c, o).Ok? ==>
              ParseValue(c, o, d) == Ok(String(ParseString(c, o).value), ParseString(c, o).offset)
  {
    if c[o] != 'n' && c[o] != 'f' && c[o] != 't' {
      NoWord(c, o);
    }
  }

  lemma ArrayStep(c: string, o: nat, d: nat, s: nat)
    requires Terminated(c) && o < |c| && c[o] == '[' && Blank(c, o + 1, s) && s < |c| && c[s] > ' '
    ensures d >= NESTING_LIMIT ==> ParseArray(c, o, d).Err?
    ensures d < NESTING_LIMIT && c[s] == ']' ==> ParseArray(c, o, d) == Ok(Array([]), s + 1)
    ensures d < NESTING_LIMIT && c[s] != ']' ==>
              var p := ParseElements(c, s - 1, d + 1);
              ParseArray(c, o, d) == if p.Ok? then Ok(Array(p.value), p.offset) else Err(p.offset)
  {
    hide ParseElements, Terminated;
    SkipTo(c, o + 1, s);
  }

  lemma ElementsStep(c: string, o: nat, d: nat, s: nat)
    requires Terminated(c) && Blank(c, o + 1, s) && s < |c| && c[s] > ' '
    ensures ParseValue(c, s, d).Err? ==> ParseElements(c, o, d).Err?
    ensures ParseValue(c, s, d).Ok? && c[ParseValue(c, s, d).offset] == ',' ==>
              ParseElements(c, o, d) == Cons(ParseValue(c, s, d).value, ParseElements(c, ParseValue(c, s, d).offset, d))
    ensures ParseValue(c, s, d).Ok? && c[ParseValue(c, s, d).offset] == ']' ==>
              ParseElements(c, o, d) == Ok([ParseValue(c, s, d).value], ParseValue(c, s, d).offset + 1)
  {
    hide ParseValue, Terminated, IsNumberChar;
    SkipTo(c, o + 1, s);
    var p := ParseValue(c, s, d);
    if p.Ok? && c[p.offset] > ' ' {
      SkipTo(c, p.offset, p.offset);
    }
  }

  lemma ObjectStep(c: string, o: nat, d: nat, s: nat)
    requires Terminated(c) && o < |c| && c[o] == '{' && Blank(c, o + 1, s) && s < |c| && c[s] > ' '
    ensures d >= NESTING_LIMIT ==> ParseObject(c, o, d).Err?
    ensures d < NESTING_LIMIT && c[s] == '}' ==> ParseObject(c, o, d) == Ok(Object([]), s + 1)
    ensures d < NESTING_LIMIT && c[s] != '}' ==>
              var p := ParseMembers(c, s - 1, d + 1);
              ParseObject(c, o, d) == if p.Ok? then Ok(Object(p.value), p.offset) else Err(p.offset)
  {
    hide ParseMembers, Terminated;
    SkipTo(c, o + 1, s);
  }

  /** A key at `k`, its colon right behind it, and the value at `s`. */
  lemma MemberStep(c: string, o: nat, d: nat, k: nat, s: nat)
    requires Terminated(c) && Blank(c, o + 1, k) && k < |c| && c[k] > ' '
    requires ParseString(c, k).Ok? && ParseString(c, k).offset < |c| && c[ParseString(c, k).offset] == ':'
    requires Blank(c, ParseString(c, k).offset + 1, s) && s < |c| && c[s] > ' '
    ensures var p := ParseValue(c, s, d);
            ParseMember(c, o, d) ==
              if p.Ok? then Ok(Member(ParseString(c, k).value, p.value), p.offset) else Err(p.offset)
  {
    hide ParseValue, ParseString, Blank, Terminated;
    SkipTo(c, o + 1, k);
    var q := ParseString(c, k).offset;
    SkipTo(c, q, q);
    SkipTo(c, q + 1, s);
  }

  lemma MembersStep(c: string, o: nat, d: nat, s: nat)
    requires Terminated(c) && o + 1 < |c|
    requires ParseMember(c, o, d).Ok? ==> Blank(c, ParseMember(c, o, d).offset, s) && s < |c| && c[s] > ' '
    ensures ParseMember(c, o, d).Err? ==> ParseMembers(c, o, d).Err?
    ensures ParseMember(c, o, d).Ok? && c[s] == ',' ==>
              ParseMembers(c, o, d) == Cons(ParseMember(c, o, d).value, ParseMembers(c, s, d))
    ensures ParseMember(c, o, d).Ok? && c[s] == '}' ==>
              ParseMembers(c, o, d) == Ok([ParseMember(c, o, d).value], s + 1)
  {
    hide ParseMember, Terminated;
    if ParseMember(c, o, d).Ok? {
      SkipTo(c, ParseMember(c, o, d).offset, s);
    }
  }

  // How a rendering is put together.

  function ItemsTail(rest: seq<Json>, fmt: bool, depth: nat): (t: string)
    requires PrintableItems(rest)
    ensures |t| > 0 && t[0] == (if rest == [] then ']' else ',')
  {
    if rest == [] then "]" else ItemSeparator(fmt) + (RenderItems(rest, fmt, depth) + "]")
  }

  lemma ItemsShape(items: seq<Json>, fmt: bool, depth: nat)
    requires items != [] && PrintableItems(items)
    ensures RenderItems(items, fmt, depth) + "]" == Render(items[0], fmt, depth) + ItemsTail(items[1..], fmt, depth)
  {
    if |items| > 1 {
      var t, sep, r := Render(items[0], fmt, depth), ItemSeparator(fmt), RenderItems(items[1..], fmt, depth);
      assert t + sep + r + "]" == t + (sep + (r + "]"));
    }
  }

  function MemberBody(m: Member, fmt: bool, depth: nat): (t: string)
    requires PrintableMember(m)
    ensures |t| > 0 && t[0] == '"'
  {
    RenderString(m.key) + (KeySeparator(fmt) + Render(m.value, fmt, depth))
  }

  function Closing(fmt: bool, outer: nat): string {
    Indent(fmt, outer) + "}"
  }

  lemma MembersShape(ms: seq<Member>, fmt: bool, depth: nat, close: string)
    requires ms != [] && PrintableMembers(ms)
    ensures PrintableMember(ms[0])
    ensures RenderMembers(ms, fmt, depth) + close ==
            Indent(fmt, depth) + (MemberBody(ms[0], fmt, depth)
                                  + (MemberEnd(|ms| == 1, fmt) + (RenderMembers(ms[1..], fmt, depth) + close)))
  {
    assert PrintableMember(ms[0]);
    var i, k, p, v, e, r := Indent(fmt, depth), RenderString(ms[0].key), KeySeparator(fmt),
      Render(ms[0].value, fmt, depth), MemberEnd(|ms| == 1, fmt), RenderMembers(ms[1..], fmt, depth);
    Regroup(i, k, p, v, e, r, close);
  }

  lemma NoMembers(fmt: bool, depth: nat, close: string)
    ensures RenderMembers([], fmt, depth) == ""
    ensures RenderMembers([], fmt, depth) + close == close
  {
  }

  lemma Regroup(i: string, k: string, p: string, v: string, e: string, r: string, close: string)
    ensures i + k + p + v + e + r + close == i + ((k + (p + v)) + (e + (r + close)))
  {
  }

  // ---- The round trip, by induction on the value ----

  /** At any nesting level, and whatever follows, as long as it cannot continue a number. */
  lemma {:induction false} ParseRendered(v: Json, fmt: bool, depth: nat, c: string, o: nat, d: nat)
    requires Printable(v) && Terminated(c) && d <= NESTING_LIMIT
    requires StartsWith(c, o, Render(v, fmt, depth))
    requires o + |Render(v, fmt, depth)| < |c| && !IsNumberChar(c[o + |Render(v, fmt, depth)|])
    ensures d + Nesting(v) <= NESTING_LIMIT ==> ParseValue(c, o, d) == Ok(v, o + |Render(v, fmt, depth)|)
    ensures d + Nesting(v) > NESTING_LIMIT ==> ParseValue(c, o, d).Err?
    decreases v, 3
  {
    StartChar(c, o, Render(v, fmt, depth));
    match v
    case Null =>
      ParseWord(c, o, d);
    case Bool(b) =>
      ParseWord(c, o, d);
    case Number(r) =>
      RenderIntShape(r.Floor);
      ParseRenderedNumber(r.Floor, c, o);
      ParseDispatch(c, o, d);
    case String(s) =>
      ParseRenderedString(s, c, o);
      ParseDispatch(c, o, d);
    case Array(items) =>
      ParseRenderedArray(items, fmt, depth, c, o, d);
      ParseDispatch(c, o, d);
    case Object(ms) =>
      ParseRenderedObject(ms, fmt, depth, c, o, d);
      ParseDispatch(c, o, d);
  }

  lemma {:induction false} ParseRenderedArray(
    items: seq<Json>, fmt: bool, depth: nat, c: string, o: nat, d: nat)
    requires PrintableItems(items) && Terminated(c) && d <= NESTING_LIMIT
    requires StartsWith(c, o, "[" + RenderItems(items, fmt, depth + 1) + "]") && c[o] == '['
    ensures d + 1 + NestingItems(items) <= NESTING_LIMIT ==>
              ParseArray(c, o, d) == Ok(Array(items), o + |RenderItems(items, fmt, depth + 1)| + 2)
    ensures d + 1 + NestingItems(items) > NESTING_LIMIT ==> ParseArray(c, o, d).Err?
    decreases items, 4
  {
    hide ParseArray, ParseElements, Terminated, StartsWith, Render, Printable;
    var t := RenderItems(items, fmt, depth + 1);
    assert "[" + t + "]" == "[" + (t + "]");
    Split(c, o, "[", t + "]");
    StartChar(c, o + 1, t + "]");
    if items == [] {
      ArrayStep(c, o, d, o + 1);
    } else {
      ItemsShape(items, fmt, depth + 1);
      RenderStart(items[0], fmt, depth + 1);
      ArrayStep(c, o, d, o + 1);
      if d < NESTING_LIMIT {
        ParseRenderedItems(items, fmt, depth + 1, c, o, o + 1, d + 1);
      }
    }
  }

  /** `s` is where the first item starts; only blanks lie between `o` and it. */
  lemma {:induction false} ParseRenderedItems(
    items: seq<Json>, fmt: bool, depth: nat, c: string, o: nat, s: nat, d: nat)
    requires items != [] && PrintableItems(items) && Terminated(c) && d <= NESTING_LIMIT
    requires Blank(c, o + 1, s) && StartsWith(c, s, RenderItems(items, fmt, depth) + "]")
    ensures d + NestingItems(items) <= NESTING_LIMIT ==>
              ParseElements(c, o, d) == Ok(items, s + |RenderItems(items, fmt, depth)| + 1)
    ensures d + NestingItems(items) > NESTING_LIMIT ==> ParseElements(c, o, d).Err?
    decreases items, 3
  {
    hide ParseValue, ParseElements, Terminated, StartsWith, Render, RenderItems, Printable;
    var v, rest := items[0], items[1..];
    var t, tail := Render(v, fmt, depth), ItemsTail(rest, fmt, depth);
    ItemsShape(items, fmt, depth);
    Split(c, s, t, tail);
    RenderStart(v, fmt, depth);
    StartChar(c, s, t);
    StartChar(c, s + |t|, tail);
    ParseRendered(v, fmt, depth, c, s, d);
    ElementsStep(c, o, d, s);
    if rest == [] {
      assert items == [v];
    } else {
      var q, sep := s + |t|, ItemSeparator(fmt);
      Split(c, q, sep, RenderItems(rest, fmt, depth) + "]");
      CharsOf(c, q, sep);
      ParseRenderedItems(rest, fmt, depth, c, q, q + |sep|, d);
      assert items == [v] + rest;
    }
  }

  lemma {:induction false} ParseRenderedObject(
    ms: seq<Member>, fmt: bool, depth: nat, c: string, o: nat, d: nat)
    requires PrintableMembers(ms) && Terminated(c) && d <= NESTING_LIMIT
    requires StartsWith(c, o, OpenBrace(fmt) + RenderMembers(ms, fmt, depth + 1)
                              + Indent(fmt, depth) + "}") && c[o] == '{'
    ensures d + 1 + NestingMembers(ms) <= NESTING_LIMIT ==>
              ParseObject(c, o, d) == Ok(Object(ms), o + |OpenBrace(fmt)|
                                                     + |RenderMembers(ms, fmt, depth + 1)| + |Indent(fmt, depth)| + 1)
    ensures d + 1 + NestingMembers(ms) > NESTING_LIMIT ==> ParseObject(c, o, d).Err?
    decreases ms, 6
  {
    hide ParseObject, ParseMembers, Terminated, StartsWith, RenderMembers, PrintableMember;
    var s, k := ObjectLayout(ms, fmt, depth, c, o);
    ObjectStep(c, o, d, k);
    if ms != [] && d < NESTING_LIMIT {
      ParseRenderedMembers(ms, fmt, depth + 1, depth, c, k - 1, s, d + 1);
    }
  }

  /** Where the members start (`s`) and where the first key or the closing brace is (`k`). */
  lemma ObjectLayout(ms: seq<Member>, fmt: bool, depth: nat, c: string, o: nat) returns (s: nat, k: nat)
    requires PrintableMembers(ms)
    requires StartsWith(c, o, OpenBrace(fmt) + RenderMembers(ms, fmt, depth + 1)
                              + Indent(fmt, depth) + "}")
    ensures s == o + |OpenBrace(fmt)|
    ensures StartsWith(c, s, RenderMembers(ms, fmt, depth + 1) + Closing(fmt, depth))
    ensures Blank(c, o + 1, k) && k < |c| && c[k] == (if ms == [] then '}' else '"')
    ensures k == s + (if ms == [] then |Indent(fmt, depth)| else |Indent(fmt, depth + 1)|)
    ensures ms == [] ==> RenderMembers(ms, fmt, depth + 1) == ""
  {
    hide StartsWith, RenderMembers, PrintableMember;
    var open, t, close := OpenBrace(fmt), RenderMembers(ms, fmt, depth + 1), Closing(fmt, depth);
    assert open + t + Indent(fmt, depth) + "}" == open + (t + close);
    Split(c, o, open, t + close);
    s := o + |open|;
    assert Blank(c, o + 1, s) by { CharsOf(c, o, open); }
    if ms == [] {
      NoMembers(fmt, depth + 1, close);
      k := ClosingLayout(fmt, depth, c, s);
    } else {
      k := s + |Indent(fmt, depth + 1)|;
      MemberStart(ms, fmt, depth + 1, close, c, s);
    }
  }

  lemma ClosingLayout(fmt: bool, outer: nat, c: string, s: nat) returns (k: nat)
    requires StartsWith(c, s, Closing(fmt, outer))
    ensures k == s + |Indent(fmt, outer)| && k < |c| && Blank(c, s, k) && c[k] == '}'
  {
    k := s + |Indent(fmt, outer)|;
    Split(c, s, Indent(fmt, outer), "}");
    TabsAreBlank(c, s, fmt, outer);
    StartChar(c, k, "}");
  }

  lemma TabsAreBlank(c: string, s: nat, fmt: bool, n: nat)
    requires StartsWith(c, s, Indent(fmt, n))
    ensures Blank(c, s, s + |Indent(fmt, n)|)
  {
    CharsOf(c, s, Indent(fmt, n));
  }

  lemma MemberStart(ms: seq<Member>, fmt: bool, depth: nat, close: string, c: string, s: nat)
    requires ms != [] && PrintableMembers(ms)
    requires StartsWith(c, s, RenderMembers(ms, fmt, depth) + close)
    ensures var k := s + |Indent(fmt, depth)|;
            k < |c| && c[k] == '"' && Blank(c, s, k)
  {
    hide StartsWith, RenderMembers, PrintableMember, MemberBody;
    MembersShape(ms, fmt, depth, close);
    var body := MemberBody(ms[0], fmt, depth);
    var tail := body + (MemberEnd(|ms| == 1, fmt) + (RenderMembers(ms[1..], fmt, depth) + close));
    Split(c, s, Indent(fmt, depth), tail);
    TabsAreBlank(c, s, fmt, depth);
    StartChar(c, s + |Indent(fmt, depth)|, tail);
  }

  /** One member whose key is at `k`; only blanks lie between `o` and it. */
  lemma {:induction false} ParseRenderedMember(
    m: Member, fmt: bool, depth: nat, c: string, o: nat, k: nat, d: nat)
    requires PrintableMember(m) && Terminated(c) && d <= NESTING_LIMIT
    requires Blank(c, o + 1, k) && StartsWith(c, k, MemberBody(m, fmt, depth))
    requires k + |MemberBody(m, fmt, depth)| < |c| && !IsNumberChar(c[k + |MemberBody(m, fmt, depth)|])
    ensures d + Nesting(m.value) <= NESTING_LIMIT ==>
              ParseMember(c, o, d) == Ok(m, k + |MemberBody(m, fmt, depth)|)
    ensures d + Nesting(m.value) > NESTING_LIMIT ==> ParseMember(c, o, d).Err?
    decreases m, 4
  {
    hide ParseValue, ParseString, ParseMember, Terminated, StartsWith, Render, Printable, MemberBody;
    var q, v := MemberLayout(m, fmt, depth, c, k);
    MemberStep(c, o, d, k, v);
    ParseRendered(m.value, fmt, depth, c, v, d);
  }

  /** Behind the key, at `q`, is the colon; the value starts at `v`. */
  lemma MemberLayout(m: Member, fmt: bool, depth: nat, c: string, k: nat) returns (q: nat, v: nat)
    requires PrintableMember(m) && StartsWith(c, k, MemberBody(m, fmt, depth))
    ensures k < q && c[k] == '"' && ParseString(c, k) == Ok(m.key, q)
    ensures q < v < |c| && c[q] == ':' && Blank(c, q + 1, v) && c[v] > ' '
    ensures StartsWith(c, v, Render(m.value, fmt, depth))
    ensures v + |Render(m.value, fmt, depth)| == k + |MemberBody(m, fmt, depth)|
  {
    hide ParseString, StartsWith, Render, Printable;
    var key, sep, t := RenderString(m.key), KeySeparator(fmt), Render(m.value, fmt, depth);
    assert MemberBody(m, fmt, depth) == key + (sep + t);
    Split(c, k, key, sep + t);
    StartChar(c, k, key);
    ParseRenderedString(m.key, c, k);
    q := k + |key|;
    Split(c, q, sep, t);
    CharsOf(c, q, sep);
    v := q + |sep|;
    assert c[q] == ':' && Blank(c, q + 1, v);
    RenderStart(m.value, fmt, depth);
    StartChar(c, v, t);
  }

  lemma FirstMemberLayout(ms: seq<Member>, fmt: bool, depth: nat, close: string, c: string, s: nat)
    returns (k: nat, q: nat)
    requires ms != [] && PrintableMembers(ms)
    requires StartsWith(c, s, RenderMembers(ms, fmt, depth) + close)
    ensures PrintableMember(ms[0])
    ensures k == s + |Indent(fmt, depth)| && StartsWith(c, k, MemberBody(ms[0], fmt, depth))
    ensures q == k + |MemberBody(ms[0], fmt, depth)|
    ensures var end, tail := MemberEnd(|ms| == 1, fmt), RenderMembers(ms[1..], fmt, depth) + close;
            && q + |end| <= |c| && (forall i :: q <= i < q + |end| ==> c[i] == end[i - q])
            && StartsWith(c, q + |end|, tail)
            && q + |end| + |tail| == s + |RenderMembers(ms, fmt, depth) + close|
  {
    hide RenderMembers, PrintableMember, MemberBody;
    MembersShape(ms, fmt, depth, close);
    var body, end := MemberBody(ms[0], fmt, depth), MemberEnd(|ms| == 1, fmt);
    var tail := RenderMembers(ms[1..], fmt, depth) + close;
    Split(c, s, Indent(fmt, depth), body + (end + tail));
    k := s + |Indent(fmt, depth)|;
    Split(c, k, body, end + tail);
    q := k + |body|;
    Split(c, q, end, tail);
    CharsOf(c, q, end);
  }

  /** Behind the last member: its line end, the indentation and, at `z`, the brace. */
  lemma LastMemberLayout(m: Member, fmt: bool, depth: nat, outer: nat, c: string, s: nat) returns (k: nat, q: nat, z: nat)
    requires PrintableMembers([m])
    requires StartsWith(c, s, RenderMembers([m], fmt, depth) + Closing(fmt, outer))
    ensures PrintableMember(m)
    ensures k == s + |Indent(fmt, depth)| && StartsWith(c, k, MemberBody(m, fmt, depth))
    ensures q == k + |MemberBody(m, fmt, depth)| && q < |c| && c[q] in "\n\t}"
    ensures Blank(c, q, z) && z < |c| && c[z] == '}'
    ensures z + 1 == s + |RenderMembers([m], fmt, depth) + Closing(fmt, outer)|
  {
    hide StartsWith, RenderMembers, PrintableMember, MemberBody;
    k, q := FirstMemberLayout([m], fmt, depth, Closing(fmt, outer), c, s);
    var e := q + |MemberEnd(true, fmt)|;
    assert [m][1..] == [];
    NoMembers(fmt, depth, Closing(fmt, outer));
    z := ClosingLayout(fmt, outer, c, e);
    if fmt {
      assert c[q] == '\n';
    }
  }

  /** Behind any other member: a comma, and the next member at `n`. */
  lemma NextMemberLayout(ms: seq<Member>, fmt: bool, depth: nat, outer: nat, c: string, s: nat)
    returns (k: nat, q: nat, n: nat)
    requires |ms| > 1 && PrintableMembers(ms)
    requires StartsWith(c, s, RenderMembers(ms, fmt, depth) + Closing(fmt, outer))
    ensures PrintableMember(ms[0])
    ensures k == s + |Indent(fmt, depth)| && StartsWith(c, k, MemberBody(ms[0], fmt, depth))
    ensures q == k + |MemberBody(ms[0], fmt, depth)| && q < |c| && c[q] == ','
    ensures StartsWith(c, n, RenderMembers(ms[1..], fmt, depth) + Closing(fmt, outer))
    ensures Blank(c, q + 1, n + |Indent(fmt, depth)|)
    ensures n + |RenderMembers(ms[1..], fmt, depth) + Closing(fmt, outer)|
            == s + |RenderMembers(ms, fmt, depth) + Closing(fmt, outer)|
  {
    hide StartsWith, RenderMembers, PrintableMember, MemberBody;
    k, q := FirstMemberLayout(ms, fmt, depth, Closing(fmt, outer), c, s);
    n := q + |MemberEnd(false, fmt)|;
    MemberStart(ms[1..], fmt, depth, Closing(fmt, outer), c, n);
    assert c[q] == ',';
  }

  /** `s` is where the indentation of the first member starts; only blanks lie between `o` and its key. */
  lemma {:induction false} ParseRenderedMembers(
    ms: seq<Member>, fmt: bool, depth: nat, outer: nat, c: string, o: nat, s: nat, d: nat)
    requires ms != [] && PrintableMembers(ms) && Terminated(c) && d <= NESTING_LIMIT
    requires StartsWith(c, s, RenderMembers(ms, fmt, depth) + Closing(fmt, outer))
    requires Blank(c, o + 1, s + |Indent(fmt, depth)|)
    ensures d + NestingMembers(ms) <= NESTING_LIMIT ==>
              ParseMembers(c, o, d) == Ok(ms, s + |RenderMembers(ms, fmt, depth) + Closing(fmt, outer)|)
    ensures d + NestingMembers(ms) > NESTING_LIMIT ==> ParseMembers(c, o, d).Err?
    decreases ms, 5
  {
    hide ParseMember, ParseMembers, Terminated, StartsWith, Render, RenderMembers, PrintableMember, MemberBody;
    var m, rest, close := ms[0], ms[1..], Closing(fmt, outer);
    if rest == [] {
      assert ms == [m];
      assert NestingMembers(ms) == Nesting(m.value);
      var k, q, z := LastMemberLayout(m, fmt, depth, outer, c, s);
      ParseRenderedMember(m, fmt, depth, c, o, k, d);
      MembersStep(c, o, d, z);
    } else {
      var k, q, n := NextMemberLayout(ms, fmt, depth, outer, c, s);
      ParseRenderedMember(m, fmt, depth, c, o, k, d);
      MembersStep(c, o, d, q);
      ParseRenderedMembers(rest, fmt, depth, outer, c, q, n, d);
      assert ms == [m] + rest;
    }
  }

  // ---- The rendering contains no NUL ----

  lemma {:induction false} EscapeNulFree(s: string)
    requires NulFree(s)
    ensures NulFree(Escape(s))
  {
    if s != [] {
      EscapeNulFree(s[1..]);
    }
  }

  lemma {:induction false} RenderNulFree(v: Json, fmt: bool, depth: nat)
    requires Printable(v)
    ensures NulFree(Render(v, fmt, depth))
    decreases v, 1
  {
    hide RenderItems, RenderMembers, Escape, PrintableMember;
    match v
    case Null =>
    case Bool(_) =>
    case Number(r) =>
      RenderIntShape(r.Floor);
    case String(s) =>
      EscapeNulFree(s);
    case Array(items) =>
      RenderItemsNulFree(items, fmt, depth + 1);
    case Object(ms) =>
      RenderMembersNulFree(ms, fmt, depth + 1);
      NulFreeObject(OpenBrace(fmt), RenderMembers(ms, fmt, depth + 1), fmt, depth);
  }

  lemma NulFreeObject(open: string, t: string, fmt: bool, depth: nat)
    requires NulFree(open) && NulFree(t)
    ensures NulFree(open + t + Indent(fmt, depth) + "}")
  {
  }

  lemma {:induction false} RenderItemsNulFree(items: seq<Json>, fmt: bool, depth: nat)
    requires PrintableItems(items)
    ensures NulFree(RenderItems(items, fmt, depth))
    decreases items, 0
  {
    hide Render, Printable;
    if items != [] {
      RenderNulFree(items[0], fmt, depth);
      RenderItemsNulFree(items[1..], fmt, depth);
    }
  }

  /** Indentation and line ends contain no NUL either. */
  lemma NulFreeParts(i: string, fmt: bool, depth: nat, b: string, e: string, last: bool, r: string)
    requires i == Indent(fmt, depth) && NulFree(b) && e == MemberEnd(last, fmt) && NulFree(r)
    ensures NulFree(i + (b + (e + (r + ""))))
  {
  }

  lemma {:induction false} MemberBodyNulFree(m: Member, fmt: bool, depth: nat)
    requires PrintableMember(m)
    ensures NulFree(MemberBody(m, fmt, depth))
    decreases m, 2
  {
    hide Render, Printable;
    EscapeNulFree(m.key);
    RenderNulFree(m.value, fmt, depth);
  }

  lemma {:induction false} RenderMembersNulFree(ms: seq<Member>, fmt: bool, depth: nat)
    requires PrintableMembers(ms)
    ensures NulFree(RenderMembers(ms, fmt, depth))
    decreases ms, 0
  {
    hide Render, RenderString, PrintableMember;
    if ms != [] {
      RenderMembersNulFree(ms[1..], fmt, depth);
      MembersShape(ms, fmt, depth, "");
      MemberBodyNulFree(ms[0], fmt, depth);
      NulFreeParts(Indent(fmt, depth), fmt, depth, MemberBody(ms[0], fmt, depth),
                   MemberEnd(|ms| == 1, fmt), |ms| == 1, RenderMembers(ms[1..], fmt, depth));
      assert RenderMembers(ms, fmt, depth) + "" == RenderMembers(ms, fmt, depth);
    }
  }

  /** The round trip, formatted or not: printing and parsing back gives the same value, and the text is consumed to
      its end, exactly when at most 1000 containers are nested. */
  lemma RoundTrip(v: Json, fmt: bool)
    requires Printable(v)
    ensures NulFree(Render(v, fmt, 0))
    ensures Nesting(v) <= 1000 <==> Parse(Render(v, fmt, 0), true) == Ok(v, |Render(v, fmt, 0)|)
    ensures Nesting(v) > 1000 <==> Parse(Render(v, fmt, 0), true).Err?
  {
    hide ParseValue, Render, Printable;
    var t := Render(v, fmt, 0);
    RenderNulFree(v, fmt, 0);
    var c := t + [NUL];
    assert c[..|t|] == t;
    assert StartsWith(c, 0, t);
    RenderStart(v, fmt, 0);
    RenderAscii(v, fmt);
    assert SkipBom(c) == 0 by {
      assert c[0] == t[0];
      assert |c| > 4 ==> c[..3][0] == c[0];
    }
    SkipTo(c, 0, 0);
    ParseRendered(v, fmt, 0, c, 0, 0);
  }

  lemma RenderAscii(v: Json, fmt: bool)
    requires Printable(v)
    ensures Render(v, fmt, 0)[0] < 0x80 as char
  {
    if v.Number? {
      RenderIntShape(v.r.Floor);
    }
  }
}
