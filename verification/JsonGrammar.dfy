/** The grammar of the parser: concrete syntax with blanks wherever they may stand, and the value it denotes. */
module JsonGrammar {
  import A = JsonAccepted
  import opened Decimal
  import opened Json
  import opened JsonText
  import N = JsonNumber
  import R = JsonRoundTrip
  import opened Wrappers

  /** A value as it is written.  A literal comes with the string it is read as, a numeral with its number. */
  datatype Syntax =
    | Word(value: Json)
    | Numeral(n: N.Numeral, r: real)
    | Quoted(text: string, s: string)
    | Elements(slots: seq<Slot>, gap: string)
    | Fields(fields: seq<Field>, gap: string)

  /** An element between blanks. */
  datatype Slot = Slot(before: string, value: Syntax, after: string)

  /** A key, a colon and a value, all between blanks. */
  datatype Field = Field(before: string, key: string, name: string, middle: string, slot: Slot)

  /** The control characters and the space. */
  predicate Blanks(s: string) {
    forall i :: 0 <= i < |s| ==> s[i] as int <= 32
  }

  /** A literal that stands alone and is read as `s`. */
  predicate IsLiteral(text: string, s: string) {
    text != "" && ParseString(text, 0) == Ok(s, |text|)
  }

  function WordText(v: Json): string {
    match v
    case Null => "null"
    case Bool(b) => if b then "true" else "false"
    case _ => ""
  }

  ghost predicate Proper(x: Syntax) {
    match x
    case Word(v) => v.Null? || v.Bool?
    case Numeral(n, r) => N.Proper(n) && n.sign != "+" && (n.sign == "" ==> n.whole != "") && |N.Text(n)| <= 63 && N.Denotes(n, r)
    case Quoted(text, s) => IsLiteral(text, s)
    case Elements(slots, gap) => Blanks(gap) && forall i :: 0 <= i < |slots| ==> ProperSlot(slots[i])
    case Fields(fields, gap) => Blanks(gap) && forall i :: 0 <= i < |fields| ==> ProperField(fields[i])
  }

  ghost predicate ProperSlot(s: Slot) {
    Blanks(s.before) && Proper(s.value) && Blanks(s.after)
  }

  ghost predicate ProperField(f: Field) {
    Blanks(f.before) && IsLiteral(f.key, f.name) && Blanks(f.middle) && ProperSlot(f.slot)
  }

  ghost predicate ProperSlots(slots: seq<Slot>) {
    forall i :: 0 <= i < |slots| ==> ProperSlot(slots[i])
  }

  ghost predicate ProperFields(fields: seq<Field>) {
    forall i :: 0 <= i < |fields| ==> ProperField(fields[i])
  }

  // ---- The text of a syntax, and its meaning ----

  function Text(x: Syntax): string
    decreases x, 1
  {
    match x
    case Word(v) => WordText(v)
    case Numeral(n, _) => N.Text(n)
    case Quoted(text, _) => text
    case Elements(slots, gap) => "[" + (SlotsText(slots) + (gap + "]"))
    case Fields(fields, gap) => "{" + (FieldsText(fields) + (gap + "}"))
  }

  function SlotText(s: Slot): string
    decreases s, 2
  {
    s.before + (Text(s.value) + s.after)
  }

  function FieldText(f: Field): string
    decreases f, 3
  {
    f.before + (f.key + (f.middle + (":" + SlotText(f.slot))))
  }

  /** The elements with commas between them. */
  function SlotsText(slots: seq<Slot>): string
    decreases slots, 0
  {
    if slots == [] then "" else SlotText(slots[0]) + ((if |slots| > 1 then "," else "") + SlotsText(slots[1..]))
  }

  function FieldsText(fields: seq<Field>): string
    decreases fields, 0
  {
    if fields == [] then "" else FieldText(fields[0]) + ((if |fields| > 1 then "," else "") + FieldsText(fields[1..]))
  }

  function Meaning(x: Syntax): Json
    decreases x, 1
  {
    match x
    case Word(v) => v
    case Numeral(_, r) => Number(r)
    case Quoted(_, s) => String(s)
    case Elements(slots, _) => Array(SlotMeanings(slots))
    case Fields(fields, _) => Object(FieldMeanings(fields))
  }

  function SlotMeanings(slots: seq<Slot>): (vs: seq<Json>)
    ensures |vs| == |slots|
    decreases slots, 0
  {
    if slots == [] then [] else [Meaning(slots[0].value)] + SlotMeanings(slots[1..])
  }

  function FieldMeanings(fields: seq<Field>): (ms: seq<Member>)
    ensures |ms| == |fields|
    decreases fields, 0
  {
    if fields == [] then [] else [Member(fields[0].name, Meaning(fields[0].slot.value))] + FieldMeanings(fields[1..])
  }

  // ---- Literals may stand anywhere ----

  predicate SameChars(t: string, c: string, o: nat) {
    o + |t| <= |c| && forall i :: 0 <= i < |t| ==> c[o + i] == t[i]
  }

  lemma {:induction false} ScanLocal(t: string, c: string, o: nat, i: nat)
    requires SameChars(t, c, o) && i <= |t|
    ensures ScanString(t, i).Some? ==> ScanString(c, o + i) == Some(o + ScanString(t, i).value)
    ensures ScanString(c, o + i).Some? && ScanString(c, o + i).value < o + |t| ==>
              ScanString(t, i) == Some(ScanString(c, o + i).value - o)
    decreases |t| - i
  {
    if i < |t| && t[i] != '"' {
      if t[i] == '\\' {
        if i + 2 <= |t| { ScanLocal(t, c, o, i + 2); }
      } else {
        ScanLocal(t, c, o, i + 1);
      }
    }
  }

  function Shifted(d: Decoded, o: nat): Decoded {
    match d
    case Decoded(_) => d
    case Bad(at) => Bad(o + at)
  }

  lemma UnitLocal(t: string, c: string, o: nat, i: nat, end: nat)
    requires SameChars(t, c, o) && i <= end < |t|
    ensures Utf16Literal(c, o + i, o + end) == Utf16Literal(t, i, end)
  {
    hide ParseHex4;
    if end - i >= 6 {
      assert t[i + 2..i + 6] == c[o + i + 2..o + i + 6];
      if end - i >= 12 {
        assert t[i + 8..i + 12] == c[o + i + 8..o + i + 12];
      }
    }
  }

  lemma {:induction false} DecodeLocal(t: string, c: string, o: nat, i: nat, end: nat)
    requires SameChars(t, c, o) && i <= end + 1 && end < |t|
    ensures Decode(c, o + i, o + end) == Shifted(Decode(t, i, end), o)
    decreases end + 1 - i
  {
    hide Utf16Literal, Unescape;
    if i < end {
      if t[i] != '\\' {
        DecodeLocal(t, c, o, i + 1, end);
      } else if t[i + 1] == 'u' {
        UnitLocal(t, c, o, i, end);
        var l := Utf16Literal(t, i, end);
        if l.Some? { DecodeLocal(t, c, o, i + l.value.length, end); }
      } else if Unescape(t[i + 1]).Some? {
        DecodeLocal(t, c, o, i + 2, end);
      }
    }
  }

  /** A literal is read the same wherever it stands. */
  lemma LiteralAnywhere(text: string, s: string, c: string, o: nat)
    requires IsLiteral(text, s) && StartsWith(c, o, text)
    ensures o < |c| && c[o] == '"' && ParseString(c, o) == Ok(s, o + |text|)
  {
    hide ScanString, Decode, CString;
    R.CharsOf(c, o, text);
    assert SameChars(text, c, o);
    ScanLocal(text, c, o, 1);
    DecodeLocal(text, c, o, 1, ScanString(text, 1).value);
  }

  /** And what was read as a string is a literal. */
  lemma LiteralFound(c: string, o: nat) returns (text: string)
    requires o < |c| && ParseString(c, o).Ok?
    ensures var p := ParseString(c, o); o < p.offset <= |c| && text == c[o..p.offset] && IsLiteral(text, p.value)
  {
    hide ScanString, Decode, CString;
    var q := ParseString(c, o).offset;
    text := c[o..q];
    assert SameChars(text, c, o);
    ScanLocal(text, c, o, 1);
    DecodeLocal(text, c, o, 1, q - 1 - o);
  }

  // ---- What is written is read ----

  lemma BlankText(c: string, a: nat, b: string)
    requires StartsWith(c, a, b) && Blanks(b)
    ensures R.Blank(c, a, a + |b|)
  {
    R.CharsOf(c, a, b);
  }

  lemma BlankJoin(c: string, a: nat, b: nat, e: nat)
    requires R.Blank(c, a, b) && R.Blank(c, b, e)
    ensures R.Blank(c, a, e)
  {
  }

  lemma BlankFrom(c: string, a: nat, b: nat, e: nat)
    requires R.Blank(c, a, e) && a <= b <= e
    ensures R.Blank(c, b, e)
  {
  }

  lemma NotNumberChar(x: char)
    requires x <= ' ' || x in ",]}:"
    ensures !IsNumberChar(x)
  {
  }

  lemma SameFactor(a: real, b: real, p: real)
    requires p > 0.0 && a * p == b * p
    ensures a == b
  {
    assert (a - b) * p == 0.0;
  }

  lemma ScaledUnique(a: real, b: real, digits: nat, e: int)
    requires N.IsScaled(a, digits, e) && N.IsScaled(b, digits, e)
    ensures a == b
  {
    if e < 0 {
      SameFactor(a, b, Pow10(-e) as real);
    }
  }

  lemma DenotesUnique(n: N.Numeral, r: real, q: real)
    requires N.Proper(n) && N.Denotes(n, r) && N.Denotes(n, q)
    ensures r == q
  {
    hide N.IsScaled, N.Power, NatValue;
    ScaledUnique(if n.sign == "-" then -r else r, if n.sign == "-" then -q else q, NatValue(n.whole + n.fraction), N.Power(n));
  }

  lemma NumeralChars(n: N.Numeral)
    requires N.Proper(n)
    ensures forall i :: 0 <= i < |N.Text(n)| ==> IsNumberChar(N.Text(n)[i])
  {
    hide N.StartsExponent;
    PartChars(n.sign, n.whole, N.PointText(n), N.ExponentText(n));
  }

  lemma PartChars(a: string, b: string, p: string, e: string)
    requires forall i :: 0 <= i < |a| ==> IsNumberChar(a[i])
    requires forall i :: 0 <= i < |b| ==> IsNumberChar(b[i])
    requires forall i :: 0 <= i < |p| ==> IsNumberChar(p[i])
    requires forall i :: 0 <= i < |e| ==> IsNumberChar(e[i])
    ensures forall i :: 0 <= i < |a + (b + (p + e))| ==> IsNumberChar((a + (b + (p + e)))[i])
  {
    hide IsNumberChar;
  }

  lemma NumeralParses(n: N.Numeral, r: real, c: string, o: nat)
    requires N.Proper(n) && |N.Text(n)| <= 63 && N.Denotes(n, r) && StartsWith(c, o, N.Text(n))
    requires o + |N.Text(n)| < |c| && !IsNumberChar(c[o + |N.Text(n)|])
    ensures ParseNumber(c, o) == Ok(Number(r), o + |N.Text(n)|)
  {
    hide Strtod, N.Denotes, N.Text, N.Proper, N.Stops, IsNumberChar;
    var t := N.Text(n);
    NumeralChars(n);
    R.CharsOf(c, o, t);
    R.SpanNumberExactly(c, o, o + |t|, 63);
    StrtodAlone(n, r);
    N.TextNotEmpty(n);
    assert c[o..o + |t|] == t;
  }

  lemma StrtodAlone(n: N.Numeral, r: real)
    requires N.Proper(n) && N.Denotes(n, r)
    ensures Strtod(N.Text(n)) == (r, |N.Text(n)|)
  {
    hide Strtod, N.Denotes, N.Text, N.Proper;
    N.StrtodExact(n, "");
    assert N.Text(n) + "" == N.Text(n);
    DenotesUnique(n, r, Strtod(N.Text(n)).0);
  }

  /** No value starts with a blank or a closing bracket. */
  lemma TextStart(x: Syntax)
    requires Proper(x)
    ensures Text(x) != "" && ' ' < Text(x)[0] < 0x80 as char && Text(x)[0] != ']' && Text(x)[0] != '}'
  {
    match x
    case Word(v) =>
    case Numeral(n, _) => N.TextStart(n);
    case Quoted(text, s) => assert text[0] == '"';
    case _ =>
  }

  lemma ElementsStep(c: string, o: nat, d: nat, s: nat, z: nat)
    requires Terminated(c) && o + 1 < |c| && R.Blank(c, o + 1, s) && s < |c| && c[s] > ' '
    requires ParseValue(c, s, d).Ok? ==> R.Blank(c, ParseValue(c, s, d).offset, z) && z < |c| && c[z] > ' '
    ensures var p := ParseValue(c, s, d);
            ParseElements(c, o, d) ==
              if p.Err? then Err(p.offset)
              else if c[z] == ',' then Cons(p.value, ParseElements(c, z, d))
              else if c[z] == ']' then Ok([p.value], z + 1)
              else Err(z)
  {
    hide ParseValue, Terminated, R.Blank;
    R.SkipTo(c, o + 1, s);
    if ParseValue(c, s, d).Ok? {
      R.SkipTo(c, ParseValue(c, s, d).offset, z);
    }
  }

  lemma MemberStep(c: string, o: nat, d: nat, k: nat, m: nat, s: nat)
    requires Terminated(c) && o + 1 < |c| && R.Blank(c, o + 1, k) && k < |c| && c[k] > ' ' && ParseString(c, k).Ok?
    requires R.Blank(c, ParseString(c, k).offset, m) && m < |c| && c[m] == ':'
    requires R.Blank(c, m + 1, s) && s < |c| && c[s] > ' '
    ensures var p := ParseValue(c, s, d);
            ParseMember(c, o, d) ==
              if p.Ok? then Ok(Member(ParseString(c, k).value, p.value), p.offset) else Err(p.offset)
  {
    hide ParseValue, ParseString, Terminated, R.Blank;
    R.SkipTo(c, o + 1, k);
    R.SkipTo(c, ParseString(c, k).offset, m);
    R.SkipTo(c, m + 1, s);
  }

  /** What follows the first element, up to the closing bracket. */
  function SlotsTail(slots: seq<Slot>, close: string): string
    requires slots != []
  {
    if |slots| > 1 then "," + (SlotsText(slots[1..]) + close) else close
  }

  lemma SlotsSplit(slots: seq<Slot>, close: string)
    requires slots != []
    ensures SlotsText(slots) + close ==
              slots[0].before + (Text(slots[0].value) + (slots[0].after + SlotsTail(slots, close)))
  {
    var s, rest := slots[0], SlotsText(slots[1..]);
    if |slots| == 1 { assert slots[1..] == [] && rest == ""; }
    Regroup(s.before, Text(s.value), s.after, if |slots| > 1 then "," else "", rest, close);
    hide Text;
  }

  lemma Regroup(a: string, b: string, e: string, sep: string, rest: string, close: string)
    ensures (a + (b + e)) + (sep + rest) + close == a + (b + (e + (sep + (rest + close))))
    ensures sep == "" && rest == "" ==> sep + (rest + close) == close
  {
  }

  /** Behind an element there are blanks, and then a comma or the closing bracket at `z`. */
  lemma SlotEnd(after: string, tail: string, gap: string, bracket: string, more: bool, c: string, q: nat) returns (z: nat)
    requires StartsWith(c, q, after + tail) && Blanks(after) && Blanks(gap) && |bracket| == 1 && bracket[0] in "]}"
    requires if more then tail != "" && tail[0] == ',' else tail == gap + bracket
    ensures R.Blank(c, q, z) && z < |c| && q < |c| && !IsNumberChar(c[q])
    ensures if more then c[z] == ',' && z == q + |after| else c[z] == bracket[0] && z == q + |after| + |gap|
  {
    hide StartsWith, R.Blank, IsNumberChar;
    R.Split(c, q, after, tail);
    BlankText(c, q, after);
    z := q + |after|;
    if more {
      R.StartChar(c, z, tail);
    } else {
      R.Split(c, z, gap, bracket);
      BlankText(c, z, gap);
      BlankJoin(c, q, z, z + |gap|);
      z := z + |gap|;
      R.StartChar(c, z, bracket);
    }
    FirstIsBlank(c, q, z);
    NotNumberChar(c[q]);
  }

  lemma FirstIsBlank(c: string, q: nat, z: nat)
    requires R.Blank(c, q, z) && z < |c|
    ensures q < |c| && (c[q] <= ' ' || q == z)
  {
  }

  /** At any position and with any number of containers open, a proper text is read as what it means, if it is not nested
      too deep; behind it must be something that cannot continue a number. */
  lemma {:induction false} TextParses(x: Syntax, c: string, o: nat, d: nat)
    requires Proper(x) && Terminated(c) && d <= NESTING_LIMIT && StartsWith(c, o, Text(x))
    requires o + |Text(x)| < |c| && !IsNumberChar(c[o + |Text(x)|])
    ensures if d + Nesting(Meaning(x)) <= NESTING_LIMIT then ParseValue(c, o, d) == Ok(Meaning(x), o + |Text(x)|)
            else ParseValue(c, o, d).Err?
    decreases x, 1
  {
    hide ParseValue, ParseNumber, ParseArray, ParseObject, ParseString, Terminated, StartsWith, IsNumberChar, N.Text, N.Denotes,
         N.Proper;
    TextStart(x);
    R.StartChar(c, o, Text(x));
    R.ParseDispatch(c, o, d);
    match x
    case Word(_) => R.ParseWord(c, o, d);
    case Numeral(n, r) =>
      N.TextStart(n);
      NumeralParses(n, r, c, o);
    case Quoted(text, s) =>
      LiteralAnywhere(text, s, c, o);
    case Elements(slots, gap) => ElementsParse(slots, gap, c, o, d);
    case Fields(fields, gap) => FieldsParse(fields, gap, c, o, d);
  }

  lemma {:induction false} ElementsParse(slots: seq<Slot>, gap: string, c: string, o: nat, d: nat)
    requires ProperSlots(slots) && Blanks(gap) && Terminated(c) && d <= NESTING_LIMIT
    requires StartsWith(c, o, "[" + (SlotsText(slots) + (gap + "]"))) && o < |c| && c[o] == '['
    ensures if d + 1 + NestingItems(SlotMeanings(slots)) <= NESTING_LIMIT then
              ParseArray(c, o, d) == Ok(Array(SlotMeanings(slots)), o + 1 + |SlotsText(slots)| + |gap| + 1)
            else ParseArray(c, o, d).Err?
    decreases slots, 3
  {
    hide ParseArray, ParseElements, Terminated, StartsWith, SlotText, SlotsText, ProperSlot, SlotMeanings, NestingItems;
    EmptySlots();
    R.Split(c, o, "[", SlotsText(slots) + (gap + "]"));
    if slots == [] {
      assert SlotsText(slots) + (gap + "]") == gap + "]";
      R.Split(c, o + 1, gap, "]");
      BlankText(c, o + 1, gap);
      R.StartChar(c, o + 1 + |gap|, "]");
      R.ArrayStep(c, o, d, o + 1 + |gap|);
    } else {
      var s := FirstSlot(slots, gap + "]", c, o + 1);
      R.ArrayStep(c, o, d, s);
      if d < NESTING_LIMIT {
        SlotsParse(slots, gap, c, o, s - 1, d + 1);
      }
    }
  }

  /** From `p` on there are blanks, and the value at `s`. */
  predicate ValueAt(slot: Slot, tail: string, c: string, p: nat, s: nat) {
    && R.Blank(c, p, s) && s < |c| && c[s] > ' ' && c[s] != ']'
    && StartsWith(c, s, Text(slot.value)) && StartsWith(c, s + |Text(slot.value)|, slot.after + tail)
  }

  lemma SlotLayout(slot: Slot, tail: string, c: string, p: nat) returns (s: nat)
    requires ProperSlot(slot) && StartsWith(c, p, slot.before + (Text(slot.value) + (slot.after + tail)))
    ensures s == p + |slot.before| && ValueAt(slot, tail, c, p, s)
  {
    hide StartsWith, R.Blank, Text, Proper, Blanks;
    R.Split(c, p, slot.before, Text(slot.value) + (slot.after + tail));
    BlankText(c, p, slot.before);
    s := p + |slot.before|;
    R.Split(c, s, Text(slot.value), slot.after + tail);
    TextStart(slot.value);
    R.StartChar(c, s, Text(slot.value));
  }

  lemma EmptySlots()
    ensures SlotsText([]) == "" && SlotMeanings([]) == [] && NestingItems([]) == 0
    ensures FieldsText([]) == "" && FieldMeanings([]) == [] && NestingMembers([]) == 0
  {
  }

  /** Where the value of the first element starts. */
  lemma FirstSlot(slots: seq<Slot>, close: string, c: string, p: nat) returns (s: nat)
    requires slots != [] && ProperSlots(slots) && StartsWith(c, p, SlotsText(slots) + close)
    ensures s == p + |slots[0].before| && ValueAt(slots[0], SlotsTail(slots, close), c, p, s)
    ensures ProperSlot(slots[0])
  {
    hide StartsWith, SlotsText, Text, Proper, SlotsTail, ValueAt, Blanks;
    assert ProperSlot(slots[0]);
    SlotsSplit(slots, close);
    s := SlotLayout(slots[0], SlotsTail(slots, close), c, p);
  }

  /** The elements from the one whose text starts behind `p`; `o` is the character the parser comes from. */
  lemma {:induction false} SlotsParse(slots: seq<Slot>, gap: string, c: string, p: nat, o: nat, d: nat)
    requires slots != [] && ProperSlots(slots) && Blanks(gap) && Terminated(c) && d <= NESTING_LIMIT
    requires p <= o && o + 1 <= p + 1 + |slots[0].before|
    requires StartsWith(c, p + 1, SlotsText(slots) + (gap + "]")) && o + 1 < |c|
    ensures if d + NestingItems(SlotMeanings(slots)) <= NESTING_LIMIT then
              ParseElements(c, o, d) == Ok(SlotMeanings(slots), p + 1 + |SlotsText(slots)| + |gap| + 1)
            else ParseElements(c, o, d).Err?
    decreases slots, 2
  {
    hide ParseElements, ParseValue, Terminated, StartsWith, Text, Proper, IsNumberChar, SlotsText, SlotMeanings, Meaning, Nesting,
         NestingItems, SlotsTail, R.Blank, Blanks, ProperSlots;
    ProperTail(slots);
    var slot := slots[0];
    var s := FirstSlot(slots, gap + "]", c, p + 1);
    var q := s + |Text(slot.value)|;
    TailShape(slots, gap + "]");
    var z := SlotEnd(slot.after, SlotsTail(slots, gap + "]"), gap, "]", |slots| > 1, c, q);
    TextParses(slot.value, c, s, d);
    BlankFrom(c, p + 1, o + 1, s);
    ElementsStep(c, o, d, s, z);
    SlotsLength(slots);
    MeaningsStep(slots);
    if |slots| > 1 {
      R.Split(c, q, slot.after, SlotsTail(slots, gap + "]"));
      R.Split(c, z, ",", SlotsText(slots[1..]) + (gap + "]"));
      SlotsParse(slots[1..], gap, c, z, z, d);
    } else {
      assert slots[1..] == [];
      EmptySlots();
    }
  }

  lemma ProperTail(slots: seq<Slot>)
    requires slots != [] && ProperSlots(slots)
    ensures ProperSlots(slots[1..])
  {
    hide ProperSlot;
  }

  lemma TailShape(slots: seq<Slot>, close: string)
    requires slots != []
    ensures SlotsTail(slots, close) == if |slots| > 1 then "," + (SlotsText(slots[1..]) + close) else close
    ensures |slots| > 1 ==> SlotsTail(slots, close)[0] == ','
  {
  }

  lemma SlotsLength(slots: seq<Slot>)
    requires slots != []
    ensures |SlotsText(slots)| == |slots[0].before| + |Text(slots[0].value)| + |slots[0].after|
                                  + if |slots| > 1 then 1 + |SlotsText(slots[1..])| else 0
  {
    if |slots| == 1 { assert slots[1..] == []; }
  }

  /** What follows the first member, up to the closing brace. */
  function FieldsTail(fields: seq<Field>, close: string): string
    requires fields != []
  {
    if |fields| > 1 then "," + (FieldsText(fields[1..]) + close) else close
  }

  lemma FieldsShape(fields: seq<Field>)
    requires fields != []
    ensures var f := fields[0];
            && FieldsText(fields) == FieldText(f) + ((if |fields| > 1 then "," else "") + FieldsText(fields[1..]))
            && FieldText(f) == f.before + (f.key + (f.middle + (":" + SlotText(f.slot))))
    ensures |fields| == 1 ==> fields[1..] == [] && FieldsText(fields[1..]) == ""
  {
  }

  function FieldHead(f: Field, rest: string): string {
    f.before + (f.key + (f.middle + (":" + rest)))
  }

  lemma HeadConcat(f: Field, a: string, b: string)
    ensures FieldHead(f, a) + b == FieldHead(f, a + b)
  {
    assert (":" + a) + b == ":" + (a + b);
    assert (f.middle + (":" + a)) + b == f.middle + (":" + (a + b));
  }

  lemma FieldsSplit(fields: seq<Field>, close: string)
    requires fields != []
    ensures var f := fields[0];
            FieldsText(fields) + close ==
              FieldHead(f, f.slot.before + (Text(f.slot.value) + (f.slot.after + FieldsTail(fields, close))))
  {
    hide Text, FieldText, FieldsText, FieldHead;
    var f, sep, rest := fields[0], if |fields| > 1 then "," else "", FieldsText(fields[1..]);
    FieldsShape(fields);
    assert FieldText(f) == FieldHead(f, SlotText(f.slot)) by { IsHead(f); }
    HeadConcat(f, SlotText(f.slot), sep + rest);
    HeadConcat(f, SlotText(f.slot) + (sep + rest), close);
    Regroup(f.slot.before, Text(f.slot.value), f.slot.after, sep, rest, close);
  }

  lemma IsHead(f: Field)
    ensures FieldText(f) == FieldHead(f, SlotText(f.slot))
  {
  }

  /** Where the key is, and its colon. */
  lemma HeadLayout(f: Field, rest: string, c: string, p: nat) returns (k: nat, m: nat)
    requires Blanks(f.before) && IsLiteral(f.key, f.name) && Blanks(f.middle) && StartsWith(c, p, FieldHead(f, rest))
    ensures k == p + |f.before| && R.Blank(c, p, k) && k < |c| && c[k] == '"' && ParseString(c, k) == Ok(f.name, k + |f.key|)
    ensures m == k + |f.key| + |f.middle| && R.Blank(c, k + |f.key|, m) && m < |c| && c[m] == ':'
    ensures StartsWith(c, m + 1, rest)
  {
    hide *;
    k := p + |f.before|;
    m := k + |f.key| + |f.middle|;
    HeadParts(f, rest, c, p);
    BlankText(c, p, f.before);
    LiteralAnywhere(f.key, f.name, c, k);
    BlankText(c, k + |f.key|, f.middle);
  }

  lemma HeadParts(f: Field, rest: string, c: string, p: nat)
    requires StartsWith(c, p, FieldHead(f, rest))
    ensures var k := p + |f.before|; var m := k + |f.key| + |f.middle|;
            && StartsWith(c, p, f.before) && StartsWith(c, k, f.key) && StartsWith(c, k + |f.key|, f.middle)
            && m < |c| && c[m] == ':' && StartsWith(c, m + 1, rest)
  {
    hide StartsWith;
    var k := p + |f.before|;
    var m := k + |f.key| + |f.middle|;
    R.Split(c, p, f.before, f.key + (f.middle + (":" + rest)));
    R.Split(c, k, f.key, f.middle + (":" + rest));
    R.Split(c, k + |f.key|, f.middle, ":" + rest);
    R.Split(c, m, ":", rest);
    R.StartChar(c, m, ":");
  }

  /** Where the key of the first member is, its colon, and its value. */
  lemma FirstField(fields: seq<Field>, close: string, c: string, p: nat) returns (k: nat, m: nat, s: nat)
    requires fields != [] && ProperFields(fields) && StartsWith(c, p, FieldsText(fields) + close)
    ensures ProperField(fields[0])
    ensures var f := fields[0];
            && k == p + |f.before| && R.Blank(c, p, k) && k < |c| && c[k] == '"' && ParseString(c, k) == Ok(f.name, k + |f.key|)
            && m == k + |f.key| + |f.middle| && R.Blank(c, k + |f.key|, m) && m < |c| && c[m] == ':'
            && s == m + 1 + |f.slot.before| && ValueAt(f.slot, FieldsTail(fields, close), c, m + 1, s)
  {
    hide StartsWith, R.Blank, FieldsText, Text, Proper, IsLiteral, ParseString, FieldsTail, Blanks, FieldHead, ValueAt;
    var f := fields[0];
    assert ProperField(f);
    FieldsSplit(fields, close);
    k, m := HeadLayout(f, f.slot.before + (Text(f.slot.value) + (f.slot.after + FieldsTail(fields, close))), c, p);
    s := SlotLayout(f.slot, FieldsTail(fields, close), c, m + 1);
  }

  lemma {:induction false} FieldsParse(fields: seq<Field>, gap: string, c: string, o: nat, d: nat)
    requires ProperFields(fields) && Blanks(gap) && Terminated(c) && d <= NESTING_LIMIT
    requires StartsWith(c, o, "{" + (FieldsText(fields) + (gap + "}"))) && o < |c| && c[o] == '{'
    ensures if d + 1 + NestingMembers(FieldMeanings(fields)) <= NESTING_LIMIT then
              ParseObject(c, o, d) == Ok(Object(FieldMeanings(fields)), o + 1 + |FieldsText(fields)| + |gap| + 1)
            else ParseObject(c, o, d).Err?
    decreases fields, 3
  {
    hide ParseObject, ParseMembers, ParseString, Terminated, StartsWith, R.Blank, FieldText, FieldsText, ProperField, ValueAt,
         FieldMeanings, NestingMembers;
    EmptySlots();
    R.Split(c, o, "{", FieldsText(fields) + (gap + "}"));
    if fields == [] {
      assert FieldsText(fields) + (gap + "}") == gap + "}";
      R.Split(c, o + 1, gap, "}");
      BlankText(c, o + 1, gap);
      R.StartChar(c, o + 1 + |gap|, "}");
      R.ObjectStep(c, o, d, o + 1 + |gap|);
    } else {
      var k, m, s := FirstField(fields, gap + "}", c, o + 1);
      R.ObjectStep(c, o, d, k);
      if d < NESTING_LIMIT {
        MembersParse(fields, gap, c, o, k - 1, d + 1);
      }
    }
  }

  /** Where the parts of the first of these members are, and what follows it: a comma or the closing brace at `z`. */
  lemma MemberLayout(fields: seq<Field>, gap: string, c: string, p: nat) returns (k: nat, m: nat, s: nat, z: nat)
    requires fields != [] && ProperFields(fields) && Blanks(gap) && StartsWith(c, p, FieldsText(fields) + (gap + "}"))
    ensures ProperField(fields[0])
    ensures var f := fields[0]; var q := s + |Text(f.slot.value)|;
            && k == p + |f.before| && R.Blank(c, p, k) && k < |c| && c[k] > ' ' && ParseString(c, k) == Ok(f.name, k + |f.key|)
            && R.Blank(c, k + |f.key|, m) && m < |c| && c[m] == ':'
            && R.Blank(c, m + 1, s) && s < |c| && c[s] > ' ' && StartsWith(c, s, Text(f.slot.value))
            && R.Blank(c, q, z) && q < |c| && !IsNumberChar(c[q])
    ensures z < |c| && if |fields| > 1 then c[z] == ',' && StartsWith(c, z + 1, FieldsText(fields[1..]) + (gap + "}")) else c[z] == '}'
    ensures z == p + |FieldsText(fields)| + if |fields| > 1 then -1 - |FieldsText(fields[1..])| else |gap|
  {
    hide ParseString, StartsWith, Text, Proper, IsNumberChar, FieldsText, IsLiteral, FieldsTail, R.Blank, Blanks, ProperFields;
    var f, tail := fields[0], FieldsTail(fields, gap + "}");
    k, m, s := FirstField(fields, gap + "}", c, p);
    var q := s + |Text(f.slot.value)|;
    FieldsTailShape(fields, gap + "}");
    z := SlotEnd(f.slot.after, tail, gap, "}", |fields| > 1, c, q);
    FieldsLength(fields);
    if |fields| > 1 {
      R.Split(c, q, f.slot.after, tail);
      R.Split(c, z, ",", FieldsText(fields[1..]) + (gap + "}"));
    }
  }

  /** The members from the one whose text starts behind `p`; `o` is the character the parser comes from. */
  lemma {:induction false} MembersParse(fields: seq<Field>, gap: string, c: string, p: nat, o: nat, d: nat)
    requires fields != [] && ProperFields(fields) && Blanks(gap) && Terminated(c) && d <= NESTING_LIMIT
    requires p <= o && o + 1 <= p + 1 + |fields[0].before|
    requires StartsWith(c, p + 1, FieldsText(fields) + (gap + "}")) && o + 1 < |c|
    ensures if d + NestingMembers(FieldMeanings(fields)) <= NESTING_LIMIT then
              ParseMembers(c, o, d) == Ok(FieldMeanings(fields), p + 1 + |FieldsText(fields)| + |gap| + 1)
            else ParseMembers(c, o, d).Err?
    decreases fields, 2
  {
    hide ParseMembers, ParseMember, ParseValue, ParseString, Terminated, StartsWith, FieldsText, FieldMeanings, Text, Meaning,
         Nesting, NestingMembers, R.Blank, Blanks, ProperFields, Proper, IsLiteral, IsNumberChar;
    ProperFieldsTail(fields);
    FieldMeaningsStep(fields);
    var k, m, s, z := MemberLayout(fields, gap, c, p + 1);
    TextParses(fields[0].slot.value, c, s, d);
    BlankFrom(c, p + 1, o + 1, k);
    MemberStep(c, o, d, k, m, s);
    R.MembersStep(c, o, d, z);
    if |fields| > 1 {
      StartsBelow(c, z + 1, FieldsText(fields[1..]), gap, "}");
      MembersParse(fields[1..], gap, c, z, z, d);
    } else {
      assert fields[1..] == [];
      EmptySlots();
    }
  }

  lemma StartsBelow(c: string, a: nat, t: string, gap: string, bracket: string)
    requires StartsWith(c, a, t + (gap + bracket)) && |bracket| == 1
    ensures a < |c|
  {
  }

  lemma ProperFieldsTail(fields: seq<Field>)
    requires fields != [] && ProperFields(fields)
    ensures ProperFields(fields[1..])
  {
    hide ProperField;
  }

  lemma FieldsTailShape(fields: seq<Field>, close: string)
    requires fields != []
    ensures FieldsTail(fields, close) == if |fields| > 1 then "," + (FieldsText(fields[1..]) + close) else close
    ensures |fields| > 1 ==> FieldsTail(fields, close)[0] == ','
  {
  }

  lemma FieldsLength(fields: seq<Field>)
    requires fields != []
    ensures var f := fields[0];
            |FieldsText(fields)| == |f.before| + |f.key| + |f.middle| + 1 + |f.slot.before| + |Text(f.slot.value)| + |f.slot.after|
                                    + if |fields| > 1 then 1 + |FieldsText(fields[1..])| else 0
  {
    hide Text, FieldsText, FieldText;
    FieldsShape(fields);
  }

  lemma MeaningsStep(slots: seq<Slot>)
    requires slots != []
    ensures SlotMeanings(slots) == [Meaning(slots[0].value)] + SlotMeanings(slots[1..])
    ensures NestingItems(SlotMeanings(slots)) == Max(Nesting(Meaning(slots[0].value)), NestingItems(SlotMeanings(slots[1..])))
    ensures |slots| == 1 ==> SlotMeanings(slots) == [Meaning(slots[0].value)] && SlotMeanings(slots[1..]) == []
  {
    hide Nesting, Meaning;
    assert SlotMeanings(slots)[1..] == SlotMeanings(slots[1..]);
  }

  lemma FieldMeaningsStep(fields: seq<Field>)
    requires fields != []
    ensures var m := Member(fields[0].name, Meaning(fields[0].slot.value)); var rest := FieldMeanings(fields[1..]);
            && FieldMeanings(fields) == [m] + rest
            && NestingMembers(FieldMeanings(fields)) == Max(Nesting(m.value), NestingMembers(rest))
    ensures |fields| == 1 ==> FieldMeanings(fields) == [Member(fields[0].name, Meaning(fields[0].slot.value))] && FieldMeanings(fields[1..]) == []
  {
    hide Nesting, Meaning;
    assert FieldMeanings(fields)[1..] == FieldMeanings(fields[1..]);
  }

  // ---- What is read was written ----

  lemma Cut(c: string, a: nat, b: nat, e: nat)
    requires a <= b <= e <= |c|
    ensures c[a..b] + c[b..e] == c[a..e]
  {
  }

  lemma CutOne(c: string, a: nat, e: nat)
    requires a < e <= |c|
    ensures [c[a]] + c[a + 1..e] == c[a..e]
    ensures c[a..e - 1] + [c[e - 1]] == c[a..e]
  {
  }

  /** What is skipped are blanks; where skipping stops is no blank or the terminator. */
  lemma SkippedBlanks(c: string, a: nat)
    requires Terminated(c) && a < |c|
    ensures var e := SkipWhitespace(c, a); Blanks(c[a..e]) && (c[e] > ' ' || c[e] == NUL)
    ensures c[SkipWhitespace(c, a)] != NUL ==> c[a] <= ' ' || a == SkipWhitespace(c, a)
  {
  }

  lemma {:induction false} WordFound(c: string, o: nat, d: nat) returns (x: Syntax)
    requires Terminated(c) && o < |c| && (c[o] == 'n' || c[o] == 't' || c[o] == 'f') && ParseValue(c, o, d).Ok?
    ensures var p := ParseValue(c, o, d); Proper(x) && Text(x) == c[o..p.offset] && Meaning(x) == p.value
  {
    hide Terminated, ParseNumber, ParseString, ParseArray, ParseObject;
    x := Word(ParseValue(c, o, d).value);
  }

  lemma NumeralFound(c: string, o: nat) returns (x: Syntax)
    requires o < |c| && (c[o] == '-' || IsDigit(c[o])) && ParseNumber(c, o).Ok?
    requires ParseNumber(c, o).offset < |c| && !IsNumberChar(c[ParseNumber(c, o).offset])
    ensures var p := ParseNumber(c, o); Proper(x) && Text(x) == c[o..p.offset] && Meaning(x) == p.value
  {
    hide Strtod, N.Denotes, N.Proper, N.Text, IsNumberChar;
    var e := SpanNumber(c, o, 63);
    var t := c[o..e];
    var used := Strtod(t).1;
    assert used == |t|;
    var n := N.NumeralOf(t);
    N.NumeralStart(n);
    x := Numeral(n, Strtod(t).0);
  }

  /** Whatever is accepted, and does not end in the middle of a number, is the text of some syntax. */
  lemma {:induction false} ValueFound(c: string, o: nat, d: nat) returns (x: Syntax)
    requires Terminated(c) && o < |c| && ParseValue(c, o, d).Ok? && !IsNumberChar(c[ParseValue(c, o, d).offset])
    ensures var p := ParseValue(c, o, d); Proper(x) && Text(x) == c[o..p.offset] && Meaning(x) == p.value
    decreases |c| - o, 3
  {
    hide Terminated, ParseNumber, ParseString, ParseArray, ParseObject, IsNumberChar, Proper;
    if c[o] == 'n' || c[o] == 't' || c[o] == 'f' {
      x := WordFound(c, o, d);
    } else {
      R.NoWord(c, o);
      if c[o] == '"' {
        var text := LiteralFound(c, o);
        x := Quoted(text, ParseString(c, o).value);
        assert Proper(x) by { ProperLiteral(text, ParseString(c, o).value); }
      } else if c[o] == '-' || IsDigit(c[o]) {
        x := NumeralFound(c, o);
      } else if c[o] == '[' {
        x := ArrayFound(c, o, d);
      } else {
        x := ObjectFound(c, o, d);
      }
    }
  }

  lemma ProperLiteral(text: string, s: string)
    requires IsLiteral(text, s)
    ensures Proper(Quoted(text, s))
  {
  }

  lemma ProperElements(slots: seq<Slot>, gap: string)
    requires ProperSlots(slots) && Blanks(gap)
    ensures Proper(Elements(slots, gap)) && Meaning(Elements(slots, gap)) == Array(SlotMeanings(slots))
    ensures Text(Elements(slots, gap)) == "[" + (SlotsText(slots) + (gap + "]"))
  {
  }

  lemma ProperObject(fields: seq<Field>, gap: string)
    requires ProperFields(fields) && Blanks(gap)
    ensures Proper(Fields(fields, gap)) && Meaning(Fields(fields, gap)) == Object(FieldMeanings(fields))
    ensures Text(Fields(fields, gap)) == "{" + (FieldsText(fields) + (gap + "}"))
  {
  }

  lemma {:induction false} ArrayFound(c: string, o: nat, d: nat) returns (x: Syntax)
    requires Terminated(c) && o < |c| && c[o] == '[' && ParseArray(c, o, d).Ok?
    ensures var p := ParseArray(c, o, d); Proper(x) && Text(x) == c[o..p.offset] && Meaning(x) == p.value
    decreases |c| - o, 1
  {
    hide Terminated, ParseElements, Proper, SlotsText, SlotMeanings, ProperSlots, Blanks, SkipWhitespace, Text, Meaning;
    NotLast(c, o);
    var q := ParseArray(c, o, d).offset;
    var o1 := SkipWhitespace(c, o + 1);
    SkippedBlanks(c, o + 1);
    EmptySlots();
    var slots, gap := [], c[o + 1..o1];
    if c[o1] != ']' {
      slots := ElementsFound(c, o, o1 - 1, d + 1);
      gap := "";
      assert Blanks(gap) by { NoBlanks(); }
    } else {
      assert ProperSlots(slots) by { NoSlots(); }
    }
    x := Elements(slots, gap);
    ProperElements(slots, gap);
    Enclosed(c, o, q, SlotsText(slots), gap);
  }

  lemma Enclosed(c: string, o: nat, q: nat, inner: string, gap: string)
    requires o + 1 < q <= |c| && (if gap == "" then inner == c[o + 1..q - 1] else inner == "" && gap == c[o + 1..q - 1])
    ensures [c[o]] + (inner + (gap + [c[q - 1]])) == c[o..q]
  {
    assert inner + (gap + [c[q - 1]]) == c[o + 1..q - 1] + [c[q - 1]];
    CutOne(c, o + 1, q);
    CutOne(c, o, q);
  }

  lemma EmptyCut(c: string, a: nat)
    requires a <= |c|
    ensures Blanks(c[a..a])
  {
  }

  lemma NoBlanks()
    ensures Blanks("")
  {
  }

  lemma NoSlots()
    ensures ProperSlots([]) && ProperFields([])
  {
  }

  /** One element, from behind `p` on, and the blanks behind it up to `z`. */
  lemma {:induction false} SlotFound(c: string, p: nat, o: nat, d: nat) returns (slot: Slot)
    requires Terminated(c) && p <= o && o + 1 < |c| && Blanks(c[p + 1..o + 1])
    requires ParseValue(c, SkipWhitespace(c, o + 1), d).Ok?
    requires var z := SkipWhitespace(c, ParseValue(c, SkipWhitespace(c, o + 1), d).offset); c[z] == ',' || c[z] == ']'
    ensures var r := ParseValue(c, SkipWhitespace(c, o + 1), d); var z := SkipWhitespace(c, r.offset);
            p + 1 <= z && ProperSlot(slot) && SlotText(slot) == c[p + 1..z] && r.value == Meaning(slot.value)
    decreases |c| - o - 1, 4
  {
    hide Terminated, ParseValue, IsNumberChar, Proper, Blanks, SkipWhitespace, SlotText, Text, Meaning;
    var s := SkipWhitespace(c, o + 1);
    var q := ParseValue(c, s, d).offset;
    var z := SkipWhitespace(c, q);
    SkippedBlanks(c, o + 1);
    SkippedBlanks(c, q);
    NotNumberChar(c[q]);
    var x := ValueFound(c, s, d);
    BlanksJoin(c, p + 1, o + 1, s);
    slot := Slot(c[p + 1..s], x, c[q..z]);
    SlotCut(slot, c, p + 1, s, q, z);
  }

  /** The elements, from behind `p` on; up to `o` there are only blanks. */
  lemma {:induction false} ElementsFound(c: string, p: nat, o: nat, d: nat) returns (slots: seq<Slot>)
    requires Terminated(c) && p <= o && o + 1 < |c| && Blanks(c[p + 1..o + 1]) && ParseElements(c, o, d).Ok?
    ensures var r := ParseElements(c, o, d);
            && p + 1 < r.offset && c[r.offset - 1] == ']' && slots != [] && ProperSlots(slots)
            && SlotsText(slots) == c[p + 1..r.offset - 1] && SlotMeanings(slots) == r.value
    decreases |c| - o, 0
  {
    hide Terminated, ParseValue, ProperSlot, Blanks, SkipWhitespace, SlotsText, SlotText, SlotMeanings, Meaning;
    var z := SkipWhitespace(c, ParseValue(c, SkipWhitespace(c, o + 1), d).offset);
    var slot := SlotFound(c, p, o, d);
    if c[z] == ',' {
      EmptyCut(c, z + 1);
      var rest := ElementsFound(c, z, z, d);
      slots := [slot] + rest;
      SlotsCons(slot, rest);
      var e := ParseElements(c, z, d).offset - 1;
      CutOne(c, z, e);
      Cut(c, p + 1, z, e);
    } else {
      slots := [slot];
      OneSlot(slot);
    }
  }

  lemma BlanksJoin(c: string, a: nat, b: nat, e: nat)
    requires a <= b <= e <= |c| && Blanks(c[a..b]) && Blanks(c[b..e])
    ensures Blanks(c[a..e])
  {
    Cut(c, a, b, e);
  }

  lemma SlotCut(slot: Slot, c: string, a: nat, s: nat, q: nat, z: nat)
    requires a <= s <= q <= z <= |c| && slot.before == c[a..s] && Text(slot.value) == c[s..q] && slot.after == c[q..z]
    ensures SlotText(slot) == c[a..z]
  {
    hide Text;
    Cut(c, s, q, z);
    Cut(c, a, s, z);
  }

  lemma OneSlot(slot: Slot)
    ensures SlotsText([slot]) == SlotText(slot) && SlotMeanings([slot]) == [Meaning(slot.value)]
  {
    hide Text, Meaning;
    EmptySlots();
    assert [slot][1..] == [];
  }

  lemma SlotsCons(slot: Slot, rest: seq<Slot>)
    requires rest != []
    ensures SlotsText([slot] + rest) == SlotText(slot) + ("," + SlotsText(rest))
    ensures SlotMeanings([slot] + rest) == [Meaning(slot.value)] + SlotMeanings(rest)
  {
    hide Text, Meaning;
    assert ([slot] + rest)[1..] == rest;
  }

  lemma {:induction false} ObjectFound(c: string, o: nat, d: nat) returns (x: Syntax)
    requires Terminated(c) && o < |c| && c[o] == '{' && ParseObject(c, o, d).Ok?
    ensures var p := ParseObject(c, o, d); Proper(x) && Text(x) == c[o..p.offset] && Meaning(x) == p.value
    decreases |c| - o, 2
  {
    hide Terminated, ParseMembers, Proper, FieldsText, FieldMeanings, ProperFields, Blanks, SkipWhitespace, Text, Meaning;
    NotLast(c, o);
    var q := ParseObject(c, o, d).offset;
    var o1 := SkipWhitespace(c, o + 1);
    SkippedBlanks(c, o + 1);
    EmptySlots();
    var fields, gap := [], c[o + 1..o1];
    if c[o1] != '}' {
      fields := MembersFound(c, o, o1 - 1, d + 1);
      gap := "";
      assert Blanks(gap) by { NoBlanks(); }
    } else {
      assert ProperFields(fields) by { NoSlots(); }
    }
    x := Fields(fields, gap);
    ProperObject(fields, gap);
    Enclosed(c, o, q, FieldsText(fields), gap);
  }

  /** One member, from behind `p` on, and the blanks behind it up to `z`. */
  lemma {:induction false} MemberFound(c: string, p: nat, o: nat, d: nat) returns (f: Field)
    requires Terminated(c) && p <= o && o + 1 < |c| && Blanks(c[p + 1..o + 1]) && ParseMember(c, o, d).Ok?
    requires var z := SkipWhitespace(c, ParseMember(c, o, d).offset); c[z] == ',' || c[z] == '}'
    ensures var r := ParseMember(c, o, d); var z := SkipWhitespace(c, r.offset);
            p + 1 <= z && ProperField(f) && FieldText(f) == c[p + 1..z] && r.value == Member(f.name, Meaning(f.slot.value))
    decreases |c| - o, 0
  {
    hide Terminated, ParseValue, ParseString, IsNumberChar, Proper, Blanks, SkipWhitespace, Text, SlotText, Meaning, IsLiteral;
    var k := SkipWhitespace(c, o + 1);
    var e := ParseString(c, k).offset;
    var m := SkipWhitespace(c, e);
    NotLast(c, m);
    var s := SkipWhitespace(c, m + 1);
    var q := ParseValue(c, s, d).offset;
    var z := SkipWhitespace(c, q);
    SkippedBlanks(c, o + 1);
    SkippedBlanks(c, e);
    BlanksJoin(c, p + 1, o + 1, k);
    var key := LiteralFound(c, k);
    var slot := ValueOfMember(c, m, d);
    f := Field(c[p + 1..k], key, ParseString(c, k).value, c[e..m], slot);
    FieldCut(f, c, p + 1, k, e, m, z);
  }

  /** The value behind the colon at `m`, with the blanks around it. */
  lemma {:induction false} ValueOfMember(c: string, m: nat, d: nat) returns (slot: Slot)
    requires Terminated(c) && m + 1 < |c| && ParseValue(c, SkipWhitespace(c, m + 1), d).Ok?
    requires var z := SkipWhitespace(c, ParseValue(c, SkipWhitespace(c, m + 1), d).offset); c[z] == ',' || c[z] == '}'
    ensures var r := ParseValue(c, SkipWhitespace(c, m + 1), d); var z := SkipWhitespace(c, r.offset);
            m + 1 <= z && ProperSlot(slot) && SlotText(slot) == c[m + 1..z] && r.value == Meaning(slot.value)
    decreases |c| - m - 1, 4
  {
    hide Terminated, ParseValue, IsNumberChar, Proper, Blanks, SkipWhitespace, SlotText, Text, Meaning;
    var s := SkipWhitespace(c, m + 1);
    var q := ParseValue(c, s, d).offset;
    var z := SkipWhitespace(c, q);
    SkippedBlanks(c, m + 1);
    SkippedBlanks(c, q);
    NotNumberChar(c[q]);
    var x := ValueFound(c, s, d);
    slot := Slot(c[m + 1..s], x, c[q..z]);
    SlotCut(slot, c, m + 1, s, q, z);
  }

  lemma FieldCut(f: Field, c: string, a: nat, k: nat, e: nat, m: nat, z: nat)
    requires a <= k <= e <= m < z <= |c| && f.before == c[a..k] && f.key == c[k..e] && f.middle == c[e..m] && c[m] == ':'
    requires SlotText(f.slot) == c[m + 1..z]
    ensures FieldText(f) == c[a..z]
  {
    hide SlotText;
    CutOne(c, m, z);
    Cut(c, e, m, z);
    Cut(c, k, e, z);
    Cut(c, a, k, z);
  }

  lemma {:induction false} MembersFound(c: string, p: nat, o: nat, d: nat) returns (fields: seq<Field>)
    requires Terminated(c) && p <= o && o + 1 < |c| && Blanks(c[p + 1..o + 1]) && ParseMembers(c, o, d).Ok?
    ensures var r := ParseMembers(c, o, d);
            && p + 1 < r.offset && c[r.offset - 1] == '}' && fields != [] && ProperFields(fields)
            && FieldsText(fields) == c[p + 1..r.offset - 1] && FieldMeanings(fields) == r.value
    decreases |c| - o, 1
  {
    hide Terminated, ParseMember, Proper, Blanks, SkipWhitespace, FieldsText, FieldMeanings, Text, Meaning, FieldText, ProperField;
    var z := SkipWhitespace(c, ParseMember(c, o, d).offset);
    var f := MemberFound(c, p, o, d);
    if c[z] == ',' {
      EmptyCut(c, z + 1);
      var rest := MembersFound(c, z, z, d);
      fields := [f] + rest;
      FieldsCons(f, rest);
      var e := ParseMembers(c, z, d).offset - 1;
      CutOne(c, z, e);
      Cut(c, p + 1, z, e);
    } else {
      fields := [f];
      OneField(f);
    }
  }

  lemma OneField(f: Field)
    ensures FieldsText([f]) == FieldText(f) && FieldMeanings([f]) == [Member(f.name, Meaning(f.slot.value))]
  {
    hide Text, Meaning, FieldText;
    EmptySlots();
    assert [f][1..] == [];
  }

  lemma FieldsCons(f: Field, rest: seq<Field>)
    requires rest != []
    ensures FieldsText([f] + rest) == FieldText(f) + ("," + FieldsText(rest))
    ensures FieldMeanings([f] + rest) == [Member(f.name, Meaning(f.slot.value))] + FieldMeanings(rest)
  {
    hide Text, Meaning, FieldText;
    assert ([f] + rest)[1..] == rest;
  }

  // ---- Whole texts ----

  /** Where a strict parse stops it has come to the end: it succeeds exactly when the other one does and only blanks
      follow the value. */
  lemma StrictExact(text: string)
    requires NulFree(text)
    ensures Parse(text, true).Ok? <==> Parse(text, false).Ok? && Blanks(text[Parse(text, false).offset..])
    ensures Parse(text, true).Ok? ==> Parse(text, true) == Ok(Parse(text, false).value, |text|)
  {
    hide ParseValue, SkipBom;
    var c := text + [NUL];
    assert c[..|text|] == text;
    var p := ParseValue(c, SkipWhitespace(c, SkipBom(c)), 0);
    if p.Ok? {
      var e := SkipWhitespace(c, p.offset);
      assert forall i :: 0 <= i < |text| ==> c[i] == text[i] != NUL;
      assert forall i :: p.offset <= i < e ==> c[i] <= ' ';
      assert forall i :: 0 <= i < |text| - p.offset ==> text[p.offset..][i] == c[p.offset + i];
      if e < |text| { assert c[e] > ' '; }
    }
  }

  const MARK: string := [0xEF as char, 0xBB as char, 0xBF as char]

  /** A text: perhaps a byte order mark, and a value between blanks. */
  ghost predicate IsText(text: string, mark: string, before: string, x: Syntax, after: string) {
    && (mark == "" || mark == MARK) && Blanks(before) && Proper(x) && Blanks(after)
    && text == mark + (before + (Text(x) + after))
  }

  lemma MarkSkipped(text: string, mark: string, rest: string)
    requires text == mark + rest && rest != "" && (mark == MARK || (mark == "" && rest[0] < 0x80 as char))
    ensures SkipBom(text + [NUL]) == |mark|
  {
    var c := text + [NUL];
    if mark == MARK {
      assert c[..3] == MARK;
    } else if |c| > 4 {
      assert c[..3][0] == rest[0];
    }
  }

  lemma TextParts(mark: string, before: string, value: string, after: string, c: string)
    requires c == mark + (before + (value + after)) + [NUL]
    ensures var o := |mark|; var s := o + |before|; var q := s + |value|;
            && StartsWith(c, o, before) && StartsWith(c, s, value) && StartsWith(c, q, after) && |c| == q + |after| + 1
  {
    Terminate(mark, before, value, after);
    hide *;
    var o, s := |mark|, |mark| + |before|;
    N.Whole(c);
    R.Split(c, 0, mark, before + (value + (after + [NUL])));
    R.Split(c, o, before, value + (after + [NUL]));
    R.Split(c, s, value, after + [NUL]);
    R.Split(c, s + |value|, after, [NUL]);
  }

  lemma Terminate(mark: string, before: string, value: string, after: string)
    ensures mark + (before + (value + after)) + [NUL] == mark + (before + (value + (after + [NUL])))
  {
  }

  /** Every text the grammar describes is accepted with its meaning, unless it is nested too deep. */
  lemma WrittenIsAccepted(text: string, mark: string, before: string, x: Syntax, after: string)
    requires NulFree(text) && IsText(text, mark, before, x, after)
    ensures if Nesting(Meaning(x)) <= 1000 then Parse(text, true) == Ok(Meaning(x), |text|) else Parse(text, true).Err?
  {
    hide Parse, ParseValue, Proper, StartsWith, Text, Meaning, Nesting, R.Blank, Blanks, IsNumberChar, SkipWhitespace, SkipBom, Terminated;
    var c := text + [NUL];
    assert Terminated(c) by { IsTerminated(text); }
    TextStart(x);
    FirstOfRest(before, Text(x), after);
    MarkSkipped(text, mark, before + (Text(x) + after));
    TextParts(mark, before, Text(x), after, c);
    var o, s, q := |mark|, |mark| + |before|, |mark| + |before| + |Text(x)|;
    BlankText(c, o, before);
    R.StartChar(c, s, Text(x));
    R.SkipTo(c, o, s);
    BlankText(c, q, after);
    EndsText(c, q);
    TextParses(x, c, s, 0);
    ParseFrom(text, s);
  }

  /** A strict parse, by where the value starts. */
  lemma ParseFrom(text: string, s: nat)
    requires NulFree(text) && SkipWhitespace(text + [NUL], SkipBom(text + [NUL])) == s && Terminated(text + [NUL])
    ensures var c := text + [NUL]; var p := ParseValue(c, s, 0);
            && (p.Err? ==> Parse(text, true).Err?)
            && (p.Ok? && SkipWhitespace(c, p.offset) == |text| ==> Parse(text, true) == Ok(p.value, |text|))
  {
    hide ParseValue, SkipWhitespace, SkipBom;
  }

  lemma IsTerminated(text: string)
    requires NulFree(text)
    ensures Terminated(text + [NUL])
  {
    assert (text + [NUL])[..|text|] == text;
  }

  lemma FirstOfRest(before: string, value: string, after: string)
    requires Blanks(before) && value != "" && value[0] < 0x80 as char
    ensures before + (value + after) != "" && (before + (value + after))[0] < 0x80 as char
  {
  }

  lemma EndsText(c: string, q: nat)
    requires Terminated(c) && q < |c| && R.Blank(c, q, |c| - 1)
    ensures !IsNumberChar(c[q]) && SkipWhitespace(c, q) == |c| - 1
  {
    AllBlank(c, q);
  }

  lemma {:induction false} AllBlank(c: string, q: nat)
    requires q <= |c| && forall i :: q <= i < |c| ==> c[i] <= ' '
    ensures SkipBlank(c, q) == |c|
    decreases |c| - q
  {
    if q < |c| { AllBlank(c, q + 1); }
  }

  /** And every accepted text is described by the grammar, and means what was read. */
  lemma AcceptedIsWritten(text: string) returns (mark: string, before: string, x: Syntax, after: string)
    requires NulFree(text) && Parse(text, true).Ok?
    ensures IsText(text, mark, before, x, after) && Parse(text, true) == Ok(Meaning(x), |text|)
    ensures Nesting(Meaning(x)) <= 1000
  {
    hide ParseValue, Proper, Text, Meaning, IsNumberChar, A.Fits;
    StrictExact(text);
    var c := text + [NUL];
    assert c[..|text|] == text;
    var o := SkipBom(c);
    var s := SkipWhitespace(c, o);
    var q := ParseValue(c, s, 0).offset;
    SkippedBlanks(c, o);
    assert q <= |text|;
    assert q < |text| ==> c[q] == text[q..][0];
    NotNumberChar(c[q]);
    x := ValueFound(c, s, 0);
    A.AcceptedValue(c, s, 0);
    A.FitsLimit(Meaning(x));
    mark, before, after := text[..o], text[o..s], text[q..];
    TextCut(text, c, o, s, q);
  }

  lemma TextCut(text: string, c: string, o: nat, s: nat, q: nat)
    requires c == text + [NUL] && o <= s <= q <= |text|
    ensures c[o..s] == text[o..s] && text == text[..o] + (text[o..s] + (c[s..q] + text[q..]))
  {
    assert c[s..q] == text[s..q];
    assert text[s..q] + text[q..] == text[s..];
    assert text[o..s] + text[s..] == text[o..];
  }
}
