/** What the parser accepts: values within the nesting limit, and with plain integers only values that print and parse
    back to themselves. */
module JsonAccepted {
  import opened Json
  import opened JsonText
  import JsonRoundTrip

  /** All numbers in the value are integers that print as plain decimals. */
  predicate PlainNumbers(v: Json) {
    match v
    case Number(r) => PlainInteger(r)
    case Array(items) => PlainItems(items)
    case Object(ms) => PlainMembers(ms)
    case _ => true
  }

  predicate PlainItems(items: seq<Json>) {
    forall i :: 0 <= i < |items| ==> PlainNumbers(items[i])
  }

  predicate PlainMembers(ms: seq<Member>) {
    forall i :: 0 <= i < |ms| ==> PlainNumbers(ms[i].value)
  }

  /** With `d` containers open already the value keeps to the limit, and its strings can be printed. */
  predicate Fits(v: Json, d: nat) {
    d + Nesting(v) <= NESTING_LIMIT && (PlainNumbers(v) ==> Printable(v))
  }

  predicate ItemsFit(items: seq<Json>, d: nat) {
    d + NestingItems(items) <= NESTING_LIMIT && (PlainItems(items) ==> PrintableItems(items))
  }

  predicate MembersFit(ms: seq<Member>, d: nat) {
    d + NestingMembers(ms) <= NESTING_LIMIT && (PlainMembers(ms) ==> PrintableMembers(ms))
  }

  lemma {:induction false} ItemsCons(v: Json, items: seq<Json>, d: nat)
    requires Fits(v, d) && ItemsFit(items, d)
    ensures ItemsFit([v] + items, d)
  {
    hide PlainNumbers, Printable, Nesting;
    var longer := [v] + items;
    assert longer[1..] == items;
    assert PlainItems(longer) ==> PlainNumbers(longer[0]);
    assert forall i :: 0 <= i < |items| ==> items[i] == longer[i + 1];
  }

  lemma {:induction false} MembersCons(m: Member, ms: seq<Member>, d: nat)
    requires NulFree(m.key) && Fits(m.value, d) && MembersFit(ms, d)
    ensures MembersFit([m] + ms, d)
  {
    hide PlainNumbers, Printable, Nesting, NulFree;
    var longer := [m] + ms;
    assert longer[1..] == ms;
    if PlainMembers(longer) {
      assert PlainNumbers(longer[0].value) && forall i :: 0 <= i < |ms| ==> ms[i] == longer[i + 1];
      forall i | 0 <= i < |longer| ensures PrintableMember(longer[i]) {
        if i > 0 { assert PrintableMember(ms[i - 1]); }
      }
    }
  }

  lemma NoneFit(d: nat)
    requires d <= NESTING_LIMIT
    ensures ItemsFit([], d) && MembersFit([], d)
  {
  }

  lemma FitsLimit(v: Json)
    ensures Fits(v, 0) ==> Nesting(v) <= NESTING_LIMIT
  {
  }

  /** Whatever is accepted at a position fits, with the containers that are open there. */
  lemma {:induction false} AcceptedValue(c: string, o: nat, d: nat)
    requires Terminated(c) && o < |c| && d <= NESTING_LIMIT
    ensures ParseValue(c, o, d).Ok? ==> Fits(ParseValue(c, o, d).value, d)
    decreases |c| - o, 3
  {
    hide Terminated, ParseNumber, ParseString, ParseArray, ParseObject, StartsWith;
    if c[o] == '[' {
      AcceptedArray(c, o, d);
    } else if c[o] == '{' {
      AcceptedObject(c, o, d);
    }
    ScalarsFit(c, o, d);
  }

  lemma ScalarsFit(c: string, o: nat, d: nat)
    requires o < |c| && d <= NESTING_LIMIT
    ensures Fits(Null, d) && Fits(Bool(true), d) && Fits(Bool(false), d)
    ensures ParseString(c, o).Ok? ==> Fits(String(ParseString(c, o).value), d)
    ensures ParseNumber(c, o).Ok? ==> Fits(ParseNumber(c, o).value, d)
  {
    hide Strtod, SpanNumber, ParseString;
  }

  lemma {:induction false} AcceptedArray(c: string, o: nat, d: nat)
    requires Terminated(c) && o < |c| && c[o] == '[' && d <= NESTING_LIMIT
    ensures ParseArray(c, o, d).Ok? ==> Fits(ParseArray(c, o, d).value, d)
    decreases |c| - o, 1
  {
    hide Terminated, ParseElements;
    NotLast(c, o);
    if d < NESTING_LIMIT {
      NoneFit(d + 1);
      var o1 := SkipWhitespace(c, o + 1);
      if c[o1] != ']' { AcceptedElements(c, o1 - 1, d + 1); }
    }
  }

  lemma {:induction false} AcceptedElements(c: string, o: nat, d: nat)
    requires Terminated(c) && o + 1 < |c| && d <= NESTING_LIMIT
    ensures ParseElements(c, o, d).Ok? ==> ItemsFit(ParseElements(c, o, d).value, d)
    decreases |c| - o, 0
  {
    hide Terminated, ParseValue, ItemsFit, Fits, SkipBlank;
    var s := SkipWhitespace(c, o + 1);
    AcceptedValue(c, s, d);
    match ParseValue(c, s, d) {
      case Err(_) =>
      case Ok(v, q) =>
        var q1 := SkipWhitespace(c, q);
        NoneFit(d);
        if c[q1] == ',' {
          NotLast(c, q1);
          AcceptedElements(c, q1, d);
          if ParseElements(c, q1, d).Ok? { ItemsCons(v, ParseElements(c, q1, d).value, d); }
        } else if c[q1] == ']' {
          ItemsCons(v, [], d);
          assert [v] + [] == [v];
        }
    }
  }

  lemma {:induction false} AcceptedObject(c: string, o: nat, d: nat)
    requires Terminated(c) && o < |c| && c[o] == '{' && d <= NESTING_LIMIT
    ensures ParseObject(c, o, d).Ok? ==> Fits(ParseObject(c, o, d).value, d)
    decreases |c| - o, 2
  {
    hide Terminated, ParseMembers;
    NotLast(c, o);
    if d < NESTING_LIMIT {
      NoneFit(d + 1);
      var o1 := SkipWhitespace(c, o + 1);
      if c[o1] != '}' { AcceptedMembers(c, o1 - 1, d + 1); }
    }
  }

  lemma {:induction false} AcceptedMember(c: string, o: nat, d: nat)
    requires Terminated(c) && o + 1 < |c| && d <= NESTING_LIMIT
    ensures ParseMember(c, o, d).Ok? ==>
              NulFree(ParseMember(c, o, d).value.key) && Fits(ParseMember(c, o, d).value.value, d)
    decreases |c| - o, 0
  {
    hide Terminated, ParseValue, ParseString, Fits, SkipBlank;
    match ParseString(c, SkipWhitespace(c, o + 1)) {
      case Err(_) =>
      case Ok(key, q) =>
        if q < |c| {
          var q1 := SkipWhitespace(c, q);
          if c[q1] == ':' {
            NotLast(c, q1);
            AcceptedValue(c, SkipWhitespace(c, q1 + 1), d);
          }
        }
    }
  }

  lemma {:induction false} AcceptedMembers(c: string, o: nat, d: nat)
    requires Terminated(c) && o + 1 < |c| && d <= NESTING_LIMIT
    ensures ParseMembers(c, o, d).Ok? ==> MembersFit(ParseMembers(c, o, d).value, d)
    decreases |c| - o, 1
  {
    hide Terminated, ParseMember, MembersFit, Fits, SkipBlank, NulFree;
    AcceptedMember(c, o, d);
    match ParseMember(c, o, d) {
      case Err(_) =>
      case Ok(m, q) =>
        var q1 := SkipWhitespace(c, q);
        NoneFit(d);
        if c[q1] == ',' {
          NotLast(c, q1);
          AcceptedMembers(c, q1, d);
          if ParseMembers(c, q1, d).Ok? { MembersCons(m, ParseMembers(c, q1, d).value, d); }
        } else if c[q1] == '}' {
          MembersCons(m, [], d);
          assert [m] + [] == [m];
        }
    }
  }

  /** Every accepted text has at most 1000 nested containers; and if its numbers are plain integers, the value read from
      it prints, formatted or not, as a text that is read back as the same value. */
  lemma AcceptedRoundTrips(text: string, strict: bool, fmt: bool)
    requires NulFree(text) && Parse(text, strict).Ok?
    ensures var v := Parse(text, strict).value;
            && Nesting(v) <= 1000
            && (PlainNumbers(v) ==>
                  Printable(v) && NulFree(Render(v, fmt, 0)) && Parse(Render(v, fmt, 0), true) == Ok(v, |Render(v, fmt, 0)|))
  {
    hide ParseValue, Render, Printable, SkipBom, PlainNumbers, Nesting;
    var c := text + [NUL];
    assert c[..|text|] == text;
    AcceptedValue(c, SkipWhitespace(c, SkipBom(c)), 0);
    var v := Parse(text, strict).value;
    if PlainNumbers(v) { JsonRoundTrip.RoundTrip(v, fmt); }
  }

  /** The printable values that some text stands for are exactly those within the limit. */
  lemma AcceptedExactly(v: Json)
    requires Printable(v)
    ensures Nesting(v) <= 1000 <==>
              exists text, strict :: NulFree(text) && Parse(text, strict).Ok? && Parse(text, strict).value == v
  {
    hide Parse, Render, Printable, Nesting;
    if Nesting(v) <= NESTING_LIMIT {
      JsonRoundTrip.RoundTrip(v, false);
    }
    if text, strict :| NulFree(text) && Parse(text, strict).Ok? && Parse(text, strict).value == v {
      AcceptedRoundTrips(text, strict, false);
    }
  }
}
