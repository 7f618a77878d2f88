/** Where separators, tabs and line ends stand in printed text. */
module JsonLayout {
  import opened Decimal
  import opened Json

  /** Texts with a separator between them. */
  function Joined(parts: seq<string>, separator: string): string {
    if parts == [] then ""
    else parts[0] + if |parts| == 1 then "" else separator + Joined(parts[1..], separator)
  }

  lemma JoinedCons(part: string, parts: seq<string>, separator: string)
    requires parts != []
    ensures Joined([part] + parts, separator) == part + (separator + Joined(parts, separator))
  {
    assert ([part] + parts)[1..] == parts;
  }

  function ItemTexts(items: seq<Json>, fmt: bool, depth: nat): seq<string>
    requires PrintableItems(items)
  {
    seq(|items|, i requires 0 <= i < |items| => assert Printable(items[i]); Render(items[i], fmt, depth))
  }

  /** A member: its indentation, its key, a colon and a tab, and its value; without the blanks when not formatted. */
  function MemberText(m: Member, fmt: bool, depth: nat): string
    requires PrintableMember(m)
  {
    if fmt then Tabs(depth) + (RenderString(m.key) + (":\t" + Render(m.value, true, depth)))
    else RenderString(m.key) + (":" + Render(m.value, false, depth))
  }

  function MemberTexts(ms: seq<Member>, fmt: bool, depth: nat): seq<string>
    requires PrintableMembers(ms)
  {
    seq(|ms|, i requires 0 <= i < |ms| => assert PrintableMember(ms[i]); MemberText(ms[i], fmt, depth))
  }

  lemma {:induction false} ItemsJoined(items: seq<Json>, fmt: bool, depth: nat)
    requires PrintableItems(items)
    ensures RenderItems(items, fmt, depth) == Joined(ItemTexts(items, fmt, depth), if fmt then ", " else ",")
    decreases |items|
  {
    hide Render, Printable;
    if items != [] {
      var texts := ItemTexts(items, fmt, depth);
      assert Printable(items[0]);
      if |items| == 1 {
        assert texts == [Render(items[0], fmt, depth)];
      } else {
        ItemsJoined(items[1..], fmt, depth);
        var rest := ItemTexts(items[1..], fmt, depth);
        assert texts == [Render(items[0], fmt, depth)] + rest;
        JoinedCons(texts[0], rest, if fmt then ", " else ",");
        assert RenderItems(items, fmt, depth)
               == Render(items[0], fmt, depth) + ItemSeparator(fmt) + RenderItems(items[1..], fmt, depth);
        Assoc(Render(items[0], fmt, depth), ItemSeparator(fmt), RenderItems(items[1..], fmt, depth));
      }
    }
  }

  lemma Assoc(a: string, b: string, c: string)
    ensures a + b + c == a + (b + c)
  {
  }

  /** An array: its elements between brackets, a comma between two of them, and a space behind it when formatted. */
  lemma ArrayLayout(items: seq<Json>, fmt: bool, depth: nat)
    requires PrintableItems(items)
    ensures Render(Array(items), fmt, depth) ==
              "[" + Joined(ItemTexts(items, fmt, depth + 1), if fmt then ", " else ",") + "]"
  {
    hide RenderItems, ItemTexts, Joined;
    ItemsJoined(items, fmt, depth + 1);
  }

  lemma MemberStep(ms: seq<Member>, fmt: bool, depth: nat)
    requires ms != [] && PrintableMembers(ms)
    ensures PrintableMember(ms[0])
    ensures RenderMembers(ms, fmt, depth) ==
              MemberText(ms[0], fmt, depth) + ((if |ms| == 1 then "" else ",") + ((if fmt then "\n" else "") + RenderMembers(ms[1..], fmt, depth)))
  {
    hide Render, RenderString;
    assert PrintableMember(ms[0]);
    var k, v, rest := RenderString(ms[0].key), Render(ms[0].value, fmt, depth), RenderMembers(ms[1..], fmt, depth);
    Six(Indent(fmt, depth), k, KeySeparator(fmt), v, if |ms| == 1 then "" else ",", if fmt then "\n" else "", rest);
    assert !fmt ==> Indent(fmt, depth) + (k + (":" + v)) == k + (":" + v);
  }

  lemma Six(i: string, k: string, p: string, v: string, e: string, n: string, r: string)
    ensures i + k + p + v + (e + n) + r == (i + (k + (p + v))) + (e + (n + r))
  {
  }

  /** Members with a comma, and when formatted a line end, between two of them; the last is followed by its line end. */
  lemma {:induction false} MembersJoined(ms: seq<Member>, fmt: bool, depth: nat)
    requires ms != [] && PrintableMembers(ms)
    ensures RenderMembers(ms, fmt, depth) ==
              Joined(MemberTexts(ms, fmt, depth), if fmt then ",\n" else ",") + if fmt then "\n" else ""
    decreases |ms|
  {
    hide MemberText, RenderMembers, PrintableMember;
    MemberStep(ms, fmt, depth);
    var first, texts := MemberText(ms[0], fmt, depth), MemberTexts(ms, fmt, depth);
    var sep, end := if fmt then ",\n" else ",", if fmt then "\n" else "";
    if |ms| == 1 {
      assert texts == [first] && ms[1..] == [];
      NoMembers(fmt, depth);
    } else {
      MembersJoined(ms[1..], fmt, depth);
      var rest := MemberTexts(ms[1..], fmt, depth);
      assert texts == [first] + rest;
      JoinedCons(first, rest, sep);
      assert "," + end == sep;
      Pieces(first, end, Joined(rest, sep), end);
    }
  }

  lemma NoMembers(fmt: bool, depth: nat)
    ensures RenderMembers([], fmt, depth) == ""
  {
  }

  lemma Pieces(a: string, b: string, c: string, d: string)
    ensures a + ("," + (b + (c + d))) == (a + (("," + b) + c)) + d
  {
  }

  /** An object: formatted, an opening brace and a line end, one member on a line, and the closing brace behind as many
      tabs as containers are open around it; otherwise nothing but the members and commas between braces. */
  lemma ObjectLayout(ms: seq<Member>, depth: nat)
    requires PrintableMembers(ms)
    ensures Render(Object(ms), false, depth) == "{" + Joined(MemberTexts(ms, false, depth + 1), ",") + "}"
    ensures ms == [] ==> Render(Object(ms), true, depth) == "{\n" + Tabs(depth) + "}"
    ensures ms != [] ==>
              Render(Object(ms), true, depth) == "{\n" + (Joined(MemberTexts(ms, true, depth + 1), ",\n") + "\n") + Tabs(depth) + "}"
  {
    hide RenderMembers, MemberTexts, PrintableMember;
    if ms == [] {
      NoMembers(true, depth + 1);
      NoMembers(false, depth + 1);
      NoTexts();
    } else {
      MembersJoined(ms, true, depth + 1);
      MembersJoined(ms, false, depth + 1);
    }
  }

  lemma NoTexts()
    ensures forall depth: nat :: MemberTexts([], false, depth) == []
  {
  }

  /** Integers have no superfluous zero in front. */
  lemma {:induction false} NoLeadingZero(n: nat)
    ensures n > 0 ==> Digits(n)[0] != '0'
    ensures n == 0 ==> Digits(n) == "0"
  {
    if n >= 10 { NoLeadingZero(n / 10); }
  }
}
