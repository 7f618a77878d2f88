/** The printer: a buffer with a length, a write offset and a nesting depth, grown by reallocation. */
module PrintBuffer {
  import opened Json
  import JsonRoundTrip

  const INT_MAX: nat := 0x7FFF_FFFF

  /** What a printer reserves beyond the text of a value; only numbers are reserved exactly. */
  function Slack(v: Json): nat {
    if v.Number? then 1 else 2
  }

  class PrintBuffer {
    var buffer: array?<char>
    var length: nat
    var offset: nat
    var depth: nat
    var refusals: nat
    const noalloc: bool
    const format: bool

    /** `length` is 0 before the first reservation of `print`, although a block exists. */
    ghost predicate Valid()
      reads this
    {
      && buffer != null
      && (if length == 0 then offset == 0 else offset < length <= buffer.Length)
      && length <= INT_MAX
    }

    /** What has been written for good. */
    ghost function Written(): string
      requires buffer != null && offset <= buffer.Length
      reads this, buffer
    {
      buffer[..offset]
    }

    /** The buffer holds `text` as a C string. */
    ghost predicate Holds(text: string)
      reads this, buffer
    {
      && buffer != null && |text| < length <= buffer.Length
      && buffer[..|text|] == text && buffer[|text|] == NUL
    }

    constructor (buffer: array<char>, length: nat, noalloc: bool, format: bool)
      requires length <= buffer.Length && length <= INT_MAX
      ensures Valid() && this.buffer == buffer && this.length == length && offset == 0 && depth == 0 && refusals == 0
      ensures this.noalloc == noalloc && this.format == format
    {
      this.buffer, this.length, this.noalloc, this.format := buffer, length, noalloc, format;
      offset, depth, refusals := 0, 0, 0;
    }

    /** `ensure`: room for `needed` more characters and a terminator, without touching what is written.  A
        preallocated buffer is never replaced; a growing one fails only when `realloc` refuses or the size would
        exceed INT_MAX. */
    method Ensure(needed: nat) returns (ok: bool)
      requires Valid()
      modifies this`buffer, this`length, this`refusals
      ensures ok ==> Valid() && offset + needed + 1 <= length && refusals == old(refusals)
      ensures ok ==> buffer == old(buffer) || fresh(buffer)
      ensures ok ==> Written() == old(Written())
      ensures noalloc ==> buffer == old(buffer) && length == old(length) && refusals == old(refusals)
                          && (ok <==> offset + needed + 1 <= length)
      ensures !noalloc && !ok ==> refusals > old(refusals) || offset + needed + 1 > INT_MAX
    {
      if needed > INT_MAX {
        return false;
      }
      var total := needed + offset + 1;
      if total <= length {
        return true;
      }
      if noalloc {
        return false;
      }
      var newSize := 0;
      if total > INT_MAX / 2 {
        if total <= INT_MAX {
          newSize := INT_MAX;
        } else {
          return false;
        }
      } else {
        newSize := total * 2;
      }
      var granted := *;
      if !granted {
        refusals := refusals + 1;
        buffer, length := null, 0;
        return false;
      }
      var newBuffer := new char[newSize];
      forall i | 0 <= i < newBuffer.Length && i < buffer.Length {
        newBuffer[i] := buffer[i];
      }
      length := newSize;
      buffer := newBuffer;
      ok := true;
    }

    /** `update_offset`: moves to the terminator of what was just printed behind `before`. */
    method UpdateOffset(ghost before: string, ghost text: string)
      requires Valid() && Holds(before + text) && NulFree(text) && |before| <= offset <= |before| + |text|
      modifies this`offset
      ensures Valid() && offset == |before| + |text| && Written() == before + text
    {
      assert forall k :: |before| <= k < |before| + |text| ==> buffer[k] == buffer[..|before + text|][k];
      assert forall k :: |before| <= k < |before| + |text| ==> buffer[k] == text[k - |before|];
      while buffer[offset] != NUL
        invariant |before| <= offset <= |before| + |text|
        decreases |before| + |text| - offset
      {
        offset := offset + 1;
      }
    }

    /** A preallocated buffer is never replaced, and never touched beyond its length. */
    twostate predicate Kept()
      requires old(buffer) != null && old(length <= buffer.Length)
      reads this, buffer
    {
      noalloc ==> && buffer == old(buffer) && length == old(length) && refusals == old(refusals)
                  && buffer[length..] == old(buffer[length..])
    }

    /** Printing succeeded so far. */
    twostate predicate Going()
      reads this, buffer
    {
      && Valid() && (buffer == old(buffer) || fresh(buffer))
      && depth == old(depth) && refusals == old(refusals)
    }

    /** Why printing fails: `realloc` refused, or `size` characters behind the old offset do not fit. */
    twostate predicate Short(size: nat)
      reads this
    {
      refusals > old(refusals) || old(offset) + size > (if noalloc then length else INT_MAX)
    }

    /** What printing `text` with `slack` more characters reserved comes to: it succeeds exactly when the reservation
        fits, and then the text stands behind what was written before, with a terminator. */
    twostate predicate Printed(ok: bool, text: string, slack: nat)
      requires old(Valid())
      reads this, buffer
    {
      && Kept()
      && (ok ==> && Going() && Holds(old(Written()) + text) && old(offset) <= offset <= old(offset) + |text|
                 && old(offset) + |text| + slack <= length)
      && (!ok ==> Short(|text| + slack))
    }

    /** The same for part of a value, with the offset moved behind the text. */
    twostate predicate Appended(ok: bool, text: string, size: nat)
      requires old(Valid())
      reads this, buffer
    {
      && Kept()
      && (ok ==> Going() && Written() == old(Written()) + text)
      && (!ok ==> Short(size))
    }

    /** Writes `text` and a terminator at the offset, in space that has been reserved. */
    method Store(text: string)
      requires Valid() && offset + |text| < length
      modifies buffer
      ensures Holds(old(Written()) + text)
      ensures buffer[length..] == old(buffer[length..])
    {
      StoreBytes(text);
      buffer[offset + |text|] := NUL;
    }

    /** `print_number`, on the numbers for which `"%1.15g"` prints a plain integer. */
    method PrintNumber(r: real) returns (ok: bool)
      requires Valid() && PlainInteger(r)
      modifies this, buffer
      ensures Printed(ok, RenderInt(r.Floor), 1)
    {
      hide RenderInt;
      var numberBuffer := RenderInt(r.Floor);
      ok := Ensure(|numberBuffer|);
      if ok {
        Store(numberBuffer);
        offset := offset + |numberBuffer|;
      }
    }

    /** `print_string_ptr`: counts the escapes, reserves, then copies. */
    method PrintStringPtr(input: string) returns (ok: bool)
      requires Valid()
      modifies this, buffer
      ensures Printed(ok, RenderString(input), 2)
      ensures ok ==> offset == old(offset)
    {
      hide Escape;
      var escapeCharacters := CountEscapes(input);
      ok := Ensure(|input| + escapeCharacters + 3);
      if ok {
        StoreQuoted(input, escapeCharacters);
      }
    }

    /** Writes the quoted text and a terminator at the offset, in space that has been reserved. */
    method StoreQuoted(input: string, escapeCharacters: nat)
      requires |Escape(input)| == |input| + escapeCharacters
      requires Valid() && offset + |RenderString(input)| < length
      modifies buffer
      ensures Holds(old(Written()) + RenderString(input))
      ensures buffer[length..] == old(buffer[length..])
    {
      CopyQuoted(input, escapeCharacters, buffer, offset);
      Joined(buffer, offset, RenderString(input));
    }

    /** Punctuation and indentation: reserve `needed`, write, and move the offset by hand. */
    method AppendText(text: string, needed: nat, terminated: bool) returns (ok: bool)
      requires Valid() && |text| <= needed
      modifies this, buffer
      ensures Appended(ok, text, needed + 1)
    {
      ok := Ensure(needed);
      if ok {
        if terminated {
          Store(text);
        } else {
          StoreBytes(text);
        }
        offset := offset + |text|;
      }
    }

    /** Writes `text` at the offset without a terminator. */
    method StoreBytes(text: string)
      requires Valid() && offset + |text| < length
      modifies buffer
      ensures buffer[..offset + |text|] == old(Written()) + text
      ensures buffer[length..] == old(buffer[length..])
    {
      CopyBytes(text, buffer, offset);
      Joined(buffer, offset, text);
    }

    /** A fixed text at the end of a value: reserve `needed`, write it with its terminator, leave the offset. */
    method PrintText(text: string, needed: nat) returns (ok: bool)
      requires Valid() && |text| <= needed
      modifies this, buffer
      ensures Printed(ok, text, needed + 1 - |text|)
    {
      ok := Ensure(needed);
      if ok {
        Store(text);
      }
    }

    /** A key, followed by `update_offset`. */
    method AppendString(key: string) returns (ok: bool)
      requires Valid() && NulFree(key)
      modifies this, buffer
      ensures Appended(ok, RenderString(key), |RenderString(key)| + 2)
    {
      hide RenderString, NulFree;
      ghost var before := Written();
      ok := PrintStringPtr(key);
      if ok {
        RenderedKeyNulFree(key);
        UpdateOffset(before, RenderString(key));
      }
    }

    /** A value, followed by `update_offset`. */
    method AppendValue(v: Json) returns (ok: bool)
      requires Valid() && Printable(v)
      modifies this, buffer
      ensures Appended(ok, Render(v, format, old(depth)), |Render(v, format, old(depth))| + Slack(v))
      decreases v, 2
    {
      hide Render, NulFree, Printable;
      ghost var before, text := Written(), Render(v, format, depth);
      ok := PrintValue(v);
      if ok {
        JsonRoundTrip.RenderNulFree(v, format, old(depth));
        UpdateOffset(before, text);
      }
    }

    /** `print_value`: dispatches on the type. */
    method PrintValue(v: Json) returns (ok: bool)
      requires Valid() && Printable(v)
      modifies this, buffer
      ensures Printed(ok, Render(v, format, old(depth)), Slack(v))
      decreases v, 1
    {
      hide RenderString, RenderItems, RenderMembers, NulFree, Printed;
      match v {
        case Null => ok := PrintText("null", 5);
        case Bool(b) =>
          if b {
            ok := PrintText("true", 5);
          } else {
            ok := PrintText("false", 6);
          }
        case Number(r) => ok := PrintNumber(r);
        case String(s) => ok := PrintStringPtr(s);
        case Array(items) => ok := PrintArray(items);
        case Object(ms) =>
          ObjectShape(ms, format, depth);
          ok := PrintObject(ms);
      }
    }

    /** `print_array`. */
    method PrintArray(items: seq<Json>) returns (ok: bool)
      requires Valid() && PrintableItems(items)
      modifies this, buffer
      ensures Printed(ok, "[" + RenderItems(items, format, old(depth) + 1) + "]", 2)
      decreases items, 2
    {
      hide Render, RenderItems, PrintableItems;
      ghost var text := RenderItems(items, format, depth + 1);
      Regroup(Written(), "[", text, "]");
      assert "[" + (text + "]") == "[" + text + "]";
      ok := AppendText("[", 1, false);
      if !ok {
        return;
      }
      ok := FinishArray(items);
    }

    /** The elements and the closing bracket. */
    method FinishArray(items: seq<Json>) returns (ok: bool)
      requires Valid() && PrintableItems(items)
      modifies this, buffer
      ensures Printed(ok, RenderItems(items, format, old(depth) + 1) + "]", 2)
      decreases items, 1
    {
      hide Render, RenderItems, PrintableItems;
      ghost var text := RenderItems(items, format, depth + 1);
      assert Written() + text + "]" == Written() + (text + "]");
      depth := depth + 1;
      ok := PrintElements(items);
      if !ok {
        return;
      }
      ok := PrintText("]", 2);
      if ok {
        depth := depth - 1;
      }
    }

    /** The loop of `print_array`. */
    method PrintElements(items: seq<Json>) returns (ok: bool)
      requires Valid() && PrintableItems(items)
      modifies this, buffer
      ensures Appended(ok, RenderItems(items, format, old(depth)), |RenderItems(items, format, old(depth))| + 3)
      decreases items, 0
    {
      hide Render, RenderItems, Printable, PrintableItems, ItemSeparator;
      ghost var goal := Written() + RenderItems(items, format, depth);
      ok := true;
      var i := 0;
      assert items[0..] == items;
      while i < |items|
        invariant 0 <= i <= |items| && Going() && Kept()
        invariant PrintableItems(items[i..])
        invariant Written() + RenderItems(items[i..], format, depth) == goal
      {
        ItemsStep(items, i, format, depth);
        ok := AppendValue(items[i]);
        if !ok {
          return;
        }
        if i + 1 < |items| {
          ok := AppendText(ItemSeparator(format), if format then 3 else 2, true);
          if !ok {
            return;
          }
        }
        i := i + 1;
      }
      assert items[i..] == [];
      NoItems(format, depth);
    }

    /** `print_object`. */
    method PrintObject(ms: seq<Member>) returns (ok: bool)
      requires Valid() && PrintableMembers(ms)
      modifies this, buffer
      ensures Printed(ok, ObjectText(ms, format, old(depth)), 2)
      decreases ms, 3
    {
      hide RenderMembers, PrintableMembers, Indent, ObjectText, OpenBrace;
      ObjectParts(ms, format, depth);
      Regroup(Written(), OpenBrace(format), RenderMembers(ms, format, depth + 1), Indent(format, depth) + "}");
      ok := AppendText(OpenBrace(format), |OpenBrace(format)| + 1, false);
      if !ok {
        return;
      }
      ok := FinishObject(ms);
    }

    /** The members and the closing brace. */
    method FinishObject(ms: seq<Member>) returns (ok: bool)
      requires Valid() && PrintableMembers(ms)
      modifies this, buffer
      ensures Printed(ok, RenderMembers(ms, format, old(depth) + 1) + (Indent(format, old(depth)) + "}"), 2)
      decreases ms, 3, 0
    {
      hide RenderMembers, PrintableMembers, Indent;
      ghost var members, closing := RenderMembers(ms, format, depth + 1), Indent(format, depth) + "}";
      assert Written() + members + closing == Written() + (members + closing);
      depth := depth + 1;
      ok := PrintMembers(ms);
      if !ok {
        return;
      }
      IndentLength(format, depth - 1);
      ok := PrintText(Indent(format, depth - 1) + "}", if format then depth + 1 else 2);
      if ok {
        depth := depth - 1;
      }
    }

    /** The loop of `print_object`. */
    method PrintMembers(ms: seq<Member>) returns (ok: bool)
      requires Valid() && PrintableMembers(ms)
      modifies this, buffer
      ensures Appended(ok, RenderMembers(ms, format, old(depth)), |RenderMembers(ms, format, old(depth))| + 3)
      decreases ms, 2
    {
      hide RenderMembers, PrintableMember, MemberText;
      ghost var goal := Written() + RenderMembers(ms, format, depth);
      ok := true;
      var i := 0;
      assert ms[0..] == ms;
      while i < |ms|
        invariant 0 <= i <= |ms| && Going() && Kept()
        invariant Written() + RenderMembers(ms[i..], format, depth) == goal
      {
        MembersUncons(ms[i..], format, depth);
        ok := PrintMember(ms[i], i + 1 == |ms|);
        if !ok {
          return;
        }
        i := i + 1;
      }
      NoMembers(format, depth);
    }

    /** One turn of that loop: the key, the value, and the comma and line end behind them. */
    method PrintMember(m: Member, last: bool) returns (ok: bool)
      requires Valid() && PrintableMember(m)
      modifies this, buffer
      ensures Appended(ok, MemberText(m, last, format, old(depth)), |MemberText(m, last, format, old(depth))| + 3)
      decreases m, 3
    {
      hide KeyText, Render, Printable;
      Regroup(Written(), KeyText(m.key, format, depth), Render(m.value, format, depth), MemberEnd(last, format));
      ok := PrintKey(m.key);
      if !ok {
        return;
      }
      ok := AppendValue(m.value);
      if !ok {
        return;
      }
      ok := AppendText(MemberEnd(last, format), |MemberEnd(last, format)| + 1, true);
    }

    /** Indentation, key and colon. */
    method PrintKey(key: string) returns (ok: bool)
      requires Valid() && NulFree(key)
      modifies this, buffer
      ensures Appended(ok, KeyText(key, format, old(depth)), |KeyText(key, format, old(depth))| + 3)
    {
      hide RenderString, NulFree, Indent;
      IndentLength(format, depth);
      Regroup(Written(), Indent(format, depth), RenderString(key), KeySeparator(format));
      ok := true;
      if format {
        ok := AppendText(Indent(format, depth), depth, false);
        if !ok {
          return;
        }
      }
      ok := AppendString(key);
      if !ok {
        return;
      }
      ok := AppendText(KeySeparator(format), if format then 2 else 1, false);
    }
  }

  /** The buffer is a C string. */
  ghost predicate IsCString(buffer: array<char>, text: string)
    reads buffer
  {
    |text| < buffer.Length && buffer[..|text|] == text && buffer[|text|] == NUL
  }

  /** `print`: a fresh C string that is exactly the rendering, or nothing when an allocation was refused or the text
      does not fit in INT_MAX. */
  method Print(v: Json, fmt: bool) returns (printed: array?<char>, refused: bool)
    requires Printable(v)
    ensures printed != null ==> fresh(printed) && IsCString(printed, Render(v, fmt, 0))
    ensures printed == null ==> refused || |Render(v, fmt, 0)| + (if v.Number? then 1 else 2) > 0x7FFF_FFFF
  {
    hide Render, Printable, NulFree;
    printed, refused := null, true;
    var granted := *;
    if !granted {
      return;
    }
    var block := new char[256];
    var p := new PrintBuffer(block, 0, false, fmt);
    var ok := p.PrintValue(v);
    refused := p.refusals > 0;
    if !ok {
      return;
    }
    JsonRoundTrip.RenderNulFree(v, fmt, 0);
    p.UpdateOffset("", Render(v, fmt, 0));
    granted := *;
    if !granted {
      return printed, true;
    }
    printed := Shrink(p.buffer, p.length, Render(v, fmt, 0));
  }

  /** The last `realloc` of `print`, to the length in use. */
  method Shrink(buffer: array<char>, length: nat, ghost text: string) returns (result: array<char>)
    requires |text| < length <= buffer.Length && IsCString(buffer, text)
    ensures fresh(result) && IsCString(result, text)
  {
    result := new char[length];
    forall i | 0 <= i < result.Length {
      result[i] := buffer[i];
    }
    assert result[..] == buffer[..length];
    assert result[..|text|] == buffer[..|text|];
  }

  /** `cJSON_PrintBuffered`: the same with a first guess of the size. */
  method PrintBuffered(v: Json, prebuffer: int, fmt: bool) returns (printed: array?<char>, refused: bool)
    requires Printable(v) && prebuffer <= INT_MAX
    ensures printed != null ==> fresh(printed) && IsCString(printed, Render(v, fmt, 0))
    ensures printed == null ==> prebuffer < 0 || refused || |Render(v, fmt, 0)| + (if v.Number? then 1 else 2) > 0x7FFF_FFFF
  {
    hide Render, Printable, NulFree;
    printed, refused := null, false;
    if prebuffer < 0 {
      return;
    }
    var granted := *;
    if !granted {
      return printed, true;
    }
    var block := new char[prebuffer];
    var p := new PrintBuffer(block, prebuffer, false, fmt);
    var ok := p.PrintValue(v);
    refused := p.refusals > 0;
    if ok {
      printed := p.buffer;
    }
  }

  /** `cJSON_PrintPreallocated` succeeds exactly when `len` is at least the length of the rendering plus 2, or plus 1
      for a number; it never touches the buffer beyond `len`. */
  method PrintPreallocated(v: Json, buf: array<char>, len: int, fmt: bool) returns (ok: bool)
    requires Printable(v) && len <= buf.Length && len <= INT_MAX
    modifies buf
    ensures ok <==> len >= |Render(v, fmt, 0)| + if v.Number? then 1 else 2
    ensures ok ==> IsCString(buf, Render(v, fmt, 0))
    ensures buf[if len < 0 then 0 else len..] == old(buf[if len < 0 then 0 else len..])
  {
    hide Render, Printable, NulFree;
    if len < 0 {
      return false;
    }
    var p := new PrintBuffer(buf, len, true, fmt);
    ok := p.PrintValue(v);
  }

  function ObjectText(ms: seq<Member>, fmt: bool, depth: nat): string
    requires PrintableMembers(ms)
  {
    OpenBrace(fmt) + RenderMembers(ms, fmt, depth + 1) + (Indent(fmt, depth) + "}")
  }

  lemma ObjectParts(ms: seq<Member>, fmt: bool, depth: nat)
    requires PrintableMembers(ms)
    ensures ObjectText(ms, fmt, depth)
            == OpenBrace(fmt) + RenderMembers(ms, fmt, depth + 1) + (Indent(fmt, depth) + "}")
  {
  }

  lemma ObjectShape(ms: seq<Member>, fmt: bool, depth: nat)
    requires PrintableMembers(ms)
    ensures Render(Object(ms), fmt, depth) == ObjectText(ms, fmt, depth)
  {
  }

  function MemberText(m: Member, last: bool, fmt: bool, depth: nat): string
    requires PrintableMember(m)
  {
    KeyText(m.key, fmt, depth) + Render(m.value, fmt, depth) + MemberEnd(last, fmt)
  }

  function KeyText(key: string, fmt: bool, depth: nat): string {
    Indent(fmt, depth) + RenderString(key) + KeySeparator(fmt)
  }

  lemma IndentLength(fmt: bool, depth: nat)
    ensures |Indent(fmt, depth)| == if fmt then depth else 0
  {
  }

  lemma NoMembers(fmt: bool, depth: nat)
    ensures RenderMembers([], fmt, depth) == ""
  {
  }

  lemma MembersUncons(ms: seq<Member>, fmt: bool, depth: nat)
    requires ms != [] && PrintableMembers(ms)
    ensures PrintableMember(ms[0])
    ensures RenderMembers(ms, fmt, depth)
            == MemberText(ms[0], |ms| == 1, fmt, depth) + RenderMembers(ms[1..], fmt, depth)
  {
    assert PrintableMember(ms[0]);
  }

  lemma Regroup(before: string, a: string, b: string, c: string)
    ensures before + a + b + c == before + (a + b + c)
  {
  }

  lemma NoItems(fmt: bool, depth: nat)
    ensures RenderItems([], fmt, depth) == ""
  {
  }

  lemma ItemsUncons(items: seq<Json>, fmt: bool, depth: nat)
    requires items != [] && PrintableItems(items)
    ensures var sep := if |items| > 1 then ItemSeparator(fmt) else "";
            RenderItems(items, fmt, depth)
            == Render(items[0], fmt, depth) + sep + RenderItems(items[1..], fmt, depth)
  {
  }

  lemma ItemsStep(items: seq<Json>, i: nat, fmt: bool, depth: nat)
    requires i < |items| && PrintableItems(items)
    ensures Printable(items[i]) && PrintableItems(items[i + 1..]) && PrintableItems(items[i..])
    ensures RenderItems(items[i..], fmt, depth)
            == Render(items[i], fmt, depth) + (if i + 1 < |items| then ItemSeparator(fmt) else "")
               + RenderItems(items[i + 1..], fmt, depth)
    ensures |ItemSeparator(fmt)| == if fmt then 2 else 1
  {
    hide Render, RenderItems, Printable;
    ItemsUncons(items[i..], fmt, depth);
    assert items[i..][1..] == items[i + 1..];
  }

  lemma RenderedKeyNulFree(key: string)
    requires NulFree(key)
    ensures NulFree(RenderString(key))
  {
    JsonRoundTrip.EscapeNulFree(key);
  }

  /** The counting loop of `print_string_ptr`. */
  method CountEscapes(input: string) returns (escapeCharacters: nat)
    ensures |Escape(input)| == |input| + escapeCharacters
  {
    hide Escape;
    var i := 0;
    escapeCharacters := 0;
    EscapeNothing();
    assert input[..0] == [];
    while i < |input|
      invariant 0 <= i <= |input| && |Escape(input[..i])| == i + escapeCharacters
    {
      EscapeSnoc(input, i);
      ExtraCount(input[i]);
      escapeCharacters := escapeCharacters + Extra(input[i]);
      i := i + 1;
    }
    assert input[..i] == input;
  }

  lemma Joined(output: array<char>, offset: nat, text: string)
    requires offset + |text| <= output.Length && output[offset..offset + |text|] == text
    ensures output[..offset + |text|] == output[..offset] + text
  {
  }

  /** `memcpy`, or the same done character by character. */
  method CopyBytes(text: string, output: array<char>, start: nat)
    requires start + |text| <= output.Length
    modifies output
    ensures output[..start] == old(output[..start])
    ensures output[start..start + |text|] == text
    ensures output[start + |text|..] == old(output[start + |text|..])
  {
    var i := 0;
    while i < |text|
      invariant 0 <= i <= |text|
      invariant output[..start] == old(output[..start])
      invariant output[start..start + i] == text[..i]
      invariant output[start + |text|..] == old(output[start + |text|..])
    {
      output[start + i] := text[i];
      i := i + 1;
    }
  }

  /** The quoted text: copied as it is when nothing has to be escaped. */
  method CopyQuoted(input: string, escapeCharacters: nat, output: array<char>, start: nat)
    requires |Escape(input)| == |input| + escapeCharacters
    requires start + |RenderString(input)| < output.Length
    modifies output
    ensures output[..start] == old(output[..start])
    ensures output[start..start + |RenderString(input)|] == RenderString(input)
    ensures output[start + |RenderString(input)|] == NUL
    ensures output[start + |RenderString(input)| + 1..] == old(output[start + |RenderString(input)| + 1..])
  {
    hide *;
    ghost var before := output[..];
    QuotedLength(input);
    output[start] := '"';
    ghost var begun := output[..];
    ghost var end := start + 1 + |input| + escapeCharacters;
    if escapeCharacters == 0 {
      NothingToEscape(input);
      CopyBytes(input, output, start + 1);
      FromNext(begun, output[..], end);
    } else {
      CopyEscaped(input, output, start + 1);
    }
    OutsideKept(before, begun, output[..], start, end);
    CloseQuote(Escape(input), output, start, start + 1 + |input| + escapeCharacters);
  }

  lemma QuotedLength(s: string)
    ensures RenderString(s) == "\"" + Escape(s) + "\"" && |RenderString(s)| == |Escape(s)| + 2
  {
    hide Escape;
  }

  lemma FromNext(s: string, t: string, k: nat)
    requires |s| == |t| && k < |s| && s[k..] == t[k..]
    ensures s[k + 1..] == t[k + 1..]
  {
    assert s[k + 1..] == s[k..][1..] && t[k + 1..] == t[k..][1..];
  }

  /** What was changed at `start` and then only between `start + 1` and `end` is as it was outside. */
  lemma OutsideKept(before: string, begun: string, now: string, start: nat, end: nat)
    requires |before| == |now| && start < end < |before| && begun == before[start := '"']
    requires now[..start + 1] == begun[..start + 1] && now[end + 1..] == begun[end + 1..]
    ensures now[start] == '"' && now[..start] == before[..start]
    ensures end + 1 < |now| ==> now[end + 2..] == before[end + 2..]
  {
    assert now[start] == now[..start + 1][start] && now[..start] == now[..start + 1][..start];
    assert begun[..start + 1][..start] == before[..start];
    if end + 1 < |now| {
      FromNext(now, begun, end + 1);
    }
  }

  method CloseQuote(ghost text: string, output: array<char>, start: nat, end: nat)
    requires end == start + 1 + |text| && end + 1 < output.Length
    requires output[start] == '"' && output[start + 1..end] == text
    modifies output
    ensures output[..start] == old(output[..start])
    ensures output[start..end + 1] == "\"" + text + "\"" && output[end + 1] == NUL
    ensures output[end + 2..] == old(output[end + 2..])
  {
    output[end] := '"';
    output[end + 1] := NUL;
  }

  /** The copying loop of `print_string_ptr`.  A control character is printed by `sprintf`, which also writes a
      terminator behind it. */
  method CopyEscaped(input: string, output: array<char>, start: nat)
    requires start + |Escape(input)| < output.Length
    modifies output
    ensures output[..start] == old(output[..start])
    ensures output[start..start + |Escape(input)|] == Escape(input)
    ensures output[start + |Escape(input)| + 1..] == old(output[start + |Escape(input)| + 1..])
  {
    hide Escape, EscapeChar;
    var i, pointer := 0, start;
    ghost var end := start + |Escape(input)|;
    EscapeNothing();
    assert input[..0] == [];
    while i < |input|
      invariant 0 <= i <= |input| && start <= pointer <= end && pointer == start + |Escape(input[..i])|
      invariant output[start..pointer] == Escape(input[..i])
      invariant output[..start] == old(output[..start])
      invariant output[end + 1..] == old(output[end + 1..])
    {
      EscapeSnoc(input, i);
      EscapePrefix(input, i + 1);
      ghost var before, from := output[..], pointer;
      pointer := CopyOne(input[i], output, pointer, end);
      SliceGrows(before, output[..], start, from, pointer);
      i := i + 1;
    }
    assert input[..i] == input;
  }

  /** Writing behind `mid` makes the slice that ends there longer. */
  lemma SliceGrows(before: string, now: string, start: nat, mid: nat, end: nat)
    requires |before| == |now| && start <= mid <= end <= |now| && now[..mid] == before[..mid]
    ensures now[start..end] == before[start..mid] + now[mid..end] && now[..start] == before[..start]
  {
    assert now[start..mid] == now[..mid][start..] && before[start..mid] == before[..mid][start..];
    assert now[..start] == now[..mid][..start] && before[..start] == before[..mid][..start];
  }

  lemma EscapePrefix(s: string, i: nat)
    requires i <= |s|
    ensures |Escape(s[..i])| <= |Escape(s)|
  {
    EscapeAppend(s[..i], s[i..]);
    assert s == s[..i] + s[i..];
  }

  /** One turn of that loop. */
  method CopyOne(c: char, output: array<char>, start: nat, ghost end: nat) returns (pointer: nat)
    requires start + |EscapeChar(c)| <= end < output.Length
    modifies output
    ensures pointer == start + |EscapeChar(c)| && output[start..pointer] == EscapeChar(c)
    ensures output[..start] == old(output[..start]) && output[end + 1..] == old(output[end + 1..])
  {
    hide HexDigit;
    pointer := start;
    if c > 31 as char && c != '"' && c != '\\' {
      output[pointer] := c;
    } else {
      output[pointer] := '\\';
      pointer := pointer + 1;
      match c {
        case '\\' => output[pointer] := '\\';
        case '"' => output[pointer] := '"';
        case '\n' => output[pointer] := 'n';
        case '\r' => output[pointer] := 'r';
        case '\t' => output[pointer] := 't';
        case _ =>
          if c == BACKSPACE {
            output[pointer] := 'b';
          } else if c == FORM_FEED {
            output[pointer] := 'f';
          } else {
            output[pointer], output[pointer + 1], output[pointer + 2] := 'u', '0', '0';
            output[pointer + 3], output[pointer + 4] := HexDigit(c as int / 16), HexDigit(c as int % 16);
            output[pointer + 5] := NUL;
            pointer := pointer + 4;
          }
      }
    }
    pointer := pointer + 1;
  }

  lemma EscapeNothing()
    ensures Escape([]) == []
  {
  }

  /** How many more characters than one the first pass counts for a character. */
  function Extra(c: char): nat {
    match c
    case '"' => 1
    case '\\' => 1
    case '\n' => 1
    case '\r' => 1
    case '\t' => 1
    case _ => if c == BACKSPACE || c == FORM_FEED then 1 else if c < 32 as char then 5 else 0
  }

  lemma ExtraCount(c: char)
    ensures |EscapeChar(c)| == 1 + Extra(c)
  {
  }

  lemma {:induction false} EscapeAppend(a: string, b: string)
    ensures Escape(a + b) == Escape(a) + Escape(b)
    decreases |a|
  {
    hide EscapeChar;
    if a == [] {
      assert a + b == b;
    } else {
      EscapeAppend(a[1..], b);
      assert (a + b)[1..] == a[1..] + b;
    }
  }

  lemma EscapeSnoc(s: string, i: nat)
    requires i < |s|
    ensures Escape(s[..i + 1]) == Escape(s[..i]) + EscapeChar(s[i])
  {
    EscapeAppend(s[..i], [s[i]]);
    assert s[..i + 1] == s[..i] + [s[i]];
    assert Escape([s[i]]) == EscapeChar(s[i]) + Escape([]);
  }

  lemma {:induction false} NothingToEscape(s: string)
    requires |Escape(s)| == |s|
    ensures Escape(s) == s
    decreases |s|
  {
    if s != [] {
      EscapeGrows(s[1..]);
      ExtraCount(s[0]);
      NothingToEscape(s[1..]);
    }
  }

  lemma {:induction false} EscapeGrows(s: string)
    ensures |Escape(s)| >= |s|
    decreases |s|
  {
    if s != [] {
      EscapeGrows(s[1..]);
    }
  }
}
