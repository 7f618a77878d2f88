/** `cJSON_Minify`: drops blanks and comments in place, outside string literals. */
module Minify {
  import opened Json
  import opened JsonText
  import R = JsonRoundTrip
  import opened Wrappers

  predicate IsBlank(c: char) {
    c == ' ' || c == '\t' || c == '\r' || c == '\n'
  }

  function LineEnd(s: string, i: nat): (e: nat)
    requires i <= |s|
    ensures i <= e <= |s|
    ensures i < |s| && s[i] != '\n' ==> i < e
    decreases |s| - i
  {
    if i < |s| && s[i] != '\n' then LineEnd(s, i + 1) else i
  }

  /** Behind the first star and slash at or after `i`. */
  function CommentEnd(s: string, i: nat): (e: Option<nat>)
    requires i <= |s|
    ensures e.Some? ==> i < e.value <= |s|
    decreases |s| - i
  {
    if i + 1 >= |s| then None
    else if s[i] == '*' && s[i + 1] == '/' then Some(i + 2)
    else CommentEnd(s, i + 1)
  }

  function Prefix(a: string, b: Option<string>): Option<string> {
    if b.None? then None else Some(a + b.value)
  }

  /** What is left of the text from `i` on; None when a comment or a string literal is not closed, where the code
      would run past the terminator. */
  function MinifyFrom(s: string, i: nat): Option<string>
    requires i <= |s|
    decreases |s| - i
  {
    if i == |s| then Some("")
    else if IsBlank(s[i]) then MinifyFrom(s, i + 1)
    else if s[i] == '/' && i + 1 < |s| && s[i + 1] == '/' then MinifyFrom(s, LineEnd(s, i))
    else if s[i] == '/' && i + 1 < |s| && s[i + 1] == '*' then
      var e := CommentEnd(s, i);
      if e.None? then None else MinifyFrom(s, e.value)
    else if s[i] == '"' then
      var e := ScanString(s, i + 1);
      if e.None? then None else Prefix(s[i..e.value + 1], MinifyFrom(s, e.value + 1))
    else Prefix([s[i]], MinifyFrom(s, i + 1))
  }

  // ---- The in-place loop ----

  /** `json` held `orig`; its front has been overwritten with `out`. */
  ghost predicate Overwritten(json: array<char>, orig: string, out: string)
    reads json
  {
    |out| <= |orig| && json[..] == out + orig[|out|..]
  }

  /** `orig` starts with the C string `s`. */
  predicate StartsAs(orig: string, s: string) {
    |s| < |orig| && orig[..|s|] == s && orig[|s|] == NUL && NulFree(s)
  }

  /** Behind what has been overwritten, the text is still in place. */
  lemma CharAt(json: array<char>, orig: string, out: string, s: string, i: nat)
    requires Overwritten(json, orig, out) && StartsAs(orig, s) && |out| <= i <= |s|
    ensures |s| < json.Length && json[i] == orig[i]
    ensures i < |s| ==> json[i] == s[i] && json[i] != NUL && json[i + 1] == orig[i + 1]
    ensures i == |s| ==> json[i] == NUL
    ensures i + 1 < |s| ==> json[i + 1] == s[i + 1]
    ensures i + 1 == |s| ==> json[i + 1] == NUL
  {
    assert forall k :: |out| <= k < |orig| ==> json[k] == json[..][k] == orig[k];
    assert forall k :: 0 <= k < |s| ==> orig[k] == orig[..|s|][k];
  }

  /** `*into++ = *json++`. */
  method CopyDown(json: array<char>, ghost orig: string, ghost out: string, into: nat, i: nat)
    requires Overwritten(json, orig, out) && into == |out| <= i < json.Length
    modifies json
    ensures Overwritten(json, orig, out + [orig[i]])
  {
    assert json[i] == json[..][i] == orig[i];
    json[into] := json[i];
  }

  /** A line comment: to the end of the line. */
  method SkipLine(json: array<char>, start: nat, ghost orig: string, ghost out: string, ghost s: string)
    returns (i: nat)
    requires Overwritten(json, orig, out) && StartsAs(orig, s) && |out| <= start <= |s|
    ensures i == LineEnd(s, start)
  {
    hide Overwritten, StartsAs;
    i := start;
    CharAt(json, orig, out, s, i);
    while json[i] != NUL && json[i] != '\n'
      invariant start <= i <= |s| < json.Length && LineEnd(s, start) == LineEnd(s, i)
      invariant if i < |s| then json[i] == s[i] != NUL else json[i] == NUL
      decreases |s| - i
    {
      i := i + 1;
      CharAt(json, orig, out, s, i);
    }
  }

  /** A block comment: to behind the first star and slash, the opening star included. */
  method SkipComment(json: array<char>, start: nat, ghost orig: string, ghost out: string, ghost s: string)
    returns (i: nat)
    requires Overwritten(json, orig, out) && StartsAs(orig, s) && |out| <= start <= |s|
    requires CommentEnd(s, start).Some?
    ensures Some(i) == CommentEnd(s, start)
  {
    hide Overwritten, StartsAs;
    i := start;
    CharAt(json, orig, out, s, i);
    while json[i] != NUL && !(json[i] == '*' && json[i + 1] == '/')
      invariant start <= i && i + 1 < |s| < json.Length && CommentEnd(s, start) == CommentEnd(s, i)
      invariant json[i] == s[i] != NUL && json[i + 1] == s[i + 1]
      decreases |s| - i
    {
      i := i + 1;
      CharAt(json, orig, out, s, i);
    }
    i := i + 2;
  }

  /** A string literal, copied down with its escapes untouched. */
  method CopyLiteral(json: array<char>, into0: nat, start: nat, ghost orig: string, ghost out: string, ghost s: string)
    returns (into: nat, i: nat)
    requires Overwritten(json, orig, out) && StartsAs(orig, s) && into0 == |out| <= start < |s|
    requires s[start] == '"' && ScanString(s, start + 1).Some?
    modifies json
    ensures ScanString(s, start + 1) == Some(i - 1) && start < i
    ensures Overwritten(json, orig, out + s[start..i]) && into == |out + s[start..i]|
  {
    hide Overwritten, StartsAs;
    assert out + s[start..start] == out;
    into, i := CopyChar(json, into0, start, start, orig, out, s);
    while json[i] != NUL && json[i] != '"'
      invariant start < i <= |s| < json.Length && into == |out| + (i - start)
      invariant if i < |s| then json[i] == s[i] != NUL else json[i] == NUL
      invariant Overwritten(json, orig, out + s[start..i])
      invariant ScanString(s, start + 1) == ScanString(s, i)
      decreases |s| - i
    {
      if json[i] == '\\' {
        into, i := CopyChar(json, into, start, i, orig, out, s);
      }
      into, i := CopyChar(json, into, start, i, orig, out, s);
    }
    into, i := CopyChar(json, into, start, i, orig, out, s);
  }

  method CopyChar(json: array<char>, into: nat, ghost start: nat, i: nat, ghost orig: string, ghost out: string,
                  ghost s: string)
    returns (into': nat, i': nat)
    requires StartsAs(orig, s) && |out| <= start <= i < |s| && into == |out| + (i - start)
    requires Overwritten(json, orig, out + s[start..i])
    modifies json
    ensures into' == into + 1 && i' == i + 1
    ensures Overwritten(json, orig, out + s[start..i'])
    ensures |s| < json.Length && if i' < |s| then json[i'] == s[i'] != NUL else json[i'] == NUL
  {
    hide Overwritten, StartsAs;
    CharAt(json, orig, out + s[start..i], s, i);
    CopyDown(json, orig, out + s[start..i], into, i);
    into', i' := into + 1, i + 1;
    assert out + s[start..i] + [s[i]] == out + s[start..i'];
    CharAt(json, orig, out + s[start..i'], s, i');
  }

  // ---- The in-place loop ----

  /** One turn of the loop, by the character it is at. */
  method MinifyOne(json: array<char>, into0: nat, start: nat, ghost orig: string, ghost out: string, ghost s: string)
    returns (into: nat, i: nat, ghost longer: string)
    requires Overwritten(json, orig, out) && StartsAs(orig, s) && into0 == |out| <= start < |s|
    requires MinifyFrom(s, start).Some?
    modifies json
    ensures Overwritten(json, orig, longer) && into == |longer| <= i <= |s| && start < i
    ensures MinifyFrom(s, i).Some? && Prefix(out, MinifyFrom(s, start)) == Prefix(longer, MinifyFrom(s, i))
  {
    hide Overwritten, StartsAs, Prefix, MinifyFrom, ScanString, CommentEnd;
    into, i, longer := into0, start, out;
    CharAt(json, orig, out, s, i);
    MinifyStep(s, i, out);
    if json[i] == ' ' || json[i] == '\t' || json[i] == '\r' || json[i] == '\n' {
      i := i + 1;
    } else if json[i] == '/' && json[i + 1] == '/' {
      i := SkipLine(json, i, orig, out, s);
    } else if json[i] == '/' && json[i + 1] == '*' {
      i := SkipComment(json, i, orig, out, s);
    } else if json[i] == '"' {
      into, i := CopyLiteral(json, into, i, orig, out, s);
      longer := out + s[start..i];
    } else {
      CopyDown(json, orig, out, into, i);
      longer := out + [s[i]];
      into, i := into + 1, i + 1;
    }
  }

  /** The text `s` in `json` is replaced by what is left of it; nothing behind the new terminator changes. */
  method MinifyInPlace(json: array<char>, ghost s: string)
    requires StartsAs(json[..], s) && MinifyFrom(s, 0).Some?
    modifies json
    ensures var m := MinifyFrom(s, 0).value;
            |m| <= |s| && json[..] == m + [NUL] + old(json[|m| + 1..])
  {
    hide Overwritten, StartsAs, Prefix, MinifyFrom, ScanString, CommentEnd;
    var into: nat, i: nat := 0, 0;
    ghost var orig, out := json[..], "";
    PrefixNothing(MinifyFrom(s, 0));
    NothingOverwritten(json);
    CharAt(json, orig, out, s, i);
    while json[i] != NUL
      invariant Overwritten(json, orig, out) && into == |out| <= i <= |s| < json.Length
      invariant if i < |s| then json[i] == s[i] != NUL else json[i] == NUL
      invariant MinifyFrom(s, i).Some? && MinifyFrom(s, 0) == Prefix(out, MinifyFrom(s, i))
      decreases |s| - i
    {
      into, i, out := MinifyOne(json, into, i, orig, out, s);
      CharAt(json, orig, out, s, i);
    }
    PrefixEnd(out, s);
    Terminate(json, orig, out, into);
  }

  method Terminate(json: array<char>, ghost orig: string, ghost out: string, into: nat)
    requires Overwritten(json, orig, out) && into == |out| < |orig|
    modifies json
    ensures json[..] == out + [NUL] + orig[|out| + 1..]
  {
    json[into] := NUL;
  }

  lemma NothingOverwritten(json: array<char>)
    ensures Overwritten(json, json[..], "")
  {
  }

  lemma PrefixEnd(a: string, s: string)
    ensures Prefix(a, MinifyFrom(s, |s|)) == Some(a)
  {
    assert a + "" == a;
  }

  /** What one turn comes to, by the character it is at. */
  lemma MinifyStep(s: string, i: nat, out: string)
    requires i < |s| && MinifyFrom(s, i).Some?
    ensures var m := Prefix(out, MinifyFrom(s, i));
            if IsBlank(s[i]) then m == Prefix(out, MinifyFrom(s, i + 1)) && MinifyFrom(s, i + 1).Some?
            else if s[i] == '/' && i + 1 < |s| && s[i + 1] == '/' then
              m == Prefix(out, MinifyFrom(s, LineEnd(s, i))) && MinifyFrom(s, LineEnd(s, i)).Some?
            else if s[i] == '/' && i + 1 < |s| && s[i + 1] == '*' then
              && CommentEnd(s, i).Some? && m == Prefix(out, MinifyFrom(s, CommentEnd(s, i).value))
              && MinifyFrom(s, CommentEnd(s, i).value).Some?
            else if s[i] == '"' then
              && ScanString(s, i + 1).Some?
              && (var e := ScanString(s, i + 1).value + 1;
                  m == Prefix(out + s[i..e], MinifyFrom(s, e)) && MinifyFrom(s, e).Some?)
            else m == Prefix(out + [s[i]], MinifyFrom(s, i + 1)) && MinifyFrom(s, i + 1).Some?
  {
    if s[i] == '"' {
      var e := ScanString(s, i + 1).value + 1;
      PrefixPrefix(out, s[i..e], MinifyFrom(s, e));
    } else {
      PrefixPrefix(out, [s[i]], MinifyFrom(s, i + 1));
    }
  }

  lemma PrefixPrefix(a: string, b: string, m: Option<string>)
    ensures Prefix(a, Prefix(b, m)) == Prefix(a + b, m)
  {
    if m.Some? {
      assert a + (b + m.value) == a + b + m.value;
    }
  }

  lemma PrefixNothing(m: Option<string>)
    ensures Prefix("", m) == m
  {
    if m.Some? {
      assert "" + m.value == m.value;
    }
  }

  // ---- Minifying a formatted rendering ----

  /** Wherever `a` stands in a text, outside literals and comments, `b` is what is left of it. */
  ghost predicate Minifies(a: string, b: string) {
    forall s: string, i: nat {:trigger StartsWith(s, i, a)} :: i + |a| <= |s| && StartsWith(s, i, a) ==>
                                 MinifyFrom(s, i) == Prefix(b, MinifyFrom(s, i + |a|))
  }

  lemma MinifiesConcat(a1: string, b1: string, a2: string, b2: string)
    requires Minifies(a1, b1) && Minifies(a2, b2)
    ensures Minifies(a1 + a2, b1 + b2)
  {
    hide MinifyFrom, StartsWith, Prefix;
    forall s: string, i: nat | i + |a1 + a2| <= |s| && StartsWith(s, i, a1 + a2)
      ensures MinifyFrom(s, i) == Prefix(b1 + b2, MinifyFrom(s, i + |a1 + a2|))
    {
      R.Split(s, i, a1, a2);
      PrefixPrefix(b1, b2, MinifyFrom(s, i + |a1| + |a2|));
    }
  }

  lemma MinifiesNothing()
    ensures Minifies("", "")
  {
    forall s: string, i: nat | i + |""| <= |s| && StartsWith(s, i, "")
      ensures MinifyFrom(s, i) == Prefix("", MinifyFrom(s, i + |""|))
    {
      PrefixNothing(MinifyFrom(s, i));
    }
  }

  /** Blanks vanish. */
  lemma {:induction false} BlanksMinify(a: string)
    requires forall k :: 0 <= k < |a| ==> IsBlank(a[k])
    ensures Minifies(a, "")
  {
    MinifiesNothing();
    if a != [] {
      BlanksMinify(a[1..]);
      assert a == [a[0]] + a[1..];
      forall s: string, i: nat | i + 1 <= |s| && StartsWith(s, i, [a[0]])
        ensures MinifyFrom(s, i) == Prefix("", MinifyFrom(s, i + 1))
      {
        R.CharsOf(s, i, [a[0]]);
        PrefixNothing(MinifyFrom(s, i + 1));
      }
      MinifiesConcat([a[0]], "", a[1..], "");
      assert "" + "" == "";
    }
  }

  predicate IsPlain(c: char) {
    !IsBlank(c) && c != '/' && c != '"'
  }

  /** Characters that are no blanks, slashes or quotes stay. */
  lemma {:induction false} PlainMinifies(a: string)
    requires forall k :: 0 <= k < |a| ==> IsPlain(a[k])
    ensures Minifies(a, a)
  {
    if a == [] {
      MinifiesNothing();
    } else {
      PlainMinifies(a[1..]);
      assert a == [a[0]] + a[1..];
      forall s: string, i: nat | i + 1 <= |s| && StartsWith(s, i, [a[0]])
        ensures MinifyFrom(s, i) == Prefix([a[0]], MinifyFrom(s, i + 1))
      {
        R.CharsOf(s, i, [a[0]]);
      }
      MinifiesConcat([a[0]], [a[0]], a[1..], a[1..]);
    }
  }

  /** A printed string literal stays as it is, whatever it contains. */
  lemma StringMinifies(text: string)
    ensures Minifies(RenderString(text), RenderString(text))
  {
    hide Escape, ScanString, StartsWith, Prefix;
    var e := Escape(text);
    forall s: string, i: nat | i + |RenderString(text)| <= |s| && StartsWith(s, i, RenderString(text))
      ensures MinifyFrom(s, i) == Prefix(RenderString(text), MinifyFrom(s, i + |RenderString(text)|))
    {
      assert RenderString(text) == "\"" + (e + "\"");
      R.Split(s, i, "\"", e + "\"");
      R.StartChar(s, i, "\"");
      R.Split(s, i + 1, e, "\"");
      R.ScanEscaped(s, i + 1, text);
      SliceOf(s, i, RenderString(text));
    }
  }

  lemma SliceOf(s: string, i: nat, a: string)
    requires StartsWith(s, i, a)
    ensures i + |a| <= |s| && s[i..i + |a|] == a
  {
  }

  lemma {:induction false} RenderMinifies(v: Json, depth: nat)
    requires Printable(v)
    ensures Minifies(Render(v, true, depth), Render(v, false, depth))
    decreases v, 1
  {
    hide Minifies, Escape, RenderInt;
    match v
    case Null =>
      PlainMinifies("null");
    case Bool(b) =>
      PlainMinifies("true");
      PlainMinifies("false");
    case Number(r) =>
      R.RenderIntShape(r.Floor);
      PlainMinifies(RenderInt(r.Floor));
    case String(s) =>
      StringMinifies(s);
    case Array(items) =>
      RenderItemsMinify(items, depth + 1);
      ArrayMinifies(RenderItems(items, true, depth + 1), RenderItems(items, false, depth + 1));
    case Object(ms) =>
      RenderMembersMinify(ms, depth + 1);
      ObjectMinifies(RenderMembers(ms, true, depth + 1), RenderMembers(ms, false, depth + 1), depth);
  }

  lemma ArrayMinifies(a: string, b: string)
    requires Minifies(a, b)
    ensures Minifies("[" + a + "]", "[" + b + "]")
  {
    hide Minifies;
    PlainMinifies("[");
    PlainMinifies("]");
    MinifiesConcat("[", "[", a, b);
    MinifiesConcat("[" + a, "[" + b, "]", "]");
  }

  lemma ObjectMinifies(a: string, b: string, depth: nat)
    requires Minifies(a, b)
    ensures Minifies("{\n" + a + Indent(true, depth) + "}", "{" + b + Indent(false, depth) + "}")
  {
    hide Minifies;
    PlainMinifies("{");
    BlanksMinify("\n");
    MinifiesConcat("{", "{", "\n", "");
    assert "{" + "\n" == "{\n" && "{" + "" == "{";
    MinifiesConcat("{\n", "{", a, b);
    BlanksMinify(Indent(true, depth));
    MinifiesConcat("{\n" + a, "{" + b, Indent(true, depth), Indent(false, depth));
    PlainMinifies("}");
    MinifiesConcat("{\n" + a + Indent(true, depth), "{" + b + Indent(false, depth), "}", "}");
  }

  lemma {:induction false} RenderItemsMinify(items: seq<Json>, depth: nat)
    requires PrintableItems(items)
    ensures Minifies(RenderItems(items, true, depth), RenderItems(items, false, depth))
    decreases items, 0
  {
    hide Minifies, Render;
    if items == [] {
      MinifiesNothing();
    } else {
      RenderMinifies(items[0], depth);
      if |items| > 1 {
        RenderItemsMinify(items[1..], depth);
        PlainMinifies(",");
        BlanksMinify(" ");
        MinifiesConcat(",", ",", " ", "");
        assert "," + " " == ", " && "," + "" == ",";
        var a, b := Render(items[0], true, depth), Render(items[0], false, depth);
        MinifiesConcat(a, b, ", ", ",");
        MinifiesConcat(a + ", ", b + ",", RenderItems(items[1..], true, depth), RenderItems(items[1..], false, depth));
      }
    }
  }

  lemma {:induction false} RenderMembersMinify(ms: seq<Member>, depth: nat)
    requires PrintableMembers(ms)
    ensures Minifies(RenderMembers(ms, true, depth), RenderMembers(ms, false, depth))
    decreases ms, 0
  {
    hide Minifies, RenderMembers, Render, PrintableMember;
    if ms == [] {
      MinifiesNothing();
      R.NoMembers(true, depth, "");
      R.NoMembers(false, depth, "");
    } else {
      R.MembersShape(ms, true, depth, "");
      R.MembersShape(ms, false, depth, "");
      RenderMembersMinify(ms[1..], depth);
      MemberMinifies(ms[0], depth);
      MembersConcat(R.MemberBody(ms[0], true, depth), R.MemberBody(ms[0], false, depth), |ms| == 1, depth,
                    RenderMembers(ms[1..], true, depth), RenderMembers(ms[1..], false, depth));
      assert RenderMembers(ms, true, depth) + "" == RenderMembers(ms, true, depth);
      assert RenderMembers(ms, false, depth) + "" == RenderMembers(ms, false, depth);
    }
  }

  lemma MembersConcat(a: string, b: string, last: bool, depth: nat, ra: string, rb: string)
    requires Minifies(a, b) && Minifies(ra, rb)
    ensures Minifies(Indent(true, depth) + (a + (MemberEnd(last, true) + (ra + ""))),
                     Indent(false, depth) + (b + (MemberEnd(last, false) + (rb + ""))))
  {
    hide Minifies;
    assert ra + "" == ra && rb + "" == rb;
    EndMinifies(last);
    MinifiesConcat(MemberEnd(last, true), MemberEnd(last, false), ra, rb);
    MinifiesConcat(a, b, MemberEnd(last, true) + ra, MemberEnd(last, false) + rb);
    BlanksMinify(Indent(true, depth));
    MinifiesConcat(Indent(true, depth), Indent(false, depth),
                   a + (MemberEnd(last, true) + ra), b + (MemberEnd(last, false) + rb));
  }

  lemma EndMinifies(last: bool)
    ensures Minifies(MemberEnd(last, true), MemberEnd(last, false))
  {
    hide Minifies;
    PlainMinifies(if last then "" else ",");
    BlanksMinify("\n");
    MinifiesConcat(if last then "" else ",", if last then "" else ",", "\n", "");
  }

  lemma {:induction false} MemberMinifies(m: Member, depth: nat)
    requires PrintableMember(m)
    ensures Minifies(R.MemberBody(m, true, depth), R.MemberBody(m, false, depth))
    decreases m, 2
  {
    hide Minifies, Render, RenderString;
    StringMinifies(m.key);
    PlainMinifies(":");
    BlanksMinify("\t");
    MinifiesConcat(":", ":", "\t", "");
    assert ":" + "\t" == ":\t" && ":" + "" == ":";
    RenderMinifies(m.value, depth);
    MinifiesConcat(":\t", ":", Render(m.value, true, depth), Render(m.value, false, depth));
    MinifiesConcat(RenderString(m.key), RenderString(m.key),
                   ":\t" + Render(m.value, true, depth), ":" + Render(m.value, false, depth));
  }

  /** Minifying the formatted text of a value gives its unformatted text, byte for byte. */
  lemma MinifyFormatted(v: Json)
    requires Printable(v)
    ensures MinifyFrom(Render(v, true, 0), 0) == Some(Render(v, false, 0))
  {
    hide Render, MinifyFrom, Printable;
    var t := Render(v, true, 0);
    RenderMinifies(v, 0);
    assert StartsWith(t, 0, t);
    PrefixEnd(Render(v, false, 0), t);
  }
}
