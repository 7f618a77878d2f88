/** Minifying twice: when the second pass changes nothing. */
module MinifyTwice {
  import opened JsonText
  import opened Minify
  import opened Wrappers

  /** From `i` on, minifying puts a slash directly before another slash or a star that stood apart from it, with only
      blanks and comments in between; `after` says that such a slash is what was kept last. */
  predicate JoinsSlash(s: string, i: nat, after: bool)
    requires i <= |s|
    decreases |s| - i
  {
    if i == |s| then false
    else if IsBlank(s[i]) then JoinsSlash(s, i + 1, after)
    else if s[i] == '/' && i + 1 < |s| && s[i + 1] == '/' then JoinsSlash(s, LineEnd(s, i), after)
    else if s[i] == '/' && i + 1 < |s| && s[i + 1] == '*' then
      var e := CommentEnd(s, i);
      e.Some? && JoinsSlash(s, e.value, after)
    else if s[i] == '"' then
      var e := ScanString(s, i + 1);
      e.Some? && JoinsSlash(s, e.value + 1, false)
    else (after && (s[i] == '/' || s[i] == '*')) || JoinsSlash(s, i + 1, s[i] == '/')
  }

  // ---- A text behind some others ----

  lemma {:induction false} LineEndShift(a: string, t: string, i: nat)
    requires i <= |t|
    ensures LineEnd(a + t, |a| + i) == |a| + LineEnd(t, i)
    decreases |t| - i
  {
    if i < |t| && t[i] != '\n' { LineEndShift(a, t, i + 1); }
  }

  lemma {:induction false} CommentEndShift(a: string, t: string, i: nat)
    requires i <= |t|
    ensures CommentEnd(a + t, |a| + i) ==
              match CommentEnd(t, i) case None => None case Some(e) => Some(|a| + e)
    decreases |t| - i
  {
    if i + 1 < |t| && !(t[i] == '*' && t[i + 1] == '/') { CommentEndShift(a, t, i + 1); }
  }

  lemma {:induction false} ScanStringShift(a: string, t: string, i: nat)
    requires i <= |t|
    ensures ScanString(a + t, |a| + i) ==
              match ScanString(t, i) case None => None case Some(e) => Some(|a| + e)
    decreases |t| - i
  {
    if i < |t| && t[i] != '"' {
      if t[i] == '\\' {
        if i + 2 <= |t| { ScanStringShift(a, t, i + 2); }
      } else {
        ScanStringShift(a, t, i + 1);
      }
    }
  }

  lemma {:induction false} MinifyShift(a: string, t: string, i: nat)
    requires i <= |t|
    ensures MinifyFrom(a + t, |a| + i) == MinifyFrom(t, i)
    decreases |t| - i
  {
    hide LineEnd, CommentEnd, ScanString;
    if i < |t| {
      LineEndShift(a, t, i);
      CommentEndShift(a, t, i);
      ScanStringShift(a, t, i + 1);
      if IsBlank(t[i]) {
        MinifyShift(a, t, i + 1);
      } else if t[i] == '/' && i + 1 < |t| && t[i + 1] == '/' {
        MinifyShift(a, t, LineEnd(t, i));
      } else if t[i] == '/' && i + 1 < |t| && t[i + 1] == '*' {
        if CommentEnd(t, i).Some? { MinifyShift(a, t, CommentEnd(t, i).value); }
      } else if t[i] == '"' {
        if ScanString(t, i + 1).Some? {
          var e := ScanString(t, i + 1).value + 1;
          MinifyShift(a, t, e);
          assert (a + t)[|a| + i..|a| + e] == t[i..e];
        }
      } else {
        MinifyShift(a, t, i + 1);
      }
    }
  }

  lemma {:induction false} MinifyShrinks(t: string, i: nat)
    requires i <= |t|
    ensures MinifyFrom(t, i).Some? ==> |MinifyFrom(t, i).value| <= |t| - i
    decreases |t| - i
  {
    hide LineEnd, CommentEnd, ScanString;
    if i < |t| {
      if IsBlank(t[i]) {
        MinifyShrinks(t, i + 1);
      } else if t[i] == '/' && i + 1 < |t| && t[i + 1] == '/' {
        MinifyShrinks(t, LineEnd(t, i));
      } else if t[i] == '/' && i + 1 < |t| && t[i + 1] == '*' {
        if CommentEnd(t, i).Some? { MinifyShrinks(t, CommentEnd(t, i).value); }
      } else if t[i] == '"' {
        if ScanString(t, i + 1).Some? { MinifyShrinks(t, ScanString(t, i + 1).value + 1); }
      } else {
        MinifyShrinks(t, i + 1);
      }
    }
  }

  // ---- Texts that minifying leaves alone ----

  predicate Stable(t: string) {
    MinifyFrom(t, 0) == Some(t)
  }

  predicate JoinsComment(c: char, t: string) {
    c == '/' && t != "" && (t[0] == '/' || t[0] == '*')
  }

  lemma KeepsChar(c: char, t: string)
    requires !IsBlank(c) && c != '"' && !JoinsComment(c, t)
    ensures Stable([c] + t) <==> Stable(t)
  {
    var u := [c] + t;
    MinifyShift([c], t, 0);
    assert |t| > 0 ==> u[1] == t[0];
    assert MinifyFrom(u, 0) == Prefix([c], MinifyFrom(t, 0));
    PrefixCancels([c], t, MinifyFrom(t, 0));
  }

  lemma PrefixCancels(a: string, t: string, m: Option<string>)
    ensures Prefix(a, m) == Some(a + t) <==> m == Some(t)
  {
    if m.Some? && a + m.value == a + t {
      assert m.value == (a + m.value)[|a|..] && t == (a + t)[|a|..];
    }
  }

  lemma JoinedChanges(t: string)
    requires |t| >= 2 && t[0] == '/' && (t[1] == '/' || t[1] == '*')
    ensures !Stable(t)
  {
    hide LineEnd, CommentEnd;
    if t[1] == '/' {
      MinifyShrinks(t, LineEnd(t, 0));
    } else if CommentEnd(t, 0).Some? {
      MinifyShrinks(t, CommentEnd(t, 0).value);
    }
  }

  /** Where a string literal ends does not depend on what follows it. */
  lemma {:induction false} ScanPrefix(a: string, t: string, i: nat)
    requires i <= |a|
    ensures ScanString(a, i).Some? ==> ScanString(a + t, i) == ScanString(a, i)
    ensures ScanString(a + t, i).Some? && ScanString(a + t, i).value < |a| ==> ScanString(a + t, i) == ScanString(a, i)
    decreases |a| - i
  {
    if i < |a| && a[i] != '"' {
      if a[i] == '\\' {
        if i + 2 <= |a| { ScanPrefix(a, t, i + 2); }
      } else {
        ScanPrefix(a, t, i + 1);
      }
    }
  }

  /** The literal alone is scanned as it was in the text. */
  lemma LiteralAlone(s: string, i: nat)
    requires i < |s| && s[i] == '"' && ScanString(s, i + 1).Some?
    ensures var literal := s[i..ScanString(s, i + 1).value + 1];
            |literal| > 1 && literal[0] == '"' && ScanString(literal, 1) == Some(|literal| - 1)
  {
    hide ScanString;
    var e := ScanString(s, i + 1).value;
    var literal, upTo := s[i..e + 1], s[..e + 1];
    assert s == upTo + s[e + 1..];
    ScanPrefix(upTo, s[e + 1..], i + 1);
    assert upTo == s[..i] + literal;
    ScanStringShift(s[..i], literal, 1);
  }

  lemma KeepsLiteral(literal: string, t: string)
    requires |literal| > 1 && literal[0] == '"' && ScanString(literal, 1) == Some(|literal| - 1)
    ensures Stable(literal + t) <==> Stable(t)
  {
    hide ScanString;
    var u := literal + t;
    ScanPrefix(literal, t, 1);
    MinifyShift(literal, t, 0);
    assert u[0..|literal|] == literal && u[0] == '"';
    assert MinifyFrom(u, 0) == Prefix(literal, MinifyFrom(t, 0));
    hide MinifyFrom;
    PrefixCancels(literal, t, MinifyFrom(t, 0));
  }

  function Slash(after: bool): string {
    if after then "/" else ""
  }

  lemma SlashBefore(after: bool, t: string)
    requires after ==> !JoinsComment('/', t)
    ensures Stable(Slash(after) + t) <==> Stable(t)
  {
    if after {
      KeepsChar('/', t);
    } else {
      assert "" + t == t;
    }
  }

  lemma {:induction false} TwiceFrom(s: string, i: nat, after: bool)
    requires i <= |s| && MinifyFrom(s, i).Some?
    ensures Stable(Slash(after) + MinifyFrom(s, i).value) <==> !JoinsSlash(s, i, after)
    decreases |s| - i
  {
    hide LineEnd, CommentEnd, ScanString, Stable;
    var m := MinifyFrom(s, i).value;
    if i == |s| {
      SlashBefore(after, m);
      assert Stable("") by { NothingIsStable(); }
    } else if IsBlank(s[i]) {
      TwiceFrom(s, i + 1, after);
    } else if s[i] == '/' && i + 1 < |s| && s[i + 1] == '/' {
      TwiceFrom(s, LineEnd(s, i), after);
    } else if s[i] == '/' && i + 1 < |s| && s[i + 1] == '*' {
      TwiceFrom(s, CommentEnd(s, i).value, after);
    } else if s[i] == '"' {
      var e := ScanString(s, i + 1).value + 1;
      var rest := MinifyFrom(s, e).value;
      TwiceFrom(s, e, false);
      assert "" + rest == rest;
      LiteralAlone(s, i);
      KeepsLiteral(s[i..e], rest);
      SlashBefore(after, m);
    } else {
      var rest := MinifyFrom(s, i + 1).value;
      assert m == [s[i]] + rest;
      if after && (s[i] == '/' || s[i] == '*') {
        JoinedChanges("/" + m);
      } else {
        SlashBefore(after, m);
        TwiceFrom(s, i + 1, s[i] == '/');
        if s[i] == '/' {
          assert [s[i]] == Slash(true);
        } else {
          assert Slash(false) + rest == rest;
          KeepsChar(s[i], rest);
        }
      }
    }
  }

  lemma NothingIsStable()
    ensures Stable("")
  {
  }

  /** A second pass changes nothing if and only if the first one has brought no slash next to another slash or a star
      from which only blanks and comments kept it apart. */
  lemma MinifyTwiceExact(s: string)
    requires MinifyFrom(s, 0).Some?
    ensures MinifyFrom(MinifyFrom(s, 0).value, 0) == MinifyFrom(s, 0) <==> !JoinsSlash(s, 0, false)
  {
    TwiceFrom(s, 0, false);
    assert Slash(false) + MinifyFrom(s, 0).value == MinifyFrom(s, 0).value;
  }

  /** Two slashes with a blank between them become a comment, which a second pass drops. */
  lemma SlashesApart()
    ensures MinifyFrom("/ /", 0) == Some("//") && MinifyFrom("//", 0) == Some("") && JoinsSlash("/ /", 0, false)
  {
    var s := "/ /";
    assert MinifyFrom(s, 3) == Some("");
    assert MinifyFrom(s, 2) == Prefix([s[2]], MinifyFrom(s, 3));
    assert MinifyFrom(s, 1) == MinifyFrom(s, 2) == Some("/" + "");
    assert MinifyFrom(s, 0) == Prefix([s[0]], MinifyFrom(s, 1)) == Some("/" + ("/" + ""));
    assert "/" + ("/" + "") == "//";
    assert LineEnd("//", 0) == LineEnd("//", 1) == LineEnd("//", 2) == 2;
    assert JoinsSlash(s, 2, true) && JoinsSlash(s, 1, true);
  }
}
