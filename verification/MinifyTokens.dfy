/** What minifying keeps and what it drops, told by the pieces a text is made of. */
module MinifyTokens {
  import opened JsonText
  import opened Minify
  import R = JsonRoundTrip
  import opened Wrappers

  /** A blank, a comment up to its line end, a comment at the end of the text, a comment between its marks, the comment
      whose two marks share a star, a string literal, or any other character. */
  datatype Token = Space(c: char) | Line(body: string) | LastLine(body: string) | Block(body: string) | ShortBlock
                 | Quoted(body: string) | Other(c: char)

  function Text(t: Token): string {
    match t
    case Space(c) => [c]
    case Line(body) => "//" + (body + "\n")
    case LastLine(body) => "//" + body
    case Block(body) => "/*" + (body + "*/")
    case ShortBlock => "/*/"
    case Quoted(body) => "\"" + (body + "\"")
    case Other(c) => [c]
  }

  function Kept(t: Token): string {
    match t
    case Quoted(_) => Text(t)
    case Other(c) => [c]
    case _ => ""
  }

  /** No unescaped quote, and no backslash without a character behind it. */
  predicate LiteralBody(s: string) {
    if s == "" then true
    else if s[0] == '\\' then |s| > 1 && LiteralBody(s[2..])
    else s[0] != '"' && LiteralBody(s[1..])
  }

  /** No star directly before a slash; the opening star counts. */
  predicate BlockBody(s: string) {
    && (s != "" ==> s[0] != '/')
    && forall k :: 0 <= k < |s| - 1 ==> !(s[k] == '*' && s[k + 1] == '/')
  }

  /** `rest` is the text behind the token. */
  predicate Proper(t: Token, rest: string) {
    match t
    case Space(c) => c in " \t\r\n"
    case Line(body) => '\n' !in body
    case LastLine(body) => '\n' !in body && rest == ""
    case Block(body) => BlockBody(body)
    case ShortBlock => true
    case Quoted(body) => LiteralBody(body)
    case Other(c) => c !in " \t\r\n\"" && (c == '/' && rest != "" ==> rest[0] != '/' && rest[0] != '*')
  }

  function Texts(ts: seq<Token>): string {
    if ts == [] then "" else Text(ts[0]) + Texts(ts[1..])
  }

  function AllKept(ts: seq<Token>): string {
    if ts == [] then "" else Kept(ts[0]) + AllKept(ts[1..])
  }

  predicate AllProper(ts: seq<Token>) {
    ts == [] || (Proper(ts[0], Texts(ts[1..])) && AllProper(ts[1..]))
  }

  // ---- Where comments and literals end ----

  lemma {:induction false} LineEndsAt(s: string, i: nat, e: nat)
    requires i <= e <= |s| && (forall k :: i <= k < e ==> s[k] != '\n') && (e < |s| ==> s[e] == '\n')
    ensures LineEnd(s, i) == e
    decreases e - i
  {
    if i < e { LineEndsAt(s, i + 1, e); }
  }

  lemma {:induction false} CommentEndsAt(s: string, i: nat, e: nat)
    requires i <= e && e + 1 < |s| && s[e] == '*' && s[e + 1] == '/'
    requires forall k :: i <= k < e ==> !(s[k] == '*' && s[k + 1] == '/')
    ensures CommentEnd(s, i) == Some(e + 2)
    decreases e - i
  {
    if i < e { CommentEndsAt(s, i + 1, e); }
  }

  lemma {:induction false} LiteralEndsAt(body: string, s: string, i: nat)
    requires LiteralBody(body) && StartsWith(s, i, body) && i + |body| < |s| && s[i + |body|] == '"'
    ensures ScanString(s, i) == Some(i + |body|)
    decreases |body|
  {
    R.CharsOf(s, i, body);
    if body != "" {
      var n := if body[0] == '\\' then 2 else 1;
      assert body == body[..n] + body[n..];
      R.Split(s, i, body[..n], body[n..]);
      LiteralEndsAt(body[n..], s, i + n);
    }
  }

  // ---- Token by token ----

  /** One turn, by the character at `i`. */
  lemma Turn(s: string, i: nat)
    requires i < |s|
    ensures s[i] in " \t\r\n" ==> MinifyFrom(s, i) == MinifyFrom(s, i + 1)
    ensures s[i] == '/' && i + 1 < |s| && s[i + 1] == '/' ==> MinifyFrom(s, i) == MinifyFrom(s, LineEnd(s, i))
    ensures s[i] == '/' && i + 1 < |s| && s[i + 1] == '*' ==>
              MinifyFrom(s, i) == match CommentEnd(s, i) case None => None case Some(e) => MinifyFrom(s, e)
    ensures s[i] == '"' ==>
              MinifyFrom(s, i) == match ScanString(s, i + 1)
                                  case None => None
                                  case Some(e) => Prefix(s[i..e + 1], MinifyFrom(s, e + 1))
    ensures s[i] !in " \t\r\n\"" && !(s[i] == '/' && i + 1 < |s| && (s[i + 1] == '/' || s[i + 1] == '*')) ==>
              MinifyFrom(s, i) == Prefix([s[i]], MinifyFrom(s, i + 1))
  {
    hide LineEnd, CommentEnd, ScanString, Prefix;
  }

  lemma LineMinifies(body: string, s: string, i: nat, ended: bool)
    requires '\n' !in body && StartsWith(s, i, "//" + body)
    requires var e := i + 2 + |body|; if ended then e < |s| && s[e] == '\n' else e == |s|
    ensures var e := i + 2 + |body|; MinifyFrom(s, i) == MinifyFrom(s, if ended then e + 1 else e)
  {
    hide MinifyFrom, StartsWith, LineEnd;
    var e := i + 2 + |body|;
    R.Split(s, i, "//", body);
    R.CharsOf(s, i, "//");
    R.CharsOf(s, i + 2, body);
    LineEndsAt(s, i, e);
    Turn(s, i);
    if ended { Turn(s, e); }
  }

  lemma BlockMinifies(body: string, s: string, i: nat)
    requires BlockBody(body) && StartsWith(s, i, "/*" + (body + "*/"))
    ensures i + |body| + 4 <= |s| && MinifyFrom(s, i) == MinifyFrom(s, i + |body| + 4)
  {
    hide MinifyFrom, StartsWith, CommentEnd;
    R.Split(s, i, "/*", body + "*/");
    R.CharsOf(s, i, "/*");
    R.Split(s, i + 2, body, "*/");
    R.CharsOf(s, i + 2, body);
    R.CharsOf(s, i + 2 + |body|, "*/");
    var e := i + 2 + |body|;
    forall k | i <= k < e ensures !(s[k] == '*' && s[k + 1] == '/') {
      if k >= i + 2 && k + 1 < e { assert s[k] == body[k - i - 2] && s[k + 1] == body[k + 1 - i - 2]; }
    }
    CommentEndsAt(s, i, e);
    Turn(s, i);
  }

  lemma ShortMinifies(s: string, i: nat)
    requires StartsWith(s, i, "/*/")
    ensures i + 3 <= |s| && MinifyFrom(s, i) == MinifyFrom(s, i + 3)
  {
    hide MinifyFrom;
    R.CharsOf(s, i, "/*/");
    CommentEndsAt(s, i, i + 1);
    Turn(s, i);
  }

  lemma QuotedMinifies(body: string, s: string, i: nat)
    requires LiteralBody(body) && StartsWith(s, i, "\"" + (body + "\""))
    ensures var e := i + |body| + 2; e <= |s| && MinifyFrom(s, i) == Prefix("\"" + (body + "\""), MinifyFrom(s, e))
  {
    hide MinifyFrom, StartsWith, ScanString, LiteralBody;
    R.Split(s, i, "\"", body + "\"");
    R.StartChar(s, i, "\"");
    R.Split(s, i + 1, body, "\"");
    R.StartChar(s, i + 1 + |body|, "\"");
    LiteralEndsAt(body, s, i + 1);
    SliceOf(s, i, "\"" + (body + "\""));
    Turn(s, i);
  }

  /** At a token, minifying keeps what is to be kept and goes on behind it; `rest` is all that follows. */
  lemma TokenMinifies(t: Token, rest: string, s: string, i: nat)
    requires Proper(t, rest) && StartsWith(s, i, Text(t) + rest) && i + |Text(t)| + |rest| == |s|
    ensures MinifyFrom(s, i) == Prefix(Kept(t), MinifyFrom(s, i + |Text(t)|))
  {
    hide MinifyFrom, StartsWith, LiteralBody, BlockBody;
    var e := i + |Text(t)|;
    R.Split(s, i, Text(t), rest);
    PrefixNothing(MinifyFrom(s, e));
    R.StartChar(s, i, Text(t));
    match t
    case Space(_) => Turn(s, i);
    case Line(body) =>
      assert Text(t) == ("//" + body) + "\n";
      R.Split(s, i, "//" + body, "\n");
      R.StartChar(s, e - 1, "\n");
      LineMinifies(body, s, i, true);
    case LastLine(body) => LineMinifies(body, s, i, false);
    case Block(body) => BlockMinifies(body, s, i);
    case ShortBlock => ShortMinifies(s, i);
    case Quoted(body) => QuotedMinifies(body, s, i);
    case Other(c) =>
      if rest != "" { R.StartChar(s, e, rest); }
      Turn(s, i);
  }

  /** What is left of a text made of such pieces are the kept ones, in order. */
  lemma {:induction false} TokensMinify(ts: seq<Token>, s: string, i: nat)
    requires AllProper(ts) && StartsWith(s, i, Texts(ts)) && i + |Texts(ts)| == |s|
    ensures MinifyFrom(s, i) == Some(AllKept(ts))
    decreases |ts|
  {
    hide Proper, Text, Kept, StartsWith, MinifyFrom;
    if ts == [] {
      MinifyEnd(s);
    } else {
      TokenMinifies(ts[0], Texts(ts[1..]), s, i);
      R.Split(s, i, Text(ts[0]), Texts(ts[1..]));
      TokensMinify(ts[1..], s, i + |Text(ts[0])|);
    }
  }

  lemma MinifyEnd(s: string)
    ensures MinifyFrom(s, |s|) == Some("")
  {
  }

  // ---- Every text that can be minified is made of such pieces ----

  lemma {:induction false} LiteralBodyOf(s: string, i: nat)
    requires i <= |s| && ScanString(s, i).Some?
    ensures LiteralBody(s[i..ScanString(s, i).value])
    decreases |s| - i
  {
    var e := ScanString(s, i).value;
    if s[i] != '"' {
      var n := if s[i] == '\\' then 2 else 1;
      LiteralBodyOf(s, i + n);
      assert s[i..e][n..] == s[i + n..e];
    } else {
      assert s[i..e] == "";
    }
  }

  lemma {:induction false} CommentEndOf(s: string, i: nat)
    requires i <= |s| && CommentEnd(s, i).Some?
    ensures var e := CommentEnd(s, i).value - 2;
            i <= e && s[e] == '*' && s[e + 1] == '/' && forall k :: i <= k < e ==> !(s[k] == '*' && s[k + 1] == '/')
    decreases |s| - i
  {
    if !(s[i] == '*' && s[i + 1] == '/') { CommentEndOf(s, i + 1); }
  }

  lemma {:induction false} LineEndOf(s: string, i: nat)
    requires i <= |s|
    ensures forall k :: i <= k < LineEnd(s, i) ==> s[k] != '\n'
    ensures LineEnd(s, i) < |s| ==> s[LineEnd(s, i)] == '\n'
    decreases |s| - i
  {
    if i < |s| && s[i] != '\n' { LineEndOf(s, i + 1); }
  }

  /** The piece `t` stands at `i`, and the rest can be minified, too. */
  predicate StandsAt(t: Token, s: string, i: nat) {
    var e := i + |Text(t)|;
    i < e <= |s| && Text(t) == s[i..e] && Proper(t, s[e..]) && MinifyFrom(s, e).Some?
  }

  /** The piece that starts at `i`. */
  lemma TokenAt(s: string, i: nat) returns (t: Token)
    requires i < |s| && MinifyFrom(s, i).Some?
    ensures StandsAt(t, s, i)
  {
    hide MinifyFrom, LiteralBody, BlockBody;
    Turn(s, i);
    if s[i] in " \t\r\n" {
      t := Space(s[i]);
    } else if s[i] == '/' && i + 1 < |s| && s[i + 1] == '/' {
      t := LineAt(s, i);
    } else if s[i] == '/' && i + 1 < |s| && s[i + 1] == '*' {
      t := BlockAt(s, i);
    } else if s[i] == '"' {
      t := QuotedAt(s, i);
    } else {
      t := Other(s[i]);
      assert s[i + 1..] != "" ==> s[i + 1..][0] == s[i + 1];
    }
  }

  lemma QuotedAt(s: string, i: nat) returns (t: Token)
    requires i < |s| && s[i] == '"' && MinifyFrom(s, i).Some?
    ensures StandsAt(t, s, i)
  {
    hide MinifyFrom, LiteralBody, ScanString, Prefix, Proper, Text;
    Turn(s, i);
    var e := ScanString(s, i + 1).value;
    var body := s[i + 1..e];
    LiteralBodyOf(s, i + 1);
    QuotedSlice(s, i, e);
    IsQuoted(body);
    t := Quoted(body);
    PrefixSome(s[i..e + 1], MinifyFrom(s, e + 1));
    assert Proper(t, s[e + 1..]);
  }

  lemma IsQuoted(body: string)
    requires LiteralBody(body)
    ensures Text(Quoted(body)) == "\"" + (body + "\"") && forall rest :: Proper(Quoted(body), rest)
  {
    hide LiteralBody;
  }

  lemma QuotedSlice(s: string, i: nat, e: nat)
    requires i < e < |s| && s[i] == '"' && s[e] == '"'
    ensures "\"" + (s[i + 1..e] + "\"") == s[i..e + 1]
  {
  }

  lemma PrefixSome(a: string, b: Option<string>)
    ensures Prefix(a, b).Some? <==> b.Some?
  {
  }

  lemma LineSlice(s: string, i: nat, e: nat)
    requires i + 2 <= e <= |s| && s[i] == '/' && s[i + 1] == '/'
    ensures "//" + s[i + 2..e] == s[i..e]
    ensures e < |s| && s[e] == '\n' ==> "//" + (s[i + 2..e] + "\n") == s[i..e + 1]
  {
  }

  lemma LineBody(s: string, i: nat) returns (e: nat)
    requires i + 1 < |s| && s[i] == '/' && s[i + 1] == '/'
    ensures e == LineEnd(s, i) && i + 2 <= e <= |s| && '\n' !in s[i + 2..e] && (e < |s| ==> s[e] == '\n')
  {
    e := LineEnd(s, i);
    assert e == LineEnd(s, i + 1) == LineEnd(s, i + 2);
    hide LineEnd;
    LineEndOf(s, i);
  }

  lemma LineAt(s: string, i: nat) returns (t: Token)
    requires i + 1 < |s| && s[i] == '/' && s[i + 1] == '/' && MinifyFrom(s, i).Some?
    ensures StandsAt(t, s, i)
  {
    hide MinifyFrom, LineEnd, Proper, Text;
    Turn(s, i);
    var e := LineBody(s, i);
    var body := s[i + 2..e];
    LineSlice(s, i, e);
    IsLine(body);
    if e < |s| {
      Turn(s, e);
      t := Line(body);
      assert Proper(t, s[e + 1..]);
    } else {
      t := LastLine(body);
      assert s[e..] == "";
    }
  }

  lemma IsLine(body: string)
    requires '\n' !in body
    ensures Text(Line(body)) == "//" + (body + "\n") && Text(LastLine(body)) == "//" + body && Proper(LastLine(body), "")
    ensures forall rest :: Proper(Line(body), rest)
  {
  }

  lemma BlockAt(s: string, i: nat) returns (t: Token)
    requires i + 1 < |s| && s[i] == '/' && s[i + 1] == '*' && MinifyFrom(s, i).Some?
    ensures StandsAt(t, s, i)
  {
    hide MinifyFrom, CommentEnd;
    Turn(s, i);
    CommentEndOf(s, i);
    var e := CommentEnd(s, i).value - 2;
    if e == i + 1 {
      t := ShortBlock;
      assert Text(t) == s[i..e + 2];
    } else {
      var body := s[i + 2..e];
      t := Block(body);
      assert Text(t) == s[i..e + 2];
    }
  }

  /** The pieces of a text from `i` on. */
  lemma {:induction false} TokensOf(s: string, i: nat) returns (ts: seq<Token>)
    requires i <= |s| && MinifyFrom(s, i).Some?
    ensures AllProper(ts) && Texts(ts) == s[i..]
    decreases |s| - i
  {
    hide MinifyFrom, Proper, Text;
    if i == |s| {
      ts := [];
    } else {
      var t := TokenAt(s, i);
      var e := i + |Text(t)|;
      var rest := TokensOf(s, e);
      ts := [t] + rest;
      TokensCons(t, rest);
      assert s[i..] == s[i..e] + s[e..];
    }
  }

  lemma TokensCons(t: Token, rest: seq<Token>)
    requires AllProper(rest) && Proper(t, Texts(rest))
    ensures AllProper([t] + rest) && Texts([t] + rest) == Text(t) + Texts(rest)
  {
    hide Proper, Text;
    assert ([t] + rest)[1..] == rest;
  }

  /** A text can be minified if and only if it is made of such pieces, every comment and every literal closed; and what
      is left are the literals and the other characters, whatever way it is cut into pieces. */
  lemma MinifyExact(s: string, m: string)
    ensures MinifyFrom(s, 0) == Some(m) <==> exists ts :: AllProper(ts) && Texts(ts) == s && AllKept(ts) == m
  {
    hide MinifyFrom, AllProper, Texts, AllKept;
    if MinifyFrom(s, 0) == Some(m) {
      var ts := TokensOf(s, 0);
      assert s[0..] == s;
      assert StartsWith(s, 0, Texts(ts));
      TokensMinify(ts, s, 0);
    }
    if ts :| AllProper(ts) && Texts(ts) == s && AllKept(ts) == m {
      assert StartsWith(s, 0, Texts(ts));
      TokensMinify(ts, s, 0);
    }
  }
}
