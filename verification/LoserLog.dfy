/** The record file of the version log: what `commit` appends, and how `status`, `commit` and `log` find their way back
    into it. */
module LoserLog {
  import opened Wrappers
  import opened Decimal
  import opened Loser

  // ---- The text of a history ----

  /** One commit: what it reported, and the name and digest of every file at that time. */
  datatype Entry = Entry(changes: Changes, files: seq<File>)

  function Lines(lines: seq<string>): string {
    if lines == [] then "" else lines[0] + "\n" + Lines(lines[1..])
  }

  function CopyLines(copied: seq<Copy>): (lines: seq<string>)
    ensures |lines| == |copied|
    ensures forall i :: 0 <= i < |lines| ==> lines[i] == copied[i].source + " => " + copied[i].target
  {
    if copied == [] then [] else [copied[0].source + " => " + copied[0].target] + CopyLines(copied[1..])
  }

  function FileLines(files: seq<File>): (lines: seq<string>)
    ensures |lines| == |files|
    ensures forall i :: 0 <= i < |lines| ==> lines[i] == files[i].name + " " + files[i].digest
  {
    if files == [] then [] else [files[0].name + " " + files[0].digest] + FileLines(files[1..])
  }

  function Headings(c: Changes): seq<string> {
    ["[new_file]"] + c.added + ["[modified]"] + c.modified + ["[copied]"] + CopyLines(c.copied)
  }

  function EntryText(number: nat, e: Entry): string {
    "# commit " + Digits(number) + "\n" + Lines(Headings(e.changes)) + "(MD5)\n" + Lines(FileLines(e.files))
  }

  /** Entries are numbered from 1, and separated by an empty line. */
  function LogText(history: seq<Entry>): string
    requires history != []
  {
    var n := |history|;
    if n == 1 then EntryText(1, history[0])
    else LogText(history[..n - 1]) + "\n" + EntryText(n, history[n - 1])
  }

  // ---- Reading it back ----

  predicate IsSpace(c: char) {
    c == ' ' || c == '\n' || c == '\t' || c == '\r' || c as int == 11 || c as int == 12
  }

  /** The last position up to `from` that holds `c`; -1 when there is none. */
  function LastIndex(text: string, c: char, from: int): (p: int)
    requires from < |text|
    ensures -1 <= p && (p >= 0 ==> p <= from && text[p] == c)
    ensures forall q :: p < q <= from && 0 <= q ==> text[q] != c
    decreases from + 1
  {
    if from < 0 then -1 else if text[from] == c then from else LastIndex(text, c, from - 1)
  }

  function SkipSpace(t: string): (r: string)
    ensures |r| <= |t| && (r != "" ==> !IsSpace(r[0]))
  {
    if t != "" && IsSpace(t[0]) then SkipSpace(t[1..]) else t
  }

  function WordLength(t: string): (n: nat)
    ensures n <= |t|
  {
    if t == "" || IsSpace(t[0]) then 0 else 1 + WordLength(t[1..])
  }

  /** `fscanf("%s%s")` until the end of the file. */
  function ReadPairs(t: string): seq<File>
    decreases |t|
  {
    var a := SkipSpace(t);
    var n := WordLength(a);
    if n == 0 then []
    else
      var b := SkipSpace(a[n..]);
      var m := WordLength(b);
      if m == 0 then [] else [File(a[..n], b[..m])] + ReadPairs(b[m..])
  }

  /** `fscanf("%d")` on an unsigned numeral. */
  function ReadNumber(t: string): nat {
    var u := SkipSpace(t);
    NatValue(u[0..SpanDigits(u, 0)])
  }

  /** The files of the last commit, by scanning backwards for a closing parenthesis. */
  function OldFiles(text: string, from: int): seq<File>
    requires from < |text|
  {
    var start := LastIndex(text, ')', from) + 2;
    if start <= |text| then ReadPairs(text[start..]) else []
  }

  /** The number of the last commit, by scanning backwards for a hash sign. */
  function LastNumber(text: string): nat {
    var start := LastIndex(text, '#', |text| - 4) + 9;
    if start <= |text| then ReadNumber(text[start..]) else 0
  }

  // ---- The three commands on the record as a text ----

  /** `status`: with no record, every file is new. */
  function StatusReport(record: Option<string>, files: seq<File>): Changes {
    match record
    case None => Changes(Names(files), [], [])
    case Some(text) => Classify(OldFiles(text, |text| - 2), files)
  }

  function Names(files: seq<File>): (names: seq<string>)
    ensures |names| == |files| && forall i :: 0 <= i < |files| ==> names[i] == files[i].name
  {
    if files == [] then [] else [files[0].name] + Names(files[1..])
  }

  /** `commit`: the first entry when there is no record, else one more when there is anything to report. */
  function CommitText(record: Option<string>, files: seq<File>): Option<string> {
    match record
    case None => if files == [] then None else Some(EntryText(1, Entry(Changes(Names(files), [], []), files)))
    case Some(text) =>
      var changes := Classify(OldFiles(text, |text| - 4), files);
      if changes == NOTHING then record
      else Some(text + "\n" + EntryText(LastNumber(text) + 1, Entry(changes, files)))
  }

  // ---- Well-formed histories ----

  /** A character of a name or digest. */
  predicate Plain(c: char) {
    !IsSpace(c) && c != ')' && c != '#' && c as int != 0
  }

  predicate PlainWord(s: string) {
    s != "" && forall i :: 0 <= i < |s| ==> Plain(s[i])
  }

  predicate PlainFiles(files: seq<File>) {
    forall i :: 0 <= i < |files| ==> PlainWord(files[i].name) && PlainWord(files[i].digest)
  }

  predicate PlainNames(names: seq<string>) {
    forall i :: 0 <= i < |names| ==> PlainWord(names[i])
  }

  predicate PlainChanges(c: Changes) {
    && PlainNames(c.added) && PlainNames(c.modified)
    && forall i :: 0 <= i < |c.copied| ==> PlainWord(c.copied[i].source) && PlainWord(c.copied[i].target)
  }

  predicate PlainEntry(e: Entry) {
    PlainChanges(e.changes) && e.files != [] && PlainFiles(e.files)
  }

  predicate PlainHistory(history: seq<Entry>) {
    history != [] && forall k :: 0 <= k < |history| ==> PlainEntry(history[k])
  }

  /** A line that scanning and printing may meet: some text without line ends, hash signs or NULs. */
  predicate PlainLine(s: string) {
    s != "" && forall i :: 0 <= i < |s| ==> s[i] != '\n' && s[i] != '#' && s[i] as int != 0
  }

  predicate PlainLines(lines: seq<string>) {
    forall i :: 0 <= i < |lines| ==> PlainLine(lines[i])
  }

  lemma {:induction false} HeadingsPlain(c: Changes)
    requires PlainChanges(c)
    ensures PlainLines(Headings(c))
  {
    forall i | 0 <= i < |c.copied| ensures PlainLine(CopyLines(c.copied)[i]) {
      assert PlainWord(c.copied[i].source) && PlainWord(c.copied[i].target);
    }
    forall i | 0 <= i < |c.added| ensures PlainLine(c.added[i]) { assert PlainWord(c.added[i]); }
    forall i | 0 <= i < |c.modified| ensures PlainLine(c.modified[i]) { assert PlainWord(c.modified[i]); }
    assert PlainLine("[new_file]") && PlainLine("[modified]") && PlainLine("[copied]");
  }

  /** The list of digests is never empty and has no parenthesis and no hash sign. */
  lemma {:induction false} FileLinesPlain(files: seq<File>)
    requires PlainFiles(files)
    ensures PlainLines(FileLines(files))
    ensures forall i :: 0 <= i < |Lines(FileLines(files))| ==> Lines(FileLines(files))[i] != ')'
    ensures files != [] ==> |Lines(FileLines(files))| >= 4
  {
    if files != [] {
      FileLinesPlain(files[1..]);
      var line := files[0].name + " " + files[0].digest;
      assert PlainWord(files[0].name) && PlainWord(files[0].digest);
      assert PlainLine(line);
      assert FileLines(files) == [line] + FileLines(files[1..]);
      assert FileLines(files)[1..] == FileLines(files[1..]);
    }
  }

  lemma {:induction false} LinesPlain(lines: seq<string>)
    requires PlainLines(lines)
    ensures forall i :: 0 <= i < |Lines(lines)| ==> Lines(lines)[i] != '#'
  {
    if lines != [] {
      LinesPlain(lines[1..]);
      assert PlainLine(lines[0]);
    }
  }

  // ---- Reading back what was written ----

  /** What stands before the last entry. */
  function Before(history: seq<Entry>): string
    requires history != []
  {
    if |history| == 1 then "" else LogText(history[..|history| - 1]) + "\n"
  }

  /** What follows the hash sign of an entry. */
  function AfterHash(number: nat, e: Entry): string {
    " commit " + Digits(number) + "\n" + Lines(Headings(e.changes)) + "(MD5)\n" + Lines(FileLines(e.files))
  }

  lemma {:induction false} LastEntry(history: seq<Entry>)
    requires history != []
    ensures var n := |history|; var e := history[n - 1];
            LogText(history) == Before(history) + EntryText(n, e) && EntryText(n, e) == "#" + AfterHash(n, e)
  {
    var n := |history|;
    var e := history[n - 1];
    Regroup("#", " commit ", Digits(n), "\n", Lines(Headings(e.changes)), "(MD5)\n", Lines(FileLines(e.files)));
    if n > 1 {
      assert LogText(history) == LogText(history[..n - 1]) + "\n" + EntryText(n, e);
    }
  }

  lemma Regroup(h: string, a: string, b: string, c: string, d: string, e: string, f: string)
    requires h == "#" && a == " commit "
    ensures "# commit " + b + c + d + e + f == h + (a + b + c + d + e + f)
  {
    assert "# commit " == h + a;
    assert h + a + b + c + d + e + f == h + (a + b + c + d + e + f);
  }

  lemma DigitsPlain(n: nat)
    ensures forall i :: 0 <= i < |Digits(n)| ==> Digits(n)[i] != '#' && Digits(n)[i] != '\n' && Digits(n)[i] as int != 0
    ensures !IsSpace(Digits(n)[0])
  {
    assert forall i :: 0 <= i < |Digits(n)| ==> IsDigit(Digits(n)[i]);
  }

  lemma {:induction false} NoHash(number: nat, e: Entry)
    requires PlainEntry(e)
    ensures forall i :: 0 <= i < |AfterHash(number, e)| ==> AfterHash(number, e)[i] != '#'
    ensures |AfterHash(number, e)| >= 12
  {
    DigitsPlain(number);
    HeadingsPlain(e.changes);
    LinesPlain(Headings(e.changes));
    FileLinesPlain(e.files);
    LinesPlain(FileLines(e.files));
    NoneInJoined('#', " commit ", Digits(number), "\n", Lines(Headings(e.changes)), "(MD5)\n", Lines(FileLines(e.files)));
  }

  lemma NoneInJoined(x: char, a: string, b: string, c: string, d: string, e: string, f: string)
    requires x !in a && x !in b && x !in c && x !in d && x !in e && x !in f
    ensures x !in a + b + c + d + e + f
  {
  }

  /** The last hash sign is that of the last entry. */
  lemma {:induction false} LastHash(history: seq<Entry>, from: int)
    requires PlainHistory(history) && |Before(history)| <= from < |LogText(history)|
    ensures LastIndex(LogText(history), '#', from) == |Before(history)|
  {
    hide LogText, AfterHash, EntryText, Before;
    var n := |history|;
    LastEntry(history);
    NoHash(n, history[n - 1]);
    var text, p := LogText(history), |Before(history)|;
    assert text[p] == '#';
    forall q | p < q < |text| ensures text[q] != '#' {
      assert text[q] == AfterHash(n, history[n - 1])[q - p - 1];
    }
  }

  lemma ReadsNumber(n: nat, rest: string)
    requires rest != "" && rest[0] == '\n'
    ensures ReadNumber(Digits(n) + rest) == n
  {
    DigitsPlain(n);
    DigitsValue(n);
    var t := Digits(n) + rest;
    assert t[0..|Digits(n)|] == Digits(n);
    SpanExactly(t, 0, |Digits(n)|);
  }

  /** What follows a hash sign and eight more characters. */
  lemma AfterNine(before: string, after: string)
    requires |after| >= 8
    ensures |before + ("#" + after)| == |before| + 1 + |after|
    ensures (before + ("#" + after))[|before| + 9..] == after[8..]
  {
  }

  lemma NumberFollows(n: nat, e: Entry)
    ensures |AfterHash(n, e)| >= 8 && ReadNumber(AfterHash(n, e)[8..]) == n
  {
    var rest := "\n" + (Lines(Headings(e.changes)) + "(MD5)\n" + Lines(FileLines(e.files)));
    ReadsNumber(n, rest);
    hide ReadNumber;
    NumberPart(Digits(n), Lines(Headings(e.changes)), Lines(FileLines(e.files)));
  }

  lemma NumberPart(number: string, headings: string, list: string)
    ensures var after := " commit " + number + "\n" + headings + "(MD5)\n" + list;
            |after| >= 8 && after[8..] == number + ("\n" + (headings + "(MD5)\n" + list))
  {
    var after := " commit " + number + "\n" + headings + "(MD5)\n" + list;
    assert after == " commit " + (number + ("\n" + (headings + "(MD5)\n" + list)));
  }

  /** The number read is the number of entries. */
  lemma {:induction false} LastNumberCounts(history: seq<Entry>)
    requires PlainHistory(history)
    ensures LastNumber(LogText(history)) == |history|
  {
    hide LogText, EntryText, Before, AfterHash, ReadNumber;
    var n := |history|;
    var e := history[n - 1];
    LastEntry(history);
    NoHash(n, e);
    AfterNine(Before(history), AfterHash(n, e));
    LastHash(history, |LogText(history)| - 4);
    NumberFollows(n, e);
  }

  // ---- The list of digests ----

  lemma {:induction false} WordExactly(w: string, rest: string)
    requires forall i :: 0 <= i < |w| ==> !IsSpace(w[i])
    requires rest == "" || IsSpace(rest[0])
    ensures WordLength(w + rest) == |w|
  {
    if w == "" {
      assert w + rest == rest;
    } else {
      assert (w + rest)[1..] == w[1..] + rest;
      WordExactly(w[1..], rest);
    }
  }

  /** One line of the list is one pair. */
  lemma ReadsPair(name: string, digest: string, rest: string)
    requires PlainWord(name) && PlainWord(digest)
    ensures ReadPairs(name + " " + digest + "\n" + rest) == [File(name, digest)] + ReadPairs("\n" + rest)
  {
    assert Plain(name[0]) && Plain(digest[0]);
    var t := name + " " + digest + "\n" + rest;
    var b := digest + "\n" + rest;
    assert t == name + (" " + b);
    assert SkipSpace(t) == t;
    WordExactly(name, " " + b);
    assert t[..|name|] == name && t[|name|..] == " " + b && (" " + b)[1..] == b;
    assert SkipSpace(" " + b) == SkipSpace(b) == b;
    assert b == digest + ("\n" + rest);
    WordExactly(digest, "\n" + rest);
    assert b[..|digest|] == digest && b[|digest|..] == "\n" + rest;
  }

  lemma SpaceBefore(t: string)
    ensures ReadPairs("\n" + t) == ReadPairs(t)
  {
    assert ("\n" + t)[1..] == t;
    assert SkipSpace("\n" + t) == SkipSpace(t);
  }

  lemma {:induction false} ReadsList(files: seq<File>)
    requires PlainFiles(files)
    ensures ReadPairs(Lines(FileLines(files))) == files
  {
    if files != [] {
      var rest := Lines(FileLines(files[1..]));
      ReadsList(files[1..]);
      assert FileLines(files)[1..] == FileLines(files[1..]);
      assert Lines(FileLines(files)) == files[0].name + " " + files[0].digest + "\n" + rest;
      assert PlainWord(files[0].name) && PlainWord(files[0].digest);
      ReadsPair(files[0].name, files[0].digest, rest);
      SpaceBefore(rest);
    }
  }

  lemma ParenthesisAt(head: string, list: string, from: int)
    requires |list| >= 4 && forall i :: 0 <= i < |list| ==> list[i] != ')'
    requires var text := head + "(MD5)\n" + list; |text| - 4 <= from < |text|
    ensures var text := head + "(MD5)\n" + list;
            LastIndex(text, ')', from) == |head| + 4 && text[|head| + 6..] == list
  {
    hide LastIndex;
    var text := head + "(MD5)\n" + list;
    assert text == head + ("(MD5)\n" + list);
    assert forall q :: |head| + 6 <= q < |text| ==> text[q] == list[q - |head| - 6];
    assert text[|head| + 4] == ')' && text[|head| + 5] == '\n';
  }

  lemma Prefixed(before: string, start: string, list: string)
    ensures before + (start + "(MD5)\n" + list) == (before + start) + "(MD5)\n" + list
  {
  }

  /** The backward scan finds the list of the last commit, and the list is read back whole: `status` and `commit` start
      their scans two characters apart, and that makes no difference. */
  lemma {:induction false} ReadsLastFiles(history: seq<Entry>, from: int)
    requires PlainHistory(history) && |LogText(history)| - 4 <= from < |LogText(history)|
    ensures OldFiles(LogText(history), from) == history[|history| - 1].files
  {
    var n := |history|;
    var e := history[n - 1];
    LastEntry(history);
    var text := LogText(history);
    var list := Lines(FileLines(e.files));
    FileLinesPlain(e.files);
    ReadsList(e.files);
    hide LogText, Before, Headings, ReadPairs, FileLines, Lines, PlainHistory, PlainEntry, LastIndex, Digits;
    var start := "# commit " + Digits(n) + "\n" + Lines(Headings(e.changes));
    assert EntryText(n, e) == start + "(MD5)\n" + list;
    hide EntryText;
    Prefixed(Before(history), start, list);
    ParenthesisAt(Before(history) + start, list, from);
  }
}
