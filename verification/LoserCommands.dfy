/** The commands of the version log: `status`, `commit` and `log`, over any history of commits. */
module LoserCommands {
  import opened Wrappers
  import opened Decimal
  import opened Loser
  import opened LoserClasses
  import opened LoserLoops
  import opened LoserLog

  // ---- Commit and status, on histories ----

  /** What a commit does to the history. */
  function Committed(history: seq<Entry>, files: seq<File>): seq<Entry> {
    if history == [] then
      if files == [] then [] else [Entry(Changes(Names(files), [], []), files)]
    else
      var changes := Classify(history[|history| - 1].files, files);
      if changes == NOTHING then history else history + [Entry(changes, files)]
  }

  /** The record file of a history; there is none before the first commit. */
  function RecordOf(history: seq<Entry>): Option<string> {
    if history == [] then None else Some(LogText(history))
  }

  predicate Proper(history: seq<Entry>) {
    history == [] || PlainHistory(history)
  }

  lemma {:induction false} JudgePlain(past: seq<File>, j: nat, file: File, isOld: bool, copied: bool)
    requires j <= |past| && PlainFiles(past) && PlainWord(file.name)
    ensures PlainChanges(Judge(past, j, file, isOld, copied).1)
    decreases |past| - j
  {
    if j < |past| {
      hide PlainWord;
      JudgePlain(past, j + 1, file, isOld, copied);
      JudgePlain(past, j + 1, file, isOld, true);
    }
  }

  lemma BothPlain(a: Changes, b: Changes)
    requires PlainChanges(a) && PlainChanges(b)
    ensures PlainChanges(Both(a, b))
  {
    hide PlainWord;
  }

  lemma {:induction false} ClassifyPlain(past: seq<File>, files: seq<File>)
    requires PlainFiles(past) && PlainFiles(files)
    ensures PlainChanges(Classify(past, files))
  {
    if files != [] {
      hide PlainWord, IsOld, Judge;
      var file := files[|files| - 1];
      ClassifyPlain(past, files[..|files| - 1]);
      JudgePlain(past, 0, file, IsOld(past, file.name), false);
      BothPlain(Judge(past, 0, file, IsOld(past, file.name), false).1, Changes([file.name], [], []));
      BothPlain(Classify(past, files[..|files| - 1]), Report(past, file));
    }
  }

  lemma {:induction false} CommittedProper(history: seq<Entry>, files: seq<File>)
    requires Proper(history) && PlainFiles(files)
    ensures Proper(Committed(history, files))
  {
    hide PlainWord;
    if history == [] {
      NamesPlain(files);
    } else {
      var last := history[|history| - 1];
      ClassifyPlain(last.files, files);
      assert PlainEntry(last);
    }
  }

  lemma {:induction false} NamesPlain(files: seq<File>)
    requires PlainFiles(files)
    ensures PlainNames(Names(files))
  {
    hide PlainWord;
  }

  lemma {:induction false} LogTextMore(history: seq<Entry>, e: Entry)
    requires history != []
    ensures LogText(history + [e]) == LogText(history) + "\n" + EntryText(|history| + 1, e)
  {
    var longer := history + [e];
    assert longer[..|longer| - 1] == history;
  }

  /** Committing on the text of a history gives the text of the history after the commit. */
  lemma {:induction false} CommitAppends(history: seq<Entry>, files: seq<File>)
    requires Proper(history) && PlainFiles(files)
    ensures CommitText(RecordOf(history), files) == RecordOf(Committed(history, files))
    ensures Proper(Committed(history, files))
  {
    hide PlainHistory, PlainFiles, Classify, EntryText, OldFiles, LastNumber;
    CommittedProper(history, files);
    if history != [] {
      ReadsLastFiles(history, |LogText(history)| - 4);
      LastNumberCounts(history);
      var changes := Classify(history[|history| - 1].files, files);
      LogTextMore(history, Entry(changes, files));
      hide LogText;
    }
  }

  /** The record after a run of commits, each on the files of that time. */
  function RunText(commits: seq<seq<File>>): Option<string> {
    if commits == [] then None else CommitText(RunText(commits[..|commits| - 1]), commits[|commits| - 1])
  }

  function RunHistory(commits: seq<seq<File>>): seq<Entry> {
    if commits == [] then [] else Committed(RunHistory(commits[..|commits| - 1]), commits[|commits| - 1])
  }

  /** Over any run, the record is the text of the history: its entries are numbered 1, 2, 3 and so on without a gap. */
  lemma {:induction false} NumbersRun(commits: seq<seq<File>>)
    requires forall i :: 0 <= i < |commits| ==> PlainFiles(commits[i])
    ensures Proper(RunHistory(commits)) && RunText(commits) == RecordOf(RunHistory(commits))
    ensures RunText(commits).Some? ==> LastNumber(RunText(commits).value) == |RunHistory(commits)|
  {
    hide PlainFiles, PlainHistory, CommitText, LastNumber, LogText, Committed;
    if commits != [] {
      NumbersRun(commits[..|commits| - 1]);
      CommitAppends(RunHistory(commits[..|commits| - 1]), commits[|commits| - 1]);
    }
    if RunHistory(commits) != [] { LastNumberCounts(RunHistory(commits)); }
  }

  lemma {:induction false} NothingNew(past: seq<File>, files: seq<File>)
    requires UniqueNames(past) && forall i :: 0 <= i < |files| ==> files[i] in past
    ensures Classify(past, files) == NOTHING
  {
    if files != [] {
      var file := files[|files| - 1];
      NothingNew(past, files[..|files| - 1]);
      ReportsItsClass(past, file, Unchanged);
    }
  }

  /** `status` right after `commit` reports nothing. */
  lemma {:induction false} StatusAfterCommit(history: seq<Entry>, files: seq<File>)
    requires Proper(history) && PlainFiles(files) && UniqueNames(files)
    ensures StatusReport(CommitText(RecordOf(history), files), files) == NOTHING
  {
    hide PlainHistory, PlainFiles, Classify, UniqueNames, OldFiles, LogText, CommitText;
    CommitAppends(history, files);
    var after := Committed(history, files);
    if after != [] {
      ReadsLastFiles(after, |LogText(after)| - 2);
      NothingNew(files, files);
    }
  }

  // ---- Log ----

  /** What `log` prints of the rest of an entry: up to an empty line or the end of the file. */
  function UpToBlank(t: string, previous: char): string {
    if t == "" || t[0] as int == 0 || (previous == '\n' && t[0] == '\n') then ""
    else [t[0]] + UpToBlank(t[1..], t[0])
  }

  /** Where the numeral starts in what follows a hash sign: `fscanf("%s%d")` skips a word. */
  function AtNumeral(t: string): string {
    var word := SkipSpace(t);
    SkipSpace(word[WordLength(word)..])
  }

  function NumberOf(numeral: string): nat {
    NatValue(numeral[0..SpanDigits(numeral, 0)])
  }

  function ShownEntry(numeral: string): string {
    "# commit " + Digits(NumberOf(numeral)) + UpToBlank(numeral[SpanDigits(numeral, 0)..], 'o')
  }

  /** `log k`, with the scan for a hash sign starting at `from`; it stops after commit 1. */
  function LogFrom(text: string, from: int, k: nat): string
    requires from < |text|
    decreases k
  {
    var p := LastIndex(text, '#', from);
    if k == 0 || p < 0 then ""
    else
      var numeral := AtNumeral(text[p + 1..]);
      if k == 1 || NumberOf(numeral) == 1 then ShownEntry(numeral)
      else ShownEntry(numeral) + "\n" + LogFrom(text, p - 1, k - 1)
  }

  /** The texts of the newest min(k, n) entries, newest first. */
  function Newest(history: seq<Entry>, k: nat): seq<string> {
    var n := |history|;
    seq(if k < n then k else n, i requires 0 <= i < n => EntryText(n - i, history[n - 1 - i]))
  }

  function Join(texts: seq<string>): string {
    if texts == [] then "" else if |texts| == 1 then texts[0] else texts[0] + "\n" + Join(texts[1..])
  }

  lemma {:induction false} UpToBlankLine(line: string, rest: string, previous: char)
    requires forall i :: 0 <= i < |line| ==> line[i] != '\n' && line[i] as int != 0
    requires line != "" || previous != '\n'
    ensures UpToBlank(line + "\n" + rest, previous) == line + "\n" + UpToBlank(rest, '\n')
    decreases |line|
  {
    var t := line + "\n" + rest;
    if line == "" {
      assert t == "\n" + rest && t[1..] == rest;
    } else {
      assert t[1..] == line[1..] + "\n" + rest;
      UpToBlankLine(line[1..], rest, line[0]);
    }
  }

  /** Non-empty lines are printed whole; the empty line after them ends the entry. */
  lemma {:induction false} UpToBlankLines(lines: seq<string>, suffix: string)
    requires PlainLines(lines) && (suffix == "" || suffix[0] == '\n')
    ensures UpToBlank(Lines(lines) + suffix, '\n') == Lines(lines)
  {
    if lines == [] {
      assert Lines(lines) + suffix == suffix;
    } else {
      assert PlainLine(lines[0]);
      UpToBlankLines(lines[1..], suffix);
      assert Lines(lines) + suffix == lines[0] + "\n" + (Lines(lines[1..]) + suffix);
      UpToBlankLine(lines[0], Lines(lines[1..]) + suffix, '\n');
    }
  }

  lemma {:induction false} LinesJoined(a: seq<string>, b: seq<string>)
    ensures Lines(a + b) == Lines(a) + Lines(b)
  {
    if a == [] {
      assert a + b == b;
    } else {
      assert (a + b)[1..] == a[1..] + b;
      LinesJoined(a[1..], b);
    }
  }

  /** The lines of an entry after its first. */
  function BodyLines(e: Entry): seq<string> {
    Headings(e.changes) + ["(MD5)"] + FileLines(e.files)
  }

  lemma JoinedBody(a: string, headings: string, list: string)
    ensures a + "\n" + headings + "(MD5)\n" + list == a + ("\n" + (headings + "(MD5)\n" + list))
  {
    var tail := headings + "(MD5)\n" + list;
    assert a + "\n" + headings + "(MD5)\n" + list == (a + "\n") + tail;
  }

  lemma BodyText(e: Entry)
    ensures Lines(BodyLines(e)) == Lines(Headings(e.changes)) + "(MD5)\n" + Lines(FileLines(e.files))
  {
    LinesJoined(Headings(e.changes) + ["(MD5)"], FileLines(e.files));
    LinesJoined(Headings(e.changes), ["(MD5)"]);
    assert Lines(["(MD5)"]) == "(MD5)\n";
  }

  lemma EntryLines(number: nat, e: Entry)
    ensures EntryText(number, e) == "# commit " + Digits(number) + ("\n" + Lines(BodyLines(e)))
  {
    BodyText(e);
    JoinedBody("# commit " + Digits(number), Lines(Headings(e.changes)), Lines(FileLines(e.files)));
  }

  lemma BodyPlain(e: Entry)
    requires PlainEntry(e)
    ensures PlainLines(BodyLines(e))
  {
    HeadingsPlain(e.changes);
    FileLinesPlain(e.files);
    assert PlainLine("(MD5)");
  }

  lemma AfterHashLines(number: nat, e: Entry)
    ensures AfterHash(number, e) == " commit " + Digits(number) + ("\n" + Lines(BodyLines(e)))
  {
    BodyText(e);
    JoinedBody(" commit " + Digits(number), Lines(Headings(e.changes)), Lines(FileLines(e.files)));
  }

  lemma SkipsCommit(rest: string)
    requires rest != "" && !IsSpace(rest[0])
    ensures AtNumeral(" commit " + rest) == rest
  {
    var t := " commit " + rest;
    assert t[1..] == "commit" + (" " + rest);
    assert SkipSpace(t) == t[1..];
    WordExactly("commit", " " + rest);
    assert t[1..][6..] == " " + rest && (" " + rest)[1..] == rest;
    assert SkipSpace(" " + rest) == SkipSpace(rest) == rest;
  }

  lemma ShowsNumeral(n: nat, rest: string)
    requires rest != "" && rest[0] == '\n'
    ensures NumberOf(Digits(n) + rest) == n
    ensures ShownEntry(Digits(n) + rest) == "# commit " + Digits(n) + UpToBlank(rest, 'o')
  {
    hide UpToBlank;
    DigitsValue(n);
    var t := Digits(n) + rest;
    assert t[0..|Digits(n)|] == Digits(n);
    SpanExactly(t, 0, |Digits(n)|);
    assert t[|Digits(n)|..] == rest;
  }

  lemma BodyShown(e: Entry, suffix: string)
    requires PlainEntry(e) && (suffix == "" || suffix[0] == '\n')
    ensures UpToBlank("\n" + (Lines(BodyLines(e)) + suffix), 'o') == "\n" + Lines(BodyLines(e))
  {
    BodyPlain(e);
    UpToBlankLines(BodyLines(e), suffix);
    hide PlainEntry, BodyLines, Lines;
    var rest := Lines(BodyLines(e)) + suffix;
    assert ("\n" + rest)[1..] == rest;
  }

  lemma Rebracket(a: string, b: string, c: string, d: string)
    ensures a + b + ("\n" + c) + d == a + (b + ("\n" + (c + d)))
  {
    assert ("\n" + c) + d == "\n" + (c + d);
    assert (a + b + ("\n" + c)) + d == a + b + (("\n" + c) + d);
  }

  /** After the hash sign of an entry, exactly the entry is shown, whatever follows it. */
  lemma ShowsEntry(n: nat, e: Entry, suffix: string)
    requires PlainEntry(e) && (suffix == "" || suffix[0] == '\n')
    ensures var numeral := AtNumeral(AfterHash(n, e) + suffix); NumberOf(numeral) == n && ShownEntry(numeral) == EntryText(n, e)
  {
    AfterHashLines(n, e);
    EntryLines(n, e);
    BodyShown(e, suffix);
    DigitsPlain(n);
    hide *;
    var body := Lines(BodyLines(e));
    var rest := "\n" + (body + suffix);
    Rebracket(" commit ", Digits(n), body, suffix);
    SkipsCommit(Digits(n) + rest);
    ShowsNumeral(n, rest);
  }

  lemma LastHashIn(before: string, after: string, suffix: string, from: int)
    requires forall i :: 0 <= i < |after| ==> after[i] != '#'
    requires suffix == "" || suffix[0] == '\n'
    requires |before| + |after| <= from < |before| + 1 + |after| + |suffix| && from <= |before| + 1 + |after|
    ensures var text := before + ("#" + after) + suffix;
            LastIndex(text, '#', from) == |before| && text[|before| + 1..] == after + suffix
  {
    hide LastIndex;
    var text := before + ("#" + after) + suffix;
    assert text[|before|] == '#';
    assert forall q :: |before| < q <= |before| + |after| ==> text[q] == after[q - |before| - 1];
  }

  /** A scan starts at the end of the log so far, or on the line end after it; `suffix` has been shown already. */
  predicate StartsScan(history: seq<Entry>, suffix: string, from: int)
    requires history != []
  {
    && |LogText(history)| - 1 <= from <= |LogText(history)| && from < |LogText(history) + suffix|
    && (suffix == "" || suffix[0] == '\n')
  }

  /** The hash sign of the last entry is the last one, whatever follows the entry after an empty line. */
  lemma {:induction false} HashIn(history: seq<Entry>, suffix: string, from: int)
    requires PlainHistory(history) && StartsScan(history, suffix, from)
    ensures var text := LogText(history) + suffix; var p := |Before(history)|; var n := |history|;
            && LastIndex(text, '#', from) == p && p < |text|
            && text[p + 1..] == AfterHash(n, history[n - 1]) + suffix
  {
    var n := |history|;
    LastEntry(history);
    NoHash(n, history[n - 1]);
    hide LogText, AfterHash, EntryText, Before, PlainHistory, LastIndex;
    LastHashIn(Before(history), AfterHash(n, history[n - 1]), suffix, from);
  }

  lemma {:induction false} NewestStep(history: seq<Entry>, k: nat)
    requires history != [] && k > 0
    ensures var n := |history|;
            Newest(history, k) == [EntryText(n, history[n - 1])] + Newest(history[..n - 1], k - 1)
  {
    hide EntryText;
  }

  /** One round of the loop of `log`. */
  lemma {:induction false} LogFromStep(history: seq<Entry>, suffix: string, from: int, k: nat)
    requires PlainHistory(history) && StartsScan(history, suffix, from) && k > 0
    ensures var text := LogText(history) + suffix; var n := |history|; var shown := EntryText(n, history[n - 1]);
            && |Before(history)| <= |text|
            && LogFrom(text, from, k) ==
                 if k == 1 || n == 1 then shown else shown + "\n" + LogFrom(text, |Before(history)| - 1, k - 1)
  {
    hide LogText, EntryText, AfterHash, Before, AtNumeral, NumberOf, ShownEntry, LastIndex;
    assert from < |LogText(history) + suffix|;
    HashIn(history, suffix, from);
    ShowsEntry(|history|, history[|history| - 1], suffix);
  }

  function Older(history: seq<Entry>): seq<Entry>
    requires history != []
  {
    history[..|history| - 1]
  }

  /** What has been shown once the last entry has. */
  function WithLast(history: seq<Entry>, suffix: string): string
    requires history != []
  {
    "\n" + EntryText(|history|, history[|history| - 1]) + suffix
  }

  /** The log without its last entry. */
  lemma {:induction false} OlderText(history: seq<Entry>, suffix: string)
    requires |history| > 1
    ensures var older := Older(history); var suffix' := WithLast(history, suffix);
            && older != [] && LogText(history) + suffix == LogText(older) + suffix'
            && |Before(history)| - 1 == |LogText(older)| && StartsScan(older, suffix', |LogText(older)|)
  {
    hide EntryText;
    var n := |history|;
    Shift(LogText(history[..n - 1]), EntryText(n, history[n - 1]), suffix);
  }

  lemma Shift(a: string, b: string, c: string)
    ensures a + "\n" + b + c == a + ("\n" + b + c)
  {
  }

  lemma {:induction false} JoinNewest(history: seq<Entry>, k: nat)
    requires history != [] && k > 0
    ensures var n := |history|; var shown := EntryText(n, history[n - 1]);
            Join(Newest(history, k)) ==
              if k == 1 || n == 1 then shown else shown + "\n" + Join(Newest(history[..n - 1], k - 1))
  {
    hide EntryText;
    var n := |history|;
    var rest := Newest(history[..n - 1], k - 1);
    NewestStep(history, k);
    hide Newest;
    assert ([EntryText(n, history[n - 1])] + rest)[1..] == rest;
  }

  /** The loop of `log` prints what it should, when started at `from` with `k` entries to go. */
  predicate Prints(history: seq<Entry>, suffix: string, from: int, k: nat)
    requires history != [] && StartsScan(history, suffix, from)
  {
    LogFrom(LogText(history) + suffix, from, k) == Join(Newest(history, k))
  }

  lemma {:induction false} PrintsLast(history: seq<Entry>, suffix: string, from: int, k: nat)
    requires PlainHistory(history) && StartsScan(history, suffix, from) && (k <= 1 || |history| == 1)
    ensures Prints(history, suffix, from, k)
  {
    if k > 0 {
      LogFromStep(history, suffix, from, k);
      JoinNewest(history, k);
      hide LogText, LogFrom, EntryText, Before, Newest, Join;
    }
  }

  lemma {:induction false} PrintsMore(history: seq<Entry>, suffix: string, from: int, k: nat)
    requires PlainHistory(history) && StartsScan(history, suffix, from) && k > 1 && |history| > 1
    requires var older := Older(history); var suffix' := WithLast(history, suffix);
             older != [] && StartsScan(older, suffix', |LogText(older)|) && Prints(older, suffix', |LogText(older)|, k - 1)
    ensures Prints(history, suffix, from, k)
  {
    LogFromStep(history, suffix, from, k);
    JoinNewest(history, k);
    OlderText(history, suffix);
    hide LogText, LogFrom, EntryText, Before, Newest, Join, StartsScan, WithLast, PlainHistory;
  }

  lemma {:induction false} OlderPlain(history: seq<Entry>)
    requires PlainHistory(history) && |history| > 1
    ensures PlainHistory(Older(history))
  {
  }

  lemma {:induction false} LogFromPart(history: seq<Entry>, suffix: string, from: int, k: nat)
    requires history != [] && PlainHistory(history) && StartsScan(history, suffix, from)
    ensures Prints(history, suffix, from, k)
    decreases k
  {
    hide *;
    if k <= 1 || |history| == 1 {
      PrintsLast(history, suffix, from, k);
      return;
    }
    var older := Older(history);
    OlderText(history, suffix);
    OlderPlain(history);
    LogFromPart(older, WithLast(history, suffix), |LogText(older)|, k - 1);
    PrintsMore(history, suffix, from, k);
  }

  /** `log k` prints the newest min(k, n) entries, newest first, with an empty line between them. */
  lemma {:induction false} LogPrintsNewest(history: seq<Entry>, k: nat)
    requires PlainHistory(history)
    ensures LogFrom(LogText(history), |LogText(history)| - 1, k) == Join(Newest(history, k))
  {
    hide LogText;
    assert LogText(history) + "" == LogText(history);
    LogFromPart(history, "", |LogText(history)| - 1, k);
  }

  // ---- The loops ----

  /** Seeks backwards for a character. */
  method SeekBack(text: string, c: char, from: int) returns (p: int)
    requires -1 <= from < |text|
    ensures p == LastIndex(text, c, from)
  {
    p := from;
    while p >= 0 && text[p] != c
      invariant -1 <= p <= from && forall q :: p < q <= from ==> text[q] != c
    {
      p := p - 1;
    }
  }

  /** The next word from position `i` on: where it starts and where it ends. */
  method ScanWord(text: string, i: nat) returns (start: nat, end: nat)
    requires i <= |text|
    ensures i <= start <= end <= |text|
    ensures text[start..] == SkipSpace(text[i..]) && end - start == WordLength(text[start..])
  {
    start := i;
    while start < |text| && IsSpace(text[start])
      invariant i <= start <= |text| && SkipSpace(text[start..]) == SkipSpace(text[i..])
    {
      assert text[start..][1..] == text[start + 1..];
      start := start + 1;
    }
    end := start;
    while end < |text| && !IsSpace(text[end])
      invariant start <= end <= |text| && end - start + WordLength(text[end..]) == WordLength(text[start..])
    {
      assert text[end..][1..] == text[end + 1..];
      end := end + 1;
    }
  }

  lemma DropDrop(text: string, i: nat, j: nat)
    requires i <= j <= |text|
    ensures text[i..][j - i..] == text[j..] && text[i..][..j - i] == text[i..j]
  {
  }

  /** One round of `fscanf`, by the positions of the two words. */
  lemma ReadPairsStep(text: string, i: nat, a: nat, b: nat, c: nat, d: nat)
    requires i <= a <= b <= c <= d <= |text|
    requires text[a..] == SkipSpace(text[i..]) && b - a == WordLength(text[a..])
    requires text[c..] == SkipSpace(text[b..]) && d - c == WordLength(text[c..])
    ensures ReadPairs(text[i..]) ==
              if a == b || c == d then [] else [File(text[a..b], text[c..d])] + ReadPairs(text[d..])
  {
    hide SkipSpace, WordLength;
    DropDrop(text, a, b);
    DropDrop(text, c, d);
  }

  /** Reads pairs of words to the end of the file. */
  method ReadOld(text: string, start: nat) returns (past: seq<File>)
    requires start <= |text|
    ensures past == ReadPairs(text[start..])
  {
    hide SkipSpace, WordLength, ReadPairs;
    past := [];
    var i := start;
    while true
      invariant start <= i <= |text| && past + ReadPairs(text[i..]) == ReadPairs(text[start..])
      decreases |text| - i
    {
      var a, b := ScanWord(text, i);
      var c, d := ScanWord(text, b);
      ReadPairsStep(text, i, a, b, c, d);
      if a == b || c == d {
        return;
      }
      past := past + [File(text[a..b], text[c..d])];
      i := d;
    }
  }

  method WriteLines(out: string, lines: seq<string>) returns (written: string)
    ensures written == out + Lines(lines)
  {
    written := out;
    for i := 0 to |lines|
      invariant written + Lines(lines[i..]) == out + Lines(lines)
    {
      assert lines[i..][1..] == lines[i + 1..];
      written := written + lines[i] + "\n";
    }
  }

  method WriteSection(out: string, heading: string, lines: seq<string>) returns (written: string)
    ensures written == out + Lines([heading] + lines)
  {
    assert ([heading] + lines)[1..] == lines;
    written := WriteLines(out + heading + "\n", lines);
  }

  lemma Sections(e: Entry)
    ensures Lines(BodyLines(e)) ==
              Lines(["[new_file]"] + e.changes.added) + Lines(["[modified]"] + e.changes.modified) +
              Lines(["[copied]"] + CopyLines(e.changes.copied)) + Lines(["(MD5)"] + FileLines(e.files))
  {
    var a, b := ["[new_file]"] + e.changes.added, ["[modified]"] + e.changes.modified;
    var c, d := ["[copied]"] + CopyLines(e.changes.copied), ["(MD5)"] + FileLines(e.files);
    assert BodyLines(e) == a + b + c + d;
    hide Lines, BodyLines;
    LinesJoined(a, b);
    LinesJoined(a + b, c);
    LinesJoined(a + b + c, d);
  }

  /** Writes one entry behind `out`. */
  method WriteEntry(out: string, number: nat, e: Entry) returns (written: string)
    ensures written == out + EntryText(number, e)
  {
    EntryLines(number, e);
    Sections(e);
    hide *;
    written := WriteSection(out + "# commit " + Digits(number) + "\n", "[new_file]", e.changes.added);
    written := WriteSection(written, "[modified]", e.changes.modified);
    written := WriteSection(written, "[copied]", CopyLines(e.changes.copied));
    written := WriteSection(written, "(MD5)", FileLines(e.files));
  }

  lemma {:induction false} RecordLong(history: seq<Entry>)
    requires PlainHistory(history)
    ensures |LogText(history)| >= 13
  {
    hide LogText, EntryText, Before, AfterHash, PlainHistory;
    LastPlain(history);
    LastEntry(history);
    NoHash(|history|, history[|history| - 1]);
  }

  lemma {:induction false} LastPlain(history: seq<Entry>)
    requires PlainHistory(history)
    ensures history != [] && PlainEntry(history[|history| - 1])
  {
  }

  /** `status`, on the record of a history. */
  method Status(record: Option<string>, files: seq<File>, ghost history: seq<Entry>) returns (changes: Changes)
    requires Proper(history) && record == RecordOf(history)
    ensures changes == StatusReport(record, files)
  {
    hide LogText, ReadPairs, Classify, LastIndex, PlainHistory;
    if record == None {
      return Changes(Names(files), [], []);
    }
    var text := record.value;
    RecordLong(history);
    var p := SeekBack(text, ')', |text| - 2);
    var past := ReadOld(text, p + 2);
    changes := ClassifyFiles(past, files);
  }

  /** `commit`, on the record of a history. */
  method Commit(record: Option<string>, files: seq<File>, ghost history: seq<Entry>) returns (record': Option<string>)
    requires Proper(history) && record == RecordOf(history)
    ensures record' == CommitText(record, files)
  {
    hide LogText, ReadPairs, Classify, LastIndex, PlainHistory, EntryText, ReadNumber;
    if record == None {
      if files == [] {
        return None;
      }
      var first := WriteEntry("", 1, Entry(Changes(Names(files), [], []), files));
      assert EntryText(1, Entry(Changes(Names(files), [], []), files)) == first;
      return Some(first);
    }
    var text := record.value;
    RecordLong(history);
    var p := SeekBack(text, ')', |text| - 4);
    var past := ReadOld(text, p + 2);
    var h := SeekBack(text, '#', |text| - 4);
    HashFound(history);
    var number := ReadNumber(text[h + 9..]);
    var changes := ClassifyFiles(past, files);
    if changes == NOTHING {
      return record;
    }
    var more := WriteEntry(text + "\n", number + 1, Entry(changes, files));
    return Some(more);
  }

  /** There is room for a numeral behind the last hash sign. */
  lemma {:induction false} HashFound(history: seq<Entry>)
    requires PlainHistory(history)
    ensures var text := LogText(history); LastIndex(text, '#', |text| - 4) + 9 <= |text|
  {
    hide LogText, EntryText, Before, AfterHash, PlainHistory, LastIndex;
    LastPlain(history);
    LastEntry(history);
    NoHash(|history|, history[|history| - 1]);
    LastHash(history, |LogText(history)| - 4);
  }

  /** Prints what follows a number, up to an empty line or the end of the file. */
  method PrintRest(text: string, start: nat) returns (out: string)
    requires start <= |text|
    ensures out == UpToBlank(text[start..], 'o')
  {
    out := "";
    var previous := 'o';
    var i := start;
    while i < |text| && text[i] as int != 0 && !(previous == '\n' && text[i] == '\n')
      invariant start <= i <= |text|
      invariant out + UpToBlank(text[i..], previous) == UpToBlank(text[start..], 'o')
    {
      assert text[i..][1..] == text[i + 1..];
      out := out + [text[i]];
      previous := text[i];
      i := i + 1;
    }
  }

  lemma AtNumeralIs(text: string, i: nat, start: nat, end: nat, digits: nat)
    requires i <= start <= end <= digits <= |text|
    requires text[start..] == SkipSpace(text[i..]) && end - start == WordLength(text[start..])
    requires text[digits..] == SkipSpace(text[end..])
    ensures AtNumeral(text[i..]) == text[digits..]
  {
    hide SkipSpace, WordLength;
    DropDrop(text, start, end);
  }

  lemma ShownAt(text: string, digits: nat)
    requires digits <= |text|
    ensures var stop := digits + SpanDigits(text[digits..], 0);
            && stop <= |text| && AllDigits(text[digits..stop])
            && NumberOf(text[digits..]) == NatValue(text[digits..stop])
            && ShownEntry(text[digits..]) == "# commit " + Digits(NatValue(text[digits..stop])) + UpToBlank(text[stop..], 'o')
  {
    hide SpanDigits, NatValue, Digits, UpToBlank;
    var numeral := text[digits..];
    var stop := digits + SpanDigits(numeral, 0);
    DropDrop(text, digits, stop);
    assert numeral[0..stop - digits] == numeral[..stop - digits];
  }

  /** Reads the number behind the hash sign at `p`, and shows the entry. */
  method ShowEntry(text: string, p: nat) returns (number: nat, entry: string)
    requires p < |text|
    ensures var numeral := AtNumeral(text[p + 1..]); number == NumberOf(numeral) && entry == ShownEntry(numeral)
  {
    hide *;
    var start, end := ScanWord(text, p + 1);
    var digits, after := ScanWord(text, end);
    AtNumeralIs(text, p + 1, start, end, digits);
    ShownAt(text, digits);
    var stop := digits + SpanDigits(text[digits..], 0);
    number := NatValue(text[digits..stop]);
    var rest := PrintRest(text, stop);
    entry := "# commit " + Digits(number) + rest;
  }

  /** `log`, on the record of a history. */
  method LogLoser(record: Option<string>, outputs: nat, ghost history: seq<Entry>) returns (out: string)
    requires Proper(history) && record == RecordOf(history)
    ensures out == if record == None then "" else LogFrom(record.value, |record.value| - 1, outputs)
  {
    hide LogText, PlainHistory, UpToBlank, AtNumeral, NumberOf, ShownEntry, LastIndex;
    out := "";
    if record == None {
      return;
    }
    var text := record.value;
    var from := |text| - 1;
    var left := outputs;
    while left > 0
      invariant -1 <= from < |text|
      invariant out + LogFrom(text, from, left) == LogFrom(text, |text| - 1, outputs)
      decreases left
    {
      var p := SeekBack(text, '#', from);
      if p < 0 {
        return;
      }
      var number, entry := ShowEntry(text, p);
      out := out + entry;
      if left == 1 || number == 1 {
        return;
      }
      out := out + "\n";
      from := p - 1;
      left := left - 1;
    }
  }
}
