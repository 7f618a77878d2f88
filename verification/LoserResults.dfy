/** What `status` shows and `commit` records, line by line and file by file. */
module LoserResults {
  import opened Wrappers
  import opened Decimal
  import opened Loser
  import opened LoserClasses
  import opened LoserCommands
  import opened LoserLog

  // ---- Lines ----

  /** How many characters the first line has. */
  function LineLength(t: string): (n: nat)
    ensures n <= |t| && (forall i :: 0 <= i < n ==> t[i] != '\n') && (n < |t| ==> t[n] == '\n')
  {
    if t == "" || t[0] == '\n' then 0 else 1 + LineLength(t[1..])
  }

  /** A text cut at its line ends. */
  function LinesOf(t: string): seq<string>
    decreases |t|
  {
    if t == "" then []
    else
      var n := LineLength(t);
      [t[..n]] + if n < |t| then LinesOf(t[n + 1..]) else []
  }

  predicate HasLineEnd(s: string) {
    '\n' in s
  }

  lemma {:induction false} LineLengthIs(line: string, rest: string)
    requires !HasLineEnd(line)
    ensures LineLength(line + ("\n" + rest)) == |line|
  {
    var t := line + ("\n" + rest);
    var n := LineLength(t);
    assert t[|line|] == '\n';
    assert forall i :: 0 <= i < |line| ==> t[i] == line[i];
  }

  /** Lines that have been written one after the other are the lines of the text. */
  lemma {:induction false} LinesAreLines(lines: seq<string>)
    requires forall i :: 0 <= i < |lines| ==> !HasLineEnd(lines[i])
    ensures LinesOf(Lines(lines)) == lines
  {
    if lines != [] {
      LinesAreLines(lines[1..]);
      var line, rest := lines[0], Lines(lines[1..]);
      assert Lines(lines) == line + ("\n" + rest);
      LineLengthIs(line, rest);
      var t := line + ("\n" + rest);
      assert t[..|line|] == line && t[|line| + 1..] == rest;
    }
  }

  // ---- The layout of an entry ----

  function CopyLine(c: Copy): string {
    c.source + " => " + c.target
  }

  function FileLine(f: File): string {
    f.name + " " + f.digest
  }

  /** What is reported: three headings, each followed by its names, one on a line. */
  function ReportLines(c: Changes): seq<string> {
    ["[new_file]"] + c.added + ["[modified]"] + c.modified + ["[copied]"] + seq(|c.copied|, i requires 0 <= i < |c.copied| => CopyLine(c.copied[i]))
  }

  function EntryLinesOf(number: nat, e: Entry): seq<string> {
    ["# commit " + Digits(number)] + ReportLines(e.changes)
    + ["(MD5)"] + seq(|e.files|, i requires 0 <= i < |e.files| => FileLine(e.files[i]))
  }

  lemma PlainHasNoLineEnd(s: string)
    requires PlainWord(s)
    ensures !HasLineEnd(s)
  {
  }

  lemma {:induction false} ReportPlain(c: Changes)
    requires PlainChanges(c)
    ensures forall i :: 0 <= i < |ReportLines(c)| ==> !HasLineEnd(ReportLines(c)[i])
    ensures ReportLines(c) == Headings(c)
  {
    hide PlainWord;
    forall i | 0 <= i < |c.added| ensures !HasLineEnd(c.added[i]) { PlainHasNoLineEnd(c.added[i]); }
    forall i | 0 <= i < |c.modified| ensures !HasLineEnd(c.modified[i]) { PlainHasNoLineEnd(c.modified[i]); }
    forall i | 0 <= i < |c.copied| ensures !HasLineEnd(CopyLine(c.copied[i])) {
      PlainHasNoLineEnd(c.copied[i].source);
      PlainHasNoLineEnd(c.copied[i].target);
    }
    assert CopyLines(c.copied) == seq(|c.copied|, i requires 0 <= i < |c.copied| => CopyLine(c.copied[i]));
  }

  lemma {:induction false} FilesPlain(files: seq<File>)
    requires PlainFiles(files)
    ensures forall i :: 0 <= i < |files| ==> !HasLineEnd(FileLine(files[i]))
    ensures FileLines(files) == seq(|files|, i requires 0 <= i < |files| => FileLine(files[i]))
  {
    hide PlainWord;
    forall i | 0 <= i < |files| ensures !HasLineEnd(FileLine(files[i])) {
      PlainHasNoLineEnd(files[i].name);
      PlainHasNoLineEnd(files[i].digest);
    }
  }

  /** The text of an entry: its number, what was reported, and the name and digest of every file. */
  lemma {:induction false} EntryLayout(number: nat, e: Entry)
    requires PlainEntry(e)
    ensures LinesOf(EntryText(number, e)) == EntryLinesOf(number, e)
  {
    hide LinesOf, Lines, EntryLinesOf, EntryText, PlainEntry;
    EntryIsLines(number, e);
    LinesAreLines(EntryLinesOf(number, e));
  }

  lemma NumberLine(number: nat)
    ensures !HasLineEnd("# commit " + Digits(number))
  {
    DigitsPlain(number);
  }

  lemma OneMore(first: string, lines: seq<string>)
    ensures Lines([first] + lines) == first + ("\n" + Lines(lines))
  {
    assert ([first] + lines)[1..] == lines;
    assert Lines([first] + lines) == first + "\n" + Lines(lines);
  }

  /** The entries one after the other, numbered from 1, with an empty line between two of them. */
  function HistoryLines(history: seq<Entry>): seq<string> {
    var n := |history|;
    if n == 0 then []
    else if n == 1 then EntryLinesOf(1, history[0])
    else HistoryLines(history[..n - 1]) + [""] + EntryLinesOf(n, history[n - 1])
  }

  lemma {:induction false} EntryIsLines(number: nat, e: Entry)
    requires PlainEntry(e)
    ensures EntryText(number, e) == Lines(EntryLinesOf(number, e))
    ensures forall i :: 0 <= i < |EntryLinesOf(number, e)| ==> !HasLineEnd(EntryLinesOf(number, e)[i])
  {
    hide LinesOf, Lines, Headings, FileLines, PlainChanges, PlainFiles, Digits;
    ReportPlain(e.changes);
    FilesPlain(e.files);
    EntryLines(number, e);
    NumberLine(number);
    var first := "# commit " + Digits(number);
    assert EntryLinesOf(number, e) == [first] + BodyLines(e);
    OneMore(first, BodyLines(e));
  }

  lemma {:induction false} HistoryIsLines(history: seq<Entry>)
    requires PlainHistory(history)
    ensures LogText(history) == Lines(HistoryLines(history))
    ensures forall i :: 0 <= i < |HistoryLines(history)| ==> !HasLineEnd(HistoryLines(history)[i])
  {
    hide EntryText, EntryLinesOf, Lines, PlainEntry;
    var n := |history|;
    assert PlainEntry(history[n - 1]);
    EntryIsLines(n, history[n - 1]);
    if n > 1 {
      var front := history[..n - 1];
      HistoryIsLines(front);
      var a, b := HistoryLines(front), EntryLinesOf(n, history[n - 1]);
      LinesJoined(a + [""], b);
      LinesJoined(a, [""]);
      assert Lines([""]) == "\n" by { EmptyLine(); }
    }
  }

  lemma EmptyLine()
    ensures Lines([""]) == "\n"
  {
  }

  /** The record of a history, line by line. */
  lemma {:induction false} HistoryLayout(history: seq<Entry>)
    requires PlainHistory(history)
    ensures LinesOf(LogText(history)) == HistoryLines(history)
  {
    hide LogText, HistoryLines, LinesOf, Lines;
    HistoryIsLines(history);
    LinesAreLines(HistoryLines(history));
  }

  // ---- Status ----

  /** What `status` reports against the last commit: every new file, every modified file and every copy, in the order of
      the files, and nothing else. */
  lemma {:induction false} StatusLists(history: seq<Entry>, files: seq<File>)
    requires PlainHistory(history) && UniqueNames(history[|history| - 1].files)
    ensures ListsChanges(history[|history| - 1].files, files, StatusReport(RecordOf(history), files))
  {
    hide ListsChanges, LogText, Classify, OldFiles;
    RecordLong(history);
    ReadsLastFiles(history, |LogText(history)| - 2);
    ClassifyExact(history[|history| - 1].files, files);
  }

  /** `status` with its output, on the record of a history. */
  method ShowStatus(record: Option<string>, files: seq<File>, ghost history: seq<Entry>) returns (out: string)
    requires Proper(history) && record == RecordOf(history) && PlainFiles(files)
    ensures LinesOf(out) == ReportLines(StatusReport(record, files))
  {
    hide LinesOf, Lines, StatusReport, Classify, PlainFiles;
    var c := Status(record, files, history);
    StatusPlain(history, files);
    ReportPlain(c);
    out := WriteSection("", "[new_file]", c.added);
    out := WriteSection(out, "[modified]", c.modified);
    out := WriteSection(out, "[copied]", CopyLines(c.copied));
    LinesJoined(["[new_file]"] + c.added, ["[modified]"] + c.modified);
    LinesJoined(["[new_file]"] + c.added + (["[modified]"] + c.modified), ["[copied]"] + CopyLines(c.copied));
    assert Headings(c) == ["[new_file]"] + c.added + (["[modified]"] + c.modified) + (["[copied]"] + CopyLines(c.copied));
    LinesAreLines(Headings(c));
    assert "" + Lines(["[new_file]"] + c.added) == Lines(["[new_file]"] + c.added);
    assert out == Lines(Headings(c));
  }

  lemma {:induction false} StatusPlain(history: seq<Entry>, files: seq<File>)
    requires Proper(history) && PlainFiles(files)
    ensures PlainChanges(StatusReport(RecordOf(history), files))
  {
    hide PlainWord, Classify, LogText, OldFiles;
    if history == [] {
      NamesPlain(files);
    } else {
      RecordLong(history);
      ReadsLastFiles(history, |LogText(history)| - 2);
      assert PlainEntry(history[|history| - 1]);
      ClassifyPlain(history[|history| - 1].files, files);
    }
  }

  // ---- Commit ----

  /** What `commit` makes of the record.  The first commit lists every file as new.  A later one changes nothing exactly
      when every file is as in the last commit, and otherwise appends one entry that lists every new file, every modified
      file and every copy, in the order of the files, and nothing else. */
  lemma {:induction false} CommitLists(history: seq<Entry>, files: seq<File>)
    requires Proper(history) && PlainFiles(files) && (history != [] ==> UniqueNames(history[|history| - 1].files))
    ensures history == [] && files == [] ==> CommitText(RecordOf(history), files) == None
    ensures history == [] && files != [] ==>
              exists c: Changes :: |c.added| == |files| && (forall i :: 0 <= i < |files| ==> c.added[i] == files[i].name)
                                   && c.modified == [] && c.copied == []
                                   && CommitText(RecordOf(history), files) == RecordOf([Entry(c, files)])
    ensures history != [] ==>
              var past := history[|history| - 1].files;
              if forall i :: 0 <= i < |files| ==> files[i] in past then
                CommitText(RecordOf(history), files) == RecordOf(history)
              else
                exists c :: ListsChanges(past, files, c)
                            && CommitText(RecordOf(history), files) == RecordOf(history + [Entry(c, files)])
  {
    hide ListsChanges, LogText, Classify, CommitText, PlainFiles, UniqueNames, PlainHistory;
    CommitAppends(history, files);
    if history == [] {
      if files != [] {
        var c := Changes(Names(files), [], []);
        assert Committed(history, files) == [Entry(c, files)];
      }
    } else {
      var past := history[|history| - 1].files;
      ClassifyExact(past, files);
      NothingExact(past, files);
    }
  }
}
