/** What the classification of the version log means: with unique old names every file is in exactly one class. */
module LoserClasses {
  import opened Loser

  predicate UniqueNames(files: seq<File>) {
    forall i, j :: 0 <= i < j < |files| ==> files[i].name != files[j].name
  }

  /** The four classes, in the order in which the first that applies counts. */
  datatype Class = Unchanged | Modified | CopiedFrom(j: nat) | New

  /** The first old file with the digest. */
  predicate FirstWith(past: seq<File>, digest: string, j: nat) {
    j < |past| && past[j].digest == digest && forall i :: 0 <= i < j ==> past[i].digest != digest
  }

  predicate InClass(past: seq<File>, file: File, c: Class) {
    match c
    case Unchanged => file in past
    case Modified => IsOld(past, file.name) && file !in past
    case CopiedFrom(j) => !IsOld(past, file.name) && FirstWith(past, file.digest, j)
    case New => !IsOld(past, file.name) && forall j :: 0 <= j < |past| ==> past[j].digest != file.digest
  }

  function Shown(past: seq<File>, file: File, c: Class): Changes
    requires InClass(past, file, c)
  {
    match c
    case Unchanged => NOTHING
    case Modified => Changes([], [file.name], [])
    case CopiedFrom(j) => Changes([], [], [Copy(past[j].name, file.name)])
    case New => Changes([file.name], [], [])
  }

  lemma {:induction false} FirstMatch(past: seq<File>, digest: string, from: nat) returns (j: nat)
    requires from <= |past| && forall i :: 0 <= i < from ==> past[i].digest != digest
    ensures j == |past| || FirstWith(past, digest, j)
    ensures j == |past| ==> forall i :: 0 <= i < |past| ==> past[i].digest != digest
    decreases |past| - from
  {
    if from == |past| || past[from].digest == digest {
      j := from;
    } else {
      j := FirstMatch(past, digest, from + 1);
    }
  }

  lemma {:induction false} ClassExists(past: seq<File>, file: File) returns (c: Class)
    ensures InClass(past, file, c)
  {
    var j := FirstMatch(past, file.digest, 0);
    c := if file in past then Unchanged
         else if IsOld(past, file.name) then Modified
         else if j < |past| then CopiedFrom(j) else New;
  }

  lemma {:induction false} ClassUnique(past: seq<File>, file: File, c: Class, d: Class)
    requires UniqueNames(past) && InClass(past, file, c) && InClass(past, file, d)
    ensures c == d
  {
    if file in past {
      var j :| 0 <= j < |past| && past[j] == file;
      assert IsOld(past, file.name);
    }
  }

  lemma {:induction false} JudgeNew(past: seq<File>, j: nat, file: File)
    requires j <= |past| && !IsOld(past, file.name)
    requires forall i :: j <= i < |past| ==> past[i].digest != file.digest
    ensures Judge(past, j, file, false, false) == (false, NOTHING)
    decreases |past| - j
  {
    if j < |past| { JudgeNew(past, j + 1, file); }
  }

  /** One copy is reported and no more. */
  lemma {:induction false} JudgeCopied(past: seq<File>, j: nat, file: File)
    requires j <= |past| && !IsOld(past, file.name)
    ensures Judge(past, j, file, false, true).1 == NOTHING
    decreases |past| - j
  {
    if j < |past| { JudgeCopied(past, j + 1, file); }
  }

  lemma {:induction false} JudgeCopy(past: seq<File>, j: nat, file: File, k: nat)
    requires j <= k < |past| && !IsOld(past, file.name)
    requires past[k].digest == file.digest && forall i :: j <= i < k ==> past[i].digest != file.digest
    ensures Judge(past, j, file, false, false) == (true, Changes([], [], [Copy(past[k].name, file.name)]))
    decreases k - j
  {
    if j < k {
      JudgeCopy(past, j + 1, file, k);
    } else {
      JudgeCopied(past, j + 1, file);
      BothNothing(Changes([], [], [Copy(past[k].name, file.name)]));
    }
  }

  lemma {:induction false} JudgeOthers(past: seq<File>, j: nat, file: File, copied: bool)
    requires j <= |past| && forall i :: j <= i < |past| ==> past[i].name != file.name
    ensures Judge(past, j, file, true, copied) == (false, NOTHING)
    decreases |past| - j
  {
    if j < |past| { JudgeOthers(past, j + 1, file, copied); }
  }

  lemma {:induction false} JudgeKnown(past: seq<File>, j: nat, file: File, k: nat)
    requires j <= k < |past| && UniqueNames(past) && past[k].name == file.name
    ensures Judge(past, j, file, true, false) ==
              (true, if past[k].digest == file.digest then NOTHING else Changes([], [file.name], []))
    decreases k - j
  {
    if j < k {
      JudgeKnown(past, j + 1, file, k);
    } else {
      JudgeOthers(past, j + 1, file, false);
      BothNothing(Changes([], [file.name], []));
    }
  }

  /** With unique old names every file is in exactly one class, and the loop reports just that. */
  lemma {:induction false} ReportsItsClass(past: seq<File>, file: File, c: Class)
    requires UniqueNames(past) && InClass(past, file, c)
    ensures Report(past, file) == Shown(past, file, c)
    ensures forall d :: InClass(past, file, d) ==> d == c
  {
    forall d | InClass(past, file, d) ensures d == c { ClassUnique(past, file, c, d); }
    if IsOld(past, file.name) {
      var k :| 0 <= k < |past| && past[k].name == file.name;
      JudgeKnown(past, 0, file, k);
      assert file in past <==> past[k] == file;
    } else {
      if c.CopiedFrom? {
        JudgeCopy(past, 0, file, c.j);
      } else if c.New? {
        JudgeNew(past, 0, file);
        BothNothing(Changes([file.name], [], []));
      }
    }
  }

  // ---- The whole lists ----

  datatype Kind = IsNew | IsModified | IsCopied

  ghost predicate OfKind(past: seq<File>, file: File, kind: Kind) {
    match kind
    case IsNew => InClass(past, file, New)
    case IsModified => InClass(past, file, Modified)
    case IsCopied => exists j: nat :: InClass(past, file, CopiedFrom(j))
  }

  /** `at` are the positions of all files of a kind, in the order of the files. */
  ghost predicate Positions(past: seq<File>, files: seq<File>, kind: Kind, at: seq<nat>) {
    && (forall k, l :: 0 <= k < l < |at| ==> at[k] < at[l])
    && (forall k :: 0 <= k < |at| ==> at[k] < |files| && OfKind(past, files[at[k]], kind))
    && (forall i :: 0 <= i < |files| && OfKind(past, files[i], kind) ==> i in at)
  }

  /** The names of the files at these positions. */
  ghost predicate Named(names: seq<string>, files: seq<File>, at: seq<nat>) {
    && |names| == |at|
    && forall k :: 0 <= k < |at| ==> at[k] < |files| && names[k] == files[at[k]].name
  }

  /** Each copy goes to the file at the position, from the first old file with its digest. */
  ghost predicate Copied(copies: seq<Copy>, past: seq<File>, files: seq<File>, at: seq<nat>) {
    && |copies| == |at|
    && forall k :: 0 <= k < |at| ==>
         && at[k] < |files| && copies[k].target == files[at[k]].name
         && exists j: nat :: FirstWith(past, files[at[k]].digest, j) && copies[k].source == past[j].name
  }

  /** The three lists are complete and in the order of the files: every new file, every modified file, every copy. */
  ghost predicate ListsChanges(past: seq<File>, files: seq<File>, c: Changes) {
    && (exists at :: Positions(past, files, IsNew, at) && Named(c.added, files, at))
    && (exists at :: Positions(past, files, IsModified, at) && Named(c.modified, files, at))
    && (exists at :: Positions(past, files, IsCopied, at) && Copied(c.copied, past, files, at))
  }

  /** One more file: its position is added if it is of the kind. */
  lemma {:induction false} PositionsSnoc(past: seq<File>, files: seq<File>, kind: Kind, at: seq<nat>)
    requires files != [] && Positions(past, files[..|files| - 1], kind, at)
    ensures var n := |files| - 1; Positions(past, files, kind, if OfKind(past, files[n], kind) then at + [n] else at)
  {
    hide OfKind, Positions;
    if OfKind(past, files[|files| - 1], kind) {
      PositionsMore(past, files, kind, at);
    } else {
      PositionsSame(past, files, kind, at);
    }
  }

  lemma {:induction false} PositionsSame(past: seq<File>, files: seq<File>, kind: Kind, at: seq<nat>)
    requires files != [] && Positions(past, files[..|files| - 1], kind, at) && !OfKind(past, files[|files| - 1], kind)
    ensures Positions(past, files, kind, at)
  {
    hide OfKind;
    var front := files[..|files| - 1];
    forall k | 0 <= k < |at| ensures at[k] < |files| && OfKind(past, files[at[k]], kind) {
      assert front[at[k]] == files[at[k]];
    }
    forall i | 0 <= i < |files| && OfKind(past, files[i], kind) ensures i in at {
      assert front[i] == files[i];
    }
  }

  lemma {:induction false} PositionsMore(past: seq<File>, files: seq<File>, kind: Kind, at: seq<nat>)
    requires files != [] && Positions(past, files[..|files| - 1], kind, at) && OfKind(past, files[|files| - 1], kind)
    ensures Positions(past, files, kind, at + [|files| - 1])
  {
    hide OfKind;
    var n := |files| - 1;
    var front, more := files[..n], at + [n];
    assert n in more by { assert more[|at|] == n; }
    forall k | 0 <= k < |more| ensures more[k] < |files| && OfKind(past, files[more[k]], kind) {
      if k < |at| { assert front[at[k]] == files[at[k]]; }
    }
    forall i | 0 <= i < |files| && OfKind(past, files[i], kind) ensures i in more {
      if i < n {
        assert front[i] == files[i];
        assert i in at;
      }
    }
  }

  lemma {:induction false} KindOf(past: seq<File>, file: File, c: Class)
    requires UniqueNames(past) && InClass(past, file, c)
    ensures OfKind(past, file, IsNew) <==> c == New
    ensures OfKind(past, file, IsModified) <==> c == Modified
    ensures OfKind(past, file, IsCopied) <==> c.CopiedFrom?
  {
    hide InClass;
    ReportsItsClass(past, file, c);
  }

  /** With unique old names, what is reported of a list of files is complete, in order, and nothing else. */
  lemma {:induction false} ClassifyExact(past: seq<File>, files: seq<File>)
    requires UniqueNames(past)
    ensures ListsChanges(past, files, Classify(past, files))
  {
    hide InClass, UniqueNames, Report, OfKind;
    if files == [] {
      assert Positions(past, files, IsNew, []) && Positions(past, files, IsModified, []) && Positions(past, files, IsCopied, []);
      assert Named([], files, []) && Copied([], past, files, []);
    } else {
      var n := |files| - 1;
      ClassifyExact(past, files[..n]);
      ClassifyOneMore(past, files, Classify(past, files[..n]));
    }
  }

  lemma {:induction false} ClassifyOneMore(past: seq<File>, files: seq<File>, before: Changes)
    requires UniqueNames(past) && files != [] && ListsChanges(past, files[..|files| - 1], before)
    ensures ListsChanges(past, files, Both(before, Report(past, files[|files| - 1])))
  {
    hide Report, OfKind, Positions, Named, Copied, InClass;
    var n := |files| - 1;
    var front, file := files[..n], files[n];
    var c := ClassExists(past, file);
    ReportsItsClass(past, file, c);
    KindOf(past, file, c);
    var shown := Shown(past, file, c);
    var a :| Positions(past, front, IsNew, a) && Named(before.added, front, a);
    PositionsSnoc(past, files, IsNew, a);
    NamedSnoc(before.added, files, a, shown.added, c == New);
    var m :| Positions(past, front, IsModified, m) && Named(before.modified, front, m);
    PositionsSnoc(past, files, IsModified, m);
    NamedSnoc(before.modified, files, m, shown.modified, c == Modified);
    var k :| Positions(past, front, IsCopied, k) && Copied(before.copied, past, front, k);
    PositionsSnoc(past, files, IsCopied, k);
    CopiedSnoc(before.copied, past, files, k, c);
  }

  lemma {:induction false} NamedSnoc(names: seq<string>, files: seq<File>, at: seq<nat>, more: seq<string>, one: bool)
    requires files != [] && Named(names, files[..|files| - 1], at)
    requires more == if one then [files[|files| - 1].name] else []
    ensures Named(names + more, files, if one then at + [|files| - 1] else at)
  {
  }

  lemma {:induction false} CopiedSnoc(copies: seq<Copy>, past: seq<File>, files: seq<File>, at: seq<nat>, c: Class)
    requires files != [] && Copied(copies, past, files[..|files| - 1], at) && InClass(past, files[|files| - 1], c)
    ensures Copied(copies + Shown(past, files[|files| - 1], c).copied, past, files,
                   if c.CopiedFrom? then at + [|files| - 1] else at)
  {
    hide UniqueNames, IsOld;
    var n := |files| - 1;
    var more := copies + Shown(past, files[n], c).copied;
    var longer := if c.CopiedFrom? then at + [n] else at;
    forall k | 0 <= k < |longer|
      ensures longer[k] < |files| && more[k].target == files[longer[k]].name
      ensures exists j: nat :: FirstWith(past, files[longer[k]].digest, j) && more[k].source == past[j].name
    {
      if k < |at| {
        assert files[..n][at[k]] == files[at[k]];
      } else {
        assert FirstWith(past, files[n].digest, c.j) && more[k].source == past[c.j].name;
      }
    }
  }

  /** In an increasing sequence with an upper bound, the bound can only be the last element. */
  lemma LastIsGreatest(at: seq<nat>, n: nat)
    requires (forall k, l :: 0 <= k < l < |at| ==> at[k] < at[l]) && (forall k :: 0 <= k < |at| ==> at[k] <= n)
    ensures forall k :: 0 <= k < |at| - 1 ==> at[k] < n
    ensures n in at ==> at[|at| - 1] == n
  {
    forall k | 0 <= k < |at| - 1 ensures at[k] < n {
      assert at[k] < at[|at| - 1];
    }
  }

  lemma {:induction false} PositionsFront(past: seq<File>, files: seq<File>, kind: Kind, at: seq<nat>)
    requires files != [] && Positions(past, files, kind, at)
    ensures var n := |files| - 1;
            if OfKind(past, files[n], kind) then
              at != [] && at[|at| - 1] == n && Positions(past, files[..n], kind, at[..|at| - 1])
            else Positions(past, files[..n], kind, at)
  {
    hide OfKind;
    var n := |files| - 1;
    LastIsGreatest(at, n);
    if OfKind(past, files[n], kind) {
      assert n in at;
      forall i | 0 <= i < n && OfKind(past, files[..n][i], kind) ensures i in at[..|at| - 1] {
        assert files[..n][i] == files[i];
        var k :| 0 <= k < |at| && at[k] == i;
        assert at[..|at| - 1][k] == i;
      }
    } else {
      assert forall k :: 0 <= k < |at| ==> at[k] != n;
      assert forall i :: 0 <= i < n ==> files[..n][i] == files[i];
    }
  }

  lemma {:induction false} AtLeast(at: seq<nat>, k: nat)
    requires k < |at| && forall k, l :: 0 <= k < l < |at| ==> at[k] < at[l]
    ensures at[k] >= k
  {
    if k > 0 { AtLeast(at, k - 1); }
  }

  lemma {:induction false} PositionsFew(past: seq<File>, files: seq<File>, kind: Kind, at: seq<nat>)
    requires Positions(past, files, kind, at)
    ensures |at| <= |files|
  {
    hide OfKind;
    if at != [] { AtLeast(at, |at| - 1); }
  }

  lemma {:induction false} PositionsUnique(past: seq<File>, files: seq<File>, kind: Kind, at: seq<nat>, bt: seq<nat>)
    requires Positions(past, files, kind, at) && Positions(past, files, kind, bt)
    ensures at == bt
    decreases |files|
  {
    hide OfKind, Positions;
    if files == [] {
      PositionsFew(past, files, kind, at);
      PositionsFew(past, files, kind, bt);
    } else {
      var n := |files| - 1;
      PositionsFront(past, files, kind, at);
      PositionsFront(past, files, kind, bt);
      if OfKind(past, files[n], kind) {
        PositionsUnique(past, files[..n], kind, at[..|at| - 1], bt[..|bt| - 1]);
        assert at == at[..|at| - 1] + [n] && bt == bt[..|bt| - 1] + [n];
      } else {
        PositionsUnique(past, files[..n], kind, at, bt);
      }
    }
  }

  lemma {:induction false} CopiedUnique(a: seq<Copy>, b: seq<Copy>, past: seq<File>, files: seq<File>, at: seq<nat>)
    requires Copied(a, past, files, at) && Copied(b, past, files, at)
    ensures a == b
  {
    forall k | 0 <= k < |at| ensures a[k] == b[k] {
      var i: nat :| FirstWith(past, files[at[k]].digest, i) && a[k].source == past[i].name;
      var j: nat :| FirstWith(past, files[at[k]].digest, j) && b[k].source == past[j].name;
      assert i == j;
    }
  }

  /** This settles what is reported. */
  lemma {:induction false} ListsUnique(past: seq<File>, files: seq<File>, c: Changes, d: Changes)
    requires ListsChanges(past, files, c) && ListsChanges(past, files, d)
    ensures c == d
  {
    hide Positions, Copied;
    var a :| Positions(past, files, IsNew, a) && Named(c.added, files, a);
    var b :| Positions(past, files, IsNew, b) && Named(d.added, files, b);
    PositionsUnique(past, files, IsNew, a, b);
    assert c.added == d.added;
    var m :| Positions(past, files, IsModified, m) && Named(c.modified, files, m);
    var n :| Positions(past, files, IsModified, n) && Named(d.modified, files, n);
    PositionsUnique(past, files, IsModified, m, n);
    assert c.modified == d.modified;
    var k :| Positions(past, files, IsCopied, k) && Copied(c.copied, past, files, k);
    var l :| Positions(past, files, IsCopied, l) && Copied(d.copied, past, files, l);
    PositionsUnique(past, files, IsCopied, k, l);
    CopiedUnique(c.copied, d.copied, past, files, k);
  }

  /** Nothing is reported exactly when every file is unchanged. */
  lemma {:induction false} NothingExact(past: seq<File>, files: seq<File>)
    requires UniqueNames(past)
    ensures Classify(past, files) == NOTHING <==> forall i :: 0 <= i < |files| ==> files[i] in past
  {
    hide InClass, UniqueNames, Report;
    if files != [] {
      var n := |files| - 1;
      NothingExact(past, files[..n]);
      assert forall i :: 0 <= i < n ==> files[..n][i] == files[i];
      var c := ClassExists(past, files[n]);
      ReportsItsClass(past, files[n], c);
      UnchangedExact(past, files[n], c);
    }
  }

  lemma UnchangedExact(past: seq<File>, file: File, c: Class)
    requires InClass(past, file, c)
    ensures Shown(past, file, c) == NOTHING <==> c == Unchanged
    ensures c == Unchanged <==> file in past
  {
    if file in past {
      var j :| 0 <= j < |past| && past[j] == file;
      assert IsOld(past, file.name);
    }
  }
}
