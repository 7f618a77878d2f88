/** The classification loops of the version log. */
module LoserLoops {
  import opened Loser

  /** The loop that looks up which names are old. */
  method MarkOld(past: seq<File>, files: seq<File>) returns (isOld: seq<bool>)
    ensures |isOld| == |files|
    ensures forall i :: 0 <= i < |files| ==> isOld[i] == IsOld(past, files[i].name)
  {
    isOld := [];
    for i := 0 to |files|
      invariant |isOld| == i
      invariant forall k :: 0 <= k < i ==> isOld[k] == IsOld(past, files[k].name)
    {
      var found := false;
      var j := 0;
      while j < |past|
        invariant 0 <= j <= |past|
        invariant !found && forall k :: 0 <= k < j ==> past[k].name != files[i].name
      {
        if past[j].name == files[i].name {
          found := true;
          break;
        }
        j := j + 1;
      }
      isOld := isOld + [found];
    }
  }

  lemma {:induction false} BothAssoc(a: Changes, b: Changes, c: Changes)
    ensures Both(Both(a, b), c) == Both(a, Both(b, c))
  {
    assert (a.added + b.added) + c.added == a.added + (b.added + c.added);
    assert (a.modified + b.modified) + c.modified == a.modified + (b.modified + c.modified);
    assert (a.copied + b.copied) + c.copied == a.copied + (b.copied + c.copied);
  }

  /** The inner loop for one file. */
  method JudgeFile(past: seq<File>, file: File, isOld: bool) returns (judgedNew: bool, found: Changes)
    ensures Judge(past, 0, file, isOld, false) == (!judgedNew, found)
  {
    judgedNew, found := true, NOTHING;
    var judgedCopy := false;
    ghost var whole := Judge(past, 0, file, isOld, false);
    var j := 0;
    BothNothing(whole.1);
    while j < |past|
      invariant 0 <= j <= |past|
      invariant whole.0 == (!judgedNew || Judge(past, j, file, isOld, judgedCopy).0)
      invariant whole.1 == Both(found, Judge(past, j, file, isOld, judgedCopy).1)
    {
      var sameName, sameDigest := past[j].name == file.name, past[j].digest == file.digest;
      var more := NOTHING;
      ghost var rest := Judge(past, j + 1, file, isOld, judgedCopy || (!sameName && sameDigest && !isOld)).1;
      if sameName && sameDigest {
        judgedNew := false;
        break;
      } else if sameName && !sameDigest {
        judgedNew := false;
        more := Changes([], [past[j].name], []);
      } else if !sameName && sameDigest && !judgedCopy && !isOld {
        judgedNew, judgedCopy := false, true;
        more := Changes([], [], [Copy(past[j].name, file.name)]);
      }
      BothAssoc(found, more, rest);
      BothNothing(rest);
      found := Both(found, more);
      j := j + 1;
    }
    BothNothing(found);
  }

  /** The classification loops of `status` and `commit`. */
  method ClassifyFiles(past: seq<File>, files: seq<File>) returns (changes: Changes)
    ensures changes == Classify(past, files)
  {
    hide Judge, IsOld;
    var isOld := MarkOld(past, files);
    changes := NOTHING;
    for i := 0 to |files|
      invariant changes == Classify(past, files[..i])
    {
      assert files[..i + 1][..i] == files[..i];
      var judgedNew, found := JudgeFile(past, files[i], isOld[i]);
      if judgedNew {
        found := Both(found, Changes([files[i].name], [], []));
      }
      changes := Both(changes, found);
    }
    assert files[..|files|] == files;
  }
}
