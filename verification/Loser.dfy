/** The version log: classifying the files of a directory against the last commit, and a text log that is only appended
    to and read again by scanning backwards.  A file is its name and the digest of its contents. */
module Loser {
  datatype File = File(name: string, digest: string)

  datatype Copy = Copy(source: string, target: string)

  /** The three lists that `status` prints and `commit` records. */
  datatype Changes = Changes(added: seq<string>, modified: seq<string>, copied: seq<Copy>)

  const NOTHING: Changes := Changes([], [], [])

  function Both(a: Changes, b: Changes): Changes {
    Changes(a.added + b.added, a.modified + b.modified, a.copied + b.copied)
  }

  lemma {:induction false} BothNothing(c: Changes)
    ensures Both(c, NOTHING) == c && Both(NOTHING, c) == c
  {
  }

  // ---- Classification ----

  predicate IsOld(past: seq<File>, name: string) {
    exists j :: 0 <= j < |past| && past[j].name == name
  }

  /** The inner loop for one file, from the old file `j` on: whether the file has been accounted for, and what is
      reported.  `copied` says that a copy has been reported already. */
  function Judge(past: seq<File>, j: nat, file: File, isOld: bool, copied: bool): (bool, Changes)
    requires j <= |past|
    decreases |past| - j
  {
    if j == |past| then (false, NOTHING)
    else if past[j].name == file.name then
      if past[j].digest == file.digest then (true, NOTHING)
      else (true, Both(Changes([], [file.name], []), Judge(past, j + 1, file, isOld, copied).1))
    else if past[j].digest == file.digest && !copied && !isOld then
      (true, Both(Changes([], [], [Copy(past[j].name, file.name)]), Judge(past, j + 1, file, isOld, true).1))
    else Judge(past, j + 1, file, isOld, copied)
  }

  /** What is reported of one file. */
  function Report(past: seq<File>, file: File): Changes {
    var (known, changes) := Judge(past, 0, file, IsOld(past, file.name), false);
    if known then changes else Both(changes, Changes([file.name], [], []))
  }

  function Classify(past: seq<File>, files: seq<File>): Changes {
    if files == [] then NOTHING
    else Both(Classify(past, files[..|files| - 1]), Report(past, files[|files| - 1]))
  }
}
