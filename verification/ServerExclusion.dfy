/** One worker per connection: the runs of the dispatcher in which it holds, and why no others will do. */
module ServerExclusion {
  import opened Server

  // ---- One worker at a time, in runs without a second login and without early reuse ----

  predicate CleanWorkerStep(s: State, s': State, w: nat, o: Outcome) {
    WorkerStep(s, s', w, o) && (s.workers[w].Holding? ==> o != Login)
  }

  ghost predicate CleanAcceptStep(s: State, s': State, fd: nat, o: Outcome) {
    AcceptStep(s, s', fd, o) && (o.Login? ==> !HeldBySome(s, fd))
  }

  /** A step in which no worker handles a login (its connection is logged in already), and no new connection logs in on
      a descriptor that a worker still has. */
  ghost predicate CleanNext(s: State, s': State) {
    || (exists w: nat, o :: CleanWorkerStep(s, s', w, o))
    || CountStep(s, s')
    || (exists fd: nat, o :: CleanAcceptStep(s, s', fd, o))
    || (exists r :: SelectStep(s, s', r))
    || DispatchStep(s, s')
    || (exists o :: ScanStep(s, s', o))
  }

  ghost predicate IsCleanRun(workers: nat, run: seq<State>) {
    && run != [] && run[0] == Initial(workers)
    && forall k :: 0 <= k < |run| - 1 ==> CleanNext(run[k], run[k + 1])
  }

  /** The connection has an entry, is not flagged, and no worker has it. */
  ghost predicate Free(s: State, fd: nat) {
    fd in s.clients && !s.clients[fd] && !HeldBySome(s, fd)
  }

  /** The connections the main loop may still dispatch in this round. */
  ghost predicate Pending(main: Main, fd: nat) {
    match main
    case CountingFree(_, readset, _) => fd in readset
    case CountingBusy(_, readset, _) => fd in readset
    case Selecting(readset) => fd in readset
    case Dispatching(i, ready) => fd in ready && i <= fd
    case Scanning(i, ready, _) => fd in ready && i < fd
  }

  ghost predicate OneWorkerEach(s: State) {
    forall v: nat, w: nat, fd: nat :: Has(s, v, fd) && Has(s, w, fd) ==> v == w
  }

  /** While a worker has a connection, the connection is flagged or gone; before the message is handled, flagged; and
      it is not the one being scanned for. */
  ghost predicate HolderOk(s: State, w: nat, fd: nat) {
    Has(s, w, fd) ==>
      && (s.workers[w].Holding? ==> Flagged(s, fd))
      && (fd in s.clients ==> s.clients[fd])
      && !(s.main.Scanning? && s.main.fd == fd)
  }

  ghost predicate CleanInv(s: State) {
    && OneWorkerEach(s)
    && (forall w: nat, fd: nat :: HolderOk(s, w, fd))
    && (forall fd: nat :: Pending(s.main, fd) ==> Free(s, fd))
    && (s.main.Scanning? ==> Flagged(s, s.main.fd))
    && (forall fd: nat :: fd in s.clients ==> fd in s.open)
  }

  lemma NotHeld(s: State, fd: nat, w: nat)
    requires !HeldBySome(s, fd)
    ensures !Has(s, w, fd)
  {
  }

  lemma WorkerKeepsClean(s: State, s': State, w: nat, o: Outcome)
    requires CleanInv(s) && CleanWorkerStep(s, s', w, o)
    ensures CleanInv(s')
  {
    assert forall v: nat, fd: nat :: Has(s', v, fd) ==> Has(s, v, fd);
    forall v: nat, fd: nat ensures HolderOk(s', v, fd) {
      assert HolderOk(s, v, fd) && HolderOk(s, w, fd);
      if Has(s', v, fd) && v != w {
        assert !Has(s, w, fd);
      }
    }
    forall fd: nat | Pending(s'.main, fd) ensures Free(s', fd) {
      assert Free(s, fd);
      NotHeld(s, fd, w);
    }
    if s.main.Scanning? {
      assert HolderOk(s, w, s.main.fd);
    }
  }

  lemma CountKeepsClean(s: State, s': State)
    requires CleanInv(s) && CountStep(s, s')
    ensures CleanInv(s')
  {
    SameHolders(s, s');
    forall v: nat, fd: nat ensures HolderOk(s', v, fd) {
      assert HolderOk(s, v, fd);
    }
    forall fd: nat | Pending(s'.main, fd) ensures Free(s', fd) {
      if Pending(s.main, fd) {
        assert Free(s, fd);
      } else {
        assert fd in s.clients && !s.clients[fd];
        forall w: nat ensures !Has(s, w, fd) { assert HolderOk(s, w, fd); }
      }
    }
  }

  lemma SameHolders(s: State, s': State)
    requires s'.workers == s.workers
    ensures forall v: nat, fd: nat :: Has(s', v, fd) <==> Has(s, v, fd)
    ensures forall fd: nat :: HeldBySome(s', fd) <==> HeldBySome(s, fd)
  {
    forall fd: nat ensures HeldBySome(s', fd) <==> HeldBySome(s, fd) {
      if w :| Has(s', w, fd) { assert Has(s, w, fd); }
      if w :| Has(s, w, fd) { assert Has(s', w, fd); }
    }
  }

  lemma AcceptKeepsClean(s: State, s': State, fd: nat, o: Outcome)
    requires CleanInv(s) && CleanAcceptStep(s, s', fd, o)
    ensures CleanInv(s')
  {
    SameHolders(s, s');
    forall v: nat, f: nat ensures HolderOk(s', v, f) {
      assert HolderOk(s, v, f);
      if o.Login? { NotHeld(s, fd, v); }
    }
  }

  lemma SelectKeepsClean(s: State, s': State, r: set<nat>)
    requires CleanInv(s) && SelectStep(s, s', r)
    ensures CleanInv(s')
  {
    SameHolders(s, s');
    forall v: nat, f: nat ensures HolderOk(s', v, f) {
      assert HolderOk(s, v, f);
    }
    forall f: nat | Pending(s'.main, f) ensures Free(s', f) {
      assert Pending(s.main, f) && Free(s, f);
    }
  }

  lemma DispatchKeepsClean(s: State, s': State)
    requires CleanInv(s) && DispatchStep(s, s')
    ensures CleanInv(s')
  {
    SameHolders(s, s');
    forall v: nat, f: nat ensures HolderOk(s', v, f) {
      assert HolderOk(s, v, f);
      if s'.main.Scanning? {
        assert Pending(s.main, s.main.i) && Free(s, s.main.i);
        NotHeld(s, s.main.i, v);
      }
    }
    forall f: nat | Pending(s'.main, f) ensures Free(s', f) {
      assert Pending(s.main, f) && Free(s, f);
    }
  }

  lemma ScanKeepsClean(s: State, s': State, o: Outcome)
    requires CleanInv(s) && ScanStep(s, s', o)
    ensures CleanInv(s')
  {
    var fd := s.main.fd;
    assert forall v: nat, f: nat :: Has(s', v, f) ==> Has(s, v, f) || (v == s.main.w && f == fd);
    forall v: nat, f: nat ensures HolderOk(s', v, f) && HolderOk(s, v, f) {
      assert HolderOk(s, v, f);
    }
    forall v: nat, w: nat, f: nat | Has(s', v, f) && Has(s', w, f) ensures v == w {
      assert HolderOk(s, v, f) && HolderOk(s, w, f);
    }
    forall f: nat | Pending(s'.main, f) ensures Free(s', f) {
      assert Pending(s.main, f) && Free(s, f);
      forall v: nat ensures !Has(s', v, f) { NotHeld(s, f, v); }
    }
  }

  lemma InitialClean(workers: nat)
    ensures CleanInv(Initial(workers))
  {
    assert forall v: nat, f: nat :: !Has(Initial(workers), v, f);
  }

  lemma StepKeepsClean(s: State, s': State)
    requires CleanInv(s) && CleanNext(s, s')
    ensures CleanInv(s')
  {
    hide CleanInv, CleanWorkerStep, CountStep, CleanAcceptStep, SelectStep, DispatchStep, ScanStep, HeldBySome;
    if w: nat, o :| CleanWorkerStep(s, s', w, o) {
      WorkerKeepsClean(s, s', w, o);
    } else if CountStep(s, s') {
      CountKeepsClean(s, s');
    } else if fd: nat, o :| CleanAcceptStep(s, s', fd, o) {
      AcceptKeepsClean(s, s', fd, o);
    } else if r :| SelectStep(s, s', r) {
      SelectKeepsClean(s, s', r);
    } else if DispatchStep(s, s') {
      DispatchKeepsClean(s, s');
    } else {
      var o :| ScanStep(s, s', o);
      ScanKeepsClean(s, s', o);
    }
  }

  lemma {:induction false} RunKeepsClean(workers: nat, run: seq<State>, k: nat)
    requires IsCleanRun(workers, run) && k < |run|
    ensures CleanInv(run[k])
    decreases k
  {
    hide CleanInv, CleanNext;
    if k == 0 {
      InitialClean(workers);
    } else {
      RunKeepsClean(workers, run, k - 1);
      assert CleanNext(run[k - 1], run[k - 1 + 1]);
      StepKeepsClean(run[k - 1], run[k]);
    }
  }

  lemma SmallPool(s: State)
    requires |s.workers| <= 1
    ensures OneWorkerEach(s)
  {
  }

  /** In every clean run, and in every run of a pool of one, at most one worker has a connection at a time.  In clean
      runs the main loop, too, never has one that a worker has, and never meets a NULL entry when it raises or clears a
      flag. */
  lemma OneWorkerAtATime(workers: nat, run: seq<State>, k: nat)
    requires IsRun(workers, run) && k < |run| && (workers <= 1 || IsCleanRun(workers, run))
    ensures var s := run[k];
            && (forall v: nat, w: nat, fd: nat :: Has(s, v, fd) && Has(s, w, fd) ==> v == w)
            && (IsCleanRun(workers, run) && s.main.Dispatching? && s.main.i in s.main.ready ==>
                  s.main.i in s.clients && !s.clients[s.main.i] && !HeldBySome(s, s.main.i))
            && (IsCleanRun(workers, run) && s.main.Scanning? ==>
                  Flagged(s, s.main.fd) && !HeldBySome(s, s.main.fd))
  {
    hide Flagged, Has, IsRun;
    var s := run[k];
    if IsCleanRun(workers, run) {
      RunKeepsClean(workers, run, k);
      if s.main.Dispatching? && s.main.i in s.main.ready {
        assert Pending(s.main, s.main.i) && Free(s, s.main.i);
      }
      if s.main.Scanning? {
        forall w: nat ensures !Has(s, w, s.main.fd) { assert HolderOk(s, w, s.main.fd); }
      }
    } else {
      RunKeepsInv(workers, run, k);
      SmallPool(s);
    }
  }

  // ---- The descriptors a worker can have ----

  predicate InRange(fd: nat) {
    2 <= fd < MAX_FD
  }

  predicate AllInRange(fds: set<nat>) {
    forall fd :: fd in fds ==> InRange(fd)
  }

  /** The main loop only ever looks at the descriptors from 2 to MAX_FD - 1. */
  predicate MainInRange(main: Main) {
    match main
    case CountingFree(i, readset, _) => 2 <= i <= MAX_FD && AllInRange(readset)
    case CountingBusy(i, readset, _) => InRange(i) && AllInRange(readset)
    case Selecting(readset) => AllInRange(readset)
    case Dispatching(i, ready) => 2 <= i && AllInRange(ready)
    case Scanning(fd, ready, _) => InRange(fd) && AllInRange(ready)
  }

  ghost predicate RangeOk(s: State) {
    MainInRange(s.main) && forall w: nat, fd: nat :: Has(s, w, fd) ==> InRange(fd)
  }

  lemma WorkerKeepsRange(s: State, s': State, w: nat, o: Outcome)
    requires RangeOk(s) && WorkerStep(s, s', w, o)
    ensures RangeOk(s')
  {
    forall v: nat, fd: nat | Has(s', v, fd) ensures InRange(fd) {
      assert Has(s, v, fd);
    }
  }

  lemma MainKeepsRange(s: State, s': State, fd: nat, o: Outcome, r: set<nat>)
    requires RangeOk(s)
    requires CountStep(s, s') || AcceptStep(s, s', fd, o) || SelectStep(s, s', r) || DispatchStep(s, s') || ScanStep(s, s', o)
    ensures RangeOk(s')
  {
    forall w: nat, f: nat | Has(s', w, f) ensures InRange(f) {
      assert Has(s, w, f) || (s.main.Scanning? && f == s.main.fd);
    }
  }

  lemma StepKeepsRange(s: State, s': State)
    requires RangeOk(s) && Next(s, s')
    ensures RangeOk(s')
  {
    hide RangeOk, WorkerStep, CountStep, AcceptStep, SelectStep, DispatchStep, ScanStep;
    if w: nat, o :| WorkerStep(s, s', w, o) {
      WorkerKeepsRange(s, s', w, o);
    } else if CountStep(s, s') || DispatchStep(s, s') {
      MainKeepsRange(s, s', 0, Other, {});
    } else if fd: nat, o :| AcceptStep(s, s', fd, o) {
      MainKeepsRange(s, s', fd, o, {});
    } else if r :| SelectStep(s, s', r) {
      MainKeepsRange(s, s', 0, Other, r);
    } else {
      var o :| ScanStep(s, s', o);
      MainKeepsRange(s, s', 0, o, {});
    }
  }

  lemma CleanIsNext(s: State, s': State)
    requires CleanNext(s, s')
    ensures Next(s, s')
  {
    hide WorkerStep, CountStep, AcceptStep, SelectStep, DispatchStep, ScanStep;
  }

  lemma {:induction false} RunKeepsRange(workers: nat, run: seq<State>, k: nat)
    requires IsRun(workers, run) && k < |run|
    ensures RangeOk(run[k])
    decreases k
  {
    hide RangeOk, Next;
    if k == 0 {
      InitialInRange(workers);
    } else {
      RunKeepsRange(workers, run, k - 1);
      assert Next(run[k - 1], run[k - 1 + 1]);
      StepKeepsRange(run[k - 1], run[k]);
    }
  }

  lemma InitialInRange(workers: nat)
    ensures RangeOk(Initial(workers))
  {
  }

  // ---- Continuing a run with clean steps ----

  ghost predicate Path(path: seq<State>) {
    path != [] && forall k :: 0 <= k < |path| - 1 ==> CleanNext(path[k], path[k + 1])
  }

  ghost predicate CleanReach(s: State, t: State) {
    exists path :: Path(path) && path[0] == s && path[|path| - 1] == t
  }

  lemma ReachSelf(s: State)
    ensures CleanReach(s, s)
  {
    assert Path([s]) && [s][0] == s;
  }

  lemma ReachStep(s: State, t: State, u: State)
    requires CleanReach(s, t) && CleanNext(t, u)
    ensures CleanReach(s, u)
  {
    hide CleanNext;
    var path :| Path(path) && path[0] == s && path[|path| - 1] == t;
    var longer := path + [u];
    forall k | 0 <= k < |longer| - 1 ensures CleanNext(longer[k], longer[k + 1]) {
      if k < |path| - 1 { assert CleanNext(path[k], path[k + 1]); }
    }
    assert Path(longer) && longer[|longer| - 1] == u;
  }

  lemma {:induction false} PathKeepsClean(path: seq<State>, k: nat)
    requires Path(path) && CleanInv(path[0]) && k < |path|
    ensures CleanInv(path[k])
    decreases k
  {
    hide CleanInv, CleanNext;
    if k > 0 {
      PathKeepsClean(path, k - 1);
      assert CleanNext(path[k - 1], path[k - 1 + 1]);
      StepKeepsClean(path[k - 1], path[k]);
    }
  }

  lemma ReachKeepsClean(s: State, t: State)
    requires CleanReach(s, t) && CleanInv(s)
    ensures CleanInv(t)
  {
    hide CleanInv;
    var path :| Path(path) && path[0] == s && path[|path| - 1] == t;
    PathKeepsClean(path, |path| - 1);
  }

  // ---- One connection, held by worker `v` and yet unflagged ----

  /** Worker `v` has the connection, which has an entry, and the flag that keeps the main loop away is down. */
  predicate Exposed(s: State, v: nat, fd: nat) {
    Has(s, v, fd) && InRange(fd) && fd in s.clients && !s.clients[fd]
  }

  /** The main loop can finish its round without touching the connection. */
  predicate CanFinish(s: State, fd: nat) {
    match s.main
    case Dispatching(i, ready) => forall f :: f in ready && i <= f ==> f in s.clients && f != fd
    case Scanning(f, ready, _) =>
      f in s.clients && f != fd && f < MAX_FD && forall g :: g in ready && f < g ==> g in s.clients && g != fd
    case _ => true
  }

  /** What the continuations below are made of: `t` can be reached from `s0`, and worker `v` is exposed in it. */
  ghost predicate At(s0: State, t: State, v: nat, fd: nat) {
    CleanReach(s0, t) && Exposed(t, v, fd) && CanFinish(t, fd)
  }

  /** The loop over the descriptors, up to `select`: every unflagged connection it has yet to come to is in the read
      set. */
  lemma {:induction false} CountOut(s0: State, s: State) returns (t: State)
    requires CleanReach(s0, s) && s.main.CountingFree? && s.main.i <= MAX_FD
    ensures CleanReach(s0, t) && t.main.Selecting? && t == s.(main := t.main, active := t.active)
    ensures s.main.readset <= t.main.readset
    ensures forall fd :: s.main.i <= fd < MAX_FD && fd in s.clients && !s.clients[fd] ==> fd in t.main.readset
    decreases MAX_FD - s.main.i
  {
    hide CleanReach;
    var CountingFree(i, readset, count) := s.main;
    if i >= MAX_FD {
      t := s.(main := Selecting(readset), active := count);
      assert CountStep(s, t);
      ReachStep(s0, s, t);
    } else {
      var b := s.(main := CountingBusy(i, if i in s.clients && !s.clients[i] then readset + {i} else readset, count));
      var c := s.(main := CountingFree(i + 1, b.main.readset, if Flagged(s, i) then count + 1 else count));
      assert CountStep(s, b) && CountStep(b, c);
      ReachStep(s0, s, b);
      ReachStep(s0, b, c);
      t := CountOut(s0, c);
    }
  }

  /** From the middle of a count, too. */
  lemma CountOn(s0: State, s: State) returns (t: State)
    requires CleanReach(s0, s) && MainInRange(s.main) && (s.main.CountingFree? || s.main.CountingBusy?)
    ensures CleanReach(s0, t) && t.main.Selecting? && t == s.(main := t.main, active := t.active)
  {
    hide CleanReach;
    if s.main.CountingFree? {
      t := CountOut(s0, s);
    } else {
      var CountingBusy(i, readset, count) := s.main;
      var c := s.(main := CountingFree(i + 1, readset, if Flagged(s, i) then count + 1 else count));
      assert CountStep(s, c);
      ReachStep(s0, s, c);
      t := CountOut(s0, c);
    }
  }

  /** The descriptors the round of dispatching has yet to come to, and the workers it has yet to ask. */
  function DescriptorsLeft(main: Main): nat {
    match main
    case Dispatching(i, _) => if i < MAX_FD then MAX_FD - i else 0
    case Scanning(fd, _, _) => if fd < MAX_FD then MAX_FD - fd else 0
    case _ => 0
  }

  function WorkersLeft(s: State): nat {
    match s.main
    case Scanning(_, _, w) => if w < |s.workers| then |s.workers| - w else 0
    case _ => |s.workers| + 1
  }

  predicate CloserToEnd(t: State, s: State) {
    || DescriptorsLeft(t.main) < DescriptorsLeft(s.main)
    || (DescriptorsLeft(t.main) == DescriptorsLeft(s.main) && WorkersLeft(t) < WorkersLeft(s))
  }

  /** One step of the round of dispatching; a connection that nobody can take is answered by the main loop. */
  lemma RoundStep(s0: State, s: State, v: nat, fd: nat) returns (t: State)
    requires At(s0, s, v, fd) && (s.main.Dispatching? || s.main.Scanning?)
    ensures At(s0, t, v, fd) && |t.workers| == |s.workers|
    ensures t.main == CountingFree(2, {}, 0) || ((t.main.Dispatching? || t.main.Scanning?) && CloserToEnd(t, s))
  {
    hide CleanReach;
    if s.main.Dispatching? {
      var Dispatching(i, ready) := s.main;
      t := if i >= MAX_FD then s.(main := CountingFree(2, {}, 0))
           else if i in ready then s.(clients := s.clients[i := true], main := Scanning(i, ready, 0))
           else s.(main := Dispatching(i + 1, ready));
      assert DispatchStep(s, t);
    } else {
      var Scanning(f, ready, w) := s.main;
      t := if w < |s.workers| then
             if s.workers[w].Idle? then s.(workers := s.workers[w := Holding(f)], main := Dispatching(f + 1, ready))
             else s.(main := Scanning(f, ready, w + 1))
           else s.(clients := s.clients[f := false], main := Dispatching(f + 1, ready));
      assert ScanStep(s, t, Other);
    }
    ReachStep(s0, s, t);
  }

  lemma {:induction false} RoundOut(s0: State, s: State, v: nat, fd: nat) returns (t: State)
    requires At(s0, s, v, fd) && (s.main.Dispatching? || s.main.Scanning?)
    ensures At(s0, t, v, fd) && |t.workers| == |s.workers| && t.main == CountingFree(2, {}, 0)
    decreases DescriptorsLeft(s.main), WorkersLeft(s)
  {
    hide At, DescriptorsLeft, WorkersLeft;
    t := RoundStep(s0, s, v, fd);
    if t.main != CountingFree(2, {}, 0) {
      t := RoundOut(s0, t, v, fd);
    }
  }

  /** The main loop can always get back to the start of a count. */
  lemma NextRound(s0: State, s: State, v: nat, fd: nat) returns (t: State)
    requires At(s0, s, v, fd) && MainInRange(s.main)
    ensures At(s0, t, v, fd) && |t.workers| == |s.workers| && t.main == CountingFree(2, {}, 0)
  {
    hide CleanReach;
    t := s;
    if t.main.CountingFree? || t.main.CountingBusy? {
      t := CountOn(s0, t);
    }
    if t.main.Selecting? {
      var u := t.(main := Dispatching(2, {}));
      assert SelectStep(t, u, {});
      ReachStep(s0, t, u);
      t := u;
    }
    t := RoundOut(s0, t, v, fd);
  }

  /** The round in which the main loop finds just this connection readable, up to the search for a worker. */
  lemma {:induction false} DispatchUp(s0: State, s: State, fd: nat)
    requires CleanReach(s0, s) && InRange(fd) && fd in s.clients
    requires s.main.Dispatching? && s.main.ready == {fd} && s.main.i <= fd
    ensures CleanReach(s0, s.(clients := s.clients[fd := true], main := Scanning(fd, {fd}, 0)))
    decreases fd - s.main.i
  {
    hide CleanReach;
    var t := if s.main.i == fd then s.(clients := s.clients[fd := true], main := Scanning(fd, {fd}, 0))
             else s.(main := Dispatching(s.main.i + 1, {fd}));
    assert DispatchStep(s, t);
    ReachStep(s0, s, t);
    if s.main.i < fd {
      DispatchUp(s0, t, fd);
      assert t.(clients := t.clients[fd := true], main := Scanning(fd, {fd}, 0)) ==
             s.(clients := s.clients[fd := true], main := Scanning(fd, {fd}, 0));
    }
  }

  /** A whole round, from the start of a count: the unflagged connection is found readable and flagged. */
  lemma FlagAgain(s0: State, s: State, fd: nat) returns (t: State)
    requires CleanReach(s0, s) && s.main == CountingFree(2, {}, 0)
    requires InRange(fd) && fd in s.clients && !s.clients[fd]
    ensures CleanReach(s0, t) && t == s.(clients := s.clients[fd := true], main := Scanning(fd, {fd}, 0), active := t.active)
  {
    hide CleanReach;
    var a := CountOut(s0, s);
    var b := a.(main := Dispatching(2, {fd}));
    assert SelectStep(a, b, {fd});
    ReachStep(s0, a, b);
    DispatchUp(s0, b, fd);
    t := b.(clients := b.clients[fd := true], main := Scanning(fd, {fd}, 0));
  }

  /** A worker that does not have the connection can become idle, and the main loop does not notice. */
  lemma {:induction false} BecomeIdle(s0: State, s: State, u: nat, fd: nat) returns (t: State)
    requires CleanReach(s0, s) && u < |s.workers| && !Has(s, u, fd)
    ensures CleanReach(s0, t) && t == s.(clients := t.clients, workers := s.workers[u := Idle])
    ensures t.clients.Keys == s.clients.Keys && (Flagged(s, fd) ==> Flagged(t, fd))
    decreases match s.workers[u] case Holding(_) => 3 case Handled(_) => 2 case Idle => 0 case _ => 1
  {
    hide CleanReach;
    if s.workers[u].Idle? {
      assert s.workers[u := Idle] == s.workers;
      t := s;
    } else {
      var x := s.workers[u];
      t := match x
           case Starting => s.(workers := s.workers[u := Idle])
           case Holding(g) => s.(workers := s.workers[u := Handled(g)])
           case Handled(g) =>
             s.(clients := if g in s.clients then s.clients[g := false] else s.clients, workers := s.workers[u := Returning(g)])
           case Returning(_) => s.(workers := s.workers[u := Idle])
           case Idle => s;
      assert CleanWorkerStep(s, t, u, Other);
      ReachStep(s0, s, t);
      t := BecomeIdle(s0, t, u, fd);
    }
  }

  /** The search for a worker gives the connection to the first idle one, which is not the one that has it. */
  lemma {:induction false} ScanFinds(s0: State, s: State, v: nat, u: nat, fd: nat) returns (t: State, w: nat)
    requires CleanReach(s0, s) && Has(s, v, fd) && u < |s.workers| && s.workers[u].Idle?
    requires s.main.Scanning? && s.main.fd == fd && s.main.w <= u
    ensures CleanReach(s0, t) && Has(t, v, fd) && Has(t, w, fd) && v != w
    decreases u - s.main.w
  {
    hide CleanReach;
    var Scanning(_, ready, x) := s.main;
    if s.workers[x].Idle? {
      t, w := s.(workers := s.workers[x := Holding(fd)], main := Dispatching(fd + 1, ready)), x;
      assert ScanStep(s, t, Other);
      ReachStep(s0, s, t);
    } else {
      var a := s.(main := Scanning(fd, ready, x + 1));
      assert ScanStep(s, a, Other);
      ReachStep(s0, s, a);
      t, w := ScanFinds(s0, a, v, u, fd);
    }
  }

  /** Once a connection that a worker has is unflagged, clean steps alone lead to a second worker having it. */
  lemma ExposedIsShared(s: State, v: nat, fd: nat)
    requires Exposed(s, v, fd) && CanFinish(s, fd) && MainInRange(s.main) && |s.workers| >= 2
    ensures exists t :: CleanReach(s, t) && !OneWorkerEach(t)
  {
    hide CleanReach;
    ReachSelf(s);
    var a := NextRound(s, s, v, fd);
    var b := FlagAgain(s, a, fd);
    var u := if v == 0 then 1 else 0;
    assert Has(b, v, fd);
    if Has(b, u, fd) {
      assert !OneWorkerEach(b);
    } else {
      var c := BecomeIdle(s, b, u, fd);
      assert Has(c, v, fd);
      var t, w := ScanFinds(s, c, v, u, fd);
      assert !OneWorkerEach(t);
    }
  }

  // ---- The exact condition ----

  lemma LoginExposes(s: State, s': State, w: nat)
    requires CleanInv(s) && RangeOk(s) && WorkerStep(s, s', w, Login) && s.workers[w].Holding?
    ensures Exposed(s', w, s.workers[w].fd) && CanFinish(s', s.workers[w].fd)
  {
    var fd := s.workers[w].fd;
    assert Has(s, w, fd) && HolderOk(s, w, fd);
    forall f: nat | Pending(s.main, f) ensures f in s'.clients && f != fd {
      assert Free(s, f);
      NotHeld(s, f, w);
    }
  }

  lemma AcceptExposes(s: State, s': State, fd: nat, v: nat)
    requires CleanInv(s) && RangeOk(s) && AcceptStep(s, s', fd, Login) && Has(s, v, fd)
    ensures Exposed(s', v, fd) && CanFinish(s', fd)
  {
  }

  lemma UncleanLogin(s: State, s': State, w: nat, o: Outcome) returns (fd: nat)
    requires WorkerStep(s, s', w, o) && !CleanWorkerStep(s, s', w, o)
    ensures s.workers[w] == Holding(fd) && o == Login
  {
    fd := s.workers[w].fd;
  }

  /** A step of a clean run that is not clean itself leaves some connection unflagged while a worker has it. */
  lemma UncleanExposes(s: State, s': State) returns (v: nat, fd: nat)
    requires CleanInv(s) && RangeOk(s) && Next(s, s') && !CleanNext(s, s')
    ensures Exposed(s', v, fd) && CanFinish(s', fd)
  {
    hide CleanInv, RangeOk, WorkerStep, CountStep, AcceptStep, SelectStep, DispatchStep, ScanStep, Exposed, CanFinish;
    if w: nat, o :| WorkerStep(s, s', w, o) {
      assert !CleanWorkerStep(s, s', w, o);
      v := w;
      fd := UncleanLogin(s, s', w, o);
      LoginExposes(s, s', w);
    } else {
      var f: nat, o :| AcceptStep(s, s', f, o);
      assert !CleanAcceptStep(s, s', f, o);
      assert HeldBySome(s, f);
      v :| Has(s, v, f);
      fd := f;
      AcceptExposes(s, s', f, v);
    }
  }

  lemma {:induction false} PathKeepsPool(path: seq<State>, k: nat)
    requires Path(path) && k < |path|
    ensures |path[k].workers| == |path[0].workers|
    decreases k
  {
    hide CleanNext;
    if k > 0 {
      PathKeepsPool(path, k - 1);
      assert CleanNext(path[k - 1], path[k - 1 + 1]);
      CleanIsNext(path[k - 1], path[k]);
      SamePool(path[k - 1], path[k]);
    }
  }

  /** After a clean run and one more step: clean steps alone cannot lead to two workers with one connection if and only
      if that step was clean, or there are no two workers. */
  lemma {:induction false} StepExact(workers: nat, run: seq<State>, s': State)
    requires IsCleanRun(workers, run) && Next(run[|run| - 1], s')
    ensures (workers <= 1 || CleanNext(run[|run| - 1], s')) <==> forall t :: CleanReach(s', t) ==> OneWorkerEach(t)
  {
    hide OneWorkerEach, CleanReach, CleanNext, Next, CleanInv, RangeOk;
    var s := run[|run| - 1];
    RunKeepsClean(workers, run, |run| - 1);
    CleanRunIsRun(workers, run);
    RunKeepsInv(workers, run, |run| - 1);
    SamePool(s, s');
    if workers <= 1 {
      forall t | CleanReach(s', t) ensures OneWorkerEach(t) {
        ReachKeepsPool(s', t);
        SmallPool(t);
      }
    } else if CleanNext(s, s') {
      StepKeepsClean(s, s');
      forall t | CleanReach(s', t) ensures OneWorkerEach(t) {
        ReachKeepsClean(s', t);
        CleanIsExclusive(t);
      }
    } else {
      RunKeepsRange(workers, run, |run| - 1);
      StepKeepsRange(s, s');
      RangeOfMain(s');
      var v, fd := UncleanExposes(s, s');
      ExposedIsShared(s', v, fd);
    }
  }

  lemma RangeOfMain(s: State)
    requires RangeOk(s)
    ensures MainInRange(s.main)
  {
  }

  lemma CleanIsExclusive(s: State)
    requires CleanInv(s)
    ensures OneWorkerEach(s)
  {
  }

  lemma ReachKeepsPool(s: State, t: State)
    requires CleanReach(s, t)
    ensures |t.workers| == |s.workers|
  {
    hide CleanNext;
    var path :| Path(path) && path[0] == s && path[|path| - 1] == t;
    PathKeepsPool(path, |path| - 1);
  }

  lemma {:induction false} CleanRunIsRun(workers: nat, run: seq<State>)
    requires IsCleanRun(workers, run)
    ensures IsRun(workers, run)
  {
    hide CleanNext, Next;
    forall k | 0 <= k < |run| - 1 ensures Next(run[k], run[k + 1]) {
      assert CleanNext(run[k], run[k + 1]);
      CleanIsNext(run[k], run[k + 1]);
    }
  }

  /** At no point of the run can clean steps alone lead to two workers with one connection. */
  ghost predicate StaysExclusive(run: seq<State>) {
    forall k, t :: 0 <= k < |run| && CleanReach(run[k], t) ==> OneWorkerEach(t)
  }

  /** Of all runs with two workers or more, exactly the clean ones stay exclusive; with fewer workers all do. */
  lemma {:induction false} RunExact(workers: nat, run: seq<State>)
    requires IsRun(workers, run)
    ensures StaysExclusive(run) <==> workers <= 1 || IsCleanRun(workers, run)
    decreases |run|
  {
    hide OneWorkerEach, CleanReach, CleanNext, Next, CleanInv;
    assert run[..|run|] == run;
    if workers <= 1 {
      forall k, t | 0 <= k < |run| && CleanReach(run[k], t) ensures OneWorkerEach(t) {
        RunKeepsInv(workers, run, k);
        ReachKeepsPool(run[k], t);
        SmallPool(t);
      }
    } else if IsCleanRun(workers, run) {
      forall k, t | 0 <= k < |run| && CleanReach(run[k], t) ensures OneWorkerEach(t) {
        RunKeepsClean(workers, run, k);
        ReachKeepsClean(run[k], t);
        CleanIsExclusive(t);
      }
    } else if StaysExclusive(run) {
      StayingIsClean(workers, run, |run|);
    }
  }

  lemma {:induction false} StayingIsClean(workers: nat, run: seq<State>, k: nat)
    requires IsRun(workers, run) && workers >= 2 && StaysExclusive(run) && 0 < k <= |run|
    ensures IsCleanRun(workers, run[..k])
    decreases k
  {
    hide OneWorkerEach, CleanReach, CleanNext, Next;
    if k > 1 {
      StayingIsClean(workers, run, k - 1);
      var part := run[..k - 1];
      assert Next(run[k - 2], run[k - 2 + 1]);
      StepExact(workers, part, run[k - 1]);
      forall j | 0 <= j < k - 1 ensures CleanNext(run[..k][j], run[..k][j + 1]) {
        if j < k - 2 { assert CleanNext(part[j], part[j + 1]); }
      }
    }
  }

  /** So a step that is not clean can always be followed up to a state in which two workers have one connection. */
  lemma {:induction false} UncleanShares(workers: nat, run: seq<State>, s': State)
    requires IsCleanRun(workers, run) && workers >= 2
    requires Next(run[|run| - 1], s') && !CleanNext(run[|run| - 1], s')
    ensures exists longer :: IsRun(workers, longer) && run + [s'] <= longer && !OneWorkerEach(longer[|longer| - 1])
  {
    hide OneWorkerEach, CleanNext, Next;
    StepExact(workers, run, s');
    var t :| CleanReach(s', t) && !OneWorkerEach(t);
    var path :| Path(path) && path[0] == s' && path[|path| - 1] == t;
    var longer := run + path;
    CleanRunIsRun(workers, run);
    forall k | 0 <= k < |longer| - 1 ensures Next(longer[k], longer[k + 1]) {
      if k < |run| - 1 {
        assert Next(run[k], run[k + 1]);
      } else if k > |run| - 1 {
        var j := k - |run|;
        assert CleanNext(path[j], path[j + 1]);
        CleanIsNext(path[j], path[j + 1]);
      }
    }
    assert IsRun(workers, longer) && run + [s'] <= longer && longer[|longer| - 1] == t;
  }

  // ---- Both kinds of step occur ----

  /** The highest descriptor; the only one the two runs below use. */
  const TOP: nat := MAX_FD - 1

  /** A new connection logs in, and the first of two workers is given its next message. */
  lemma FirstMessage() returns (s: State)
    ensures CleanReach(Initial(2), s) && s.workers == [Holding(TOP), Idle] && s.main == CountingFree(2, {}, 0)
    ensures s.clients == map[TOP := true] && s.open == {TOP}
  {
    hide CleanReach;
    var s0 := Initial(2);
    ReachSelf(s0);
    s := BecomeIdle(s0, s0, 0, TOP);
    s := BecomeIdle(s0, s, 1, TOP);
    assert s == s0.(workers := [Idle, Idle]);
    s := LoggedIn(s0, s);
    s := FlagAgain(s0, s, TOP);
    var a := s.(workers := [Holding(TOP), Idle], main := Dispatching(MAX_FD, {TOP}));
    var b := a.(main := CountingFree(2, {}, 0));
    assert ScanStep(s, a, Other) && DispatchStep(a, b);
    ReachStep(s0, s, a);
    ReachStep(s0, a, b);
    s := b;
  }

  /** A new connection logs in; the main loop handles that message itself. */
  lemma LoggedIn(s0: State, s: State) returns (t: State)
    requires CleanReach(s0, s) && s.main == CountingFree(2, {}, 0)
    requires s.clients == map[] && s.open == {} && !HeldBySome(s, TOP)
    ensures CleanReach(s0, t) && t == s.(clients := map[TOP := false], open := {TOP}, active := t.active)
  {
    hide CleanReach;
    var a := CountOut(s0, s);
    t := a.(clients := map[TOP := false], open := {TOP}, main := CountingFree(2, {}, 0));
    SameHolders(s, a);
    assert CleanAcceptStep(a, t, TOP, Login);
    ReachStep(s0, a, t);
  }

  lemma ReachIsRun(workers: nat, s: State) returns (run: seq<State>)
    requires CleanReach(Initial(workers), s)
    ensures IsCleanRun(workers, run) && run[|run| - 1] == s
  {
    run :| Path(run) && run[0] == Initial(workers) && run[|run| - 1] == s;
  }

  /** A login that a worker handles replaces the entry and with it the flag: two workers end up with one connection. */
  lemma SecondLoginSharesConnection()
    ensures exists run :: IsRun(2, run) && !OneWorkerEach(run[|run| - 1])
  {
    hide OneWorkerEach, CleanReach, IsRun;
    var s := FirstMessage();
    var t := s.(clients := map[TOP := false], workers := [Handled(TOP), Idle]);
    assert WorkerStep(s, t, 0, Login);
    NotCleanByLogin(s, t);
    var run := ReachIsRun(2, s);
    UncleanShares(2, run, t);
  }

  lemma NotCleanByLogin(s: State, t: State)
    requires s.main.CountingFree? && s.workers == [Holding(TOP), Idle] && s.clients == map[TOP := true]
    requires t == s.(clients := map[TOP := false], workers := [Handled(TOP), Idle])
    ensures !CleanNext(s, t)
  {
    assert TOP in t.clients && s.clients[TOP] != t.clients[TOP];
  }

  /** The first worker closes the connection, and a new one that logs in gets the descriptor before that worker has
      returned: the same. */
  lemma EarlyReuseSharesConnection()
    ensures exists run :: IsRun(2, run) && !OneWorkerEach(run[|run| - 1])
  {
    hide OneWorkerEach, CleanReach, IsRun;
    var s := FirstMessage();
    var a := s.(clients := map[], open := {}, workers := [Handled(TOP), Idle]);
    assert CleanWorkerStep(s, a, 0, Logout);
    ReachStep(Initial(2), s, a);
    var b := CountOut(Initial(2), a);
    var t := b.(clients := map[TOP := false], open := {TOP}, main := CountingFree(2, {}, 0));
    assert AcceptStep(b, t, TOP, Login);
    assert Has(b, 0, TOP);
    NotCleanByAccept(b, t);
    var run := ReachIsRun(2, b);
    UncleanShares(2, run, t);
  }

  lemma NotCleanByAccept(s: State, t: State)
    requires s.main.Selecting? && s.clients == map[] && Has(s, 0, TOP)
    requires t == s.(clients := map[TOP := false], open := {TOP}, main := CountingFree(2, {}, 0))
    ensures !CleanNext(s, t)
  {
    assert HeldBySome(s, TOP) && TOP in t.clients;
    forall fd: nat, o ensures !CleanAcceptStep(s, t, fd, o) {
      if AcceptStep(s, t, fd, o) {
        assert TOP in AfterHandling(s.(open := s.open + {fd}), fd, o).clients;
        assert o.Login? && fd == TOP;
      }
    }
    forall w: nat, o ensures !CleanWorkerStep(s, t, w, o) {
      assert t.main != s.main;
    }
  }
}
