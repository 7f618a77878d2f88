/** The connection dispatcher: the main loop counts and dispatches, pool workers handle one message each, and a flag
    per connection keeps the main loop away while a worker has it.  Threads interleave freely. */
module Server {

  const MAX_FD: nat := 1024

  /** A pool worker, from the moment it is given a connection.  Holding: about to handle a message.  Handled: about to
      clear the flag.  Returning: about to become idle. */
  datatype Worker = Starting | Idle | Holding(fd: nat) | Handled(fd: nat) | Returning(fd: nat)

  /** What handling one message does to the connection's entry. */
  datatype Outcome = Login | Logout | Other

  /** Where the main loop is. */
  datatype Main =
    | CountingFree(i: nat, readset: set<nat>, count: nat)    // reads the flag of i for the read set
    | CountingBusy(i: nat, readset: set<nat>, count: nat)    // reads it again for the count
    | Selecting(readset: set<nat>)
    | Dispatching(i: nat, ready: set<nat>)
    | Scanning(fd: nat, ready: set<nat>, w: nat)             // run_task looks for an idle worker

  /** `clients` holds the flag of every connection with an entry; `open` are the descriptors in use. */
  datatype State = State(clients: map<nat, bool>, open: set<nat>, workers: seq<Worker>, main: Main, active: nat)

  function Initial(workers: nat): State {
    State(map[], {}, seq(workers, _ => Starting), CountingFree(2, {}, 0), 0)
  }

  predicate Flagged(s: State, fd: nat) {
    fd in s.clients && s.clients[fd]
  }

  /** `handle_request` on a connection: a login makes a fresh entry, a closed connection loses its entry. */
  function AfterHandling(s: State, fd: nat, outcome: Outcome): State {
    match outcome
    case Login => s.(clients := s.clients[fd := false])
    case Logout => s.(clients := s.clients - {fd}, open := s.open - {fd})
    case Other => s
  }

  // ---- Steps ----

  /** `server_thread_func` on worker `w`. */
  predicate WorkerStep(s: State, s': State, w: nat, outcome: Outcome) {
    && w < |s.workers|
    && match s.workers[w]
       case Starting => s' == s.(workers := s.workers[w := Idle])
       case Idle => false
       case Holding(fd) => s' == AfterHandling(s, fd, outcome).(workers := s.workers[w := Handled(fd)])
       case Handled(fd) =>
         s' == s.(clients := if fd in s.clients then s.clients[fd := false] else s.clients,
                  workers := s.workers[w := Returning(fd)])
       case Returning(fd) => s' == s.(workers := s.workers[w := Idle])
  }

  /** The loop over the descriptors: the read set, then the count. */
  predicate CountStep(s: State, s': State) {
    match s.main
    case CountingFree(i, readset, count) =>
      if i >= MAX_FD then
        s' == s.(main := Selecting(readset), active := count)
      else
        s' == s.(main := CountingBusy(i, if i in s.clients && !s.clients[i] then readset + {i} else readset, count))
    case CountingBusy(i, readset, count) =>
      s' == s.(main := CountingFree(i + 1, readset, if Flagged(s, i) then count + 1 else count))
    case _ => false
  }

  /** A new connection on a free descriptor, whose first message the main loop handles itself. */
  predicate AcceptStep(s: State, s': State, fd: nat, outcome: Outcome) {
    && s.main.Selecting? && fd !in s.open
    && s' == AfterHandling(s.(open := s.open + {fd}), fd, outcome).(main := CountingFree(2, {}, 0))
  }

  /** `select` reports some of the read set; none on a timeout. */
  predicate SelectStep(s: State, s': State, ready: set<nat>) {
    s.main.Selecting? && ready <= s.main.readset && s' == s.(main := Dispatching(2, ready))
  }

  /** `choose_thread`: the flag is set first; a NULL entry would end the run here. */
  predicate DispatchStep(s: State, s': State) {
    && s.main.Dispatching?
    && var i, ready := s.main.i, s.main.ready;
       if i >= MAX_FD then
         s' == s.(main := CountingFree(2, {}, 0))
       else if i in ready then
         i in s.clients && s' == s.(clients := s.clients[i := true], main := Scanning(i, ready, 0))
       else
         s' == s.(main := Dispatching(i + 1, ready))
  }

  /** `run_task`, one worker at a time; when none is idle the flag is cleared again, and the message is answered or the
      connection closed by the main loop. */
  predicate ScanStep(s: State, s': State, outcome: Outcome) {
    && s.main.Scanning?
    && var fd, ready, w := s.main.fd, s.main.ready, s.main.w;
       if w < |s.workers| then
         if s.workers[w].Idle? then
           s' == s.(workers := s.workers[w := Holding(fd)], main := Dispatching(fd + 1, ready))
         else
           s' == s.(main := Scanning(fd, ready, w + 1))
       else
         && fd in s.clients && !outcome.Login?
         && s' == AfterHandling(s.(clients := s.clients[fd := false]), fd, outcome).(main := Dispatching(fd + 1, ready))
  }

  ghost predicate Next(s: State, s': State) {
    || (exists w, o :: WorkerStep(s, s', w, o))
    || CountStep(s, s')
    || (exists fd, o :: AcceptStep(s, s', fd, o))
    || (exists r :: SelectStep(s, s', r))
    || DispatchStep(s, s')
    || (exists o :: ScanStep(s, s', o))
  }

  ghost predicate IsRun(workers: nat, run: seq<State>) {
    && run != [] && run[0] == Initial(workers)
    && forall k :: 0 <= k < |run| - 1 ==> Next(run[k], run[k + 1])
  }

  // ---- The count, in every run ----

  /** Worker `w` has connection `fd` and has not cleared its flag. */
  predicate Has(s: State, w: nat, fd: nat) {
    w < |s.workers| && (s.workers[w] == Holding(fd) || s.workers[w] == Handled(fd))
  }

  ghost predicate HeldBySome(s: State, fd: nat) {
    exists w :: Has(s, w, fd)
  }

  /** Every flagged connection is in the hands of a worker, but for the one being dispatched. */
  ghost predicate FlagsOk(s: State) {
    forall fd :: Flagged(s, fd) && !(s.main.Scanning? && s.main.fd == fd) ==> HeldBySome(s, fd)
  }

  /** The flagged connections the count has not come to yet. */
  ghost function FlaggedFrom(s: State, i: nat): (r: set<nat>)
    ensures forall fd :: fd in r <==> i <= fd && Flagged(s, fd)
  {
    set fd | fd in s.clients && i <= fd && Flagged(s, fd)
  }

  ghost predicate CountOk(s: State) {
    && s.active <= |s.workers|
    && ((s.main.CountingFree? || s.main.CountingBusy?) ==>
          s.main.count + |FlaggedFrom(s, s.main.i)| <= |s.workers|)
  }

  ghost predicate Inv(s: State) {
    FlagsOk(s) && CountOk(s)
  }

  /** The connections that workers have: at most one for each of the first `n` workers. */
  ghost function HeldBy(s: State, n: nat): set<nat>
    requires n <= |s.workers|
  {
    if n == 0 then {}
    else HeldBy(s, n - 1) + (match s.workers[n - 1] case Holding(fd) => {fd} case Handled(fd) => {fd} case _ => {})
  }

  /** How many of the first `n` workers have a connection. */
  function Occupied(s: State, n: nat): (count: nat)
    requires n <= |s.workers|
    ensures count <= n
  {
    if n == 0 then 0
    else Occupied(s, n - 1) + if s.workers[n - 1].Holding? || s.workers[n - 1].Handled? then 1 else 0
  }

  lemma {:induction false} HeldByBound(s: State, n: nat)
    requires n <= |s.workers|
    ensures |HeldBy(s, n)| <= Occupied(s, n)
    ensures forall fd, w :: 0 <= w < n && Has(s, w, fd) ==> fd in HeldBy(s, n)
    decreases n
  {
    if n > 0 {
      HeldByBound(s, n - 1);
      UnionBound(HeldBy(s, n - 1), HeldBy(s, n) - HeldBy(s, n - 1));
    }
  }

  lemma Subset(a: set<nat>, b: set<nat>)
    requires a <= b
    ensures |a| <= |b|
  {
    var rest := b - a;
    assert a + rest == b;
    assert |a + rest| == |a| + |rest|;
  }

  /** One worker has one connection, so flagged connections are at most as many as workers that have one, the
      connection being dispatched aside. */
  lemma FlaggedBound(s: State, i: nat)
    requires FlagsOk(s)
    ensures |FlaggedFrom(s, i)| <= Occupied(s, |s.workers|) + if s.main.Scanning? then 1 else 0
  {
    HeldByBound(s, |s.workers|);
    var dispatched := if s.main.Scanning? then {s.main.fd} else {};
    forall fd | fd in FlaggedFrom(s, i)
      ensures fd in HeldBy(s, |s.workers|) + dispatched
    {
      if fd !in dispatched {
        assert HeldBySome(s, fd);
        var w :| Has(s, w, fd);
      }
    }
    Subset(FlaggedFrom(s, i), HeldBy(s, |s.workers|) + dispatched);
    UnionBound(HeldBy(s, |s.workers|), dispatched);
  }

  lemma UnionBound(a: set<nat>, b: set<nat>)
    ensures |a + b| <= |a| + |b|
  {
    assert a + b == a + (b - a);
    Subset(b - a, b);
  }

  lemma InitialInv(workers: nat)
    ensures Inv(Initial(workers))
  {
    assert FlaggedFrom(Initial(workers), 2) == {};
  }

  lemma WorkerKeepsFlags(s: State, s': State, w: nat, o: Outcome)
    requires FlagsOk(s) && WorkerStep(s, s', w, o)
    ensures FlagsOk(s')
    ensures forall fd :: Flagged(s', fd) ==> Flagged(s, fd)
  {
    forall fd | Flagged(s', fd) && !(s'.main.Scanning? && s'.main.fd == fd)
      ensures HeldBySome(s', fd)
    {
      assert Flagged(s, fd) && HeldBySome(s, fd);
      var v :| Has(s, v, fd);
      assert Has(s', v, fd);
    }
  }

  lemma WorkerKeepsInv(s: State, s': State, w: nat, o: Outcome)
    requires Inv(s) && WorkerStep(s, s', w, o)
    ensures Inv(s')
  {
    WorkerKeepsFlags(s, s', w, o);
    assert s'.main == s.main && s'.active == s.active && |s'.workers| == |s.workers|;
    if s.main.CountingFree? || s.main.CountingBusy? {
      Subset(FlaggedFrom(s', s.main.i), FlaggedFrom(s, s.main.i));
    }
  }

  lemma CountKeepsFlags(s: State, s': State)
    requires FlagsOk(s) && CountStep(s, s')
    ensures FlagsOk(s')
  {
    forall fd | Flagged(s', fd) ensures HeldBySome(s', fd) {
      assert Flagged(s, fd) && HeldBySome(s, fd);
      var w :| Has(s, w, fd);
      assert Has(s', w, fd);
    }
  }

  lemma FlaggedStep(s: State, s': State, i: nat)
    requires s'.clients == s.clients
    ensures |FlaggedFrom(s', i)| == |FlaggedFrom(s, i)|
    ensures |FlaggedFrom(s, i)| == |FlaggedFrom(s', i + 1)| + if Flagged(s, i) then 1 else 0
  {
    assert FlaggedFrom(s', i) == FlaggedFrom(s, i);
    if Flagged(s, i) {
      assert FlaggedFrom(s, i) == FlaggedFrom(s', i + 1) + {i};
    } else {
      assert FlaggedFrom(s, i) == FlaggedFrom(s', i + 1);
    }
  }

  lemma CountKeepsCount(s: State, s': State)
    requires CountOk(s) && CountStep(s, s')
    ensures CountOk(s')
  {
    FlaggedStep(s, s', s.main.i);
    hide Flagged;
  }

  lemma CountKeepsInv(s: State, s': State)
    requires Inv(s) && CountStep(s, s')
    ensures Inv(s')
  {
    hide FlagsOk, CountOk, CountStep;
    CountKeepsFlags(s, s');
    CountKeepsCount(s, s');
  }

  /** All other steps of the main loop: flags are raised only for the connection being scanned for, and counting
      starts afresh. */
  lemma MainKeepsFlags(s: State, s': State, fd: nat, o: Outcome, r: set<nat>)
    requires FlagsOk(s)
    requires AcceptStep(s, s', fd, o) || SelectStep(s, s', r) || DispatchStep(s, s') || ScanStep(s, s', o)
    ensures FlagsOk(s')
  {
    forall f | Flagged(s', f) && !(s'.main.Scanning? && s'.main.fd == f)
      ensures HeldBySome(s', f)
    {
      if s.main.Scanning? && s.main.fd == f {
        assert Has(s', s.main.w, f);
      } else {
        assert Flagged(s, f);
        var w :| Has(s, w, f);
        assert Has(s', w, f);
      }
    }
  }

  lemma MainKeepsInv(s: State, s': State, fd: nat, o: Outcome, r: set<nat>)
    requires Inv(s)
    requires AcceptStep(s, s', fd, o) || SelectStep(s, s', r) || DispatchStep(s, s') || ScanStep(s, s', o)
    ensures Inv(s')
  {
    MainKeepsFlags(s, s', fd, o, r);
    if s'.main.CountingFree? {
      FlaggedBound(s', 2);
    }
  }

  lemma StepKeepsInv(s: State, s': State)
    requires Inv(s) && Next(s, s')
    ensures Inv(s')
  {
    hide Inv, WorkerStep, CountStep, AcceptStep, SelectStep, DispatchStep, ScanStep;
    if w, o :| WorkerStep(s, s', w, o) {
      WorkerKeepsInv(s, s', w, o);
    } else if CountStep(s, s') {
      CountKeepsInv(s, s');
    } else if fd, o :| AcceptStep(s, s', fd, o) {
      MainKeepsInv(s, s', fd, o, {});
    } else if r :| SelectStep(s, s', r) {
      MainKeepsInv(s, s', 0, Other, r);
    } else if DispatchStep(s, s') {
      MainKeepsInv(s, s', 0, Other, {});
    } else {
      var o :| ScanStep(s, s', o);
      MainKeepsInv(s, s', 0, o, {});
    }
  }

  lemma {:induction false} RunKeepsInv(workers: nat, run: seq<State>, k: nat)
    requires IsRun(workers, run) && k < |run|
    ensures Inv(run[k]) && |run[k].workers| == workers
    decreases k
  {
    hide Inv, Next;
    if k == 0 {
      InitialInv(workers);
    } else {
      RunKeepsInv(workers, run, k - 1);
      assert Next(run[k - 1], run[k - 1 + 1]);
      StepKeepsInv(run[k - 1], run[k]);
      SamePool(run[k - 1], run[k]);
    }
  }

  lemma SamePool(s: State, s': State)
    requires Next(s, s')
    ensures |s'.workers| == |s.workers|
  {
  }

  /** In every run: every flagged connection but the one being dispatched is in the hands of a worker, so there are at
      most as many as workers that have a connection, and the published number of active threads never exceeds the pool
      size. */
  lemma ActiveWithinPool(workers: nat, run: seq<State>, k: nat)
    requires IsRun(workers, run) && k < |run|
    ensures run[k].active <= workers
    ensures !run[k].main.Scanning? ==> forall fd :: Flagged(run[k], fd) ==> HeldBySome(run[k], fd)
    ensures |FlaggedFrom(run[k], 0)| <= Occupied(run[k], |run[k].workers|) + if run[k].main.Scanning? then 1 else 0
  {
    RunKeepsInv(workers, run, k);
    FlaggedBound(run[k], 0);
  }
}
