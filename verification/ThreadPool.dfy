/** The thread pool: workers and dispatchers that share a `busy` flag, a task argument and a mutex used as a binary
    semaphore.  Every access to shared memory is one step; steps of all threads interleave freely. */
module ThreadPool {
  import opened Wrappers

  /** Tasks are numbered in the order in which `run_task` is called. */
  type Task = nat

  /** Where a worker is in `task_thread_func`. */
  datatype WorkerPc =
    | Starting        // about to lock for the first time
    | Freeing         // about to clear busy
    | Waiting         // about to lock, or blocked in it
    | Locked          // about to call what arg says
    | Running(task: Task)

  datatype Worker = Worker(pc: WorkerPc, busy: bool, controlLocked: bool, arg: Task)

  /** Where a dispatcher is in `run_task`. */
  datatype Dispatcher =
    | Resting
    | Acquiring(task: Task)
    | Scanning(task: Task, i: nat)
    | SettingBusy(task: Task, i: nat)
    | SettingArg(task: Task, i: nat)
    | Unlocking(task: Task, i: nat)
    | Releasing(task: Task, success: bool)

  /** The last four fields only record what happened: which worker each accepted task was given to, which tasks were
      refused, and which tasks workers began and finished, in order. */
  datatype State = State(workers: seq<Worker>, dispatchers: seq<Dispatcher>, dispatchLock: Option<nat>, next: Task,
                         accepted: map<Task, nat>, refused: set<Task>, begun: seq<(Task, nat)>, ended: seq<(Task, nat)>)

  /** `init_task_thread` leaves the control lock open and the worker busy. */
  function Initial(workers: nat, dispatchers: nat): State {
    State(seq(workers, _ => Worker(Starting, true, false, 0)), seq(dispatchers, _ => Resting), None, 0,
          map[], {}, [], [])
  }

  // ---- Steps of a worker ----

  predicate WorkerStep(s: State, s': State, w: nat) {
    && w < |s.workers|
    && var x := s.workers[w];
       match x.pc
       case Starting => !x.controlLocked && s' == s.(workers := s.workers[w := x.(pc := Freeing, controlLocked := true)])
       case Freeing => s' == s.(workers := s.workers[w := x.(pc := Waiting, busy := false)])
       case Waiting => !x.controlLocked && s' == s.(workers := s.workers[w := x.(pc := Locked, controlLocked := true)])
       case Locked => s' == s.(workers := s.workers[w := x.(pc := Running(x.arg))], begun := s.begun + [(x.arg, w)])
       case Running(t) => s' == s.(workers := s.workers[w := x.(pc := Freeing)], ended := s.ended + [(t, w)])
  }

  // ---- Steps of a dispatcher ----

  predicate DispatcherStep(s: State, s': State, d: nat) {
    && d < |s.dispatchers|
    && match s.dispatchers[d]
       case Resting =>
         s' == s.(dispatchers := s.dispatchers[d := Acquiring(s.next)], next := s.next + 1)
       case Acquiring(t) =>
         s.dispatchLock.None? && s' == s.(dispatchers := s.dispatchers[d := Scanning(t, 0)], dispatchLock := Some(d))
       case Scanning(t, i) =>
         if i >= |s.workers| then
           s' == s.(dispatchers := s.dispatchers[d := Releasing(t, false)], refused := s.refused + {t})
         else if s.workers[i].busy then
           s' == s.(dispatchers := s.dispatchers[d := Scanning(t, i + 1)])
         else
           s' == s.(dispatchers := s.dispatchers[d := SettingBusy(t, i)])
       case SettingBusy(t, i) =>
         && i < |s.workers|
         && s' == s.(dispatchers := s.dispatchers[d := SettingArg(t, i)],
                     workers := s.workers[i := s.workers[i].(busy := true)], accepted := s.accepted[t := i])
       case SettingArg(t, i) =>
         && i < |s.workers|
         && s' == s.(dispatchers := s.dispatchers[d := Unlocking(t, i)],
                     workers := s.workers[i := s.workers[i].(arg := t)])
       case Unlocking(t, i) =>
         && i < |s.workers|
         && s' == s.(dispatchers := s.dispatchers[d := Releasing(t, true)],
                     workers := s.workers[i := s.workers[i].(controlLocked := false)])
       case Releasing(t, _) =>
         s' == s.(dispatchers := s.dispatchers[d := Resting], dispatchLock := None)
  }

  ghost predicate Next(s: State, s': State) {
    || (exists w :: WorkerStep(s, s', w))
    || (exists d :: DispatcherStep(s, s', d))
  }

  ghost predicate IsRun(workers: nat, dispatchers: nat, run: seq<State>) {
    && run != [] && run[0] == Initial(workers, dispatchers)
    && forall k :: 0 <= k < |run| - 1 ==> Next(run[k], run[k + 1])
  }

  // ---- The invariant ----

  predicate InCritical(d: Dispatcher) {
    !d.Resting? && !d.Acquiring?
  }

  /** The dispatcher that holds the dispatch lock. */
  function Holder(s: State): Dispatcher {
    if s.dispatchLock.Some? && s.dispatchLock.value < |s.dispatchers| then s.dispatchers[s.dispatchLock.value]
    else Resting
  }

  predicate MutexOk(s: State) {
    && (s.dispatchLock.Some? ==> s.dispatchLock.value < |s.dispatchers|)
    && forall d :: 0 <= d < |s.dispatchers| ==> (InCritical(s.dispatchers[d]) <==> s.dispatchLock == Some(d))
  }

  predicate Undecided(d: Dispatcher) {
    d.Acquiring? || d.Scanning? || d.SettingBusy?
  }

  predicate TasksOk(s: State) {
    && (forall d :: 0 <= d < |s.dispatchers| && Undecided(s.dispatchers[d]) ==>
                      && s.dispatchers[d].task < s.next
                      && s.dispatchers[d].task !in s.accepted && s.dispatchers[d].task !in s.refused)
    && (forall d, e :: 0 <= d < e < |s.dispatchers| && Undecided(s.dispatchers[d]) && Undecided(s.dispatchers[e]) ==>
                         s.dispatchers[d].task != s.dispatchers[e].task)
    && (forall t :: t in s.accepted ==> t < s.next)
    && (forall t :: t in s.refused ==> t < s.next)
    && (forall t :: t in s.accepted ==> t !in s.refused && s.accepted[t] < |s.workers|)
  }

  /** The dispatcher `h` has chosen worker `w`, and is on its way to release it. */
  predicate Targets(h: Dispatcher, w: nat) {
    (h.SettingBusy? || h.SettingArg? || h.Unlocking?) && h.i == w
  }

  /** The task that worker `w` has been given and has not begun. */
  function InFlight(h: Dispatcher, x: Worker, w: nat): Option<Task> {
    if (h.SettingArg? || h.Unlocking?) && h.i == w then Some(h.task)
    else if x.pc.Locked? || (x.pc.Waiting? && !x.controlLocked) then Some(x.arg)
    else None
  }

  /** The protocol of flag, lock and argument, as seen from one worker. */
  predicate WorkerOk(h: Dispatcher, x: Worker, w: nat) {
    match x.pc
    case Starting => x.busy && !x.controlLocked && !Targets(h, w)
    case Freeing => x.busy && x.controlLocked && !Targets(h, w)
    case Waiting =>
      if Targets(h, w) then
        x.controlLocked && (x.busy <==> !h.SettingBusy?) && (h.Unlocking? ==> x.arg == h.task)
      else
        x.busy <==> !x.controlLocked
    case Locked => x.busy && x.controlLocked && !Targets(h, w)
    case Running(t) => x.busy && x.controlLocked && !Targets(h, w) && x.arg == t
  }

  predicate In(log: seq<(Task, nat)>, t: Task) {
    exists k :: 0 <= k < |log| && log[k].0 == t
  }

  predicate Distinct(log: seq<(Task, nat)>) {
    forall j, k :: 0 <= j < k < |log| ==> log[j].0 != log[k].0
  }

  /** Every accepted task is either in flight at its worker, or begun there, and begun once. */
  ghost predicate AccountOk(s: State) {
    && (forall t :: t in s.accepted ==>
                      s.accepted[t] < |s.workers|
                      && (In(s.begun, t) <==> InFlight(Holder(s), s.workers[s.accepted[t]], s.accepted[t]) != Some(t)))
    && (forall w :: 0 <= w < |s.workers| && InFlight(Holder(s), s.workers[w], w).Some? ==>
                      var t := InFlight(Holder(s), s.workers[w], w).value; t in s.accepted && s.accepted[t] == w)
    && (forall k :: 0 <= k < |s.begun| ==> s.begun[k].0 in s.accepted && s.accepted[s.begun[k].0] == s.begun[k].1)
    && Distinct(s.begun)
  }

  /** What is begun is running or ended, and ended once. */
  ghost predicate EndsOk(s: State) {
    && (forall k :: 0 <= k < |s.begun| && s.begun[k] !in s.ended ==>
                      s.begun[k].1 < |s.workers| && s.workers[s.begun[k].1].pc == Running(s.begun[k].0))
    && (forall w :: 0 <= w < |s.workers| && s.workers[w].pc.Running? ==>
                      (s.workers[w].pc.task, w) in s.begun && (s.workers[w].pc.task, w) !in s.ended)
    && (forall e :: e in s.ended ==> e in s.begun)
    && Distinct(s.ended)
  }

  ghost predicate Inv(s: State) {
    && MutexOk(s) && TasksOk(s)
    && (forall w :: 0 <= w < |s.workers| ==> WorkerOk(Holder(s), s.workers[w], w))
    && AccountOk(s) && EndsOk(s)
  }

  lemma InitialInv(workers: nat, dispatchers: nat)
    ensures Inv(Initial(workers, dispatchers))
  {
  }

  lemma WorkerKeepsInv(s: State, s': State, w: nat)
    requires Inv(s) && WorkerStep(s, s', w)
    ensures Inv(s')
  {
    assert Holder(s') == Holder(s);
    WorkerKeepsProtocol(s, s', w);
    WorkerKeepsAccount(s, s', w);
    WorkerKeepsEnds(s, s', w);
  }

  lemma WorkerKeepsProtocol(s: State, s': State, w: nat)
    requires Inv(s) && WorkerStep(s, s', w)
    ensures MutexOk(s') && TasksOk(s')
    ensures forall v :: 0 <= v < |s'.workers| ==> WorkerOk(Holder(s'), s'.workers[v], v)
  {
    hide AccountOk, EndsOk;
  }

  lemma LogSnoc(log: seq<(Task, nat)>, e: (Task, nat))
    ensures forall t :: In(log + [e], t) <==> In(log, t) || t == e.0
    ensures Distinct(log) && !In(log, e.0) ==> Distinct(log + [e])
  {
    forall t | In(log, t) || t == e.0 ensures In(log + [e], t) {
      if In(log, t) {
        var k :| 0 <= k < |log| && log[k].0 == t;
        assert (log + [e])[k].0 == t;
      } else {
        assert (log + [e])[|log|].0 == t;
      }
    }
  }

  lemma EntryIn(log: seq<(Task, nat)>, e: (Task, nat))
    ensures e in log ==> In(log, e.0)
  {
  }

  lemma WorkerKeepsAccount(s: State, s': State, w: nat)
    requires Inv(s) && WorkerStep(s, s', w)
    ensures AccountOk(s')
  {
    if s.workers[w].pc.Locked? {
      BeginKeepsAccount(s, s', w);
    } else {
      OtherKeepsAccount(s, s', w);
    }
  }

  lemma BeginKeepsAccount(s: State, s': State, w: nat)
    requires Inv(s) && WorkerStep(s, s', w) && s.workers[w].pc.Locked?
    ensures AccountOk(s')
  {
    hide EndsOk, TasksOk, MutexOk, In, Distinct;
    assert WorkerOk(Holder(s), s.workers[w], w);
    LogSnoc(s.begun, (s.workers[w].arg, w));
    assert InFlight(Holder(s), s.workers[w], w) == Some(s.workers[w].arg);
  }

  /** While nothing begins or is accepted and the same tasks are in flight, the account stays as it is. */
  lemma SameAccount(s: State, s': State)
    requires AccountOk(s) && s'.begun == s.begun && s'.accepted == s.accepted && |s'.workers| == |s.workers|
    requires forall v :: 0 <= v < |s.workers| ==>
               InFlight(Holder(s'), s'.workers[v], v) == InFlight(Holder(s), s.workers[v], v)
    ensures AccountOk(s')
  {
    hide InFlight, Holder, In, Distinct;
  }

  /** Locking, freeing and finishing change nothing about what is in flight. */
  lemma OtherKeepsAccount(s: State, s': State, w: nat)
    requires Inv(s) && WorkerStep(s, s', w) && !s.workers[w].pc.Locked?
    ensures AccountOk(s')
  {
    hide EndsOk, TasksOk, MutexOk, AccountOk;
    assert WorkerOk(Holder(s), s.workers[w], w);
    assert Holder(s') == Holder(s);
    hide Holder;
    SameAccount(s, s');
  }

  lemma WorkerKeepsEnds(s: State, s': State, w: nat)
    requires Inv(s) && WorkerStep(s, s', w)
    ensures EndsOk(s')
  {
    hide TasksOk, MutexOk;
    var x := s.workers[w];
    assert WorkerOk(Holder(s), x, w);
    if x.pc.Locked? {
      BeginKeepsEnds(s, s', w);
    } else if x.pc.Running? {
      EndKeepsEnds(s, s', w);
    }
  }

  lemma BeginKeepsEnds(s: State, s': State, w: nat)
    requires Inv(s) && WorkerStep(s, s', w) && s.workers[w].pc.Locked?
    ensures EndsOk(s')
  {
    hide TasksOk, MutexOk, Distinct;
    var e := (s.workers[w].arg, w);
    assert WorkerOk(Holder(s), s.workers[w], w);
    assert InFlight(Holder(s), s.workers[w], w) == Some(e.0);
    assert !In(s.begun, e.0);
    EntryIn(s.begun, e);
    assert e !in s.ended;
    assert e in s'.begun;
  }

  lemma EndKeepsEnds(s: State, s': State, w: nat)
    requires Inv(s) && WorkerStep(s, s', w) && s.workers[w].pc.Running?
    ensures EndsOk(s')
  {
    hide TasksOk, MutexOk;
    var e := (s.workers[w].pc.task, w);
    assert e in s.begun && e !in s.ended;
    assert !In(s.ended, e.0) by {
      forall k | 0 <= k < |s.ended| ensures s.ended[k].0 != e.0 {
        if s.ended[k].0 == e.0 {
          SameEntry(s.begun, s.ended[k], e);
        }
      }
    }
    LogSnoc(s.ended, e);
    assert forall x :: x in s'.ended <==> x in s.ended || x == e;
  }

  lemma SameEntry(log: seq<(Task, nat)>, a: (Task, nat), b: (Task, nat))
    requires Distinct(log) && a in log && b in log && a.0 == b.0
    ensures a == b
  {
  }

  lemma DispatcherKeepsInv(s: State, s': State, d: nat)
    requires Inv(s) && DispatcherStep(s, s', d)
    ensures Inv(s')
  {
    DispatcherKeepsMutex(s, s', d);
    DispatcherKeepsTasks(s, s', d);
    DispatcherKeepsProtocol(s, s', d);
    DispatcherKeepsAccount(s, s', d);
    DispatcherKeepsEnds(s, s', d);
  }

  lemma DispatcherKeepsMutex(s: State, s': State, d: nat)
    requires Inv(s) && DispatcherStep(s, s', d)
    ensures MutexOk(s')
    ensures s.dispatchers[d].Resting? ==> Holder(s') == Holder(s)
    ensures s.dispatchers[d].Acquiring? ==> Holder(s) == Resting && Holder(s') == s'.dispatchers[d]
    ensures InCritical(s.dispatchers[d]) ==> Holder(s) == s.dispatchers[d]
    ensures InCritical(s.dispatchers[d]) ==>
              Holder(s') == if s.dispatchers[d].Releasing? then Resting else s'.dispatchers[d]
  {
    hide TasksOk, AccountOk, EndsOk, WorkerOk;
  }

  lemma DispatcherKeepsTasks(s: State, s': State, d: nat)
    requires TasksOk(s) && DispatcherStep(s, s', d)
    ensures TasksOk(s')
  {
    if s.dispatchers[d].Resting? {
      CallKeepsTasks(s, s', d);
    } else if Undecided(s.dispatchers[d]) {
      DecisionKeepsTasks(s, s', d);
    } else {
      assert forall e :: 0 <= e < |s.dispatchers| && Undecided(s'.dispatchers[e]) ==> s'.dispatchers[e] == s.dispatchers[e];
    }
  }

  /** A new call gets a task number of its own. */
  lemma CallKeepsTasks(s: State, s': State, d: nat)
    requires TasksOk(s) && DispatcherStep(s, s', d) && s.dispatchers[d].Resting?
    ensures TasksOk(s')
  {
    assert forall e :: 0 <= e < |s.dispatchers| && e != d ==> s'.dispatchers[e] == s.dispatchers[e];
  }

  /** Nobody else has the task that is accepted, refused or still undecided. */
  lemma DecisionKeepsTasks(s: State, s': State, d: nat)
    requires TasksOk(s) && DispatcherStep(s, s', d) && Undecided(s.dispatchers[d])
    ensures TasksOk(s')
  {
    assert forall e :: 0 <= e < |s.dispatchers| && e != d ==> s'.dispatchers[e] == s.dispatchers[e];
    assert s'.dispatchers[d].task == s.dispatchers[d].task;
  }

  /** A dispatcher that finds a worker idle finds its control lock held, and only it touches that worker until it has
      released the lock. */
  lemma DispatcherKeepsProtocol(s: State, s': State, d: nat)
    requires Inv(s) && DispatcherStep(s, s', d)
    ensures forall v :: 0 <= v < |s'.workers| ==> WorkerOk(Holder(s'), s'.workers[v], v)
  {
    hide MutexOk, TasksOk, AccountOk, EndsOk, Holder;
    DispatcherKeepsMutex(s, s', d);
    forall v | 0 <= v < |s'.workers|
      ensures WorkerOk(Holder(s'), s'.workers[v], v)
    {
      assert WorkerOk(Holder(s), s.workers[v], v);
    }
  }

  lemma DispatcherKeepsAccount(s: State, s': State, d: nat)
    requires Inv(s) && DispatcherStep(s, s', d)
    ensures AccountOk(s')
  {
    hide MutexOk, TasksOk, EndsOk, Holder, AccountOk;
    DispatcherKeepsMutex(s, s', d);
    if s.dispatchers[d].SettingBusy? {
      ChoiceKeepsAccount(s, s', d);
    } else {
      forall v | 0 <= v < |s.workers|
        ensures InFlight(Holder(s'), s'.workers[v], v) == InFlight(Holder(s), s.workers[v], v)
      {
        assert WorkerOk(Holder(s), s.workers[v], v);
      }
      SameAccount(s, s');
    }
  }

  /** Setting the flag is the moment of acceptance: the task is in flight at the chosen worker from then on. */
  lemma ChoiceKeepsAccount(s: State, s': State, d: nat)
    requires Inv(s) && DispatcherStep(s, s', d) && s.dispatchers[d].SettingBusy?
    ensures AccountOk(s')
  {
    hide MutexOk, EndsOk, Holder, Distinct;
    DispatcherKeepsMutex(s, s', d);
    var t, i := s.dispatchers[d].task, s.dispatchers[d].i;
    forall v | 0 <= v < |s.workers|
      ensures InFlight(Holder(s'), s'.workers[v], v)
              == if v == i then Some(t) else InFlight(Holder(s), s.workers[v], v)
      ensures InFlight(Holder(s), s.workers[i], i) == None
    {
      assert WorkerOk(Holder(s), s.workers[v], v);
      assert WorkerOk(Holder(s), s.workers[i], i);
    }
    assert t !in s.accepted;
    assert !In(s.begun, t);
  }

  lemma DispatcherKeepsEnds(s: State, s': State, d: nat)
    requires Inv(s) && DispatcherStep(s, s', d)
    ensures EndsOk(s')
  {
    hide MutexOk, TasksOk, AccountOk, WorkerOk, EndsOk;
    SameEnds(s, s');
  }

  lemma SameEnds(s: State, s': State)
    requires EndsOk(s) && s'.begun == s.begun && s'.ended == s.ended && |s'.workers| == |s.workers|
    requires forall v :: 0 <= v < |s.workers| ==> s'.workers[v].pc == s.workers[v].pc
    ensures EndsOk(s')
  {
    hide Distinct;
  }

  lemma StepKeepsInv(s: State, s': State)
    requires Inv(s) && Next(s, s')
    ensures Inv(s')
  {
    hide Inv, WorkerStep, DispatcherStep;
    if w :| WorkerStep(s, s', w) {
      WorkerKeepsInv(s, s', w);
    } else {
      var d :| DispatcherStep(s, s', d);
      DispatcherKeepsInv(s, s', d);
    }
  }

  lemma {:induction false} RunKeepsInv(workers: nat, dispatchers: nat, run: seq<State>, k: nat)
    requires IsRun(workers, dispatchers, run) && k < |run|
    ensures Inv(run[k])
    decreases k
  {
    hide Inv, Next;
    if k == 0 {
      InitialInv(workers, dispatchers);
    } else {
      RunKeepsInv(workers, dispatchers, run, k - 1);
      assert Next(run[k - 1], run[k - 1 + 1]);
      StepKeepsInv(run[k - 1], run[k]);
    }
  }
}
