/** What the thread pool guarantees in every interleaving of workers and dispatchers. */
module ThreadPoolRuns {
  import opened ThreadPool
  import opened Wrappers

  /** Tasks begin only after they were accepted, at the worker they were given to, and once; a refused task never
      begins; what has begun has ended, once, or is running at that worker. */
  lemma ExactlyOnce(workers: nat, dispatchers: nat, run: seq<State>, k: nat)
    requires IsRun(workers, dispatchers, run) && k < |run|
    ensures var s := run[k];
            && (forall j :: 0 <= j < |s.begun| ==>
                              s.begun[j].0 in s.accepted && s.accepted[s.begun[j].0] == s.begun[j].1
                              && s.begun[j].0 !in s.refused)
            && Distinct(s.begun) && Distinct(s.ended)
            && (forall e :: e in s.ended ==> e in s.begun)
            && (forall j :: 0 <= j < |s.begun| && s.begun[j] !in s.ended ==>
                              s.begun[j].1 < |s.workers| && s.workers[s.begun[j].1].pc == Running(s.begun[j].0))
  {
    hide Distinct, WorkerOk;
    RunKeepsInv(workers, dispatchers, run, k);
  }

  /** No wake-up is lost: an accepted task that has not begun is either still in the hands of the dispatcher that
      holds the dispatch lock, or stands in the argument of its worker, whose next step is possible. */
  lemma NoLostWakeUp(workers: nat, dispatchers: nat, run: seq<State>, k: nat, t: Task)
    requires IsRun(workers, dispatchers, run) && k < |run|
    requires t in run[k].accepted && !In(run[k].begun, t)
    ensures var s, w := run[k], run[k].accepted[t];
            && w < |s.workers| && s.workers[w].busy
            && if Holder(s) == SettingArg(t, w) || Holder(s) == Unlocking(t, w) then
                 s.workers[w].pc.Waiting? && s.workers[w].controlLocked
               else
                 && s.workers[w].arg == t
                 && (s.workers[w].pc.Locked? || (s.workers[w].pc.Waiting? && !s.workers[w].controlLocked))
                 && exists s' :: WorkerStep(s, s', w)
  {
    hide TasksOk, EndsOk, MutexOk, Distinct, In;
    RunKeepsInv(workers, dispatchers, run, k);
    var s, w := run[k], run[k].accepted[t];
    assert WorkerOk(Holder(s), s.workers[w], w);
    assert InFlight(Holder(s), s.workers[w], w) == Some(t);
    var x := s.workers[w];
    if x.pc.Locked? {
      assert WorkerStep(s, s.(workers := s.workers[w := x.(pc := Running(x.arg))], begun := s.begun + [(x.arg, w)]), w);
    } else if !x.controlLocked {
      assert WorkerStep(s, s.(workers := s.workers[w := x.(pc := Locked, controlLocked := true)]), w);
    }
  }

  /** `launch` stores an argument only when the worker has finished its previous task and not begun another, and only
      releases a control lock that is held; while a task runs its argument stays in place. */
  lemma LaunchIsSafe(workers: nat, dispatchers: nat, run: seq<State>, k: nat, d: nat, w: nat)
    requires IsRun(workers, dispatchers, run) && k < |run|
    requires d < |run[k].dispatchers| && w < |run[k].workers|
    ensures var s := run[k];
            && (s.dispatchers[d].SettingArg? && s.dispatchers[d].i == w ==>
                  s.workers[w].pc.Waiting? && s.workers[w].controlLocked && s.workers[w].busy)
            && (s.dispatchers[d].Unlocking? && s.dispatchers[d].i == w ==>
                  s.workers[w].pc.Waiting? && s.workers[w].controlLocked && s.workers[w].arg == s.dispatchers[d].task)
            && (s.workers[w].pc.Running? ==> s.workers[w].arg == s.workers[w].pc.task)
  {
    RunKeepsInv(workers, dispatchers, run, k);
    assert WorkerOk(Holder(run[k]), run[k].workers[w], w);
  }

  /** The other half of "exactly once": when the dispatch lock is free and no worker can move, every accepted task has
      been executed to its end by the worker it was given to. */
  lemma ExecutedAtRest(workers: nat, dispatchers: nat, run: seq<State>, k: nat)
    requires IsRun(workers, dispatchers, run) && k < |run|
    requires run[k].dispatchLock.None? && forall w, s' :: !WorkerStep(run[k], s', w)
    ensures forall t :: t in run[k].accepted ==> (t, run[k].accepted[t]) in run[k].ended
  {
    hide TasksOk, MutexOk, Distinct, AccountOk, EndsOk;
    RunKeepsInv(workers, dispatchers, run, k);
    var s := run[k];
    forall w | 0 <= w < |s.workers| ensures !s.workers[w].busy {
      assert WorkerOk(Holder(s), s.workers[w], w);
      WorkerCanMove(s, w);
    }
    forall t | t in s.accepted ensures (t, s.accepted[t]) in s.ended {
      InPool(s, t);
      IdleHasEnded(s, s.accepted[t], t);
    }
  }

  lemma InPool(s: State, t: Task)
    requires Inv(s) && t in s.accepted
    ensures s.accepted[t] < |s.workers|
  {
    hide MutexOk, EndsOk, WorkerOk;
  }

  /** A worker is able to move unless it waits for a control lock that is held. */
  lemma WorkerCanMove(s: State, w: nat)
    requires w < |s.workers| && WorkerOk(Holder(s), s.workers[w], w) && forall s' :: !WorkerStep(s, s', w)
    ensures s.workers[w].pc.Waiting? && s.workers[w].controlLocked
  {
    var x := s.workers[w];
    match x.pc {
      case Starting =>
        assert WorkerStep(s, s.(workers := s.workers[w := x.(pc := Freeing, controlLocked := true)]), w);
      case Freeing =>
        assert WorkerStep(s, s.(workers := s.workers[w := x.(pc := Waiting, busy := false)]), w);
      case Waiting =>
        if !x.controlLocked {
          assert WorkerStep(s, s.(workers := s.workers[w := x.(pc := Locked, controlLocked := true)]), w);
        }
      case Locked =>
        assert WorkerStep(s, s.(workers := s.workers[w := x.(pc := Running(x.arg))], begun := s.begun + [(x.arg, w)]), w);
      case Running(t) =>
        assert WorkerStep(s, s.(workers := s.workers[w := x.(pc := Freeing)], ended := s.ended + [(t, w)]), w);
    }
  }

  // ---- Asking whether the pool has finished ----

  /** A worker that is not busy has ended every task it was ever given. */
  lemma IdleHasEnded(s: State, w: nat, t: Task)
    requires Inv(s) && w < |s.workers| && !s.workers[w].busy && t in s.accepted && s.accepted[t] == w
    ensures (t, w) in s.ended
  {
    hide MutexOk, TasksOk, Distinct;
    assert WorkerOk(Holder(s), s.workers[w], w);
    assert InFlight(Holder(s), s.workers[w], w) == None;
    assert In(s.begun, t);
    var k :| 0 <= k < |s.begun| && s.begun[k].0 == t;
    assert s.begun[k] == (t, w);
  }

  lemma StepKeepsEnded(s: State, s': State, e: (Task, nat))
    requires Next(s, s') && e in s.ended
    ensures e in s'.ended
  {
  }

  lemma {:induction false} EndedStays(workers: nat, dispatchers: nat, run: seq<State>, j: nat, k: nat, e: (Task, nat))
    requires IsRun(workers, dispatchers, run) && j <= k < |run| && e in run[j].ended
    ensures e in run[k].ended
    decreases k
  {
    hide Next;
    if j < k {
      EndedStays(workers, dispatchers, run, j, k - 1, e);
      assert Next(run[k - 1], run[k - 1 + 1]);
      StepKeepsEnded(run[k - 1], run[k], e);
    }
  }

  lemma StepKeepsAccepted(s: State, s': State)
    requires Inv(s) && Next(s, s')
    ensures |s'.workers| == |s.workers|
    ensures forall t :: t in s.accepted ==> t in s'.accepted && s'.accepted[t] == s.accepted[t]
  {
    hide MutexOk, EndsOk, AccountOk, WorkerOk;
  }

  lemma {:induction false} AcceptedStays(workers: nat, dispatchers: nat, run: seq<State>, j: nat, k: nat)
    requires IsRun(workers, dispatchers, run) && j <= k < |run|
    ensures |run[k].workers| == |run[j].workers|
    ensures forall t :: t in run[j].accepted ==> t in run[k].accepted && run[k].accepted[t] == run[j].accepted[t]
    decreases k
  {
    hide Next, Inv;
    if j < k {
      AcceptedStays(workers, dispatchers, run, j, k - 1);
      assert Next(run[k - 1], run[k - 1 + 1]);
      RunKeepsInv(workers, dispatchers, run, k - 1);
      StepKeepsAccepted(run[k - 1], run[k]);
    }
  }

  /** `is_finished`, called at point `first` of a run and over at `last`: the flag of worker `i` is read at `times[i]`,
      one after the other, and the loop ends at the first one that is set.  The result is no snapshot, but if it is true
      every task accepted before the call has ended; if no task is accepted during the call, none is left at all. */
  method IsFinished(ghost workers: nat, ghost dispatchers: nat, run: seq<State>, ghost first: nat, times: seq<nat>,
                    ghost last: nat) returns (finished: bool)
    requires IsRun(workers, dispatchers, run) && |times| == workers && first <= last < |run|
    requires forall i, j :: 0 <= i < j < |times| ==> times[i] <= times[j]
    requires forall i :: 0 <= i < |times| ==> first <= times[i] <= last
    ensures finished <==> forall i :: 0 <= i < |times| ==> i < |run[times[i]].workers| && !run[times[i]].workers[i].busy
    ensures finished ==> forall t :: t in run[first].accepted ==> (t, run[first].accepted[t]) in run[last].ended
    ensures finished && run[last].accepted == run[first].accepted ==>
              forall t :: t in run[last].accepted ==> (t, run[last].accepted[t]) in run[last].ended
  {
    hide IsRun;
    for i := 0 to |times|
      invariant forall j :: 0 <= j < i ==> j < |run[times[j]].workers| && !run[times[j]].workers[j].busy
    {
      PoolSize(workers, dispatchers, run, times[i]);
      if run[times[i]].workers[i].busy {
        return false;
      }
    }
    forall t | t in run[first].accepted ensures (t, run[first].accepted[t]) in run[last].ended {
      EndedByThen(workers, dispatchers, run, first, times, last, t);
    }
    return true;
  }

  lemma PoolSize(workers: nat, dispatchers: nat, run: seq<State>, k: nat)
    requires IsRun(workers, dispatchers, run) && k < |run|
    ensures |run[k].workers| == workers
  {
    AcceptedStays(workers, dispatchers, run, 0, k);
  }

  lemma EndedByThen(workers: nat, dispatchers: nat, run: seq<State>, first: nat, times: seq<nat>, last: nat, t: Task)
    requires IsRun(workers, dispatchers, run) && |times| == workers && first <= last < |run|
    requires forall i :: 0 <= i < |times| ==> first <= times[i] <= last
    requires forall i :: 0 <= i < |times| ==> i < |run[times[i]].workers| && !run[times[i]].workers[i].busy
    requires t in run[first].accepted
    ensures (t, run[first].accepted[t]) in run[last].ended
  {
    hide IsRun, Inv;
    var w := run[first].accepted[t];
    RunKeepsInv(workers, dispatchers, run, first);
    InPool(run[first], t);
    PoolSize(workers, dispatchers, run, first);
    AcceptedStays(workers, dispatchers, run, first, times[w]);
    RunKeepsInv(workers, dispatchers, run, times[w]);
    IdleHasEnded(run[times[w]], w, t);
    EndedStays(workers, dispatchers, run, times[w], last, (t, w));
  }
}
