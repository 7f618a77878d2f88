/** What a call of `run_task` comes to: the first worker that is not busy gets the task, and a call is refused only after
    every worker has been found busy. */
module ThreadPoolCalls {
  import opened ThreadPool
  import opened Wrappers

  // ---- A call with nothing in between ----

  ghost predicate Path(path: seq<State>, d: nat) {
    path != [] && forall k :: 0 <= k < |path| - 1 ==> DispatcherStep(path[k], path[k + 1], d)
  }

  ghost predicate Reaches(s: State, t: State, d: nat) {
    exists path :: Path(path, d) && path[0] == s && path[|path| - 1] == t
  }

  lemma ReachesSelf(s: State, d: nat)
    ensures Reaches(s, s, d)
  {
    assert Path([s], d);
  }

  lemma ReachesNext(s: State, t: State, u: State, d: nat)
    requires Reaches(s, t, d) && DispatcherStep(t, u, d)
    ensures Reaches(s, u, d)
  {
    hide DispatcherStep;
    var path :| Path(path, d) && path[0] == s && path[|path| - 1] == t;
    var longer := path + [u];
    forall k | 0 <= k < |longer| - 1 ensures DispatcherStep(longer[k], longer[k + 1], d) {
      if k < |path| - 1 { assert DispatcherStep(path[k], path[k + 1], d); }
    }
    assert Path(longer, d);
  }

  /** The first worker that is not busy; the number of workers if all are. */
  predicate FirstIdle(s: State, w: nat) {
    w <= |s.workers| && (forall i :: 0 <= i < w ==> s.workers[i].busy) && (w < |s.workers| ==> !s.workers[w].busy)
  }

  /** The state in which the dispatcher has come to worker `i`. */
  function AtWorker(s: State, d: nat, i: nat): State
    requires d < |s.dispatchers|
  {
    s.(dispatchers := s.dispatchers[d := Scanning(s.next, i)], dispatchLock := Some(d), next := s.next + 1)
  }

  lemma {:induction false} ScansTo(s: State, d: nat, w: nat, i: nat)
    requires d < |s.dispatchers| && s.dispatchers[d].Resting? && s.dispatchLock.None? && FirstIdle(s, w) && i <= w
    ensures Reaches(s, AtWorker(s, d, i), d)
  {
    hide Reaches;
    if i == 0 {
      ReachesSelf(s, d);
      var s1 := s.(dispatchers := s.dispatchers[d := Acquiring(s.next)], next := s.next + 1);
      ReachesNext(s, s, s1, d);
      assert AtWorker(s, d, 0).dispatchers == s1.dispatchers[d := Scanning(s.next, 0)];
      ReachesNext(s, s1, AtWorker(s, d, 0), d);
    } else {
      ScansTo(s, d, w, i - 1);
      var t := AtWorker(s, d, i - 1);
      assert AtWorker(s, d, i).dispatchers == t.dispatchers[d := Scanning(s.next, i)];
      ReachesNext(s, t, AtWorker(s, d, i), d);
    }
  }

  /** What the call leaves behind. */
  function AfterCall(s: State, w: nat): State
    requires w <= |s.workers|
  {
    if w == |s.workers| then s.(next := s.next + 1, refused := s.refused + {s.next})
    else
      s.(next := s.next + 1, accepted := s.accepted[s.next := w],
         workers := s.workers[w := s.workers[w].(busy := true, arg := s.next, controlLocked := false)])
  }

  /** A call that is not interrupted: the first worker that is not busy is flagged, given the task and released; without
      one the task is refused and no worker is touched.  In either case the dispatch lock is free again. */
  lemma {:induction false} CallAlone(s: State, d: nat, w: nat)
    requires d < |s.dispatchers| && s.dispatchers[d].Resting? && s.dispatchLock.None? && FirstIdle(s, w)
    ensures Reaches(s, AfterCall(s, w), d)
  {
    ScansTo(s, d, w, w);
    hide Reaches, FirstIdle;
    var t, task := AtWorker(s, d, w), s.next;
    if w == |s.workers| {
      var t1 := t.(dispatchers := t.dispatchers[d := Releasing(task, false)], refused := t.refused + {task});
      ReachesNext(s, t, t1, d);
      assert t1.dispatchers[d := Resting] == s.dispatchers;
      ReachesNext(s, t1, AfterCall(s, w), d);
    } else {
      assert !s.workers[w].busy by { IdleAt(s, w); }
      var t1 := t.(dispatchers := t.dispatchers[d := SettingBusy(task, w)]);
      ReachesNext(s, t, t1, d);
      HandsOver(s, t1, d, w);
    }
  }

  lemma IdleAt(s: State, w: nat)
    requires FirstIdle(s, w) && w < |s.workers|
    ensures !s.workers[w].busy
  {
  }

  lemma HandsOver(s: State, t1: State, d: nat, w: nat)
    requires d < |s.dispatchers| && s.dispatchers[d].Resting? && s.dispatchLock.None? && w < |s.workers|
    requires Reaches(s, t1, d)
    requires t1 == s.(dispatchers := s.dispatchers[d := SettingBusy(s.next, w)], dispatchLock := Some(d), next := s.next + 1)
    ensures Reaches(s, AfterCall(s, w), d)
  {
    hide Reaches;
    var task := s.next;
    var t2 := t1.(dispatchers := t1.dispatchers[d := SettingArg(task, w)],
                  workers := t1.workers[w := t1.workers[w].(busy := true)], accepted := t1.accepted[task := w]);
    ReachesNext(s, t1, t2, d);
    var t3 := t2.(dispatchers := t2.dispatchers[d := Unlocking(task, w)], workers := t2.workers[w := t2.workers[w].(arg := task)]);
    ReachesNext(s, t2, t3, d);
    var t4 := t3.(dispatchers := t3.dispatchers[d := Releasing(task, true)],
                  workers := t3.workers[w := t3.workers[w].(controlLocked := false)]);
    ReachesNext(s, t3, t4, d);
    assert t4.dispatchers[d := Resting] == s.dispatchers;
    assert t4.workers == s.workers[w := s.workers[w].(busy := true, arg := task, controlLocked := false)];
    ReachesNext(s, t4, AfterCall(s, w), d);
  }

  // ---- A call among all others ----

  /** Before point `k` the call of task `t` has come to the workers below `i` one after the other, and found each busy. */
  ghost predicate FoundBusy(run: seq<State>, k: nat, d: nat, t: Task, i: nat, times: seq<nat>) {
    && |times| == i && (forall v, w :: 0 <= v < w < i ==> times[v] < times[w])
    && forall w :: 0 <= w < i ==>
         times[w] < k && times[w] < |run| && AsksBusy(run[times[w]], d, t, w)
  }

  predicate AsksBusy(s: State, d: nat, t: Task, w: nat) {
    d < |s.dispatchers| && w < |s.workers| && s.dispatchers[d] == Scanning(t, w) && s.workers[w].busy
  }

  /** How many workers a dispatcher has found busy for its task. */
  function Passed(d: Dispatcher, workers: nat): nat {
    match d
    case Scanning(_, i) => i
    case SettingBusy(_, i) => i
    case SettingArg(_, i) => i
    case Unlocking(_, i) => i
    case Releasing(_, success) => if success then 0 else workers
    case _ => 0
  }

  function TaskOf(d: Dispatcher): Task {
    if d.Resting? then 0 else d.task
  }

  /** In one step a dispatcher finds one more worker busy, or stays where it is with those it has found. */
  lemma PassedStep(s: State, s': State, d: nat)
    requires Next(s, s') && d < |s.dispatchers| && Passed(s.dispatchers[d], |s.workers|) <= |s.workers|
    ensures |s'.workers| == |s.workers| && |s'.dispatchers| == |s.dispatchers|
    ensures var now, next, n := s.dispatchers[d], s'.dispatchers[d], |s.workers|;
            || Passed(next, n) == 0
            || (TaskOf(next) == TaskOf(now) && Passed(next, n) == Passed(now, n))
            || (TaskOf(next) == TaskOf(now) && Passed(next, n) == Passed(now, n) + 1 <= n
                && AsksBusy(s, d, TaskOf(now), Passed(now, n)))
  {
    if w :| WorkerStep(s, s', w) {
    } else {
      var e :| DispatcherStep(s, s', e);
    }
  }

  /** In every run: a task is refused only after every worker has been found busy, one after the other during this call;
      and the worker it is given to comes behind workers found busy only. */
  lemma {:induction false} RefusedOnlyWhenBusy(workers: nat, dispatchers: nat, run: seq<State>, k: nat, d: nat)
    returns (times: seq<nat>)
    requires IsRun(workers, dispatchers, run) && k < |run| && d < dispatchers
    ensures |run[k].workers| == workers && |run[k].dispatchers| == dispatchers
    ensures var x := run[k].dispatchers[d]; Passed(x, workers) <= workers && FoundBusy(run, k, d, TaskOf(x), Passed(x, workers), times)
  {
    hide Next, AsksBusy;
    times := [];
    if k > 0 {
      var before := RefusedOnlyWhenBusy(workers, dispatchers, run, k - 1, d);
      assert Next(run[k - 1], run[k - 1 + 1]);
      PassedStep(run[k - 1], run[k], d);
      var now, next := run[k - 1].dispatchers[d], run[k].dispatchers[d];
      if Passed(next, workers) == 0 {
      } else if Passed(next, workers) == Passed(now, workers) {
        times := before;
      } else {
        times := before + [k - 1];
      }
    }
  }
}
