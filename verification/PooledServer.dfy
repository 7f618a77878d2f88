/** The dispatcher running on the thread pool: the main loop is the pool's only dispatcher, and each task handles one
    message.  Seen from outside, it takes exactly the steps of `Server`. */
module PooledServer {
  import T = ThreadPool
  import S = Server

  /** Where a worker's last task is in `server_thread_func`. */
  datatype Phase = Fresh | Handling | Clearing | Done(fd: nat)

  /** The main loop, or a call of `run_task` for a connection. */
  datatype Main = Loop(main: S.Main) | Calling(fd: nat, ready: set<nat>)

  /** `fds` has the connection of every task ever made. */
  datatype State = State(pool: T.State, fds: map<T.Task, nat>, phases: seq<Phase>, clients: map<nat, bool>, open: set<nat>,
                         main: Main, active: nat)

  function Initial(workers: nat): State {
    State(T.Initial(workers, 1), map[], seq(workers, _ => Fresh), map[], {}, Loop(S.CountingFree(2, {}, 0)), 0)
  }

  // ---- The view of `Server` ----

  function Connection(fds: map<T.Task, nat>, t: T.Task): nat {
    if t in fds then fds[t] else 0
  }

  /** A worker as `Server` sees it: what is in flight to it counts as held already. */
  function WorkerView(h: T.Dispatcher, x: T.Worker, w: nat, fds: map<T.Task, nat>, phase: Phase): S.Worker {
    var given := T.InFlight(h, x, w);
    if given.Some? then S.Holding(Connection(fds, given.value))
    else
      match x.pc
      case Starting => S.Starting
      case Freeing => if phase.Done? then S.Returning(phase.fd) else S.Starting
      case Waiting => S.Idle
      case Locked => S.Idle
      case Running(t) =>
        match phase
        case Clearing => S.Handled(Connection(fds, t))
        case Done(fd) => S.Returning(fd)
        case _ => S.Holding(Connection(fds, t))
  }

  function MainView(main: Main, d: T.Dispatcher, workers: nat): S.Main {
    match main
    case Loop(m) => m
    case Calling(fd, ready) =>
      match d
      case Scanning(_, i) => S.Scanning(fd, ready, if i < workers then i else workers)
      case SettingBusy(_, i) => S.Scanning(fd, ready, i)
      case SettingArg(_, _) => S.Dispatching(fd + 1, ready)
      case Unlocking(_, _) => S.Dispatching(fd + 1, ready)
      case Releasing(_, success) => if success then S.Dispatching(fd + 1, ready) else S.Scanning(fd, ready, workers)
      case _ => S.Scanning(fd, ready, 0)
  }

  function View(s: State): S.State
    requires |s.phases| == |s.pool.workers| && |s.pool.dispatchers| == 1
  {
    var h := T.Holder(s.pool);
    S.State(s.clients, s.open,
            seq(|s.pool.workers|, w requires 0 <= w < |s.pool.workers| =>
              WorkerView(h, s.pool.workers[w], w, s.fds, s.phases[w])),
            MainView(s.main, s.pool.dispatchers[0], |s.pool.workers|), s.active)
  }

  // ---- Steps ----

  predicate Shape(s: State) {
    |s.phases| == |s.pool.workers| && |s.pool.dispatchers| == 1
  }

  /** A step of `task_thread_func`; a task ends when its function returns. */
  predicate WorkerMove(s: State, s': State, w: nat) {
    && T.WorkerStep(s.pool, s'.pool, w) && w < |s.phases|
    && (s.pool.workers[w].pc.Running? ==> s.phases[w].Done?)
    && s' == s.(pool := s'.pool, phases := if s.pool.workers[w].pc.Locked? then s.phases[w := Handling] else s.phases)
  }

  /** A step of `server_thread_func`: the message is handled, then the flag is cleared. */
  predicate TaskMove(s: State, s': State, w: nat, outcome: S.Outcome) {
    && Shape(s) && w < |s.phases| && s.pool.workers[w].pc.Running?
    && var fd := Connection(s.fds, s.pool.workers[w].pc.task);
       match s.phases[w]
       case Handling =>
         var v := S.AfterHandling(View(s), fd, outcome);
         s' == s.(clients := v.clients, open := v.open, phases := s.phases[w := Clearing])
       case Clearing =>
         s' == s.(clients := if fd in s.clients then s.clients[fd := false] else s.clients, phases := s.phases[w := Done(fd)])
       case _ => false
  }

  /** The main loop outside `run_task` touches nothing of the pool. */
  predicate LoopMove(s: State, s': State, fd: nat, outcome: S.Outcome, ready: set<nat>) {
    && Shape(s) && s.main.Loop? && s'.main.Loop? && !s'.main.main.Scanning?
    && s' == s.(clients := s'.clients, open := s'.open, main := s'.main, active := s'.active)
    && (S.CountStep(View(s), View(s')) || S.AcceptStep(View(s), View(s'), fd, outcome)
        || S.SelectStep(View(s), View(s'), ready) || S.DispatchStep(View(s), View(s')))
  }

  /** `choose_thread`: the flag, a new task, and the call of `run_task`. */
  predicate CallMove(s: State, s': State) {
    && Shape(s) && s.main.Loop? && s.main.main.Dispatching? && s.pool.dispatchers[0].Resting?
    && T.DispatcherStep(s.pool, s'.pool, 0)
    && var i, ready := s.main.main.i, s.main.main.ready;
       && i < S.MAX_FD && i in ready && i in s.clients
       && s' == s.(pool := s'.pool, fds := s.fds[s.pool.next := i], clients := s.clients[i := true], main := Calling(i, ready))
  }

  /** Inside `run_task`. */
  predicate InsideMove(s: State, s': State) {
    && Shape(s) && s.main.Calling? && !s.pool.dispatchers[0].Resting? && !s.pool.dispatchers[0].Releasing?
    && T.DispatcherStep(s.pool, s'.pool, 0) && s' == s.(pool := s'.pool)
  }

  /** `run_task` returns; if it found no worker, the main loop clears the flag and answers itself. */
  predicate ReturnMove(s: State, s': State, outcome: S.Outcome) {
    && Shape(s) && s.main.Calling? && s.pool.dispatchers[0].Releasing?
    && T.DispatcherStep(s.pool, s'.pool, 0)
    && var fd, next := s.main.fd, Loop(S.Dispatching(s.main.fd + 1, s.main.ready));
       if s.pool.dispatchers[0].success then
         s' == s.(pool := s'.pool, main := next)
       else
         && fd in s.clients && !outcome.Login?
         && var v := S.AfterHandling(View(s).(clients := s.clients[fd := false]), fd, outcome);
            s' == s.(pool := s'.pool, clients := v.clients, open := v.open, main := next)
  }

  ghost predicate Next(s: State, s': State) {
    || (exists w: nat :: WorkerMove(s, s', w))
    || (exists w: nat, o :: TaskMove(s, s', w, o))
    || (exists fd: nat, o, r :: LoopMove(s, s', fd, o, r))
    || CallMove(s, s')
    || InsideMove(s, s')
    || (exists o :: ReturnMove(s, s', o))
  }

  ghost predicate IsRun(workers: nat, run: seq<State>) {
    && run != [] && run[0] == Initial(workers)
    && forall k :: 0 <= k < |run| - 1 ==> Next(run[k], run[k + 1])
  }

  // ---- The invariant ----

  /** Every task has its connection; a worker's phase fits where it is. */
  predicate PhaseOk(x: T.Worker, phase: Phase, fds: map<T.Task, nat>) {
    match x.pc
    case Running(t) => !phase.Fresh? && (phase.Done? ==> phase.fd == Connection(fds, t))
    case Starting => phase.Fresh?
    case _ => phase.Fresh? || phase.Done?
  }

  ghost predicate Inv(s: State) {
    && Shape(s) && T.Inv(s.pool)
    && (s.main.Calling? <==> !s.pool.dispatchers[0].Resting?)
    && (s.main.Calling? ==> s.pool.dispatchers[0].task in s.fds && s.fds[s.pool.dispatchers[0].task] == s.main.fd)
    && (s.main.Loop? ==> !s.main.main.Scanning?)
    && (forall t :: t in s.fds ==> t < s.pool.next)
    && (forall w :: 0 <= w < |s.phases| ==> PhaseOk(s.pool.workers[w], s.phases[w], s.fds))
  }

  lemma InitialInv(workers: nat)
    ensures Inv(Initial(workers)) && View(Initial(workers)) == S.Initial(workers)
  {
    T.InitialInv(workers, 1);
  }

  /** A step that `Server` allows, or one that it does not see. */
  ghost predicate Simulates(s: State, s': State)
    requires Shape(s) && Shape(s')
  {
    View(s') == View(s) || S.Next(View(s), View(s'))
  }

  // ---- Workers ----

  function At(s: State, w: nat): S.Worker
    requires Shape(s) && w < |s.phases|
  {
    WorkerView(T.Holder(s.pool), s.pool.workers[w], w, s.fds, s.phases[w])
  }

  lemma ViewWorkers(s: State)
    requires Shape(s)
    ensures |View(s).workers| == |s.phases| && forall w :: 0 <= w < |s.phases| ==> View(s).workers[w] == At(s, w)
  {
  }

  /** The views of two states, when at most worker `w` looks different. */
  lemma ViewUpdate(s: State, s': State, w: nat)
    requires Shape(s) && Shape(s') && |s.phases| == |s'.phases| && w < |s.phases|
    requires forall v :: 0 <= v < |s.phases| && v != w ==> At(s', v) == At(s, v)
    ensures View(s').workers == View(s).workers[w := At(s', w)]
    ensures At(s', w) == At(s, w) ==> View(s').workers == View(s).workers
  {
    hide At;
    ViewWorkers(s);
    ViewWorkers(s');
    hide View;
    assert View(s).workers[w := At(s, w)] == View(s).workers;
  }

  lemma ViewSame(s: State, s': State)
    requires Shape(s) && Shape(s') && |s.phases| == |s'.phases|
    requires forall v :: 0 <= v < |s.phases| ==> At(s', v) == At(s, v)
    ensures View(s').workers == View(s).workers
  {
    hide At;
    ViewWorkers(s);
    ViewWorkers(s');
    hide View;
  }

  /** What the pool's invariant says about one worker, and that its task is no later one. */
  lemma OneWorker(s: State, w: nat)
    requires Inv(s) && w < |s.phases|
    ensures T.WorkerOk(T.Holder(s.pool), s.pool.workers[w], w)
    ensures T.InFlight(T.Holder(s.pool), s.pool.workers[w], w).Some? ==>
              T.InFlight(T.Holder(s.pool), s.pool.workers[w], w).value < s.pool.next
    ensures s.pool.workers[w].pc.Running? ==> s.pool.workers[w].pc.task < s.pool.next
  {
    hide T.MutexOk, T.InFlight, T.WorkerOk, T.Holder, T.In, T.Distinct, View;
    var x := s.pool.workers[w];
    if x.pc.Running? {
      assert (x.pc.task, w) in s.pool.begun;
      var k :| 0 <= k < |s.pool.begun| && s.pool.begun[k] == (x.pc.task, w);
      assert s.pool.begun[k].0 in s.pool.accepted;
    }
  }

  lemma PoolKeepsInv(s: State, s': State, w: nat)
    requires Inv(s) && WorkerMove(s, s', w)
    ensures Inv(s') && T.Holder(s'.pool) == T.Holder(s.pool)
  {
    hide T.Inv, View;
    T.WorkerKeepsInv(s.pool, s'.pool, w);
  }

  lemma ViewFields(s: State)
    requires Shape(s)
    ensures View(s).clients == s.clients && View(s).open == s.open && View(s).active == s.active
    ensures View(s).main == MainView(s.main, s.pool.dispatchers[0], |s.pool.workers|)
  {
  }

  /** A step of a worker is seen only when it becomes idle. */
  lemma WorkerMoveView(s: State, s': State, w: nat)
    requires Inv(s) && Shape(s') && WorkerMove(s, s', w) && T.Holder(s'.pool) == T.Holder(s.pool)
    ensures At(s', w) == At(s, w) || (At(s', w).Idle? && (At(s, w).Starting? || At(s, w).Returning?))
  {
    hide T.Inv, T.Holder, T.WorkerOk, PhaseOk, WorkerView, View;
    OneWorker(s, w);
    assert PhaseOk(s.pool.workers[w], s.phases[w], s.fds);
    TurnView(T.Holder(s.pool), s.pool.workers[w], s'.pool.workers[w], w, s.fds, s.phases[w], s'.phases[w]);
  }

  /** What a step of `task_thread_func` does to the worker itself. */
  predicate Turn(x: T.Worker, x': T.Worker, phase: Phase, phase': Phase) {
    match x.pc
    case Starting => x' == x.(pc := T.Freeing, controlLocked := true) && phase' == phase
    case Freeing => x' == x.(pc := T.Waiting, busy := false) && phase' == phase
    case Waiting => x' == x.(pc := T.Locked, controlLocked := true) && !x.controlLocked && phase' == phase
    case Locked => x' == x.(pc := T.Running(x.arg)) && phase' == Handling
    case Running(_) => x' == x.(pc := T.Freeing) && phase' == phase && phase.Done?
  }

  lemma TurnView(h: T.Dispatcher, x: T.Worker, x': T.Worker, w: nat, fds: map<T.Task, nat>, phase: Phase, phase': Phase)
    requires Turn(x, x', phase, phase') && T.WorkerOk(h, x, w) && PhaseOk(x, phase, fds)
    ensures var now, then' := WorkerView(h, x, w, fds, phase), WorkerView(h, x', w, fds, phase');
            then' == now || (then'.Idle? && (now.Starting? || now.Returning?))
  {
  }

  lemma WorkerMoveSimulates(s: State, s': State, w: nat)
    requires Inv(s) && WorkerMove(s, s', w)
    ensures Inv(s') && Simulates(s, s')
  {
    PoolKeepsInv(s, s', w);
    WorkerMoveView(s, s', w);
    OthersSame(s, s', w);
    hide Inv, View, At, T.Holder, T.WorkerStep, MainView;
    ViewUpdate(s, s', w);
    ViewFields(s);
    ViewFields(s');
    ViewWorkers(s);
    if At(s', w) != At(s, w) {
      assert S.WorkerStep(View(s), View(s'), w, S.Other);
    }
  }

  lemma OthersSame(s: State, s': State, w: nat)
    requires Shape(s) && Shape(s') && WorkerMove(s, s', w) && T.Holder(s'.pool) == T.Holder(s.pool)
    ensures forall v :: 0 <= v < |s.phases| && v != w ==> At(s', v) == At(s, v)
    ensures s'.pool.dispatchers == s.pool.dispatchers
  {
    hide T.Holder, T.InFlight;
  }

  lemma TaskKeepsInv(s: State, s': State, w: nat, o: S.Outcome)
    requires Inv(s) && TaskMove(s, s', w, o)
    ensures Inv(s') && s'.pool == s.pool && s'.main == s.main && s'.active == s.active
  {
    hide T.Inv, View, S.AfterHandling, Connection;
    assert PhaseOk(s.pool.workers[w], s.phases[w], s.fds);
    assert forall v :: 0 <= v < |s.phases| && v != w ==> s'.phases[v] == s.phases[v];
  }

  /** Handling a message and clearing the flag are the steps that `Server` gives to a worker that has a connection. */
  lemma TaskMoveSimulates(s: State, s': State, w: nat, o: S.Outcome)
    requires Inv(s) && TaskMove(s, s', w, o)
    ensures Inv(s') && Simulates(s, s')
  {
    OneWorker(s, w);
    TaskKeepsInv(s, s', w, o);
    TaskMoveView(s, s', w, o);
    hide Inv, View, At, T.Holder, T.WorkerOk, MainView, S.WorkerStep, S.AfterHandling, S.ScanStep, S.CountStep, S.AcceptStep,
         S.SelectStep, S.DispatchStep;
    ViewUpdate(s, s', w);
    ViewFields(s);
    ViewFields(s');
    ViewWorkers(s);
    TaskSeen(View(s), View(s'), w, Connection(s.fds, s.pool.workers[w].pc.task), o);
  }

  lemma TaskSeen(v: S.State, v': S.State, w: nat, fd: nat, o: S.Outcome)
    requires w < |v.workers| && v'.main == v.main && v'.active == v.active
    requires var after := S.AfterHandling(v, fd, o);
             || (v.workers[w] == S.Holding(fd) && v'.workers == v.workers[w := S.Handled(fd)]
                 && v'.clients == after.clients && v'.open == after.open)
             || (v.workers[w] == S.Handled(fd) && v'.workers == v.workers[w := S.Returning(fd)] && v'.open == v.open
                 && v'.clients == if fd in v.clients then v.clients[fd := false] else v.clients)
    ensures S.WorkerStep(v, v', w, o)
  {
  }

  lemma TaskMoveView(s: State, s': State, w: nat, o: S.Outcome)
    requires Shape(s) && TaskMove(s, s', w, o) && T.WorkerOk(T.Holder(s.pool), s.pool.workers[w], w)
    ensures Shape(s') && forall v :: 0 <= v < |s.phases| && v != w ==> At(s', v) == At(s, v)
    ensures var fd := Connection(s.fds, s.pool.workers[w].pc.task);
            if s.phases[w].Handling? then At(s, w) == S.Holding(fd) && At(s', w) == S.Handled(fd)
            else At(s, w) == S.Handled(fd) && At(s', w) == S.Returning(fd)
  {
    hide T.Holder, View;
  }

  // ---- The main loop ----

  lemma LoopMoveSimulates(s: State, s': State, fd: nat, o: S.Outcome, r: set<nat>)
    requires Inv(s) && LoopMove(s, s', fd, o, r)
    ensures Inv(s') && Simulates(s, s')
  {
    hide T.Inv, View, S.CountStep, S.AcceptStep, S.SelectStep, S.DispatchStep;
  }

  lemma CallMoveView(s: State, s': State, v: nat)
    requires Inv(s) && CallMove(s, s') && Shape(s') && v < |s.phases| && T.Holder(s'.pool) == T.Holder(s.pool)
    ensures At(s', v) == At(s, v) && PhaseOk(s'.pool.workers[v], s'.phases[v], s'.fds)
  {
    OneWorker(s, v);
    assert PhaseOk(s.pool.workers[v], s.phases[v], s.fds);
    hide Inv, T.Holder, T.WorkerOk;
  }

  /** New tasks leave the connections of the old ones alone. */
  lemma CallKeepsInv(s: State, s': State)
    requires Inv(s) && CallMove(s, s')
    ensures Inv(s') && forall v :: 0 <= v < |s.phases| ==> At(s', v) == At(s, v)
  {
    T.DispatcherKeepsInv(s.pool, s'.pool, 0);
    T.DispatcherKeepsMutex(s.pool, s'.pool, 0);
    hide T.Inv, At, T.Holder, PhaseOk;
    forall v | 0 <= v < |s.phases| ensures At(s', v) == At(s, v) && PhaseOk(s'.pool.workers[v], s'.phases[v], s'.fds) {
      CallMoveView(s, s', v);
    }
  }

  lemma CallMoveSimulates(s: State, s': State)
    requires Inv(s) && CallMove(s, s')
    ensures Inv(s') && Simulates(s, s')
  {
    CallKeepsInv(s, s');
    hide Inv, View, At;
    ViewSame(s, s');
    ViewFields(s);
    ViewFields(s');
    assert S.DispatchStep(View(s), View(s'));
  }

  /** What a step inside `run_task` comes to for worker `v`. */
  predicate InsideFor(d: T.Dispatcher, d': T.Dispatcher, x: T.Worker, x': T.Worker, v: nat) {
    match d
    case Acquiring(t) => d' == T.Scanning(t, 0) && x' == x
    case Scanning(t, i) =>
      && x' == x
      && (d'.Releasing? || d'.Scanning? || (d' == T.SettingBusy(t, i) && (i == v ==> !x.busy)))
    case SettingBusy(t, i) => d' == T.SettingArg(t, i) && x' == if v == i then x.(busy := true) else x
    case SettingArg(t, i) => d' == T.Unlocking(t, i) && x' == if v == i then x.(arg := t) else x
    case Unlocking(t, i) => d' == T.Releasing(t, true) && x' == if v == i then x.(controlLocked := false) else x
    case _ => false
  }

  lemma InsideMoveFor(s: State, s': State, v: nat)
    requires InsideMove(s, s') && Shape(s') && v < |s.phases|
    ensures InsideFor(s.pool.dispatchers[0], s'.pool.dispatchers[0], s.pool.workers[v], s'.pool.workers[v], v)
    ensures s'.phases == s.phases && s'.fds == s.fds
  {
  }

  /** Inside `run_task` only the choice of a worker and the turn to the next one are seen. */
  lemma InsideView(d: T.Dispatcher, d': T.Dispatcher, x: T.Worker, x': T.Worker, v: nat, fds: map<T.Task, nat>, phase: Phase)
    requires InsideFor(d, d', x, x', v)
    requires T.WorkerOk(if d.Acquiring? then T.Resting else d, x, v) && PhaseOk(x, phase, fds)
    ensures PhaseOk(x', phase, fds)
    ensures var now := WorkerView(if d.Acquiring? then T.Resting else d, x, v, fds, phase);
            var then' := WorkerView(d', x', v, fds, phase);
            && (if d.SettingBusy? && d.i == v then now.Idle? && then' == S.Holding(Connection(fds, d.task)) else then' == now)
            && (d.Scanning? && d.i == v && x.busy ==> !now.Idle?)
  {
  }

  lemma InsideKeepsInv(s: State, s': State)
    requires Inv(s) && InsideMove(s, s')
    ensures Inv(s')
    ensures forall v :: 0 <= v < |s.phases| ==>
              if s.pool.dispatchers[0].SettingBusy? && s.pool.dispatchers[0].i == v then
                At(s, v).Idle? && At(s', v) == S.Holding(s.main.fd)
              else At(s', v) == At(s, v)
    ensures var d := s.pool.dispatchers[0];
            d.Scanning? && d.i < |s.phases| && s.pool.workers[d.i].busy ==> !At(s, d.i).Idle?
  {
    T.DispatcherKeepsInv(s.pool, s'.pool, 0);
    T.DispatcherKeepsMutex(s.pool, s'.pool, 0);
    var d := s.pool.dispatchers[0];
    hide T.Inv, T.Holder, T.WorkerOk, PhaseOk, WorkerView;
    forall v | 0 <= v < |s.phases|
      ensures PhaseOk(s'.pool.workers[v], s'.phases[v], s'.fds)
      ensures if d.SettingBusy? && d.i == v then At(s, v).Idle? && At(s', v) == S.Holding(s.main.fd)
              else At(s', v) == At(s, v)
      ensures d.Scanning? && d.i == v && s.pool.workers[v].busy ==> !At(s, v).Idle?
    {
      OneWorker(s, v);
      InsideMoveFor(s, s', v);
      InsideView(d, s'.pool.dispatchers[0], s.pool.workers[v], s'.pool.workers[v], v, s.fds, s.phases[v]);
    }
  }

  lemma InsideMoveSimulates(s: State, s': State)
    requires Inv(s) && InsideMove(s, s')
    ensures Inv(s') && Simulates(s, s')
  {
    InsideKeepsInv(s, s');
    hide Inv, View, At, S.WorkerStep, S.ScanStep, S.CountStep, S.AcceptStep, S.SelectStep, S.DispatchStep;
    ViewFields(s);
    ViewFields(s');
    ViewWorkers(s);
    var d := s.pool.dispatchers[0];
    if d.SettingBusy? {
      ViewUpdate(s, s', d.i);
      ScanSeen(View(s), View(s'));
    } else {
      ViewSame(s, s');
      if d.Scanning? && d.i < |s.pool.workers| && s.pool.workers[d.i].busy {
        ScanSeen(View(s), View(s'));
      }
    }
  }

  /** The main loop hands over to an idle worker, or turns to the next one. */
  lemma ScanSeen(v: S.State, v': S.State)
    requires v.main.Scanning? && v.main.w < |v.workers|
    requires v' == v.(workers := v'.workers, main := v'.main)
    requires var fd, ready, w := v.main.fd, v.main.ready, v.main.w;
             if v.workers[w].Idle? then
               v'.workers == v.workers[w := S.Holding(fd)] && v'.main == S.Dispatching(fd + 1, ready)
             else v'.workers == v.workers && v'.main == S.Scanning(fd, ready, w + 1)
    ensures S.ScanStep(v, v', S.Other)
  {
  }

  lemma ReturnKeepsInv(s: State, s': State, o: S.Outcome)
    requires Inv(s) && ReturnMove(s, s', o)
    ensures Inv(s') && forall v :: 0 <= v < |s.phases| ==> At(s', v) == At(s, v)
  {
    T.DispatcherKeepsInv(s.pool, s'.pool, 0);
    T.DispatcherKeepsMutex(s.pool, s'.pool, 0);
    hide T.Inv, T.Holder, PhaseOk, View, S.AfterHandling;
  }

  lemma ReturnMoveSimulates(s: State, s': State, o: S.Outcome)
    requires Inv(s) && ReturnMove(s, s', o)
    ensures Inv(s') && Simulates(s, s')
  {
    ReturnKeepsInv(s, s', o);
    hide Inv, View, At;
    ViewSame(s, s');
    ViewFields(s);
    ViewFields(s');
    if !s.pool.dispatchers[0].success {
      assert S.ScanStep(View(s), View(s'), o);
    }
  }

  lemma StepSimulates(s: State, s': State)
    requires Inv(s) && Next(s, s')
    ensures Inv(s') && Simulates(s, s')
  {
    hide Inv, Simulates, WorkerMove, TaskMove, LoopMove, CallMove, InsideMove, ReturnMove;
    if w: nat :| WorkerMove(s, s', w) {
      WorkerMoveSimulates(s, s', w);
    } else if w: nat, o :| TaskMove(s, s', w, o) {
      TaskMoveSimulates(s, s', w, o);
    } else if fd: nat, o, r :| LoopMove(s, s', fd, o, r) {
      LoopMoveSimulates(s, s', fd, o, r);
    } else if CallMove(s, s') {
      CallMoveSimulates(s, s');
    } else if InsideMove(s, s') {
      InsideMoveSimulates(s, s');
    } else {
      var o :| ReturnMove(s, s', o);
      ReturnMoveSimulates(s, s', o);
    }
  }

  // ---- Runs ----

  lemma PoolOf(s: State)
    requires Inv(s)
    ensures Shape(s) && |View(s).workers| == |s.phases| && View(s).clients == s.clients && View(s).active == s.active
  {
  }

  /** Every run of the dispatcher on the pool looks like a run of `Server` that ends in the view of its last state. */
  lemma {:induction false} RunSimulates(workers: nat, run: seq<State>, k: nat) returns (seen: seq<S.State>)
    requires IsRun(workers, run) && k < |run|
    ensures Inv(run[k]) && S.IsRun(workers, seen) && seen != [] && seen[|seen| - 1] == View(run[k])
    decreases k
  {
    hide Inv, Next, S.Next, View;
    if k == 0 {
      InitialInv(workers);
      seen := [View(run[0])];
    } else {
      var before := RunSimulates(workers, run, k - 1);
      assert Next(run[k - 1], run[k - 1 + 1]);
      StepSimulates(run[k - 1], run[k]);
      PoolOf(run[k - 1]);
      PoolOf(run[k]);
      if View(run[k]) == View(run[k - 1]) {
        seen := before;
      } else {
        seen := before + [View(run[k])];
        forall j | 0 <= j < |seen| - 1 ensures S.Next(seen[j], seen[j + 1]) {
          if j < |before| - 1 { assert S.Next(before[j], before[j + 1]); }
        }
      }
    }
  }

  lemma HolderIsBusy(s: State, w: nat, fd: nat)
    requires Inv(s) && w < |s.phases| && S.Has(View(s), w, fd)
    ensures s.pool.workers[w].busy && (s.pool.workers[w].pc.Running? || T.InFlight(T.Holder(s.pool), s.pool.workers[w], w).Some?)
  {
    OneWorker(s, w);
    assert PhaseOk(s.pool.workers[w], s.phases[w], s.fds);
    hide T.Inv, T.Holder;
  }

  /** In every run of the dispatcher on the pool, with every access to a flag, a lock or an argument a step of its own:
      each flagged connection but the one being dispatched belongs to a busy worker that has a task for it, and the
      published number of active threads never exceeds the pool size. */
  lemma FlagsAreBusyWorkers(workers: nat, run: seq<State>, k: nat)
    requires IsRun(workers, run) && k < |run|
    ensures Inv(run[k]) && |run[k].phases| == workers && run[k].active <= workers
    ensures var v := View(run[k]);
            forall fd: nat :: fd in run[k].clients && run[k].clients[fd] && !(v.main.Scanning? && v.main.fd == fd) ==>
                                exists w: nat :: w < workers && S.Has(v, w, fd) && run[k].pool.workers[w].busy
  {
    hide Inv, View, S.IsRun, S.Has, IsRun;
    var seen := RunSimulates(workers, run, k);
    S.RunKeepsInv(workers, seen, |seen| - 1);
    PoolOf(run[k]);
    var v := View(run[k]);
    forall fd: nat | fd in run[k].clients && run[k].clients[fd] && !(v.main.Scanning? && v.main.fd == fd)
      ensures exists w: nat :: w < workers && S.Has(v, w, fd) && run[k].pool.workers[w].busy
    {
      assert S.Flagged(v, fd) && S.HeldBySome(v, fd);
      var w: nat :| S.Has(v, w, fd);
      HasInPool(v, w, fd);
      HolderIsBusy(run[k], w, fd);
    }
  }

  lemma HasInPool(v: S.State, w: nat, fd: nat)
    requires S.Has(v, w, fd)
    ensures w < |v.workers|
  {
  }
}
