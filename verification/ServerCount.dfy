/** What a round of counting publishes: how many connections were flagged, each at the moment its flag was read. */
module ServerCount {
  import opened Server

  const FIRST_FD: nat := 2

  predicate Counting(s: State) {
    s.main.CountingFree? || s.main.CountingBusy?
  }

  /** The main loop counts from `a` on and is done at `b`; workers move in between as they like. */
  ghost predicate Round(run: seq<State>, a: nat, b: nat) {
    && a < b < |run| && run[a].main == CountingFree(FIRST_FD, {}, 0) && run[b].main.Selecting?
    && forall k :: a <= k < b ==> Counting(run[k])
  }

  /** At point `k` of a run the flag of `fd` is read for the read set. */
  predicate ReadsFree(run: seq<State>, k: nat, fd: nat) {
    k + 1 < |run| && run[k].main.CountingFree? && run[k].main.i == fd && run[k + 1].main.CountingBusy?
  }

  /** At point `k` it is read again for the count. */
  predicate ReadsBusy(run: seq<State>, k: nat, fd: nat) {
    k + 1 < |run| && run[k].main.CountingBusy? && run[k].main.i == fd && run[k + 1].main.CountingFree?
  }

  predicate Unflagged(s: State, fd: nat) {
    fd in s.clients && !s.clients[fd]
  }

  /** The `k`-th descriptor of a round. */
  function FdAt(k: nat): nat { k + FIRST_FD }

  /** When each flag was read, descriptor by descriptor: within the round, and the later ones later. */
  ghost predicate FreeTimes(run: seq<State>, a: nat, b: nat, times: seq<nat>) {
    && (forall k :: 0 <= k < |times| ==> a <= times[k] < b && ReadsFree(run, times[k], FdAt(k)))
    && (forall k, l :: 0 <= k < l < |times| ==> times[k] < times[l])
  }

  ghost predicate BusyTimes(run: seq<State>, a: nat, b: nat, times: seq<nat>) {
    && (forall k :: 0 <= k < |times| ==> a <= times[k] < b && ReadsBusy(run, times[k], FdAt(k)))
    && (forall k, l :: 0 <= k < l < |times| ==> times[k] < times[l])
  }

  predicate WasFree(run: seq<State>, times: seq<nat>, fd: nat) {
    FIRST_FD <= fd < FdAt(|times|) && times[fd - FIRST_FD] < |run| && Unflagged(run[times[fd - FIRST_FD]], fd)
  }

  predicate WasFlagged(run: seq<State>, times: seq<nat>, fd: nat) {
    FIRST_FD <= fd < FdAt(|times|) && times[fd - FIRST_FD] < |run| && Flagged(run[times[fd - FIRST_FD]], fd)
  }

  /** The descriptors that were unflagged when they were read. */
  ghost function SeenFree(run: seq<State>, times: seq<nat>): (s: set<nat>)
    ensures forall fd :: fd in s <==> WasFree(run, times, fd)
  {
    set fd: nat | fd < FdAt(|times|) && WasFree(run, times, fd)
  }

  /** Those that were flagged when they were read again. */
  ghost function SeenFlagged(run: seq<State>, times: seq<nat>): (s: set<nat>)
    ensures forall fd :: fd in s <==> WasFlagged(run, times, fd)
  {
    set fd: nat | fd < FdAt(|times|) && WasFlagged(run, times, fd)
  }

  /** While the main loop counts, a step is its own or leaves it where it is. */
  lemma CountingStep(s: State, s': State)
    requires Counting(s) && Next(s, s')
    ensures s'.main == s.main || CountStep(s, s')
  {
    hide CountStep, DispatchStep, AfterHandling;
    if w, o :| WorkerStep(s, s', w, o) {
      WorkerKeepsMain(s, s', w, o);
    }
    NoDispatch(s, s');
  }

  lemma WorkerKeepsMain(s: State, s': State, w: nat, o: Outcome)
    requires WorkerStep(s, s', w, o)
    ensures s'.main == s.main
  {
  }

  lemma NoDispatch(s: State, s': State)
    requires Counting(s)
    ensures !DispatchStep(s, s')
  {
  }

  lemma FreeSnoc(run: seq<State>, times: seq<nat>, k: nat)
    requires k < |run|
    ensures var fd := FdAt(|times|);
            SeenFree(run, times + [k]) == SeenFree(run, times) + if Unflagged(run[k], fd) then {fd} else {}
  {
    assert forall l :: 0 <= l < |times| ==> (times + [k])[l] == times[l];
  }

  lemma FlaggedSnoc(run: seq<State>, times: seq<nat>, k: nat)
    requires k < |run|
    ensures var fd := FdAt(|times|);
            && SeenFlagged(run, times + [k]) == SeenFlagged(run, times) + (if Flagged(run[k], fd) then {fd} else {})
            && fd !in SeenFlagged(run, times)
  {
    assert forall l :: 0 <= l < |times| ==> (times + [k])[l] == times[l];
  }

  /** What the main loop has found when it has come to point `j`. */
  ghost predicate SoFar(run: seq<State>, a: nat, j: nat, free: seq<nat>, busy: seq<nat>) {
    && a <= j < |run| && FreeTimes(run, a, j, free) && BusyTimes(run, a, j, busy)
    && match run[j].main
       case CountingFree(i, readset, count) =>
         && i == FdAt(|free|) <= MAX_FD && |busy| == |free| && readset == SeenFree(run, free) && count == |SeenFlagged(run, busy)|
       case CountingBusy(i, readset, count) =>
         && i == FdAt(|busy|) < MAX_FD && |free| == |busy| + 1 && readset == SeenFree(run, free) && count == |SeenFlagged(run, busy)|
       case _ => false
  }

  lemma TimesSnoc(run: seq<State>, a: nat, j: nat, times: seq<nat>)
    ensures FreeTimes(run, a, j, times) && a <= j && ReadsFree(run, j, FdAt(|times|)) ==> FreeTimes(run, a, j + 1, times + [j])
    ensures BusyTimes(run, a, j, times) && a <= j && ReadsBusy(run, j, FdAt(|times|)) ==> BusyTimes(run, a, j + 1, times + [j])
    ensures FreeTimes(run, a, j, times) ==> FreeTimes(run, a, j + 1, times)
    ensures BusyTimes(run, a, j, times) ==> BusyTimes(run, a, j + 1, times)
  {
    hide ReadsFree, ReadsBusy;
  }

  /** One step further. */
  lemma Advance(run: seq<State>, a: nat, j: nat, free: seq<nat>, busy: seq<nat>) returns (free': seq<nat>, busy': seq<nat>)
    requires SoFar(run, a, j, free, busy) && j + 1 < |run| && Next(run[j], run[j + 1]) && Counting(run[j + 1])
    ensures SoFar(run, a, j + 1, free', busy')
  {
    hide Next, FreeTimes, BusyTimes, SeenFree, SeenFlagged;
    var s, s' := run[j], run[j + 1];
    free', busy' := free, busy;
    TimesSnoc(run, a, j, free);
    TimesSnoc(run, a, j, busy);
    CountingStep(s, s');
    if s'.main != s.main {
      if s.main.CountingFree? {
        FreeSnoc(run, free, j);
        free' := free + [j];
      } else {
        FlaggedSnoc(run, busy, j);
        busy' := busy + [j];
      }
    }
  }

  lemma {:induction false} AdvanceTo(workers: nat, run: seq<State>, a: nat, b: nat, j: nat) returns (free: seq<nat>, busy: seq<nat>)
    requires IsRun(workers, run) && Round(run, a, b) && a <= j < b
    ensures SoFar(run, a, j, free, busy)
    decreases j
  {
    hide Next, SoFar;
    if j == a {
      free, busy := [], [];
      assert SoFar(run, a, a, [], []) by { Nothing(run, a); }
    } else {
      var f, g := AdvanceTo(workers, run, a, b, j - 1);
      assert Next(run[j - 1], run[j - 1 + 1]);
      free, busy := Advance(run, a, j - 1, f, g);
    }
  }

  lemma Nothing(run: seq<State>, a: nat)
    requires a < |run| && run[a].main == CountingFree(FIRST_FD, {}, 0)
    ensures SoFar(run, a, a, [], [])
  {
    assert SeenFree(run, []) == {} && SeenFlagged(run, []) == {};
  }

  /** The set has exactly the descriptors from 2 to 1023 that were flagged, each at its own time. */
  ghost predicate AreFlagged(run: seq<State>, times: seq<nat>, flagged: set<nat>)
    requires |times| == 1022 && forall k :: 0 <= k < 1022 ==> times[k] < |run|
  {
    forall fd :: fd in flagged <==> 2 <= fd < 1024 && Flagged(run[times[fd - 2]], fd)
  }

  ghost predicate AllFlagged(s: State, flagged: set<nat>) {
    forall fd :: fd in flagged <==> 2 <= fd < 1024 && fd in s.clients && s.clients[fd]
  }

  /** In every run, over every round of counting: each of the descriptors 2 to 1023 is read once for the read set and
      then once for the count, one after the other; the read set are exactly those that had an entry and no flag when
      they were read, and the published number is that of the descriptors that were flagged when they were read again. */
  lemma {:induction false} RoundExact(workers: nat, run: seq<State>, a: nat, b: nat) returns (free: seq<nat>, busy: seq<nat>)
    requires IsRun(workers, run) && Round(run, a, b)
    ensures |free| == |busy| == 1022 && FreeTimes(run, a, b, free) && BusyTimes(run, a, b, busy)
    ensures forall fd :: fd in run[b].main.readset <==> 2 <= fd < 1024 && Unflagged(run[free[fd - 2]], fd)
    ensures exists flagged :: AreFlagged(run, busy, flagged) && run[b].active == |flagged|
  {
    hide Next, FreeTimes, BusyTimes;
    free, busy := AdvanceTo(workers, run, a, b, b - 1);
    assert Next(run[b - 1], run[b - 1 + 1]);
    CountingStep(run[b - 1], run[b]);
    TimesSnoc(run, a, b - 1, free);
    TimesSnoc(run, a, b - 1, busy);
    InRound(run, a, b, free, busy);
    assert AreFlagged(run, busy, SeenFlagged(run, busy));
  }

  lemma InRound(run: seq<State>, a: nat, b: nat, free: seq<nat>, busy: seq<nat>)
    requires b < |run| && FreeTimes(run, a, b, free) && BusyTimes(run, a, b, busy)
    ensures forall k :: 0 <= k < |free| ==> a <= free[k] < b
    ensures forall k :: 0 <= k < |busy| ==> a <= busy[k] < b
  {
    hide ReadsFree, ReadsBusy;
  }

  /** So while no flag changes, the published number is simply that of the flagged connections, and the read set holds all
      the others. */
  lemma {:induction false} SteadyRound(workers: nat, run: seq<State>, a: nat, b: nat)
    requires IsRun(workers, run) && Round(run, a, b)
    requires forall k :: a <= k <= b ==> run[k].clients == run[a].clients
    ensures forall fd :: fd in run[b].main.readset <==> 2 <= fd < 1024 && fd in run[b].clients && !run[b].clients[fd]
    ensures exists flagged :: AllFlagged(run[b], flagged) && run[b].active == |flagged|
  {
    var free, busy := RoundExact(workers, run, a, b);
    InRound(run, a, b, free, busy);
    var flagged :| AreFlagged(run, busy, flagged) && run[b].active == |flagged|;
    hide IsRun, FreeTimes, BusyTimes;
    assert forall k :: 0 <= k < 1022 ==> run[free[k]].clients == run[b].clients;
    assert forall k :: 0 <= k < 1022 ==> run[busy[k]].clients == run[b].clients;
    forall fd: nat ensures fd in flagged <==> 2 <= fd < 1024 && fd in run[b].clients && run[b].clients[fd] {
      if 2 <= fd < 1024 { assert run[busy[fd - 2]].clients == run[b].clients; }
    }
    assert AllFlagged(run[b], flagged);
    forall fd: nat ensures fd in run[b].main.readset <==> 2 <= fd < 1024 && fd in run[b].clients && !run[b].clients[fd] {
      if 2 <= fd < 1024 { assert run[free[fd - 2]].clients == run[b].clients; }
    }
  }
}
