/** What the protocol can do: every chain of genuine treasures is accepted in some run; and what a miner is doing follows
    from what it was last told. */
module MiningRuns {
  import opened Mining
  import opened Wrappers

  // ---- The mode of a miner ----

  predicate TakesMessage(s: State, s': State, i: nat) {
    MinerRead(s, s', i) || MinerAnswer(s, s', i)
  }

  /** The miner reads a message that is not a status. */
  predicate IsTold(s: State, s': State, i: nat) {
    TakesMessage(s, s', i) && !s.toMiner[i][0].Status?
  }

  ghost predicate Finds(h: Hash, s: State, s': State, i: nat) {
    exists a :: MinerFind(h, s, s', i, a)
  }

  /** A step in which the miner is told nothing leaves its mode alone, unless it finds something. */
  lemma UntoldStep(h: Hash, s: State, s': State, i: nat)
    requires Next(h, s, s') && !IsTold(s, s', i) && i < |s.miners| == |s.toMiner| == |s.toBoss|
    ensures |s'.miners| == |s.miners|
    ensures if Finds(h, s, s', i) then s.miners[i].mode.Working? && s'.miners[i].mode.Offering?
            else s'.miners[i].mode == s.miners[i].mode
  {
    hide Accepted, ExactZeros, AssignJobs, NotifyOthers;
    if j :| MinerRead(s, s', j) {
      assert j == i ==> TakesMessage(s, s', i);
    } else if j :| MinerAnswer(s, s', j) {
      assert j == i ==> TakesMessage(s, s', i);
    } else if j, a :| MinerFind(h, s, s', j, a) {
      assert j == i ==> Finds(h, s, s', i);
    } else if j :| BossHeader(s, s', j) {
    } else if BossStatus(s, s') {
    } else {
      assert BossAccept(s, s');
      AcceptKeepsMiners(s, s');
    }
  }

  lemma AcceptKeepsMiners(s: State, s': State)
    requires BossAccept(s, s')
    ensures s'.miners == s.miners
  {
  }

  predicate ToldAt(run: seq<State>, l: nat, i: nat) {
    l + 1 < |run| && IsTold(run[l], run[l + 1], i)
  }

  ghost predicate FindsAt(h: Hash, run: seq<State>, l: nat, i: nat) {
    l + 1 < |run| && Finds(h, run[l], run[l + 1], i)
  }

  /** Between points `j` and `k` of a run the miner is told nothing. */
  ghost predicate Untold(run: seq<State>, j: nat, k: nat, i: nat)
    requires k < |run|
  {
    forall l: nat :: j <= l < k ==> !ToldAt(run, l, i)
  }

  ghost predicate FindsBetween(h: Hash, run: seq<State>, j: nat, k: nat, i: nat)
    requires k < |run|
  {
    exists l: nat :: j <= l < k && FindsAt(h, run, l, i)
  }

  /** While a miner is told nothing: what was idle or offering stays so, and what was working works until it finds. */
  lemma {:induction false} UntoldKeeps(h: Hash, mine: Bytes, miners: nat, run: seq<State>, j: nat, k: nat, i: nat)
    requires IsRun(h, mine, miners, run) && j <= k < |run| && i < |run[j].miners| && Untold(run, j, k, i)
    ensures i < |run[k].miners|
    ensures run[j].miners[i].mode.Working? && FindsBetween(h, run, j, k, i) ==> run[k].miners[i].mode.Offering?
    ensures run[j].miners[i].mode.Working? && !FindsBetween(h, run, j, k, i) ==> run[k].miners[i].mode.Working?
    ensures !run[j].miners[i].mode.Working? ==>
              run[k].miners[i].mode == run[j].miners[i].mode && !FindsBetween(h, run, j, k, i)
    decreases k - j
  {
    hide Next, IsTold, Finds;
    if j < k {
      UntoldKeeps(h, mine, miners, run, j, k - 1, i);
      RunKeepsInv(h, mine, miners, run, k - 1);
      assert Next(h, run[k - 1], run[k - 1 + 1]) && !ToldAt(run, k - 1, i);
      UntoldStep(h, run[k - 1], run[k], i);
      assert FindsAt(h, run, k - 1, i) <==> Finds(h, run[k - 1], run[k], i);
    }
  }

  /** In every run, what a miner is doing at `k` follows from the last message at `j` that was not a status.  A job: it
      works, and as soon as it finds something it offers that.  Anything else: it waits. */
  lemma {:induction false} ModeFollows(h: Hash, mine: Bytes, miners: nat, run: seq<State>, j: nat, k: nat, i: nat)
    requires IsRun(h, mine, miners, run) && j < k < |run| && i < |run[j].miners|
    requires ToldAt(run, j, i) && Untold(run, j + 1, k, i)
    ensures i < |run[k].miners|
    ensures var mode := run[k].miners[i].mode;
            if !run[j].toMiner[i][0].Assign? then mode.Idle?
            else if FindsBetween(h, run, j + 1, k, i) then mode.Offering? else mode.Working?
  {
    hide Next;
    TellingSets(run[j], run[j + 1], i);
    UntoldKeeps(h, mine, miners, run, j + 1, k, i);
  }

  lemma TellingSets(s: State, s': State, i: nat)
    requires IsTold(s, s', i)
    ensures i < |s'.miners| && s'.miners[i].mode == if s.toMiner[i][0].Assign? then Working else Idle
  {
  }

  /** Before it is told anything a miner waits. */
  lemma {:induction false} WaitsAtFirst(h: Hash, mine: Bytes, miners: nat, run: seq<State>, k: nat, i: nat)
    requires IsRun(h, mine, miners, run) && k < |run| && i < miners && Untold(run, 0, k, i)
    ensures i < |run[k].miners| && run[k].miners[i].mode.Idle?
  {
    hide Next;
    UntoldKeeps(h, mine, miners, run, 0, k, i);
  }

  // ---- Every chain of genuine treasures ----

  ghost predicate EndsIn(h: Hash, mine: Bytes, miners: nat, run: seq<State>, s: State) {
    IsRun(h, mine, miners, run) && run[|run| - 1] == s
  }

  lemma Extend(h: Hash, mine: Bytes, miners: nat, run: seq<State>, s: State, s': State) returns (longer: seq<State>)
    requires EndsIn(h, mine, miners, run, s) && Next(h, s, s')
    ensures EndsIn(h, mine, miners, longer, s')
  {
    hide Next;
    longer := run + [s'];
    forall k | 0 <= k < |longer| - 1 ensures Next(h, longer[k], longer[k + 1]) {
      if k < |run| - 1 { assert Next(h, run[k], run[k + 1]); }
    }
  }

  /** Everybody is at work on the boss's treasure, and no message is under way. */
  predicate Settled(s: State, i: nat)
    requires |s.miners| == |s.toMiner| == |s.toBoss| && i < |s.miners|
  {
    s.miners[i] == Miner(false, s.boss.treasure, s.boss.n0, Working) && s.toMiner[i] == []
  }

  /** Or the next job, perhaps behind a notice, is all that a miner has to read; and then it is settled. */
  predicate NearlySettled(s: State, i: nat)
    requires |s.miners| == |s.toMiner| == |s.toBoss| && i < |s.miners|
  {
    var q := s.toMiner[i];
    && !s.miners[i].mode.Offering? && (|q| == 1 || (|q| == 2 && q[0].OtherFound?))
    && q[|q| - 1].Assign? && q[|q| - 1].n0 == s.boss.n0
    && s.boss.treasure == if s.miners[i].firstAssign then q[|q| - 1].data else s.miners[i].treasure + q[|q| - 1].data
  }

  predicate Quiet(s: State, miners: nat) {
    && |s.miners| == |s.toMiner| == |s.toBoss| == miners && s.boss.waiting.None?
    && forall i :: 0 <= i < miners ==> s.toBoss[i] == []
  }

  predicate SettledUpTo(s: State, miners: nat, j: nat) {
    && Quiet(s, miners)
    && (forall i :: 0 <= i < miners && i < j ==> Settled(s, i))
    && (forall i :: j <= i < miners ==> NearlySettled(s, i))
  }

  /** What reading does not touch. */
  predicate SameBoss(s: State, t: State) {
    t.boss == s.boss && t.wins == s.wins
  }

  function AfterRead(s: State, i: nat): State
    requires i < |s.miners| == |s.toMiner| && s.toMiner[i] != []
  {
    s.(miners := s.miners[i := Handle(s.miners[i], s.toMiner[i][0])], toMiner := s.toMiner[i := s.toMiner[i][1..]])
  }

  lemma ReadsNext(h: Hash, s: State, i: nat)
    requires i < |s.miners| == |s.toMiner| && s.toMiner[i] != [] && !s.miners[i].mode.Offering?
    ensures Next(h, s, AfterRead(s, i))
  {
    assert MinerRead(s, AfterRead(s, i), i);
  }

  lemma NoticeRead(s: State, miners: nat, i: nat)
    requires SettledUpTo(s, miners, i) && i < miners && |s.toMiner[i]| == 2
    ensures SettledUpTo(AfterRead(s, i), miners, i) && |AfterRead(s, i).toMiner[i]| == 1
  {
    var s' := AfterRead(s, i);
    forall k | 0 <= k < miners && k < i ensures Settled(s', k) { assert Settled(s, k); }
    forall k | i <= k < miners ensures NearlySettled(s', k) { assert NearlySettled(s, k); }
  }

  lemma JobRead(s: State, miners: nat, i: nat)
    requires SettledUpTo(s, miners, i) && i < miners && |s.toMiner[i]| == 1
    ensures SettledUpTo(AfterRead(s, i), miners, i + 1)
  {
    var s' := AfterRead(s, i);
    assert NearlySettled(s, i);
    forall k | 0 <= k < miners && k < i + 1 ensures Settled(s', k) { if k < i { assert Settled(s, k); } }
    forall k | i + 1 <= k < miners ensures NearlySettled(s', k) { assert NearlySettled(s, k); }
  }

  /** All miners read their next job. */
  lemma {:induction false} AllRead(h: Hash, mine: Bytes, miners: nat, run: seq<State>, s: State, j: nat)
    returns (longer: seq<State>, t: State)
    requires EndsIn(h, mine, miners, run, s) && SettledUpTo(s, miners, j) && j <= miners
    ensures EndsIn(h, mine, miners, longer, t) && SettledUpTo(t, miners, miners) && SameBoss(s, t)
    decreases miners - j
  {
    hide EndsIn, Next, Settled;
    if j == miners {
      longer, t := run, s;
    } else {
      var r, u := run, s;
      assert NearlySettled(s, j);
      if |s.toMiner[j]| == 2 {
        ReadsNext(h, s, j);
        NoticeRead(s, miners, j);
        u := AfterRead(s, j);
        r := Extend(h, mine, miners, run, s, u);
      }
      assert NearlySettled(u, j);
      ReadsNext(h, u, j);
      JobRead(u, miners, j);
      r := Extend(h, mine, miners, r, u, AfterRead(u, j));
      longer, t := AllRead(h, mine, miners, r, AfterRead(u, j), j + 1);
    }
  }

  // One round: a find, its answer, and the next jobs.

  function AfterFind(h: Hash, s: State, w: nat, d: Bytes): State
    requires w < |s.miners| == |s.toBoss|
  {
    s.(miners := s.miners[w := s.miners[w].(mode := Offering(d))],
       toBoss := s.toBoss[w := s.toBoss[w] + [Found(h(s.miners[w].treasure + d), s.miners[w].level, |d|)]])
  }

  function AfterHeader(s: State, w: nat): State
    requires w < |s.toBoss| == |s.toMiner| && s.toBoss[w] != []
  {
    s.(boss := s.boss.(waiting := Some(Pending(w, s.toBoss[w][0]))), toBoss := s.toBoss[w := s.toBoss[w][1..]],
       toMiner := s.toMiner[w := s.toMiner[w] + [Send]])
  }

  function AfterAnswer(s: State, w: nat, d: Bytes): State
    requires w < |s.miners| == |s.toMiner| == |s.toBoss| && s.toMiner[w] != []
  {
    s.(miners := s.miners[w := Handle(s.miners[w], s.toMiner[w][0])], toMiner := s.toMiner[w := s.toMiner[w][1..]],
       toBoss := s.toBoss[w := s.toBoss[w] + [Data(d)]])
  }

  /** The find is offered, the suffix asked for and sent. */
  lemma Offered(h: Hash, s: State, miners: nat, w: nat, d: Bytes) returns (s1: State, s2: State, s3: State)
    requires SettledUpTo(s, miners, miners) && w < miners && ExactZeros(h(s.boss.treasure + d), s.boss.n0)
    ensures Next(h, s, s1) && Next(h, s1, s2) && Next(h, s2, s3)
    ensures s3 == s.(boss := s.boss.(waiting := Some(Pending(w, Found(h(s.boss.treasure + d), s.boss.n0, |d|)))),
                     miners := s.miners[w := s.miners[w].(mode := Idle)], toBoss := s.toBoss[w := [Data(d)]])
  {
    hide ExactZeros;
    assert Settled(s, w);
    s1 := AfterFind(h, s, w, d);
    assert MinerFind(h, s, s1, w, d);
    s2 := AfterHeader(s1, w);
    assert BossHeader(s1, s2, w);
    s3 := AfterAnswer(s2, w, d);
    assert MinerAnswer(s2, s3, w);
    assert s.toMiner[w] + [Send] == [Send] && [Send][1..] == [];
    assert s3.toMiner == s.toMiner;
    assert s.toBoss[w] == [] && |s1.toBoss[w]| == 1 && s2.toBoss[w] == [] && s3.toBoss[w] == [Data(d)];
    assert s3.toBoss == s.toBoss[w := [Data(d)]];
    assert s3.miners == s.miners[w := s.miners[w].(mode := Idle)];
  }

  /** And it is accepted; now everybody has the next job to read. */
  lemma AcceptedSettles(h: Hash, s: State, s3: State, miners: nat, w: nat, d: Bytes) returns (s4: State)
    requires SettledUpTo(s, miners, miners) && w < miners
    requires s3 == s.(boss := s.boss.(waiting := Some(Pending(w, Found(h(s.boss.treasure + d), s.boss.n0, |d|)))),
                      miners := s.miners[w := s.miners[w].(mode := Idle)], toBoss := s.toBoss[w := [Data(d)]])
    ensures Next(h, s3, s4) && SettledUpTo(s4, miners, 0) && s4.wins == s.wins + [d]
  {
    var found := Found(h(s.boss.treasure + d), s.boss.n0, |d|);
    s4 := Accepted(s3, w, found, d);
    assert BossAccept(s3, s4);
    forall i | 0 <= i < miners ensures NearlySettled(s4, i) { assert Settled(s, i); }
  }

  lemma Begins(h: Hash, mine: Bytes, miners: nat) returns (run: seq<State>)
    ensures EndsIn(h, mine, miners, run, Initial(mine, miners)) && SettledUpTo(Initial(mine, miners), miners, 0)
  {
    run := [Initial(mine, miners)];
  }

  /** Whatever miner is to find each suffix: if every prefix of the chain is a genuine treasure, some run accepts the
      chain. */
  lemma {:induction false} ChainIsAccepted(h: Hash, mine: Bytes, miners: nat, wins: seq<Bytes>, finders: seq<nat>)
    returns (run: seq<State>, s: State)
    requires WinsOk(h, mine, wins) && |finders| == |wins| && forall k :: 0 <= k < |wins| ==> finders[k] < miners
    ensures EndsIn(h, mine, miners, run, s) && SettledUpTo(s, miners, miners) && s.wins == wins
  {
    hide Next, SettledUpTo, EndsIn, WinsOk, ExactZeros, Concat;
    if wins == [] {
      run := Begins(h, mine, miners);
      run, s := AllRead(h, mine, miners, run, Initial(mine, miners), 0);
    } else {
      var n := |wins| - 1;
      var front, d, w := wins[..n], wins[n], finders[n];
      PrefixOk(h, mine, wins);
      run, s := ChainIsAccepted(h, mine, miners, front, finders[..n]);
      BossHas(h, mine, miners, run, s);
      LastIsGenuine(h, mine, wins);
      run, s := OneRound(h, mine, miners, run, s, w, d);
      assert wins == front + [d];
    }
  }

  lemma LastIsGenuine(h: Hash, mine: Bytes, wins: seq<Bytes>)
    requires wins != [] && WinsOk(h, mine, wins)
    ensures var n := |wins| - 1; ExactZeros(h((mine + Concat(wins[..n])) + wins[n]), |wins|)
  {
    hide ExactZeros;
    var n := |wins| - 1;
    ConcatSnoc(wins[..n], wins[n]);
    assert wins == wins[..n] + [wins[n]] && wins[..|wins|] == wins;
    assert (mine + Concat(wins[..n])) + wins[n] == mine + Concat(wins);
  }

  lemma OneRound(h: Hash, mine: Bytes, miners: nat, run: seq<State>, s: State, w: nat, d: Bytes) returns (longer: seq<State>, t: State)
    requires EndsIn(h, mine, miners, run, s) && SettledUpTo(s, miners, miners) && w < miners
    requires ExactZeros(h(s.boss.treasure + d), s.boss.n0)
    ensures EndsIn(h, mine, miners, longer, t) && SettledUpTo(t, miners, miners) && t.wins == s.wins + [d]
  {
    hide Next, SettledUpTo, EndsIn, ExactZeros;
    var s1, s2, s3 := Offered(h, s, miners, w, d);
    var r := Extend(h, mine, miners, run, s, s1);
    r := Extend(h, mine, miners, r, s1, s2);
    r := Extend(h, mine, miners, r, s2, s3);
    var s4 := AcceptedSettles(h, s, s3, miners, w, d);
    r := Extend(h, mine, miners, r, s3, s4);
    longer, t := AllRead(h, mine, miners, r, s4, 0);
  }

  lemma {:induction false} PrefixOk(h: Hash, mine: Bytes, wins: seq<Bytes>)
    requires wins != [] && WinsOk(h, mine, wins)
    ensures WinsOk(h, mine, wins[..|wins| - 1])
  {
    hide ExactZeros;
    var front := wins[..|wins| - 1];
    forall k | 1 <= k <= |front| ensures ExactZeros(h(mine + Concat(front[..k])), k) {
      assert front[..k] == wins[..k];
    }
  }

  lemma BossHas(h: Hash, mine: Bytes, miners: nat, run: seq<State>, s: State)
    requires EndsIn(h, mine, miners, run, s)
    ensures s.boss.n0 == |s.wins| + 1 && s.boss.treasure == mine + Concat(s.wins)
  {
    hide Next, ExactZeros;
    OnlyGenuineTreasures(h, mine, miners, run, |run| - 1);
  }

  /** With one miner or more, the chains of suffixes that runs accept are exactly those in which the digest of the mine with
      the first j suffixes has exactly j leading zeros, for every j. */
  lemma {:induction false} AcceptedExactly(h: Hash, mine: Bytes, miners: nat, wins: seq<Bytes>)
    requires miners > 0
    ensures (exists run, s :: EndsIn(h, mine, miners, run, s) && s.wins == wins) <==>
              forall j :: 1 <= j <= |wins| ==> ExactZeros(h(mine + Concat(wins[..j])), j)
  {
    hide Next, SettledUpTo, ExactZeros;
    if run, s :| EndsIn(h, mine, miners, run, s) && s.wins == wins {
      OnlyGenuineTreasures(h, mine, miners, run, |run| - 1);
    }
    if WinsOk(h, mine, wins) {
      var run, s := ChainIsAccepted(h, mine, miners, wins, seq(|wins|, _ => 0));
    }
  }

  // ---- The miner's test ----

  /** How many zeros a digest starts with. */
  function LeadingZeros(md5: string): (n: nat)
    ensures n <= |md5|
  {
    if md5 == "" || md5[0] != '0' then 0 else 1 + LeadingZeros(md5[1..])
  }

  lemma {:induction false} ExactZerosCounts(md5: string, n: nat)
    ensures ExactZeros(md5, n) <==> LeadingZeros(md5) == n
    decreases |md5|
  {
    if md5 != "" && md5[0] == '0' && n > 0 {
      ExactZerosCounts(md5[1..], n - 1);
      assert forall j :: 0 < j < |md5| ==> md5[j] == md5[1..][j - 1];
    }
  }

  /** The two tests of the search: `n` zeros, and no further one; behind the digest there are NULs. */
  method PassesTest(md5: string, n: nat) returns (found: bool)
    ensures found <==> LeadingZeros(md5) == n
  {
    found := true;
    var j := 0;
    while j < n
      invariant 0 <= j <= n && (found ==> j <= |md5|)
      invariant found <==> j <= |md5| && forall k :: 0 <= k < j ==> md5[k] == '0'
    {
      if j >= |md5| || md5[j] != '0' {
        found := false;
        break;
      }
      j := j + 1;
    }
    if found && n < |md5| && md5[n] == '0' {
      found := false;
    }
    ExactZerosCounts(md5, n);
  }
}
