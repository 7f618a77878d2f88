/** One boss and any number of miners over FIFO pipes, as a state machine whose steps read or write whole messages. */
module Mining {
  import opened Wrappers

  type Bytes = seq<int>

  /** The digest of a byte string, as hexadecimal characters.  Nothing is assumed of it. */
  type Hash = Bytes -> string

  /** The miner's test: the first `n` characters are '0' and the next one is not.  Behind the digest are NULs. */
  predicate ExactZeros(md5: string, n: nat) {
    && n <= |md5|
    && (forall j :: 0 <= j < n ==> md5[j] == '0')
    && (n < |md5| ==> md5[n] != '0')
  }

  datatype ToMiner =
    | Assign(start: nat, add: nat, n0: nat, data: Bytes)
    | OtherFound(winner: nat, md5: string, n0: nat)
    | Status
    | Send

  datatype ToBoss =
    | Found(md5: string, n0: nat, datlen: nat)
    | Data(bytes: Bytes)

  /** Idle: blocked in the outer read.  Working: searching, with a poll now and then.  Offering: blocked in the read
      after a find. */
  datatype Mode = Idle | Working | Offering(append: Bytes)

  datatype Miner = Miner(firstAssign: bool, treasure: Bytes, level: nat, mode: Mode)

  /** The boss is between messages, or inside `handle_found` waiting for the suffix of a find of miner `i`. */
  datatype Boss = Boss(treasure: Bytes, n0: nat, md5: string, waiting: Option<Pending>)
  datatype Pending = Pending(miner: nat, found: ToBoss)

  /** `wins` lists the suffixes accepted so far; it only records what happened. */
  datatype State = State(boss: Boss, miners: seq<Miner>, toMiner: seq<seq<ToMiner>>, toBoss: seq<seq<ToBoss>>,
                         wins: seq<Bytes>)

  // ---- Steps of the boss ----

  /** `assign_jobs`: one job to each miner. */
  function AssignJobs(n0: nat, data: Bytes, pipes: seq<seq<ToMiner>>): (r: seq<seq<ToMiner>>)
    ensures |r| == |pipes|
    ensures forall i :: 0 <= i < |r| ==> r[i] == pipes[i] + [Assign(i, |pipes|, n0, data)]
  {
    seq(|pipes|, i requires 0 <= i < |pipes| => pipes[i] + [Assign(i, |pipes|, n0, data)])
  }

  /** The notice of a win to every miner but the winner. */
  function NotifyOthers(winner: nat, md5: string, n0: nat, pipes: seq<seq<ToMiner>>): (r: seq<seq<ToMiner>>)
    ensures |r| == |pipes|
    ensures forall j :: 0 <= j < |r| ==> r[j] == if j == winner then pipes[j] else pipes[j] + [OtherFound(winner, md5, n0)]
  {
    seq(|pipes|, j requires 0 <= j < |pipes| =>
      if j == winner then pipes[j] else pipes[j] + [OtherFound(winner, md5, n0)])
  }

  function Initial(mine: Bytes, miners: nat): State {
    State(Boss(mine, 1, "", None),
          seq(miners, _ => Miner(true, [], 0, Idle)),
          AssignJobs(1, mine, seq(miners, _ => [])),
          seq(miners, _ => []),
          [])
  }

  /** The status command: a message to every miner, whatever it is doing. */
  predicate BossStatus(s: State, s': State) {
    && s.boss.waiting.None?
    && s' == s.(toMiner := seq(|s.toMiner|, i requires 0 <= i < |s.toMiner| => s.toMiner[i] + [Status]))
  }

  /** The first half of `handle_found`: the find counts only when its level is the boss's own; then the suffix is
      asked for, and the boss blocks. */
  predicate BossHeader(s: State, s': State, i: nat) {
    && i < |s.toBoss| == |s.toMiner| && s.boss.waiting.None? && s.toBoss[i] != [] && s.toBoss[i][0].Found?
    && var found := s.toBoss[i][0];
       var rest := s.toBoss[i := s.toBoss[i][1..]];
       if found.n0 == s.boss.n0 then
         s' == s.(boss := s.boss.(waiting := Some(Pending(i, found))), toBoss := rest,
                  toMiner := s.toMiner[i := s.toMiner[i] + [Send]])
       else
         s' == s.(toBoss := rest)
  }

  /** The second half: the suffix is read, the others are told, and all get the next job. */
  predicate BossAccept(s: State, s': State) {
    && s.boss.waiting.Some?
    && var i, found := s.boss.waiting.value.miner, s.boss.waiting.value.found;
       && i < |s.toBoss| && s.toBoss[i] != [] && s.toBoss[i][0].Data? && found.Found?
       && var d := s.toBoss[i][0].bytes;
          && |d| == found.datlen
          && s' == Accepted(s, i, found, d)
  }

  function Accepted(s: State, i: nat, found: ToBoss, d: Bytes): State
    requires i < |s.toBoss| && s.toBoss[i] != [] && found.Found?
  {
    s.(boss := Boss(s.boss.treasure + d, s.boss.n0 + 1, found.md5, None),
       toBoss := s.toBoss[i := s.toBoss[i][1..]],
       toMiner := AssignJobs(s.boss.n0 + 1, d, NotifyOthers(i, found.md5, s.boss.n0, s.toMiner)),
       wins := s.wins + [d])
  }

  // ---- Steps of a miner ----

  /** A message handled by the outer loop: a job appends its data to what the miner has and starts the search. */
  function Handle(m: Miner, msg: ToMiner): Miner {
    match msg
    case Assign(_, _, n0, data) => Miner(false, if m.firstAssign then data else m.treasure + data, n0, Working)
    case OtherFound(_, _, _) => m.(mode := Idle)
    case Status => m
    case Send => m.(mode := Idle)
  }

  /** A read in the outer loop, or in a poll of the search; there anything but a status ends the search. */
  predicate MinerRead(s: State, s': State, i: nat) {
    && i < |s.miners| == |s.toMiner| && s.toMiner[i] != [] && !s.miners[i].mode.Offering?
    && s' == s.(miners := s.miners[i := Handle(s.miners[i], s.toMiner[i][0])],
                toMiner := s.toMiner[i := s.toMiner[i][1..]])
  }

  /** The search finds a suffix that passes the test, and offers it. */
  predicate MinerFind(h: Hash, s: State, s': State, i: nat, append: Bytes) {
    && i < |s.miners| == |s.toBoss| && s.miners[i].mode.Working?
    && var md5 := h(s.miners[i].treasure + append);
       && ExactZeros(md5, s.miners[i].level)
       && s' == s.(miners := s.miners[i := s.miners[i].(mode := Offering(append))],
                   toBoss := s.toBoss[i := s.toBoss[i] + [Found(md5, s.miners[i].level, |append|)]])
  }

  /** `if_find_treasure`: the answer to an offer.  A request for the suffix is served; a status is skipped; anything
      else means that the offer came too late, and is handled by the outer loop. */
  predicate MinerAnswer(s: State, s': State, i: nat) {
    && i < |s.miners| == |s.toMiner| == |s.toBoss| && s.toMiner[i] != [] && s.miners[i].mode.Offering?
    && var msg, append := s.toMiner[i][0], s.miners[i].mode.append;
       s' == s.(miners := s.miners[i := Handle(s.miners[i], msg)],
                toMiner := s.toMiner[i := s.toMiner[i][1..]],
                toBoss := if msg.Send? then s.toBoss[i := s.toBoss[i] + [Data(append)]] else s.toBoss)
  }

  ghost predicate Next(h: Hash, s: State, s': State) {
    || BossStatus(s, s')
    || (exists i :: BossHeader(s, s', i))
    || BossAccept(s, s')
    || (exists i :: MinerRead(s, s', i))
    || (exists i, a :: MinerFind(h, s, s', i, a))
    || (exists i :: MinerAnswer(s, s', i))
  }

  ghost predicate IsRun(h: Hash, mine: Bytes, miners: nat, run: seq<State>) {
    && run != [] && run[0] == Initial(mine, miners)
    && forall k :: 0 <= k < |run| - 1 ==> Next(h, run[k], run[k + 1])
  }

  // ---- The invariant ----

  /** What a miner will have once it has read its pipe. */
  function CaughtUp(treasure: Bytes, q: seq<ToMiner>): Bytes
    decreases |q|
  {
    if q == [] then treasure
    else if q[0].Assign? then CaughtUp(treasure + q[0].data, q[1..])
    else CaughtUp(treasure, q[1..])
  }

  /** The jobs in a pipe count on from the miner's level up to `n0`. */
  predicate Levels(level: nat, q: seq<ToMiner>, n0: nat)
    decreases |q|
  {
    if q == [] then level == n0
    else if q[0].Assign? then q[0].n0 == level + 1 && Levels(level + 1, q[1..], n0)
    else Levels(level, q[1..], n0)
  }

  /** A notice of a win is directly followed by the next job. */
  predicate Followed(q: seq<ToMiner>) {
    forall k :: 0 <= k < |q| && q[k].OtherFound? ==> k + 1 < |q| && q[k + 1].Assign?
  }

  predicate NoSend(q: seq<ToMiner>) {
    forall k :: 0 <= k < |q| ==> !q[k].Send?
  }

  predicate OnlyStatus(q: seq<ToMiner>) {
    forall k :: 0 <= k < |q| ==> q[k].Status?
  }

  /** A find of `append` on top of `treasure` that is what it claims to be. */
  predicate Genuine(h: Hash, treasure: Bytes, append: Bytes, found: ToBoss) {
    && found.Found? && found.datlen == |append| && found.md5 == h(treasure + append)
    && ExactZeros(found.md5, found.n0)
  }

  /** A pipe to the boss while the boss is not waiting for this miner: finds only, of levels up to the miner's.  A find
      of the boss's own level is the last message, and is the genuine offer the miner is blocked on. */
  predicate OffersOk(h: Hash, b: Boss, m: Miner, r: seq<ToBoss>) {
    && (forall k :: 0 <= k < |r| ==> r[k].Found? && r[k].n0 <= m.level)
    && (m.mode.Working? ==> forall k :: 0 <= k < |r| ==> r[k].n0 < m.level)
    && (forall k :: 0 <= k < |r| && r[k].n0 == b.n0 ==>
                      k == |r| - 1 && m.mode.Offering? && Genuine(h, b.treasure, m.mode.append, r[k]))
  }

  /** The boss is waiting for this miner: the request is the last message in its pipe, or the suffix is on its way. */
  predicate AwaitedOk(h: Hash, b: Boss, found: ToBoss, m: Miner, q: seq<ToMiner>, r: seq<ToBoss>) {
    && m.level == b.n0 && found.Found? && found.n0 == b.n0
    && if m.mode.Offering? then
         && r == [] && q != [] && q[|q| - 1].Send? && OnlyStatus(q[..|q| - 1])
         && Genuine(h, b.treasure, m.mode.append, found)
       else
         m.mode.Idle? && q == [] && |r| == 1 && r[0].Data? && Genuine(h, b.treasure, r[0].bytes, found)
  }

  predicate MinerOk(h: Hash, b: Boss, i: nat, m: Miner, q: seq<ToMiner>, r: seq<ToBoss>) {
    && CaughtUp(m.treasure, q) == b.treasure
    && Levels(m.level, q, b.n0)
    && Followed(q)
    && (m.firstAssign ==> m.treasure == [] && m.mode.Idle?)
    && if b.waiting.Some? && b.waiting.value.miner == i then AwaitedOk(h, b, b.waiting.value.found, m, q, r)
       else NoSend(q) && OffersOk(h, b, m, r)
  }

  function Concat(parts: seq<Bytes>): Bytes {
    if parts == [] then [] else Concat(parts[..|parts| - 1]) + parts[|parts| - 1]
  }

  /** What was accepted so far is genuine: with k suffixes, the digest has exactly k leading zeros, for every k. */
  ghost predicate WinsOk(h: Hash, mine: Bytes, wins: seq<Bytes>) {
    forall k :: 1 <= k <= |wins| ==> ExactZeros(h(mine + Concat(wins[..k])), k)
  }

  ghost predicate BossOk(h: Hash, mine: Bytes, s: State) {
    && s.boss.n0 == |s.wins| + 1
    && s.boss.treasure == mine + Concat(s.wins)
    && WinsOk(h, mine, s.wins)
    && (s.wins != [] ==> s.boss.md5 == h(s.boss.treasure))
    && (s.boss.waiting.Some? ==> s.boss.waiting.value.miner < |s.miners|)
  }

  ghost predicate Inv(h: Hash, mine: Bytes, s: State) {
    && |s.miners| == |s.toMiner| == |s.toBoss|
    && BossOk(h, mine, s)
    && forall i :: 0 <= i < |s.miners| ==> MinerOk(h, s.boss, i, s.miners[i], s.toMiner[i], s.toBoss[i])
  }

  // ---- Pipes ----

  lemma {:induction false} CaughtUpAppend(t: Bytes, q: seq<ToMiner>, msg: ToMiner)
    ensures CaughtUp(t, q + [msg]) == if msg.Assign? then CaughtUp(t, q) + msg.data else CaughtUp(t, q)
    decreases |q|
  {
    if q == [] {
      assert (q + [msg])[1..] == [];
    } else {
      assert (q + [msg])[1..] == q[1..] + [msg];
      CaughtUpAppend(if q[0].Assign? then t + q[0].data else t, q[1..], msg);
    }
  }

  lemma {:induction false} LevelsAppend(level: nat, q: seq<ToMiner>, n0: nat, msg: ToMiner)
    requires Levels(level, q, n0)
    ensures !msg.Assign? ==> Levels(level, q + [msg], n0)
    ensures msg.Assign? && msg.n0 == n0 + 1 ==> Levels(level, q + [msg], n0 + 1)
    decreases |q|
  {
    if q == [] {
      assert (q + [msg])[1..] == [];
    } else {
      assert (q + [msg])[1..] == q[1..] + [msg];
      LevelsAppend(if q[0].Assign? then level + 1 else level, q[1..], n0, msg);
    }
  }

  lemma {:induction false} LevelsBound(level: nat, q: seq<ToMiner>, n0: nat)
    requires Levels(level, q, n0)
    ensures level <= n0
    ensures level == n0 ==> forall k :: 0 <= k < |q| ==> !q[k].Assign?
    decreases |q|
  {
    if q != [] {
      LevelsBound(if q[0].Assign? then level + 1 else level, q[1..], n0);
      assert forall k :: 1 <= k < |q| ==> q[k] == q[1..][k - 1];
    }
  }

  /** A miner that is at the boss's level has nothing but statuses to read. */
  lemma UpToDate(level: nat, q: seq<ToMiner>)
    requires Levels(level, q, level) && Followed(q) && NoSend(q)
    ensures OnlyStatus(q)
  {
    LevelsBound(level, q, level);
  }

  lemma {:induction false} CaughtUpAlready(t: Bytes, q: seq<ToMiner>)
    requires forall k :: 0 <= k < |q| ==> !q[k].Assign?
    ensures CaughtUp(t, q) == t
    decreases |q|
  {
    if q != [] {
      assert forall k :: 0 <= k < |q[1..]| ==> q[1..][k] == q[k + 1];
      CaughtUpAlready(t, q[1..]);
    }
  }

  lemma ConcatSnoc(parts: seq<Bytes>, d: Bytes)
    ensures Concat(parts + [d]) == Concat(parts) + d
  {
    assert (parts + [d])[..|parts|] == parts;
  }

  // ---- Every step keeps the invariant, miner by miner ----

  lemma StatusKeeps(h: Hash, b: Boss, i: nat, m: Miner, q: seq<ToMiner>, r: seq<ToBoss>)
    requires MinerOk(h, b, i, m, q, r) && b.waiting.None?
    ensures MinerOk(h, b, i, m, q + [Status], r)
  {
    hide OffersOk;
    CaughtUpAppend(m.treasure, q, Status);
    LevelsAppend(m.level, q, b.n0, Status);
  }

  lemma DropKeeps(h: Hash, b: Boss, i: nat, m: Miner, q: seq<ToMiner>, r: seq<ToBoss>)
    requires MinerOk(h, b, i, m, q, r) && b.waiting.None? && r != []
    ensures MinerOk(h, b, i, m, q, r[1..])
  {
    hide CaughtUp, Levels, Followed, NoSend, Genuine;
    assert forall k :: 0 <= k < |r| - 1 ==> r[1..][k] == r[k + 1];
  }

  /** A find of the boss's level at the head of the pipe is the only message, and its miner is blocked on it. */
  lemma RequestKeeps(h: Hash, b: Boss, i: nat, m: Miner, q: seq<ToMiner>, r: seq<ToBoss>)
    requires MinerOk(h, b, i, m, q, r) && b.waiting.None? && r != [] && r[0].n0 == b.n0
    ensures r[0].Found?
    ensures MinerOk(h, b.(waiting := Some(Pending(i, r[0]))), i, m, q + [Send], r[1..])
  {
    hide CaughtUp, Levels;
    LevelsBound(m.level, q, b.n0);
    UpToDate(m.level, q);
    CaughtUpAppend(m.treasure, q, Send);
    LevelsAppend(m.level, q, b.n0, Send);
    assert (q + [Send])[..|q|] == q;
  }

  lemma OthersKeepOnRequest(h: Hash, b: Boss, w: Pending, j: nat, m: Miner, q: seq<ToMiner>, r: seq<ToBoss>)
    requires MinerOk(h, b, j, m, q, r) && b.waiting.None? && w.miner != j
    ensures MinerOk(h, b.(waiting := Some(w)), j, m, q, r)
  {
  }

  /** What the blocking read gets is exactly the suffix of the find that was accepted. */
  lemma SuffixArrives(h: Hash, b: Boss, i: nat, m: Miner, q: seq<ToMiner>, r: seq<ToBoss>)
    requires MinerOk(h, b, i, m, q, r) && b.waiting.Some? && b.waiting.value.miner == i && r != []
    ensures |r| == 1 && r[0].Data? && q == []
    ensures Genuine(h, b.treasure, r[0].bytes, b.waiting.value.found) && b.waiting.value.found.n0 == b.n0
  {
    hide CaughtUp, Levels, Followed, Genuine;
  }

  lemma WinnerKeeps(h: Hash, b: Boss, i: nat, m: Miner, q: seq<ToMiner>, r: seq<ToBoss>, b': Boss, job: ToMiner)
    requires MinerOk(h, b, i, m, q, r) && b.waiting.Some? && b.waiting.value.miner == i && r != []
    requires job.Assign? && job.n0 == b'.n0 == b.n0 + 1 && b'.treasure == b.treasure + job.data && b'.waiting.None?
    ensures MinerOk(h, b', i, m, q + [job], r[1..])
  {
    SuffixArrives(h, b, i, m, q, r);
    CaughtUpAppend(m.treasure, q, job);
    LevelsAppend(m.level, q, b.n0, job);
  }

  lemma LosersKeep(h: Hash, b: Boss, j: nat, m: Miner, q: seq<ToMiner>, r: seq<ToBoss>, b': Boss,
                   notice: ToMiner, job: ToMiner)
    requires MinerOk(h, b, j, m, q, r) && b.waiting.Some? && b.waiting.value.miner != j && notice.OtherFound?
    requires job.Assign? && job.n0 == b'.n0 == b.n0 + 1 && b'.treasure == b.treasure + job.data && b'.waiting.None?
    ensures MinerOk(h, b', j, m, q + [notice] + [job], r)
  {
    hide CaughtUp, Levels, Genuine;
    LevelsBound(m.level, q, b.n0);
    CaughtUpAppend(m.treasure, q, notice);
    CaughtUpAppend(m.treasure, q + [notice], job);
    LevelsAppend(m.level, q, b.n0, notice);
    LevelsAppend(m.level, q + [notice], b.n0, job);
  }

  lemma TailOfPipe(q: seq<ToMiner>)
    requires q != []
    ensures Followed(q) ==> Followed(q[1..])
    ensures NoSend(q) ==> NoSend(q[1..]) && !q[0].Send?
    ensures OnlyStatus(q[..|q| - 1]) && |q| > 1 ==> OnlyStatus(q[1..][..|q| - 2]) && q[0].Status?
  {
    assert forall k :: 0 <= k < |q| - 1 ==> q[1..][k] == q[k + 1];
    if |q| > 1 {
      assert q[1..][..|q| - 2] == q[..|q| - 1][1..];
      assert q[0] == q[..|q| - 1][0];
    }
  }

  /** A miner the boss does not wait for reads a message. */
  lemma HandleKeeps(h: Hash, b: Boss, i: nat, m: Miner, q: seq<ToMiner>, r: seq<ToBoss>)
    requires MinerOk(h, b, i, m, q, r) && !(b.waiting.Some? && b.waiting.value.miner == i) && q != []
    ensures MinerOk(h, b, i, Handle(m, q[0]), q[1..], r)
  {
    hide Followed, NoSend, Genuine;
    TailOfPipe(q);
    LevelsBound(m.level, q, b.n0);
    if q[0].Assign? {
      LevelsBound(m.level + 1, q[1..], b.n0);
      assert m.firstAssign ==> [] + q[0].data == q[0].data;
    } else if q[0].OtherFound? {
      FollowedByJob(q);
    }
  }

  lemma FollowedByJob(q: seq<ToMiner>)
    requires Followed(q) && q != [] && q[0].OtherFound?
    ensures |q| > 1 && q[1].Assign?
  {
  }

  lemma FindKeeps(h: Hash, b: Boss, i: nat, m: Miner, q: seq<ToMiner>, r: seq<ToBoss>, append: Bytes)
    requires MinerOk(h, b, i, m, q, r) && m.mode.Working?
    requires ExactZeros(h(m.treasure + append), m.level)
    ensures MinerOk(h, b, i, m.(mode := Offering(append)), q,
                    r + [Found(h(m.treasure + append), m.level, |append|)])
  {
    hide CaughtUp, Levels, Followed, NoSend, ExactZeros;
    LevelsBound(m.level, q, b.n0);
    if m.level == b.n0 {
      CaughtUpAlready(m.treasure, q);
    }
  }

  /** The miner the boss waits for reads its pipe: statuses, and at the end the request. */
  lemma AnswerKeeps(h: Hash, b: Boss, i: nat, m: Miner, q: seq<ToMiner>, r: seq<ToBoss>)
    requires MinerOk(h, b, i, m, q, r) && b.waiting.Some? && b.waiting.value.miner == i && m.mode.Offering? && q != []
    ensures MinerOk(h, b, i, Handle(m, q[0]), q[1..], if q[0].Send? then r + [Data(m.mode.append)] else r)
  {
    hide Followed, OnlyStatus, Genuine;
    TailOfPipe(q);
  }

  // ---- Every run ----

  lemma InitialInv(h: Hash, mine: Bytes, miners: nat)
    ensures Inv(h, mine, Initial(mine, miners))
  {
    var s := Initial(mine, miners);
    forall i | 0 <= i < miners
      ensures MinerOk(h, s.boss, i, s.miners[i], s.toMiner[i], s.toBoss[i])
    {
      assert s.toMiner[i] == [Assign(i, miners, 1, mine)];
      assert [] + mine == mine;
    }
    assert mine + Concat([]) == mine;
  }

  lemma StatusStep(h: Hash, mine: Bytes, s: State, s': State)
    requires Inv(h, mine, s) && BossStatus(s, s')
    ensures Inv(h, mine, s')
  {
    hide MinerOk, BossOk;
    BossOkSame(h, mine, s, s');
    forall i | 0 <= i < |s'.miners|
      ensures MinerOk(h, s'.boss, i, s'.miners[i], s'.toMiner[i], s'.toBoss[i])
    {
      StatusKeeps(h, s.boss, i, s.miners[i], s.toMiner[i], s.toBoss[i]);
    }
  }

  lemma BossOkSame(h: Hash, mine: Bytes, s: State, s': State)
    requires BossOk(h, mine, s) && s'.wins == s.wins && |s'.miners| == |s.miners|
    requires s'.boss.(waiting := None) == s.boss.(waiting := None)
    requires s'.boss == s.boss || (s'.boss.waiting.Some? ==> s'.boss.waiting.value.miner < |s.miners|)
    ensures BossOk(h, mine, s')
  {
  }

  lemma HeaderStep(h: Hash, mine: Bytes, s: State, s': State, i: nat)
    requires Inv(h, mine, s) && BossHeader(s, s', i)
    ensures Inv(h, mine, s')
  {
    hide MinerOk, BossOk;
    BossOkSame(h, mine, s, s');
    var found := s.toBoss[i][0];
    forall j | 0 <= j < |s'.miners|
      ensures MinerOk(h, s'.boss, j, s'.miners[j], s'.toMiner[j], s'.toBoss[j])
    {
      if found.n0 != s.boss.n0 {
        if j == i {
          DropKeeps(h, s.boss, i, s.miners[i], s.toMiner[i], s.toBoss[i]);
        }
      } else if j == i {
        RequestKeeps(h, s.boss, i, s.miners[i], s.toMiner[i], s.toBoss[i]);
      } else {
        OthersKeepOnRequest(h, s.boss, Pending(i, found), j, s.miners[j], s.toMiner[j], s.toBoss[j]);
      }
    }
  }

  lemma AcceptStep(h: Hash, mine: Bytes, s: State, s': State)
    requires Inv(h, mine, s) && BossAccept(s, s')
    ensures Inv(h, mine, s')
  {
    hide MinerOk, BossOk, Genuine;
    var i, found := s.boss.waiting.value.miner, s.boss.waiting.value.found;
    var d := s.toBoss[i][0].bytes;
    SuffixArrives(h, s.boss, i, s.miners[i], s.toMiner[i], s.toBoss[i]);
    WinOk(h, mine, s, s', i, found, d);
    forall j | 0 <= j < |s'.miners|
      ensures MinerOk(h, s'.boss, j, s'.miners[j], s'.toMiner[j], s'.toBoss[j])
    {
      var job := Assign(j, |s.toMiner|, s.boss.n0 + 1, d);
      if j == i {
        WinnerKeeps(h, s.boss, i, s.miners[i], s.toMiner[i], s.toBoss[i], s'.boss, job);
      } else {
        LosersKeep(h, s.boss, j, s.miners[j], s.toMiner[j], s.toBoss[j], s'.boss,
                   OtherFound(i, found.md5, s.boss.n0), job);
      }
    }
  }

  lemma WinOk(h: Hash, mine: Bytes, s: State, s': State, i: nat, found: ToBoss, d: Bytes)
    requires BossOk(h, mine, s) && i < |s.toBoss| && s.toBoss[i] != [] && found.Found?
    requires Genuine(h, s.boss.treasure, d, found) && found.n0 == s.boss.n0 && s' == Accepted(s, i, found, d)
    ensures BossOk(h, mine, s')
  {
    hide ExactZeros;
    ConcatSnoc(s.wins, d);
    assert mine + (Concat(s.wins) + d) == s.boss.treasure + d;
    forall k | 1 <= k <= |s'.wins|
      ensures ExactZeros(h(mine + Concat(s'.wins[..k])), k)
    {
      if k <= |s.wins| {
        assert s'.wins[..k] == s.wins[..k];
      } else {
        assert s'.wins[..k] == s'.wins;
      }
    }
  }

  lemma ReadStep(h: Hash, mine: Bytes, s: State, s': State, i: nat)
    requires Inv(h, mine, s) && MinerRead(s, s', i)
    ensures Inv(h, mine, s')
  {
    hide BossOk;
    BossOkSame(h, mine, s, s');
    hide MinerOk;
    NotAwaited(h, s.boss, i, s.miners[i], s.toMiner[i], s.toBoss[i]);
    HandleKeeps(h, s.boss, i, s.miners[i], s.toMiner[i], s.toBoss[i]);
  }

  /** A miner the boss waits for is not blocked in the outer read with something to read. */
  lemma NotAwaited(h: Hash, b: Boss, i: nat, m: Miner, q: seq<ToMiner>, r: seq<ToBoss>)
    requires MinerOk(h, b, i, m, q, r) && !m.mode.Offering? && q != []
    ensures !(b.waiting.Some? && b.waiting.value.miner == i)
  {
  }

  lemma FindStep(h: Hash, mine: Bytes, s: State, s': State, i: nat, append: Bytes)
    requires Inv(h, mine, s) && MinerFind(h, s, s', i, append)
    ensures Inv(h, mine, s')
  {
    hide MinerOk, BossOk;
    BossOkSame(h, mine, s, s');
    FindKeeps(h, s.boss, i, s.miners[i], s.toMiner[i], s.toBoss[i], append);
  }

  lemma AnswerStep(h: Hash, mine: Bytes, s: State, s': State, i: nat)
    requires Inv(h, mine, s) && MinerAnswer(s, s', i)
    ensures Inv(h, mine, s')
  {
    hide MinerOk, BossOk;
    BossOkSame(h, mine, s, s');
    if s.boss.waiting.Some? && s.boss.waiting.value.miner == i {
      AnswerKeeps(h, s.boss, i, s.miners[i], s.toMiner[i], s.toBoss[i]);
    } else {
      HandleKeeps(h, s.boss, i, s.miners[i], s.toMiner[i], s.toBoss[i]);
      NotRequested(h, s.boss, i, s.miners[i], s.toMiner[i], s.toBoss[i]);
    }
  }

  lemma NotRequested(h: Hash, b: Boss, i: nat, m: Miner, q: seq<ToMiner>, r: seq<ToBoss>)
    requires MinerOk(h, b, i, m, q, r) && !(b.waiting.Some? && b.waiting.value.miner == i) && q != []
    ensures !q[0].Send?
  {
  }

  lemma StepKeepsInv(h: Hash, mine: Bytes, s: State, s': State)
    requires Inv(h, mine, s) && Next(h, s, s')
    ensures Inv(h, mine, s')
  {
    hide Inv, BossStatus, BossHeader, BossAccept, MinerRead, MinerFind, MinerAnswer;
    if BossStatus(s, s') {
      StatusStep(h, mine, s, s');
    } else if i :| BossHeader(s, s', i) {
      HeaderStep(h, mine, s, s', i);
    } else if BossAccept(s, s') {
      AcceptStep(h, mine, s, s');
    } else if i :| MinerRead(s, s', i) {
      ReadStep(h, mine, s, s', i);
    } else if i, a :| MinerFind(h, s, s', i, a) {
      FindStep(h, mine, s, s', i, a);
    } else {
      var i :| MinerAnswer(s, s', i);
      AnswerStep(h, mine, s, s', i);
    }
  }

  lemma {:induction false} RunKeepsInv(h: Hash, mine: Bytes, miners: nat, run: seq<State>, k: nat)
    requires IsRun(h, mine, miners, run) && k < |run|
    ensures Inv(h, mine, run[k])
    decreases k
  {
    hide Inv, Next;
    if k == 0 {
      InitialInv(h, mine, miners);
    } else {
      RunKeepsInv(h, mine, miners, run, k - 1);
      assert Next(h, run[k - 1], run[k - 1 + 1]);
      StepKeepsInv(h, mine, run[k - 1], run[k]);
    }
  }

  /** In every run, whatever the interleaving: after k acceptances the boss's level is k + 1, its treasure is the mine
      followed by the accepted suffixes, and for every j up to k the digest of the mine with the first j suffixes has
      exactly j leading zeros. */
  lemma OnlyGenuineTreasures(h: Hash, mine: Bytes, miners: nat, run: seq<State>, k: nat)
    requires IsRun(h, mine, miners, run) && k < |run|
    ensures var s := run[k];
            && s.boss.n0 == |s.wins| + 1
            && s.boss.treasure == mine + Concat(s.wins)
            && (forall j :: 1 <= j <= |s.wins| ==> ExactZeros(h(mine + Concat(s.wins[..j])), j))
            && (s.wins != [] ==> s.boss.md5 == h(s.boss.treasure) && ExactZeros(s.boss.md5, |s.wins|))
  {
    hide ExactZeros;
    RunKeepsInv(h, mine, miners, run, k);
    var s := run[k];
    if s.wins != [] {
      assert s.wins[..|s.wins|] == s.wins;
    }
  }

  /** In every run: the boss never takes a suffix for a header, and when it is blocked on the suffix of a find, what
      arrives is the suffix the winner offered, in full; until then the winner is able to move. */
  lemma BlockingReadIsServed(h: Hash, mine: Bytes, miners: nat, run: seq<State>, k: nat, i: nat)
    requires IsRun(h, mine, miners, run) && k < |run| && i < |run[k].toBoss|
    ensures var s := run[k];
            && |s.miners| == |s.toMiner| == |s.toBoss|
            && var waitingForI := s.boss.waiting.Some? && s.boss.waiting.value.miner == i;
               && (!waitingForI && s.toBoss[i] != [] ==> s.toBoss[i][0].Found?)
               && (waitingForI ==>
                     if s.toBoss[i] != [] then
                       && s.toBoss[i][0].Data?
                       && Genuine(h, s.boss.treasure, s.toBoss[i][0].bytes, s.boss.waiting.value.found)
                       && BossAccept(s, Accepted(s, i, s.boss.waiting.value.found, s.toBoss[i][0].bytes))
                     else
                       s.miners[i].mode.Offering? && s.toMiner[i] != [])
  {
    RunKeepsInv(h, mine, miners, run, k);
    assert MinerOk(h, run[k].boss, i, run[k].miners[i], run[k].toMiner[i], run[k].toBoss[i]);
  }

  /** In every run, equal levels mean equal treasures: a miner at the boss's level has exactly the boss's treasure. */
  lemma EqualLevelsEqualTreasures(h: Hash, mine: Bytes, miners: nat, run: seq<State>, k: nat, i: nat)
    requires IsRun(h, mine, miners, run) && k < |run| && i < |run[k].miners|
    ensures |run[k].toMiner| == |run[k].miners|
    ensures CaughtUp(run[k].miners[i].treasure, run[k].toMiner[i]) == run[k].boss.treasure
    ensures run[k].miners[i].level == run[k].boss.n0 ==> run[k].miners[i].treasure == run[k].boss.treasure
  {
    RunKeepsInv(h, mine, miners, run, k);
    var s := run[k];
    assert MinerOk(h, s.boss, i, s.miners[i], s.toMiner[i], s.toBoss[i]);
    LevelsBound(s.miners[i].level, s.toMiner[i], s.boss.n0);
    if s.miners[i].level == s.boss.n0 {
      CaughtUpAlready(s.miners[i].treasure, s.toMiner[i]);
    }
  }

  // ---- The code of the two programs, step by step ----

  class BossProcess {
    var treasure: Bytes
    var numberOf0: nat
    var treasureMd5: string
    var pipes: seq<seq<ToMiner>>

    constructor (mine: Bytes, numMiners: nat)
      ensures treasure == mine && numberOf0 == 1 && treasureMd5 == ""
      ensures pipes == Initial(mine, numMiners).toMiner
    {
      treasure, numberOf0, treasureMd5 := mine, 1, "";
      pipes := seq(numMiners, _ => []);
      new;
      AssignEach(1, mine);
    }

    /** The loop of `assign_jobs`. */
    method AssignEach(n0: nat, data: Bytes)
      modifies this`pipes
      ensures pipes == AssignJobs(n0, data, old(pipes))
    {
      var i := 0;
      while i < |pipes|
        invariant 0 <= i <= |pipes| == |old(pipes)|
        invariant forall j :: 0 <= j < |pipes| ==>
                                pipes[j] == if j < i then old(pipes)[j] + [Assign(j, |pipes|, n0, data)] else old(pipes)[j]
      {
        pipes := pipes[i := pipes[i] + [Assign(i, |pipes|, n0, data)]];
        i := i + 1;
      }
    }

    /** The loop that tells the others of a win. */
    method NotifyEach(winner: nat, md5: string, n0: nat)
      modifies this`pipes
      ensures pipes == NotifyOthers(winner, md5, n0, old(pipes))
    {
      var j := 0;
      while j < |pipes|
        invariant 0 <= j <= |pipes| == |old(pipes)|
        invariant forall k :: 0 <= k < |pipes| ==>
                                pipes[k] == if k < j && k != winner then old(pipes)[k] + [OtherFound(winner, md5, n0)]
                                            else old(pipes)[k]
      {
        if j != winner {
          pipes := pipes[j := pipes[j] + [OtherFound(winner, md5, n0)]];
        }
        j := j + 1;
      }
    }

    /** `handle_found` for a find of miner `i`; `suffix` is what its blocking read returns.  A find of another level
        changes nothing. */
    method HandleFound(i: nat, found: ToBoss, suffix: Bytes) returns (accepted: bool)
      requires i < |pipes| && found.Found?
      modifies this
      ensures accepted <==> found.n0 == old(numberOf0)
      ensures accepted ==>
                && treasure == old(treasure) + suffix && numberOf0 == old(numberOf0) + 1 && treasureMd5 == found.md5
                && pipes == AssignJobs(numberOf0, suffix,
                                       NotifyOthers(i, found.md5, old(numberOf0), old(pipes)[i := old(pipes)[i] + [Send]]))
      ensures !accepted ==> treasure == old(treasure) && numberOf0 == old(numberOf0) && treasureMd5 == old(treasureMd5)
                            && pipes == old(pipes)
    {
      if found.n0 != numberOf0 {
        return false;
      }
      pipes := pipes[i := pipes[i] + [Send]];
      treasureMd5 := found.md5;
      NotifyEach(i, found.md5, numberOf0);
      numberOf0 := numberOf0 + 1;
      AssignEach(numberOf0, suffix);
      treasure := treasure + suffix;
      accepted := true;
    }
  }

  /** What `handle_found` does in one go is what the two steps of the boss do when nothing comes between them: the
      boss's own state and, up to messages of the miners, its pipes. */
  lemma HandleFoundIsTwoSteps(s: State, s1: State, s2: State, i: nat)
    requires BossHeader(s, s1, i) && s.toBoss[i][0].n0 == s.boss.n0 && BossAccept(s1, s2)
    ensures var found, suffix := s.toBoss[i][0], s1.toBoss[i][0].bytes;
            && s2.boss == Boss(s.boss.treasure + suffix, s.boss.n0 + 1, found.md5, None)
            && s2.toMiner == AssignJobs(s.boss.n0 + 1, suffix,
                                        NotifyOthers(i, found.md5, s.boss.n0, s.toMiner[i := s.toMiner[i] + [Send]]))
  {
  }
}
