/** The port registry: an allocator over 512 ports whose reservations must agree with a hash table of records, through
    bookings, lookups and cleaning passes. */
module PortRegistry {
  import opened Wrappers
  import opened HashTable

  const RESERVE_SIZE: nat := 512
  const REGISTER_PORT: nat := 2500
  const BUCKETS: nat := 100

  /** The port that slot `i` of the reserve array stands for. */
  function PortAt(i: int): int { i + REGISTER_PORT + 1 }

  predicate InRange(port: int) {
    REGISTER_PORT < port <= REGISTER_PORT + RESERVE_SIZE
  }

  // ---- The registry as a value, and its steps ----

  /** The ports marked reserved, and the port of every recorded code. */
  datatype State = State(reserved: set<int>, live: map<int, int>)

  predicate Inv(s: State) {
    && (forall c :: c in s.live ==> InRange(s.live[c]) && s.live[c] in s.reserved)
    && (forall c, d :: c in s.live && d in s.live && c != d ==> s.live[c] != s.live[d])
  }

  /** The lowest free port; -1 when there is none. */
  ghost predicate NextPort(s: State, port: int) {
    if port == -1 then forall p :: InRange(p) ==> p in s.reserved
    else InRange(port) && port !in s.reserved && forall p :: InRange(p) && p < port ==> p in s.reserved
  }

  /** Whether there was room for a new record and for its node in the table. */
  datatype Memory = Memory(record: bool, node: bool)

  /** `book_port`: a code that is recorded already gets a new port, and its old port stays reserved. */
  ghost predicate BookStep(s: State, s': State, code: int, memory: Memory, port: int) {
    exists next :: NextPort(s, next) && Booked(s, s', code, memory, next, port)
  }

  predicate Booked(s: State, s': State, code: int, memory: Memory, next: int, port: int) {
    if next == -1 then
      port == -1 && s' == s
    else if code !in s.live && !memory.record then
      port == -1 && s' == s.(reserved := s.reserved + {next})
    else
      && port == next && s'.reserved == s.reserved + {next}
      && s'.live == if code in s.live || memory.node then s.live[code := next] else s.live
  }

  /** `get_port`. */
  predicate GetStep(s: State, s': State, code: int, port: int) {
    s' == s && port == if code in s.live then s.live[code] else -1
  }

  /** `web_port`: a lookup, and a booking only when that finds nothing. */
  ghost predicate WebStep(s: State, s': State, code: int, memory: Memory, port: int) {
    if code in s.live then GetStep(s, s', code, port) else BookStep(s, s', code, memory, port)
  }

  /** `clean_port_reserve` while exactly the ports in `bound` are in use: the reservations become the bound ports, and
      whatever records survive keep a port that is bound. */
  ghost predicate CleanStep(s: State, s': State, bound: set<int>) {
    && (forall p :: InRange(p) ==> (p in s'.reserved <==> p in bound))
    && (forall p :: p in s'.reserved ==> InRange(p))
    && (forall c :: c in s'.live ==> c in s.live && s'.live[c] == s.live[c] && s.live[c] in bound)
  }

  ghost predicate Next(s: State, s': State) {
    || (exists code, memory, port :: BookStep(s, s', code, memory, port))
    || (exists code, port :: GetStep(s, s', code, port))
    || (exists code, memory, port :: WebStep(s, s', code, memory, port))
    || (exists bound :: CleanStep(s, s', bound))
  }

  ghost predicate IsRun(run: seq<State>) {
    && run != [] && run[0].live == map[]
    && forall k :: 0 <= k < |run| - 1 ==> Next(run[k], run[k + 1])
  }

  lemma BookKeepsInv(s: State, s': State, code: int, memory: Memory, port: int)
    requires Inv(s) && BookStep(s, s', code, memory, port)
    ensures Inv(s')
    ensures port != -1 ==> InRange(port) && port in s'.reserved
    ensures port != -1 ==> forall c :: c in s.live ==> s.live[c] != port
  {
    var next :| NextPort(s, next) && Booked(s, s', code, memory, next, port);
  }

  lemma CleanKeepsInv(s: State, s': State, bound: set<int>)
    requires Inv(s) && CleanStep(s, s', bound)
    ensures Inv(s')
  {
    forall c | c in s'.live ensures InRange(s'.live[c]) && s'.live[c] in s'.reserved {
      assert c in s.live;
    }
  }

  lemma StepKeepsInv(s: State, s': State)
    requires Inv(s) && Next(s, s')
    ensures Inv(s')
  {
    hide Inv, BookStep, CleanStep;
    if code, memory, port :| BookStep(s, s', code, memory, port) {
      BookKeepsInv(s, s', code, memory, port);
    } else if bound :| CleanStep(s, s', bound) {
      CleanKeepsInv(s, s', bound);
    }
  }

  lemma {:induction false} RunKeepsInv(run: seq<State>, k: nat)
    requires IsRun(run) && k < |run|
    ensures Inv(run[k])
    decreases k
  {
    hide Next;
    if k > 0 {
      RunKeepsInv(run, k - 1);
      assert Next(run[k - 1], run[k - 1 + 1]);
      StepKeepsInv(run[k - 1], run[k]);
    }
  }

  /** In every run of bookings, lookups and cleaning passes: recorded ports are distinct, between 2501 and 3012, and
      reserved; and a booking never hands out a port that some record holds, its own old one included. */
  lemma PortsStayDistinct(run: seq<State>, k: nat, s': State, code: int, memory: Memory, port: int)
    requires IsRun(run) && k < |run|
    requires BookStep(run[k], s', code, memory, port) || WebStep(run[k], s', code, memory, port)
    ensures forall c :: c in run[k].live ==> 2501 <= run[k].live[c] <= 3012 && run[k].live[c] in run[k].reserved
    ensures forall c, d :: c in run[k].live && d in run[k].live && c != d ==> run[k].live[c] != run[k].live[d]
    ensures port != -1 && (code !in run[k].live || BookStep(run[k], s', code, memory, port)) ==>
              2501 <= port <= 3012 && forall c :: c in run[k].live ==> run[k].live[c] != port
  {
    RunKeepsInv(run, k);
    if BookStep(run[k], s', code, memory, port) {
      BookKeepsInv(run[k], s', code, memory, port);
    }
  }

  /** What a booking means for later lookups.  It fails exactly when all ports from 2501 to 3012 are reserved or there is
      no room for a new record; otherwise its port was free and is reserved now, nothing else is, and a lookup of the
      name finds it from now on, unless a new record got no node.  All other names are found as before. */
  lemma BookingExact(s: State, s': State, code: int, memory: Memory, port: int)
    requires BookStep(s, s', code, memory, port)
    ensures port == -1 <==> (forall p :: 2501 <= p <= 3012 ==> p in s.reserved) || (code !in s.live && !memory.record)
    ensures port != -1 ==> 2501 <= port <= 3012 && port !in s.reserved && s'.reserved == s.reserved + {port}
    ensures port == -1 ==> s'.live == s.live && s.reserved <= s'.reserved
    ensures port != -1 && (code in s.live || memory.node) ==>
              code in s'.live && forall found :: GetStep(s', s', code, found) <==> found == port
    ensures port != -1 && code !in s.live && !memory.node ==> GetStep(s', s', code, -1)
    ensures forall c, found :: c != code ==> (GetStep(s', s', c, found) <==> GetStep(s, s, c, found))
  {
    var next :| NextPort(s, next) && Booked(s, s', code, memory, next, port);
    assert forall p :: InRange(p) <==> 2501 <= p <= 3012;
  }

  /** Asking for the port of a name again gives the same port and changes nothing. */
  lemma WebIsStable(s: State, s': State, s'': State, code: int, memory: Memory, later: Memory, port: int, again: int)
    requires WebStep(s, s', code, memory, port) && port != -1 && (code in s.live || memory.node)
    requires WebStep(s', s'', code, later, again)
    ensures again == port && s'' == s'
  {
    if code !in s.live {
      BookingExact(s, s', code, memory, port);
      assert GetStep(s', s', code, port);
    }
  }

  /** Two names share a bucket exactly when their codes differ by a multiple of 100. */
  lemma ShareBucket(c: int, d: int)
    ensures Position(c, BUCKETS) == Position(d, BUCKETS) <==> (c - d) % 100 == 0
  {
    hide Position;
    PositionIsModulus(c, BUCKETS);
    PositionIsModulus(d, BUCKETS);
    assert c - d == 100 * (c / 100 - d / 100) + (c % 100 - d % 100);
  }

  // ---- The registry on the heap ----

  /** A record; `code` is the hash code of its name. */
  class Record {
    const code: int
    var port: int

    constructor (code: int, port: int)
      ensures this.code == code && this.port == port
    {
      this.code, this.port := code, port;
    }
  }

  ghost function Records(chains: seq<seq<Node<Record>>>): set<Record> {
    set b, i | 0 <= b < |chains| && 0 <= i < |chains[b]| :: chains[b][i].contain
  }

  /** A node holds the record of its own code, with the port that `ports` has for it. */
  ghost predicate Carries(x: Node<Record>, ports: map<int, int>)
    reads x.contain
  {
    x.contain.code == x.code && x.code in ports && x.contain.port == ports[x.code]
  }

  /** The table holds exactly the records of `live`, each under its own code and with its port. */
  ghost predicate Agrees(chains: seq<seq<Node<Record>>>, live: map<int, int>)
    requires chains != []
    reads Records(chains)
  {
    && (forall b, i :: 0 <= b < |chains| && 0 <= i < |chains[b]| ==> Carries(chains[b][i], live))
    && (forall c :: c in live ==> Lookup(chains, c).Some?)
  }

  ghost predicate Marks(reserve: seq<int>, reserved: set<int>) {
    && |reserve| == RESERVE_SIZE
    && (forall i :: 0 <= i < RESERVE_SIZE ==> reserve[i] == if PortAt(i) in reserved then 1 else 0)
    && (forall p :: p in reserved ==> InRange(p))
  }

  // ---- What cleaning does to a bucket ----

  predicate Keeps(x: Node<Record>, ports: map<int, int>, bound: set<int>) {
    x.code in ports && ports[x.code] in bound
  }

  function Kept(chain: seq<Node<Record>>, ports: map<int, int>, bound: set<int>): (kept: seq<Node<Record>>)
    ensures forall x :: x in kept ==> x in chain && Keeps(x, ports, bound)
  {
    if chain == [] then []
    else
      var last := chain[|chain| - 1];
      Kept(chain[..|chain| - 1], ports, bound) + if Keeps(last, ports, bound) then [last] else []
  }

  /** The records with a bound port stay, except that deleting the first node of a bucket takes all others along. */
  function Cleaned(chain: seq<Node<Record>>, ports: map<int, int>, bound: set<int>): seq<Node<Record>> {
    if chain != [] && !Keeps(chain[0], ports, bound) then [] else Kept(chain, ports, bound)
  }

  lemma {:induction false} KeptExact(chain: seq<Node<Record>>, ports: map<int, int>, bound: set<int>, x: Node<Record>)
    ensures x in Kept(chain, ports, bound) <==> x in chain && Keeps(x, ports, bound)
  {
    if chain != [] {
      var rest, last := chain[..|chain| - 1], chain[|chain| - 1];
      KeptExact(rest, ports, bound, x);
      assert chain == rest + [last];
    }
  }

  /** A record survives exactly when its own port and the port of the first record of its bucket are both bound. */
  lemma CleanedExact(chain: seq<Node<Record>>, ports: map<int, int>, bound: set<int>, x: Node<Record>)
    requires x in chain
    ensures x in Cleaned(chain, ports, bound) <==> Keeps(x, ports, bound) && Keeps(chain[0], ports, bound)
  {
    KeptExact(chain, ports, bound, x);
  }

  /** The bucket when the walk has come to its `k`-th node. */
  function Walked(chain: seq<Node<Record>>, k: nat, ports: map<int, int>, bound: set<int>): seq<Node<Record>>
    requires k <= |chain|
  {
    if k > 0 && !Keeps(chain[0], ports, bound) then [] else Kept(chain[..k], ports, bound) + chain[k..]
  }

  lemma WalkEnds(chain: seq<Node<Record>>, ports: map<int, int>, bound: set<int>)
    ensures Walked(chain, 0, ports, bound) == chain
    ensures Walked(chain, |chain|, ports, bound) == Cleaned(chain, ports, bound)
  {
    assert chain[..|chain|] == chain;
  }

  lemma KeptStep(chain: seq<Node<Record>>, k: nat, ports: map<int, int>, bound: set<int>)
    requires k < |chain|
    ensures Kept(chain[..k + 1], ports, bound) ==
              Kept(chain[..k], ports, bound) + if Keeps(chain[k], ports, bound) then [chain[k]] else []
  {
    assert chain[..k + 1][..k] == chain[..k];
  }

  lemma {:induction false} FirstKept(chain: seq<Node<Record>>, k: nat, ports: map<int, int>, bound: set<int>)
    requires 0 < k <= |chain| && Keeps(chain[0], ports, bound)
    ensures Kept(chain[..k], ports, bound) != []
  {
    KeptStep(chain, k - 1, ports, bound);
    if k > 1 { FirstKept(chain, k - 1, ports, bound); }
  }

  /** A node with a bound port stays; and nothing more is lost of a bucket that is gone already. */
  lemma WalkPast(chain: seq<Node<Record>>, k: nat, ports: map<int, int>, bound: set<int>)
    requires k < |chain|
    requires Keeps(chain[k], ports, bound) || (k > 0 && !Keeps(chain[0], ports, bound))
    ensures Walked(chain, k + 1, ports, bound) == Walked(chain, k, ports, bound)
  {
    hide Kept, Keeps;
    KeptStep(chain, k, ports, bound);
    Regroup(Kept(chain[..k], ports, bound), chain, k);
  }

  lemma Regroup<T>(kept: seq<T>, chain: seq<T>, k: nat)
    requires k < |chain|
    ensures (kept + [chain[k]]) + chain[k + 1..] == kept + chain[k..]
  {
    assert chain[k..] == [chain[k]] + chain[k + 1..];
    assert (kept + [chain[k]]) + chain[k + 1..] == kept + ([chain[k]] + chain[k + 1..]);
  }

  /** Any other node is deleted; `i` is where it stands by then. */
  lemma WalkDelete(chain: seq<Node<Record>>, k: nat, ports: map<int, int>, bound: set<int>) returns (i: nat)
    requires k < |chain| && !Keeps(chain[k], ports, bound) && (k == 0 || Keeps(chain[0], ports, bound))
    ensures var now := Walked(chain, k, ports, bound);
            && |now| == i + |chain| - k && now[i..] == chain[k..]
            && Walked(chain, k + 1, ports, bound) == Deleted(now, i)
  {
    var kept := Kept(chain[..k], ports, bound);
    i := |kept|;
    KeptStep(chain, k, ports, bound);
    if k > 0 { FirstKept(chain, k, ports, bound); }
    hide Kept, Keeps;
    Splice(kept, chain[k..]);
    assert chain[k..][1..] == chain[k + 1..];
  }

  lemma Splice<T>(kept: seq<T>, rest: seq<T>)
    requires rest != []
    ensures (kept + rest)[..|kept|] == kept && (kept + rest)[|kept|..] == rest
    ensures (kept + rest)[|kept| + 1..] == rest[1..]
  {
  }

  /** `del_from_hash` takes the walk one node on, whether it finds the node or its bucket is gone already. */
  lemma DeleteWalks(chain: seq<Node<Record>>, k: nat, ports: map<int, int>, bound: set<int>)
    requires k < |chain| && UniqueCodes(chain) && !Keeps(chain[k], ports, bound)
    ensures DeletedCode(Walked(chain, k, ports, bound), chain[k].code) == Walked(chain, k + 1, ports, bound)
  {
    var now, code := Walked(chain, k, ports, bound), chain[k].code;
    if k > 0 && !Keeps(chain[0], ports, bound) {
      WalkPast(chain, k, ports, bound);
    } else {
      var i := WalkDelete(chain, k, ports, bound);
      hide Keeps, Deleted;
      assert now[i] == now[i..][0];
      forall j | 0 <= j < i ensures now[j].code != code {
        EarlierNode(chain, k, ports, bound, j);
      }
      assert IndexOf(now, code) == i;
    }
  }

  /** What stands before the `k`-th node is some node from before it. */
  lemma EarlierNode(chain: seq<Node<Record>>, k: nat, ports: map<int, int>, bound: set<int>, j: nat)
    requires k < |chain| && UniqueCodes(chain) && (k == 0 || Keeps(chain[0], ports, bound))
    requires j < |Walked(chain, k, ports, bound)| - (|chain| - k)
    ensures Walked(chain, k, ports, bound)[j].code != chain[k].code
  {
    var kept := Kept(chain[..k], ports, bound);
    assert Walked(chain, k, ports, bound)[j] == kept[j];
    assert kept[j] in kept && kept[j] in chain[..k];
  }

  class Registry {
    const table: Hash<Record>
    const reserve: array<int>
    ghost var state: State

    ghost predicate Valid()
      reads this, table, table.node, Nodes(table.chains), Records(table.chains), reserve
    {
      && table.Valid() && table.node.Length == BUCKETS
      && Agrees(table.chains, state.live)
      && Marks(reserve[..], state.reserved)
      && Inv(state)
    }

    /** Start-up: an empty table, and a first check of which ports are in use. */
    constructor (bound: set<int>)
      ensures Valid() && state.live == map[]
      ensures forall p :: p in state.reserved <==> InRange(p) && p in bound
      ensures fresh(table) && fresh(table.node) && fresh(reserve)
    {
      table := new Hash<Record>();
      reserve := new int[RESERVE_SIZE](_ => 0);
      state := State({}, map[]);
      new;
      var ok := table.Init(BUCKETS, true);
      assert ok;
      assert Agrees(table.chains, map[]) by { assert Nodes(table.chains) == {}; }
      CheckReserve(bound);
    }

    /** `check_port_reserve`: trying to bind every port finds out which are in use. */
    method CheckReserve(bound: set<int>)
      requires reserve.Length == RESERVE_SIZE
      modifies reserve, `state
      ensures state.live == old(state.live) && Marks(reserve[..], state.reserved)
      ensures forall p :: p in state.reserved <==> InRange(p) && p in bound
    {
      for i := 0 to RESERVE_SIZE
        invariant forall k :: 0 <= k < i ==> reserve[k] == if PortAt(k) in bound then 1 else 0
        modifies reserve
      {
        var inUse := if PortAt(i) in bound then 1 else 0;
        if inUse != reserve[i] {
          reserve[i] := inUse;
        }
      }
      state := state.(reserved := set p | p in bound && InRange(p));
    }

    /** `get_next_port`: reserves the lowest free port. */
    method GetNextPort() returns (port: int)
      requires Marks(reserve[..], state.reserved)
      modifies reserve, `state
      ensures NextPort(old(state), port)
      ensures state == old(state).(reserved := old(state).reserved + if port == -1 then {} else {port})
      ensures Marks(reserve[..], state.reserved)
    {
      var i := 0;
      while i < RESERVE_SIZE
        invariant 0 <= i <= RESERVE_SIZE
        invariant forall p :: InRange(p) && p < PortAt(i) ==> p in state.reserved
        modifies {}
      {
        assert reserve[i] == reserve[..][i];
        if reserve[i] == 0 {
          break;
        }
        i := i + 1;
      }
      if i == RESERVE_SIZE {
        return -1;
      }
      port := PortAt(i);
      ghost var before := reserve[..];
      reserve[i] := 1;
      state := state.(reserved := state.reserved + {port});
      assert reserve[..] == before[i := 1];
    }

    /** `get_port`. */
    method GetPort(code: int) returns (port: int)
      requires Valid()
      ensures GetStep(state, state, code, port)
    {
      var r := table.Get(code);
      FoundRecord(table.chains, state.live, code);
      if r.None? {
        return -1;
      }
      port := r.value.port;
    }
  
    /** Puts a new record into the table, if there is room for its node. */
    method AddRecord(code: int, port: int, memory: bool)
      requires table.Valid() && table.node.Length == BUCKETS && Agrees(table.chains, state.live)
      requires Lookup(table.chains, code) == None
      modifies `state, table, table.node, Nodes(table.chains)
      ensures table.Valid() && table.node == old(table.node) && Agrees(table.chains, state.live)
      ensures state == old(state).(live := if memory then old(state).live[code := port] else old(state).live)
      ensures fresh(Records(table.chains) - old(Records(table.chains)))
    {
      hide WellPlaced, Linked, Lookup, Position, Stores;
      var added := new Record(code, port);
      ghost var before := table.chains;
      var ok := table.Put(added, code, memory);
      if ok {
        state := state.(live := state.live[code := port]);
        AgreesMore(before, table.chains, old(state.live), code, added);
      }
    }

    /** Gives the record of a code another port. */
    method Renew(r: Record, code: int, port: int)
      requires table.Valid() && table.node.Length == BUCKETS && Agrees(table.chains, state.live)
      requires r in Records(table.chains) && r.code == code && code in state.live
      requires forall b, i :: 0 <= b < |table.chains| && 0 <= i < |table.chains[b]| && table.chains[b][i].code == code ==>
                                table.chains[b][i].contain == r
      modifies `state, r`port
      ensures table.Valid() && Agrees(table.chains, state.live)
      ensures state == old(state).(live := old(state).live[code := port])
    {
      hide WellPlaced, Linked, Lookup, Position;
      r.port := port;
      state := state.(live := state.live[code := port]);
    }

    /** `book_port`. */
    method BookPort(code: int, memory: Memory) returns (port: int)
      requires Valid()
      modifies this`state, reserve, table, table.node, Nodes(table.chains), Records(table.chains)
      ensures Valid() && BookStep(old(state), state, code, memory, port)
      ensures table.node == old(table.node)
      ensures fresh(Records(table.chains) - old(Records(table.chains)))
    {
      hide WellPlaced, Linked, Lookup, NextPort, Marks, Inv, Agrees;
      ghost var start := state;
      var r := table.Get(code);
      FoundRecord(table.chains, state.live, code);
      var next := GetNextPort();
      port := next;
      if port == -1 {
      } else if r.Some? {
        Renew(r.value, code, port);
      } else if !memory.record {
        port := -1;
      } else {
        AddRecord(code, port, memory.node);
      }
      assert Booked(start, state, code, memory, next, port);
      BookKeepsInv(start, state, code, memory, port);
    }

    /** `web_port`. */
    method WebPort(code: int, memory: Memory) returns (port: int)
      requires Valid()
      modifies this`state, reserve, table, table.node, Nodes(table.chains), Records(table.chains)
      ensures Valid() && WebStep(old(state), state, code, memory, port)
      ensures table.node == old(table.node)
    {
      hide WellPlaced, Linked, Lookup, NextPort, Marks, Agrees, BookStep;
      port := GetPort(code);
      if port == -1 {
        port := BookPort(code, memory);
      }
    }
  
    /** Deletes the `k`-th node of what bucket `b` was; when the rest of the bucket is gone already, that finds nothing.
        The nodes after it keep their links, even those no longer in the table. */
    method Drop(code: int, ghost start: seq<seq<Node<Record>>>, ghost b: nat, ghost k: nat,
                ghost ports: map<int, int>, ghost bound: set<int>)
      requires table.Valid() && |start| == table.node.Length && WellPlaced(start) && b < |start|
      requires var chain := start[b];
               && k < |chain| && chain[k].code == code && !Keeps(chain[k], ports, bound)
               && table.chains == start[b := Walked(chain, k, ports, bound)]
               && forall j :: k <= j < |chain| ==> chain[j].next == At(chain, j + 1)
      modifies table, table.node, Nodes(table.chains)
      ensures table.Valid() && table.node == old(table.node)
      ensures var chain := start[b];
              && table.chains == start[b := Walked(chain, k + 1, ports, bound)]
              && forall j :: k < j < |chain| ==> chain[j].next == At(chain, j + 1)
    {
      ghost var chain := start[b];
      assert Position(code, |start|) == b && UniqueCodes(chain);
      hide WellPlaced, Linked, Position, Walked, Deletes, Lookup, DeletedCode;
      DeleteWalks(chain, k, ports, bound);
      var r := table.Del(code);
    }
  
    /** One node of the walk: freed when its port is not in use. */
    method CleanNode(n: Node<Record>, ghost start: seq<seq<Node<Record>>>, ghost b: nat, ghost k: nat,
                     bound: set<int>, ghost ports: map<int, int>) returns (next: Node?<Record>)
      requires table.Valid() && |start| == table.node.Length && WellPlaced(start) && b < |start|
      requires reserve.Length == RESERVE_SIZE && Carries(n, ports) && InRange(n.contain.port)
      requires var chain := start[b];
               && k < |chain| && chain[k] == n
               && table.chains == start[b := Walked(chain, k, ports, bound)]
               && forall j :: k <= j < |chain| ==> chain[j].next == At(chain, j + 1)
      modifies table, table.node, Nodes(table.chains), reserve
      ensures table.Valid() && table.node == old(table.node)
      ensures var chain := start[b];
              && next == At(chain, k + 1)
              && table.chains == start[b := Walked(chain, k + 1, ports, bound)]
              && forall j :: k < j < |chain| ==> chain[j].next == At(chain, j + 1)
    {
      hide WellPlaced, Linked, Position, Walked, Kept, Nodes;
      var port := n.contain.port;
      next := n.next;
      if port !in bound {
        reserve[port - 1 - REGISTER_PORT] := 0;
        Drop(n.code, start, b, k, ports, bound);
      } else {
        WalkPast(start[b], k, ports, bound);
      }
    }

    /** The walk of `clean_port_reserve` over one bucket. */
    method CleanBucket(b: nat, bound: set<int>, ghost ports: map<int, int>)
      requires table.Valid() && b < table.node.Length && reserve.Length == RESERVE_SIZE
      requires forall j :: 0 <= j < |table.chains[b]| ==> Carries(table.chains[b][j], ports)
      requires forall c :: c in ports ==> InRange(ports[c])
      modifies table, table.node, Nodes(table.chains), reserve
      ensures table.Valid() && table.node == old(table.node)
      ensures table.chains == old(table.chains)[b := Cleaned(old(table.chains)[b], ports, bound)]
    {
      hide Position, Walked, Nodes, Kept, Cleaned, Keeps, InRange, UniqueCodes;
      ghost var start := table.chains;
      ghost var chain := start[b];
      var n := table.node[b];
      ghost var k: nat := 0;
      assert Linked(n, chain);
      WalkEnds(chain, ports, bound);
      forall j | 0 <= j < |chain| ensures chain[j].next == At(chain, j + 1) { NextOf(n, chain, j); }
      assert WellPlaced(start);
      hide WellPlaced, Linked;
      while n != null
        invariant k <= |chain| && n == At(chain, k)
        invariant table.Valid() && table.node == old(table.node) && |start| == table.node.Length
        invariant table.chains == start[b := Walked(chain, k, ports, bound)]
        invariant forall j :: k <= j < |chain| ==> chain[j].next == At(chain, j + 1)
        invariant Nodes(table.chains) <= Nodes(start)
        decreases |chain| - k
      {
        assert Carries(chain[k], ports) && InRange(ports[n.code]);
        n := CleanNode(n, start, b, k, bound, ports);
        k := k + 1;
        WalkedSubset(start, b, k, ports, bound);
      }
    }
  
    /** The walks over all buckets. */
    method CleanBuckets(bound: set<int>, ghost ports: map<int, int>)
      requires table.Valid() && table.node.Length == BUCKETS && reserve.Length == RESERVE_SIZE
      requires forall b, j :: 0 <= b < BUCKETS && 0 <= j < |table.chains[b]| ==> Carries(table.chains[b][j], ports)
      requires forall c :: c in ports ==> InRange(ports[c])
      modifies table, table.node, Nodes(table.chains), reserve
      ensures table.Valid() && table.node == old(table.node)
      ensures forall b :: 0 <= b < BUCKETS ==> table.chains[b] == Cleaned(old(table.chains)[b], ports, bound)
    {
      hide Linked, WellPlaced, Nodes, Kept, Cleaned, InRange, Keeps, Position, UniqueCodes;
      ghost var start := table.chains;
      for i := 0 to BUCKETS
        invariant table.Valid() && table.node == old(table.node) && |table.chains| == BUCKETS
        invariant forall b :: 0 <= b < i ==> table.chains[b] == Cleaned(start[b], ports, bound)
        invariant forall b :: i <= b < BUCKETS ==> table.chains[b] == start[b]
        invariant Nodes(table.chains) <= Nodes(start)
      {
        ghost var now := table.chains;
        assert forall j :: 0 <= j < |now[i]| ==> now[i][j] == start[i][j];
        CleanedSubset(now, i, ports, bound);
        CleanBucket(i, bound, ports);
      }
    }

    /** `clean_port_reserve` while exactly the ports in `bound` are in use: every bucket is cleaned, and the
        reservations are checked. */
    method CleanPortReserve(bound: set<int>)
      requires Valid()
      modifies this`state, table, table.node, Nodes(table.chains), reserve
      ensures Valid() && table.node == old(table.node)
      ensures forall b :: 0 <= b < BUCKETS ==>
                table.chains[b] == Cleaned(old(table.chains)[b], old(state).live, bound)
      ensures CleanStep(old(state), state, bound)
    {
      hide Linked, WellPlaced, Nodes, Kept, Cleaned, Inv, NextPort, Carries, Keeps, Lookup;
      ghost var start := table.chains;
      ghost var before := state;
      InvRange(state);
      CleanBuckets(bound, state.live);
      SurvivorsAgree(start, table.chains, before.live, bound);
      CheckReserve(bound);
      state := state.(live := Surviving(table.chains, before.live));
      CleanKeepsInv(before, state, bound);
    }
  }

  lemma InvRange(s: State)
    requires Inv(s)
    ensures forall c :: c in s.live ==> InRange(s.live[c])
  {
  }

  lemma CleanedSubset(start: seq<seq<Node<Record>>>, b: nat, ports: map<int, int>, bound: set<int>)
    requires b < |start|
    ensures Nodes(start[b := Cleaned(start[b], ports, bound)]) <= Nodes(start)
  {
    WalkEnds(start[b], ports, bound);
    WalkedSubset(start, b, |start[b]|, ports, bound);
  }

  ghost function Surviving(chains: seq<seq<Node<Record>>>, ports: map<int, int>): map<int, int>
    requires chains != []
  {
    map c | c in ports && Lookup(chains, c).Some? :: ports[c]
  }

  /** The records left after cleaning are those of the surviving codes, and their ports are bound. */
  lemma SurvivorsAgree(start: seq<seq<Node<Record>>>, after: seq<seq<Node<Record>>>,
                       ports: map<int, int>, bound: set<int>)
    requires |start| == |after| > 0 && WellPlaced(after)
    requires forall b, j :: 0 <= b < |start| && 0 <= j < |start[b]| ==> Carries(start[b][j], ports)
    requires forall b :: 0 <= b < |start| ==> after[b] == Cleaned(start[b], ports, bound)
    ensures Agrees(after, Surviving(after, ports))
    ensures forall c :: c in Surviving(after, ports) ==> ports[c] in bound
  {
    var live := Surviving(after, ports);
    forall b, i | 0 <= b < |after| && 0 <= i < |after[b]| ensures Carries(after[b][i], live) {
      var x := after[b][i];
      assert x in after[b] && x in start[b];
      var j :| 0 <= j < |start[b]| && start[b][j] == x;
      assert Carries(start[b][j], ports);
      FindExact(after[b], x.code);
    }
    forall c | c in live ensures ports[c] in bound {
      var chain := after[Position(c, |after|)];
      FindExact(chain, c);
      var i :| 0 <= i < |chain| && chain[i].code == c;
      assert chain[i] in chain;
    }
  }

  /** The walk only takes nodes away. */
  lemma WalkedSubset(start: seq<seq<Node<Record>>>, b: nat, k: nat, ports: map<int, int>, bound: set<int>)
    requires b < |start| && k <= |start[b]|
    ensures Nodes(start[b := Walked(start[b], k, ports, bound)]) <= Nodes(start)
  {
    var chain := start[b];
    var after := start[b := Walked(chain, k, ports, bound)];
    forall x | x in Nodes(after) ensures x in Nodes(start) {
      var c, i :| 0 <= c < |after| && 0 <= i < |after[c]| && after[c][i] == x;
      if c == b {
        assert x in after[b] && x in chain;
        var j :| 0 <= j < |chain| && chain[j] == x;
        assert start[b][j] == x;
      } else {
        assert start[c][i] == x;
      }
    }
  }

  /** The records after a put: those before, and the new one. */
  lemma StoredRecords(before: seq<seq<Node<Record>>>, after: seq<seq<Node<Record>>>, code: int, r: Record)
    requires before != [] && Stores(before, after, code, r)
    ensures Records(after) == Records(before) + {r}
    ensures forall b, i :: 0 <= b < |after| && 0 <= i < |after[b]| ==>
              (b < |before| && i < |before[b]| && after[b][i] == before[b][i]) ||
              (after[b][i].code == code && after[b][i].contain == r)
    ensures forall c :: Lookup(after, c) == if c == code then Some(r) else Lookup(before, c)
  {
    var pos := Position(code, |before|);
    assert forall b :: 0 <= b < |before| && b != pos ==> after[b] == before[b];
    assert after[pos][|before[pos]|].contain == r;
    assert forall i :: 0 <= i < |before[pos]| ==> after[pos][i] == before[pos][i];
    forall x | x in Records(before) ensures x in Records(after) {
      var b, i :| 0 <= b < |before| && 0 <= i < |before[b]| && before[b][i].contain == x;
      assert after[b][i] == before[b][i];
    }
  }

  lemma AgreesMore(before: seq<seq<Node<Record>>>, after: seq<seq<Node<Record>>>, live: map<int, int>,
                   code: int, r: Record)
    requires before != [] && Agrees(before, live) && Lookup(before, code) == None
    requires Stores(before, after, code, r) && r.code == code
    ensures Agrees(after, live[code := r.port])
    ensures Records(after) == Records(before) + {r}
  {
    hide Lookup, Stores, Position;
    StoredRecords(before, after, code, r);
    var more := live[code := r.port];
    forall b, i | 0 <= b < |after| && 0 <= i < |after[b]| ensures Carries(after[b][i], more) {
      if b < |before| && i < |before[b]| && after[b][i] == before[b][i] {
        assert Carries(before[b][i], live);
      }
    }
  }

  /** Looking a code up finds its record, and that is the only record with this code. */
  lemma FoundRecord(chains: seq<seq<Node<Record>>>, live: map<int, int>, code: int)
    requires chains != [] && WellPlaced(chains) && Agrees(chains, live)
    ensures Lookup(chains, code).Some? <==> code in live
    ensures code in live ==> var r := Lookup(chains, code).value;
                             && r in Records(chains) && r.code == code && r.port == live[code]
                             && forall b, i :: 0 <= b < |chains| && 0 <= i < |chains[b]| && chains[b][i].code == code ==>
                                                 chains[b][i].contain == r
  {
    var chain := chains[Position(code, |chains|)];
    FindExact(chain, code);
    if i: nat :| i < |chain| && chain[i].code == code {
      assert Lookup(chains, code) == Some(chain[i].contain);
    }
  }
}
