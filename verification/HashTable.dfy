/** The chained hash table and its iterator.  A node's code and contents never change; buckets and `next` links do. */
module HashTable {
  import opened Wrappers

  class Node<T> {
    const contain: T
    const code: int
    var next: Node?<T>

    constructor (contain: T, code: int)
      ensures this.contain == contain && this.code == code && next == null
    {
      this.contain, this.code, next := contain, code, null;
    }
  }

  // ---- The bucket of a code ----

  /** The remainder as the source language computes it: it has the sign of the dividend. */
  function Truncated(code: int, n: nat): int
    requires n > 0
  {
    if code >= 0 then code % n else -((-code) % n)
  }

  function Position(code: int, n: nat): (pos: int)
    requires n > 0
    ensures 0 <= pos < n
  {
    var pos := Truncated(code, n);
    if pos < 0 then n + pos else pos
  }

  lemma Multiple(n: nat, d: nat)
    requires d > 0
    ensures n * d >= n
  {
    assert n * d == n + n * (d - 1);
  }

  lemma RemainderUnique(n: nat, q: int, r: int, q': int, r': int)
    requires n > 0 && 0 <= r < n && 0 <= r' < n && n * q + r == n * q' + r'
    ensures r == r'
  {
    if q > q' { Multiple(n, q - q'); }
    if q < q' { Multiple(n, q' - q); }
  }

  /** For every code, negative ones included, the bucket is the code modulo the number of buckets. */
  lemma PositionIsModulus(code: int, n: nat)
    requires n > 0
    ensures Position(code, n) == code % n
  {
    if code < 0 {
      var q := NegatedQuotient(code, n);
      RemainderUnique(n, q, Position(code, n), code / n, code % n);
    }
  }

  lemma NegatedQuotient(code: int, n: nat) returns (q: int)
    requires n > 0 && code < 0
    ensures code == n * q + Position(code, n)
  {
    var k, r := (-code) / n, (-code) % n;
    q := if r == 0 then -k else -k - 1;
    Negated(n, k);
  }

  lemma Negated(n: nat, k: int)
    ensures n * (-k) == -(n * k) && n * (-k - 1) == -(n * k) - n
  {
  }

  // ---- Chains of nodes, and the map they stand for ----

  ghost predicate Linked<T>(head: Node?<T>, chain: seq<Node<T>>)
    reads chain
  {
    && (chain == [] ==> head == null)
    && (chain != [] ==> head == chain[0] && chain[|chain| - 1].next == null)
    && (forall i, j :: 0 <= i < |chain| && 0 <= j < |chain| && j == i + 1 ==> chain[i].next == chain[j])
  }

  ghost function At<T>(chain: seq<Node<T>>, i: nat): Node?<T> {
    if i < |chain| then chain[i] else null
  }

  lemma NextOf<T>(head: Node?<T>, chain: seq<Node<T>>, i: nat)
    requires Linked(head, chain) && i < |chain|
    ensures chain[i].next == At(chain, i + 1)
  {
  }

  lemma DistinctNodes<T>(chain: seq<Node<T>>)
    requires UniqueCodes(chain)
    ensures forall i, j :: 0 <= i < j < |chain| ==> chain[i] != chain[j]
  {
  }

  lemma Elsewhere<T>(chains: seq<seq<Node<T>>>, b: nat)
    requires WellPlaced(chains) && b < |chains|
    ensures forall c, i, j :: 0 <= c < |chains| && c != b && 0 <= i < |chains[b]| && 0 <= j < |chains[c]| ==>
                                chains[b][i] != chains[c][j]
  {
  }

  ghost predicate UniqueCodes<T>(chain: seq<Node<T>>) {
    forall i, j :: 0 <= i < j < |chain| ==> chain[i].code != chain[j].code
  }

  /** Every code is stored at most once, in the bucket it belongs to. */
  ghost predicate WellPlaced<T>(chains: seq<seq<Node<T>>>) {
    && (forall b, i :: 0 <= b < |chains| && 0 <= i < |chains[b]| ==> Position(chains[b][i].code, |chains|) == b)
    && (forall b :: 0 <= b < |chains| ==> UniqueCodes(chains[b]))
  }

  /** The contents of the first node of a chain that has the code. */
  ghost function Find<T>(chain: seq<Node<T>>, code: int): Option<T> {
    if chain == [] then None
    else if chain[0].code == code then Some(chain[0].contain)
    else Find(chain[1..], code)
  }

  /** The table as a map from codes to contents. */
  ghost function Lookup<T>(chains: seq<seq<Node<T>>>, code: int): Option<T>
    requires chains != []
  {
    Find(chains[Position(code, |chains|)], code)
  }

  lemma {:induction false} FindIsFirst<T>(chain: seq<Node<T>>, code: int, i: nat)
    requires i <= |chain| && forall j :: 0 <= j < i ==> chain[j].code != code
    ensures i < |chain| && chain[i].code == code ==> Find(chain, code) == Some(chain[i].contain)
    ensures i == |chain| ==> Find(chain, code) == None
    decreases i
  {
    if i > 0 {
      assert forall j :: 0 <= j < i - 1 ==> chain[1..][j] == chain[j + 1];
      FindIsFirst(chain[1..], code, i - 1);
    }
  }

  /** Every node is found under its code, and nothing else is found. */
  lemma {:induction false} FindExact<T>(chain: seq<Node<T>>, code: int)
    requires UniqueCodes(chain)
    ensures Find(chain, code).Some? <==> exists i :: 0 <= i < |chain| && chain[i].code == code
    ensures forall i :: 0 <= i < |chain| && chain[i].code == code ==> Find(chain, code) == Some(chain[i].contain)
  {
    if i: nat :| i < |chain| && chain[i].code == code {
      FindIsFirst(chain, code, i);
    } else {
      FindIsFirst(chain, code, |chain|);
    }
  }

  ghost function Nodes<T>(chains: seq<seq<Node<T>>>): set<Node<T>> {
    set b, i | 0 <= b < |chains| && 0 <= i < |chains[b]| :: chains[b][i]
  }

  // ---- What putting and deleting do to a chain ----

  lemma FindAppend<T>(chain: seq<Node<T>>, x: Node<T>, code: int)
    requires UniqueCodes(chain) && Find(chain, x.code) == None
    ensures UniqueCodes(chain + [x])
    ensures Find(chain + [x], code) == if code == x.code then Some(x.contain) else Find(chain, code)
  {
    FindExact(chain, x.code);
    assert UniqueCodes(chain + [x]);
    FindExact(chain, code);
    FindExact(chain + [x], code);
    var longer := chain + [x];
    assert longer[|chain|] == x;
    if i: nat :| i < |chain| && chain[i].code == code {
      assert longer[i] == chain[i];
    } else {
      assert forall i :: 0 <= i < |chain| ==> longer[i] == chain[i];
    }
  }

  function Without<T>(chain: seq<Node<T>>, i: nat): seq<Node<T>>
    requires i < |chain|
  {
    chain[..i] + chain[i + 1..]
  }

  lemma FindWithout<T>(chain: seq<Node<T>>, i: nat, code: int)
    requires UniqueCodes(chain) && i < |chain|
    ensures UniqueCodes(Without(chain, i))
    ensures Find(Without(chain, i), code) == if code == chain[i].code then None else Find(chain, code)
  {
    var shorter := Without(chain, i);
    assert forall k :: 0 <= k < |shorter| ==> shorter[k] == chain[if k < i then k else k + 1];
    assert UniqueCodes(shorter);
    FindExact(chain, code);
    FindExact(shorter, code);
    if k: nat :| k < |chain| && chain[k].code == code && k != i {
      assert shorter[if k < i then k else k - 1] == chain[k];
    }
  }

  /** What `del_from_hash` makes of a chain: deleting the first node drops all the others with it. */
  function Deleted<T>(chain: seq<Node<T>>, i: nat): seq<Node<T>>
    requires i < |chain|
  {
    if i == 0 then [] else Without(chain, i)
  }

  /** The index of the first node with the code; the length of the chain when there is none. */
  function IndexOf<T>(chain: seq<Node<T>>, code: int): (i: nat)
    ensures i <= |chain| && (i < |chain| ==> chain[i].code == code)
    ensures forall j :: 0 <= j < i ==> chain[j].code != code
  {
    if chain == [] || chain[0].code == code then 0
    else
      var i := IndexOf(chain[1..], code);
      assert forall j :: 0 < j < i + 1 ==> chain[j] == chain[1..][j - 1];
      i + 1
  }

  /** The same by code; a chain without the code stays as it is. */
  function DeletedCode<T>(chain: seq<Node<T>>, code: int): seq<Node<T>> {
    var i := IndexOf(chain, code);
    if i == |chain| then chain else Deleted(chain, i)
  }

  ghost predicate Dropped<T>(chain: seq<Node<T>>, code: int) {
    chain != [] && chain[0].code == code
  }

  // ---- The same for the whole table ----

  /** `after` is `before` with a new node at the end of its bucket, and stands for the map with one more entry. */
  ghost predicate Stores<T>(before: seq<seq<Node<T>>>, after: seq<seq<Node<T>>>, code: int, contain: T)
    requires before != []
  {
    && |after| == |before|
    && (forall c :: Lookup(after, c) == if c == code then Some(contain) else Lookup(before, c))
    && var pos := Position(code, |before|);
       && |after[pos]| == |before[pos]| + 1
       && after[pos][|before[pos]|].code == code && after[pos][|before[pos]|].contain == contain
       && after == before[pos := before[pos] + [after[pos][|before[pos]|]]]
  }

  lemma StoresNode<T>(chains: seq<seq<Node<T>>>, x: Node<T>)
    requires chains != [] && WellPlaced(chains) && Lookup(chains, x.code) == None
    ensures var pos := Position(x.code, |chains|);
            var after := chains[pos := chains[pos] + [x]];
            WellPlaced(after) && Stores(chains, after, x.code, x.contain)
  {
    var pos := Position(x.code, |chains|);
    var after := chains[pos := chains[pos] + [x]];
    FindAppend(chains[pos], x, x.code);
    forall c ensures Lookup(after, c) == if c == x.code then Some(x.contain) else Lookup(chains, c) {
      FindAppend(chains[pos], x, c);
    }
  }

  /** `after` is `before` without the code.  When its node was the first of its bucket, the rest of the bucket is gone
      as well; nothing else changes. */
  ghost predicate Deletes<T>(before: seq<seq<Node<T>>>, after: seq<seq<Node<T>>>, code: int)
    requires before != []
  {
    && |after| == |before|
    && var pos := Position(code, |before|);
       && (forall b :: 0 <= b < |before| && b != pos ==> after[b] == before[b])
       && (Dropped(before[pos], code) ==> after[pos] == [])
       && forall c :: Lookup(after, c) ==
            if c == code || (Dropped(before[pos], code) && Position(c, |before|) == pos) then None
            else Lookup(before, c)
  }

  lemma DeletesNode<T>(chains: seq<seq<Node<T>>>, code: int, i: nat)
    requires chains != [] && WellPlaced(chains)
    requires var chain := chains[Position(code, |chains|)]; i < |chain| && chain[i].code == code
    ensures var pos := Position(code, |chains|);
            var after := chains[pos := Deleted(chains[pos], i)];
            WellPlaced(after) && Deletes(chains, after, code)
  {
    var pos := Position(code, |chains|);
    var chain := chains[pos];
    var after := chains[pos := Deleted(chain, i)];
    assert UniqueCodes(chain);
    assert Dropped(chain, code) <==> i == 0;
    if i > 0 {
      FindWithout(chain, i, code);
      forall c ensures Lookup(after, c) == if c == code then None else Lookup(chains, c) {
        FindWithout(chain, i, c);
      }
    }
  }

  // ---- The table ----

  class Hash<T> {
    var node: array<Node?<T>>
    ghost var chains: seq<seq<Node<T>>>

    /** A table that has not been initialised has no buckets. */
    constructor ()
      ensures Valid() && node.Length == 0 && fresh(node)
    {
      node := new Node?<T>[0];
      chains := [];
    }

    ghost predicate Valid()
      reads this, node, Nodes(chains)
    {
      && |chains| == node.Length
      && WellPlaced(chains)
      && forall b :: 0 <= b < |chains| ==> Linked(node[b], chains[b])
    }

    /** `init_hash`; `memory` says whether there is room for the buckets. */
    method Init(n: int, memory: bool) returns (ok: bool)
      requires Valid()
      modifies this
      ensures Valid()
      ensures ok == (n > 0 && old(node.Length) == 0 && memory)
      ensures ok ==> node.Length == n && chains == seq(n, _ => []) && fresh(node)
      ensures !ok ==> node == old(node) && chains == old(chains)
    {
      if n <= 0 || node.Length != 0 || !memory {
        return false;
      }
      node := new Node?<T>[n](_ => null);
      chains := seq(n, _ => []);
      ok := true;
    }

    /** The last node of a non-empty chain, unless one before it or itself has the code. */
    method Last(head: Node<T>, code: int, ghost chain: seq<Node<T>>) returns (n: Node<T>, found: bool)
      requires Linked(head, chain)
      ensures found <==> Find(chain, code).Some?
      ensures !found ==> n == chain[|chain| - 1]
    {
      n := head;
      ghost var i: nat := 0;
      while n.next != null
        invariant i < |chain| && n == chain[i]
        invariant forall j :: 0 <= j < i ==> chain[j].code != code
        decreases |chain| - i
      {
        if n.code == code {
          FindIsFirst(chain, code, i);
          return n, true;
        }
        NextOf(head, chain, i);
        n := n.next;
        i := i + 1;
      }
      NextOf(head, chain, i);
      FindIsFirst(chain, code, if n.code == code then i else i + 1);
      found := n.code == code;
    }

    /** Hangs a new node behind the last one of its bucket. */
    method Append(n: Node<T>, newNode: Node<T>)
      requires Valid() && node.Length > 0 && newNode.next == null && newNode !in Nodes(chains)
      requires Lookup(chains, newNode.code) == None
      requires var chain := chains[Position(newNode.code, node.Length)]; chain != [] && n == chain[|chain| - 1]
      modifies n`next, `chains
      ensures Valid()
      ensures var pos := Position(newNode.code, node.Length); chains == old(chains)[pos := old(chains)[pos] + [newNode]]
    {
      hide Lookup, Find, Position, Stores, UniqueCodes;
      ghost var pos := Position(newNode.code, node.Length);
      ghost var chain := chains[pos];
      ghost var before := chains;
      assert UniqueCodes(chain);
      DistinctNodes(chain);
      Elsewhere(chains, pos);
      StoresNode(chains, newNode);
      hide WellPlaced;
      assert Linked(node[pos], chain);
      n.next := newNode;
      chains := chains[pos := chain + [newNode]];
      assert Linked(node[pos], chains[pos]);
      forall b | 0 <= b < |chains| && b != pos ensures Linked(node[b], chains[b]) {
        assert old(Linked(node[b], before[b]));
        assert chains[b] == before[b];
      }
    }

    /** Makes a new node the only one of an empty bucket. */
    method SetFirst(newNode: Node<T>)
      requires Valid() && node.Length > 0 && newNode.next == null
      requires chains[Position(newNode.code, node.Length)] == []
      modifies node, `chains
      ensures Valid()
      ensures var pos := Position(newNode.code, node.Length); chains == old(chains)[pos := old(chains)[pos] + [newNode]]
    {
      hide Lookup, Position, Stores;
      ghost var pos := Position(newNode.code, node.Length);
      ghost var before := chains;
      assert Lookup(chains, newNode.code) == None by { EmptyBucket(chains, newNode.code); }
      StoresNode(chains, newNode);
      hide WellPlaced;
      node[Position(newNode.code, node.Length)] := newNode;
      chains := chains[pos := chains[pos] + [newNode]];
      assert Linked(node[pos], chains[pos]);
      forall b | 0 <= b < |chains| && b != pos ensures Linked(node[b], chains[b]) {
        assert old(Linked(node[b], before[b]));
      }
    }

    /** `put_into_hash`: stores the contents unless the code is stored already; `memory` says whether there is room for
        a node. */
    method Put(contain: T, code: int, memory: bool) returns (ok: bool)
      requires Valid() && node.Length > 0
      modifies this, node, Nodes(chains)
      ensures Valid()
      ensures ok == (memory && Lookup(old(chains), code) == None)
      ensures node == old(node)
      ensures !ok ==> chains == old(chains)
      ensures ok ==> Stores(old(chains), chains, code, contain)
    {
      hide Lookup, Stores, WellPlaced, UniqueCodes;
      var pos := Position(code, node.Length);
      assert Linked(node[pos], chains[pos]);
      if node[pos] == null {
        EmptyBucket(chains, code);
        if !memory {
          return false;
        }
        var newNode := new Node(contain, code);
        StoresNode(chains, newNode);
        SetFirst(newNode);
        return true;
      }
      var n, found := Last(node[pos], code, chains[pos]);
      LookupInBucket(chains, code);
      if found || !memory {
        return false;
      }
      var newNode := new Node(contain, code);
      StoresNode(chains, newNode);
      Append(n, newNode);
      return true;
    }

    /** `get_from_hash`. */
    method Get(code: int) returns (contain: Option<T>)
      requires Valid() && node.Length > 0
      ensures contain == Lookup(chains, code)
    {
      hide WellPlaced, UniqueCodes;
      var pos := Position(code, node.Length);
      assert Linked(node[pos], chains[pos]);
      ghost var chain := chains[pos];
      var n := node[pos];
      ghost var i: nat := 0;
      while n != null
        invariant i <= |chain| && n == At(chain, i)
        invariant forall j :: 0 <= j < i ==> chain[j].code != code
        decreases |chain| - i
      {
        if n.code == code {
          FindIsFirst(chain, code, i);
          return Some(n.contain);
        }
        NextOf(node[pos], chain, i);
        n := n.next;
        i := i + 1;
      }
      FindIsFirst(chain, code, i);
      return None;
    }

    /** Takes the node at index `i` of bucket `pos` out of the links; `pre` is the node before it. */
    method Unlink(pos: nat, pre: Node?<T>, n: Node<T>, ghost i: nat)
      requires Valid() && pos < node.Length && i < |chains[pos]| && chains[pos][i] == n
      requires if i == 0 then pre == null else pre == chains[pos][i - 1]
      modifies node, if pre == null then {} else {pre}, `chains
      ensures Valid()
      ensures chains == old(chains)[pos := Deleted(old(chains)[pos], i)]
    {
      hide Position;
      ghost var chain := chains[pos];
      ghost var before := chains;
      assert UniqueCodes(chain);
      DistinctNodes(chain);
      Elsewhere(chains, pos);
      assert WellPlaced(chains[pos := Deleted(chain, i)]);
      hide WellPlaced, UniqueCodes;
      assert Linked(node[pos], chain);
      NextOf(node[pos], chain, i);
      if pre != null {
        pre.next := n.next;
      } else {
        node[pos] := null;
      }
      chains := chains[pos := Deleted(chain, i)];
      assert Linked(node[pos], Deleted(chain, i));
      forall b | 0 <= b < |chains| && b != pos ensures Linked(node[b], chains[b]) {
        assert old(Linked(node[b], before[b]));
        assert chains[b] == before[b];
      }
    }

    /** The loop of `del_from_hash`: the node with the code, and the node before it. */
    method Locate(pos: nat, code: int) returns (pre: Node?<T>, n: Node?<T>, ghost i: nat)
      requires Valid() && pos < node.Length
      ensures var chain := chains[pos];
              && i <= |chain| && n == At(chain, i) && pre == (if i == 0 then null else chain[i - 1])
              && (i < |chain| ==> chain[i].code == code) && (forall j :: 0 <= j < i ==> chain[j].code != code)
      ensures pre != null ==> pre.next == n
    {
      hide WellPlaced, UniqueCodes;
      assert Linked(node[pos], chains[pos]);
      ghost var chain := chains[pos];
      pre, n, i := null, node[pos], 0;
      while n != null
        invariant i <= |chain| && n == At(chain, i) && pre == (if i == 0 then null else chain[i - 1])
        invariant forall j :: 0 <= j < i ==> chain[j].code != code
        invariant pre != null ==> pre.next == n
        decreases |chain| - i
      {
        if n.code == code {
          break;
        }
        NextOf(node[pos], chain, i);
        pre := n;
        n := n.next;
        i := i + 1;
      }
    }

    /** `del_from_hash`.  Only the node before the deleted one gets another successor. */
    method Del(code: int) returns (contain: Option<T>)
      requires Valid() && node.Length > 0
      modifies this, node, Nodes(chains)
      ensures Valid() && node == old(node)
      ensures contain == Lookup(old(chains), code)
      ensures contain.None? ==> chains == old(chains)
      ensures contain.Some? ==> Deletes(old(chains), chains, code)
      ensures var pos := Position(code, node.Length); chains == old(chains)[pos := DeletedCode(old(chains)[pos], code)]
      ensures forall x :: x in old(Nodes(chains)) && (old(x.next) == null || old(x.next).code != code) ==>
                            x.next == old(x.next)
    {
      hide Linked, WellPlaced, Deletes, Deleted, DeletedCode, Position, UniqueCodes, Lookup;
      var pos := Position(code, node.Length);
      var pre, n, i := Locate(pos, code);
      FirstWithCode(chains, code, i);
      if n == null {
        return None;
      }
      Unlink(pos, pre, n, i);
      return Some(n.contain);
    }
  }

  /** What finding the code at index `i` of its bucket, or at the end of it, means for the table. */
  lemma FirstWithCode<T>(chains: seq<seq<Node<T>>>, code: int, i: nat)
    requires chains != [] && WellPlaced(chains)
    requires var chain := chains[Position(code, |chains|)];
             && i <= |chain| && (i < |chain| ==> chain[i].code == code)
             && forall j :: 0 <= j < i ==> chain[j].code != code
    ensures var pos := Position(code, |chains|); var chain := chains[pos];
            if i < |chain| then
              && Lookup(chains, code) == Some(chain[i].contain)
              && DeletedCode(chain, code) == Deleted(chain, i)
              && Deletes(chains, chains[pos := Deleted(chain, i)], code)
            else
              Lookup(chains, code) == None && chains[pos := DeletedCode(chain, code)] == chains
  {
    var chain := chains[Position(code, |chains|)];
    FindIsFirst(chain, code, i);
    assert IndexOf(chain, code) == i;
    if i < |chain| { DeletesNode(chains, code, i); }
  }

  lemma EmptyBucket<T>(chains: seq<seq<Node<T>>>, code: int)
    requires chains != [] && chains[Position(code, |chains|)] == []
    ensures Lookup(chains, code) == None
  {
  }

  lemma LookupInBucket<T>(chains: seq<seq<Node<T>>>, code: int)
    requires chains != []
    ensures Lookup(chains, code) == Find(chains[Position(code, |chains|)], code)
  {
  }

  // ---- Iterating ----

  /** All nodes, bucket by bucket. */
  ghost function Flatten<T>(chains: seq<seq<Node<T>>>): seq<Node<T>> {
    if chains == [] then [] else chains[0] + Flatten(chains[1..])
  }

  ghost predicate DistinctCodes<T>(chains: seq<seq<Node<T>>>) {
    forall b, i, c, j ::
      0 <= b < |chains| && 0 <= i < |chains[b]| && 0 <= c < |chains| && 0 <= j < |chains[c]| && (b != c || i != j) ==>
        chains[b][i].code != chains[c][j].code
  }

  lemma {:induction false} FlattenContains<T>(chains: seq<seq<Node<T>>>, x: Node<T>)
    ensures x in Flatten(chains) <==> exists b :: 0 <= b < |chains| && x in chains[b]
  {
    if chains != [] {
      FlattenContains(chains[1..], x);
      if b :| 0 <= b < |chains| && x in chains[b] {
        if b > 0 { assert chains[1..][b - 1] == chains[b]; }
      }
    }
  }

  lemma {:induction false} FlattenDistinct<T>(chains: seq<seq<Node<T>>>)
    requires DistinctCodes(chains)
    ensures UniqueCodes(Flatten(chains))
  {
    if chains != [] {
      var rest := chains[1..];
      assert forall b :: 0 <= b < |rest| ==> rest[b] == chains[b + 1];
      FlattenDistinct(rest);
      forall i, j | 0 <= i < |chains[0]| && 0 <= j < |Flatten(rest)|
        ensures chains[0][i].code != Flatten(rest)[j].code
      {
        FlattenContains(rest, Flatten(rest)[j]);
        var b :| 0 <= b < |rest| && Flatten(rest)[j] in rest[b];
        var k :| 0 <= k < |rest[b]| && rest[b][k] == Flatten(rest)[j];
        assert chains[b + 1][k] == Flatten(rest)[j];
      }
    }
  }

  /** Going through all nodes meets every stored code exactly once, with the contents the map has for it. */
  lemma FlattenExact<T>(chains: seq<seq<Node<T>>>)
    requires chains != [] && WellPlaced(chains)
    ensures UniqueCodes(Flatten(chains))
    ensures forall c :: Lookup(chains, c) == Find(Flatten(chains), c)
  {
    assert DistinctCodes(chains);
    FlattenDistinct(chains);
    forall c ensures Lookup(chains, c) == Find(Flatten(chains), c) {
      var chain := chains[Position(c, |chains|)];
      FindExact(chain, c);
      FindExact(Flatten(chains), c);
      if i: nat :| i < |chain| && chain[i].code == c {
        FlattenContains(chains, chain[i]);
      } else {
        forall k | 0 <= k < |Flatten(chains)| ensures Flatten(chains)[k].code != c {
          FlattenContains(chains, Flatten(chains)[k]);
        }
      }
    }
  }

  lemma {:induction false} SkipEmpty<T>(chains: seq<seq<Node<T>>>, a: nat, b: nat)
    requires a <= b <= |chains| && forall i :: a <= i < b ==> chains[i] == []
    ensures Flatten(chains[a..]) == Flatten(chains[b..])
    decreases b - a
  {
    if a < b {
      assert chains[a..][1..] == chains[a + 1..];
      SkipEmpty(chains, a + 1, b);
    }
  }

  /** On a node of the table, or past the last bucket. */
  ghost predicate Stands<T>(chains: seq<seq<Node<T>>>, n: nat, node: Node?<T>, index: nat) {
    n <= |chains| && (n < |chains| ==> index < |chains[n]| && node == chains[n][index])
  }

  /** The nodes still to be visited, the present one first. */
  ghost function Rest<T>(chains: seq<seq<Node<T>>>, n: nat, index: nat): seq<Node<T>>
    requires n < |chains| ==> index <= |chains[n]|
  {
    if n >= |chains| then [] else chains[n][index..] + Flatten(chains[n + 1..])
  }

  lemma RestAtStart<T>(chains: seq<seq<Node<T>>>, n: nat)
    requires n <= |chains|
    ensures Rest(chains, n, 0) == Flatten(chains[n..])
  {
    if n < |chains| {
      assert chains[n..][1..] == chains[n + 1..];
    }
  }

  lemma RestFirst<T>(chains: seq<seq<Node<T>>>, n: nat, node: Node?<T>, index: nat)
    requires Stands(chains, n, node, index)
    ensures n < |chains| ==> Rest(chains, n, index) != [] && Rest(chains, n, index)[0] == node
    ensures n == |chains| ==> Rest(chains, n, index) == []
  {
  }

  /** The first non-empty bucket from `from` on. */
  method NextBucket<T>(h: Hash<T>, from: nat) returns (n: nat, node: Node?<T>)
    requires h.Valid() && from <= h.node.Length
    ensures Stands(h.chains, n, node, 0) && (n == h.node.Length ==> node == null)
    ensures Rest(h.chains, n, 0) == Flatten(h.chains[from..])
  {
    hide WellPlaced;
    n := from;
    while n < h.node.Length
      invariant from <= n <= h.node.Length
      invariant forall i :: from <= i < n ==> h.chains[i] == []
    {
      assert Linked(h.node[n], h.chains[n]);
      if h.node[n] != null {
        break;
      }
      n := n + 1;
    }
    SkipEmpty(h.chains, from, n);
    RestAtStart(h.chains, n);
    node := null;
    if n < h.node.Length {
      assert Linked(h.node[n], h.chains[n]);
      node := h.node[n];
    }
  }

  /** One step from a node to the one after it. */
  method NextNode<T>(h: Hash<T>, n: nat, node: Node<T>, ghost index: nat)
    returns (n': nat, node': Node?<T>, ghost index': nat)
    requires h.Valid() && n < h.node.Length && Stands(h.chains, n, node, index)
    ensures Stands(h.chains, n', node', index') && (n' == h.node.Length ==> node' == null)
    ensures Rest(h.chains, n', index') == Rest(h.chains, n, index)[1..]
  {
    hide WellPlaced;
    ghost var chain := h.chains[n];
    assert Linked(h.node[n], chain);
    NextOf(h.node[n], chain, index);
    if node.next != null {
      n', node', index' := n, node.next, index + 1;
      assert chain[index..][1..] == chain[index + 1..];
    } else {
      n', node' := NextBucket(h, n + 1);
      index' := 0;
      assert chain[index..] == [node];
    }
  }

  class Iterator<T> {
    var hash: Hash?<T>
    var node: Node?<T>
    var n: nat
    ghost var index: nat

    constructor ()
      ensures hash == null
    {
      hash, node, n := null, null, 0;
    }

    ghost predicate Valid()
      reads this, hash, if hash == null then {} else {hash.node}, if hash == null then {} else Nodes(hash.chains)
    {
      hash != null && hash.Valid() && Stands(hash.chains, n, node, index)
    }

    ghost function Remaining(): seq<Node<T>>
      requires Valid()
      reads this, hash, if hash == null then {} else {hash.node}, if hash == null then {} else Nodes(hash.chains)
    {
      Rest(hash.chains, n, index)
    }

    /** `init_hash_iterator`. */
    method Init(h: Hash?<T>)
      requires h != null ==> h.Valid()
      modifies this
      ensures h != null ==> Valid() && hash == h && Remaining() == Flatten(h.chains)
      ensures h == null ==> unchanged(this)
    {
      hide WellPlaced, Linked, Flatten, Nodes;
      if h == null {
        return;
      }
      var bucket, first := NextBucket(h, 0);
      assert h.chains[0..] == h.chains;
      hash, n, index := h, bucket, 0;
      if bucket < h.node.Length {
        node := first;
      }
    }

    /** `add_hash_iterator`: moves on by exactly one node, and stays where it is at the end. */
    method Add()
      requires Valid()
      modifies this
      ensures Valid() && hash == old(hash)
      ensures Remaining() == if old(Remaining()) == [] then [] else old(Remaining())[1..]
    {
      hide WellPlaced, Linked, Flatten, Nodes;
      if n == hash.node.Length {
        return;
      }
      n, node, index := NextNode(hash, n, node, index);
    }
  }

  /** Iterating over a table from start to end: every node once, and no more. */
  method Visit<T>(h: Hash<T>) returns (visited: seq<Node<T>>)
    requires h.Valid()
    ensures visited == Flatten(h.chains)
  {
    hide WellPlaced, Linked, Flatten, Nodes, Rest;
    var it := new Iterator<T>();
    it.Init(h);
    ghost var left := it.Remaining();
    visited := [];
    while it.n != h.node.Length
      invariant it.Valid() && it.hash == h
      invariant left == it.Remaining() && visited + left == Flatten(h.chains)
      decreases |left|
    {
      RestFirst(h.chains, it.n, it.node, it.index);
      MoveOver(visited, left);
      visited := visited + [it.node];
      it.Add();
      left := left[1..];
    }
    RestFirst(h.chains, it.n, it.node, it.index);
  }

  lemma MoveOver<A>(a: seq<A>, b: seq<A>)
    requires b != []
    ensures (a + [b[0]]) + b[1..] == a + b
  {
  }
}
