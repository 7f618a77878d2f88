/** The allocator, as a ledger of live blocks, and parsed items that own blocks. */
module Memory {
  import opened Json
  import opened Wrappers

  class Heap {
    var live: multiset<nat>
    var next: nat
    var refusals: nat

    ghost predicate Valid()
      reads this
    {
      forall a :: a in live ==> a < next && live[a] == 1
    }

    constructor ()
      ensures Valid() && live == multiset{} && refusals == 0
    {
      live, next, refusals := multiset{}, 0, 0;
    }

    /** `malloc`: a block that was not live before, or a refusal at any time. */
    method Allocate() returns (ok: bool, addr: nat)
      requires Valid()
      modifies this
      ensures Valid() && old(next) <= next
      ensures ok ==> addr !in old(live) && old(next) <= addr < next
      ensures ok ==> live == old(live) + multiset{addr} && refusals == old(refusals)
      ensures !ok ==> live == old(live) && refusals == old(refusals) + 1
    {
      ok, addr := *, next;
      if ok {
        live, next := live + multiset{addr}, next + 1;
      } else {
        refusals := refusals + 1;
      }
    }

    /** `free`: only a live block may be released. */
    method Free(addr: nat)
      requires Valid() && addr in live
      modifies this`live
      ensures Valid() && live == old(live) - multiset{addr}
    {
      live := live - multiset{addr};
    }
  }

  /** A C string in a block of its own. */
  datatype Chunk = Chunk(addr: nat, text: string)

  /** An item node: its block, the key when it is an object member, and what its type field says. */
  datatype Item = Item(addr: nat, key: Option<Chunk>, body: Body)

  datatype Body =
    | InvalidBody
    | NullBody
    | BoolBody(b: bool)
    | NumberBody(r: real)
    | StringBody(chunk: Chunk)
    | ArrayBody(children: seq<Item>)
    | ObjectBody(children: seq<Item>)

  function ChunkBlocks(c: Option<Chunk>): multiset<nat> {
    if c.None? then multiset{} else multiset{c.value.addr}
  }

  function BodyBlocks(b: Body): multiset<nat>
    decreases b, 0
  {
    match b
    case StringBody(chunk) => multiset{chunk.addr}
    case ArrayBody(children) => Blocks(children)
    case ObjectBody(children) => Blocks(children)
    case _ => multiset{}
  }

  function ItemBlocks(i: Item): multiset<nat>
    decreases i, 0
  {
    multiset{i.addr} + ChunkBlocks(i.key) + BodyBlocks(i.body)
  }

  /** Every block a list of items owns: nodes, keys, strings and children. */
  function Blocks(items: seq<Item>): multiset<nat>
    decreases items, 0
  {
    if items == [] then multiset{} else ItemBlocks(items[0]) + Blocks(items[1..])
  }

  lemma {:induction false} BlocksAppend(a: seq<Item>, b: seq<Item>)
    ensures Blocks(a + b) == Blocks(a) + Blocks(b)
  {
    if a == [] {
      assert a + b == b;
    } else {
      assert (a + b)[1..] == a[1..] + b;
      BlocksAppend(a[1..], b);
    }
  }

  lemma BlocksSnoc(a: seq<Item>, i: Item)
    ensures Blocks(a + [i]) == Blocks(a) + ItemBlocks(i)
  {
    BlocksAppend(a, [i]);
  }

  lemma BlocksOne(item: Item)
    ensures Blocks([item]) == ItemBlocks(item)
  {
    assert [item][1..] == [];
  }

  /** Built to the end: array children have no key, object children have one, nothing is left invalid. */
  predicate Complete(b: Body) {
    match b
    case InvalidBody => false
    case ArrayBody(children) => forall i :: 0 <= i < |children| ==> children[i].key.None? && Complete(children[i].body)
    case ObjectBody(children) => forall i :: 0 <= i < |children| ==> children[i].key.Some? && Complete(children[i].body)
    case _ => true
  }

  predicate CompleteElements(items: seq<Item>) {
    Complete(ArrayBody(items))
  }

  predicate CompleteMembers(items: seq<Item>) {
    Complete(ObjectBody(items))
  }

  /** The JSON value a complete item stands for. */
  function ValueOf(b: Body): Json
    requires Complete(b)
    decreases b, 1
  {
    match b
    case NullBody => Null
    case BoolBody(v) => Bool(v)
    case NumberBody(r) => Number(r)
    case StringBody(chunk) => String(chunk.text)
    case ArrayBody(children) => Array(Elements(children))
    case ObjectBody(children) => Object(Members(children))
  }

  function Elements(items: seq<Item>): (vs: seq<Json>)
    requires CompleteElements(items)
    ensures |vs| == |items|
    ensures forall i :: 0 <= i < |items| ==> vs[i] == ValueOf(items[i].body)
    decreases items, 0
  {
    seq(|items|, i requires 0 <= i < |items| => ValueOf(items[i].body))
  }

  function Members(items: seq<Item>): (ms: seq<Member>)
    requires CompleteMembers(items)
    ensures |ms| == |items|
    ensures forall i :: 0 <= i < |items| ==> ms[i] == Member(items[i].key.value.text, ValueOf(items[i].body))
    decreases items, 0
  {
    seq(|items|, i requires 0 <= i < |items| => Member(items[i].key.value.text, ValueOf(items[i].body)))
  }

  /** `cJSON_Delete`: releases every block of a list of items, each exactly once. */
  method Delete(heap: Heap, items: seq<Item>)
    requires heap.Valid() && Blocks(items) <= heap.live
    modifies heap`live
    ensures heap.Valid() && heap.live == old(heap.live) - Blocks(items)
    decreases items, 0
  {
    hide Heap.Valid, ItemBlocks;
    var i := 0;
    while i < |items|
      invariant 0 <= i <= |items| && heap.Valid()
      invariant Blocks(items[i..]) <= heap.live
      invariant heap.live == old(heap.live) - Blocks(items) + Blocks(items[i..])
    {
      assert items[i..][0] == items[i] && items[i..][1..] == items[i + 1..];
      DeleteNode(heap, items[i]);
      i := i + 1;
    }
  }

  /** One turn of the loop: the children or the string, then the key, then the node itself. */
  method DeleteNode(heap: Heap, item: Item)
    requires heap.Valid() && ItemBlocks(item) <= heap.live
    modifies heap`live
    ensures heap.Valid() && heap.live == old(heap.live) - ItemBlocks(item)
    decreases item, 1
  {
    hide Heap.Valid, BodyBlocks, ChunkBlocks;
    Parts(heap.live, BodyBlocks(item.body), ChunkBlocks(item.key), multiset{item.addr});
    DeleteBody(heap, item.body);
    FreeChunk(heap, item.key);
    heap.Free(item.addr);
  }

  lemma Parts(live: multiset<nat>, body: multiset<nat>, key: multiset<nat>, node: multiset<nat>)
    requires node + key + body <= live
    ensures body <= live && key <= live - body && node <= live - body - key
    ensures live - (node + key + body) == live - body - key - node
  {
  }

  method DeleteBody(heap: Heap, body: Body)
    requires heap.Valid() && BodyBlocks(body) <= heap.live
    modifies heap`live
    ensures heap.Valid() && heap.live == old(heap.live) - BodyBlocks(body)
    decreases body, 1
  {
    hide Heap.Valid, Blocks;
    match body {
      case ArrayBody(children) => Delete(heap, children);
      case ObjectBody(children) => Delete(heap, children);
      case StringBody(chunk) => heap.Free(chunk.addr);
      case _ =>
    }
  }

  method FreeChunk(heap: Heap, chunk: Option<Chunk>)
    requires heap.Valid() && ChunkBlocks(chunk) <= heap.live
    modifies heap`live
    ensures heap.Valid() && heap.live == old(heap.live) - ChunkBlocks(chunk)
  {
    if chunk.Some? {
      heap.Free(chunk.value.addr);
    }
  }
}
