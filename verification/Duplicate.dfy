/** `cJSON_Duplicate`: a copy that shares no block with the original. */
module Duplicate {
  import opened Memory
  import C = Compare
  import opened Wrappers

  /** The item with its block addresses forgotten: what a copy must have in common with the original. */
  function Erase(item: Item): Item
    decreases item, 1
  {
    Item(0, EraseKey(item.key), EraseBody(item.body))
  }

  function EraseKey(key: Option<Chunk>): Option<Chunk> {
    if key.None? then None else Some(Chunk(0, key.value.text))
  }

  function EraseBody(body: Body): Body
    decreases body, 2
  {
    match body
    case StringBody(chunk) => StringBody(Chunk(0, chunk.text))
    case ArrayBody(children) => ArrayBody(EraseAll(children))
    case ObjectBody(children) => ObjectBody(EraseAll(children))
    case _ => body
  }

  function EraseAll(items: seq<Item>): (r: seq<Item>)
    ensures |r| == |items|
    decreases items, 2
  {
    if items == [] then [] else [Erase(items[0])] + EraseAll(items[1..])
  }

  lemma {:induction false} EraseSnoc(items: seq<Item>, i: nat)
    requires i < |items|
    ensures EraseAll(items[..i + 1]) == EraseAll(items[..i]) + [Erase(items[i])]
  {
    hide Erase;
    if i == 0 {
      assert items[..1] == [items[0]];
    } else {
      EraseSnoc(items[1..], i - 1);
      assert items[..i + 1][1..] == items[1..][..i];
      assert items[..i][1..] == items[1..][..i - 1];
    }
  }

  /** The same content, said node by node: keys with the same text or none, and bodies of the same kind with the same
      content, children in the same order. */
  ghost predicate SameContent(a: Item, b: Item)
    decreases a, 1
  {
    && (if a.key.None? then b.key.None? else b.key.Some? && a.key.value.text == b.key.value.text)
    && match (a.body, b.body)
       case (StringBody(x), StringBody(y)) => x.text == y.text
       case (ArrayBody(xs), ArrayBody(ys)) => SameContents(xs, ys)
       case (ObjectBody(xs), ObjectBody(ys)) => SameContents(xs, ys)
       case (StringBody(_), _) => false
       case (ArrayBody(_), _) => false
       case (ObjectBody(_), _) => false
       case (x, y) => x == y
  }

  ghost predicate SameContents(xs: seq<Item>, ys: seq<Item>)
    decreases xs, 0
  {
    |xs| == |ys| && forall i :: 0 <= i < |xs| ==> SameContent(xs[i], ys[i])
  }

  lemma {:induction false} EraseExact(a: Item, b: Item)
    ensures Erase(a) == Erase(b) <==> SameContent(a, b)
    decreases a, 1
  {
    hide EraseAll, SameContents;
    match (a.body, b.body) {
      case (ArrayBody(xs), ArrayBody(ys)) => EraseAllExact(xs, ys);
      case (ObjectBody(xs), ObjectBody(ys)) => EraseAllExact(xs, ys);
      case _ =>
    }
  }

  lemma {:induction false} EraseAllAt(xs: seq<Item>, i: nat)
    requires i < |xs|
    ensures EraseAll(xs)[i] == Erase(xs[i])
  {
    hide Erase;
    if i > 0 { EraseAllAt(xs[1..], i - 1); }
  }

  lemma {:induction false} EraseAllExact(xs: seq<Item>, ys: seq<Item>)
    ensures EraseAll(xs) == EraseAll(ys) <==> SameContents(xs, ys)
    decreases xs, 0
  {
    hide Erase, EraseAll, SameContent;
    forall i | 0 <= i < |xs| && i < |ys|
      ensures EraseAll(xs)[i] == EraseAll(ys)[i] <==> SameContent(xs[i], ys[i])
    {
      EraseAllAt(xs, i);
      EraseAllAt(ys, i);
      EraseExact(xs[i], ys[i]);
    }
  }

  /** What a copy that does not recurse has in common with the original: everything but the children. */
  function Shallow(item: Item): Item {
    item.(body := ShallowBody(item.body))
  }

  function ShallowBody(body: Body): Body {
    match body
    case ArrayBody(_) => ArrayBody([])
    case ObjectBody(_) => ObjectBody([])
    case _ => body
  }

  /** `cJSON_strdup`. */
  method DuplicateChunk(heap: Heap, chunk: Chunk) returns (copy: Option<Chunk>)
    requires heap.Valid()
    modifies heap
    ensures heap.Valid() && heap.live == old(heap.live) + ChunkBlocks(copy)
    ensures copy.Some? ==> copy.value.text == chunk.text && heap.refusals == old(heap.refusals)
    ensures copy.None? ==> heap.refusals > old(heap.refusals)
  {
    var granted, addr := heap.Allocate();
    copy := if granted then Some(Chunk(addr, chunk.text)) else None;
  }

  /** The string of the node, or its type alone. */
  method DuplicateText(heap: Heap, body: Body) returns (ok: bool, copy: Body)
    requires heap.Valid()
    modifies heap
    ensures heap.Valid() && heap.live == old(heap.live) + BodyBlocks(copy)
    ensures ok ==> EraseBody(copy) == EraseBody(ShallowBody(body)) && heap.refusals == old(heap.refusals)
    ensures !ok ==> heap.refusals > old(heap.refusals)
  {
    hide Heap.Valid, BodyBlocks, EraseAll;
    LeafBlocks(InvalidBody);
    LeafBlocks(ShallowBody(body));
    ok, copy := true, ShallowBody(body);
    if body.StringBody? {
      var text := DuplicateChunk(heap, body.chunk);
      ok, copy := text.Some?, if text.Some? then StringBody(text.value) else InvalidBody;
      LeafBlocks(copy);
    }
  }

  /** The node itself, with its text and key; what exists of it is handed back even when an allocation fails. */
  method DuplicateNode(heap: Heap, item: Item) returns (ok: bool, copy: seq<Item>)
    requires heap.Valid()
    modifies heap
    ensures heap.Valid() && heap.live == old(heap.live) + Blocks(copy)
    ensures ok ==> |copy| == 1 && Erase(copy[0]) == Erase(Shallow(item)) && heap.refusals == old(heap.refusals)
    ensures !ok ==> heap.refusals > old(heap.refusals)
  {
    hide Heap.Valid, BodyBlocks, Blocks, ChunkBlocks, EraseBody;
    ok, copy := false, [];
    NoChildren();
    var granted, addr := heap.Allocate();
    if !granted {
      return;
    }
    var finished, body := DuplicateText(heap, item.body);
    var key: Option<Chunk> := None;
    NoKey();
    if finished && item.key.Some? {
      key := DuplicateChunk(heap, item.key.value);
      finished := key.Some?;
    }
    copy := [Item(addr, key, body)];
    BlocksOne(copy[0]);
    ok := finished;
  }

  /** The copy equals the original up to addresses, and all its blocks are new; a copy that cannot be finished is
      released again. */
  method Duplicate(heap: Heap, item: Item, recurse: bool) returns (copy: Option<Item>)
    requires heap.Valid()
    modifies heap
    ensures heap.Valid()
    ensures copy.Some? ==> Erase(copy.value) == Erase(if recurse then item else Shallow(item))
                           && heap.live == old(heap.live) + ItemBlocks(copy.value)
                           && heap.refusals == old(heap.refusals)
    ensures copy.None? ==> heap.live == old(heap.live) && heap.refusals > old(heap.refusals)
    decreases item, 1
  {
    hide Heap.Valid, Blocks, ItemBlocks, EraseAll, EraseKey;
    var ok, newItem := DuplicateNode(heap, item);
    if !ok {
      Delete(heap, newItem);
      return None;
    }
    BlocksOne(newItem[0]);
    assert newItem == [newItem[0]];
    copy := Some(newItem[0]);
    if !recurse || !(item.body.ArrayBody? || item.body.ObjectBody?) {
      return;
    }
    var granted, children := DuplicateChildren(heap, item.body.children);
    NoChildren();
    WithChildren(newItem[0], children);
    var finished := newItem[0].(body := if item.body.ArrayBody? then ArrayBody(children) else ObjectBody(children));
    copy := Some(finished);
    if !granted {
      BlocksOne(finished);
      Delete(heap, [finished]);
      copy := None;
    }
  }

  lemma NoKey()
    ensures ChunkBlocks(None) == multiset{}
  {
  }

  /** Hanging children below a childless node adds just their blocks. */
  lemma {:induction false} WithChildren(item: Item, children: seq<Item>)
    requires item.body == ArrayBody([]) || item.body == ObjectBody([])
    ensures ItemBlocks(item.(body := ArrayBody(children))) == ItemBlocks(item) + Blocks(children)
    ensures ItemBlocks(item.(body := ObjectBody(children))) == ItemBlocks(item) + Blocks(children)
  {
    NoChildren();
    LeafBlocks(item.body);
    ItemParts(item);
    ItemParts(item.(body := ArrayBody(children)));
    ItemParts(item.(body := ObjectBody(children)));
    hide ItemBlocks, Blocks, ChunkBlocks;
  }

  lemma ItemParts(item: Item)
    ensures ItemBlocks(item) == multiset{item.addr} + ChunkBlocks(item.key) + BodyBlocks(item.body)
  {
  }

  /** The loop over the children; what has been copied so far is handed back even when a copy fails. */
  method DuplicateChildren(heap: Heap, items: seq<Item>) returns (ok: bool, copies: seq<Item>)
    requires heap.Valid()
    modifies heap
    ensures heap.Valid() && heap.live == old(heap.live) + Blocks(copies)
    ensures ok ==> EraseAll(copies) == EraseAll(items) && heap.refusals == old(heap.refusals)
    ensures !ok ==> heap.refusals > old(heap.refusals)
    decreases items, 0
  {
    hide Heap.Valid, Blocks, ItemBlocks, Erase, EraseAll;
    ok, copies := false, [];
    NoChildren();
    assert items[..0] == [];
    var i := 0;
    while i < |items|
      invariant 0 <= i <= |items| && |copies| == i && heap.Valid()
      invariant heap.live == old(heap.live) + Blocks(copies) && heap.refusals == old(heap.refusals)
      invariant EraseAll(copies) == EraseAll(items[..i])
    {
      var child := Duplicate(heap, items[i], true);
      if child.None? {
        return;
      }
      BlocksSnoc(copies, child.value);
      EraseSnoc(items, i);
      EraseSnoc(copies + [child.value], i);
      assert (copies + [child.value])[..i + 1] == copies + [child.value] && (copies + [child.value])[..i] == copies;
      copies := copies + [child.value];
      i := i + 1;
    }
    assert items[..i] == items;
    ok := true;
  }

  lemma NoChildren()
    ensures Blocks([]) == multiset{} && EraseAll([]) == []
  {
  }

  lemma LeafBlocks(body: Body)
    requires (body.ArrayBody? || body.ObjectBody?) ==> body.children == []
    ensures BodyBlocks(body) == if body.StringBody? then multiset{body.chunk.addr} else multiset{}
    ensures EraseAll([]) == []
  {
  }

  /** Blocks that were added to a valid ledger were not live before: a copy shares no block with anything older. */
  lemma NoSharing(heap: Heap, before: multiset<nat>, copy: Item, original: Item)
    requires heap.Valid() && heap.live == before + ItemBlocks(copy) && ItemBlocks(original) <= before
    ensures ItemBlocks(copy) !! ItemBlocks(original)
  {
    forall a | a in ItemBlocks(copy)
      ensures a !in ItemBlocks(original)
    {
      assert heap.live[a] == before[a] + ItemBlocks(copy)[a];
    }
  }

  /** Equal up to addresses means the same value, and the same completeness. */
  lemma {:induction false} EraseKeepsValue(a: Body, b: Body)
    requires EraseBody(a) == EraseBody(b)
    ensures Complete(a) <==> Complete(b)
    ensures Complete(a) ==> ValueOf(a) == ValueOf(b)
    decreases a, 1
  {
    match a
    case ArrayBody(xs) =>
      EraseAllKeepsValues(xs, b.children);
      if Complete(a) {
        assert Elements(xs) == Elements(b.children);
      }
    case ObjectBody(xs) =>
      EraseAllKeepsValues(xs, b.children);
      if Complete(a) {
        assert Members(xs) == Members(b.children);
      }
    case _ =>
  }

  lemma {:induction false} EraseItemKeepsValue(x: Item, y: Item)
    requires Erase(x) == Erase(y)
    ensures Complete(x.body) <==> Complete(y.body)
    ensures Complete(x.body) ==> ValueOf(x.body) == ValueOf(y.body)
    decreases x, 0
  {
    EraseKeepsValue(x.body, y.body);
  }

  lemma {:induction false} EraseAllKeepsValues(xs: seq<Item>, ys: seq<Item>)
    requires EraseAll(xs) == EraseAll(ys)
    ensures |xs| == |ys|
    ensures forall i :: 0 <= i < |xs| ==>
                          && (xs[i].key.Some? <==> ys[i].key.Some?)
                          && (xs[i].key.Some? ==> xs[i].key.value.text == ys[i].key.value.text)
                          && (Complete(xs[i].body) <==> Complete(ys[i].body))
                          && (Complete(xs[i].body) ==> ValueOf(xs[i].body) == ValueOf(ys[i].body))
    decreases xs, 0
  {
    hide Complete, ValueOf;
    assert |xs| == |EraseAll(xs)| == |EraseAll(ys)| == |ys|;
    if xs != [] {
      assert Erase(xs[0]) == EraseAll(xs)[0] == Erase(ys[0]);
      assert EraseAll(xs[1..]) == EraseAll(xs)[1..] == EraseAll(ys[1..]);
      EraseItemKeepsValue(xs[0], ys[0]);
      EraseAllKeepsValues(xs[1..], ys[1..]);
      forall i | 0 < i < |xs|
        ensures && (xs[i].key.Some? <==> ys[i].key.Some?)
                && (xs[i].key.Some? ==> xs[i].key.value.text == ys[i].key.value.text)
                && (Complete(xs[i].body) <==> Complete(ys[i].body))
                && (Complete(xs[i].body) ==> ValueOf(xs[i].body) == ValueOf(ys[i].body))
      {
        assert xs[i] == xs[1..][i - 1] && ys[i] == ys[1..][i - 1];
      }
    }
  }

  /** A recursive copy of a complete item stands for the same value, and compares equal to the original when keys are
      unique. */
  lemma CopyComparesEqual(original: Item, copy: Item, cs: bool)
    requires Erase(copy) == Erase(original) && Complete(original.body)
    ensures Complete(copy.body) && ValueOf(copy.body) == ValueOf(original.body)
    ensures C.UniqueKeys(ValueOf(original.body), cs) ==> C.Equal(ValueOf(original.body), ValueOf(copy.body), cs)
  {
    EraseKeepsValue(original.body, copy.body);
    if C.UniqueKeys(ValueOf(original.body), cs) {
      C.EqualIsEquivalence(ValueOf(original.body), ValueOf(original.body), ValueOf(original.body), cs);
    }
  }
}
