/** The child list of an array or object: doubly linked nodes, edited in place. */
module ItemList {

  class Node {
    var next: Node?
    var prev: Node?
    var child: Node?

    constructor ()
      ensures next == null && prev == null && child == null
    {
      next, prev, child := null, null, null;
    }
  }

  /** `items` are the nodes reached from `head`: `next` and `prev` are mutually inverse, the first `prev` and the last
      `next` are NULL, and no node occurs twice. */
  ghost predicate Linked(head: Node?, items: seq<Node>)
    reads items
  {
    && (items == [] ==> head == null)
    && (items != [] ==> head == items[0] && items[0].prev == null && items[|items| - 1].next == null)
    && (forall i, j :: 0 <= i < j < |items| ==> items[i] != items[j])
    && (forall i, j :: 0 <= i < |items| && 0 <= j < |items| && j == i + 1 ==>
                         items[i].next == items[j] && items[j].prev == items[i])
  }

  ghost function At(items: seq<Node>, i: int): Node? {
    if 0 <= i < |items| then items[i] else null
  }

  ghost predicate Detached(n: Node)
    reads n
  {
    n.next == null && n.prev == null
  }

  lemma Neighbours(head: Node?, items: seq<Node>, k: nat)
    requires Linked(head, items) && k < |items|
    ensures items[k].next == At(items, k + 1) && items[k].prev == At(items, k - 1)
  {
    if k > 0 { assert items[k - 1].next == items[k]; }
    if k + 1 < |items| { assert items[k + 1].prev == items[k]; }
  }

  /** A chain has one list of nodes only, so it cannot run into a cycle. */
  lemma {:induction false} LinkedUnique(head: Node?, items: seq<Node>, others: seq<Node>)
    requires Linked(head, items) && Linked(head, others)
    ensures items == others
  {
    var k := 0;
    while k < |items| && k < |others|
      invariant 0 <= k <= |items| && k <= |others| && items[..k] == others[..k]
      invariant At(items, k) == At(others, k)
    {
      k := k + 1;
    }
  }

  /** `get_array_item`. */
  method GetArrayItem(list: Node, index: nat, ghost items: seq<Node>) returns (item: Node?)
    requires Linked(list.child, items)
    ensures item == At(items, index)
  {
    item := list.child;
    var left: nat := index;
    while item != null && left > 0
      invariant left <= index && item == At(items, index - left)
    {
      Neighbours(list.child, items, index - left);
      left := left - 1;
      item := item.next;
    }
  }

  /** `cJSON_AddItemToArray`: appends. */
  method AddItemToArray(list: Node, item: Node, ghost items: seq<Node>)
    requires Linked(list.child, items) && Detached(item) && item !in items
    modifies list`child, item`prev, items`next
    ensures Linked(list.child, items + [item])
  {
    var child := list.child;
    if child == null {
      list.child := item;
    } else {
      ghost var k := 0;
      while child.next != null
        modifies {}
        invariant 0 <= k < |items| && child == items[k]
        decreases |items| - k
      {
        Neighbours(list.child, items, k);
        child := child.next;
        k := k + 1;
      }
      Neighbours(list.child, items, k);
      child.next := item;
      item.prev := child;
    }
  }

  /** `cJSON_InsertItemInArray`: in front of the item at `which`, or at the end when there is none. */
  method InsertItemInArray(list: Node, which: int, newItem: Node, ghost items: seq<Node>)
    requires Linked(list.child, items) && Detached(newItem) && newItem !in items
    modifies list`child, newItem, items
    ensures which < 0 ==> Linked(list.child, items) && Detached(newItem)
    ensures 0 <= which < |items| ==> Linked(list.child, items[..which] + [newItem] + items[which..])
    ensures |items| <= which ==> Linked(list.child, items + [newItem])
  {
    if which < 0 {
      return;
    }
    var afterInserted := GetArrayItem(list, which, items);
    if afterInserted == null {
      AddItemToArray(list, newItem, items);
      return;
    }
    InsertBefore(list, afterInserted, newItem, items, which);
  }

  /** The links it changes when there is an item at that index. */
  method InsertBefore(list: Node, afterInserted: Node, newItem: Node, ghost items: seq<Node>, ghost k: nat)
    requires Linked(list.child, items) && newItem !in items && k < |items| && items[k] == afterInserted
    modifies list`child, newItem, items
    ensures Linked(list.child, items[..k] + [newItem] + items[k..])
  {
    Neighbours(list.child, items, k);
    newItem.next := afterInserted;
    newItem.prev := afterInserted.prev;
    afterInserted.prev := newItem;
    if afterInserted == list.child {
      list.child := newItem;
    } else {
      newItem.prev.next := newItem;
    }
  }

  /** `cJSON_DetachItemViaPointer`. */
  method DetachItemViaPointer(parent: Node, item: Node, ghost items: seq<Node>, ghost k: nat)
    requires Linked(parent.child, items) && k < |items| && items[k] == item
    modifies parent`child, items
    ensures Linked(parent.child, items[..k] + items[k + 1..]) && Detached(item)
  {
    Neighbours(parent.child, items, k);
    if item.prev != null {
      item.prev.next := item.next;
    }
    if item.next != null {
      item.next.prev := item.prev;
    }
    if item == parent.child {
      parent.child := item.next;
    }
    item.prev := null;
    item.next := null;
  }

  /** `cJSON_DetachItemFromArray`. */
  method DetachItemFromArray(list: Node, which: int, ghost items: seq<Node>) returns (item: Node?)
    requires Linked(list.child, items)
    modifies list`child, items
    ensures item == At(items, which)
    ensures item == null ==> Linked(list.child, items)
    ensures item != null ==> Linked(list.child, items[..which] + items[which + 1..]) && Detached(item)
  {
    if which < 0 {
      return null;
    }
    item := GetArrayItem(list, which, items);
    if item != null {
      DetachItemViaPointer(list, item, items, which);
    }
  }

  /** `cJSON_ReplaceItemViaPointer`: the replaced item is handed to `cJSON_Delete`. */
  method ReplaceItemViaPointer(parent: Node, item: Node, replacement: Node, ghost items: seq<Node>, ghost k: nat)
    returns (deleted: Node?)
    requires Linked(parent.child, items) && k < |items| && items[k] == item
    requires replacement == item || replacement !in items
    modifies parent`child, replacement, items
    ensures Linked(parent.child, items[k := replacement])
    ensures deleted == (if replacement == item then null else item)
    ensures deleted != null ==> Detached(deleted)
  {
    if replacement == item {
      return null;
    }
    Neighbours(parent.child, items, k);
    replacement.next := item.next;
    replacement.prev := item.prev;
    if replacement.next != null {
      replacement.next.prev := replacement;
    }
    if replacement.prev != null {
      replacement.prev.next := replacement;
    }
    if parent.child == item {
      parent.child := replacement;
    }
    item.next := null;
    item.prev := null;
    deleted := item;
  }

  // ---- Runs of edits ----

  datatype Edit = Append(n: Node) | Insert(which: int, n: Node) | Detach(which: int) | Replace(which: int, n: Node)

  /** The edit on the sequence of items. */
  ghost function Apply(items: seq<Node>, e: Edit): seq<Node> {
    match e
    case Append(n) => items + [n]
    case Insert(which, n) =>
      if which < 0 then items
      else if which < |items| then items[..which] + [n] + items[which..]
      else items + [n]
    case Detach(which) => if 0 <= which < |items| then items[..which] + items[which + 1..] else items
    case Replace(which, n) => if 0 <= which < |items| then items[which := n] else items
  }

  ghost function ApplyAll(items: seq<Node>, edits: seq<Edit>): seq<Node>
    decreases |edits|
  {
    if edits == [] then items else ApplyAll(Apply(items, edits[0]), edits[1..])
  }

  /** Which nodes are detached after an edit: used ones no longer are, and what is detached becomes one again.  What is
      replaced is deleted, and never used again. */
  ghost function Loose(loose: set<Node>, items: seq<Node>, e: Edit): set<Node> {
    match e
    case Append(n) => loose - {n}
    case Insert(which, n) => if which < 0 then loose else loose - {n}
    case Detach(which) => if 0 <= which < |items| then loose + {items[which]} else loose
    case Replace(which, n) => if 0 <= which < |items| then loose - {n} else loose
  }

  /** Only detached nodes are added. */
  ghost predicate Allowed(items: seq<Node>, loose: set<Node>, edits: seq<Edit>)
    decreases |edits|
  {
    edits == [] ||
    (var e := edits[0];
     && (!e.Detach? ==> e.n in loose)
     && Allowed(Apply(items, e), Loose(loose, items, e), edits[1..]))
  }

  ghost predicate AllDetached(loose: set<Node>, items: seq<Node>)
    reads loose
  {
    forall n :: n in loose ==> n !in items && Detached(n)
  }

  /** Any allowed run of edits leaves a well-linked list that holds exactly what the edits say. */
  method Run(list: Node, edits: seq<Edit>, ghost items: seq<Node>, ghost loose: set<Node>)
    requires Linked(list.child, items) && AllDetached(loose, items) && Allowed(items, loose, edits)
    modifies list`child, items, loose
    ensures Linked(list.child, ApplyAll(items, edits))
    decreases |edits|
  {
    if edits != [] {
      NoNewNodes(items, loose, edits[0]);
      Perform(list, edits[0], items, loose);
      Run(list, edits[1..], Apply(items, edits[0]), Loose(loose, items, edits[0]));
    }
  }

  method Perform(list: Node, e: Edit, ghost items: seq<Node>, ghost loose: set<Node>)
    requires Linked(list.child, items) && AllDetached(loose, items) && (!e.Detach? ==> e.n in loose)
    modifies list`child, items, loose
    ensures Linked(list.child, Apply(items, e))
    ensures AllDetached(Loose(loose, items, e), Apply(items, e))
  {
    hide Linked;
    match e {
      case Append(n) => AddItemToArray(list, n, items);
      case Insert(which, n) => InsertItemInArray(list, which, n, items);
      case Detach(which) => PerformDetach(list, which, items, loose);
      case Replace(which, n) => var deleted := ReplaceItemInArray(list, which, n, items);
    }
  }

  method PerformDetach(list: Node, which: int, ghost items: seq<Node>, ghost loose: set<Node>)
    requires Linked(list.child, items) && AllDetached(loose, items)
    modifies list`child, items
    ensures Linked(list.child, Apply(items, Detach(which)))
    ensures AllDetached(Loose(loose, items, Detach(which)), Apply(items, Detach(which)))
  {
    hide Linked;
    DistinctNodes(list.child, items);
    var detached := DetachItemFromArray(list, which, items);
  }

  lemma NoNewNodes(items: seq<Node>, loose: set<Node>, e: Edit)
    requires !e.Detach? ==> e.n in loose
    ensures forall n :: n in Apply(items, e) || n in Loose(loose, items, e) ==> n in items || n in loose
  {
  }

  lemma DistinctNodes(head: Node?, items: seq<Node>)
    requires Linked(head, items)
    ensures forall i, j :: 0 <= i < j < |items| ==> items[i] != items[j]
  {
  }

  /** `cJSON_ReplaceItemInArray`. */
  method ReplaceItemInArray(list: Node, which: int, newItem: Node, ghost items: seq<Node>) returns (deleted: Node?)
    requires Linked(list.child, items) && newItem !in items
    modifies list`child, newItem, items
    ensures deleted == At(items, which)
    ensures deleted == null ==> Linked(list.child, items) && newItem.next == old(newItem.next)
                                && newItem.prev == old(newItem.prev)
    ensures deleted != null ==> Linked(list.child, items[which := newItem]) && Detached(deleted)
  {
    if which < 0 {
      return null;
    }
    var item := GetArrayItem(list, which, items);
    if item == null {
      return null;
    }
    deleted := ReplaceItemViaPointer(list, item, newItem, items, which);
  }
}
