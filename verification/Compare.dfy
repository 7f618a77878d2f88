/** `cJSON_Compare`: structural comparison, with keys looked up case-sensitively or not. */
module Compare {
  import opened Json
  import opened Wrappers

  function ToLower(c: char): char {
    if 'A' <= c <= 'Z' then (c as int + 32) as char else c
  }

  /** The form in which two keys are compared. */
  function Fold(key: string, caseSensitive: bool): (f: string)
    ensures |f| == |key|
  {
    if caseSensitive then key else seq(|key|, i requires 0 <= i < |key| => ToLower(key[i]))
  }

  /** `get_object_item`: the first member with that key. */
  function Find(ms: seq<Member>, key: string, cs: bool): (v: Option<Json>)
    ensures v.Some? ==> exists i :: 0 <= i < |ms| && ms[i].value == v.value && Fold(ms[i].key, cs) == Fold(key, cs)
    ensures v.None? ==> forall i :: 0 <= i < |ms| ==> Fold(ms[i].key, cs) != Fold(key, cs)
  {
    if ms == [] then None
    else if Fold(key, cs) == Fold(ms[0].key, cs) then
      Some(ms[0].value)
    else
      Find(ms[1..], key, cs)
  }

  function Size(v: Json): nat
    decreases v, 1
  {
    match v
    case Array(items) => 1 + SizeItems(items)
    case Object(ms) => 1 + SizeMembers(ms)
    case _ => 1
  }

  function SizeItems(items: seq<Json>): nat
    decreases items, 0
  {
    if items == [] then 0 else Size(items[0]) + SizeItems(items[1..])
  }

  function SizeMembers(ms: seq<Member>): nat
    decreases ms, 0
  {
    if ms == [] then 0 else Size(ms[0].value) + SizeMembers(ms[1..])
  }

  lemma {:induction false} ItemSmaller(items: seq<Json>, i: nat)
    requires i < |items|
    ensures Size(items[i]) <= SizeItems(items)
  {
    if i > 0 {
      ItemSmaller(items[1..], i - 1);
    }
  }

  lemma {:induction false} MemberSmaller(ms: seq<Member>, i: nat)
    requires i < |ms|
    ensures Size(ms[i].value) <= SizeMembers(ms)
  {
    if i > 0 {
      MemberSmaller(ms[1..], i - 1);
    }
  }

  lemma FoundSmaller(ms: seq<Member>, key: string, cs: bool)
    ensures Find(ms, key, cs).Some? ==> Size(Find(ms, key, cs).value) <= SizeMembers(ms)
  {
    if Find(ms, key, cs).Some? {
      var i :| 0 <= i < |ms| && ms[i].value == Find(ms, key, cs).value;
      MemberSmaller(ms, i);
    }
  }

  /** What the comparison computes on two distinct trees. */
  predicate Equal(a: Json, b: Json, cs: bool)
    decreases Size(a) + Size(b), 2
  {
    match (a, b)
    case (Null, Null) => true
    case (Bool(x), Bool(y)) => x == y
    case (Number(x), Number(y)) => x == y
    case (String(x), String(y)) => x == y
    case (Array(xs), Array(ys)) => EqualItems(xs, ys, cs)
    case (Object(xs), Object(ys)) => EachFound(xs, ys, cs) && EachFound(ys, xs, cs)
    case _ => false
  }

  predicate EqualItems(xs: seq<Json>, ys: seq<Json>, cs: bool)
    decreases SizeItems(xs) + SizeItems(ys), 3, |xs|
  {
    if xs == [] || ys == [] then xs == [] && ys == []
    else Equal(xs[0], ys[0], cs) && EqualItems(xs[1..], ys[1..], cs)
  }

  /** Every member of `xs` is found in `ys` and equal to what is found. */
  predicate EachFound(xs: seq<Member>, ys: seq<Member>, cs: bool)
    decreases SizeMembers(xs) + SizeMembers(ys), 3, |xs|
  {
    if xs == [] then true
    else
      var found := Find(ys, xs[0].key, cs);
      FoundSmaller(ys, xs[0].key, cs);
      found.Some? && Equal(xs[0].value, found.value, cs) && EachFound(xs[1..], ys, cs)
  }

  // ---- An independent account: objects as maps ----

  datatype Canon =
    | CNull
    | CBool(b: bool)
    | CNumber(r: real)
    | CString(s: string)
    | CArray(items: seq<Canon>)
    | CObject(members: map<string, Canon>)

  /** The value with every object turned into the map from its keys to their values. */
  function Canonical(v: Json, cs: bool): Canon
    decreases v, 1
  {
    match v
    case Null => CNull
    case Bool(b) => CBool(b)
    case Number(r) => CNumber(r)
    case String(s) => CString(s)
    case Array(items) => CArray(CanonicalItems(items, cs))
    case Object(ms) => CObject(CanonicalMembers(ms, cs))
  }

  function CanonicalItems(items: seq<Json>, cs: bool): (r: seq<Canon>)
    ensures |r| == |items|
    decreases items, 0
  {
    if items == [] then [] else [Canonical(items[0], cs)] + CanonicalItems(items[1..], cs)
  }

  function CanonicalMembers(ms: seq<Member>, cs: bool): map<string, Canon>
    decreases ms, 0
  {
    if ms == [] then map[]
    else CanonicalMembers(ms[1..], cs)[Fold(ms[0].key, cs) := Canonical(ms[0].value, cs)]
  }

  /** No object has two members with the same key. */
  predicate UniqueKeys(v: Json, cs: bool) {
    match v
    case Array(items) => forall i :: 0 <= i < |items| ==> UniqueKeys(items[i], cs)
    case Object(ms) =>
      && DistinctKeys(ms, cs)
      && forall i :: 0 <= i < |ms| ==> UniqueKeys(ms[i].value, cs)
    case _ => true
  }

  predicate DistinctKeys(ms: seq<Member>, cs: bool) {
    forall i, j :: 0 <= i < j < |ms| ==> Fold(ms[i].key, cs) != Fold(ms[j].key, cs)
  }

  /** Looking a key up in the member list is looking it up in the map. */
  lemma {:induction false} FindIsMapLookup(ms: seq<Member>, key: string, cs: bool)
    ensures Find(ms, key, cs).Some? <==> Fold(key, cs) in CanonicalMembers(ms, cs)
    ensures Find(ms, key, cs).Some? ==>
              CanonicalMembers(ms, cs)[Fold(key, cs)] == Canonical(Find(ms, key, cs).value, cs)
  {
    hide Fold, Canonical;
    if ms != [] {
      FindIsMapLookup(ms[1..], key, cs);
    }
  }

  lemma {:induction false} FindUnique(ms: seq<Member>, key: string, cs: bool)
    requires UniqueKeys(Object(ms), cs)
    ensures Find(ms, key, cs).Some? ==> UniqueKeys(Find(ms, key, cs).value, cs)
  {
  }

  ghost predicate Contained(m: map<string, Canon>, n: map<string, Canon>) {
    forall k :: k in m ==> k in n && n[k] == m[k]
  }

  lemma NothingContained(n: map<string, Canon>)
    ensures Contained(map[], n)
  {
  }

  lemma OneMoreContained(m: map<string, Canon>, k: string, v: Canon, n: map<string, Canon>)
    requires k !in m
    ensures Contained(m[k := v], n) <==> k in n && n[k] == v && Contained(m, n)
  {
    var more := m[k := v];
    if Contained(more, n) {
      assert forall j :: j in m ==> j in more && more[j] == m[j];
    }
  }

  lemma SameMaps(m: map<string, Canon>, n: map<string, Canon>)
    ensures Contained(m, n) && Contained(n, m) <==> m == n
  {
    if Contained(m, n) && Contained(n, m) {
      assert m.Keys == n.Keys;
    }
  }

  /** Comparison holds exactly when arrays agree in order and objects agree as maps from keys to values. */
  lemma {:induction false} EqualIffCanonical(a: Json, b: Json, cs: bool)
    requires UniqueKeys(a, cs) && UniqueKeys(b, cs)
    ensures Equal(a, b, cs) <==> Canonical(a, cs) == Canonical(b, cs)
    decreases Size(a) + Size(b), 2
  {
    hide Contained, EachFound, EqualItems, CanonicalItems, CanonicalMembers, DistinctKeys;
    match (a, b)
    case (Array(xs), Array(ys)) =>
      ItemsIffCanonical(xs, ys, cs);
    case (Object(xs), Object(ys)) =>
      MembersIffCanonical(xs, ys, cs);
      MembersIffCanonical(ys, xs, cs);
      SameMaps(CanonicalMembers(xs, cs), CanonicalMembers(ys, cs));
    case _ =>
  }

  lemma {:induction false} ItemsIffCanonical(xs: seq<Json>, ys: seq<Json>, cs: bool)
    requires UniqueKeys(Array(xs), cs) && UniqueKeys(Array(ys), cs)
    ensures EqualItems(xs, ys, cs) <==> CanonicalItems(xs, cs) == CanonicalItems(ys, cs)
    decreases SizeItems(xs) + SizeItems(ys), 3, |xs|
  {
    hide Equal, Canonical;
    if xs != [] && ys != [] {
      EqualIffCanonical(xs[0], ys[0], cs);
      ItemsIffCanonical(xs[1..], ys[1..], cs);
      var p, q := CanonicalItems(xs, cs), CanonicalItems(ys, cs);
      assert p[0] == Canonical(xs[0], cs) && p[1..] == CanonicalItems(xs[1..], cs);
      assert q[0] == Canonical(ys[0], cs) && q[1..] == CanonicalItems(ys[1..], cs);
      assert p == [p[0]] + p[1..] && q == [q[0]] + q[1..];
    }
  }

  /** One of the two loops over the members: the map of `xs` is contained in the map of `ys`. */
  lemma {:induction false} MembersIffCanonical(xs: seq<Member>, ys: seq<Member>, cs: bool)
    requires UniqueKeys(Object(xs), cs) && UniqueKeys(Object(ys), cs)
    ensures EachFound(xs, ys, cs) <==>
            Contained(CanonicalMembers(xs, cs), CanonicalMembers(ys, cs))
    decreases SizeMembers(xs) + SizeMembers(ys), 3, |xs|
  {
    hide Equal, Canonical, Fold, Contained;
    if xs == [] {
      assert Contained(map[], CanonicalMembers(ys, cs)) by { NothingContained(CanonicalMembers(ys, cs)); }
    } else {
      var key := xs[0].key;
      var rest := CanonicalMembers(xs[1..], cs);
      FoundSmaller(ys, key, cs);
      FindIsMapLookup(ys, key, cs);
      FindUnique(ys, key, cs);
      MembersIffCanonical(xs[1..], ys, cs);
      FindIsMapLookup(xs[1..], key, cs);
      assert Fold(key, cs) !in rest;
      OneMoreContained(rest, Fold(key, cs), Canonical(xs[0].value, cs), CanonicalMembers(ys, cs));
      if Find(ys, key, cs).Some? {
        EqualIffCanonical(xs[0].value, Find(ys, key, cs).value, cs);
      }
    }
  }

  /** On trees with unique keys the comparison is reflexive, symmetric and transitive. */
  lemma EqualIsEquivalence(a: Json, b: Json, c: Json, cs: bool)
    requires UniqueKeys(a, cs) && UniqueKeys(b, cs) && UniqueKeys(c, cs)
    ensures Equal(a, a, cs)
    ensures Equal(a, b, cs) <==> Equal(b, a, cs)
    ensures Equal(a, b, cs) && Equal(b, c, cs) ==> Equal(a, c, cs)
  {
    hide *;
    EqualIffCanonical(a, a, cs);
    EqualIffCanonical(a, b, cs);
    EqualIffCanonical(b, a, cs);
    EqualIffCanonical(b, c, cs);
    EqualIffCanonical(a, c, cs);
  }

  // ---- The loops ----

  lemma FindStep(ms: seq<Member>, name: string, cs: bool, i: nat)
    requires i <= |ms|
    ensures i == |ms| ==> Find(ms[i..], name, cs) == None
    ensures i < |ms| ==> Find(ms[i..], name, cs) ==
                           if Fold(name, cs) == Fold(ms[i].key, cs) then Some(ms[i].value) else Find(ms[i + 1..], name, cs)
  {
    hide Fold;
    if i < |ms| { assert ms[i..][1..] == ms[i + 1..]; }
  }

  /** `get_object_item`: walks the members to the first one with that key. */
  method GetObjectItem(ms: seq<Member>, name: string, cs: bool) returns (item: Option<Json>)
    ensures item == Find(ms, name, cs)
  {
    hide *;
    var i := 0;
    assert ms[0..] == ms;
    FindStep(ms, name, cs, 0);
    while i < |ms| && Fold(name, cs) != Fold(ms[i].key, cs)
      invariant 0 <= i <= |ms| && Find(ms, name, cs) == Find(ms[i..], name, cs)
    {
      FindStep(ms, name, cs, i);
      i := i + 1;
    }
    FindStep(ms, name, cs, i);
    item := if i < |ms| then Some(ms[i].value) else None;
  }

  /** When the comparison of `a` and `b` does not depend on which nodes they share. */
  ghost predicate Exact(a: Json, b: Json, cs: bool, shared: bool) {
    shared ==> UniqueKeys(a, cs) && UniqueKeys(b, cs)
  }

  /** `cJSON_Compare`.  With `shared`, any two equal subtrees may be one node, which the code takes as equal at once:
      on trees with unique keys this shortcut makes no difference. */
  method CompareValues(a: Json, b: Json, cs: bool, shared: bool) returns (equal: bool)
    ensures Exact(a, b, cs, shared) ==> equal == Equal(a, b, cs)
    decreases Size(a) + Size(b), 2
  {
    hide EqualItems, EachFound, UniqueKeys;
    var identical := *;
    if shared && identical && a == b {
      if UniqueKeys(a, cs) {
        EqualIsEquivalence(a, a, a, cs);
      }
      return true;
    }
    match (a, b) {
      case (Null, Null) => equal := true;
      case (Bool(x), Bool(y)) => equal := x == y;
      case (Number(x), Number(y)) => equal := x == y;
      case (String(x), String(y)) => equal := x == y;
      case (Array(xs), Array(ys)) =>
        equal := CompareItems(xs, ys, cs, shared);
      case (Object(xs), Object(ys)) =>
        equal := CompareMembers(xs, ys, cs, shared);
        if equal {
          equal := CompareMembers(ys, xs, cs, shared);
        }
      case _ => equal := false;
    }
  }

  method CompareItems(xs: seq<Json>, ys: seq<Json>, cs: bool, shared: bool) returns (equal: bool)
    ensures Exact(Array(xs), Array(ys), cs, shared) ==> equal == EqualItems(xs, ys, cs)
    decreases SizeItems(xs) + SizeItems(ys), 3
  {
    hide Equal;
    var i := 0;
    while i < |xs| && i < |ys|
      invariant 0 <= i <= |xs| && i <= |ys|
      invariant Exact(Array(xs), Array(ys), cs, shared) ==> EqualItems(xs, ys, cs) == EqualItems(xs[i..], ys[i..], cs)
    {
      ItemSmaller(xs, i);
      ItemSmaller(ys, i);
      var same := CompareValues(xs[i], ys[i], cs, shared);
      assert xs[i..][1..] == xs[i + 1..] && ys[i..][1..] == ys[i + 1..];
      if !same {
        return false;
      }
      i := i + 1;
    }
    equal := i == |xs| && i == |ys|;
  }

  lemma EachFoundStep(xs: seq<Member>, ys: seq<Member>, cs: bool, i: nat)
    requires i < |xs|
    ensures var found := Find(ys, xs[i].key, cs);
            EachFound(xs[i..], ys, cs) ==
              (found.Some? && Equal(xs[i].value, found.value, cs) && EachFound(xs[i + 1..], ys, cs))
  {
    hide Equal, Find;
    assert xs[i..][0] == xs[i] && xs[i..][1..] == xs[i + 1..];
  }

  /** Sharing does not matter for what is found either. */
  lemma ExactFound(xs: seq<Member>, ys: seq<Member>, cs: bool, shared: bool, i: nat)
    requires i < |xs| && Exact(Object(xs), Object(ys), cs, shared)
    ensures Find(ys, xs[i].key, cs).Some? ==> Exact(xs[i].value, Find(ys, xs[i].key, cs).value, cs, shared)
  {
    if shared {
      FindUnique(ys, xs[i].key, cs);
    }
  }

  /** One of the two loops over the members of objects. */
  method CompareMembers(xs: seq<Member>, ys: seq<Member>, cs: bool, shared: bool) returns (equal: bool)
    ensures Exact(Object(xs), Object(ys), cs, shared) ==> equal == EachFound(xs, ys, cs)
    decreases SizeMembers(xs) + SizeMembers(ys), 3
  {
    hide *;
    var i := 0;
    assert xs[0..] == xs;
    while i < |xs|
      invariant 0 <= i <= |xs|
      invariant Exact(Object(xs), Object(ys), cs, shared) ==> EachFound(xs, ys, cs) == EachFound(xs[i..], ys, cs)
    {
      EachFoundStep(xs, ys, cs, i);
      var found := GetObjectItem(ys, xs[i].key, cs);
      if found.None? {
        return false;
      }
      MemberSmaller(xs, i);
      FoundSmaller(ys, xs[i].key, cs);
      if Exact(Object(xs), Object(ys), cs, shared) {
        ExactFound(xs, ys, cs, shared, i);
      }
      var same := CompareValues(xs[i].value, found.value, cs, shared);
      if !same {
        return false;
      }
      i := i + 1;
    }
    assert xs[i..] == [];
    NoMembers(ys, cs);
    equal := true;
  }

  lemma NoMembers(ys: seq<Member>, cs: bool)
    ensures EachFound([], ys, cs)
  {
  }
}
