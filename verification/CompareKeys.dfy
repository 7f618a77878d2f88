/** When two keys are the same, said of their characters, and what that makes of lookups and comparisons. */
module CompareKeys {
  import opened Compare
  import opened Json
  import opened Wrappers

  const LOWER: string := "abcdefghijklmnopqrstuvwxyz"
  const UPPER: string := "ABCDEFGHIJKLMNOPQRSTUVWXYZ"

  /** The same character, or the two cases of one ASCII letter. */
  predicate SameLetter(a: char, b: char) {
    a == b || exists k :: 0 <= k < 26 && ((a == LOWER[k] && b == UPPER[k]) || (a == UPPER[k] && b == LOWER[k]))
  }

  predicate SameKey(j: string, k: string, caseSensitive: bool) {
    if caseSensitive then j == k else |j| == |k| && forall i :: 0 <= i < |j| ==> SameLetter(j[i], k[i])
  }

  /** The `i`-th member is the first with that key. */
  predicate FirstAt(ms: seq<Member>, key: string, cs: bool, i: nat) {
    i < |ms| && SameKey(ms[i].key, key, cs) && forall j :: 0 <= j < i ==> !SameKey(ms[j].key, key, cs)
  }

  lemma LowerLetter(k: nat)
    requires k < 26
    ensures LOWER[k] as int == 97 + k
  {
  }

  lemma UpperLetter(k: nat)
    requires k < 26
    ensures UPPER[k] as int == 65 + k
  {
  }

  /** Two cases of one letter, said of character codes. */
  lemma CasesExact(a: char, b: char)
    ensures (exists k :: 0 <= k < 26 && a == UPPER[k] && b == LOWER[k]) <==> 'A' <= a <= 'Z' && b as int == a as int + 32
  {
    if k :| 0 <= k < 26 && a == UPPER[k] && b == LOWER[k] {
      LowerLetter(k);
      UpperLetter(k);
    }
    if 'A' <= a <= 'Z' && b as int == a as int + 32 {
      var k := a as int - 65;
      LowerLetter(k);
      UpperLetter(k);
      assert 0 <= k < 26 && a == UPPER[k] && b == LOWER[k];
    }
  }

  lemma LowerExact(a: char, b: char)
    ensures ToLower(a) == ToLower(b) <==> SameLetter(a, b)
  {
    CasesExact(a, b);
    CasesExact(b, a);
    SameLetterCases(a, b);
    hide SameLetter;
  }

  lemma SameLetterCases(a: char, b: char)
    ensures SameLetter(a, b) <==> a == b || (exists k :: 0 <= k < 26 && a == UPPER[k] && b == LOWER[k])
                                  || (exists k :: 0 <= k < 26 && b == UPPER[k] && a == LOWER[k])
  {
  }

  /** The keys are compared as said above. */
  lemma FoldExact(j: string, k: string, cs: bool)
    ensures Fold(j, cs) == Fold(k, cs) <==> SameKey(j, k, cs)
  {
    hide SameLetter, ToLower;
    if !cs {
      var f, g := Fold(j, false), Fold(k, false);
      assert forall i :: 0 <= i < |j| ==> f[i] == ToLower(j[i]);
      assert forall i :: 0 <= i < |k| ==> g[i] == ToLower(k[i]);
      if |j| == |k| {
        forall i | 0 <= i < |j| ensures f[i] == g[i] <==> SameLetter(j[i], k[i]) { LowerExact(j[i], k[i]); }
      }
    }
  }

  /** The lookup gives the value of the first member with that key, and nothing exactly when there is none. */
  lemma {:induction false} FindFirst(ms: seq<Member>, key: string, cs: bool)
    ensures forall i: nat :: FirstAt(ms, key, cs, i) ==> Find(ms, key, cs) == Some(ms[i].value)
    ensures Find(ms, key, cs).Some? ==> exists i: nat :: FirstAt(ms, key, cs, i)
    ensures Find(ms, key, cs) == None <==> forall i :: 0 <= i < |ms| ==> !SameKey(ms[i].key, key, cs)
  {
    hide SameKey, Fold;
    if ms != [] {
      FoldExact(ms[0].key, key, cs);
      FindFirst(ms[1..], key, cs);
      if SameKey(ms[0].key, key, cs) {
        assert FirstAt(ms, key, cs, 0);
      } else {
        forall i: nat | FirstAt(ms, key, cs, i) ensures Find(ms, key, cs) == Some(ms[i].value) {
          assert i > 0;
          FirstFurther(ms, key, cs, i - 1);
        }
        if Find(ms, key, cs).Some? {
          var i: nat :| FirstAt(ms[1..], key, cs, i);
          FirstFurther(ms, key, cs, i);
        }
        assert forall i :: 0 < i < |ms| ==> ms[i] == ms[1..][i - 1];
      }
    }
  }

  lemma FirstFurther(ms: seq<Member>, key: string, cs: bool, i: nat)
    requires ms != [] && !SameKey(ms[0].key, key, cs)
    ensures FirstAt(ms, key, cs, i + 1) <==> FirstAt(ms[1..], key, cs, i)
  {
    hide SameKey;
    assert forall j :: 0 < j < |ms| ==> ms[j] == ms[1..][j - 1];
  }

  /** One of the two loops over objects: every member has a first partner with the same key, of equal value. */
  ghost predicate HasPartner(m: Member, ys: seq<Member>, cs: bool) {
    exists j: nat :: FirstAt(ys, m.key, cs, j) && Equal(m.value, ys[j].value, cs)
  }

  lemma {:induction false} EachFoundExact(xs: seq<Member>, ys: seq<Member>, cs: bool)
    ensures EachFound(xs, ys, cs) <==> forall i :: 0 <= i < |xs| ==> HasPartner(xs[i], ys, cs)
    decreases |xs|
  {
    hide Equal, FirstAt, Fold;
    if xs != [] {
      EachFoundExact(xs[1..], ys, cs);
      FindFirst(ys, xs[0].key, cs);
      assert (Find(ys, xs[0].key, cs).Some? && Equal(xs[0].value, Find(ys, xs[0].key, cs).value, cs))
             <==> HasPartner(xs[0], ys, cs);
      assert forall i :: 0 < i < |xs| ==> xs[i] == xs[1..][i - 1];
    }
  }

  /** Objects compare equal exactly when every member of either has a partner in the other. */
  lemma ObjectsExact(xs: seq<Member>, ys: seq<Member>, cs: bool)
    ensures Equal(Object(xs), Object(ys), cs) <==>
              && (forall i :: 0 <= i < |xs| ==> HasPartner(xs[i], ys, cs))
              && (forall i :: 0 <= i < |ys| ==> HasPartner(ys[i], xs, cs))
  {
    hide HasPartner, EachFound;
    EachFoundExact(xs, ys, cs);
    EachFoundExact(ys, xs, cs);
  }

  /** Objects with one member each are equal exactly when the keys are the same and the values are equal either way; which
      they are when they are one value in which no object has a key twice. */
  lemma OneMemberEach(j: string, k: string, v: Json, w: Json, cs: bool)
    ensures Equal(Object([Member(j, v)]), Object([Member(k, w)]), cs) <==>
              SameKey(j, k, cs) && Equal(v, w, cs) && Equal(w, v, cs)
    ensures UniqueKeys(v, cs) ==> (Equal(Object([Member(j, v)]), Object([Member(k, v)]), cs) <==> SameKey(j, k, cs))
  {
    hide Equal, UniqueKeys, SameLetter;
    OneMember(j, k, v, w, cs);
    OneMember(j, k, v, v, cs);
    if UniqueKeys(v, cs) { EqualIsEquivalence(v, v, v, cs); }
  }

  lemma OneMember(j: string, k: string, v: Json, w: Json, cs: bool)
    ensures Equal(Object([Member(j, v)]), Object([Member(k, w)]), cs) <==>
              SameKey(j, k, cs) && Equal(v, w, cs) && Equal(w, v, cs)
  {
    hide Equal, SameLetter;
    var xs, ys := [Member(j, v)], [Member(k, w)];
    ObjectsExact(xs, ys, cs);
    FoldExact(j, k, cs);
    FoldExact(k, j, cs);
    assert FirstAt(ys, j, cs, 0) <==> SameKey(j, k, cs);
    assert FirstAt(xs, k, cs, 0) <==> SameKey(j, k, cs);
    assert forall i: nat :: FirstAt(ys, j, cs, i) ==> i == 0;
    assert forall i: nat :: FirstAt(xs, k, cs, i) ==> i == 0;
  }

  /** Keys are unique, throughout a value, when no object in it has two members with the same key. */
  lemma {:induction false} UniqueExact(v: Json, cs: bool)
    ensures UniqueKeys(v, cs) <==>
              match v
              case Array(items) => forall i :: 0 <= i < |items| ==> UniqueKeys(items[i], cs)
              case Object(ms) =>
                && (forall i, j :: 0 <= i < j < |ms| ==> !SameKey(ms[i].key, ms[j].key, cs))
                && (forall i :: 0 <= i < |ms| ==> UniqueKeys(ms[i].value, cs))
              case _ => true
  {
    hide SameKey, Fold;
    if v.Object? {
      var ms := v.members;
      forall i, j | 0 <= i < j < |ms|
        ensures Fold(ms[i].key, cs) != Fold(ms[j].key, cs) <==> !SameKey(ms[i].key, ms[j].key, cs)
      {
        FoldExact(ms[i].key, ms[j].key, cs);
      }
    }
  }
}
