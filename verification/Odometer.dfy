/** How a miner enumerates suffixes: a base-256 odometer whose last byte turns fastest. */
module Odometer {
  import opened Wrappers

  predicate IsByte(b: int) {
    0 <= b < 256
  }

  predicate AllBytes(s: seq<int>) {
    forall i :: 0 <= i < |s| ==> IsByte(s[i])
  }

  function Pow256(n: nat): (p: nat)
    ensures p >= 1
  {
    if n == 0 then 1 else 256 * Pow256(n - 1)
  }

  /** The number that `suffix` shows when `high` stands in front of it. */
  function Join(high: nat, suffix: seq<int>): nat
    requires AllBytes(suffix)
  {
    if suffix == [] then high else Join(high, suffix[..|suffix| - 1]) * 256 + suffix[|suffix| - 1]
  }

  /** The number an odometer shows. */
  function Value(digits: seq<int>): nat
    requires AllBytes(digits)
  {
    Join(0, digits)
  }

  /** The odometer of `n` digits that shows `v`, the carry out of the first digit dropped. */
  function Digits(v: nat, n: nat): (s: seq<int>)
    ensures |s| == n && AllBytes(s)
  {
    if n == 0 then [] else Digits(v / 256, n - 1) + [v % 256]
  }

  lemma {:induction false} JoinCons(high: nat, d: int, rest: seq<int>)
    requires IsByte(d) && AllBytes(rest)
    ensures AllBytes([d] + rest) && Join(high, [d] + rest) == Join(high * 256 + d, rest)
    decreases |rest|
  {
    if rest == [] {
      assert [d] + rest == [d] && [d][..0] == [];
    } else {
      var front := rest[..|rest| - 1];
      JoinCons(high, d, front);
      assert ([d] + rest)[..|rest|] == [d] + front;
    }
  }

  lemma {:induction false} JoinConcat(high: nat, a: seq<int>, b: seq<int>)
    requires AllBytes(a) && AllBytes(b)
    ensures AllBytes(a + b) && Join(high, a + b) == Join(Join(high, a), b)
    decreases |b|
  {
    if b == [] {
      assert a + b == a;
    } else {
      var front := b[..|b| - 1];
      JoinConcat(high, a, front);
      assert (a + b)[..|a + b| - 1] == a + front;
    }
  }

  lemma {:induction false} JoinBounds(high: nat, s: seq<int>)
    requires AllBytes(s)
    ensures high * Pow256(|s|) <= Join(high, s) < (high + 1) * Pow256(|s|)
    decreases |s|
  {
    if s != [] {
      var p := Pow256(|s| - 1);
      JoinBounds(high, s[..|s| - 1]);
      assert high * (256 * p) == 256 * (high * p) && (high + 1) * (256 * p) == 256 * ((high + 1) * p);
    }
  }

  lemma {:induction false} DigitsValue(v: nat, n: nat)
    requires v < Pow256(n)
    ensures Value(Digits(v, n)) == v
  {
    if n > 0 {
      DigitsValue(v / 256, n - 1);
      var s := Digits(v, n);
      assert s[..|s| - 1] == Digits(v / 256, n - 1);
    }
  }

  lemma {:induction false} ValueDigits(s: seq<int>)
    requires AllBytes(s)
    ensures Value(s) < Pow256(|s|) && Digits(Value(s), |s|) == s
    decreases |s|
  {
    JoinBounds(0, s);
    if s != [] {
      hide Pow256;
      var front := s[..|s| - 1];
      ValueDigits(front);
      LastDigit(Value(front), s[|s| - 1], |s|);
      assert s == front + [s[|s| - 1]];
    }
  }

  lemma LastDigit(v: nat, d: int, n: nat)
    requires IsByte(d) && n > 0
    ensures Digits(v * 256 + d, n) == Digits(v, n - 1) + [d]
  {
    assert (v * 256 + d) / 256 == v && (v * 256 + d) % 256 == d;
  }

  // ---- One turn of the odometer ----

  /** The number the odometer is to show, when `carry` is still to be added at digit `j`. */
  ghost function Pending(s: seq<int>, j: nat, carry: nat): nat
    requires AllBytes(s) && j < |s|
  {
    Join(Value(s[..j + 1]) + carry, s[j + 1..])
  }

  lemma PendingAtLast(s: seq<int>, carry: nat)
    requires AllBytes(s) && s != []
    ensures Pending(s, |s| - 1, carry) == Value(s) + carry
  {
    assert s[..|s|] == s;
  }

  lemma PendingSplit(s: seq<int>, j: nat, carry: nat)
    requires AllBytes(s) && j < |s|
    ensures Pending(s, j, carry) == Join(Value(s[..j]) * 256 + s[j] + carry, s[j + 1..])
  {
    assert s[..j + 1][..j] == s[..j];
  }

  lemma CarryOn(s: seq<int>, j: nat, carry: nat)
    requires AllBytes(s) && 0 < j < |s| && s[j] + carry > 255
    ensures AllBytes(s[j := (s[j] + carry) % 256])
    ensures Pending(s[j := (s[j] + carry) % 256], j - 1, (s[j] + carry) / 256) == Pending(s, j, carry)
  {
    var r, q := (s[j] + carry) % 256, (s[j] + carry) / 256;
    var t := s[j := r];
    PendingSplit(s, j, carry);
    JoinCons(Value(s[..j]) + q, r, s[j + 1..]);
    assert t[..j] == s[..j] && t[j..] == [r] + s[j + 1..];
  }

  lemma CarryEnds(s: seq<int>, j: nat, carry: nat)
    requires AllBytes(s) && j < |s| && s[j] + carry <= 255
    ensures AllBytes(s[j := s[j] + carry]) && Value(s[j := s[j] + carry]) == Pending(s, j, carry)
    ensures Pending(s, j, carry) < Pow256(|s|)
  {
    hide Pow256, Pending, Join;
    var t := s[j := s[j] + carry];
    PendingSplit(s, j, carry);
    JoinCons(Value(s[..j]), s[j] + carry, s[j + 1..]);
    JoinConcat(0, t[..j], t[j..]);
    assert t == t[..j] + t[j..] && t[..j] == s[..j] && t[j..] == [s[j] + carry] + s[j + 1..];
    JoinBounds(0, t);
  }

  lemma CarryOut(s: seq<int>, carry: nat)
    requires AllBytes(s) && s != [] && s[0] + carry > 255
    ensures Pending(s, 0, carry) >= Pow256(|s|)
  {
    hide Pending;
    PendingSplit(s, 0, carry);
    assert s[..0] == [];
    JoinBounds(s[0] + carry, s[1..]);
    Product(s[0] + carry, Pow256(|s| - 1));
  }

  lemma Product(h: nat, p: nat)
    requires h >= 256
    ensures h * p >= 256 * p
  {
  }

  /** The carry loop.  The carry out of digit 0 happens exactly when the next value would not fit. */
  method Turn(append: array<int>, add: nat) returns (startNext: bool)
    requires append.Length > 0 && AllBytes(append[..]) && 1 <= add <= 256
    modifies append
    ensures startNext <==> Value(old(append[..])) + add >= Pow256(append.Length)
    ensures !startNext ==> AllBytes(append[..]) && Value(append[..]) == Value(old(append[..])) + add
  {
    hide Pending, Value;
    var j: nat, nextAdd: nat := append.Length - 1, add;
    PendingAtLast(append[..], add);
    while true
      invariant j < append.Length && 1 <= nextAdd <= 256 && AllBytes(append[..])
      invariant Pending(append[..], j, nextAdd) == Value(old(append[..])) + add
      decreases j
    {
      ghost var s := append[..];
      if append[j] + nextAdd > 255 {
        if j == 0 {
          CarryOut(s, nextAdd);
          return true;
        }
        CarryOn(s, j, nextAdd);
        var sum := append[j] + nextAdd;
        append[j] := sum % 256;
        nextAdd := sum / 256;
        assert append[..] == s[j := sum % 256];
        j := j - 1;
      } else {
        CarryEnds(s, j, nextAdd);
        append[j] := append[j] + nextAdd;
        assert append[..] == s[j := s[j] + nextAdd];
        return false;
      }
    }
  }

  // ---- What one miner visits ----

  /** The suffixes of length `n` from the value `v` on, in steps of `add`. */
  function Visits(v: nat, add: nat, n: nat): (r: seq<seq<int>>)
    requires add > 0
    decreases if v < Pow256(n) then Pow256(n) - v else 0
  {
    if v >= Pow256(n) then [] else [Digits(v, n)] + Visits(v + add, add, n)
  }

  /** Exactly the values `v`, `v + add`, `v + 2 * add`, ... below 256^n, in this order. */
  lemma {:induction false} VisitsAt(v: nat, add: nat, n: nat, k: nat)
    requires add > 0
    ensures k < |Visits(v, add, n)| <==> v + k * add < Pow256(n)
    ensures k < |Visits(v, add, n)| ==> Visits(v, add, n)[k] == Digits(v + k * add, n)
    decreases k
  {
    if v < Pow256(n) && k > 0 {
      VisitsAt(v + add, add, n, k - 1);
      assert v + add + (k - 1) * add == v + k * add;
    } else if k > 0 {
      assert k * add >= 0;
    }
  }

  /** The two search loops of a miner for one suffix length: `test` is tried on each suffix in turn until it holds. */
  method Search(test: seq<int> -> bool, start: nat, add: nat, n: nat) returns (hit: Option<seq<int>>, tried: seq<seq<int>>)
    requires n > 0 && start < add <= 256
    ensures hit.None? ==> tried == Visits(start, add, n)
    ensures hit.Some? ==> tried + [hit.value] <= Visits(start, add, n) && test(hit.value)
    ensures forall s :: s in tried ==> !test(s)
  {
    hide *;
    var append := new int[n](_ => 0);
    append[n - 1] := append[n - 1] + start;
    StartValue(append[..], start);
    tried := [];
    var startNext := false;
    ghost var v := start;
    while !startNext
      invariant !startNext ==> AllBytes(append[..]) && v == Value(append[..]) < Pow256(n) && append[..] == Digits(v, n)
      invariant startNext ==> v >= Pow256(n)
      invariant tried + Visits(v, add, n) == Visits(start, add, n)
      invariant forall s :: s in tried ==> !test(s)
      decreases !startNext, if v < Pow256(n) then Pow256(n) - v else 0
    {
      VisitsStep(v, add, n, tried);
      if test(append[..]) {
        return Some(append[..]), tried;
      }
      tried := tried + [append[..]];
      startNext := Turn(append, add);
      v := v + add;
      if !startNext {
        ValueDigits(append[..]);
      }
    }
    hit := None;
    VisitsEnd(v, add, n, tried);
  }

  lemma VisitsStep(v: nat, add: nat, n: nat, tried: seq<seq<int>>)
    requires add > 0 && v < Pow256(n)
    ensures tried + Visits(v, add, n) == tried + [Digits(v, n)] + Visits(v + add, add, n)
  {
  }

  lemma VisitsEnd(v: nat, add: nat, n: nat, tried: seq<seq<int>>)
    requires add > 0 && v >= Pow256(n)
    ensures tried + Visits(v, add, n) == tried
  {
  }

  lemma StartValue(s: seq<int>, start: nat)
    requires s != [] && start < 256 && s[|s| - 1] == start
    requires forall i :: 0 <= i < |s| - 1 ==> s[i] == 0
    ensures AllBytes(s) && Value(s) == start < Pow256(|s|) && s == Digits(start, |s|)
  {
    ZeroValue(s[..|s| - 1]);
    ValueDigits(s);
  }

  lemma {:induction false} ZeroValue(s: seq<int>)
    requires forall i :: 0 <= i < |s| ==> s[i] == 0
    ensures AllBytes(s) && Value(s) == 0
    decreases |s|
  {
    if s != [] {
      ZeroValue(s[..|s| - 1]);
    }
  }

  /** The suffix is the `k`-th one that the miner started at `start` visits. */
  predicate VisitedAt(miners: nat, s: seq<int>, start: nat, k: nat)
    requires miners > 0
  {
    k < |Visits(start, miners, |s|)| && Visits(start, miners, |s|)[k] == s
  }

  /** With `miners` miners, miner i starting at i: every suffix of every length is visited by exactly one miner, exactly
      once, namely by the miner of its value modulo the number of miners. */
  lemma EverySuffixOnce(miners: nat, s: seq<int>)
    requires 1 <= miners <= 256 && s != [] && AllBytes(s)
    ensures var i, k := Value(s) % miners, Value(s) / miners; VisitedAt(miners, s, i, k)
    ensures forall i: nat, k: nat :: i < miners && VisitedAt(miners, s, i, k) ==>
              i == Value(s) % miners && k == Value(s) / miners
  {
    hide Value, Digits, Visits;
    var n := |s|;
    ValueDigits(s);
    VisitsAt(Value(s) % miners, miners, n, Value(s) / miners);
    Division(Value(s), miners);
    forall i: nat, k: nat | i < miners && VisitedAt(miners, s, i, k)
      ensures i == Value(s) % miners && k == Value(s) / miners
    {
      VisitsAt(i, miners, n, k);
      DigitsValue(i + k * miners, n);
      Remainder(i, k, miners);
    }
  }

  lemma Division(v: nat, m: nat)
    requires m > 0
    ensures v % m + v / m * m == v
  {
  }

  lemma Remainder(i: nat, k: nat, m: nat)
    requires i < m
    ensures (i + k * m) % m == i && (i + k * m) / m == k
  {
    var v := i + k * m;
    var q, r := v / m, v % m;
    assert v == q * m + r;
    assert (k - q) * m == r - i;
    if k > q { AtLeast(k - q, m); }
    if q > k { AtLeast(q - k, m); }
  }

  lemma AtLeast(a: int, m: nat)
    requires a >= 1
    ensures a * m >= m
  {
  }

  // ---- All lengths ----

  /** The suffixes of length 1, then those of length 2, and so on up to `lengths`. */
  function VisitsUpTo(start: nat, add: nat, lengths: nat): seq<seq<int>>
    requires add > 0
  {
    if lengths == 0 then [] else VisitsUpTo(start, add, lengths - 1) + Visits(start, add, lengths)
  }

  /** The loop over the lengths, for as many of them as no message of the boss ends it. */
  method SearchLengths(test: seq<int> -> bool, start: nat, add: nat, lengths: nat)
    returns (hit: Option<seq<int>>, tried: seq<seq<int>>)
    requires start < add <= 256
    ensures hit.None? ==> tried == VisitsUpTo(start, add, lengths)
    ensures hit.Some? ==> tried + [hit.value] <= VisitsUpTo(start, add, lengths) && test(hit.value)
    ensures forall s :: s in tried ==> !test(s)
  {
    hide Visits;
    hit, tried := None, [];
    var numOfAppend := 1;
    while numOfAppend <= lengths
      invariant 1 <= numOfAppend <= lengths + 1 && hit == None
      invariant tried == VisitsUpTo(start, add, numOfAppend - 1)
      invariant forall s :: s in tried ==> !test(s)
    {
      var more;
      hit, more := Search(test, start, add, numOfAppend);
      tried := tried + more;
      if hit.Some? {
        Longer(start, add, numOfAppend, lengths);
        assert tried + [hit.value] <= VisitsUpTo(start, add, numOfAppend);
        return;
      }
      numOfAppend := numOfAppend + 1;
    }
  }

  lemma {:induction false} Longer(start: nat, add: nat, n: nat, lengths: nat)
    requires add > 0 && n <= lengths
    ensures VisitsUpTo(start, add, n) <= VisitsUpTo(start, add, lengths)
    decreases lengths
  {
    hide Visits;
    if n < lengths { Longer(start, add, n, lengths - 1); }
  }

  /** Where the k-th suffix of length `n` stands among all. */
  lemma {:induction false} AmongAll(start: nat, add: nat, lengths: nat, n: nat, k: nat)
    requires add > 0 && 0 < n <= lengths && k < |Visits(start, add, n)|
    ensures var at := |VisitsUpTo(start, add, n - 1)| + k;
            at < |VisitsUpTo(start, add, lengths)| && VisitsUpTo(start, add, lengths)[at] == Visits(start, add, n)[k]
  {
    hide Visits;
    Longer(start, add, n, lengths);
    assert VisitsUpTo(start, add, n) == VisitsUpTo(start, add, n - 1) + Visits(start, add, n);
  }

  /** Every position among all is one of some length. */
  lemma {:induction false} OfLength(start: nat, add: nat, lengths: nat, at: nat) returns (n: nat, k: nat)
    requires add > 0 && at < |VisitsUpTo(start, add, lengths)|
    ensures 0 < n <= lengths && k < |Visits(start, add, n)| && at == |VisitsUpTo(start, add, n - 1)| + k
    ensures VisitsUpTo(start, add, lengths)[at] == Visits(start, add, n)[k] && |Visits(start, add, n)[k]| == n
  {
    hide Visits;
    var before := VisitsUpTo(start, add, lengths - 1);
    if at < |before| {
      n, k := OfLength(start, add, lengths - 1, at);
    } else {
      n, k := lengths, at - |before|;
      VisitsAt(start, add, n, k);
    }
  }

  predicate TriedAt(miners: nat, lengths: nat, s: seq<int>, start: nat, at: nat)
    requires miners > 0
  {
    at < |VisitsUpTo(start, miners, lengths)| && VisitsUpTo(start, miners, lengths)[at] == s
  }

  /** Over all lengths together: a miner that is not stopped comes to every non-empty suffix of its own, all shorter ones
      first; no suffix is tried twice, by one miner or by two. */
  lemma {:induction false} EverySuffixTried(miners: nat, lengths: nat, s: seq<int>) returns (at: nat)
    requires 1 <= miners <= 256 && s != [] && AllBytes(s) && |s| <= lengths
    ensures TriedAt(miners, lengths, s, Value(s) % miners, at)
    ensures forall start: nat, other: nat :: start < miners && TriedAt(miners, lengths, s, start, other) ==>
              start == Value(s) % miners && other == at
    ensures forall i: nat, t :: TriedAt(miners, lengths, t, Value(s) % miners, i) ==>
              (|t| < |s| ==> i < at) && (|s| < |t| ==> at < i)
  {
    hide Value, Visits, VisitsUpTo;
    var n, start, k := |s|, Value(s) % miners, Value(s) / miners;
    EverySuffixOnce(miners, s);
    at := |VisitsUpTo(start, miners, n - 1)| + k;
    AmongAll(start, miners, lengths, n, k);
    forall other: nat, i: nat | other < miners && TriedAt(miners, lengths, s, other, i) ensures other == start && i == at {
      var m, j := OfLength(other, miners, lengths, i);
      assert VisitedAt(miners, s, other, j);
    }
    forall i: nat, t | TriedAt(miners, lengths, t, start, i) ensures (|t| < n ==> i < at) && (n < |t| ==> at < i) {
      var m, j := OfLength(start, miners, lengths, i);
      if m < n { Blocks(start, miners, m, n); }
      if n < m { Blocks(start, miners, n, m); }
    }
  }

  /** The suffixes of a length come after all shorter ones. */
  lemma {:induction false} Blocks(start: nat, add: nat, m: nat, n: nat)
    requires add > 0 && 0 < m < n
    ensures |VisitsUpTo(start, add, m - 1)| + |Visits(start, add, m)| <= |VisitsUpTo(start, add, n - 1)|
  {
    hide Visits;
    Longer(start, add, m, n - 1);
  }
}
