/** Numbers in a text: what `strtod` makes of digits, a point and an exponent. */
module JsonNumber {
  import opened Decimal
  import opened JsonText
  import R = JsonRoundTrip
  import opened Wrappers

  /** A sign, digits before and behind the point, and an exponent if there is one: `e` or `E`, a sign, and digits. */
  datatype Numeral = Numeral(sign: string, whole: string, point: bool, fraction: string, exponent: Option<Exponent>)
  datatype Exponent = Exponent(mark: char, sign: string, digits: string)

  predicate IsSign(s: string) {
    s == "" || s == "+" || s == "-"
  }

  predicate Proper(n: Numeral) {
    && IsSign(n.sign) && AllDigits(n.whole) && AllDigits(n.fraction)
    && n.whole + n.fraction != "" && (!n.point ==> n.fraction == "")
    && (n.exponent.Some? ==> ProperExponent(n.exponent.value))
  }

  predicate ProperExponent(e: Exponent) {
    (e.mark == 'e' || e.mark == 'E') && IsSign(e.sign) && AllDigits(e.digits) && e.digits != ""
  }

  function PointText(n: Numeral): string {
    if n.point then "." + n.fraction else ""
  }

  function ExponentText(n: Numeral): string {
    if n.exponent.None? then "" else [n.exponent.value.mark] + (n.exponent.value.sign + n.exponent.value.digits)
  }

  function Text(n: Numeral): string {
    n.sign + (n.whole + (PointText(n) + ExponentText(n)))
  }

  /** The power of ten the digits are multiplied by. */
  function Power(n: Numeral): int
    requires Proper(n)
  {
    (if n.exponent.None? then 0
     else if n.exponent.value.sign == "-" then -(NatValue(n.exponent.value.digits) as int)
     else NatValue(n.exponent.value.digits)) - |n.fraction|
  }

  /** `r` is the number the numeral denotes: all its digits as one integer, times the power of ten, with the sign. */
  ghost predicate Denotes(n: Numeral, r: real)
    requires Proper(n)
  {
    IsScaled(if n.sign == "-" then -r else r, NatValue(n.whole + n.fraction), Power(n))
  }

  /** `m` is `digits` times ten to the power `e`. */
  ghost predicate IsScaled(m: real, digits: nat, e: int) {
    if e >= 0 then m == digits as real * Pow10(e) as real else m * Pow10(-e) as real == digits as real
  }

  /** What may follow a numeral without becoming part of it. */
  predicate Stops(n: Numeral, rest: string) {
    && (rest != "" ==> !IsDigit(rest[0]) && (n.exponent.None? && !n.point ==> rest[0] != '.'))
    && (n.exponent.None? ==> !StartsExponent(rest))
  }

  /** `e` or `E`, perhaps a sign, and a digit. */
  predicate StartsExponent(s: string) {
    && |s| > 1 && (s[0] == 'e' || s[0] == 'E')
    && (IsDigit(s[1]) || ((s[1] == '+' || s[1] == '-') && |s| > 2 && IsDigit(s[2])))
  }

  lemma TenTimes(a: nat, b: nat)
    ensures a * (10 * b) == 10 * (a * b)
  {
  }

  lemma {:induction false} NatValueConcat(a: string, b: string)
    requires AllDigits(a) && AllDigits(b)
    ensures AllDigits(a + b) && NatValue(a + b) == NatValue(a) * Pow10(|b|) + NatValue(b)
    decreases |b|
  {
    if b == "" {
      assert a + b == a;
    } else {
      var front := b[..|b| - 1];
      NatValueConcat(a, front);
      assert (a + b)[..|a + b| - 1] == a + front;
      TenTimes(NatValue(a), Pow10(|b| - 1));
    }
  }

  lemma {:induction false} Pow10Add(a: nat, b: nat)
    ensures Pow10(a + b) == Pow10(a) * Pow10(b)
  {
    if a > 0 {
      Pow10Add(a - 1, b);
      assert 10 * (Pow10(a - 1) * Pow10(b)) == (10 * Pow10(a - 1)) * Pow10(b);
    }
  }

  lemma RealProduct(a: nat, b: nat)
    ensures (a * b) as real == a as real * b as real
  {
  }

  lemma Inverse(x: real)
    requires x > 0.0
    ensures (1.0 / x) * x == 1.0
  {
  }

  lemma ScaleInverse(k: nat)
    ensures Times(Scale(-(k as int)), Pow10(k) as real) == 1.0
  {
    Inverse(Pow10(k) as real);
  }

  lemma ScaleAdd(a: nat, b: nat)
    ensures Pow10(a + b) as real == Times(Pow10(a) as real, Pow10(b) as real)
  {
    Pow10Add(a, b);
    RealProduct(Pow10(a), Pow10(b));
  }

  /** Products of reals, kept apart from the arithmetic around them. */
  function Times(a: real, b: real): real {
    a * b
  }

  lemma TimesSwap(a: real, b: real, c: real, d: real)
    ensures Times(Times(a, b), Times(c, d)) == Times(Times(a, c), Times(b, d))
  {
  }

  lemma TimesAssoc(a: real, b: real, c: real)
    ensures Times(Times(a, b), c) == Times(a, Times(b, c))
  {
  }

  lemma TimesOne(a: real)
    ensures Times(a, 1.0) == a
  {
  }

  lemma TimesAdd(a: real, b: real, c: real)
    ensures Times(a + b, c) == Times(a, c) + Times(b, c)
  {
  }

  function Sum(w: nat, f: nat, k: nat): real {
    w as real + Times(f as real, Scale(-(k as int)))
  }

  lemma WholeNumber(w: nat, f: nat, k: nat)
    ensures Times(Sum(w, f, k), Pow10(k) as real) == (w * Pow10(k) + f) as real
  {
    RealProduct(w, Pow10(k));
    assert Times(w as real, Pow10(k) as real) == (w * Pow10(k)) as real;
    hide Times, Scale, Pow10;
    ScaleInverse(k);
    TimesAdd(w as real, Times(f as real, Scale(-(k as int))), Pow10(k) as real);
    TimesAssoc(f as real, Scale(-(k as int)), Pow10(k) as real);
    TimesOne(f as real);
  }

  lemma ScaleUp(e: nat)
    ensures Scale(e) == Pow10(e) as real
  {
  }

  lemma ScaledTimes(sum: real, whole: real, k: nat, e: int)
    requires Times(sum, Pow10(k) as real) == whole
    ensures if e >= k then Times(sum, Scale(e)) == Times(whole, Pow10(e - k) as real)
            else Times(Times(sum, Scale(e)), Pow10(k - e) as real) == whole
  {
    hide *;
    if e >= k {
      ScaleUp(e);
      ScaleAdd(k, e - k);
      TimesAssoc(sum, Pow10(k) as real, Pow10(e - k) as real);
    } else if e >= 0 {
      ScaleUp(e);
      ScaleAdd(e, k - e);
      TimesAssoc(sum, Scale(e), Pow10(k - e) as real);
    } else {
      ScaleAdd(k, -e);
      ScaleInverse(-e);
      TimesSwap(sum, Scale(e), Pow10(k) as real, Pow10(-e) as real);
      TimesOne(whole);
    }
  }

  lemma MagnitudeTimes(w: nat, f: nat, k: nat, e: int)
    ensures Magnitude(w, f, k, e) == Times(Sum(w, f, k), Scale(e))
  {
    hide Scale;
  }

  /** Fraction and exponent scaled apart make the same as scaled together. */
  lemma Scaled(w: nat, f: nat, k: nat, e: int)
    ensures IsScaled(Magnitude(w, f, k, e), w * Pow10(k) + f, e - k)
  {
    hide *;
    MagnitudeTimes(w, f, k, e);
    WholeNumber(w, f, k);
    ScaledTimes(Sum(w, f, k), (w * Pow10(k) + f) as real, k, e);
    Unscale(Magnitude(w, f, k, e), w * Pow10(k) + f, e - k);
  }

  lemma Unscale(m: real, digits: nat, e: int)
    requires if e >= 0 then m == Times(digits as real, Pow10(e) as real) else Times(m, Pow10(-e) as real) == digits as real
    ensures IsScaled(m, digits, e)
  {
  }

  // ---- Where the parts stand ----

  /** `w` stands at `i`. */
  lemma SliceIs(t: string, i: nat, w: string)
    requires StartsWith(t, i, w)
    ensures i + |w| <= |t| && t[i..i + |w|] == w && (w != "" ==> t[i] == w[0])
  {
    if w != "" { R.StartChar(t, i, w); }
  }

  function SignLength(t: string): nat {
    if t != [] && (t[0] == '-' || t[0] == '+') then 1 else 0
  }

  /** Where the mantissa ends whose digits before the point end at `w`. */
  function PointEnd(t: string, w: nat): nat
    requires w <= |t|
  {
    if w < |t| && t[w] == '.' then SpanDigits(t, w + 1) else w
  }

  function FractionLength(w: nat, m: nat): nat {
    if m > w then m - w - 1 else 0
  }

  /** The first sign and digits, and the digits behind the point, as `strtod` finds them. */
  predicate MantissaAt(t: string, s: nat, w: nat, m: nat, k: nat) {
    && s == SignLength(t) && s <= w <= m <= |t| && k <= m && w - s + k > 0
    && SpanDigits(t, s) == w && PointEnd(t, w) == m && FractionLength(w, m) == k
  }

  /** The exponent behind a mantissa that ends at `m`: its digits, if there are any, are those from `d` to `z`. */
  predicate ExponentAt(t: string, m: nat, d: nat, z: nat) {
    && m <= |t| && d == m + 1 + (if m + 1 < |t| && (t[m + 1] == '-' || t[m + 1] == '+') then 1 else 0)
    && z == if m < |t| && (t[m] == 'e' || t[m] == 'E') then SpanDigits(t, d) else d
  }

  lemma StrtodParts(t: string, s: nat, w: nat, m: nat, k: nat, d: nat, z: nat)
    requires MantissaAt(t, s, w, m, k) && ExponentAt(t, m, d, z)
    ensures w <= |t| && AllDigits(t[s..w]) && AllDigits(t[m - k..m])
    ensures z > d ==> z <= |t| && AllDigits(t[d..z]) && m + 1 < |t|
    ensures var e: int := if z == d then 0 else if t[m + 1] == '-' then -(NatValue(t[d..z]) as int) else NatValue(t[d..z]);
            var magnitude := Magnitude(NatValue(t[s..w]), NatValue(t[m - k..m]), k, e);
            Strtod(t) == (if t[0] == '-' then -magnitude else magnitude, if z == d then m else z)
  {
    hide Magnitude, NatValue, SpanDigits;
    if m == w { assert t[m - k..m] == []; }
  }

  lemma TextNotEmpty(n: Numeral)
    requires Proper(n)
    ensures Text(n) != ""
  {
    IsProper(n);
  }

  lemma TextStart(n: Numeral)
    requires Proper(n) && n.sign != "+" && (n.sign == "" ==> n.whole != "")
    ensures Text(n) != "" && (Text(n)[0] == '-' || IsDigit(Text(n)[0]))
  {
    if n.sign == "" { FirstDigit(n.whole); }
  }

  lemma PointFirst(n: Numeral)
    requires Proper(n) && n.sign == "" && n.whole == ""
    ensures Text(n) != "" && Text(n)[0] == '.'
  {
    assert PointText(n)[0] == '.';
  }

  lemma NumeralStart(n: Numeral)
    requires Proper(n) && Text(n) != "" && (Text(n)[0] == '-' || IsDigit(Text(n)[0]))
    ensures n.sign != "+" && (n.sign == "" ==> n.whole != "")
  {
    if n.sign == "" && n.whole == "" { PointFirst(n); }
  }

  /** Where the parts of a numeral stand in a text that starts with it. */
  predicate Layout(n: Numeral, t: string, rest: string) {
    var s, w, m := |n.sign|, |n.sign| + |n.whole|, |n.sign| + |n.whole| + |PointText(n)|;
    && StartsWith(t, 0, n.sign) && StartsWith(t, s, n.whole) && StartsWith(t, w, PointText(n))
    && StartsWith(t, m, ExponentText(n)) && StartsWith(t, m + |ExponentText(n)|, rest)
    && |t| == m + |ExponentText(n)| + |rest|
  }

  lemma Regrouped(a: string, b: string, c: string, d: string, rest: string)
    ensures a + (b + (c + d)) + rest == a + (b + (c + (d + rest)))
  {
  }

  lemma IsProper(n: Numeral)
    requires Proper(n)
    ensures AllDigits(n.whole) && AllDigits(n.fraction) && |n.whole| + |n.fraction| > 0 && IsSign(n.sign)
    ensures (!n.point ==> n.fraction == "") && (n.exponent.Some? ==> ProperExponent(n.exponent.value))
  {
  }

  lemma LaidOut(n: Numeral, rest: string)
    ensures Layout(n, Text(n) + rest, rest)
  {
    hide PointText, ExponentText, StartsWith;
    var t, p, e := Text(n) + rest, PointText(n), ExponentText(n);
    Regrouped(n.sign, n.whole, p, e, rest);
    Whole(t);
    R.Split(t, 0, n.sign, n.whole + (p + (e + rest)));
    R.Split(t, |n.sign|, n.whole, p + (e + rest));
    R.Split(t, |n.sign| + |n.whole|, p, e + rest);
    R.Split(t, |n.sign| + |n.whole| + |p|, e, rest);
  }

  lemma Whole(t: string)
    ensures StartsWith(t, 0, t)
  {
  }

  /** Behind the mantissa there is no digit, and no point unless it has one already. */
  lemma BehindMantissa(n: Numeral, t: string, rest: string)
    requires Proper(n) && Stops(n, rest) && Layout(n, t, rest)
    ensures var m := |n.sign| + |n.whole| + |PointText(n)|;
            m <= |t| && (m < |t| ==> !IsDigit(t[m]) && (!n.point ==> t[m] != '.'))
  {
    hide StartsWith, PointText;
    var m := |n.sign| + |n.whole| + |PointText(n)|;
    SliceIs(t, m, ExponentText(n));
    if n.exponent.None? { SliceIs(t, m, rest); }
  }

  lemma PointFound(n: Numeral, t: string, w: nat)
    requires Proper(n) && StartsWith(t, w, PointText(n))
    requires var m := w + |PointText(n)|; m <= |t| && (m < |t| ==> !IsDigit(t[m]) && (!n.point ==> t[m] != '.'))
    ensures var m := w + |PointText(n)|;
            (w < |t| ==> !IsDigit(t[w])) && PointEnd(t, w) == m && FractionLength(w, m) == |n.fraction| <= m
  {
    hide StartsWith, SpanDigits, Proper, AllDigits;
    IsProper(n);
    if n.point {
      R.Split(t, w, ".", n.fraction);
      R.StartChar(t, w, ".");
      DigitsFound(t, w + 1, n.fraction);
    }
  }

  lemma SignFound(n: Numeral, t: string, rest: string)
    requires Proper(n) && Layout(n, t, rest)
    ensures t != "" && (t[0] == '-' <==> n.sign == "-") && SignLength(t) == |n.sign|
  {
    hide StartsWith;
    SliceIs(t, 0, n.sign);
    SliceIs(t, |n.sign|, n.whole);
    SliceIs(t, |n.sign| + |n.whole|, PointText(n));
    if n.sign == "" && n.whole != "" { assert IsDigit(n.whole[0]); }
  }

  lemma DigitsFound(t: string, s: nat, digits: string)
    requires AllDigits(digits) && StartsWith(t, s, digits)
    requires s + |digits| < |t| ==> !IsDigit(t[s + |digits|])
    ensures s + |digits| <= |t| && SpanDigits(t, s) == s + |digits|
  {
    hide *;
    SliceIs(t, s, digits);
    SpanExactly(t, s, s + |digits|);
  }

  /** The digits before and behind the point are found whole. */
  lemma MantissaFound(n: Numeral, t: string, rest: string)
    requires Proper(n) && Stops(n, rest) && Layout(n, t, rest)
    ensures MantissaAt(t, |n.sign|, |n.sign| + |n.whole|, |n.sign| + |n.whole| + |PointText(n)|, |n.fraction|)
  {
    hide SignLength, PointEnd, FractionLength, SpanDigits, StartsWith, PointText, ExponentText, Proper, Stops, AllDigits, IsSign,
         Layout, IsDigit;
    IsProper(n);
    SignFound(n, t, rest);
    BehindMantissa(n, t, rest);
    MantissaLayout(n, t, rest);
    PointFound(n, t, |n.sign| + |n.whole|);
    DigitsFound(t, |n.sign|, n.whole);
  }

  lemma MantissaLayout(n: Numeral, t: string, rest: string)
    requires Layout(n, t, rest)
    ensures StartsWith(t, |n.sign|, n.whole) && StartsWith(t, |n.sign| + |n.whole|, PointText(n))
  {
    hide StartsWith, PointText, ExponentText;
  }

  lemma MantissaDigits(n: Numeral, t: string, rest: string)
    requires Proper(n) && Layout(n, t, rest)
    ensures var s, w, m := |n.sign|, |n.sign| + |n.whole|, |n.sign| + |n.whole| + |PointText(n)|;
            m <= |t| && |n.fraction| <= m && t[s..w] == n.whole && t[m - |n.fraction|..m] == n.fraction
  {
    hide StartsWith, ExponentText, AllDigits, IsSign;
    MantissaLayout(n, t, rest);
    var w := |n.sign| + |n.whole|;
    SliceIs(t, |n.sign|, n.whole);
    if n.point {
      R.Split(t, w, ".", n.fraction);
      SliceIs(t, w + 1, n.fraction);
    } else {
      SliceIs(t, w, "");
    }
  }

  /** Without a following exponent, nothing behind the mantissa is used. */
  lemma NoExponent(n: Numeral, t: string, m: nat, rest: string) returns (d: nat)
    requires n.exponent.None? && Stops(n, rest) && StartsWith(t, m, rest) && |t| == m + |rest|
    ensures ExponentAt(t, m, d, d)
  {
    R.CharsOf(t, m, rest);
    d := m + 1 + (if m + 1 < |t| && (t[m + 1] == '-' || t[m + 1] == '+') then 1 else 0);
    if rest != "" && (t[m] == 'e' || t[m] == 'E') {
      if d <= |t| { SpanExactly(t, d, d); }
    }
  }

  lemma ExponentLayout(e: Exponent, t: string, m: nat, rest: string)
    requires StartsWith(t, m, [e.mark] + (e.sign + e.digits)) && StartsWith(t, m + 1 + |e.sign| + |e.digits|, rest)
    ensures var d := m + 1 + |e.sign|; var z := d + |e.digits|;
            && z + |rest| <= |t| && t[m] == e.mark && t[d..z] == e.digits
            && (e.sign != "" ==> t[m + 1] == e.sign[0]) && (e.digits != "" ==> t[d] == e.digits[0])
            && (rest != "" ==> t[z] == rest[0])
  {
    hide StartsWith;
    R.Split(t, m, [e.mark], e.sign + e.digits);
    R.StartChar(t, m, [e.mark]);
    R.Split(t, m + 1, e.sign, e.digits);
    SliceIs(t, m + 1, e.sign);
    SliceIs(t, m + 1 + |e.sign|, e.digits);
    SliceIs(t, m + 1 + |e.sign| + |e.digits|, rest);
  }

  lemma ExponentFound(n: Numeral, t: string, m: nat, rest: string)
    requires Proper(n) && n.exponent.Some? && Stops(n, rest)
    requires StartsWith(t, m, ExponentText(n)) && StartsWith(t, m + |ExponentText(n)|, rest)
    requires |t| == m + |ExponentText(n)| + |rest|
    ensures var e := n.exponent.value; var d := m + 1 + |e.sign|; var z := d + |e.digits|;
            && z == m + |ExponentText(n)| <= |t| && ExponentAt(t, m, d, z) && t[d..z] == e.digits
            && (t[m + 1] == '-' <==> e.sign == "-")
  {
    hide StartsWith, SpanDigits, Proper, AllDigits, IsSign;
    IsProper(n);
    var e := n.exponent.value;
    ExponentLayout(e, t, m, rest);
    FirstDigit(e.digits);
    SignChar(e, t, m);
    SpanExactly(t, m + 1 + |e.sign|, m + 1 + |e.sign| + |e.digits|);
  }

  lemma SignChar(e: Exponent, t: string, m: nat)
    requires ProperExponent(e) && m + 1 + |e.sign| + |e.digits| <= |t|
    requires (e.sign != "" ==> t[m + 1] == e.sign[0]) && t[m + 1 + |e.sign|] == e.digits[0]
    ensures |e.sign| == if t[m + 1] == '-' || t[m + 1] == '+' then 1 else 0
    ensures t[m + 1] == '-' <==> e.sign == "-"
  {
    FirstDigit(e.digits);
    hide AllDigits;
  }

  lemma FirstDigit(s: string)
    requires AllDigits(s) && s != ""
    ensures IsDigit(s[0])
  {
  }

  lemma SignedValue(n: Numeral, magnitude: real)
    requires Proper(n)
    requires magnitude == Magnitude(NatValue(n.whole), NatValue(n.fraction), |n.fraction|, Power(n) + |n.fraction|)
    ensures Denotes(n, if n.sign == "-" then -magnitude else magnitude)
  {
    NatValueConcat(n.whole, n.fraction);
    Scaled(NatValue(n.whole), NatValue(n.fraction), |n.fraction|, Power(n) + |n.fraction|);
    hide IsScaled, Scale, NatValue, Pow10, Magnitude;
    assert -(-magnitude) == magnitude;
    ghost var r := if n.sign == "-" then -magnitude else magnitude;
    assert IsScaled(if n.sign == "-" then -r else r, NatValue(n.whole + n.fraction), Power(n));
  }

  /** What `strtod` makes of a numeral whose parts it has found. */
  lemma StrtodOf(n: Numeral, t: string, s: nat, w: nat, m: nat, d: nat, z: nat)
    requires Proper(n) && MantissaAt(t, s, w, m, |n.fraction|) && ExponentAt(t, m, d, z)
    requires t != "" && (t[0] == '-' <==> n.sign == "-")
    requires w <= |t| && s <= w && |n.fraction| <= m <= |t| && t[s..w] == n.whole && t[m - |n.fraction|..m] == n.fraction
    requires if n.exponent.None? then z == d
             else d < z <= |t| && m + 1 < |t| && t[d..z] == n.exponent.value.digits && (t[m + 1] == '-' <==> n.exponent.value.sign == "-")
    ensures Strtod(t).1 == (if n.exponent.None? then m else z) && Denotes(n, Strtod(t).0)
  {
    hide Magnitude, NatValue, Denotes, Strtod, MantissaAt, ExponentAt, AllDigits, IsSign;
    StrtodParts(t, s, w, m, |n.fraction|, d, z);
    var r := Strtod(t).0;
    assert Power(n) + |n.fraction| == if z == d then 0 else if t[m + 1] == '-' then -(NatValue(t[d..z]) as int) else NatValue(t[d..z]);
    SignedValue(n, if n.sign == "-" then -r else r);
  }

  /** The whole numeral is used, whatever follows it, and the result is the number it denotes. */
  lemma StrtodExact(n: Numeral, rest: string)
    requires Proper(n) && Stops(n, rest)
    ensures var (r, used) := Strtod(Text(n) + rest); used == |Text(n)| && Denotes(n, r)
  {
    hide Denotes, Strtod, MantissaAt, ExponentAt, StartsWith, PointText, ExponentText, Proper, Stops;
    IsProper(n);
    var t := Text(n) + rest;
    var s, w, m := |n.sign|, |n.sign| + |n.whole|, |n.sign| + |n.whole| + |PointText(n)|;
    LaidOut(n, rest);
    SignFound(n, t, rest);
    MantissaFound(n, t, rest);
    MantissaDigits(n, t, rest);
    if n.exponent.None? {
      assert ExponentText(n) == "" by { NoText(n); }
      var d := NoExponent(n, t, m, rest);
      StrtodOf(n, t, s, w, m, d, d);
    } else {
      var x := n.exponent.value;
      ExponentFound(n, t, m, rest);
      NotEmpty(x);
      StrtodOf(n, t, s, w, m, m + 1 + |x.sign|, m + 1 + |x.sign| + |x.digits|);
    }
  }

  lemma NotEmpty(e: Exponent)
    requires ProperExponent(e)
    ensures |e.digits| > 0
  {
  }

  lemma NoText(n: Numeral)
    requires n.exponent.None?
    ensures ExponentText(n) == ""
  {
  }
  // ---- And nothing but numerals is used ----

  predicate Ordered(t: string, s: nat, w: nat, m: nat, k: nat, d: nat) {
    s <= w <= m <= |t| && k <= m && (m > w ==> t[w] == '.' && k == m - w - 1) && (m == w ==> k == 0) && (m < |t| ==> m + 1 <= d <= |t|)
  }

  /** The numeral that a text is, by where its parts stand. */
  function Made(t: string, s: nat, w: nat, m: nat, k: nat, d: nat): Numeral
    requires Ordered(t, s, w, m, k, d)
  {
    Numeral(t[..s], t[s..w], m > w, t[m - k..m], if m == |t| then None else Some(Exponent(t[m], t[m + 1..d], t[d..])))
  }

  lemma FourSlices(t: string, s: nat, w: nat, m: nat)
    requires s <= w <= m <= |t|
    ensures t[..s] + (t[s..w] + (t[w..m] + t[m..])) == t
  {
    assert t[w..m] + t[m..] == t[w..];
    assert t[s..w] + t[w..] == t[s..];
  }

  lemma ThreeSlices(t: string, m: nat, d: nat)
    requires m + 1 <= d <= |t|
    ensures [t[m]] + (t[m + 1..d] + t[d..]) == t[m..]
  {
    assert t[m + 1..d] + t[d..] == t[m + 1..];
  }

  lemma MadeText(t: string, s: nat, w: nat, m: nat, k: nat, d: nat)
    requires Ordered(t, s, w, m, k, d)
    ensures Text(Made(t, s, w, m, k, d)) == t
  {
    var n := Made(t, s, w, m, k, d);
    MadePoint(t, s, w, m, k, d);
    MadeExponent(t, s, w, m, k, d);
    FourSlices(t, s, w, m);
    hide PointText, ExponentText;
  }

  lemma MadePoint(t: string, s: nat, w: nat, m: nat, k: nat, d: nat)
    requires Ordered(t, s, w, m, k, d)
    ensures PointText(Made(t, s, w, m, k, d)) == t[w..m]
  {
    if m > w { assert t[w..m] == [t[w]] + t[w + 1..m]; }
  }

  lemma MadeExponent(t: string, s: nat, w: nat, m: nat, k: nat, d: nat)
    requires Ordered(t, s, w, m, k, d)
    ensures ExponentText(Made(t, s, w, m, k, d)) == t[m..]
  {
    if m < |t| { ThreeSlices(t, m, d); }
  }

  lemma MadeProper(t: string, s: nat, w: nat, m: nat, k: nat, d: nat)
    requires Ordered(t, s, w, m, k, d) && s == SignLength(t) && w - s + k > 0
    requires SpanDigits(t, s) == w && PointEnd(t, w) == m
    requires m < |t| ==> (t[m] == 'e' || t[m] == 'E') && d < |t| && SpanDigits(t, d) == |t|
    requires d == m + 1 + (if m + 1 < |t| && (t[m + 1] == '-' || t[m + 1] == '+') then 1 else 0)
    ensures Proper(Made(t, s, w, m, k, d))
  {
    var n := Made(t, s, w, m, k, d);
    assert AllDigits(t[s..w]);
    assert AllDigits(t[m - k..m]);
    if m < |t| {
      assert t[d..|t|] == t[d..];
      assert AllDigits(t[d..]);
    }
    hide AllDigits, SpanDigits;
    assert |n.whole + n.fraction| > 0;
  }

  lemma StrtodUsed(t: string) returns (s: nat, w: nat, m: nat, k: nat, d: nat)
    requires Strtod(t).1 == |t| > 0
    ensures Ordered(t, s, w, m, k, d) && s == SignLength(t) && w - s + k > 0
    ensures SpanDigits(t, s) == w && PointEnd(t, w) == m
    ensures m < |t| ==> (t[m] == 'e' || t[m] == 'E') && d < |t| && SpanDigits(t, d) == |t|
    ensures d == m + 1 + (if m + 1 < |t| && (t[m + 1] == '-' || t[m + 1] == '+') then 1 else 0)
  {
    hide Magnitude, NatValue, AllDigits;
    s := SignLength(t);
    w := SpanDigits(t, s);
    m := PointEnd(t, w);
    k := FractionLength(w, m);
    d := m + 1 + (if m + 1 < |t| && (t[m + 1] == '-' || t[m + 1] == '+') then 1 else 0);
  }

  /** A text that is used whole is a numeral. */
  lemma NumeralOf(t: string) returns (n: Numeral)
    requires Strtod(t).1 == |t| > 0
    ensures Proper(n) && Text(n) == t && Denotes(n, Strtod(t).0)
  {
    hide Ordered, Made, Strtod, Denotes, Text, Proper, SpanDigits, PointEnd, SignLength;
    var s, w, m, k, d := StrtodUsed(t);
    MadeText(t, s, w, m, k, d);
    MadeProper(t, s, w, m, k, d);
    n := Made(t, s, w, m, k, d);
    StrtodExact(n, "");
    assert t + "" == t;
  }
}
