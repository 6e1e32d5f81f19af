/** Weighted means over sequences of reals: the arithmetic behind the claim
    that an overall acceptance rate never exceeds the best group rate. */
module Means {

  function Sum(xs: seq<real>): real
  {
    if xs == [] then 0.0 else xs[0] + Sum(xs[1..])
  }

  /** Every quotient `a[i] / c[i]` has a positive denominator and is at most `m`. */
  predicate QuotientsAtMost(a: seq<real>, c: seq<real>, m: real)
    requires |a| == |c|
  {
    a == [] || (c[0] > 0.0 && a[0] / c[0] <= m && QuotientsAtMost(a[1..], c[1..], m))
  }

  lemma {:induction false} QuotientsAtMostAll(a: seq<real>, c: seq<real>, m: real)
    requires |a| == |c|
    requires forall i :: 0 <= i < |a| ==> c[i] > 0.0 && a[i] / c[i] <= m
    ensures QuotientsAtMost(a, c, m)
  {
    if a != [] {
      QuotientsAtMostAll(a[1..], c[1..], m);
    }
  }

  lemma QuotientUnit(a: real, n: real)
    requires 0.0 <= a <= n && n > 0.0
    ensures 0.0 <= a / n <= 1.0
  {
  }

  lemma QuotientTimes(q: real, a: real, n: real)
    requires n != 0.0 && q == a / n
    ensures q * n == a
  {
  }

  lemma QuotientOne(q: real, n: real)
    requires n > 0.0 && q * n == n
    ensures q == 1.0
  {
    assert (q - 1.0) * n == 0.0;
  }

  /** With `q * n == a` and `n > 0`, `q` is above or below 1 as `a` is above or below `n`. */
  lemma ProductCompare(q: real, n: real, a: real)
    requires n > 0.0 && q * n == a
    ensures q > 1.0 <==> a > n
    ensures q < 1.0 <==> a < n
  {
    assert a - n == (q - 1.0) * n;
  }

  lemma DivBound(a: real, n: real, m: real)
    requires n > 0.0 && a / n <= m
    ensures a <= m * n
  {
    assert a == (a / n) * n;
  }

  lemma QuotientBound(a: real, n: real, m: real)
    requires n > 0.0 && a <= m * n
    ensures a / n <= m
  {
    var q := a / n;
    assert q * n == a;
    assert (m - q) * n >= 0.0;
  }

  lemma AddBounds(m: real, a0: real, c0: real, a1: real, c1: real)
    requires a0 <= m * c0 && a1 <= m * c1
    ensures a0 + a1 <= m * (c0 + c1)
  {
  }

  /** Quotients all at most `m` give numerators summing to at most `m` times the denominators. */
  lemma {:induction false} ScaledSumBound(a: seq<real>, c: seq<real>, m: real)
    requires |a| == |c| && QuotientsAtMost(a, c, m)
    ensures Sum(a) <= m * Sum(c)
  {
    if a != [] {
      ScaledSumBound(a[1..], c[1..], m);
      DivBound(a[0], c[0], m);
      AddBounds(m, a[0], c[0], Sum(a[1..]), Sum(c[1..]));
    }
  }

  /** A weighted mean is at most the largest of the means it weighs: when
      every `a[i] / c[i]` is at most `m`, so is `Sum(a) / Sum(c)`. */
  lemma WeightedMeanBound(a: seq<real>, c: seq<real>, m: real)
    requires |a| == |c| && Sum(c) > 0.0
    requires forall i :: 0 <= i < |a| ==> c[i] > 0.0 && a[i] / c[i] <= m
    ensures Sum(a) / Sum(c) <= m
  {
    QuotientsAtMostAll(a, c, m);
    ScaledSumBound(a, c, m);
    QuotientBound(Sum(a), Sum(c), m);
  }
}
