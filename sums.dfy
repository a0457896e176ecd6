/** Sums over sequences of integers and of reals: lodash `sum` and
    BigNumber.sum, both exact here. */
module Sums {

  function Sum(s: seq<int>): int
  {
    if s == [] then 0 else s[0] + Sum(s[1..])
  }

  function SumR(s: seq<real>): real
  {
    if s == [] then 0.0 else s[0] + SumR(s[1..])
  }

  lemma {:induction false} SumAppend(a: seq<int>, b: seq<int>)
    ensures Sum(a + b) == Sum(a) + Sum(b)
  {
    if a == [] {
      assert a + b == b;
    } else {
      assert (a + b)[1..] == a[1..] + b;
      SumAppend(a[1..], b);
    }
  }

  /** Summing a pointwise sum of two sequences. */
  lemma {:induction false} SumPointwiseAdd(a: seq<int>, b: seq<int>, c: seq<int>)
    requires |a| == |b| == |c|
    requires forall j :: 0 <= j < |c| ==> c[j] == a[j] + b[j]
    ensures Sum(c) == Sum(a) + Sum(b)
  {
    if c != [] {
      SumPointwiseAdd(a[1..], b[1..], c[1..]);
    }
  }

  /** Summing a pointwise difference of two sequences. */
  lemma {:induction false} SumPointwiseSub(a: seq<int>, b: seq<int>, c: seq<int>)
    requires |a| == |b| == |c|
    requires forall j :: 0 <= j < |c| ==> c[j] == a[j] - b[j]
    ensures Sum(c) == Sum(a) - Sum(b)
  {
    if c != [] {
      SumPointwiseSub(a[1..], b[1..], c[1..]);
    }
  }

  /** Replacing one element changes the sum by the difference. */
  lemma {:induction false} SumUpdate(s: seq<int>, k: nat, x: int)
    requires k < |s|
    ensures Sum(s[k := x]) == Sum(s) - s[k] + x
  {
    if k == 0 {
      assert s[k := x][1..] == s[1..];
    } else {
      assert s[k := x][1..] == s[1..][k - 1 := x];
      SumUpdate(s[1..], k - 1, x);
    }
  }

  lemma {:induction false} SumMonotone(a: seq<int>, b: seq<int>)
    requires |a| == |b|
    requires forall j :: 0 <= j < |a| ==> a[j] <= b[j]
    ensures Sum(a) <= Sum(b)
  {
    if a != [] {
      SumMonotone(a[1..], b[1..]);
    }
  }

  lemma {:induction false} SumNonnegative(s: seq<int>)
    requires forall j :: 0 <= j < |s| ==> s[j] >= 0
    ensures Sum(s) >= 0
  {
    if s != [] {
      SumNonnegative(s[1..]);
    }
  }

  /** A sum of non-negative terms bounds each of its terms. */
  lemma SumBoundsTerm(s: seq<int>, k: nat)
    requires k < |s|
    requires forall j :: 0 <= j < |s| ==> s[j] >= 0
    ensures s[k] <= Sum(s)
  {
    SumUpdate(s, k, 0);
    SumNonnegative(s[k := 0]);
  }

  /** Summing quotients with a common denominator. */
  lemma {:induction false} SumRQuotients(a: seq<int>, c: seq<real>, d: real)
    requires |a| == |c| && d != 0.0
    requires forall j :: 0 <= j < |c| ==> c[j] == a[j] as real / d
    ensures SumR(c) == Sum(a) as real / d
  {
    if c != [] {
      SumRQuotients(a[1..], c[1..], d);
      assert a[0] as real / d + Sum(a[1..]) as real / d == (a[0] + Sum(a[1..])) as real / d;
    }
  }

  /** `c` is `a` minus `b`, pointwise. */
  predicate IsDifference(c: seq<real>, a: seq<real>, b: seq<real>)
  {
    |a| == |b| == |c| && forall j :: 0 <= j < |c| ==> c[j] == a[j] - b[j]
  }

  /** `a` minus `b`, pointwise. */
  function Difference(a: seq<real>, b: seq<real>): (r: seq<real>)
    requires |a| == |b|
    ensures IsDifference(r, a, b)
  {
    seq(|a|, i requires 0 <= i < |a| => a[i] - b[i])
  }

  /** `c` is `a` times `m`, pointwise. */
  predicate IsScaled(c: seq<real>, a: seq<real>, m: real)
  {
    |a| == |c| && forall j :: 0 <= j < |c| ==> c[j] == a[j] * m
  }

  /** `a` times `m`, pointwise. */
  function Scale(a: seq<real>, m: real): (r: seq<real>)
    ensures IsScaled(r, a, m)
  {
    seq(|a|, i requires 0 <= i < |a| => a[i] * m)
  }

  /** Summing a pointwise difference of two sequences of reals. */
  lemma {:induction false} SumRDifference(a: seq<real>, b: seq<real>, c: seq<real>)
    requires IsDifference(c, a, b)
    ensures SumR(c) == SumR(a) - SumR(b)
  {
    if c != [] {
      SumRDifference(a[1..], b[1..], c[1..]);
    }
  }

  /** Summing a pointwise scaled sequence. */
  lemma {:induction false} SumRScaled(a: seq<real>, c: seq<real>, m: real)
    requires IsScaled(c, a, m)
    ensures SumR(c) == SumR(a) * m
  {
    if c != [] {
      SumRScaled(a[1..], c[1..], m);
      assert a[0] * m + SumR(a[1..]) * m == (a[0] + SumR(a[1..])) * m;
    }
  }
}
