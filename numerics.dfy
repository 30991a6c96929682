/**
 * Exact-real stand-ins for the floating-point column arithmetic of the
 * dashboard: missing values, division, and the pandas reductions that skip
 * missing values (`max`, `min`, `mean`, sample `std`).
 */
module Numerics {

  /** A cell that may be missing (pandas NaN / NaT). */
  datatype Option<+T> = None | Some(value: T)

  /** `now / before - 1`, undefined when the divisor is zero. */
  function RelativeChange(now: real, before: real): (r: Option<real>)
    ensures r.Some? <==> before != 0.0
    ensures r.Some? ==> before * (1.0 + r.value) == now
  {
    if before == 0.0 then None else Some(now / before - 1.0)
  }

  /** A positive value at or below a reference lies in `(-1, 0]` relative to it, `0` only when equal. */
  lemma FallFromPeak(now: real, peak: real)
    requires 0.0 < now <= peak
    ensures RelativeChange(now, peak).Some?
    ensures -1.0 < RelativeChange(now, peak).value <= 0.0
    ensures RelativeChange(now, peak).value == 0.0 <==> now == peak
  {
    var q := now / peak;
    assert q * peak == now;
    assert (1.0 - q) * peak == peak - now >= 0.0;
  }

  lemma CancelFactor(x: real, a: real, b: real, y: real)
    requires x != 0.0 && x * a == y && x * b == y
    ensures a == b
  {
    assert a == (x * a) / x;
    assert b == (x * b) / x;
  }

  /** Sum of a sequence, accumulated left to right. */
  function Sum(s: seq<real>): real
  {
    if s == [] then 0.0 else Sum(s[..|s| - 1]) + s[|s| - 1]
  }

  lemma {:induction false} SumConcat(a: seq<real>, b: seq<real>)
    ensures Sum(a + b) == Sum(a) + Sum(b)
    decreases |b|
  {
    if b == [] {
      assert a + b == a;
    } else {
      assert (a + b)[..|a + b| - 1] == a + b[..|b| - 1];
      SumConcat(a, b[..|b| - 1]);
    }
  }

  /** Every element of `s` lies in `[lo, hi]`, so the sum lies in `[|s|*lo, |s|*hi]`. */
  lemma {:induction false} SumBounds(s: seq<real>, lo: real, hi: real)
    requires forall i :: 0 <= i < |s| ==> lo <= s[i] <= hi
    ensures |s| as real * lo <= Sum(s) <= |s| as real * hi
    decreases |s|
  {
    if s != [] {
      SumBounds(s[..|s| - 1], lo, hi);
    }
  }

  /** Largest element of a non-empty sequence. */
  function Max(s: seq<real>): (m: real)
    requires |s| > 0
    ensures m in s
    ensures forall i :: 0 <= i < |s| ==> s[i] <= m
  {
    if |s| == 1 then s[0]
    else
      var m' := Max(s[..|s| - 1]);
      assert forall i :: 0 <= i < |s| - 1 ==> s[..|s| - 1][i] == s[i];
      if s[|s| - 1] > m' then s[|s| - 1] else m'
  }

  /** Smallest element of a non-empty sequence. */
  function Min(s: seq<real>): (m: real)
    requires |s| > 0
    ensures m in s
    ensures forall i :: 0 <= i < |s| ==> m <= s[i]
  {
    if |s| == 1 then s[0]
    else
      var m' := Min(s[..|s| - 1]);
      assert forall i :: 0 <= i < |s| - 1 ==> s[..|s| - 1][i] == s[i];
      if s[|s| - 1] < m' then s[|s| - 1] else m'
  }

  /** A total `t` of `n` values in `[lo, hi]` has its average in `[lo, hi]`. */
  lemma AverageBounds(t: real, n: real, lo: real, hi: real)
    requires n > 0.0
    requires n * lo <= t <= n * hi
    ensures lo <= t / n <= hi
  {
    var q := t / n;
    assert (q - lo) * n == t - n * lo >= 0.0;
    assert (hi - q) * n == n * hi - t >= 0.0;
  }

  /** Arithmetic mean of a non-empty sequence. */
  function Mean(s: seq<real>): real
    requires |s| > 0
  {
    Sum(s) / |s| as real
  }

  /** A mean of values in `[lo, hi]` lies in `[lo, hi]`. */
  lemma MeanWithin(s: seq<real>, lo: real, hi: real)
    requires |s| > 0
    requires forall i :: 0 <= i < |s| ==> lo <= s[i] <= hi
    ensures lo <= Mean(s) <= hi
  {
    SumBounds(s, lo, hi);
    AverageBounds(Sum(s), |s| as real, lo, hi);
  }

  /** The mean lies between the smallest and the largest element. */
  lemma MeanBounds(s: seq<real>)
    requires |s| > 0
    ensures Min(s) <= Mean(s) <= Max(s)
  {
    MeanWithin(s, Min(s), Max(s));
  }

  /** `m` is the average of `s`: `|s|` copies of it add up to the total of `s`. */
  predicate IsAverageOf(m: real, s: seq<real>)
  {
    |s| as real * m == Sum(s)
  }

  /** The mean times the number of values is the sum: the mean determines the total. */
  lemma MeanTimesCount(s: seq<real>)
    requires |s| > 0
    ensures IsAverageOf(Mean(s), s)
  {
    var n := |s| as real;
    assert n * (Sum(s) / n) == Sum(s);
  }

  /** The values present in a column, in order (what pandas' skipna reductions see). */
  function Present(s: seq<Option<real>>): (r: seq<real>)
    ensures |r| <= |s|
    ensures forall x :: x in r <==> Some(x) in s
    ensures forall i :: 0 <= i < |s| && s[i].Some? ==> s[i].value in r
  {
    if s == [] then []
    else
      var r' := Present(s[..|s| - 1]);
      assert s == s[..|s| - 1] + [s[|s| - 1]];
      r' + (if s[|s| - 1].Some? then [s[|s| - 1].value] else [])
  }

  /** Skipping missing cells works cell by cell: every present cell is kept, repeats included, in order. */
  lemma {:induction false} PresentConcat(a: seq<Option<real>>, b: seq<Option<real>>)
    ensures Present(a + b) == Present(a) + Present(b)
    decreases |b|
  {
    if b == [] {
      assert a + b == a;
    } else {
      assert (a + b)[..|a + b| - 1] == a + b[..|b| - 1];
      PresentConcat(a, b[..|b| - 1]);
    }
  }

  lemma {:induction false} PresentAll(s: seq<Option<real>>)
    requires forall i :: 0 <= i < |s| ==> s[i].Some?
    ensures |Present(s)| == |s|
    ensures forall i :: 0 <= i < |s| ==> Present(s)[i] == s[i].value
    decreases |s|
  {
    if s != [] {
      PresentAll(s[..|s| - 1]);
    }
  }

  lemma {:induction false} PresentMissing(s: seq<Option<real>>, k: nat)
    requires k < |s| && s[k].None?
    ensures |Present(s)| < |s|
    decreases |s|
  {
    if k < |s| - 1 {
      PresentMissing(s[..|s| - 1], k);
    }
  }

  /** `Series.max()` with skipna: undefined when no value is present. */
  function MaxPresent(s: seq<Option<real>>): (r: Option<real>)
    ensures r.None? <==> forall i :: 0 <= i < |s| ==> s[i].None?
    ensures r.Some? ==> Some(r.value) in s
    ensures r.Some? ==> forall i :: 0 <= i < |s| && s[i].Some? ==> s[i].value <= r.value
  {
    var p := Present(s);
    if p == [] then None else Some(Max(p))
  }

  /** `Series.min()` with skipna: undefined when no value is present. */
  function MinPresent(s: seq<Option<real>>): (r: Option<real>)
    ensures r.None? <==> forall i :: 0 <= i < |s| ==> s[i].None?
    ensures r.Some? ==> Some(r.value) in s
    ensures r.Some? ==> forall i :: 0 <= i < |s| && s[i].Some? ==> r.value <= s[i].value
  {
    var p := Present(s);
    if p == [] then None else Some(Min(p))
  }

  /** `Series.mean()` with skipna: undefined when no value is present. */
  function MeanPresent(s: seq<Option<real>>): (r: Option<real>)
    ensures r.None? <==> forall i :: 0 <= i < |s| ==> s[i].None?
    ensures r.Some? ==> MinPresent(s).Some? && MinPresent(s).value <= r.value
    ensures r.Some? ==> MaxPresent(s).Some? && r.value <= MaxPresent(s).value
    ensures r.Some? ==> IsAverageOf(r.value, Present(s))
  {
    var p := Present(s);
    if p == [] then
      None
    else
      assert MinPresent(s) == Some(Min(p)) && MaxPresent(s) == Some(Max(p));
      assert Min(p) <= Mean(p) <= Max(p) by {
        MeanBounds(p);
      }
      MeanTimesCount(p);
      Some(Mean(p))
  }

  /** Sum of squared deviations of `s` from `c`. */
  function SquaredDeviations(s: seq<real>, c: real): (r: real)
    ensures r >= 0.0
  {
    if s == [] then 0.0
    else
      var d := s[|s| - 1] - c;
      assert d * d >= 0.0 by {
        if d < 0.0 { assert d * d == (-d) * (-d); }
      }
      SquaredDeviations(s[..|s| - 1], c) + d * d
  }

  /** Sample variance (one delta degree of freedom), undefined below two values. */
  function SampleVariance(s: seq<real>): (r: Option<real>)
    ensures r.Some? <==> |s| >= 2
    ensures r.Some? ==> r.value >= 0.0
  {
    if |s| < 2 then None else Some(SquaredDeviations(s, Mean(s)) / (|s| - 1) as real)
  }
}
