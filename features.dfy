/**
 * The per-row feature columns added to the filtered table: simple return,
 * the two trailing moving averages, running peak, drawdown, rolling
 * (annualised) variance of returns and the 0/1 trend regime.
 */
module Features {
  import opened Numerics
  import opened Loader

  /** Trading days per year, the annualisation factor of the volatility columns. */
  const TradingDays: real := 252.0

  function Closes(bars: seq<Bar>): seq<real>
  {
    seq(|bars|, i requires 0 <= i < |bars| => bars[i].close)
  }

  predicate AllPositive(c: seq<real>)
  {
    forall i :: 0 <= i < |c| ==> c[i] > 0.0
  }

  predicate NoneZero(c: seq<real>)
  {
    forall i :: 0 <= i < |c| ==> c[i] != 0.0
  }

  // ---------------------------------------------------------------- returns

  /** `pct_change()`: the first row has no return. */
  function Returns(c: seq<real>): (r: seq<Option<real>>)
    ensures |r| == |c|
    ensures |c| > 0 ==> r[0].None?
    ensures forall i :: 0 < i < |c| ==> (r[i].Some? <==> c[i - 1] != 0.0)
  {
    seq(|c|, i requires 0 <= i < |c| => if i == 0 then None else RelativeChange(c[i], c[i - 1]))
  }

  /** Growth factor `(1 + r[0]) * ... * (1 + r[n-1])` of the present returns. */
  function Compound(rs: seq<Option<real>>): real
  {
    if rs == [] then 1.0
    else
      var last := rs[|rs| - 1];
      Compound(rs[..|rs| - 1]) * (if last.Some? then 1.0 + last.value else 1.0)
  }

  /**
   * With no zero close, the returns compound back to the closes: `c[k] = c[0] * (1 + r[1]) * ... * (1 + r[k])`.
   */
  lemma {:induction false} ReturnsCompound(c: seq<real>, k: nat)
    requires NoneZero(c)
    requires k < |c|
    ensures c[k] == c[0] * Compound(Returns(c)[1..k + 1])
    decreases k
  {
    if k == 0 {
      assert Returns(c)[1..1] == [];
    } else {
      ReturnsCompound(c, k - 1);
      CompoundOneMore(c, k);
    }
  }

  /** If the closes up to `k - 1` compound from `c[0]`, so does the close at `k`. */
  lemma CompoundOneMore(c: seq<real>, k: nat)
    requires NoneZero(c)
    requires 0 < k < |c|
    requires c[k - 1] == c[0] * Compound(Returns(c)[1..k])
    ensures c[k] == c[0] * Compound(Returns(c)[1..k + 1])
  {
    var r := Returns(c);
    ReturnStep(c, k);
    CompoundStep(r, k);
    Rescale(c[k], c[k - 1], c[0], Compound(r[1..k]), 1.0 + r[k].value, Compound(r[1..k + 1]));
  }

  /** A return after a non-zero close is defined and scales that close to the next one. */
  lemma ReturnStep(c: seq<real>, i: nat)
    requires 0 < i < |c| && c[i - 1] != 0.0
    ensures Returns(c)[i].Some?
    ensures c[i] == c[i - 1] * (1.0 + Returns(c)[i].value)
  {
    assert Returns(c)[i] == RelativeChange(c[i], c[i - 1]);
  }

  /** Extending the compounded range by one present return multiplies in its growth factor. */
  lemma CompoundStep(r: seq<Option<real>>, k: nat)
    requires 1 <= k < |r| && r[k].Some?
    ensures Compound(r[1..k + 1]) == Compound(r[1..k]) * (1.0 + r[k].value)
  {
    assert r[1..k + 1][..k - 1] == r[1..k];
    assert r[1..k + 1][k - 1] == r[k];
  }

  /** `now = before * g` and `before = first * p` give `now = first * (p * g)`. */
  lemma Rescale(now: real, before: real, first: real, p: real, g: real, q: real)
    requires now == before * g && before == first * p && q == p * g
    ensures now == first * q
  {
    assert (first * p) * g == first * (p * g);
  }

  // -------------------------------------------------------- moving averages

  /** `rolling(w).mean()`: the mean of the last `w` closes, undefined until `w` rows exist. */
  function MovingAverage(c: seq<real>, w: nat): (m: seq<Option<real>>)
    requires w >= 1
    ensures |m| == |c|
    ensures forall i :: 0 <= i < |c| ==> (m[i].Some? <==> i >= w - 1)
  {
    seq(|c|, i requires 0 <= i < |c| => if i + 1 < w then None else Some(Mean(c[i + 1 - w..i + 1])))
  }

  /** A defined moving average is the average of its window: `w` times it is the window's total. */
  lemma MovingAverageIsMean(c: seq<real>, w: nat, i: nat)
    requires w >= 1
    requires w - 1 <= i < |c|
    ensures MovingAverage(c, w)[i].Some?
    ensures IsAverageOf(MovingAverage(c, w)[i].value, c[i + 1 - w..i + 1])
  {
    assert MovingAverage(c, w)[i].value == Mean(c[i + 1 - w..i + 1]);
    MeanTimesCount(c[i + 1 - w..i + 1]);
  }

  lemma DivideSum(a: real, b: real, n: real)
    requires n != 0.0
    ensures (a + b) / n == a / n + b / n
  {
  }

  /** A defined moving average lies between the smallest and the largest close of its window. */
  lemma MovingAverageWithinWindow(c: seq<real>, w: nat, i: nat)
    requires w >= 1
    requires w - 1 <= i < |c|
    ensures MovingAverage(c, w)[i].Some?
    ensures Min(c[i + 1 - w..i + 1]) <= MovingAverage(c, w)[i].value <= Max(c[i + 1 - w..i + 1])
  {
    assert MovingAverage(c, w)[i].value == Mean(c[i + 1 - w..i + 1]);
    MeanBounds(c[i + 1 - w..i + 1]);
  }

  /**
   * The rolling-sum recurrence: moving the window one row forward adds the
   * entering close and drops the leaving one, each weighted by `1/w`.
   */
  lemma MovingAverageSlide(c: seq<real>, w: nat, i: nat)
    requires w >= 1
    requires w - 1 <= i && i + 1 < |c|
    ensures MovingAverage(c, w)[i + 1].value == MovingAverage(c, w)[i].value + (c[i + 1] - c[i + 1 - w]) / w as real
  {
    var m := MovingAverage(c, w);
    var n := w as real;
    var before, after := c[i + 1 - w..i + 1], c[i + 2 - w..i + 2];
    var left, right := c[i + 1 - w], c[i + 1];
    assert Sum(after) == Sum(before) + (right - left) by {
      var mid := c[i + 2 - w..i + 1];
      assert before == [left] + mid;
      assert after == mid + [right];
      SumConcat([left], mid);
      SumConcat(mid, [right]);
      assert Sum([left]) == left by { assert [left][..0] == []; }
      assert Sum([right]) == right by { assert [right][..0] == []; }
    }
    assert m[i].value == Sum(before) / n;
    assert m[i + 1].value == Sum(after) / n;
    DivideSum(Sum(before), right - left, n);
  }

  // ------------------------------------------------------- peak, drawdown

  /** `cummax()`: each row holds the larger of the previous peak and its own close. */
  function RunningMax(c: seq<real>): (p: seq<real>)
    ensures |p| == |c|
    ensures forall i :: 0 <= i < |c| ==> c[i] <= p[i]
    ensures forall i :: 0 < i < |c| ==> p[i - 1] <= p[i]
  {
    if c == [] then []
    else
      var init := c[..|c| - 1];
      var q := RunningMax(init);
      var x := c[|c| - 1];
      var top := if q == [] || x > q[|q| - 1] then x else q[|q| - 1];
      assert forall i :: 0 <= i < |init| ==> c[i] == init[i];
      q + [top]
  }

  /** The running peak never decreases. */
  lemma {:induction false} RunningMaxMonotone(c: seq<real>, i: nat, j: nat)
    requires i <= j < |c|
    ensures RunningMax(c)[i] <= RunningMax(c)[j]
    decreases j - i
  {
    if i < j {
      RunningMaxMonotone(c, i, j - 1);
    }
  }

  /** The running peak at row `i` is the close of some row at or before `i`. */
  lemma {:induction false} RunningMaxAttained(c: seq<real>, i: nat) returns (j: nat)
    requires i < |c|
    ensures j <= i && RunningMax(c)[i] == c[j]
    decreases |c|
  {
    var init := c[..|c| - 1];
    var q := RunningMax(init);
    assert RunningMax(c) == q + [RunningMax(c)[|c| - 1]];
    if i < |c| - 1 {
      j := RunningMaxAttained(init, i);
    } else if q == [] || c[i] > q[|q| - 1] {
      j := i;
    } else {
      j := RunningMaxAttained(init, i - 1);
    }
  }

  /** The running peak at row `i` is the maximum of the closes up to and including row `i`. */
  lemma RunningMaxIsPrefixMax(c: seq<real>, i: nat)
    requires i < |c|
    ensures RunningMax(c)[i] == Max(c[..i + 1])
  {
    var p := RunningMax(c);
    var pre := c[..i + 1];
    var m := Max(pre);
    assert p[i] <= m by {
      var j := RunningMaxAttained(c, i);
      assert pre[j] == c[j];
    }
    var k :| 0 <= k < |pre| && pre[k] == m;
    assert m <= p[i] by {
      RunningMaxMonotone(c, k, i);
      assert c[k] <= p[k];
    }
  }

  /** `close / peak - 1`, row by row. */
  function Drawdown(c: seq<real>, p: seq<real>): (d: seq<Option<real>>)
    requires |p| == |c|
    ensures |d| == |c|
    ensures forall i :: 0 <= i < |c| ==> (d[i].Some? <==> p[i] != 0.0)
  {
    seq(|c|, i requires 0 <= i < |c| => RelativeChange(c[i], p[i]))
  }

  /**
   * With positive closes the drawdown is defined on every row, lies in
   * `(-1, 0]`, and is zero exactly on the rows whose close is the running peak.
   */
  lemma DrawdownBounds(c: seq<real>, i: nat)
    requires AllPositive(c)
    requires i < |c|
    ensures Drawdown(c, RunningMax(c))[i].Some?
    ensures -1.0 < Drawdown(c, RunningMax(c))[i].value <= 0.0
    ensures Drawdown(c, RunningMax(c))[i].value == 0.0 <==> c[i] == RunningMax(c)[i]
  {
    var p := RunningMax(c);
    assert 0.0 < c[i] <= p[i];
    FallFromPeak(c[i], p[i]);
  }

  /** The running peak equals the close on every row exactly when the closes never fall. */
  lemma AtPeakIffRising(c: seq<real>)
    ensures (forall i :: 0 <= i < |c| ==> c[i] == RunningMax(c)[i]) <==>
            (forall i, j :: 0 <= i <= j < |c| ==> c[i] <= c[j])
  {
    var p := RunningMax(c);
    if forall i, j :: 0 <= i <= j < |c| ==> c[i] <= c[j] {
      forall i | 0 <= i < |c| ensures c[i] == p[i] {
        var j := RunningMaxAttained(c, i);
      }
    }
  }

  // ------------------------------------------------------------ volatility

  /** `252 * v` when the variance is defined. */
  function Annualised(v: Option<real>): (r: Option<real>)
    ensures r.Some? <==> v.Some?
    ensures r.Some? ==> (r.value >= 0.0 <==> v.value >= 0.0)
  {
    if v.Some? then Some(TradingDays * v.value) else None
  }

  /**
   * `ret.rolling(v).std()` squared and annualised: the sample variance of the
   * last `v` returns times 252, defined only when all `v` of them are present.
   */
  function RollingVariance(ret: seq<Option<real>>, v: nat): (r: seq<Option<real>>)
    requires v >= 1
    ensures |r| == |ret|
    ensures forall i :: 0 <= i < |ret| && r[i].Some? ==> r[i].value >= 0.0
  {
    seq(|ret|, i requires 0 <= i < |ret| =>
      if i + 1 < v then None
      else
        var present := Present(ret[i + 1 - v..i + 1]);
        if |present| < v then None else Annualised(SampleVariance(present)))
  }

  /**
   * With no zero close and a window of at least two rows, the rolling
   * variance of the returns is defined exactly from row `v` on: the first
   * window that does not reach back to the undefined first return.
   */
  lemma RollingVarianceDefined(c: seq<real>, v: nat, i: nat)
    requires NoneZero(c)
    requires v >= 2
    requires i < |c|
    ensures RollingVariance(Returns(c), v)[i].Some? <==> i >= v
  {
    var ret := Returns(c);
    if i + 1 >= v {
      var win := ret[i + 1 - v..i + 1];
      var present := Present(win);
      assert RollingVariance(ret, v)[i] == if |present| < v then None else Annualised(SampleVariance(present));
      if i >= v {
        forall k | 0 <= k < |win| ensures win[k].Some? {
          assert win[k] == ret[i + 1 - v + k];
        }
        PresentAll(win);
        assert |present| == v;
      } else {
        assert win[0] == ret[0];
        PresentMissing(win, 0);
        assert |present| < v;
      }
    }
  }

  // ---------------------------------------------------------------- regime

  /** `(maF > maS).astype(int)`: a comparison with an undefined average is false, so 0. */
  function Regime(fast: seq<Option<real>>, slow: seq<Option<real>>): (g: seq<int>)
    requires |fast| == |slow|
    ensures |g| == |fast|
    ensures forall i :: 0 <= i < |g| ==> g[i] == 0 || g[i] == 1
  {
    seq(|fast|, i requires 0 <= i < |fast| =>
      if fast[i].Some? && slow[i].Some? && fast[i].value > slow[i].value then 1 else 0)
  }

  /**
   * The regime is 1 exactly when both averages are defined and the fast one
   * is above the slow one; before both windows have filled it is 0.
   */
  lemma RegimeOfAverages(c: seq<real>, fast: nat, slow: nat, i: nat)
    requires fast >= 1 && slow >= 1
    requires i < |c|
    ensures Regime(MovingAverage(c, fast), MovingAverage(c, slow))[i] == 1 <==>
            i + 1 >= fast && i + 1 >= slow && Mean(c[i + 1 - fast..i + 1]) > Mean(c[i + 1 - slow..i + 1])
    ensures i + 1 < fast || i + 1 < slow ==> Regime(MovingAverage(c, fast), MovingAverage(c, slow))[i] == 0
  {
    var f, s := MovingAverage(c, fast), MovingAverage(c, slow);
    assert f[i].Some? <==> i + 1 >= fast;
    assert s[i].Some? <==> i + 1 >= slow;
    if i + 1 >= fast && i + 1 >= slow {
      assert f[i].value == Mean(c[i + 1 - fast..i + 1]);
      assert s[i].value == Mean(c[i + 1 - slow..i + 1]);
    }
  }

  // ------------------------------------------------------------ the table

  /** The derived columns, aligned row for row with the filtered table. */
  datatype FeatureTable = FeatureTable(
    ret: seq<Option<real>>,
    maFast: seq<Option<real>>,
    maSlow: seq<Option<real>>,
    peak: seq<real>,
    drawdown: seq<Option<real>>,
    volatility: seq<Option<real>>,
    regime: seq<int>)

  predicate AlignedWith(t: FeatureTable, n: nat)
  {
    && |t.ret| == n && |t.maFast| == n && |t.maSlow| == n && |t.peak| == n
    && |t.drawdown| == n && |t.volatility| == n && |t.regime| == n
  }

  /** All feature columns of the filtered table for the chosen windows. */
  function ComputeFeatures(bars: seq<Bar>, fast: nat, slow: nat, volWindow: nat): (t: FeatureTable)
    requires fast >= 1 && slow >= 1 && volWindow >= 1
    ensures AlignedWith(t, |bars|)
    ensures forall i :: 0 <= i < |bars| ==> bars[i].close <= t.peak[i]
    ensures forall i :: 0 <= i < |bars| ==> t.regime[i] == 0 || t.regime[i] == 1
  {
    var c := Closes(bars);
    var ret := Returns(c);
    var maF := MovingAverage(c, fast);
    var maS := MovingAverage(c, slow);
    var peak := RunningMax(c);
    FeatureTable(ret, maF, maS, peak, Drawdown(c, peak), RollingVariance(ret, volWindow), Regime(maF, maS))
  }
}
