/**
 * The header's summary statistics, each a reduction of a whole column of
 * the filtered table: last close, performance over the period, highest
 * high, average volume, annualised variance of returns, maximum drawdown.
 */
module Kpis {
  import opened Numerics
  import opened Loader
  import opened Features

  datatype KpiSet = KpiSet(
    lastClose: real,
    performance: Option<real>,
    maxHigh: Option<real>,
    averageVolume: Option<real>,
    annualVariance: Option<real>,
    maxDrawdown: Option<real>)

  function Highs(bars: seq<Bar>): seq<Option<real>>
  {
    seq(|bars|, i requires 0 <= i < |bars| => bars[i].high)
  }

  function Volumes(bars: seq<Bar>): seq<Option<real>>
  {
    seq(|bars|, i requires 0 <= i < |bars| => bars[i].volume)
  }

  /** `clot[-1] / clot[0] - 1`: the first close times `1 + performance` is the last close. */
  function Performance(c: seq<real>): (r: Option<real>)
    requires |c| > 0
    ensures r.Some? <==> c[0] != 0.0
    ensures r.Some? ==> c[0] * (1.0 + r.value) == c[|c| - 1]
  {
    RelativeChange(c[|c| - 1], c[0])
  }

  /** `haut.max()`: the highest high among the rows that have one. */
  function MaxHigh(bars: seq<Bar>): (r: Option<real>)
    ensures r.None? <==> forall i :: 0 <= i < |bars| ==> bars[i].high.None?
    ensures r.Some? ==> exists i :: 0 <= i < |bars| && bars[i].high == Some(r.value)
    ensures r.Some? ==> forall i :: 0 <= i < |bars| && bars[i].high.Some? ==> bars[i].high.value <= r.value
  {
    var highs := Highs(bars);
    assert forall i :: 0 <= i < |bars| ==> highs[i] == bars[i].high;
    var r := MaxPresent(highs);
    assert r.Some? ==> exists i :: 0 <= i < |bars| && bars[i].high == Some(r.value) by {
      if r.Some? {
        var i :| 0 <= i < |highs| && highs[i] == Some(r.value);
      }
    }
    r
  }

  /** `vol.mean()`: the mean of the volumes present, between the smallest and the largest of them. */
  function AverageVolume(bars: seq<Bar>): (r: Option<real>)
    ensures r.None? <==> forall i :: 0 <= i < |bars| ==> bars[i].volume.None?
    ensures r.Some? ==> exists i, j ::
      && 0 <= i < |bars| && 0 <= j < |bars| && bars[i].volume.Some? && bars[j].volume.Some?
      && bars[i].volume.value <= r.value <= bars[j].volume.value
    ensures r.Some? ==> IsAverageOf(r.value, Present(Volumes(bars)))
  {
    var volumes := Volumes(bars);
    assert forall i :: 0 <= i < |bars| ==> volumes[i] == bars[i].volume;
    var r := MeanPresent(volumes);
    if r.Some? then
      var lo', hi' := MinPresent(volumes).value, MaxPresent(volumes).value;
      var i :| 0 <= i < |volumes| && volumes[i] == Some(lo');
      var j :| 0 <= j < |volumes| && volumes[j] == Some(hi');
      r
    else
      r
  }

  /** `ret.std()` squared and annualised: defined from two present returns on, never negative. */
  function AnnualVariance(ret: seq<Option<real>>): (r: Option<real>)
    ensures r.Some? <==> |Present(ret)| >= 2
    ensures r.Some? ==> r.value >= 0.0
  {
    Annualised(SampleVariance(Present(ret)))
  }

  /** `dd.min()`: the deepest drawdown present. */
  function MaxDrawdown(dd: seq<Option<real>>): (r: Option<real>)
    ensures r.None? <==> forall i :: 0 <= i < |dd| ==> dd[i].None?
    ensures r.Some? ==> exists i :: 0 <= i < |dd| && dd[i] == Some(r.value)
    ensures r.Some? ==> forall i :: 0 <= i < |dd| && dd[i].Some? ==> r.value <= dd[i].value
  {
    var r := MinPresent(dd);
    assert r.Some? ==> exists i :: 0 <= i < |dd| && dd[i] == Some(r.value) by {
      if r.Some? {
        var i :| 0 <= i < |dd| && dd[i] == Some(r.value);
      }
    }
    r
  }

  /** The KPIs of a non-empty filtered table and its feature columns. */
  function Summarize(bars: seq<Bar>, t: FeatureTable): (k: KpiSet)
    requires |bars| > 0
    requires AlignedWith(t, |bars|)
    ensures k.lastClose == bars[|bars| - 1].close
  {
    var c := Closes(bars);
    KpiSet(c[|c| - 1], Performance(c), MaxHigh(bars), AverageVolume(bars), AnnualVariance(t.ret), MaxDrawdown(t.drawdown))
  }

  /**
   * With no zero close, the period performance is the compounded daily
   * returns: `1 + performance = (1 + r[1]) * ... * (1 + r[n-1])`.
   */
  lemma PerformanceCompoundsReturns(c: seq<real>)
    requires |c| > 0
    requires NoneZero(c)
    ensures Performance(c).Some?
    ensures 1.0 + Performance(c).value == Compound(Returns(c)[1..])
  {
    var n := |c|;
    var perf := Performance(c);
    ReturnsCompound(c, n - 1);
    assert Returns(c)[1..] == Returns(c)[1..n];
    var g := Compound(Returns(c)[1..]);
    var x, a, last := c[0], 1.0 + perf.value, c[n - 1];
    assert x * g == last;
    assert x * a == last;
    CancelFactor(x, a, g, last);
  }

  /**
   * With positive closes the maximum drawdown is defined, lies in `(-1, 0]`,
   * and is zero exactly when the closes never fall during the period.
   */
  lemma MaxDrawdownBounds(c: seq<real>)
    requires |c| > 0
    requires AllPositive(c)
    ensures MaxDrawdown(Drawdown(c, RunningMax(c))).Some?
    ensures -1.0 < MaxDrawdown(Drawdown(c, RunningMax(c))).value <= 0.0
    ensures MaxDrawdown(Drawdown(c, RunningMax(c))).value == 0.0 <==>
            forall i, j :: 0 <= i <= j < |c| ==> c[i] <= c[j]
  {
    var p := RunningMax(c);
    var dd := Drawdown(c, p);
    var m := MaxDrawdown(dd);
    assert m.Some? by {
      DrawdownBounds(c, 0);
    }
    var k :| 0 <= k < |dd| && dd[k] == Some(m.value);
    assert m.value > -1.0 by {
      DrawdownBounds(c, k);
    }
    assert m.value <= 0.0 by {
      DrawdownBounds(c, 0);
      assert p[0] == c[0] by {
        var j := RunningMaxAttained(c, 0);
      }
    }
    var rising := forall i, j :: 0 <= i <= j < |c| ==> c[i] <= c[j];
    AtPeakIffRising(c);
    if m.value == 0.0 {
      forall i | 0 <= i < |c| ensures c[i] == p[i] {
        DrawdownBounds(c, i);
      }
    }
    if rising {
      DrawdownBounds(c, k);
    }
  }

  /** Closes 100, 90, 80, 70: the peak stays at 100 and the deepest drawdown is the last row's -30%. */
  lemma FallingCloses()
    ensures MaxDrawdown(Drawdown([100.0, 90.0, 80.0, 70.0], RunningMax([100.0, 90.0, 80.0, 70.0]))) == Some(-0.3)
  {
    var c := [100.0, 90.0, 80.0, 70.0];
    var p := RunningMax(c);
    assert forall i :: 0 <= i < 4 ==> p[i] == 100.0 by {
      forall i | 0 <= i < 4 ensures p[i] == 100.0 {
        FallingPeak(c, i);
      }
    }
    var dd := Drawdown(c, p);
    assert dd == [Some(0.0), Some(-0.1), Some(-0.2), Some(-0.3)] by {
      assert dd[1] == RelativeChange(90.0, 100.0);
      assert dd[2] == RelativeChange(80.0, 100.0);
      assert dd[3] == RelativeChange(70.0, 100.0);
    }
    DeepestOfFour(dd);
  }

  /** When the closes never rise, the running peak is the first close throughout. */
  lemma FallingPeak(c: seq<real>, i: nat)
    requires forall a, b :: 0 <= a <= b < |c| ==> c[b] <= c[a]
    requires i < |c|
    ensures RunningMax(c)[i] == c[0]
  {
    var j := RunningMaxAttained(c, i);
    RunningMaxMonotone(c, 0, i);
    var j0 := RunningMaxAttained(c, 0);
  }

  lemma DeepestOfFour(dd: seq<Option<real>>)
    requires dd == [Some(0.0), Some(-0.1), Some(-0.2), Some(-0.3)]
    ensures MaxDrawdown(dd) == Some(-0.3)
  {
    var m := MaxDrawdown(dd);
    assert m.value <= -0.3;
    var k :| 0 <= k < 4 && dd[k] == Some(m.value);
  }
}
