/**
 * One render of the dashboard: clean the loaded table, apply the sidebar's
 * date range, stop when fewer than 15 rows remain, otherwise derive the
 * feature columns, the KPIs and the regime bands of the price chart.
 */
module Dashboard {
  import opened Loader
  import opened DateWindow
  import opened Features
  import opened Kpis
  import opened Regimes

  /** The sidebar inputs: inclusive day-number bounds and the three window lengths in rows. */
  datatype Params = Params(start: int, end: int, fast: nat, slow: nat, volWindow: nat)

  /** Everything the charts and the KPI header consume. */
  datatype Report = Report(
    data: seq<Bar>,
    features: FeatureTable,
    kpis: KpiSet,
    spans: seq<Span>,
    bands: seq<Band>)

  function Dates(bars: seq<Bar>): (d: seq<Timestamp>)
    ensures |d| == |bars|
  {
    seq(|bars|, i requires 0 <= i < |bars| => bars[i].date)
  }

  method Render(rows: seq<RawRow>, p: Params) returns (out: Result<Report>)
    requires p.fast >= 1 && p.slow >= 1 && p.volWindow >= 1
    ensures out.Failure? <==> |Restrict(Clean(rows), p.start, p.end)| < MinRows as int
    ensures out.Failure? ==> out.error == InsufficientData
    ensures out.Success? ==>
      var r := out.value;
      && r.data == Restrict(Clean(rows), p.start, p.end)
      && |r.data| >= MinRows as int
      && SortedByDate(r.data)
      && r.features == ComputeFeatures(r.data, p.fast, p.slow, p.volWindow)
      && AlignedWith(r.features, |r.data|)
      && r.kpis == Summarize(r.data, r.features)
      && Shading(Dates(r.data), r.features.regime, r.spans, r.bands)
  {
    var table := Clean(rows);
    var window := SelectWindow(table, p.start, p.end);
    if window.Failure? {
      return Failure(window.error);
    }
    var data := window.value;
    RestrictSorted(table, p.start, p.end);
    var features := ComputeFeatures(data, p.fast, p.slow, p.volWindow);
    var kpis := Summarize(data, features);
    var spans, bands := Segment(Dates(data), features.regime);
    return Success(Report(data, features, kpis, spans, bands));
  }
}
