/**
 * Regime shading of the price chart: one left-to-right scan over the 0/1
 * regime column opens a band at the first row and at every row whose regime
 * differs from the previous one, and emits one shaded rectangle per band,
 * green when the band's regime is 1 and red otherwise.
 */
module Regimes {
  import opened Loader

  /** The two fill colours of `add_vrect`: green for regime 1, red otherwise. */
  datatype Fill = Green | Red

  /** A closed range of row positions `[first, last]`. */
  datatype Span = Span(first: nat, last: nat)

  /** One shaded rectangle: from the date of its first row to the date of its last row. */
  datatype Band = Band(x0: Timestamp, x1: Timestamp, fill: Fill)

  function FillFor(regime: int): (f: Fill)
    ensures f == Green <==> regime == 1
  {
    if regime == 1 then Green else Red
  }

  /** `spans` lists non-empty ranges that tile `[0, m)` left to right without gaps or overlaps. */
  predicate Tiles(spans: seq<Span>, m: nat)
  {
    && (|spans| == 0 <==> m == 0)
    && (forall k :: 0 <= k < |spans| ==> spans[k].first <= spans[k].last < m)
    && (|spans| > 0 ==> spans[0].first == 0 && spans[|spans| - 1].last == m - 1)
    && (forall k :: 0 < k < |spans| ==> spans[k].first == spans[k - 1].last + 1)
  }

  /** The tiles of `[0, m)` are maximal runs of equal regime. */
  predicate Runs(reg: seq<int>, spans: seq<Span>, m: nat)
  {
    && m <= |reg|
    && Tiles(spans, m)
    && (forall k, j :: 0 <= k < |spans| && spans[k].first <= j <= spans[k].last ==> reg[j] == reg[spans[k].last])
    && (forall k :: 0 < k < |spans| ==> reg[spans[k].first] != reg[spans[k - 1].last])
  }

  /** The rectangles drawn for `spans`: dates of the end rows, colour of the band's last row. */
  predicate Drawn(dates: seq<Timestamp>, reg: seq<int>, spans: seq<Span>, bands: seq<Band>)
    requires |dates| == |reg|
    requires forall k :: 0 <= k < |spans| ==> spans[k].first <= spans[k].last < |reg|
  {
    && |bands| == |spans|
    && forall k :: 0 <= k < |spans| ==>
         bands[k] == Band(dates[spans[k].first], dates[spans[k].last], FillFor(reg[spans[k].last]))
  }

  /**
   * Every row of a band has the band's colour (green iff its regime is 1),
   * and with a 0/1 column neighbouring bands alternate colour.
   */
  predicate Coloured(reg: seq<int>, spans: seq<Span>, bands: seq<Band>)
    requires |bands| == |spans|
    requires forall k :: 0 <= k < |spans| ==> spans[k].last < |reg|
  {
    && (forall k, j :: 0 <= k < |spans| && spans[k].first <= j <= spans[k].last ==>
          (bands[k].fill == Green <==> reg[j] == 1))
    && ((forall i :: 0 <= i < |reg| ==> reg[i] == 0 || reg[i] == 1) ==>
          forall k :: 0 < k < |bands| ==> bands[k].fill != bands[k - 1].fill)
  }

  /** The bands shade the rows of `reg` as its maximal runs, with their dates and colours. */
  predicate Shading(dates: seq<Timestamp>, reg: seq<int>, spans: seq<Span>, bands: seq<Band>)
  {
    && |dates| == |reg|
    && Runs(reg, spans, |reg|)
    && Drawn(dates, reg, spans, bands)
    && Coloured(reg, spans, bands)
  }

  /**
   * The shading loop: `s` is the first row of the open band; when the regime
   * changes at row `i`, the band `[s, i-1]` is drawn and a new one opens at
   * `i`; after the loop the open band is closed at the last row.
   */
  method Segment(dates: seq<Timestamp>, reg: seq<int>) returns (spans: seq<Span>, bands: seq<Band>)
    requires |dates| == |reg| && |reg| > 0
    ensures Shading(dates, reg, spans, bands)
  {
    spans, bands := [], [];
    var s := 0;
    for i := 1 to |reg|
      invariant s < i
      invariant Runs(reg, spans, s)
      invariant Drawn(dates, reg, spans, bands)
      invariant forall j :: s <= j < i ==> reg[j] == reg[s]
      invariant s > 0 ==> reg[s] != reg[s - 1]
    {
      if reg[i] != reg[i - 1] {
        RunsExtend(reg, spans, s, i);
        DrawnExtend(dates, reg, spans, bands, Span(s, i - 1));
        spans := spans + [Span(s, i - 1)];
        bands := bands + [Band(dates[s], dates[i - 1], FillFor(reg[i - 1]))];
        s := i;
      }
    }
    RunsExtend(reg, spans, s, |reg|);
    DrawnExtend(dates, reg, spans, bands, Span(s, |reg| - 1));
    spans := spans + [Span(s, |reg| - 1)];
    bands := bands + [Band(dates[s], dates[|reg| - 1], FillFor(reg[|reg| - 1]))];
    BandColours(dates, reg, spans, bands);
  }

  lemma BandColours(dates: seq<Timestamp>, reg: seq<int>, spans: seq<Span>, bands: seq<Band>)
    requires |dates| == |reg|
    requires Runs(reg, spans, |reg|)
    requires Drawn(dates, reg, spans, bands)
    ensures Coloured(reg, spans, bands)
  {
    if forall i :: 0 <= i < |reg| ==> reg[i] == 0 || reg[i] == 1 {
      forall k | 0 < k < |bands| ensures bands[k].fill != bands[k - 1].fill {
        assert reg[spans[k].first] == reg[spans[k].last];
      }
    }
  }

  /** Closing the open band `[s, i-1]` extends the maximal runs of `[0, s)` to `[0, i)`. */
  lemma RunsExtend(reg: seq<int>, spans: seq<Span>, s: nat, i: nat)
    requires Runs(reg, spans, s)
    requires s < i <= |reg|
    requires forall j :: s <= j < i ==> reg[j] == reg[s]
    requires s > 0 ==> reg[s] != reg[s - 1]
    ensures Runs(reg, spans + [Span(s, i - 1)], i)
  {
    var spans' := spans + [Span(s, i - 1)];
    assert forall k :: 0 <= k < |spans| ==> spans'[k] == spans[k];
    assert Tiles(spans', i);
    forall k, j | 0 <= k < |spans'| && spans'[k].first <= j <= spans'[k].last
      ensures reg[j] == reg[spans'[k].last]
    {
      if k < |spans| {
        assert spans[k].first <= j <= spans[k].last;
      }
    }
  }

  lemma DrawnExtend(dates: seq<Timestamp>, reg: seq<int>, spans: seq<Span>, bands: seq<Band>, sp: Span)
    requires |dates| == |reg|
    requires forall k :: 0 <= k < |spans| ==> spans[k].first <= spans[k].last < |reg|
    requires sp.first <= sp.last < |reg|
    requires Drawn(dates, reg, spans, bands)
    ensures Drawn(dates, reg, spans + [sp], bands + [Band(dates[sp.first], dates[sp.last], FillFor(reg[sp.last]))])
  {
    var spans', bands' := spans + [sp], bands + [Band(dates[sp.first], dates[sp.last], FillFor(reg[sp.last]))];
    assert forall k :: 0 <= k < |spans| ==> spans'[k] == spans[k] && bands'[k] == bands[k];
  }

  /** In a tiling, an earlier span ends before a later one starts. */
  lemma {:induction false} TilesOrdered(spans: seq<Span>, m: nat, k1: nat, k2: nat)
    requires Tiles(spans, m)
    requires k1 < k2 < |spans|
    ensures spans[k1].last < spans[k2].first
    decreases k2 - k1
  {
    if k1 + 1 < k2 {
      TilesOrdered(spans, m, k1, k2 - 1);
    }
  }

  /** Every row of `[0, m)` lies in exactly one span of a tiling. */
  lemma {:induction false} TilesCover(spans: seq<Span>, m: nat, j: nat) returns (k: nat)
    requires Tiles(spans, m)
    requires j < m
    ensures k < |spans| && spans[k].first <= j <= spans[k].last
    ensures forall k' :: 0 <= k' < |spans| && k' != k ==> j < spans[k'].first || spans[k'].last < j
    decreases |spans|
  {
    var n := |spans|;
    if spans[n - 1].first <= j {
      k := n - 1;
    } else {
      var m' := spans[n - 1].first;
      assert n > 1;
      var init := spans[..n - 1];
      forall k' | 0 <= k' < n - 1 ensures init[k'].last < m' {
        TilesOrdered(spans, m, k', n - 1);
      }
      k := TilesCover(init, m', j);
    }
    forall k' | 0 <= k' < n && k' != k ensures j < spans[k'].first || spans[k'].last < j {
      if k' < k {
        TilesOrdered(spans, m, k', k);
      } else if k < k' {
        TilesOrdered(spans, m, k, k');
      }
    }
  }

  /** Two descriptions of `[0, m)` as maximal runs agree span by span up to index `k`. */
  lemma {:induction false} RunsAgree(reg: seq<int>, a: seq<Span>, b: seq<Span>, m: nat, k: nat)
    requires Runs(reg, a, m) && Runs(reg, b, m)
    requires k < |a| && k < |b|
    ensures a[k] == b[k]
    decreases k
  {
    if k > 0 {
      RunsAgree(reg, a, b, m, k - 1);
    }
    RunEndsAtChange(reg, a, b, m, k);
    RunEndsAtChange(reg, b, a, m, k);
  }

  /** A run ends at the last row or just before a change of regime. */
  lemma RunEnd(reg: seq<int>, spans: seq<Span>, m: nat, k: nat)
    requires Runs(reg, spans, m)
    requires k < |spans|
    ensures spans[k].last == m - 1 || (spans[k].last + 1 < m && reg[spans[k].last + 1] != reg[spans[k].last])
  {
    if k + 1 < |spans| {
      assert spans[k + 1].first == spans[k].last + 1;
    }
  }

  /** Of two runs that start at the same row, the first cannot stop before the second. */
  lemma RunEndsAtChange(reg: seq<int>, a: seq<Span>, b: seq<Span>, m: nat, k: nat)
    requires Runs(reg, a, m) && Runs(reg, b, m)
    requires k < |a| && k < |b|
    requires a[k].first == b[k].first
    ensures b[k].last <= a[k].last
  {
    RunEnd(reg, a, m, k);
  }

  /** Only the final span of a tiling of `[0, m)` reaches row `m - 1`. */
  lemma TilesEndOnce(spans: seq<Span>, m: nat)
    requires Tiles(spans, m)
    ensures forall k :: 0 <= k < |spans| - 1 ==> spans[k].last < m - 1
  {
    forall k | 0 <= k < |spans| - 1 ensures spans[k].last < m - 1 {
      TilesOrdered(spans, m, k, |spans| - 1);
    }
  }

  /** The maximal-run description of a regime column is unique: the scan's output is determined. */
  lemma RunsUnique(reg: seq<int>, a: seq<Span>, b: seq<Span>)
    requires Runs(reg, a, |reg|) && Runs(reg, b, |reg|)
    ensures a == b
  {
    var m := |reg|;
    if m > 0 {
      var k := (if |a| < |b| then |a| else |b|) - 1;
      RunsAgree(reg, a, b, m, k);
      TilesEndOnce(a, m);
      TilesEndOnce(b, m);
      assert |a| == |b|;
      forall k | 0 <= k < |a| ensures a[k] == b[k] {
        RunsAgree(reg, a, b, m, k);
      }
    }
  }
}
