/**
 * The sidebar's date-range filter and the minimum-size guard that follows it:
 * keep the rows whose calendar date lies in `[start, end]` (both inclusive),
 * and stop with an error when fewer than 15 rows remain.
 */
module DateWindow {
  import opened Loader

  /** Fewest rows the dashboard accepts after filtering. */
  const MinRows: nat := 15

  datatype Error = InsufficientData

  datatype Result<T> = Success(value: T) | Failure(error: Error)

  /** `start <= date.dt.date <= end`, with `start` and `end` as day numbers. */
  predicate InRange(b: Bar, start: int, end: int)
  {
    start <= CalendarDay(b.date) <= end
  }

  /** Comparing calendar dates is the same as comparing the timestamp with two midnights. */
  lemma InRangeAsTimestamps(b: Bar, start: int, end: int)
    ensures InRange(b, start, end) <==> start * NanosPerDay <= b.date < (end + 1) * NanosPerDay
  {
    var d := CalendarDay(b.date);
    var m := b.date % NanosPerDay;
    assert b.date == d * NanosPerDay + m && 0 <= m < NanosPerDay;
    if start <= d {
      assert start * NanosPerDay <= d * NanosPerDay;
    } else {
      assert (start - d) * NanosPerDay >= NanosPerDay;
    }
    if d <= end {
      assert d * NanosPerDay <= end * NanosPerDay;
    } else {
      assert (d - end) * NanosPerDay >= NanosPerDay;
    }
  }

  /** The boolean-mask selection `df[(date >= start) & (date <= end)]`. */
  function Restrict(bars: seq<Bar>, start: int, end: int): (r: seq<Bar>)
    ensures |r| <= |bars|
    ensures forall b :: b in r <==> b in bars && InRange(b, start, end)
  {
    if bars == [] then []
    else
      var last := bars[|bars| - 1];
      assert bars == bars[..|bars| - 1] + [last];
      Restrict(bars[..|bars| - 1], start, end) + (if InRange(last, start, end) then [last] else [])
  }

  /** The mask is applied row by row: filtering keeps the relative order of rows. */
  lemma {:induction false} RestrictConcat(a: seq<Bar>, b: seq<Bar>, start: int, end: int)
    ensures Restrict(a + b, start, end) == Restrict(a, start, end) + Restrict(b, start, end)
    decreases |b|
  {
    if b == [] {
      assert a + b == a;
    } else {
      var init, last := b[..|b| - 1], b[|b| - 1];
      assert (a + b)[..|a + b| - 1] == a + init;
      assert (a + b)[|a + b| - 1] == last;
      RestrictConcat(a, init, start, end);
      var tail := if InRange(last, start, end) then [last] else [];
      assert Restrict(a + b, start, end) == Restrict(a + init, start, end) + tail;
      assert Restrict(b, start, end) == Restrict(init, start, end) + tail;
    }
  }

  /** Each row in range is kept as often as it occurs; no other row is kept. */
  lemma {:induction false} RestrictCounts(bars: seq<Bar>, start: int, end: int, b: Bar)
    ensures multiset(Restrict(bars, start, end))[b] == if InRange(b, start, end) then multiset(bars)[b] else 0
    decreases |bars|
  {
    if bars != [] {
      var init := bars[..|bars| - 1];
      assert bars == init + [bars[|bars| - 1]];
      RestrictCounts(init, start, end, b);
    }
  }

  /** A date-ordered table stays date-ordered after filtering. */
  lemma {:induction false} RestrictSorted(bars: seq<Bar>, start: int, end: int)
    requires SortedByDate(bars)
    ensures SortedByDate(Restrict(bars, start, end))
    decreases |bars|
  {
    if bars != [] {
      var init := bars[..|bars| - 1];
      var last := bars[|bars| - 1];
      RestrictSorted(init, start, end);
      var r' := Restrict(init, start, end);
      forall x | x in r' ensures x.date <= last.date {
        var k :| 0 <= k < |init| && init[k] == x;
        assert bars[k] == x;
      }
    }
  }

  /** The filter followed by the `len(data) < 15` guard. */
  function SelectWindow(bars: seq<Bar>, start: int, end: int): (r: Result<seq<Bar>>)
    ensures r.Failure? <==> |Restrict(bars, start, end)| < MinRows as int
    ensures r.Success? ==> r.value == Restrict(bars, start, end) && |r.value| >= MinRows as int
  {
    var data := Restrict(bars, start, end);
    if |data| < MinRows then Failure(InsufficientData) else Success(data)
  }
}
