/**
 * The cleaning step of `load_data`: once the date column has been parsed
 * (day first, unparseable dates become missing) and the price and volume
 * columns have been coerced to numbers (unparseable cells become missing),
 * rows without a date or a close are dropped and the table is ordered by date.
 */
module Loader {
  import opened Numerics

  /** A parsed date: nanoseconds since the Unix epoch, as pandas stores it. */
  type Timestamp = int

  /** Nanoseconds in a calendar day. */
  const NanosPerDay: int := 86_400_000_000_000

  /** The calendar date of a timestamp, as a day number (`.dt.date`); `/` floors here. */
  function CalendarDay(t: Timestamp): (d: int)
    ensures d * NanosPerDay <= t < (d + 1) * NanosPerDay
  {
    t / NanosPerDay
  }

  /** One row of the table after parsing: every cell may be missing. */
  datatype RawRow = RawRow(
    date: Option<Timestamp>,
    open: Option<real>,
    high: Option<real>,
    low: Option<real>,
    close: Option<real>,
    volume: Option<real>)

  /** A row that survived cleaning: its date and close are present. */
  datatype Bar = Bar(
    date: Timestamp,
    open: Option<real>,
    high: Option<real>,
    low: Option<real>,
    close: real,
    volume: Option<real>)

  predicate IsComplete(r: RawRow)
  {
    r.date.Some? && r.close.Some?
  }

  function ToBar(r: RawRow): Bar
    requires IsComplete(r)
  {
    Bar(r.date.value, r.open, r.high, r.low, r.close.value, r.volume)
  }

  /** `dropna(subset=["date", "clot"])`: the complete rows, in their original order. */
  function DropIncomplete(rows: seq<RawRow>): (bars: seq<Bar>)
    ensures |bars| <= |rows|
    ensures forall b :: b in bars <==> exists r :: r in rows && IsComplete(r) && ToBar(r) == b
  {
    if rows == [] then []
    else
      var last := rows[|rows| - 1];
      assert rows == rows[..|rows| - 1] + [last];
      DropIncomplete(rows[..|rows| - 1]) + (if IsComplete(last) then [ToBar(last)] else [])
  }

  /** Dropping incomplete rows works row by row, so it keeps the relative order of rows. */
  lemma {:induction false} DropIncompleteConcat(a: seq<RawRow>, b: seq<RawRow>)
    ensures DropIncomplete(a + b) == DropIncomplete(a) + DropIncomplete(b)
    decreases |b|
  {
    if b == [] {
      assert a + b == a;
    } else {
      assert (a + b)[..|a + b| - 1] == a + b[..|b| - 1];
      DropIncompleteConcat(a, b[..|b| - 1]);
    }
  }

  predicate SortedByDate(s: seq<Bar>)
  {
    forall i, j :: 0 <= i < j < |s| ==> s[i].date <= s[j].date
  }

  /** Inserts `b` into a date-ordered table. */
  function Insert(b: Bar, s: seq<Bar>): (r: seq<Bar>)
    requires SortedByDate(s)
    ensures SortedByDate(r)
    ensures multiset(r) == multiset(s) + multiset{b}
  {
    if s == [] then [b]
    else if b.date <= s[0].date then [b] + s
    else
      var rest := Insert(b, s[1..]);
      assert s == [s[0]] + s[1..];
      assert forall x :: x in rest ==> s[0].date <= x.date by {
        forall x | x in rest ensures s[0].date <= x.date {
          assert x in multiset(rest);
          assert x == b || x in s[1..];
        }
      }
      [s[0]] + rest
  }

  /** `sort_values("date")`: the same rows, in ascending order of date. */
  function SortByDate(s: seq<Bar>): (r: seq<Bar>)
    ensures SortedByDate(r)
    ensures multiset(r) == multiset(s)
  {
    if s == [] then []
    else
      assert s == [s[0]] + s[1..];
      Insert(s[0], SortByDate(s[1..]))
  }

  /**
   * The cleaned table: sorted by date, and a permutation of exactly the rows
   * that have both a date and a close.
   */
  function Clean(rows: seq<RawRow>): (bars: seq<Bar>)
    ensures SortedByDate(bars)
    ensures multiset(bars) == multiset(DropIncomplete(rows))
    ensures forall b :: b in bars <==> exists r :: r in rows && IsComplete(r) && ToBar(r) == b
  {
    var kept := DropIncomplete(rows);
    var r := SortByDate(kept);
    assert forall b :: b in r <==> b in kept by {
      forall b ensures b in r <==> b in kept {
        assert b in r <==> b in multiset(r);
        assert b in kept <==> b in multiset(kept);
      }
    }
    r
  }
}
