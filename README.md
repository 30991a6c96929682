# AIRBUS price dashboard: the analytics core in Dafny

The dashboard in `app.py` loads a tab-separated table of daily AIRBUS prices
(`date`, `ouv`, `haut`, `bas`, `clot`, `vol`). It cleans the table and filters
it to the date range chosen in the sidebar. It refuses to go on with fewer than
15 rows. Otherwise it derives feature columns: the daily return, the fast and
slow moving averages, the running peak, the drawdown, the rolling annualised
volatility and the 0/1 trend regime. It computes six KPIs and shades the price
chart with one green or red band per run of equal regime.

This project models that pipeline on exact values:

- `numerics.dfy` (`Numerics`): missing cells as `Option`, division that is
  undefined at zero, and the pandas reductions that skip missing values
  (`max`, `min`, `mean`, sample variance).
- `loader.dfy` (`Loader`): the cleaning step of `load_data`. It drops rows
  without a date or a close and sorts by date.
- `window.dfy` (`DateWindow`): the calendar-date filter and the 15-row guard.
- `features.dfy` (`Features`): the feature columns.
- `kpis.dfy` (`Kpis`): the KPI reductions.
- `regimes.dfy` (`Regimes`): the band-shading loop. It is an imperative
  method with loop invariants, because the source is a loop.
- `dashboard.dfy` (`Dashboard`): one render, from raw rows to the report the
  charts consume.

Representation choices:

- A timestamp is an integer count of nanoseconds since the Unix epoch.
- A calendar date (`.dt.date`) is the floor of a timestamp divided by the
  nanoseconds in a day.
- Sidebar dates are day numbers.
- Prices and volumes are `real`.
- A missing cell (NaN/NaT) is `None`.
- Volatility is modelled without its square root: the volatility columns hold
  252 times the sample variance (one delta degree of freedom). That value is
  the square of what the dashboard shows.

## Model

| member | source | states |
|---|---|---|
| Numerics.RelativeChange | app.py:123 | `now / before - 1` is defined exactly when the divisor is non-zero; then `before * (1 + r) == now` |
| Numerics.FallFromPeak | app.py:123 | a positive value at or below its peak has relative change in `(-1, 0]`, and zero only when it equals the peak |
| Numerics.MeanBounds | app.py:120-121 | an arithmetic mean lies between the smallest and the largest value averaged |
| Numerics.MaxPresent | app.py:128 | a skip-missing maximum is undefined iff every cell is missing; otherwise it is one of the present values and no present value exceeds it |
| Numerics.MinPresent | app.py:131 | a skip-missing minimum is undefined iff every cell is missing; otherwise it is one of the present values and none is below it |
| Numerics.Present | app.py:128-131 | the values a skip-missing reduction sees: a value is among them iff some cell holds it, and there are never more of them than cells |
| Numerics.PresentConcat | app.py:128-131 | skipping missing cells distributes over concatenation, so every present cell is kept once per occurrence, in order |
| Numerics.MeanTimesCount | app.py:129 | the mean of `n` values, taken `n` times, is their total |
| Numerics.MeanPresent | app.py:129 | a skip-missing mean is undefined iff every cell is missing. Otherwise it is the average of the present values (their count times it is their total), and it lies between the skip-missing minimum and maximum |
| Numerics.SampleVariance | app.py:130 | the ddof=1 variance is defined iff there are at least two values, and is never negative |
| Loader.CalendarDay | app.py:113 | the calendar day of a timestamp is the day number `d` with `d` midnight `<= t <` the next midnight |
| Loader.DropIncomplete | app.py:100 | a bar is kept iff it comes from a row that has both a date and a close; the table never grows |
| Loader.DropIncompleteConcat | app.py:100 | dropping incomplete rows distributes over concatenation, so it keeps the relative order of the rows |
| Loader.Insert | app.py:100 | inserting into a date-ordered table keeps it date-ordered and adds exactly that bar |
| Loader.SortByDate | app.py:100 | the result is ordered by date and is a permutation of the input |
| Loader.Clean | app.py:96-100 | the cleaned table is ordered by date, is a permutation of the complete rows, and holds a bar iff some row with a date and a close yields it |
| DateWindow.InRangeAsTimestamps | app.py:113 | comparing calendar dates with `[start, end]` is the same as `start` midnight `<= timestamp <` the midnight after `end` |
| DateWindow.Restrict | app.py:113 | the filter keeps a row iff it is in the table and its calendar date lies in `[start, end]`; it never adds rows |
| DateWindow.RestrictConcat | app.py:113 | the filter distributes over concatenation, so it keeps the relative order of the rows |
| DateWindow.RestrictCounts | app.py:113 | a row in range is kept exactly as often as it occurs; a row out of range is never kept |
| DateWindow.RestrictSorted | app.py:113 | filtering a date-ordered table leaves it date-ordered |
| DateWindow.SelectWindow | app.py:113-116 | the guard fails with `InsufficientData` iff fewer than 15 rows are in range; otherwise it yields exactly the filtered rows, at least 15 of them |
| Features.Returns | app.py:119 | `pct_change` has one cell per row; the first row has no return, and a later row has one iff the previous close is non-zero |
| Features.ReturnsCompound | app.py:119 | with no zero close, the closes are rebuilt from the first close and the returns: `c[k] == c[0] * (1 + r[1]) * ... * (1 + r[k])` |
| Features.MovingAverage | app.py:120-121 | the rolling mean of window `w` has one cell per row and is defined exactly from row `w - 1` on |
| Features.MovingAverageIsMean | app.py:120-121 | a defined moving average at row `i` is the average of the closes of rows `i - w + 1..i`: `w` times it is their total |
| Features.MovingAverageWithinWindow | app.py:120-121 | a defined moving average lies between the smallest and the largest close of its window |
| Features.MovingAverageSlide | app.py:120-121 | moving the window one row adds `(entering close - leaving close) / w` to the average |
| Features.RunningMax | app.py:122 | the running peak has one cell per row, is at least the row's close, and never decreases from one row to the next |
| Features.RunningMaxMonotone | app.py:122 | the running peak never decreases between any two rows |
| Features.RunningMaxAttained | app.py:122 | the running peak at row `i` is the close of some row at or before `i` |
| Features.RunningMaxIsPrefixMax | app.py:122 | the running peak at row `i` is the maximum of the closes of rows `0..i` |
| Features.Drawdown | app.py:123 | `close / peak - 1` has one cell per row and is defined on a row iff its peak is non-zero |
| Features.DrawdownBounds | app.py:123 | with positive closes, every drawdown is defined and lies in `(-1, 0]`; it is zero exactly on rows whose close is the peak |
| Features.AtPeakIffRising | app.py:122-123 | every close equals its running peak iff the closes never fall |
| Features.Annualised | app.py:124 | scaling by 252 keeps a variance defined exactly when it was, and keeps its sign |
| Features.RollingVariance | app.py:124 | the rolling annualised variance of returns has one cell per row and is never negative |
| Features.RollingVarianceDefined | app.py:124 | with no zero close and a window `v >= 2`, the rolling variance of the returns is defined exactly from row `v` on |
| Features.Regime | app.py:167 | the regime column has one cell per row, each 0 or 1 |
| Features.RegimeOfAverages | app.py:167 | the regime is 1 iff both windows are filled and the fast mean is above the slow mean; before both fill it is 0 |
| Features.ComputeFeatures | app.py:119-124 | every feature column, together with the regime column built at app.py:167, is aligned with the table; every close is at most its peak, and the regime column is 0/1 |
| Kpis.Performance | app.py:127 | the performance is defined iff the first close is non-zero; then `first * (1 + perf) == last` |
| Kpis.MaxHigh | app.py:128 | the highest high is undefined iff no row has a high; otherwise it is some row's high and no high exceeds it |
| Kpis.AverageVolume | app.py:129 | the average volume is undefined iff no row has a volume. Otherwise it is the average of the present volumes (their count times it is their total), and it lies between two present volumes |
| Kpis.AnnualVariance | app.py:130 | the annualised variance of returns is defined iff at least two returns are present, and is never negative |
| Kpis.MaxDrawdown | app.py:131 | the maximum drawdown is undefined iff no drawdown is present; otherwise it is one of them and none is deeper |
| Kpis.Summarize | app.py:126-131 | the last-close KPI is the close of the last row of the filtered table; the other five KPIs are the reductions of the rows above |
| Kpis.PerformanceCompoundsReturns | app.py:127 | with no zero close, `1 + performance` equals the compounded product of the daily returns |
| Kpis.MaxDrawdownBounds | app.py:131 | with positive closes the maximum drawdown is defined, lies in `(-1, 0]`, and is zero iff the closes never fall |
| Kpis.FallingPeak | app.py:122 | when the closes never rise, the running peak is the first close on every row |
| Kpis.FallingCloses | app.py:122-131 | closes 100, 90, 80, 70 give a maximum drawdown of exactly -0.3 |
| Regimes.FillFor | app.py:181 | a band is filled green iff its regime is 1, red otherwise |
| Regimes.Segment | app.py:176-187 | the scan returns spans that tile all rows as maximal runs of equal regime. Each band spans the dates of its run's first and last rows. It is green iff its rows have regime 1, and with a 0/1 column neighbouring bands alternate colour |
| Regimes.RunsUnique | app.py:176-187 | a regime column has only one description as maximal runs, so the scan's spans are determined by the column |
| Regimes.TilesCover | app.py:176-187 | every row lies in exactly one band |
| Regimes.BandColours | app.py:181 | a band's colour is green exactly on rows of regime 1; with a 0/1 column, adjacent bands differ in colour |
| Regimes.RunsExtend | app.py:178-184 | closing the open band when the regime changes extends the maximal runs to the current row |
| Dashboard.Render | app.py:113-187 | a render fails with `InsufficientData` iff fewer than 15 cleaned rows fall in the date range. Otherwise the report holds exactly those rows, date-ordered, with their aligned feature columns, their KPIs, and bands that tile the rows as maximal regime runs |

## Left out

- Locating the data file, `read_csv`, stripping column names, the sidebar success message, the `FileNotFoundError`, and Streamlit's cache (app.py:89-95, 99, 101). The model starts from parsed rows.
- Parsing itself: day-first date parsing and numeric coercion with `errors="coerce"` (app.py:96-98). They are represented only by their outcome: an unparseable cell is `None`.
- The sidebar widgets (app.py:106-111). Their values are inputs (`Dashboard.Params`). The slider ranges (fast 5-40, slow 30-120, volatility 10-60) are not imposed; any window of at least one row is allowed.
- Rendering: CSS, the KPI HTML and its number formatting, Plotly figures, and the other charts of the page (app.py:1-86, 133-166, 168-174, 189 on).
- Features.RollingVariance: holds 252 times the rolling sample variance, the square of the `volR` column, because square roots of reals are outside the model.
- Kpis.AnnualVariance: holds 252 times the sample variance of the returns, the square of `vol_ann`, for the same reason.
- Floating-point rounding: the model computes on exact reals.
- Division by zero: IEEE arithmetic gives infinities or NaN (as in `pct_change`, `clot/peak`, and the performance ratio). The model makes such a cell undefined (`None`). The skip-missing KPIs then skip that cell. pandas skips only NaN, not an infinity: after a zero close the return is `inf`, so `vol_ann` (app.py:130) is NaN, but `Kpis.AnnualVariance` still gives a finite value. Likewise, a negative close under a zero peak makes `max_dd` (app.py:131) `-inf`, but `Kpis.MaxDrawdown` skips that cell. With positive closes no division by zero occurs (`Kpis.MaxDrawdownBounds`, `Features.RollingVarianceDefined`).
- Loader.SortByDate: states only that the result is date-ordered and a permutation of its input. pandas' default sort is not stable, so the order of rows that share a date is not modelled.
- The code has no separate "malformed data" error, and the model adds none. Taking the sidebar values as parameters, the model reports `InsufficientData` for an empty table. What the sidebar widgets do with the missing default dates of an empty table (app.py:107-108) is not modelled.
