# Stock-ticker chart: a Dafny model of the client-side chart logic

The demo's browser client fetches the whole market history as flat rows
`(timestamp, ticker, price)`. It then draws a line chart with one line per
selected ticker, plus a hover tooltip and a panel of latest prices. This
project models that pipeline as pure Dafny functions over immutable
records and proves what each stage promises:

- **Preparation** (`src/Chart.jsx`). The rows are grouped by ticker in one
  pass, the way d3's `group` does it. Groups keep the received order and
  keys appear in first-occurrence order. Every row gets `priceChange` and
  `percentChange` against the first row of its group. The chart panel
  appears only for a non-empty selection on a container at least 400 wide.
- **Chart** (`src/components/Viz.jsx`). One selected ticker is drawn as
  absolute price; several are drawn as percent change. The time domain is
  the extent of the first selected series. The value domain is the price
  extent, or the union of the selected percent extents padded by one. The
  time axis is a d3 UTC scale whose domain is rounded outward to half-hour
  boundaries; the value axis is a d3 linear scale whose domain is rounded
  outward by `nice`. Both run onto fixed pixel ranges. The tooltip inverts
  the pointer x to a time and looks up the nearest point of every selected
  series with d3's `bisector.center`. The summary panel shows the last point
  of each selected series.

Prices, percentages and pixels are Dafny `real`s and timestamps are `int`s,
so no floating-point behaviour is modelled. Modules follow the program:

| file | module | models |
|---|---|---|
| data.dfy | `Data` | rows, derived points, series, `Map.get` lookup |
| grouping.dfy | `Grouping` | d3 `group` by ticker, with reference definitions |
| derivation.dfy | `Derivation` | `priceChange` / `percentChange`, preparation |
| extent.dfy | `Extents` | d3 `extent` |
| scale.dfy | `Scales` | d3 linear scale and its inverse |
| bisect.dfy | `Bisect` | d3 `bisector(...).center` |
| viz.dfy | `Viz` | mode, domains, scales, tooltip, summary |
| chart.dfy | `Chart` | selection, render guards, whole screen |

Modelling choices:

- The division at `src/Chart.jsx:66` is only reached for groups of more
  than one row. Such groups must have a nonzero first price (`Divisible`,
  `Baselines`). The sign lemma additionally needs a positive first price.
- The d3 scale is modelled as d3 computes it: normalise against the domain,
  interpolate across the range, no clamping. A degenerate domain or range
  normalises to one half.
- The time axis' `nice` with a thirty-minute UTC interval is modelled
  exactly on whole milliseconds (`NiceTime`). The linear value axis' `nice`
  is a parameter `nice` of the chart, of which only `Widening` is assumed:
  an ordered domain is widened, never narrowed.
- The nearest-point search follows d3's `center` step by step. A binary
  search runs over all points but the last, and the previous point is taken
  when it is strictly closer. This fixes the tie rule of the model: halfway
  between two points the later one is taken. Only "no point is strictly
  closer" is claimed.
- A selected ticker with no rows makes the source fail inside `extent`.
  The model reports it as the panel variant `Unknown` instead.
- The selection is built from a set whose enumeration order is not visible
  here. `SelectionOf` takes any enumeration.

The value scale switches to percent when more than one ticker is selected
(`src/components/Viz.jsx:29`). Only the first selected series fixes the
time domain. Rows are taken as numeric, and the code has no error path for
malformed rows.

## Model

| member | source | states |
|---|---|---|
| Data.Find | src/components/Viz.jsx:80 | `data.get(ticker)`: a result exactly when some series has that ticker, and then it is the points of such a series |
| Grouping.Tickers | src/Chart.jsx:81 | the group keys (button order) are distinct and are exactly the tickers that occur in the rows |
| Grouping.RowsOf | src/Chart.jsx:58 | the rows of one ticker: only rows of that ticker, drawn from the input, and every input row of that ticker is present |
| Grouping.Positions | src/Chart.jsx:58 | the positions of one ticker's rows are strictly increasing, in range, and cover every row of that ticker |
| Grouping.RowsOfKeepsOrder | src/Chart.jsx:58 | within a group the rows keep their received order: the a-th row of the group is the row at the a-th position of that ticker |
| Grouping.Insert | src/Chart.jsx:58 | one grouping step appends the row to its ticker's group, or opens a new group at the end; keys stay distinct and no other group changes |
| Grouping.GroupRows | src/Chart.jsx:58 | d3 `group` by ticker yields one group per ticker in first-occurrence order, each with exactly that ticker's rows |
| Grouping.GroupRowsSize | src/Chart.jsx:58 | the group sizes add up to the number of rows |
| Grouping.GroupRowsPartitions | src/Chart.jsx:58 | every row lies in the group of its own ticker, every group holds only rows of its ticker, and sizes add up to the row count |
| Grouping.TickersFirstOccurrence | src/Chart.jsx:81 | of any two keys, the earlier key occurs in the rows before the later key occurs at all |
| Derivation.Annotate | src/Chart.jsx:62-67 | no contract of its own: the two change fields of one row as the source computes them, characterised by `Derivation.DeriveGroup` and `Derivation.PercentClosedForm` |
| Derivation.DeriveGroup | src/Chart.jsx:60-69 | each derived point keeps timestamp, ticker and price; `priceChange = price - p0`; `percentChange * p0 = (price - p0) * 100`; the first point has both changes zero, including one-row groups |
| Derivation.PercentClosedForm | src/Chart.jsx:64-67 | for a nonzero first price, `percentChange = (price - p0) / p0 * 100` for every row, the first and single-row cases included |
| Derivation.ChangesAgreeInSign | src/Chart.jsx:62-67 | with a positive first price, `percentChange` is positive (negative) exactly when `priceChange` is |
| Derivation.Prepare | src/Chart.jsx:58-69 | one series per ticker in first-occurrence order, each that ticker's rows in received order with both changes added; series are non-empty, carry their own ticker only, and start at zero change |
| Derivation.PrepareExample | src/Chart.jsx:62-67 | prices 100, 102, 99 give percent changes 0, 2, -1 and price changes 0, 2, -1 |
| Extents.Extent | src/components/Viz.jsx:30-31 | d3 `extent` of a non-empty list: both ends are values of the list and bound every value, `lo <= hi` |
| Extents.ExtentUnique | src/components/Viz.jsx:30-31 | any two extents of one list are equal |
| Scales.Apply | src/components/Viz.jsx:51-64 | no contract of its own: d3's `scale(x)`, characterised by `Scales.ApplyEnds`, `Scales.ApplyMonotone`, `Scales.ApplyWithin` and the two round-trip lemmas |
| Scales.Invert | src/components/Viz.jsx:75 | no contract of its own: d3's `scale.invert(y)`, characterised by `Scales.InvertApply` and `Scales.ApplyInvert` |
| Scales.NiceTime | src/components/Viz.jsx:54-57 | no contract of its own: the half-hour rounding of the time domain, characterised by `Scales.NiceTimeWidens` |
| Scales.NiceTimeWidens | src/components/Viz.jsx:54-57 | the rounded time domain has both ends on half-hour boundaries, contains the original domain, and is less than half an hour wider at each end, so its ends are the nearest boundaries outside the domain |
| Scales.ApplyEnds | src/components/Viz.jsx:51-64 | a scale with a non-degenerate domain takes the domain ends to the range ends |
| Scales.InvertApply | src/components/Viz.jsx:75 | `invert(scale(t)) = t` for a non-degenerate range and a non-degenerate domain, or the only value of a degenerate one |
| Scales.ApplyInvert | src/components/Viz.jsx:75 | `scale(invert(y)) = y` for a non-degenerate domain and range |
| Scales.ApplyMonotone | src/components/Viz.jsx:51-64 | on an increasing domain the scale is strictly increasing onto an increasing range and strictly decreasing onto a decreasing one |
| Scales.ApplyWithin | src/components/Viz.jsx:51-64 | a value inside the domain lands inside the range |
| Bisect.Left | src/components/Viz.jsx:14 | on a sorted series, the binary search splits the window into points earlier than the probe and points not earlier |
| Bisect.Center | src/components/Viz.jsx:76-78 | a valid index; on a sorted series no point is strictly closer to the probe; a probe at or before the first time gives the first index, one after the last time gives the last index |
| Bisect.CenterExact | src/components/Viz.jsx:76-78 | with distinct timestamps, a probe exactly at a point's time finds that point |
| Viz.TimeDomain | src/components/Viz.jsx:30 | the extent of the first selected series' timestamps, `lo <= hi` |
| Viz.PriceDomain | src/components/Viz.jsx:31 | the extent of the first selected series' prices |
| Viz.PercentExtent | src/components/Viz.jsx:36 | the extent of one series' percent changes |
| Viz.PercentDomain | src/components/Viz.jsx:32-49 | with several tickers, bounded by and attained at the least percent minimum less one and the greatest percent maximum plus one of the selected series; `[0, 0]` otherwise |
| Viz.ValueDomain | src/components/Viz.jsx:61 | the percent domain when several tickers are selected, otherwise the price extent of the first selected series; `lo <= hi` |
| Viz.PercentDomainCoversUnit | src/components/Viz.jsx:37-44 | when every selected series starts at zero percent, the multi-series percent domain contains `[-1, 1]` |
| Viz.TimeScale | src/components/Viz.jsx:51-58 | no contract of its own: the UTC time scale, characterised by `Viz.TimeScaleIncreasing` |
| Viz.ValueScale | src/components/Viz.jsx:60-64 | no contract of its own: the linear value scale, characterised by `Viz.ValueScaleReversing` |
| Viz.TimeScaleIncreasing | src/components/Viz.jsx:51-58 | the time axis runs between the half-hour boundaries just outside the first series' time extent; on a non-degenerate axis at least 400 wide the scale is strictly increasing and takes those boundaries to 20 and `width - 150` |
| Viz.ValueScaleReversing | src/components/Viz.jsx:60-64 | the value axis contains the value domain; on a non-degenerate axis over 80 high the scale reverses order and takes its ends to `height - 40` and 40 |
| Viz.Probe | src/components/Viz.jsx:74-75 | no contract of its own: the pointer x inverted through the time scale, characterised through `Scales.InvertApply` in `Viz.TooltipAtPoint` |
| Viz.Plotted | src/components/Viz.jsx:82-84 | no contract of its own: the value drawn for a point, percent change with several tickers and price with one, characterised by `Viz.InsideVertically` |
| Viz.Entry | src/components/Viz.jsx:79-86 | one tooltip entry: a point of the selected ticker's series, nearest to the probe when the series is sorted, placed at the scaled time and value |
| Viz.Tooltip | src/components/Viz.jsx:73-90 | one entry per selected ticker in selection order; entry j is a point of `selected[j]`'s series nearest to the inverted pointer time; x is the scaled time, y the scaled percent change (several tickers) or price (one) |
| Viz.TooltipInsidePlot | src/components/Viz.jsx:79-86 | on a chart at least 400 by 80, the first marker lies within `[20, width - 150]` and every marker within `[40, height - 40]` |
| Viz.InsideHorizontally | src/components/Viz.jsx:51-58 | every point of the first selected series is drawn within `[20, width - 150]` |
| Viz.InsideVertically | src/components/Viz.jsx:60-64 | every point of every selected series is drawn within `[40, height - 40]` |
| Viz.TooltipAtPoint | src/components/Viz.jsx:75-80 | a pointer at the pixel of a point of any selected series with distinct timestamps brings up exactly that point as the series' entry; for a series other than the first the time axis must not collapse to one instant |
| Viz.ProbeAtPoint | src/components/Viz.jsx:74-75 | the pointer at the pixel of a point inverts to that point's time, for the first series always and for the others on a non-degenerate time axis |
| Viz.NearestExact | src/components/Viz.jsx:76-78 | on a strictly sorted series, a point nearest to the time of point k is point k |
| Viz.Summary | src/components/Viz.jsx:188-191 | one entry per selected ticker in order: the last point of its series, which on a sorted series has the latest time |
| Viz.Build | src/components/Viz.jsx:29-64 | multi-series mode holds iff more than one ticker is selected; the time scale runs over the half-hour rounding of the time extent, which contains it, onto `[20, width - 150]`; the value scale over the widened percent or price domain onto `[height - 40, 40]`; the summary is the latest point of each selected series |
| Chart.SelectionOf | src/Chart.jsx:77-78 | the selection holds exactly the chosen tickers, each once |
| Chart.Missing | src/components/Viz.jsx:30 | none exactly when every selected ticker has a series; otherwise a selected ticker without one |
| Chart.Render | src/Chart.jsx:71-127 | buttons are the tickers in first-occurrence order; no chart iff the selection is empty or the width is under 400; a chart iff, in addition, every selected ticker has rows, and then it is the view of the prepared series |
| Chart.KnownTickers | src/Chart.jsx:81 | a ticker has a prepared series exactly when some row carries it |
| Chart.PointsCarryTicker | src/Chart.jsx:58 | a point found under a ticker in prepared series carries that ticker |
| Chart.EntriesFollowSelection | src/components/Viz.jsx:79-86 | on prepared series, tooltip entry j and summary entry j belong to `selected[j]` |
| Chart.DrawnPercentAxisCoversUnit | src/components/Viz.jsx:32-49 | a drawn chart of several tickers has a value axis containing `[-1, 1]`, whatever widening `nice` applies |

## Left out

- Viz.ValueScale: the linear `nice` of the value axis (`src/components/Viz.jsx:63`) is not computed. d3 picks a tick step from a logarithm and rounds to it in floating point; the model takes the rounding as a parameter and assumes only that it widens an ordered domain. No claim is made about where the value axis ends fall beyond that.
- d3's exact tie behaviour in `bisector.center`: the model fixes the rule described above and claims only that no point is strictly closer.
- Conversion of the inverted time to a `Date` (which truncates to whole milliseconds): the probe is the real-valued inverted time.
- CSV parsing and `+x` string-to-number coercion: rows arrive numeric, so NaN from unparseable fields is not modelled.
- Floating-point arithmetic, including Infinity from a zero first price: reals are exact, and a nonzero first price is a precondition where it is divided by.
- In-place mutation of the row objects (`src/Chart.jsx:62`, `src/components/Viz.jsx:81-84`): derivation and tooltip return new records.
- The logarithmic cost of the nearest-point search: `Bisect.Left` is the binary search, but its cost is not stated.
- React state, effects, the socket.io subscription and query invalidation (`src/Chart.jsx:19-56`), loading and error messages: UI and concurrency plumbing.
- Rendering (axes, lines, markers, `VizAnnotation`, `Stocks` formatting, the choice of tooltip data over summary data in `Stocks`): presentation only.
- The server (`server/index.js`) and the market generator it calls, which is not part of this model; the Python prototype.
