/** The records that flow from the market-history snapshot to the chart:
    raw rows, rows annotated with their change against the first row of
    their ticker, and the per-ticker series the chart looks up by name. */
module Data {

  datatype Option<+T> = None | Some(value: T)

  /** One row of the market-history snapshot, already numeric. */
  datatype Row = Row(timestamp: int, ticker: string, price: real)

  /** A row annotated with its change against the first row of its ticker. */
  datatype Point = Point(
    timestamp: int,
    ticker: string,
    price: real,
    priceChange: real,
    percentChange: real)

  /** The derived points of one ticker, in the order the rows were received. */
  datatype Series = Series(ticker: string, points: seq<Point>)

  predicate Distinct<T(==)>(xs: seq<T>) {
    forall i, j :: 0 <= i < j < |xs| ==> xs[i] != xs[j]
  }

  /** The tickers of a list of series, in order. */
  function Names(series: seq<Series>): seq<string> {
    seq(|series|, i requires 0 <= i < |series| => series[i].ticker)
  }

  /** The points of ticker `k`, as a JavaScript `Map.get` returns them:
      the entry of the first series with that key, or nothing. */
  function Find(series: seq<Series>, k: string): (r: Option<seq<Point>>)
    ensures r.Some? <==> exists i :: 0 <= i < |series| && series[i].ticker == k
    ensures r.Some? ==>
      exists i :: 0 <= i < |series| && series[i].ticker == k && series[i].points == r.value
  {
    if |series| == 0 then None
    else if series[0].ticker == k then Some(series[0].points)
    else
      var r := Find(series[1..], k);
      assert forall i :: 1 <= i < |series| ==> series[i] == series[1..][i - 1];
      r
  }

  /** The points of a ticker known to be present. */
  function Get(series: seq<Series>, k: string): (ps: seq<Point>)
    requires Find(series, k).Some?
  {
    Find(series, k).value
  }

  /** Every selected ticker names a series with at least one point: what the
      chart needs before it can compute extents and look up points. */
  predicate Drawable(series: seq<Series>, selected: seq<string>) {
    && |selected| > 0
    && forall j :: 0 <= j < |selected| ==>
         Find(series, selected[j]).Some? && |Find(series, selected[j]).value| > 0
  }
}
