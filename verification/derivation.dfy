/** The derived fields of src/Chart.jsx:60-69: every row of a ticker's
    group gets `priceChange` and `percentChange`, both measured against the
    first row of that group. Groups of one row get zero for both without
    any division. */
module Derivation {
  import opened Data
  import opened Grouping

  /** The arithmetic of src/Chart.jsx:62-67 for one row `r` of a group of
      `size` rows whose first row has price `p0`. */
  function Annotate(r: Row, p0: real, size: nat): Point
    requires size > 1 ==> p0 != 0.0
  {
    Point(r.timestamp, r.ticker, r.price,
      if size > 1 then (p0 - r.price) * -1.0 else 0.0,
      if size > 1 then (r.price - p0) / p0 * 100.0 else 0.0)
  }

  /** `p` is `r` with the two change fields added against baseline price
      `p0`: the absolute change, and the relative change in percent stated
      without a division (it fixes the percentage whenever `p0 != 0`). */
  predicate Derives(p: Point, r: Row, p0: real) {
    && p.timestamp == r.timestamp
    && p.ticker == r.ticker
    && p.price == r.price
    && p.priceChange == r.price - p0
    && p.percentChange * p0 == (r.price - p0) * 100.0
  }

  /** The division in src/Chart.jsx:66 is only reached for groups of more
      than one row; those need a nonzero first price. */
  predicate Divisible(rows: seq<Row>) {
    |rows| > 1 ==> rows[0].price != 0.0
  }

  /** The derived points of one group, in the group's order. */
  function DeriveGroup(rows: seq<Row>): (ps: seq<Point>)
    requires Divisible(rows)
    ensures |ps| == |rows|
    ensures forall i :: 0 <= i < |rows| ==> Derives(ps[i], rows[i], rows[0].price)
    ensures |ps| > 0 ==> ps[0].priceChange == 0.0 && ps[0].percentChange == 0.0
  {
    if |rows| == 0 then []
    else
      var p0 := rows[0].price;
      var ps := seq(|rows|, i requires 0 <= i < |rows| => Annotate(rows[i], p0, |rows|));
      assert forall i :: 0 <= i < |rows| ==> Derives(ps[i], rows[i], p0) by {
        forall i | 0 <= i < |rows|
          ensures Derives(ps[i], rows[i], p0)
        {
          if |rows| > 1 {
            PercentTimesBase(rows[i].price, p0);
          }
        }
      }
      ps
  }

  lemma PercentTimesBase(p: real, p0: real)
    requires p0 != 0.0
    ensures (p - p0) / p0 * 100.0 * p0 == (p - p0) * 100.0
  {
    var q := (p - p0) / p0;
    assert q * p0 == p - p0;
    calc {
      q * 100.0 * p0;
      (q * p0) * 100.0;
    }
  }

  /** Whenever the baseline is nonzero, the percentage is the closed form
      `(price - p0) / p0 * 100` for every row, including the first row and
      the only row of a one-row group. */
  lemma PercentClosedForm(rows: seq<Row>, i: nat)
    requires i < |rows| && rows[0].price != 0.0
    ensures DeriveGroup(rows)[i].percentChange == (rows[i].price - rows[0].price) / rows[0].price * 100.0
  {
    var p0 := rows[0].price;
    var c := DeriveGroup(rows)[i].percentChange;
    assert c * p0 == (rows[i].price - p0) * 100.0;
    PercentTimesBase(rows[i].price, p0);
    MulCancel(c, (rows[i].price - p0) / p0 * 100.0, p0);
  }

  lemma MulCancel(a: real, b: real, c: real)
    requires c != 0.0 && a * c == b * c
    ensures a == b
  {
    assert (a - b) * c == 0.0;
  }

  /** With a positive baseline the two changes agree in sign: each is
      positive, zero or negative exactly when the other is. */
  lemma ChangesAgreeInSign(rows: seq<Row>, i: nat)
    requires Divisible(rows) && i < |rows|
    requires rows[0].price > 0.0
    ensures DeriveGroup(rows)[i].percentChange > 0.0 <==> DeriveGroup(rows)[i].priceChange > 0.0
    ensures DeriveGroup(rows)[i].percentChange < 0.0 <==> DeriveGroup(rows)[i].priceChange < 0.0
  {
    var p := DeriveGroup(rows)[i];
    var p0 := rows[0].price;
    assert p.percentChange * p0 == p.priceChange * 100.0;
    SignOfProduct(p.percentChange, p0);
  }

  lemma SignOfProduct(a: real, b: real)
    requires b > 0.0
    ensures a * b > 0.0 <==> a > 0.0
    ensures a * b < 0.0 <==> a < 0.0
  {
    if a > 0.0 {
      assert a * b > 0.0;
    } else if a < 0.0 {
      assert a * b < 0.0;
    } else {
      assert a * b == 0.0;
    }
  }

  /** All derived series of a snapshot have a usable baseline. */
  predicate Baselines(rows: seq<Row>) {
    forall i :: 0 <= i < |rows| ==> Divisible(RowsOf(rows, rows[i].ticker))
  }

  /** A snapshot's series: one per ticker in order of first occurrence,
      each holding that ticker's rows, in received order, with the two
      change fields added against the ticker's first row. */
  predicate PreparedFrom(series: seq<Series>, rows: seq<Row>) {
    && |series| == |Tickers(rows)|
    && forall i :: 0 <= i < |series| ==>
         var g := RowsOf(rows, Tickers(rows)[i]);
         && series[i].ticker == Tickers(rows)[i]
         && |series[i].points| == |g|
         && forall j :: 0 <= j < |g| ==> Derives(series[i].points[j], g[j], g[0].price)
  }

  /** Every series names a distinct ticker, has at least one point, holds
      only points of its own ticker, and starts at zero change. */
  predicate WellFormed(series: seq<Series>) {
    && Distinct(Names(series))
    && forall i :: 0 <= i < |series| ==>
         && |series[i].points| > 0
         && series[i].points[0].priceChange == 0.0
         && series[i].points[0].percentChange == 0.0
         && forall j :: 0 <= j < |series[i].points| ==> series[i].points[j].ticker == series[i].ticker
  }

  /** src/Chart.jsx:58-69: group the snapshot by ticker and derive the
      change fields of every row. */
  function Prepare(rows: seq<Row>): (series: seq<Series>)
    requires Baselines(rows)
    ensures PreparedFrom(series, rows)
    ensures WellFormed(series)
  {
    var gs := GroupRows(rows);
    GroupsUsable(rows);
    var series := seq(|gs|, i requires 0 <= i < |gs| => Series(gs[i].ticker, DeriveGroup(gs[i].rows)));
    PrepareSpec(rows, series);
    series
  }

  /** Every group of a snapshot with usable baselines is non-empty and has
      a usable baseline itself. */
  lemma GroupsUsable(rows: seq<Row>)
    requires Baselines(rows)
    ensures forall i :: 0 <= i < |GroupRows(rows)| ==>
      Divisible(GroupRows(rows)[i].rows) && |GroupRows(rows)[i].rows| > 0
  {
    var gs := GroupRows(rows);
    forall i | 0 <= i < |gs|
      ensures Divisible(gs[i].rows) && |gs[i].rows| > 0
    {
      var k := gs[i].ticker;
      assert k in Tickers(rows);
      var w :| 0 <= w < |rows| && rows[w].ticker == k;
      assert rows[w] in gs[i].rows;
    }
  }

  lemma PrepareSpec(rows: seq<Row>, series: seq<Series>)
    requires Baselines(rows)
    requires forall i :: 0 <= i < |GroupRows(rows)| ==>
      Divisible(GroupRows(rows)[i].rows) && |GroupRows(rows)[i].rows| > 0
    requires |series| == |GroupRows(rows)|
    requires forall i :: 0 <= i < |series| ==>
      series[i] == Series(GroupRows(rows)[i].ticker, DeriveGroup(GroupRows(rows)[i].rows))
    ensures PreparedFrom(series, rows)
    ensures WellFormed(series)
  {
    var gs := GroupRows(rows);
    forall i | 0 <= i < |series|
      ensures forall j :: 0 <= j < |series[i].points| ==> series[i].points[j].ticker == series[i].ticker
    {
      forall j | 0 <= j < |series[i].points|
        ensures series[i].points[j].ticker == series[i].ticker
      {
        assert Derives(series[i].points[j], gs[i].rows[j], gs[i].rows[0].price);
        assert gs[i].rows[j] in gs[i].rows;
      }
    }
  }

  /** The worked example of a three-row history: percent changes 0, 2, -1
      and price changes 0, 2, -1. */
  lemma PrepareExample()
    ensures
      var rows := [Row(0, "GOOGL", 100.0), Row(1000, "GOOGL", 102.0), Row(2000, "GOOGL", 99.0)];
      var ps := DeriveGroup(rows);
      && [ps[0].percentChange, ps[1].percentChange, ps[2].percentChange] == [0.0, 2.0, -1.0]
      && [ps[0].priceChange, ps[1].priceChange, ps[2].priceChange] == [0.0, 2.0, -1.0]
  {
    var rows := [Row(0, "GOOGL", 100.0), Row(1000, "GOOGL", 102.0), Row(2000, "GOOGL", 99.0)];
    var ps := DeriveGroup(rows);
    assert Derives(ps[1], rows[1], 100.0);
    assert Derives(ps[2], rows[2], 100.0);
  }
}
