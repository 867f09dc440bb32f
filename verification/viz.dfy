/** The chart of src/components/Viz.jsx: the display mode, the time and
    value domains, the two linear scales, the tooltip resolved from the
    pointer, and the summary of the latest points. */
module Viz {
  import opened Data
  import opened Extents
  import opened Scales
  import opened Bisect

  function Times(ps: seq<Point>): seq<real> {
    seq(|ps|, i requires 0 <= i < |ps| => Time(ps[i]))
  }

  function Prices(ps: seq<Point>): seq<real> {
    seq(|ps|, i requires 0 <= i < |ps| => ps[i].price)
  }

  function Percents(ps: seq<Point>): seq<real> {
    seq(|ps|, i requires 0 <= i < |ps| => ps[i].percentChange)
  }

  /** Several selected tickers are drawn as percent change; a single one is
      drawn as absolute price. */
  predicate Multiple(selected: seq<string>) {
    |selected| > 1
  }

  /** The time domain: the extent of the timestamps of the first selected
      series, whatever the other selected series hold. */
  function TimeDomain(series: seq<Series>, selected: seq<string>): (d: Interval)
    requires Drawable(series, selected)
    ensures d.lo <= d.hi
    ensures IsExtent(d, Times(Get(series, selected[0])))
  {
    Extent(Times(Get(series, selected[0])))
  }

  /** The price domain: the extent of the prices of the first selected series. */
  function PriceDomain(series: seq<Series>, selected: seq<string>): (d: Interval)
    requires Drawable(series, selected)
    ensures d.lo <= d.hi
    ensures IsExtent(d, Prices(Get(series, selected[0])))
  {
    Extent(Prices(Get(series, selected[0])))
  }

  /** The extent of the percent changes of one selected series. */
  function PercentExtent(series: seq<Series>, k: string): (d: Interval)
    requires Find(series, k).Some? && |Find(series, k).value| > 0
    ensures IsExtent(d, Percents(Get(series, k)))
    ensures d.lo <= d.hi
  {
    Extent(Percents(Get(series, k)))
  }

  /** The percent extent of every selected series, in selection order. */
  function PercentExtents(series: seq<Series>, selected: seq<string>): seq<Interval>
    requires forall j :: 0 <= j < |selected| ==>
      Find(series, selected[j]).Some? && |Find(series, selected[j]).value| > 0
  {
    seq(|selected|, j requires 0 <= j < |selected| => PercentExtent(series, selected[j]))
  }

  lemma PercentExtentsAt(series: seq<Series>, selected: seq<string>)
    requires forall j :: 0 <= j < |selected| ==>
      Find(series, selected[j]).Some? && |Find(series, selected[j]).value| > 0
    ensures |PercentExtents(series, selected)| == |selected|
    ensures forall j :: 0 <= j < |selected| ==>
      PercentExtents(series, selected)[j] == PercentExtent(series, selected[j]) &&
      PercentExtents(series, selected)[j].lo <= PercentExtents(series, selected)[j].hi
  {
  }

  /** Each extent widened by one on each side, flattened into one list of ends. */
  function Padded(es: seq<Interval>): seq<real> {
    seq(2 * |es|, i requires 0 <= i < 2 * |es| =>
      if i % 2 == 0 then es[i / 2].lo - 1.0 else es[i / 2].hi + 1.0)
  }

  /** The percent domain: from the lowest percent change of any selected
      series less one to the highest plus one. It is only computed with
      several tickers selected; otherwise it is `[0, 0]`. */
  function PercentDomain(series: seq<Series>, selected: seq<string>): (d: Interval)
    requires Drawable(series, selected)
    ensures !Multiple(selected) ==> d == Interval(0.0, 0.0)
    ensures forall j :: 0 <= j < |selected| && Multiple(selected) ==>
      d.lo <= PercentExtent(series, selected[j]).lo - 1.0 &&
      PercentExtent(series, selected[j]).hi + 1.0 <= d.hi
    ensures Multiple(selected) ==>
      exists j :: 0 <= j < |selected| && d.lo == PercentExtent(series, selected[j]).lo - 1.0
    ensures Multiple(selected) ==>
      exists j :: 0 <= j < |selected| && d.hi == PercentExtent(series, selected[j]).hi + 1.0
  {
    if Multiple(selected) then
      var es := PercentExtents(series, selected);
      PercentExtentsAt(series, selected);
      var xs := Padded(es);
      var d := Extent(xs);
      PaddedEnds(es, xs, d);
      d
    else Interval(0.0, 0.0)
  }

  /** The extent of the padded list is bounded by, and attained at, the
      padded ends of the extents. */
  lemma PaddedEnds(es: seq<Interval>, xs: seq<real>, d: Interval)
    requires forall j :: 0 <= j < |es| ==> es[j].lo <= es[j].hi
    requires xs == Padded(es) && |xs| > 0 && IsExtent(d, xs)
    ensures forall j :: 0 <= j < |es| ==> d.lo <= es[j].lo - 1.0 && es[j].hi + 1.0 <= d.hi
    ensures exists j :: 0 <= j < |es| && d.lo == es[j].lo - 1.0
    ensures exists j :: 0 <= j < |es| && d.hi == es[j].hi + 1.0
  {
    PaddedBounds(es, xs, d);
    var i :| 0 <= i < |xs| && xs[i] == d.lo;
    var j := PairOf(es, xs, i);
    var k :| 0 <= k < |xs| && xs[k] == d.hi;
    var l := PairOf(es, xs, k);
  }

  lemma PaddedBounds(es: seq<Interval>, xs: seq<real>, d: Interval)
    requires xs == Padded(es) && IsExtent(d, xs)
    ensures forall j :: 0 <= j < |es| ==> d.lo <= es[j].lo - 1.0 && es[j].hi + 1.0 <= d.hi
  {
    forall j | 0 <= j < |es|
      ensures d.lo <= es[j].lo - 1.0 && es[j].hi + 1.0 <= d.hi
    {
      assert d.lo <= xs[2 * j] && xs[2 * j + 1] <= d.hi;
    }
  }

  /** Position `i` of the padded list belongs to the pair of extent `j`. */
  lemma PairOf(es: seq<Interval>, xs: seq<real>, i: nat) returns (j: nat)
    requires forall j :: 0 <= j < |es| ==> es[j].lo <= es[j].hi
    requires xs == Padded(es) && i < |xs|
    ensures j < |es| && (i == 2 * j || i == 2 * j + 1)
    ensures xs[2 * j] <= xs[i] <= xs[2 * j + 1]
  {
    j := i / 2;
  }

  /** The value domain: the percent domain with several tickers selected,
      the price domain of the first selected series otherwise. */
  function ValueDomain(series: seq<Series>, selected: seq<string>): (d: Interval)
    requires Drawable(series, selected)
    ensures Multiple(selected) ==> d == PercentDomain(series, selected)
    ensures !Multiple(selected) ==> IsExtent(d, Prices(Get(series, selected[0])))
    ensures d.lo <= d.hi
  {
    if Multiple(selected) then
      var d := PercentDomain(series, selected);
      assert d.lo <= PercentExtent(series, selected[0]).lo - 1.0;
      d
    else PriceDomain(series, selected)
  }

  /** Because every series starts at zero percent change, the percent
      domain of several series always reaches from -1 to 1. */
  lemma PercentDomainCoversUnit(series: seq<Series>, selected: seq<string>)
    requires Drawable(series, selected) && Multiple(selected)
    requires forall j :: 0 <= j < |selected| ==> Get(series, selected[j])[0].percentChange == 0.0
    ensures PercentDomain(series, selected).lo <= -1.0
    ensures PercentDomain(series, selected).hi >= 1.0
  {
    var e := PercentExtent(series, selected[0]);
    assert Percents(Get(series, selected[0]))[0] == 0.0;
    assert e.lo <= 0.0 <= e.hi;
  }

  /** The linear value scale's `nice` (src/components/Viz.jsx:63) rounds
      the domain outward to round tick steps. Only that it widens an
      ordered domain is modelled; the rounding itself is d3's. */
  ghost predicate Widening(nice: Interval -> Interval) {
    forall d: Interval :: d.lo <= d.hi ==> nice(d).lo <= d.lo && d.hi <= nice(d).hi
  }

  /** The time scale: the time domain rounded outward to half hours, onto
      `[20, width - 150]`. */
  function TimeScale(series: seq<Series>, selected: seq<string>, width: real): Scale
    requires Drawable(series, selected)
  {
    Scale(NiceTime(TimeDomain(series, selected)), 20.0, width - 150.0)
  }

  /** The value scale: the value domain widened by `nice`, onto
      `[height - 40, 40]`. */
  function ValueScale(series: seq<Series>, selected: seq<string>, height: real, nice: Interval -> Interval): Scale
    requires Drawable(series, selected)
  {
    Scale(nice(ValueDomain(series, selected)), height - 40.0, 40.0)
  }

  /** The time axis runs from the last half-hour boundary at or before the
      first selected series' earliest time to the first boundary at or after
      its latest time. On a chart at least 400 wide the time scale is
      increasing and takes those boundaries to 20 and `width - 150`. */
  lemma TimeScaleIncreasing(series: seq<Series>, selected: seq<string>, width: real, t: real, t': real)
    requires Drawable(series, selected) && width >= 400.0
    requires TimeScale(series, selected, width).domain.lo < TimeScale(series, selected, width).domain.hi
    ensures
      var d, e := TimeScale(series, selected, width).domain, TimeDomain(series, selected);
      && OnGrid(d.lo) && OnGrid(d.hi)
      && d.lo <= e.lo && e.hi <= d.hi
      && e.lo - HalfHour as real < d.lo && d.hi < e.hi + HalfHour as real
    ensures Apply(TimeScale(series, selected, width), TimeScale(series, selected, width).domain.lo) == 20.0
    ensures Apply(TimeScale(series, selected, width), TimeScale(series, selected, width).domain.hi) == width - 150.0
    ensures t < t' ==> Apply(TimeScale(series, selected, width), t) < Apply(TimeScale(series, selected, width), t')
  {
    var s := TimeScale(series, selected, width);
    NiceTimeWidens(TimeDomain(series, selected));
    ApplyEnds(s);
    if t < t' {
      ApplyMonotone(s, t, t');
    }
  }

  /** On a chart more than 80 high the value scale reverses order: larger
      values are drawn higher up, and the ends of the widened value domain,
      which contains the value domain, go to `height - 40` and 40. */
  lemma ValueScaleReversing(series: seq<Series>, selected: seq<string>, height: real, nice: Interval -> Interval, v: real, v': real)
    requires Drawable(series, selected) && height > 80.0 && Widening(nice)
    requires ValueScale(series, selected, height, nice).domain.lo < ValueScale(series, selected, height, nice).domain.hi
    ensures
      var d, e := ValueScale(series, selected, height, nice).domain, ValueDomain(series, selected);
      d.lo <= e.lo && e.hi <= d.hi
    ensures Apply(ValueScale(series, selected, height, nice), ValueScale(series, selected, height, nice).domain.lo) == height - 40.0
    ensures Apply(ValueScale(series, selected, height, nice), ValueScale(series, selected, height, nice).domain.hi) == 40.0
    ensures v < v' ==> Apply(ValueScale(series, selected, height, nice), v) > Apply(ValueScale(series, selected, height, nice), v')
  {
    var s := ValueScale(series, selected, height, nice);
    ApplyEnds(s);
    if v < v' {
      ApplyMonotone(s, v, v');
    }
  }

  /** A tooltip entry: the point found for one selected ticker and where it
      is drawn. */
  datatype Annotated = Annotated(point: Point, x: real, y: real)

  /** The time under the pointer: its x inverted through the time scale. */
  function Probe(series: seq<Series>, selected: seq<string>, width: real, pointerX: real): real
    requires Drawable(series, selected)
  {
    Invert(TimeScale(series, selected, width), pointerX)
  }

  /** The value a point is drawn at: percent change with several tickers
      selected, price with one. */
  function Plotted(p: Point, selected: seq<string>): real {
    if Multiple(selected) then p.percentChange else p.price
  }

  /** The tooltip entry of the `j`-th selected ticker: the point of its
      series nearest to time `t`, placed by the two scales. */
  function Entry(series: seq<Series>, selected: seq<string>, ts: Scale, vs: Scale, t: real, j: nat): (a: Annotated)
    requires Drawable(series, selected) && j < |selected|
    ensures NearestIn(Get(series, selected[j]), t, a.point)
    ensures a.x == Apply(ts, Time(a.point)) && a.y == Apply(vs, Plotted(a.point, selected))
  {
    var ps := Get(series, selected[j]);
    var i := Center(ps, t);
    Annotated(ps[i], Apply(ts, Time(ps[i])), Apply(vs, Plotted(ps[i], selected)))
  }

  /** src/components/Viz.jsx:73-90: for each selected ticker, in selection
      order, the point of its series nearest to the time under the pointer,
      placed by the two scales. */
  function Tooltip(series: seq<Series>, selected: seq<string>, width: real, height: real, nice: Interval -> Interval, pointerX: real): (tip: seq<Annotated>)
    requires Drawable(series, selected)
    ensures |tip| == |selected|
    ensures forall j :: 0 <= j < |selected| ==>
      NearestIn(Get(series, selected[j]), Probe(series, selected, width, pointerX), tip[j].point)
    ensures forall j :: 0 <= j < |selected| ==>
      tip[j].x == Apply(TimeScale(series, selected, width), Time(tip[j].point)) &&
      tip[j].y == Apply(ValueScale(series, selected, height, nice), Plotted(tip[j].point, selected))
  {
    var ts := TimeScale(series, selected, width);
    var vs := ValueScale(series, selected, height, nice);
    var t := Invert(ts, pointerX);
    seq(|selected|, j requires 0 <= j < |selected| => Entry(series, selected, ts, vs, t, j))
  }

  /** Every tooltip marker lies inside the plot: the first one horizontally
      (its series fixes the time domain) and every one vertically (its
      value lies in the value domain), on a chart at least 400 wide and 80
      high. */
  lemma TooltipInsidePlot(series: seq<Series>, selected: seq<string>, width: real, height: real, nice: Interval -> Interval, pointerX: real)
    requires Drawable(series, selected) && width >= 400.0 && height >= 80.0 && Widening(nice)
    ensures 20.0 <= Tooltip(series, selected, width, height, nice, pointerX)[0].x <= width - 150.0
    ensures forall j :: 0 <= j < |selected| ==>
      40.0 <= Tooltip(series, selected, width, height, nice, pointerX)[j].y <= height - 40.0
  {
    var tip := Tooltip(series, selected, width, height, nice, pointerX);
    var ps0 := Get(series, selected[0]);
    assert NearestIn(ps0, Probe(series, selected, width, pointerX), tip[0].point);
    var i0 :| 0 <= i0 < |ps0| && tip[0].point == ps0[i0];
    InsideHorizontally(series, selected, width, i0);
    forall j | 0 <= j < |selected|
      ensures 40.0 <= tip[j].y <= height - 40.0
    {
      MarkerInsideVertically(series, selected, width, height, nice, pointerX, j);
    }
  }

  lemma MarkerInsideVertically(series: seq<Series>, selected: seq<string>, width: real, height: real, nice: Interval -> Interval, pointerX: real, j: nat)
    requires Drawable(series, selected) && height >= 80.0 && Widening(nice) && j < |selected|
    ensures 40.0 <= Tooltip(series, selected, width, height, nice, pointerX)[j].y <= height - 40.0
  {
    var tip := Tooltip(series, selected, width, height, nice, pointerX);
    var ps := Get(series, selected[j]);
    assert NearestIn(ps, Probe(series, selected, width, pointerX), tip[j].point);
    var i :| 0 <= i < |ps| && tip[j].point == ps[i];
    InsideVertically(series, selected, height, nice, j, i);
  }

  /** Every point of the first selected series is drawn between 20 and
      `width - 150`. */
  lemma InsideHorizontally(series: seq<Series>, selected: seq<string>, width: real, i: nat)
    requires Drawable(series, selected) && width >= 400.0 && i < |Get(series, selected[0])|
    ensures 20.0 <= Apply(TimeScale(series, selected, width), Time(Get(series, selected[0])[i])) <= width - 150.0
  {
    var ps := Get(series, selected[0]);
    assert Times(ps)[i] == Time(ps[i]);
    NiceTimeWidens(TimeDomain(series, selected));
    ApplyWithin(TimeScale(series, selected, width), Time(ps[i]));
  }

  /** Every point of every selected series is drawn between 40 and
      `height - 40`. */
  lemma InsideVertically(series: seq<Series>, selected: seq<string>, height: real, nice: Interval -> Interval, j: nat, i: nat)
    requires Drawable(series, selected) && height >= 80.0 && Widening(nice)
    requires j < |selected| && i < |Get(series, selected[j])|
    ensures 40.0 <= Apply(ValueScale(series, selected, height, nice), Plotted(Get(series, selected[j])[i], selected)) <= height - 40.0
  {
    var ps := Get(series, selected[j]);
    if Multiple(selected) {
      assert Percents(ps)[i] == ps[i].percentChange;
      var e := PercentExtent(series, selected[j]);
      assert e.lo <= ps[i].percentChange <= e.hi;
    } else {
      assert j == 0;
      assert Prices(ps)[i] == ps[i].price;
    }
    ApplyWithin(ValueScale(series, selected, height, nice), Plotted(ps[i], selected));
  }

  /** A pointer exactly at the pixel of a point of any selected series
      brings up that point as the series' tooltip entry, when the series'
      timestamps are distinct and the chart is at least 400 wide. For a
      series other than the first the time axis must not collapse to one
      instant, since the pointer then inverts to that instant whatever its
      position. */
  lemma TooltipAtPoint(series: seq<Series>, selected: seq<string>, width: real, height: real, nice: Interval -> Interval, j: nat, k: nat)
    requires Drawable(series, selected) && width >= 400.0 && j < |selected|
    requires StrictlySorted(Get(series, selected[j])) && k < |Get(series, selected[j])|
    requires j == 0 || TimeScale(series, selected, width).domain.lo < TimeScale(series, selected, width).domain.hi
    ensures
      var x := Apply(TimeScale(series, selected, width), Time(Get(series, selected[j])[k]));
      Tooltip(series, selected, width, height, nice, x)[j].point == Get(series, selected[j])[k]
  {
    var ps := Get(series, selected[j]);
    var t := Time(ps[k]);
    var x := Apply(TimeScale(series, selected, width), t);
    ProbeAtPoint(series, selected, width, j, k);
    var tip := Tooltip(series, selected, width, height, nice, x);
    assert NearestIn(ps, t, tip[j].point);
    NearestExact(ps, k, tip[j].point);
  }

  /** The pointer at the pixel of a point inverts to that point's time. */
  lemma ProbeAtPoint(series: seq<Series>, selected: seq<string>, width: real, j: nat, k: nat)
    requires Drawable(series, selected) && width >= 400.0 && j < |selected|
    requires k < |Get(series, selected[j])|
    requires j == 0 || TimeScale(series, selected, width).domain.lo < TimeScale(series, selected, width).domain.hi
    ensures
      var t := Time(Get(series, selected[j])[k]);
      Probe(series, selected, width, Apply(TimeScale(series, selected, width), t)) == t
  {
    var ps := Get(series, selected[j]);
    var t := Time(ps[k]);
    if j == 0 {
      assert Times(ps)[k] == t;
      NiceTimeWidens(TimeDomain(series, selected));
    }
    InvertApply(TimeScale(series, selected, width), t);
  }

  /** On a strictly sorted series the only point nearest to a point's own
      time is that point. */
  lemma NearestExact(ps: seq<Point>, k: nat, p: Point)
    requires StrictlySorted(ps) && k < |ps| && NearestIn(ps, Time(ps[k]), p)
    ensures p == ps[k]
  {
    var i :| 0 <= i < |ps| && p == ps[i] && (Sorted(ps) ==> IsNearest(ps, Time(ps[k]), i));
    assert Sorted(ps);
    assert Dist(Time(ps[i]), Time(ps[k])) <= 0.0;
    assert i == k;
  }

  /** src/components/Viz.jsx:188-191: for each selected ticker, in order,
      the last point of its series, which on a sorted series is one with the
      latest time. */
  function Summary(series: seq<Series>, selected: seq<string>): (latest: seq<Point>)
    requires Drawable(series, selected)
    ensures |latest| == |selected|
    ensures forall j :: 0 <= j < |selected| ==>
      latest[j] == Get(series, selected[j])[|Get(series, selected[j])| - 1]
    ensures forall j :: 0 <= j < |selected| ==> Sorted(Get(series, selected[j])) ==>
      forall p :: p in Get(series, selected[j]) ==> p.timestamp <= latest[j].timestamp
  {
    seq(|selected|, j requires 0 <= j < |selected| =>
      var ps := Get(series, selected[j]);
      ps[|ps| - 1])
  }

  /** What the chart draws for a non-empty selection. */
  datatype View = View(multiple: bool, timeScale: Scale, valueScale: Scale, summary: seq<Point>)

  /** src/components/Viz.jsx:29-64 and 188-191: the mode flag, the two
      scales onto their fixed pixel ranges, and the summary panel. */
  function Build(series: seq<Series>, selected: seq<string>, width: real, height: real, nice: Interval -> Interval): (v: View)
    requires Drawable(series, selected)
    ensures v.multiple <==> |selected| > 1
    ensures v.timeScale.domain == NiceTime(TimeDomain(series, selected))
    ensures v.timeScale.domain.lo <= TimeDomain(series, selected).lo
    ensures TimeDomain(series, selected).hi <= v.timeScale.domain.hi
    ensures (v.timeScale.r0, v.timeScale.r1) == (20.0, width - 150.0)
    ensures (v.valueScale.r0, v.valueScale.r1) == (height - 40.0, 40.0)
    ensures v.multiple ==> v.valueScale.domain == nice(PercentDomain(series, selected))
    ensures !v.multiple ==> v.valueScale.domain == nice(PriceDomain(series, selected))
    ensures v.summary == Summary(series, selected)
  {
    NiceTimeWidens(TimeDomain(series, selected));
    View(Multiple(selected), TimeScale(series, selected, width), ValueScale(series, selected, height, nice),
      Summary(series, selected))
  }
}
