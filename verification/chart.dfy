/** The chart component of src/Chart.jsx: prepare the snapshot, offer one
    toggle button per ticker, keep the selection, and draw the chart only
    for a non-empty selection on a container at least 400 wide. */
module Chart {
  import opened Data
  import opened Grouping
  import opened Derivation
  import opened Viz
  import opened Bisect
  import opened Extents

  /** The toggle group reports the chosen tickers as a set; the selection
      becomes its elements as an array. The order the set enumerates them
      in is not known here, so any enumeration is taken. */
  ghost function SelectionOf(chosen: set<string>): (selected: seq<string>)
    ensures Distinct(selected)
    ensures |selected| == |chosen|
    ensures forall k :: k in selected <==> k in chosen
  {
    if chosen == {} then []
    else
      var k :| k in chosen;
      var rest := SelectionOf(chosen - {k});
      rest + [k]
  }

  /** What appears below the buttons. `Unknown` is a selected ticker with
      no rows: the source fails while computing its extent. */
  datatype Panel = Nothing | Unknown(ticker: string) | Drawn(view: View)

  datatype Screen = Screen(buttons: seq<string>, panel: Panel)

  /** The first selected ticker that has no series, if any. */
  function Missing(series: seq<Series>, selected: seq<string>): (m: Option<string>)
    ensures m.None? <==> forall j :: 0 <= j < |selected| ==> Find(series, selected[j]).Some?
    ensures m.Some? ==> m.value in selected && Find(series, m.value).None?
  {
    if |selected| == 0 then None
    else if Find(series, selected[0]).None? then Some(selected[0])
    else
      var m := Missing(series, selected[1..]);
      assert forall j :: 1 <= j < |selected| ==> selected[j] == selected[1..][j - 1];
      m
  }

  /** src/Chart.jsx:58-127 for one snapshot, selection and container size;
      `nice` is the value scale's rounding of its domain. */
  function Render(rows: seq<Row>, selected: seq<string>, width: real, height: real, nice: Interval -> Interval): (s: Screen)
    requires Baselines(rows)
    ensures s.buttons == Tickers(rows)
    ensures s.panel.Nothing? <==> |selected| == 0 || width < 400.0
    ensures s.panel.Unknown? ==> s.panel.ticker in selected && s.panel.ticker !in Tickers(rows)
    ensures s.panel.Drawn? <==>
      |selected| > 0 && width >= 400.0 && forall k :: k in selected ==> k in Tickers(rows)
    ensures s.panel.Drawn? ==>
      Drawable(Prepare(rows), selected) && s.panel.view == Build(Prepare(rows), selected, width, height, nice)
  {
    var series := Prepare(rows);
    var buttons := seq(|series|, i requires 0 <= i < |series| => series[i].ticker);
    assert buttons == Tickers(rows);
    KnownTickers(rows);
    if |selected| == 0 || width < 400.0 then Screen(buttons, Nothing)
    else
      match Missing(series, selected)
      case Some(k) => Screen(buttons, Unknown(k))
      case None =>
        assert Drawable(series, selected) by {
          forall j | 0 <= j < |selected|
            ensures |Find(series, selected[j]).value| > 0
          {
            var i :| 0 <= i < |series| && series[i].ticker == selected[j] &&
              series[i].points == Find(series, selected[j]).value;
          }
        }
        Screen(buttons, Drawn(Build(series, selected, width, height, nice)))
  }

  /** A ticker has a prepared series exactly when some row carries it. */
  lemma KnownTickers(rows: seq<Row>)
    requires Baselines(rows)
    ensures forall k :: Find(Prepare(rows), k).Some? <==> k in Tickers(rows)
  {
    var series := Prepare(rows);
    forall k
      ensures Find(series, k).Some? <==> k in Tickers(rows)
    {
      if k in Tickers(rows) {
        var i :| 0 <= i < |Tickers(rows)| && Tickers(rows)[i] == k;
        assert series[i].ticker == k;
      }
    }
  }

  /** In well-formed series, the points found under a ticker carry it. */
  lemma PointsCarryTicker(series: seq<Series>, k: string, p: Point)
    requires WellFormed(series) && Find(series, k).Some? && p in Get(series, k)
    ensures p.ticker == k
  {
    var s :| 0 <= s < |series| && series[s].ticker == k && series[s].points == Get(series, k);
    var i :| 0 <= i < |series[s].points| && series[s].points[i] == p;
  }

  /** On prepared series every tooltip entry and every summary entry
      belongs to the ticker selected at its position. */
  lemma EntriesFollowSelection(series: seq<Series>, selected: seq<string>, width: real, height: real, nice: Interval -> Interval, pointerX: real)
    requires WellFormed(series) && Drawable(series, selected)
    ensures forall j :: 0 <= j < |selected| ==>
      Tooltip(series, selected, width, height, nice, pointerX)[j].point.ticker == selected[j]
    ensures forall j :: 0 <= j < |selected| ==> Summary(series, selected)[j].ticker == selected[j]
  {
    var tip := Tooltip(series, selected, width, height, nice, pointerX);
    var latest := Summary(series, selected);
    forall j | 0 <= j < |selected|
      ensures tip[j].point.ticker == selected[j] && latest[j].ticker == selected[j]
    {
      var ps := Get(series, selected[j]);
      assert NearestIn(ps, Probe(series, selected, width, pointerX), tip[j].point);
      PointsCarryTicker(series, selected[j], tip[j].point);
      PointsCarryTicker(series, selected[j], latest[j]);
    }
  }

  /** A drawn chart of several tickers always shows the band from -1% to 1%
      on its value axis, since every prepared series starts at 0% and the
      value scale's rounding only widens its domain. */
  lemma DrawnPercentAxisCoversUnit(rows: seq<Row>, selected: seq<string>, width: real, height: real, nice: Interval -> Interval)
    requires Baselines(rows) && Widening(nice)
    requires Render(rows, selected, width, height, nice).panel.Drawn? && |selected| > 1
    ensures Render(rows, selected, width, height, nice).panel.view.valueScale.domain.lo <= -1.0
    ensures Render(rows, selected, width, height, nice).panel.view.valueScale.domain.hi >= 1.0
  {
    var series := Prepare(rows);
    forall j | 0 <= j < |selected|
      ensures Get(series, selected[j])[0].percentChange == 0.0
    {
      var s :| 0 <= s < |series| && series[s].ticker == selected[j] &&
        series[s].points == Get(series, selected[j]);
    }
    PercentDomainCoversUnit(series, selected);
  }
}
