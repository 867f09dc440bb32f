/** Grouping of the flat snapshot rows by ticker, as d3's `group` does it
    (src/Chart.jsx:58): one pass over the rows, appending each row to the
    group of its ticker and opening a new group the first time a ticker is
    seen. The fold is related to two independent reference definitions:
    the tickers in order of first occurrence, and the rows of one ticker. */
module Grouping {
  import opened Data

  datatype Group = Group(ticker: string, rows: seq<Row>)

  /** The tickers of `rows`, each once, in order of first occurrence. */
  function Tickers(rows: seq<Row>): (ks: seq<string>)
    ensures Distinct(ks)
    ensures forall k :: k in ks <==> exists i :: 0 <= i < |rows| && rows[i].ticker == k
  {
    if |rows| == 0 then []
    else
      var init := rows[..|rows| - 1];
      var ks := Tickers(init);
      assert forall i :: 0 <= i < |init| ==> init[i] == rows[i];
      if rows[|rows| - 1].ticker in ks then ks else ks + [rows[|rows| - 1].ticker]
  }

  /** Ticker `j` is seen at some row before ticker `k` is seen at all. */
  ghost predicate SeenBefore(rows: seq<Row>, j: string, k: string) {
    exists i :: 0 <= i < |rows| && rows[i].ticker == j &&
      forall i' :: 0 <= i' <= i ==> rows[i'].ticker != k
  }

  /** The rows of ticker `k`, in the order they were received. */
  function RowsOf(rows: seq<Row>, k: string): (g: seq<Row>)
    ensures |g| <= |rows|
    ensures forall r :: r in g ==> r.ticker == k && r in rows
    ensures forall i :: 0 <= i < |rows| && rows[i].ticker == k ==> rows[i] in g
  {
    if |rows| == 0 then []
    else
      var init := rows[..|rows| - 1];
      assert forall i :: 0 <= i < |init| ==> init[i] == rows[i];
      var g := RowsOf(init, k);
      if rows[|rows| - 1].ticker == k then g + [rows[|rows| - 1]] else g
  }

  lemma RowsOfAbsent(rows: seq<Row>, k: string)
    requires k !in Tickers(rows)
    ensures RowsOf(rows, k) == []
  {
  }

  /** The positions of the rows of ticker `k`, in increasing order. */
  function Positions(rows: seq<Row>, k: string): (ps: seq<nat>)
    ensures forall a :: 0 <= a < |ps| ==> ps[a] < |rows| && rows[ps[a]].ticker == k
    ensures forall a, b :: 0 <= a < b < |ps| ==> ps[a] < ps[b]
    ensures forall i :: 0 <= i < |rows| && rows[i].ticker == k ==> i in ps
  {
    if |rows| == 0 then []
    else
      var init := rows[..|rows| - 1];
      assert forall i :: 0 <= i < |init| ==> init[i] == rows[i];
      var ps := Positions(init, k);
      if rows[|rows| - 1].ticker == k then ps + [|rows| - 1] else ps
  }

  /** The group of one ticker keeps the received order: its `a`-th row is
      the row at the `a`-th position of that ticker in the snapshot. */
  lemma {:induction false} RowsOfKeepsOrder(rows: seq<Row>, k: string)
    ensures |RowsOf(rows, k)| == |Positions(rows, k)|
    ensures forall a :: 0 <= a < |RowsOf(rows, k)| ==> RowsOf(rows, k)[a] == rows[Positions(rows, k)[a]]
  {
    if |rows| > 0 {
      var init := rows[..|rows| - 1];
      var last := rows[|rows| - 1];
      RowsOfKeepsOrder(init, k);
      var g, ps := RowsOf(rows, k), Positions(rows, k);
      var g0, ps0 := RowsOf(init, k), Positions(init, k);
      if last.ticker == k {
        assert g == g0 + [last] && ps == ps0 + [|rows| - 1];
      } else {
        assert g == g0 && ps == ps0;
      }
      forall a | 0 <= a < |g|
        ensures g[a] == rows[ps[a]]
      {
        if a < |g0| {
          assert g[a] == g0[a] == init[ps0[a]];
          assert ps[a] == ps0[a] < |init|;
        }
      }
    }
  }

  /** The keys of a list of groups, in order. */
  function Keys(gs: seq<Group>): seq<string> {
    seq(|gs|, i requires 0 <= i < |gs| => gs[i].ticker)
  }

  predicate DistinctTickers(gs: seq<Group>) {
    Distinct(Keys(gs))
  }

  /** The position of the group of ticker `k`, if there is one. */
  function IndexOf(gs: seq<Group>, k: string): (o: Option<nat>)
    ensures o.Some? ==> o.value < |gs| && gs[o.value].ticker == k
    ensures o.None? ==> forall i :: 0 <= i < |gs| ==> gs[i].ticker != k
  {
    if |gs| == 0 then None
    else if gs[|gs| - 1].ticker == k then Some(|gs| - 1)
    else IndexOf(gs[..|gs| - 1], k)
  }

  /** One step of the grouping pass: add `r` to the group of its ticker, or
      open a new group at the end. */
  function Insert(gs: seq<Group>, r: Row): (gs': seq<Group>)
    requires DistinctTickers(gs)
    ensures DistinctTickers(gs')
    ensures (exists i :: 0 <= i < |gs| && gs[i].ticker == r.ticker) ==> |gs'| == |gs|
    ensures (forall i :: 0 <= i < |gs| ==> gs[i].ticker != r.ticker) ==>
      |gs'| == |gs| + 1 && gs'[|gs|] == Group(r.ticker, [r])
    ensures forall i :: 0 <= i < |gs| ==>
      gs'[i].ticker == gs[i].ticker &&
      gs'[i].rows == if gs[i].ticker == r.ticker then gs[i].rows + [r] else gs[i].rows
  {
    assert forall j :: 0 <= j < |gs| ==> Keys(gs)[j] == gs[j].ticker;
    match IndexOf(gs, r.ticker)
    case Some(i) =>
      var gs' := gs[i := Group(gs[i].ticker, gs[i].rows + [r])];
      assert Keys(gs') == Keys(gs);
      gs'
    case None =>
      var gs' := gs + [Group(r.ticker, [r])];
      assert Keys(gs') == Keys(gs) + [r.ticker];
      gs'
  }

  /** `gs` holds one group per ticker of `rows`, in order of first
      occurrence, each with exactly that ticker's rows. */
  predicate GroupsOf(rows: seq<Row>, gs: seq<Group>) {
    && DistinctTickers(gs)
    && |gs| == |Tickers(rows)|
    && forall i :: 0 <= i < |gs| ==>
         gs[i].ticker == Tickers(rows)[i] && gs[i].rows == RowsOf(rows, gs[i].ticker)
  }

  lemma GroupStep(rows: seq<Row>, gs: seq<Group>)
    requires |rows| > 0
    requires GroupsOf(rows[..|rows| - 1], gs)
    ensures GroupsOf(rows, Insert(gs, rows[|rows| - 1]))
  {
    if rows[|rows| - 1].ticker in Tickers(rows[..|rows| - 1]) {
      GroupStepSeen(rows, gs);
    } else {
      GroupStepNew(rows, gs);
    }
  }

  /** A row of a ticker already seen extends that ticker's group. */
  lemma GroupStepSeen(rows: seq<Row>, gs: seq<Group>)
    requires |rows| > 0
    requires GroupsOf(rows[..|rows| - 1], gs)
    requires rows[|rows| - 1].ticker in Tickers(rows[..|rows| - 1])
    ensures GroupsOf(rows, Insert(gs, rows[|rows| - 1]))
  {
    var init := rows[..|rows| - 1];
    var r := rows[|rows| - 1];
    var gs' := Insert(gs, r);
    var j :| 0 <= j < |Tickers(init)| && Tickers(init)[j] == r.ticker;
    assert gs[j].ticker == r.ticker;
    assert |gs'| == |gs|;
    assert Tickers(rows) == Tickers(init);
    forall i | 0 <= i < |gs'|
      ensures gs'[i].ticker == Tickers(rows)[i] && gs'[i].rows == RowsOf(rows, gs'[i].ticker)
    {
      var k := gs[i].ticker;
      assert gs'[i].ticker == k;
      if k == r.ticker {
        calc {
          gs'[i].rows;
          gs[i].rows + [r];
          RowsOf(init, k) + [r];
          RowsOf(rows, k);
        }
      } else {
        calc {
          gs'[i].rows;
          gs[i].rows;
          RowsOf(init, k);
          RowsOf(rows, k);
        }
      }
    }
  }

  /** A row of a ticker not seen before opens a new group at the end. */
  lemma GroupStepNew(rows: seq<Row>, gs: seq<Group>)
    requires |rows| > 0
    requires GroupsOf(rows[..|rows| - 1], gs)
    requires rows[|rows| - 1].ticker !in Tickers(rows[..|rows| - 1])
    ensures GroupsOf(rows, Insert(gs, rows[|rows| - 1]))
  {
    var init := rows[..|rows| - 1];
    var r := rows[|rows| - 1];
    var gs' := Insert(gs, r);
    RowsOfAbsent(init, r.ticker);
    assert Tickers(rows) == Tickers(init) + [r.ticker];
    assert forall i :: 0 <= i < |gs| ==> gs[i].ticker != r.ticker;
    forall i | 0 <= i < |gs'|
      ensures gs'[i].ticker == Tickers(rows)[i] && gs'[i].rows == RowsOf(rows, gs'[i].ticker)
    {
      if i < |gs| {
        assert gs'[i].ticker == gs[i].ticker;
      }
    }
  }

  /** d3's `group(rows, d => d.ticker)`: one group per ticker, in order of
      first occurrence, each holding exactly that ticker's rows in received
      order. */
  function GroupRows(rows: seq<Row>): (gs: seq<Group>)
    ensures GroupsOf(rows, gs)
  {
    if |rows| == 0 then []
    else
      var gs := GroupRows(rows[..|rows| - 1]);
      GroupStep(rows, gs);
      Insert(gs, rows[|rows| - 1])
  }

  /** The total number of rows held by a list of groups. */
  function Size(gs: seq<Group>): nat {
    if |gs| == 0 then 0 else Size(gs[..|gs| - 1]) + |gs[|gs| - 1].rows|
  }

  lemma {:induction false} SizeUpdate(gs: seq<Group>, i: nat, g: Group)
    requires i < |gs|
    ensures Size(gs[i := g]) + |gs[i].rows| == Size(gs) + |g.rows|
  {
    var n := |gs|;
    if i < n - 1 {
      SizeUpdate(gs[..n - 1], i, g);
      assert gs[i := g][..n - 1] == gs[..n - 1][i := g];
    } else {
      assert gs[i := g][..n - 1] == gs[..n - 1];
    }
  }

  lemma SizeInsert(gs: seq<Group>, r: Row)
    requires DistinctTickers(gs)
    ensures Size(Insert(gs, r)) == Size(gs) + 1
  {
    match IndexOf(gs, r.ticker)
    case Some(i) => SizeUpdate(gs, i, Group(gs[i].ticker, gs[i].rows + [r]));
    case None => assert (gs + [Group(r.ticker, [r])])[..|gs|] == gs;
  }

  lemma {:induction false} GroupRowsSize(rows: seq<Row>)
    ensures Size(GroupRows(rows)) == |rows|
  {
    if |rows| > 0 {
      var init := rows[..|rows| - 1];
      GroupRowsSize(init);
      SizeInsert(GroupRows(init), rows[|rows| - 1]);
    }
  }

  /** Grouping partitions the snapshot: every row lies in the group of its
      own ticker and in no other, every group holds only rows of its
      ticker, and the group sizes add up to the number of rows. */
  lemma GroupRowsPartitions(rows: seq<Row>)
    ensures forall i :: 0 <= i < |rows| ==>
      exists g :: 0 <= g < |GroupRows(rows)| &&
        GroupRows(rows)[g].ticker == rows[i].ticker && rows[i] in GroupRows(rows)[g].rows
    ensures forall g, r :: 0 <= g < |GroupRows(rows)| && r in GroupRows(rows)[g].rows ==>
      r.ticker == GroupRows(rows)[g].ticker
    ensures Size(GroupRows(rows)) == |rows|
  {
    GroupRowsSize(rows);
    var gs := GroupRows(rows);
    forall i | 0 <= i < |rows|
      ensures exists g :: 0 <= g < |gs| && gs[g].ticker == rows[i].ticker && rows[i] in gs[g].rows
    {
      var k := rows[i].ticker;
      assert k in Tickers(rows);
      var g :| 0 <= g < |Tickers(rows)| && Tickers(rows)[g] == k;
      assert gs[g].ticker == k;
    }
  }

  /** The group keys, which are also the order of the toggle buttons
      (src/Chart.jsx:81), appear in order of first occurrence. */
  lemma {:induction false} TickersFirstOccurrence(rows: seq<Row>)
    ensures forall a, b :: 0 <= a < b < |Tickers(rows)| ==>
      SeenBefore(rows, Tickers(rows)[a], Tickers(rows)[b])
  {
    if |rows| > 0 {
      var n := |rows|;
      var init := rows[..n - 1];
      var last := rows[n - 1];
      var ks := Tickers(init);
      TickersFirstOccurrence(init);
      assert forall i :: 0 <= i < |init| ==> init[i] == rows[i];
      forall a, b | 0 <= a < b < |Tickers(rows)|
        ensures SeenBefore(rows, Tickers(rows)[a], Tickers(rows)[b])
      {
        var j, k := Tickers(rows)[a], Tickers(rows)[b];
        if b < |ks| {
          assert SeenBefore(init, j, k);
          var i :| 0 <= i < |init| && init[i].ticker == j &&
            forall i' :: 0 <= i' <= i ==> init[i'].ticker != k;
          assert rows[i].ticker == j;
        } else {
          assert k == last.ticker && k !in ks;
          assert j in ks;
          var i :| 0 <= i < |init| && init[i].ticker == j;
          assert forall i' :: 0 <= i' < |init| ==> init[i'].ticker in ks;
          assert rows[i].ticker == j;
        }
      }
    }
  }
}
