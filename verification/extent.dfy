/** d3's `extent`: the least and the greatest of a list of values, found in
    one pass that keeps the running minimum and maximum. Every list the
    chart passes to it is non-empty. */
module Extents {

  datatype Interval = Interval(lo: real, hi: real)

  /** `[lo, hi]` is the extent of `xs`: both ends are values of `xs`, and
      every value lies between them. */
  predicate IsExtent(e: Interval, xs: seq<real>) {
    && e.lo in xs
    && e.hi in xs
    && forall i :: 0 <= i < |xs| ==> e.lo <= xs[i] <= e.hi
  }

  function Extent(xs: seq<real>): (e: Interval)
    requires |xs| > 0
    ensures IsExtent(e, xs)
    ensures e.lo <= e.hi
  {
    if |xs| == 1 then Interval(xs[0], xs[0])
    else
      var init := xs[..|xs| - 1];
      var x := xs[|xs| - 1];
      var e := Extent(init);
      assert forall i :: 0 <= i < |init| ==> init[i] == xs[i];
      Interval(if x < e.lo then x else e.lo, if x > e.hi then x else e.hi)
  }

  /** The extent of a list is fixed by the list's values: any two intervals
      that are both extents of the same list are equal. */
  lemma ExtentUnique(e: Interval, f: Interval, xs: seq<real>)
    requires IsExtent(e, xs) && IsExtent(f, xs)
    ensures e == f
  {
    var i :| 0 <= i < |xs| && xs[i] == e.lo;
    var j :| 0 <= j < |xs| && xs[j] == f.lo;
    var k :| 0 <= k < |xs| && xs[k] == e.hi;
    var l :| 0 <= l < |xs| && xs[l] == f.hi;
    assert f.lo <= xs[i] && e.lo <= xs[j];
    assert f.hi >= xs[k] && e.hi >= xs[l];
  }
}
