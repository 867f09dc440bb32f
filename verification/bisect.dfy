/** The nearest-point lookup of src/components/Viz.jsx:14 and 76-78:
    d3's `bisector(d => d.timestamp).center`. A binary search finds the
    first point, among all but the last, that is not earlier than the
    probe; the point just before it is taken instead when it is strictly
    closer. When the probe is exactly halfway between two points this rule
    takes the later one. */
module Bisect {
  import opened Data

  function Time(p: Point): real {
    p.timestamp as real
  }

  /** Timestamps never decrease along the series. */
  predicate Sorted(ps: seq<Point>) {
    forall i, j :: 0 <= i < j < |ps| ==> ps[i].timestamp <= ps[j].timestamp
  }

  /** Timestamps increase strictly along the series. */
  predicate StrictlySorted(ps: seq<Point>) {
    forall i, j :: 0 <= i < j < |ps| ==> ps[i].timestamp < ps[j].timestamp
  }

  function Dist(a: real, b: real): real {
    if a < b then b - a else a - b
  }

  /** No point of the series is strictly closer to time `x` than point `i`. */
  predicate IsNearest(ps: seq<Point>, x: real, i: nat) {
    && i < |ps|
    && forall j :: 0 <= j < |ps| ==> Dist(Time(ps[i]), x) <= Dist(Time(ps[j]), x)
  }

  /** `p` is a point of `ps`, and one nearest to time `x` when `ps` is sorted. */
  predicate NearestIn(ps: seq<Point>, x: real, p: Point) {
    exists i :: 0 <= i < |ps| && p == ps[i] && (Sorted(ps) ==> IsNearest(ps, x, i))
  }

  /** d3's `bisectLeft` over `ps[lo..hi]`: on a sorted series, the points
      before the result are earlier than `x` and the rest are not. */
  function Left(ps: seq<Point>, x: real, lo: nat, hi: nat): (i: nat)
    requires lo <= hi <= |ps|
    ensures lo <= i <= hi
    ensures Sorted(ps) ==>
      (forall j :: lo <= j < i ==> Time(ps[j]) < x) &&
      (forall j :: i <= j < hi ==> Time(ps[j]) >= x)
    decreases hi - lo
  {
    if lo < hi then
      var mid := (lo + hi) / 2;
      if Time(ps[mid]) < x then Left(ps, x, mid + 1, hi) else Left(ps, x, lo, mid)
    else lo
  }

  /** d3's `bisector.center`: the index of a point nearest to time `x`. */
  function Center(ps: seq<Point>, x: real): (i: nat)
    requires |ps| > 0
    ensures i < |ps|
    ensures Sorted(ps) ==> IsNearest(ps, x, i)
    ensures Sorted(ps) && x <= Time(ps[0]) ==> i == 0
    ensures Sorted(ps) && x > Time(ps[|ps| - 1]) ==> i == |ps| - 1
  {
    var i := Left(ps, x, 0, |ps| - 1);
    var c := if i > 0 && Time(ps[i - 1]) - x > -(Time(ps[i]) - x) then i - 1 else i;
    assert Sorted(ps) ==> IsNearest(ps, x, c) by {
      if Sorted(ps) {
        CenterNearest(ps, x, i, c);
      }
    }
    c
  }

  lemma CenterNearest(ps: seq<Point>, x: real, i: nat, c: nat)
    requires Sorted(ps) && 0 <= i < |ps|
    requires forall j :: 0 <= j < i ==> Time(ps[j]) < x
    requires forall j :: i <= j < |ps| - 1 ==> Time(ps[j]) >= x
    requires c == if i > 0 && Time(ps[i - 1]) - x > -(Time(ps[i]) - x) then i - 1 else i
    ensures IsNearest(ps, x, c)
  {
    forall j | 0 <= j < |ps|
      ensures Dist(Time(ps[c]), x) <= Dist(Time(ps[j]), x)
    {
      if j < i {
        assert Time(ps[j]) <= Time(ps[i - 1]);
      } else if j > i {
        assert Time(ps[i]) <= Time(ps[j]);
      }
    }
  }

  /** A probe exactly at a point's time finds that point, when no two
      points share a time. */
  lemma CenterExact(ps: seq<Point>, k: nat)
    requires StrictlySorted(ps) && k < |ps|
    ensures Center(ps, Time(ps[k])) == k
  {
    var i := Center(ps, Time(ps[k]));
    assert Sorted(ps);
    assert Dist(Time(ps[i]), Time(ps[k])) <= 0.0;
  }
}
