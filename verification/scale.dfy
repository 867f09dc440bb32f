/** The linear scales of src/components/Viz.jsx:51-64 as d3 computes them:
    the input is normalised against the domain and the result interpolated
    across the range, and inversion does the same with the roles of domain
    and range swapped. A domain or range whose two ends coincide normalises
    every value to one half, as d3 does. Values are not clamped. */
module Scales {
  import opened Extents

  datatype Scale = Scale(domain: Interval, r0: real, r1: real)

  /** Where `x` sits between `a` and `b`, as a fraction. */
  function Normalize(a: real, b: real, x: real): real {
    if b - a != 0.0 then (x - a) / (b - a) else 0.5
  }

  /** The value at fraction `t` of the way from `a` to `b`. */
  function Lerp(a: real, b: real, t: real): real {
    a * (1.0 - t) + b * t
  }

  /** `scale(x)`: domain value to pixel. */
  function Apply(s: Scale, x: real): real {
    Lerp(s.r0, s.r1, Normalize(s.domain.lo, s.domain.hi, x))
  }

  /** `scale.invert(y)`: pixel to domain value. */
  function Invert(s: Scale, y: real): real {
    Lerp(s.domain.lo, s.domain.hi, Normalize(s.r0, s.r1, y))
  }

  lemma NormalizeLerp(a: real, b: real, t: real)
    requires a != b
    ensures Normalize(a, b, Lerp(a, b, t)) == t
  {
    assert Lerp(a, b, t) - a == t * (b - a);
  }

  lemma LerpNormalize(a: real, b: real, x: real)
    requires a != b
    ensures Lerp(a, b, Normalize(a, b, x)) == x
  {
    var t := (x - a) / (b - a);
    assert t * (b - a) == x - a;
    assert Lerp(a, b, t) == a + t * (b - a);
  }

  /** The domain ends go to the range ends. */
  lemma ApplyEnds(s: Scale)
    requires s.domain.lo != s.domain.hi
    ensures Apply(s, s.domain.lo) == s.r0
    ensures Apply(s, s.domain.hi) == s.r1
  {
    var d := s.domain.hi - s.domain.lo;
    assert d / d == 1.0;
  }

  /** Inverting the pixel of a domain value gives that value back, for a
      non-degenerate range and either a non-degenerate domain or the
      single value of a degenerate one. */
  lemma InvertApply(s: Scale, x: real)
    requires s.r0 != s.r1
    requires s.domain.lo != s.domain.hi || x == s.domain.lo
    ensures Invert(s, Apply(s, x)) == x
  {
    var t := Normalize(s.domain.lo, s.domain.hi, x);
    NormalizeLerp(s.r0, s.r1, t);
    if s.domain.lo != s.domain.hi {
      LerpNormalize(s.domain.lo, s.domain.hi, x);
    }
  }

  /** Applying the scale to an inverted pixel gives that pixel back. */
  lemma ApplyInvert(s: Scale, y: real)
    requires s.domain.lo != s.domain.hi && s.r0 != s.r1
    ensures Apply(s, Invert(s, y)) == y
  {
    var t := Normalize(s.r0, s.r1, y);
    NormalizeLerp(s.domain.lo, s.domain.hi, t);
    LerpNormalize(s.r0, s.r1, y);
  }

  /** For an increasing domain the scale preserves the order of values onto
      an increasing range and reverses it onto a decreasing one. */
  lemma ApplyMonotone(s: Scale, x: real, x': real)
    requires s.domain.lo < s.domain.hi && x < x'
    ensures s.r0 < s.r1 ==> Apply(s, x) < Apply(s, x')
    ensures s.r0 > s.r1 ==> Apply(s, x) > Apply(s, x')
  {
    var lo, d := s.domain.lo, s.domain.hi - s.domain.lo;
    var t, t' := (x - lo) / d, (x' - lo) / d;
    DivLess(x - lo, x' - lo, d);
    LerpStep(s.r0, s.r1, t, t');
    if s.r0 < s.r1 {
      MulPos(t' - t, s.r1 - s.r0);
    } else if s.r0 > s.r1 {
      MulPos(t' - t, s.r0 - s.r1);
    }
  }

  lemma MulPos(a: real, b: real)
    requires a > 0.0 && b > 0.0
    ensures a * b > 0.0
  {
  }

  lemma DivLess(a: real, b: real, d: real)
    requires d > 0.0 && a < b
    ensures a / d < b / d
  {
    var p := b / d - a / d;
    assert p * d == b - a;
    if p <= 0.0 {
      MulPos(-p, d);
    }
  }

  lemma LerpStep(a: real, b: real, t: real, t': real)
    ensures Lerp(a, b, t') - Lerp(a, b, t) == (t' - t) * (b - a)
  {
  }

  /** A domain value between the domain ends lands between the range ends;
      a degenerate domain puts every value at the middle of the range. */
  lemma ApplyWithin(s: Scale, x: real)
    requires s.domain.lo <= x <= s.domain.hi
    ensures s.r0 <= s.r1 ==> s.r0 <= Apply(s, x) <= s.r1
    ensures s.r1 <= s.r0 ==> s.r1 <= Apply(s, x) <= s.r0
  {
    var t := Normalize(s.domain.lo, s.domain.hi, x);
    if s.domain.lo < s.domain.hi {
      Fraction(x - s.domain.lo, s.domain.hi - s.domain.lo);
    }
    LerpWithin(s.r0, s.r1, t);
  }

  /** Interpolating at a fraction between 0 and 1 stays between the ends. */
  lemma LerpWithin(a: real, b: real, t: real)
    requires 0.0 <= t <= 1.0
    ensures a <= b ==> a <= Lerp(a, b, t) <= b
    ensures b <= a ==> b <= Lerp(a, b, t) <= a
  {
    if a <= b {
      MulNonneg(b - a, t);
      MulNonneg(b - a, 1.0 - t);
    } else {
      MulNonneg(a - b, t);
      MulNonneg(a - b, 1.0 - t);
    }
  }

  lemma MulNonneg(x: real, y: real)
    requires x >= 0.0 && y >= 0.0
    ensures x * y >= 0.0
  {
  }

  lemma Fraction(n: real, d: real)
    requires 0.0 <= n <= d && d > 0.0
    ensures 0.0 <= n / d <= 1.0
  {
    var t := n / d;
    assert t * d == n;
  }

  /** Thirty minutes in milliseconds: the step the time axis is rounded to
      (src/components/Viz.jsx:54-57). JavaScript's UTC has no leap seconds,
      so the UTC minutes that are multiples of 30 are exactly the multiples
      of this many milliseconds since the epoch. */
  const HalfHour: int := 1_800_000

  /** `x` is a whole number of milliseconds on a half-hour boundary. */
  predicate OnGrid(x: real) {
    x == x.Floor as real && x.Floor % HalfHour == 0
  }

  /** `interval.floor`: the latest half-hour boundary at or before `x`. */
  function FloorTo(x: real): real {
    ((x.Floor / HalfHour) * HalfHour) as real
  }

  /** `interval.ceil`: the earliest half-hour boundary at or after `x`. On
      whole milliseconds this is d3's `floor(x - 1)` moved one step on. */
  function CeilTo(x: real): real {
    -FloorTo(-x)
  }

  /** The time scale's `nice` with a thirty-minute UTC interval: the domain
      ends rounded outward to half-hour boundaries. */
  function NiceTime(d: Interval): Interval {
    Interval(FloorTo(d.lo), CeilTo(d.hi))
  }

  /** The floor is a boundary, at or before `x`, and less than half an hour
      before it. */
  lemma FloorToSpec(x: real)
    ensures OnGrid(FloorTo(x))
    ensures FloorTo(x) <= x < FloorTo(x) + HalfHour as real
  {
    var n := x.Floor;
    var q, r := n / HalfHour, n % HalfHour;
    assert n == q * HalfHour + r && 0 <= r < HalfHour;
    var f := q * HalfHour;
    assert (f as real).Floor == f;
    assert f % HalfHour == 0;
  }

  /** The ceiling is a boundary, at or after `x`, and less than half an
      hour after it. */
  lemma CeilToSpec(x: real)
    ensures OnGrid(CeilTo(x))
    ensures CeilTo(x) - HalfHour as real < x <= CeilTo(x)
  {
    FloorToSpec(-x);
    var f := (-x).Floor / HalfHour;
    assert CeilTo(x) == ((-f) * HalfHour) as real;
    assert (((-f) * HalfHour) as real).Floor == (-f) * HalfHour;
    assert ((-f) * HalfHour) % HalfHour == 0;
  }

  /** Rounding the time domain outward moves each end to the nearest
      half-hour boundary on its outer side: the rounded domain contains the
      original one and is less than half an hour wider at either end. */
  lemma NiceTimeWidens(d: Interval)
    requires d.lo <= d.hi
    ensures OnGrid(NiceTime(d).lo) && OnGrid(NiceTime(d).hi)
    ensures NiceTime(d).lo <= d.lo && d.hi <= NiceTime(d).hi
    ensures d.lo - HalfHour as real < NiceTime(d).lo && NiceTime(d).hi < d.hi + HalfHour as real
  {
    FloorToSpec(d.lo);
    CeilToSpec(d.hi);
  }
}
