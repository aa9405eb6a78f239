/**
 * Closed scalar ranges, used as ray-parameter windows and as per-axis box
 * bounds.  IEEE infinities are replaced by the sentinel `Infinity`, the
 * largest finite f32 value.
 */
module Intervals {

  datatype Interval = Interval(min: real, max: real)

  /** Stands for f32::INFINITY (see the README). */
  const Infinity: real := 340282346638528859811704183484516925440.0

  /** Stores its bounds unchanged. */
  function New(min: real, max: real): (i: Interval)
    ensures i.min == min && i.max == max
  {
    Interval(min, max)
  }

  /** The universal interval. */
  function Default(): (i: Interval)
    ensures i.min == -Infinity && i.max == Infinity
  {
    New(-Infinity, Infinity)
  }

  /** The length of the interval; negative exactly when it is empty. */
  function Size(i: Interval): (len: real)
    ensures i.min + len == i.max
    ensures len >= 0.0 <==> i.min <= i.max
  {
    i.max - i.min
  }

  /** Inclusive membership; only a non-empty interval contains anything. */
  predicate Contains(i: Interval, x: real)
    ensures Contains(i, x) ==> i.min <= i.max
  {
    i.min <= x && x <= i.max
  }

  /** Strict membership; an interval surrounds nothing unless it has interior, and never its bounds. */
  predicate Surrounds(i: Interval, x: real)
    ensures Surrounds(i, x) ==> i.min < i.max && x != i.min && x != i.max
  {
    i.min < x && x < i.max
  }

  /** The nearest point of a non-empty interval; points inside are kept. */
  function Clamp(i: Interval, x: real): (c: real)
    ensures i.min <= i.max ==> i.min <= c <= i.max
    ensures i.min <= x <= i.max ==> c == x
    ensures c == x || c == i.min || c == i.max
  {
    if x < i.min then i.min
    else if x > i.max then i.max
    else x
  }

  /**
   * The smallest interval enclosing both arguments.  The source's
   * `Interval::from_intervals` is not part of this model; this is its
   * documented meaning (the union used for bounding boxes).
   */
  function Enclose(a: Interval, b: Interval): (r: Interval)
    ensures r.min <= a.min && r.min <= b.min && r.max >= a.max && r.max >= b.max
    ensures r.min == a.min || r.min == b.min
    ensures r.max == a.max || r.max == b.max
  {
    Interval(if a.min <= b.min then a.min else b.min, if a.max >= b.max then a.max else b.max)
  }

  lemma NewAndSize(min: real, max: real)
    ensures New(min, max) == Interval(min, max)
    ensures Size(New(min, max)) == max - min
    ensures Size(New(-1.0, 1.0)) == 2.0
  {
  }

  /** `Surrounds` excludes both endpoints and everything outside. */
  lemma SurroundsIsStrict(i: Interval, x: real)
    ensures Surrounds(i, x) <==> i.min < x < i.max
    ensures !Surrounds(i, i.min) && !Surrounds(i, i.max)
    ensures x < i.min || x > i.max ==> !Surrounds(i, x)
  {
  }

  /** The unit tests of the interval file, as facts. */
  lemma IntervalExamples()
    ensures var i := New(-1.0, 1.0);
      && Surrounds(i, 0.0) && !Surrounds(i, -1.0) && !Surrounds(i, 1.0)
      && !Surrounds(i, 1.1) && !Surrounds(i, -1.1)
      && Contains(i, 0.0) && Contains(i, -1.0) && Contains(i, 1.0)
      && !Contains(i, 1.1) && !Contains(i, -1.1)
  {
  }

  /** `Contains` includes both endpoints when the interval is non-empty. */
  lemma ContainsIsInclusive(i: Interval, x: real)
    ensures Contains(i, x) <==> i.min <= x <= i.max
    ensures i.min <= i.max ==> Contains(i, i.min) && Contains(i, i.max)
    ensures x < i.min || x > i.max ==> !Contains(i, x)
  {
  }

  lemma SurroundsImpliesContains(i: Interval, x: real)
    ensures Surrounds(i, x) ==> Contains(i, x)
  {
  }

  /** On a non-empty interval, `Clamp` lands inside, fixes members and is idempotent. */
  lemma ClampProperties(i: Interval, x: real)
    ensures i.min <= i.max ==> Contains(i, Clamp(i, x))
    ensures Contains(i, x) ==> Clamp(i, x) == x
    ensures i.min <= i.max ==> Clamp(i, Clamp(i, x)) == Clamp(i, x)
  {
  }

  /** `Clamp` never reverses the order of two values. */
  lemma ClampMonotone(i: Interval, x: real, y: real)
    requires i.min <= i.max
    requires x <= y
    ensures Clamp(i, x) <= Clamp(i, y)
  {
  }
}
