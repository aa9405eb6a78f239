/**
 * Axis-aligned bounding boxes and the slab test (aabb.rs).  The slab test of
 * the source iterates over axes 0 and 1 only, so the z extent of a box never
 * influences it; the model keeps that behaviour.
 */
module Boxes {
  import opened Vectors
  import opened Points
  import opened Intervals
  import opened Rays

  datatype Aabb = Aabb(x: Interval, y: Interval, z: Interval)

  /** The box with universal intervals on every axis. */
  function DefaultBox(): (b: Aabb)
    ensures b.x == Default() && b.y == Default() && b.z == Default()
  {
    Aabb(Default(), Default(), Default())
  }

  /** Copies the three intervals. */
  function NewBox(x: Interval, y: Interval, z: Interval): (b: Aabb)
    ensures b.x == x && b.y == y && b.z == z
  {
    Aabb(Interval(x.min, x.max), Interval(y.min, y.max), Interval(z.min, z.max))
  }

  /** The interval between two coordinates, smaller one first. */
  function Span(a: real, b: real): (i: Interval)
    ensures i.min <= i.max
    ensures {i.min, i.max} == {a, b}
  {
    if a <= b then New(a, b) else New(b, a)
  }

  /** The box spanned by two corner points given in either order. */
  function FromPoints(a: Point3, b: Point3): (box: Aabb)
    ensures box.x.min <= box.x.max && box.y.min <= box.y.max && box.z.min <= box.z.max
    ensures Contains(box.x, a.v.x) && Contains(box.x, b.v.x)
    ensures Contains(box.y, a.v.y) && Contains(box.y, b.v.y)
    ensures Contains(box.z, a.v.z) && Contains(box.z, b.v.z)
  {
    NewBox(Span(a.v.x, b.v.x), Span(a.v.y, b.v.y), Span(a.v.z, b.v.z))
  }

  lemma FromPointsSymmetric(a: Point3, b: Point3)
    ensures FromPoints(a, b) == FromPoints(b, a)
  {
  }

  /** The box enclosing two boxes, axis by axis. */
  function FromBoxes(b1: Aabb, b2: Aabb): (b: Aabb)
    ensures b.x.min <= b1.x.min && b.x.min <= b2.x.min && b.x.max >= b1.x.max && b.x.max >= b2.x.max
    ensures b.y.min <= b1.y.min && b.y.min <= b2.y.min && b.y.max >= b1.y.max && b.y.max >= b2.y.max
    ensures b.z.min <= b1.z.min && b.z.min <= b2.z.min && b.z.max >= b1.z.max && b.z.max >= b2.z.max
  {
    NewBox(Enclose(b1.x, b2.x), Enclose(b1.y, b2.y), Enclose(b1.z, b2.z))
  }

  /** 1 selects y, 2 selects z and every other index selects x. */
  function AxisInterval(b: Aabb, n: int): (i: Interval)
    ensures n == 1 ==> i == b.y
    ensures n == 2 ==> i == b.z
    ensures n != 1 && n != 2 ==> i == b.x
  {
    match n
    case 1 => b.y
    case 2 => b.z
    case _ => b.x
  }

  /** The slab test divides by the x and y direction components only. */
  predicate SlabDefined(r: Ray)
  {
    r.direction.x != 0.0 && r.direction.y != 0.0
  }

  /**
   * One shrinking step of the window by the entry and exit parameters
   * `t0`, `t1` of a slab, branch for branch as in the source.
   */
  function Narrow(t: Interval, t0: real, t1: real): (n: Interval)
    ensures t.min <= n.min && n.max <= t.max
  {
    if t0 < t1 then
      Interval(if t0 > t.min then t0 else t.min, if t1 < t.max then t1 else t.max)
    else
      Interval(if t1 > t.min then t1 else t.min, if t0 < t.max then t0 else t.max)
  }

  /** The ray parameter at which coordinate `axis` of the ray equals `bound`. */
  function SlabT(bound: real, r: Ray, axis: nat): real
    requires axis < 2 && SlabDefined(r)
  {
    (bound - Index(r.origin, axis)) * (1.0 / Get(r.direction, axis))
  }

  /** The window after intersecting with the slab of `axis`. */
  function Step(b: Aabb, r: Ray, t: Interval, axis: nat): Interval
    requires axis < 2 && SlabDefined(r)
  {
    var ax := AxisInterval(b, axis);
    Narrow(t, SlabT(ax.min, r, axis), SlabT(ax.max, r, axis))
  }

  /** The window after the first `n` axes have been examined. */
  function Window(b: Aabb, r: Ray, t: Interval, n: nat): Interval
    requires n <= 2 && SlabDefined(r)
  {
    if n == 0 then t else Step(b, r, Window(b, r, t, n - 1), n - 1)
  }

  predicate NonEmpty(t: Interval)
  {
    t.min < t.max
  }

  /** The slab test succeeds iff no examined axis leaves an empty window. */
  predicate SlabHit(b: Aabb, r: Ray, t: Interval)
    requires SlabDefined(r)
  {
    NonEmpty(Window(b, r, t, 1)) && NonEmpty(Window(b, r, t, 2))
  }

  /** The source's loop over the axes, with its early exit. */
  method Hit(b: Aabb, r: Ray, rayT: Interval) returns (hit: bool)
    requires SlabDefined(r)
    ensures hit == SlabHit(b, r, rayT)
    ensures hit ==> NonEmpty(Window(b, r, rayT, 2))
  {
    var t := rayT;
    for axis := 0 to 2
      invariant t == Window(b, r, rayT, axis)
      invariant forall k :: 1 <= k <= axis ==> NonEmpty(Window(b, r, rayT, k))
    {
      var ax := AxisInterval(b, axis);
      var t0 := SlabT(ax.min, r, axis);
      var t1 := SlabT(ax.max, r, axis);
      if t0 < t1 {
        if t0 > t.min { t := t.(min := t0); }
        if t1 < t.max { t := t.(max := t1); }
      } else {
        if t1 > t.min { t := t.(min := t1); }
        if t0 < t.max { t := t.(max := t0); }
      }
      if t.max <= t.min {
        return false;
      }
    }
    return true;
  }

  /** Each examined axis can only raise the lower bound and lower the upper bound. */
  lemma {:induction false} WindowShrinks(b: Aabb, r: Ray, t: Interval, n: nat)
    requires n <= 2 && SlabDefined(r)
    ensures t.min <= Window(b, r, t, n).min && Window(b, r, t, n).max <= t.max
  {
    if n > 0 {
      WindowShrinks(b, r, t, n - 1);
    }
  }

  /** Whether the entry parameter is below the exit parameter makes no difference. */
  lemma NarrowSymmetric(t: Interval, t0: real, t1: real)
    ensures Narrow(t, t0, t1) == Narrow(t, t1, t0)
    ensures Narrow(t, t0, t1).min == (if t.min < t0 && t.min < t1 then (if t0 < t1 then t0 else t1) else t.min)
  {
  }

  /** The z interval of a box never changes the window. */
  lemma {:induction false} WindowIgnoresZ(b: Aabb, z: Interval, r: Ray, t: Interval, n: nat)
    requires n <= 2 && SlabDefined(r)
    ensures Window(b.(z := z), r, t, n) == Window(b, r, t, n)
  {
    if n > 0 {
      WindowIgnoresZ(b, z, r, t, n - 1);
    }
  }

  lemma SlabHitIgnoresZ(b: Aabb, z: Interval, r: Ray, t: Interval)
    requires SlabDefined(r)
    ensures SlabHit(b.(z := z), r, t) == SlabHit(b, r, t)
  {
    WindowIgnoresZ(b, z, r, t, 1);
    WindowIgnoresZ(b, z, r, t, 2);
  }
}
