/**
 * BVH construction (bhv.rs): the tolerant box comparator, the in-place sort
 * of a range of the object array, and the recursive median split.
 */
module Bvh {
  import opened Options
  import opened Vectors
  import opened Points
  import opened Intervals
  import opened Rays
  import opened Boxes
  import opened Hittables

  /**
   * The box a sphere stores, taken to be the cube of half-side `radius`
   * around its centre.  The definition of the sphere's box is not part of
   * this model; this stands in for it.
   */
  function SphereBox(s: Sphere): (b: Aabb)
    ensures Contains(b.x, s.center.v.x) && Contains(b.y, s.center.v.y) && Contains(b.z, s.center.v.z)
  {
    var rvec := Vec3(s.radius, s.radius, s.radius);
    FromPoints(Point3(Sub(s.center.v, rvec)), Point3(Add(s.center.v, rvec)))
  }

  /** The bounding box of any object; a node reports the box it stores. */
  function BoundingBox(h: Hittable): (b: Aabb)
    ensures h.BvhHittable? ==> b == h.node.bbox
    ensures h.SphereHittable? ==> Contains(b.x, h.sphere.center.v.x) && Contains(b.y, h.sphere.center.v.y)
                                  && Contains(b.z, h.sphere.center.v.z)
  {
    match h
    case SphereHittable(s) => SphereBox(s)
    case BvhHittable(n) => n.bbox
  }

  datatype Ordering = Less | Equal | Greater

  function AxisMin(h: Hittable, axis: int): real
  {
    AxisInterval(BoundingBox(h), axis).min
  }

  /** The comparator on box minima; minima within 0.001 of each other compare equal. */
  function BoxCompare(a: Hittable, b: Hittable, axis: int): (o: Ordering)
    ensures o == Less <==> AxisMin(a, axis) < AxisMin(b, axis) - 0.001
    ensures o == Greater <==> AxisMin(a, axis) > AxisMin(b, axis) + 0.001
    ensures o == Equal <==> AxisMin(b, axis) - 0.001 <= AxisMin(a, axis) <= AxisMin(b, axis) + 0.001
  {
    if AxisMin(a, axis) < AxisMin(b, axis) - 0.001 then Less
    else if AxisMin(a, axis) > AxisMin(b, axis) + 0.001 then Greater
    else Equal
  }

  /** The build always sorts along x, on the minima of the x intervals. */
  function XAxisComparator(a: Hittable, b: Hittable): (o: Ordering)
    ensures o == Less <==> BoundingBox(a).x.min < BoundingBox(b).x.min - 0.001
    ensures o == Greater <==> BoundingBox(a).x.min > BoundingBox(b).x.min + 0.001
    ensures o == Equal <==> BoundingBox(b).x.min - 0.001 <= BoundingBox(a).x.min <= BoundingBox(b).x.min + 0.001
  {
    BoxCompare(a, b, 0)
  }

  /** Swapping the arguments swaps Less and Greater and keeps Equal. */
  lemma BoxCompareAntisymmetric(a: Hittable, b: Hittable, axis: int)
    ensures BoxCompare(a, b, axis) == Less <==> BoxCompare(b, a, axis) == Greater
    ensures BoxCompare(a, b, axis) == Equal <==> BoxCompare(b, a, axis) == Equal
  {
  }

  /** A node whose box is the single point `xmin` on x, to exhibit comparator behaviour. */
  function BoxOnly(xmin: real): Hittable
  {
    var dot := SphereHittable(Sphere(Point3(Zero), 1.0, Materials.Lambertian(Black)));
    BvhHittable(BvhNode(dot, dot, Aabb(Interval(xmin, xmin), Interval(0.0, 0.0), Interval(0.0, 0.0))))
  }

  /** "Equal" is not transitive, so the comparator is not a total order. */
  lemma EqualIsNotTransitive()
    ensures XAxisComparator(BoxOnly(0.0), BoxOnly(0.0008)) == Equal
    ensures XAxisComparator(BoxOnly(0.0008), BoxOnly(0.0016)) == Equal
    ensures XAxisComparator(BoxOnly(0.0), BoxOnly(0.0016)) == Less
  {
  }

  predicate NotGreater(a: Hittable, b: Hittable)
  {
    XAxisComparator(a, b) != Greater
  }

  /** No neighbouring pair is out of order. */
  predicate AdjacentOrdered(s: seq<Hittable>)
  {
    forall k :: 0 <= k < |s| - 1 ==> NotGreater(s[k], s[k + 1])
  }

  /** Exchanges two neighbouring elements. */
  method SwapDown(a: array<Hittable>, j: nat)
    requires 0 < j < a.Length
    modifies a
    ensures a[..] == old(a[..])[j - 1 := old(a[j])][j := old(a[j - 1])]
    ensures multiset(a[..]) == old(multiset(a[..]))
  {
    a[j - 1], a[j] := a[j], a[j - 1];
  }

  /**
   * The order kept while `s[j]` sinks through the run `lo..i`: every pair is
   * in order except the two touching `j`, and the one element `s[j]` passed
   * over does not exceed what follows it.
   */
  ghost predicate Sinking(s: seq<Hittable>, lo: nat, i: nat, j: nat)
    requires lo <= j <= i < |s|
  {
    && (forall k :: lo <= k < i && k != j - 1 && k != j ==> NotGreater(s[k], s[k + 1]))
    && (j < i ==> NotGreater(s[j], s[j + 1]))
    && (lo < j < i ==> NotGreater(s[j - 1], s[j + 1]))
  }

  /** Swapping a strictly smaller `s[j]` with its left neighbour keeps the sinking order. */
  lemma SinkOnce(s: seq<Hittable>, t: seq<Hittable>, lo: nat, i: nat, j: nat)
    requires lo < j <= i < |s| && Sinking(s, lo, i, j)
    requires XAxisComparator(s[j], s[j - 1]) == Less
    requires t == s[j - 1 := s[j]][j := s[j - 1]]
    ensures Sinking(t, lo, i, j - 1)
  {
    forall k | lo <= k < i && k != j - 2 && k != j - 1 ensures NotGreater(t[k], t[k + 1]) {
      if k != j {
        assert t[k] == s[k] && t[k + 1] == s[k + 1];
      }
    }
  }

  /** Once `s[j]` is not below its left neighbour, the whole run `lo..i+1` is ordered. */
  lemma SinkDone(s: seq<Hittable>, lo: nat, i: nat, j: nat)
    requires lo <= j <= i < |s| && Sinking(s, lo, i, j)
    requires j > lo ==> XAxisComparator(s[j], s[j - 1]) != Less
    ensures forall k :: lo <= k < i ==> NotGreater(s[k], s[k + 1])
  {
    if j > lo {
      BoxCompareAntisymmetric(s[j], s[j - 1], 0);
    }
  }

  /**
   * Moves `a[i]` left past every strictly greater neighbour, extending the
   * ordered prefix `a[lo..i]` to `a[lo..i+1]`.
   */
  method InsertStep(a: array<Hittable>, lo: nat, i: nat)
    requires lo < i < a.Length
    requires forall k :: lo <= k < i - 1 ==> NotGreater(a[k], a[k + 1])
    modifies a
    ensures a[..lo] == old(a[..lo]) && a[i + 1..] == old(a[i + 1..])
    ensures multiset(a[..]) == old(multiset(a[..]))
    ensures forall k :: lo <= k < i ==> NotGreater(a[k], a[k + 1])
  {
    var j := i;
    while j > lo && XAxisComparator(a[j], a[j - 1]) == Less
      invariant lo <= j <= i
      invariant a[..lo] == old(a[..lo]) && a[i + 1..] == old(a[i + 1..])
      invariant multiset(a[..]) == old(multiset(a[..]))
      invariant Sinking(a[..], lo, i, j)
    {
      ghost var before := a[..];
      SwapDown(a, j);
      SinkOnce(before, a[..], lo, i, j);
      j := j - 1;
    }
    SinkDone(a[..], lo, i, j);
  }

  /**
   * One pass of the sort: inserts `a[i]` into the ordered run `a[lo..i]`;
   * an element not below its left neighbour is already in place.
   */
  method SortStep(a: array<Hittable>, lo: nat, i: nat, hi: nat)
    requires lo < i < hi <= a.Length
    requires forall k :: lo <= k < i - 1 ==> NotGreater(a[k], a[k + 1])
    modifies a
    ensures a[..lo] == old(a[..lo]) && a[hi..] == old(a[hi..])
    ensures multiset(a[..]) == old(multiset(a[..]))
    ensures forall k :: lo <= k < i ==> NotGreater(a[k], a[k + 1])
    ensures NotGreater(old(a[i - 1]), old(a[i])) ==> a[..] == old(a[..])
  {
    BoxCompareAntisymmetric(a[i], a[i - 1], 0);
    if XAxisComparator(a[i], a[i - 1]) == Less {
      InsertStep(a, lo, i);
      assert a[hi..] == a[i + 1..][hi - i - 1..];
    }
  }

  /**
   * Sorts `a[lo..hi]` in place by the x comparator, moving an element left
   * only past strictly greater neighbours (a stable insertion sort).
   */
  method SortRange(a: array<Hittable>, lo: nat, hi: nat)
    requires lo <= hi <= a.Length
    modifies a
    ensures a[..lo] == old(a[..lo]) && a[hi..] == old(a[hi..])
    ensures multiset(a[lo..hi]) == old(multiset(a[lo..hi]))
    ensures AdjacentOrdered(a[lo..hi])
    ensures AdjacentOrdered(old(a[lo..hi])) ==> a[..] == old(a[..])
  {
    ghost var wasOrdered := AdjacentOrdered(a[lo..hi]);
    if hi - lo >= 2 {
      var i := lo + 1;
      while i < hi
        invariant lo + 1 <= i <= hi
        invariant a[..lo] == old(a[..lo]) && a[hi..] == old(a[hi..])
        invariant multiset(a[..]) == old(multiset(a[..]))
        invariant forall k :: lo <= k < i - 1 ==> NotGreater(a[k], a[k + 1])
        invariant wasOrdered ==> a[..] == old(a[..])
      {
        if wasOrdered {
          OrderedNeighbours(old(a[..]), lo, hi, i - 1);
        }
        SortStep(a, lo, i, hi);
        i := i + 1;
      }
      NeighboursOrdered(a[..], lo, hi);
    }
    SliceMultiset(old(a[..]), a[..], lo, hi);
  }

  /** In an ordered range, each element is not Greater than the next. */
  lemma OrderedNeighbours(s: seq<Hittable>, lo: nat, hi: nat, k: nat)
    requires lo <= k && k + 1 < hi <= |s| && AdjacentOrdered(s[lo..hi])
    ensures NotGreater(s[k], s[k + 1])
  {
    assert s[lo..hi][k - lo] == s[k] && s[lo..hi][k - lo + 1] == s[k + 1];
  }

  /** A range whose every element is not Greater than the next is ordered. */
  lemma NeighboursOrdered(s: seq<Hittable>, lo: nat, hi: nat)
    requires lo <= hi <= |s|
    requires forall k :: lo <= k < hi - 1 ==> NotGreater(s[k], s[k + 1])
    ensures AdjacentOrdered(s[lo..hi])
  {
    forall k | 0 <= k < hi - lo - 1 ensures NotGreater(s[lo..hi][k], s[lo..hi][k + 1]) {
      assert s[lo..hi][k] == s[lo + k] && s[lo..hi][k + 1] == s[lo + k + 1];
    }
  }

  /** Any part of an ordered range is ordered. */
  lemma OrderedSlice(s: seq<Hittable>, lo: nat, hi: nat, i: nat, j: nat)
    requires lo <= i <= j <= hi <= |s| && AdjacentOrdered(s[lo..hi])
    ensures AdjacentOrdered(s[i..j])
  {
    forall k | 0 <= k < j - i - 1 ensures NotGreater(s[i..j][k], s[i..j][k + 1]) {
      OrderedNeighbours(s, lo, hi, i + k);
    }
  }

  /** Equal multisets with equal outer parts have equal middle parts. */
  lemma SliceMultiset(before: seq<Hittable>, after: seq<Hittable>, lo: nat, hi: nat)
    requires lo <= hi <= |before| == |after|
    requires multiset(before) == multiset(after)
    requires before[..lo] == after[..lo] && before[hi..] == after[hi..]
    ensures multiset(before[lo..hi]) == multiset(after[lo..hi])
  {
    assert before == before[..lo] + before[lo..hi] + before[hi..];
    assert after == after[..lo] + after[lo..hi] + after[hi..];
    assert multiset(before) == multiset(before[..lo]) + multiset(before[lo..hi]) + multiset(before[hi..]);
    assert multiset(after) == multiset(after[..lo]) + multiset(after[lo..hi]) + multiset(after[hi..]);
    var m1, m2 := multiset(before[lo..hi]), multiset(after[lo..hi]);
    forall x ensures m1[x] == m2[x] {
      assert multiset(before)[x] == multiset(before[..lo])[x] + m1[x] + multiset(before[hi..])[x];
      assert multiset(after)[x] == multiset(after[..lo])[x] + m2[x] + multiset(after[hi..])[x];
    }
    assert m1 == m2;
  }

  /**
   * The shape `from_list` gives a node over the final contents `s` of its
   * range: one object is used as both children, two objects are the two
   * children, and a longer range is split at its midpoint into two nodes;
   * the node box is always the union of the children's boxes.
   */
  ghost predicate Built(n: BvhNode, s: seq<Hittable>)
    decreases |s|
  {
    && |s| >= 1
    && n.bbox == FromBoxes(BoundingBox(n.left), BoundingBox(n.right))
    && (if |s| == 1 then n.left == s[0] && n.right == s[0]
        else if |s| == 2 then n.left == s[0] && n.right == s[1]
        else
          && n.left.BvhHittable? && n.right.BvhHittable?
          && Built(n.left.node, s[..|s| / 2])
          && Built(n.right.node, s[|s| / 2..]))
  }

  /** Splitting a range of three or more at its midpoint leaves two non-empty parts. */
  lemma MidpointSplit(start: nat, end: nat)
    requires end - start >= 3
    ensures var mid := start + (end - start) / 2; start < mid < end && mid - start < end - start && end - mid < end - start
  {
  }

  /**
   * The array after sorting (`s0`), after building the left half (`s1`)
   * and after building the right half (`s2`): the halves compose.
   */
  lemma ComposeBuilds(s0: seq<Hittable>, s1: seq<Hittable>, s2: seq<Hittable>, start: nat, mid: nat, end: nat)
    requires start < mid < end <= |s0| == |s1| == |s2|
    requires s1[..start] == s0[..start] && s1[mid..] == s0[mid..]
    requires multiset(s1[start..mid]) == multiset(s0[start..mid])
    requires s2[..mid] == s1[..mid] && s2[end..] == s1[end..]
    requires multiset(s2[mid..end]) == multiset(s1[mid..end])
    ensures s2[..start] == s0[..start] && s2[end..] == s0[end..]
    ensures s2[start..mid] == s1[start..mid]
    ensures multiset(s2[start..end]) == multiset(s0[start..end])
  {
    assert s2[..start] == s2[..mid][..start];
    assert s1[..start] == s1[..mid][..start];
    assert s2[start..mid] == s2[..mid][start..];
    assert s1[start..mid] == s1[..mid][start..];
    assert s1[end..] == s1[mid..][end - mid..];
    assert s0[end..] == s0[mid..][end - mid..];
    assert s1[mid..end] == s1[mid..][..end - mid];
    assert s0[mid..end] == s0[mid..][..end - mid];
    assert s2[start..end] == s2[start..mid] + s2[mid..end];
    assert s0[start..end] == s0[start..mid] + s0[mid..end];
  }

  /** Two nodes built over the halves of `t` make a node built over `t`. */
  lemma BuiltSplit(l: BvhNode, r: BvhNode, t: seq<Hittable>, lt: seq<Hittable>, rt: seq<Hittable>)
    requires |t| >= 3 && lt == t[..|t| / 2] && rt == t[|t| / 2..]
    requires Built(l, lt) && Built(r, rt)
    ensures Built(BvhNode(BvhHittable(l), BvhHittable(r),
                          FromBoxes(BoundingBox(BvhHittable(l)), BoundingBox(BvhHittable(r)))), t)
  {
  }

  /** The halves of a range, seen from the range itself. */
  lemma SliceHalves(a: seq<Hittable>, start: nat, mid: nat, end: nat)
    requires start <= mid <= end <= |a| && mid == start + (end - start) / 2
    ensures a[start..end][..(end - start) / 2] == a[start..mid]
    ensures a[start..end][(end - start) / 2..] == a[mid..end]
  {
  }

  /** Recursive construction over `objects[start..end]`. */
  method FromList(objects: array<Hittable>, start: nat, end: nat) returns (node: BvhNode)
    requires start < end <= objects.Length
    modifies objects
    ensures objects[..start] == old(objects[..start]) && objects[end..] == old(objects[end..])
    ensures multiset(objects[start..end]) == old(multiset(objects[start..end]))
    ensures end - start <= 2 ==> objects[..] == old(objects[..])
    ensures end - start >= 3 ==> AdjacentOrdered(objects[start..end])
    ensures AdjacentOrdered(old(objects[start..end])) ==> objects[..] == old(objects[..])
    ensures Built(node, objects[start..end])
    decreases end - start, 1
  {
    var left := objects[start];
    var right := objects[start];
    var span := end - start;
    if span == 1 {
    } else if span == 2 {
      right := objects[start + 1];
    } else {
      var l, r, mid := SplitBuild(objects, start, end);
      SliceHalves(objects[..], start, mid, end);
      BuiltSplit(l, r, objects[start..end], objects[start..mid], objects[mid..end]);
      left := BvhHittable(l);
      right := BvhHittable(r);
    }
    var bbox := FromBoxes(BoundingBox(left), BoundingBox(right));
    node := BvhNode(left, right, bbox);
  }

  /** The branch of `from_list` for three or more objects: sort, split at the midpoint, recurse. */
  method SplitBuild(objects: array<Hittable>, start: nat, end: nat) returns (l: BvhNode, r: BvhNode, mid: nat)
    requires start + 3 <= end <= objects.Length
    modifies objects
    ensures objects[..start] == old(objects[..start]) && objects[end..] == old(objects[end..])
    ensures multiset(objects[start..end]) == old(multiset(objects[start..end]))
    ensures mid == start + (end - start) / 2
    ensures Built(l, objects[start..mid]) && Built(r, objects[mid..end])
    ensures AdjacentOrdered(objects[start..end])
    ensures AdjacentOrdered(old(objects[start..end])) ==> objects[..] == old(objects[..])
    decreases end - start, 0
  {
    SortRange(objects, start, end);
    ghost var sorted := objects[..];
    assert AdjacentOrdered(sorted[start..end]);
    mid := start + (end - start) / 2;
    MidpointSplit(start, end);
    OrderedSlice(sorted, start, end, start, mid);
    OrderedSlice(sorted, start, end, mid, end);
    l := FromList(objects, start, mid);
    ghost var afterLeft := objects[..];
    ghost var leftPart := objects[start..mid];
    assert leftPart == afterLeft[start..mid];
    r := FromList(objects, mid, end);
    ghost var final := objects[..];
    assert objects[mid..end] == final[mid..end];
    ComposeBuilds(sorted, afterLeft, final, start, mid, end);
    assert objects[start..mid] == leftPart;
    // both halves were already ordered, so the recursive sorts moved nothing
    assert afterLeft == sorted;
    assert final == afterLeft;
  }

  lemma AllSpheresSplit(s: seq<Hittable>, m: nat)
    requires AllSpheres(s) && m <= |s|
    ensures AllSpheres(s[..m]) && AllSpheres(s[m..])
  {
    forall k | 0 <= k < |s| - m ensures s[m..][k].SphereHittable? {
      assert s[m..][k] == s[m + k];
    }
  }

  /**
   * Over spheres, the leaves of a built node, probed one after another,
   * answer every query exactly as the range they were built from: the
   * object repeated in a one-object node can only hit once.
   */
  lemma {:induction false} BuiltScan(n: BvhNode, s: seq<Hittable>, r: Ray, lo: real, hi: real, sqrt: real -> real)
    requires Built(n, s) && AllSpheres(s) && NonNegativeRoots(sqrt)
    ensures AllDefined(s, r)
    ensures Scan(Leaves(BvhHittable(n)), r, lo, hi, sqrt) == Scan(s, r, lo, hi, sqrt)
    decreases |s|, 1
  {
    var L, R := Leaves(n.left), Leaves(n.right);
    assert Leaves(BvhHittable(n)) == L + R;
    if |s| == 1 {
      assert L == [s[0]] && R == [s[0]];
      ScanTwice(s[0].sphere, r, lo, hi, sqrt);
    } else if |s| == 2 {
      assert L + R == s;
    } else {
      BuiltScanSplit(n, s, r, lo, hi, sqrt);
    }
  }

  /** The case of `BuiltScan` for a node over three or more objects. */
  lemma {:induction false} BuiltScanSplit(n: BvhNode, s: seq<Hittable>, r: Ray, lo: real, hi: real, sqrt: real -> real)
    requires Built(n, s) && AllSpheres(s) && NonNegativeRoots(sqrt) && |s| >= 3
    ensures AllDefined(s, r)
    ensures Scan(Leaves(n.left) + Leaves(n.right), r, lo, hi, sqrt) == Scan(s, r, lo, hi, sqrt)
    decreases |s|, 0
  {
    var m := |s| / 2;
    var left, right := n.left.node, n.right.node;
    assert Built(left, s[..m]) && Built(right, s[m..]);
    assert s == s[..m] + s[m..];
    AllSpheresSplit(s, m);
    BuiltScan(left, s[..m], r, lo, hi, sqrt);
    forall hi' ensures Scan(Leaves(n.right), r, lo, hi', sqrt) == Scan(s[m..], r, lo, hi', sqrt) {
      BuiltScan(right, s[m..], r, lo, hi', sqrt);
    }
    ScanHalves(Leaves(n.left), Leaves(n.right), s[..m], s[m..], r, lo, hi, sqrt);
  }

  /**
   * `BvhNode::new`: builds over the whole list, whose objects the sort
   * leaves permuted in place.
   */
  method NewBvh(list: HittableList) returns (node: BvhNode)
    requires |list.objects| > 0
    modifies list
    ensures multiset(list.objects) == old(multiset(list.objects))
    ensures Built(node, list.objects)
    ensures |list.objects| >= 3 ==> AdjacentOrdered(list.objects)
  {
    var s := list.objects;
    var a := new Hittable[|s|](i requires 0 <= i < |s| => s[i]);
    assert a[0..a.Length] == a[..] == s;
    node := FromList(a, 0, a.Length);
    assert a[0..a.Length] == a[..];
    list.objects := a[..];
  }

  /**
   * With conservative boxes, traversing a built tree answers a query as a
   * linear scan of the objects it was built from, in their sorted order.
   */
  lemma BuiltTreeIsScan(n: BvhNode, s: seq<Hittable>, r: Ray, lo: real, hi: real, sqrt: real -> real)
    requires Built(n, s) && AllSpheres(s) && NonNegativeRoots(sqrt)
    requires SlabDefined(r) && BoxSound(BvhHittable(n), r, sqrt)
    ensures AllDefined(s, r)
    ensures HittableHit(BvhHittable(n), r, Interval(lo, hi), sqrt) == Scan(s, r, lo, hi, sqrt)
  {
    BvhHitIsScan(BvhHittable(n), r, lo, hi, sqrt);
    BuiltScan(n, s, r, lo, hi, sqrt);
  }
}
