/**
 * Intersectable objects: spheres, BVH nodes, the linear scan of a list and
 * the BVH traversal (hit_record.rs, bhv.rs).  A BVH node's hit dispatches on
 * its children, which may be spheres or nodes, so traversal lives beside the
 * sphere test; construction is in module Bvh.
 */
module Hittables {
  import opened Options
  import opened Vectors
  import opened Points
  import opened Intervals
  import opened Rays
  import opened Boxes
  import opened HitRecords
  import opened Materials

  /** A sphere radius; zero would make the outward normal a division by zero. */
  type Radius = r: real | r != 0.0 witness 1.0

  datatype Sphere = Sphere(center: Point3, radius: Radius, mat: Material)

  datatype Hittable = SphereHittable(sphere: Sphere) | BvhHittable(node: BvhNode)

  datatype BvhNode = BvhNode(left: Hittable, right: Hittable, bbox: Aabb)

  /** An intersection together with the material of the surface hit. */
  datatype SurfaceHit = SurfaceHit(rec: HitRecord, mat: Material)

  // ---------------------------------------------------------------- spheres

  /** Vector from the ray origin to the sphere centre. */
  function ToCenter(s: Sphere, r: Ray): Vec3
  {
    Sub(AsVec(s.center), AsVec(r.origin))
  }

  /** The reduced quadratic a·t² − 2h·t + c = 0 of the ray/sphere problem. */
  function QuadA(r: Ray): (a: real)
    ensures a >= 0.0
  {
    LengthSquared(r.direction)
  }

  function QuadH(s: Sphere, r: Ray): real
  {
    Dot(r.direction, ToCenter(s, r))
  }

  function QuadC(s: Sphere, r: Ray): real
  {
    LengthSquared(ToCenter(s, r)) - s.radius * s.radius
  }

  function Discriminant(s: Sphere, r: Ray): real
  {
    QuadH(s, r) * QuadH(s, r) - QuadA(r) * QuadC(s, r)
  }

  /** The nearer and farther roots. */
  function NearRoot(s: Sphere, r: Ray, sqrt: real -> real): real
    requires QuadA(r) != 0.0
  {
    (QuadH(s, r) - sqrt(Discriminant(s, r))) / QuadA(r)
  }

  function FarRoot(s: Sphere, r: Ray, sqrt: real -> real): real
    requires QuadA(r) != 0.0
  {
    (QuadH(s, r) + sqrt(Discriminant(s, r))) / QuadA(r)
  }

  /** The outward unit normal at point `p` of the sphere. */
  function OutwardNormal(s: Sphere, p: Point3): Vec3
  {
    Mul(Sub(AsVec(p), AsVec(s.center)), 1.0 / s.radius)
  }

  /** The hit record built for root `t`, its normal oriented against the ray. */
  function SphereRecord(s: Sphere, r: Ray, t: real): (h: SurfaceHit)
    ensures h.rec.t == t && h.rec.point == At(r, t) && h.mat == s.mat
    ensures h.rec == SetFaceNormal(HitRecord(At(r, t), Zero, t, false), r, OutwardNormal(s, At(r, t)))
  {
    var p := At(r, t);
    SurfaceHit(SetFaceNormal(HitRecord(p, Zero, t, false), r, OutwardNormal(s, p)), s.mat)
  }

  /**
   * The sphere test: the nearer root if the window strictly surrounds it,
   * else the farther root if surrounded, else no hit.  A zero direction
   * gives a = 0, where the source computes 0/0 = NaN, which no interval
   * surrounds; the model answers no hit there.
   */
  function SphereHit(s: Sphere, r: Ray, rayT: Interval, sqrt: real -> real): (res: Option<SurfaceHit>)
    ensures Discriminant(s, r) < 0.0 || QuadA(r) == 0.0 ==> res.None?
    ensures res.Some? ==> Surrounds(rayT, res.value.rec.t)
    ensures res.Some? ==> res.value == SphereRecord(s, r, res.value.rec.t)
    ensures Discriminant(s, r) >= 0.0 && QuadA(r) != 0.0 ==>
      (res.Some? <==> Surrounds(rayT, NearRoot(s, r, sqrt)) || Surrounds(rayT, FarRoot(s, r, sqrt)))
    ensures res.Some? ==> QuadA(r) != 0.0
    ensures res.Some? && QuadA(r) != 0.0 ==>
      res.value.rec.t == (if Surrounds(rayT, NearRoot(s, r, sqrt)) then NearRoot(s, r, sqrt) else FarRoot(s, r, sqrt))
  {
    var a := LengthSquared(r.direction);
    var discriminant := Discriminant(s, r);
    if discriminant < 0.0 then None
    else if a == 0.0 then None
    else
      var root := NearRoot(s, r, sqrt);
      if Surrounds(rayT, root) then Some(SphereRecord(s, r, root))
      else
        var root := FarRoot(s, r, sqrt);
        if Surrounds(rayT, root) then Some(SphereRecord(s, r, root))
        else None
  }

  /** `sqrt` returns a non-negative value on non-negative input. */
  ghost predicate NonNegativeRoots(sqrt: real -> real)
  {
    forall d :: 0.0 <= d ==> 0.0 <= sqrt(d)
  }

  lemma NearRootFirst(s: Sphere, r: Ray, sqrt: real -> real)
    requires QuadA(r) != 0.0 && Discriminant(s, r) >= 0.0
    requires NonNegativeRoots(sqrt)
    ensures NearRoot(s, r, sqrt) <= FarRoot(s, r, sqrt)
  {
    var a, h, d := QuadA(r), QuadH(s, r), sqrt(Discriminant(s, r));
    assert a > 0.0 && d >= 0.0;
    assert (h - d) / a <= (h + d) / a by {
      assert h - d <= h + d;
      DivMonotone(h - d, h + d, a);
    }
  }

  lemma DivMonotone(x: real, y: real, a: real)
    requires a > 0.0 && x <= y
    ensures x / a <= y / a
  {
    assert y / a - x / a == (y - x) / a;
  }

  /**
   * A sphere's answer is unchanged when the upper end of the window moves,
   * provided the hit stays below the new end.
   */
  lemma SphereWindow(s: Sphere, r: Ray, lo: real, hi: real, hi': real, sqrt: real -> real)
    requires NonNegativeRoots(sqrt)
    requires SphereHit(s, r, Interval(lo, hi), sqrt).Some?
    requires SphereHit(s, r, Interval(lo, hi), sqrt).value.rec.t < hi'
    ensures SphereHit(s, r, Interval(lo, hi'), sqrt) == SphereHit(s, r, Interval(lo, hi), sqrt)
  {
    NearRootFirst(s, r, sqrt);
  }

  /** A sphere cannot be hit again strictly before its own hit. */
  lemma SphereNoSecondHit(s: Sphere, r: Ray, lo: real, hi: real, sqrt: real -> real)
    requires NonNegativeRoots(sqrt)
    requires SphereHit(s, r, Interval(lo, hi), sqrt).Some?
    ensures SphereHit(s, r, Interval(lo, SphereHit(s, r, Interval(lo, hi), sqrt).value.rec.t), sqrt).None?
  {
    NearRootFirst(s, r, sqrt);
  }

  /** `sqrt` is an exact square root at `d`. */
  ghost predicate IsRootOf(sqrt: real -> real, d: real)
  {
    0.0 <= sqrt(d) && sqrt(d) * sqrt(d) == d
  }

  /**
   * With an exact square root, a reported point lies on the sphere and the
   * normal has unit length.
   */
  lemma SphereHitOnSurface(s: Sphere, r: Ray, rayT: Interval, sqrt: real -> real)
    requires IsRootOf(sqrt, Discriminant(s, r))
    requires SphereHit(s, r, rayT, sqrt).Some?
    ensures var p := SphereHit(s, r, rayT, sqrt).value.rec.point;
      LengthSquared(Sub(AsVec(p), AsVec(s.center))) == s.radius * s.radius
    ensures LengthSquared(SphereHit(s, r, rayT, sqrt).value.rec.normal) == 1.0
  {
    var t := SphereHit(s, r, rayT, sqrt).value.rec.t;
    var a, h, c := QuadA(r), QuadH(s, r), QuadC(s, r);
    var q := sqrt(Discriminant(s, r));
    assert t == (h - q) / a || t == (h + q) / a;
    RootSolvesQuadratic(a, h, c, q, t);
    var oc := ToCenter(s, r);
    var p := At(r, t);
    var pc := Sub(AsVec(p), AsVec(s.center));
    assert pc == Sub(Mul(r.direction, t), oc);
    ExpandSquare(r.direction, oc, t);
    assert LengthSquared(pc) == s.radius * s.radius;
    var n := OutwardNormal(s, p);
    ScaledLength(pc, 1.0 / s.radius);
    assert (1.0 / s.radius) * (1.0 / s.radius) * (s.radius * s.radius) == 1.0;
    assert LengthSquared(n) == 1.0;
    var rec := SphereHit(s, r, rayT, sqrt).value.rec;
    assert rec.normal == n || rec.normal == Mul(n, -1.0);
    ScaledLength(n, -1.0);
  }

  /** a·t² − 2h·t + c = 0 at t = (h ± q)/a when q² = h² − a·c. */
  lemma RootSolvesQuadratic(a: real, h: real, c: real, q: real, t: real)
    requires a != 0.0 && q * q == h * h - a * c
    requires t == (h - q) / a || t == (h + q) / a
    ensures a * t * t - 2.0 * h * t + c == 0.0
  {
    var e := if t == (h - q) / a then -q else q;
    assert a * t == h + e;
    assert e * e == q * q;
    calc {
      a * (a * t * t - 2.0 * h * t + c);
      (a * t) * (a * t) - 2.0 * h * (a * t) + a * c;
      (h + e) * (h + e) - 2.0 * h * (h + e) + a * c;
      e * e - h * h + a * c;
      0.0;
    }
  }

  /** |t·d − oc|² expanded. */
  lemma ExpandSquare(d: Vec3, oc: Vec3, t: real)
    ensures LengthSquared(Sub(Mul(d, t), oc))
         == LengthSquared(d) * t * t - 2.0 * Dot(d, oc) * t + LengthSquared(oc)
  {
  }

  lemma ScaledLength(v: Vec3, k: real)
    ensures LengthSquared(Mul(v, k)) == k * k * LengthSquared(v)
  {
  }

  // -------------------------------------------------------------- traversal

  /** A sphere needs nothing of the ray; a BVH node needs its slab test to be defined. */
  predicate Defined(h: Hittable, r: Ray)
  {
    h.SphereHittable? || SlabDefined(r)
  }

  predicate AllDefined(objs: seq<Hittable>, r: Ray)
  {
    forall k :: 0 <= k < |objs| ==> Defined(objs[k], r)
  }

  /** Dispatch on the object kind; every hit lies strictly inside the window. */
  function HittableHit(h: Hittable, r: Ray, rayT: Interval, sqrt: real -> real): (res: Option<SurfaceHit>)
    requires Defined(h, r)
    ensures res.Some? ==> Surrounds(rayT, res.value.rec.t)
    decreases h, 1
  {
    match h
    case SphereHittable(s) => SphereHit(s, r, rayT, sqrt)
    case BvhHittable(n) => BvhHit(n, r, rayT, sqrt)
  }

  /**
   * BVH traversal: prune on the node box; probe the left child over the
   * whole window and then the right child only below the left hit.
   */
  function BvhHit(n: BvhNode, r: Ray, rayT: Interval, sqrt: real -> real): (res: Option<SurfaceHit>)
    requires SlabDefined(r)
    ensures res.Some? ==> SlabHit(n.bbox, r, rayT)
    ensures res.Some? ==> Surrounds(rayT, res.value.rec.t)
    decreases BvhHittable(n), 0
  {
    if !SlabHit(n.bbox, r, rayT) then None
    else
      match HittableHit(n.left, r, rayT, sqrt)
      case Some(hl) =>
        (match HittableHit(n.right, r, Interval(rayT.min, hl.rec.t), sqrt)
         case Some(hr) => Some(hr)
         case None => Some(hl))
      case None => HittableHit(n.right, r, Interval(rayT.min, rayT.max), sqrt)
  }

  /** A later result replaces an earlier one. */
  function Combine(acc: Option<SurfaceHit>, later: Option<SurfaceHit>): Option<SurfaceHit>
  {
    if later.Some? then later else acc
  }

  /**
   * The linear scan: each object is probed with the window narrowed to the
   * closest hit so far, and the last object that reported a hit wins.
   */
  function Scan(objs: seq<Hittable>, r: Ray, lo: real, hi: real, sqrt: real -> real): (res: Option<SurfaceHit>)
    requires AllDefined(objs, r)
    ensures res.Some? ==> lo < res.value.rec.t < hi
    decreases |objs|
  {
    if objs == [] then None
    else
      match HittableHit(objs[0], r, Interval(lo, hi), sqrt)
      case Some(h) => Combine(Some(h), Scan(objs[1..], r, lo, h.rec.t, sqrt))
      case None => Scan(objs[1..], r, lo, hi, sqrt)
  }

  /** The hit of object `k` over the full window. */
  function HitOf(objs: seq<Hittable>, k: int, r: Ray, lo: real, hi: real, sqrt: real -> real): Option<SurfaceHit>
    requires 0 <= k < |objs| && AllDefined(objs, r)
  {
    HittableHit(objs[k], r, Interval(lo, hi), sqrt)
  }

  predicate AllSpheres(objs: seq<Hittable>)
  {
    forall k :: 0 <= k < |objs| ==> objs[k].SphereHittable?
  }

  /** Scanning a concatenation: the second part is searched below the first part's hit. */
  lemma {:induction false} ScanAppend(a: seq<Hittable>, b: seq<Hittable>, r: Ray, lo: real, hi: real, sqrt: real -> real)
    requires AllDefined(a, r) && AllDefined(b, r)
    ensures AllDefined(a + b, r)
    ensures Scan(a + b, r, lo, hi, sqrt)
         == match Scan(a, r, lo, hi, sqrt)
            case Some(h) => Combine(Some(h), Scan(b, r, lo, h.rec.t, sqrt))
            case None => Scan(b, r, lo, hi, sqrt)
    decreases |a|
  {
    assert AllDefined(a + b, r) by {
      forall k | 0 <= k < |a + b| ensures Defined((a + b)[k], r) {
        if k < |a| { assert (a + b)[k] == a[k]; } else { assert (a + b)[k] == b[k - |a|]; }
      }
    }
    if a == [] {
      assert a + b == b;
    } else {
      assert (a + b)[0] == a[0];
      assert (a + b)[1..] == a[1..] + b;
      match HittableHit(a[0], r, Interval(lo, hi), sqrt)
      case Some(h0) =>
        ScanAppend(a[1..], b, r, lo, h0.rec.t, sqrt);
      case None =>
        ScanAppend(a[1..], b, r, lo, hi, sqrt);
    }
  }

  /** Scanning one sphere twice finds what scanning it once finds. */
  lemma ScanTwice(sp: Sphere, r: Ray, lo: real, hi: real, sqrt: real -> real)
    requires NonNegativeRoots(sqrt)
    ensures Scan([SphereHittable(sp)] + [SphereHittable(sp)], r, lo, hi, sqrt) == Scan([SphereHittable(sp)], r, lo, hi, sqrt)
  {
    var x := SphereHittable(sp);
    ScanAppend([x], [x], r, lo, hi, sqrt);
    match SphereHit(sp, r, Interval(lo, hi), sqrt)
    case Some(h) =>
      SphereNoSecondHit(sp, r, lo, hi, sqrt);
    case None =>
  }

  /** Parts that scan alike, on every window the second part can be given, concatenate to lists that scan alike. */
  lemma ScanHalves(a: seq<Hittable>, b: seq<Hittable>, a': seq<Hittable>, b': seq<Hittable>, r: Ray, lo: real, hi: real, sqrt: real -> real)
    requires AllDefined(a, r) && AllDefined(b, r) && AllDefined(a', r) && AllDefined(b', r)
    requires Scan(a, r, lo, hi, sqrt) == Scan(a', r, lo, hi, sqrt)
    requires forall hi' :: Scan(b, r, lo, hi', sqrt) == Scan(b', r, lo, hi', sqrt)
    ensures AllDefined(a + b, r) && AllDefined(a' + b', r)
    ensures Scan(a + b, r, lo, hi, sqrt) == Scan(a' + b', r, lo, hi, sqrt)
  {
    ScanAppend(a, b, r, lo, hi, sqrt);
    ScanAppend(a', b', r, lo, hi, sqrt);
  }

  // ------------------------------------------------- closest hit of a scan

  /** Every object misses iff the scan misses. */
  lemma {:induction false} ScanMisses(objs: seq<Hittable>, r: Ray, lo: real, hi: real, sqrt: real -> real)
    requires AllDefined(objs, r)
    ensures Scan(objs, r, lo, hi, sqrt).None? <==> forall k :: 0 <= k < |objs| ==> HitOf(objs, k, r, lo, hi, sqrt).None?
    decreases |objs|
  {
    if objs != [] {
      var rest := objs[1..];
      assert AllDefined(rest, r);
      ScanMisses(rest, r, lo, hi, sqrt);
      forall k | 1 <= k < |objs| ensures HitOf(objs, k, r, lo, hi, sqrt) == HitOf(rest, k - 1, r, lo, hi, sqrt) {
        assert objs[k] == rest[k - 1];
      }
      if HitOf(objs, 0, r, lo, hi, sqrt).None? {
        assert Scan(objs, r, lo, hi, sqrt) == Scan(rest, r, lo, hi, sqrt);
        if forall k :: 0 <= k < |objs| ==> HitOf(objs, k, r, lo, hi, sqrt).None? {
          forall j | 0 <= j < |rest| ensures HitOf(rest, j, r, lo, hi, sqrt).None? {
            assert HitOf(objs, j + 1, r, lo, hi, sqrt) == HitOf(rest, j, r, lo, hi, sqrt);
          }
        }
      } else {
        assert Scan(objs, r, lo, hi, sqrt).Some?;
      }
    }
  }

  /** One object of a missing scan misses. */
  lemma ScanMissAt(objs: seq<Hittable>, k: int, r: Ray, lo: real, hi: real, sqrt: real -> real)
    requires AllDefined(objs, r) && 0 <= k < |objs|
    requires Scan(objs, r, lo, hi, sqrt).None?
    ensures HitOf(objs, k, r, lo, hi, sqrt).None?
  {
    ScanMisses(objs, r, lo, hi, sqrt);
  }

  /** The position of the object whose hit the scan returns. */
  ghost function Winner(objs: seq<Hittable>, r: Ray, lo: real, hi: real, sqrt: real -> real): (k: nat)
    requires AllDefined(objs, r) && Scan(objs, r, lo, hi, sqrt).Some?
    ensures k < |objs|
    decreases |objs|
  {
    assert AllDefined(objs[1..], r);
    match HittableHit(objs[0], r, Interval(lo, hi), sqrt)
    case Some(h) =>
      if Scan(objs[1..], r, lo, h.rec.t, sqrt).Some? then 1 + Winner(objs[1..], r, lo, h.rec.t, sqrt) else 0
    case None => 1 + Winner(objs[1..], r, lo, hi, sqrt)
  }

  /**
   * Over spheres, the scan returns the hit with the least parameter among
   * all objects' hits over the full window, and on a tie the earliest
   * object's (a later object must be strictly closer to replace it).
   */
  lemma {:induction false} ScanClosest(objs: seq<Hittable>, r: Ray, lo: real, hi: real, sqrt: real -> real)
    requires AllSpheres(objs) && NonNegativeRoots(sqrt)
    requires Scan(objs, r, lo, hi, sqrt).Some?
    ensures var res, k := Scan(objs, r, lo, hi, sqrt).value, Winner(objs, r, lo, hi, sqrt);
      && HitOf(objs, k, r, lo, hi, sqrt) == Some(res)
      && (forall j :: 0 <= j < |objs| && HitOf(objs, j, r, lo, hi, sqrt).Some? ==>
            res.rec.t <= HitOf(objs, j, r, lo, hi, sqrt).value.rec.t)
      && (forall j :: 0 <= j < k && HitOf(objs, j, r, lo, hi, sqrt).Some? ==>
            res.rec.t < HitOf(objs, j, r, lo, hi, sqrt).value.rec.t)
    decreases |objs|
  {
    var rest := objs[1..];
    assert AllSpheres(rest);
    forall k | 1 <= k < |objs| ensures objs[k] == rest[k - 1] && HitOf(objs, k, r, lo, hi, sqrt) == HitOf(rest, k - 1, r, lo, hi, sqrt) {
      assert objs[k] == rest[k - 1];
    }
    var res := Scan(objs, r, lo, hi, sqrt).value;
    match HitOf(objs, 0, r, lo, hi, sqrt)
    case None =>
      ScanClosest(rest, r, lo, hi, sqrt);
    case Some(h0) =>
      if Scan(rest, r, lo, h0.rec.t, sqrt).Some? {
        ScanClosest(rest, r, lo, h0.rec.t, sqrt);
        var k' := Winner(rest, r, lo, h0.rec.t, sqrt);
        assert res == Scan(rest, r, lo, h0.rec.t, sqrt).value;
        assert res.rec.t < h0.rec.t < hi;
        SphereWindow(rest[k'].sphere, r, lo, h0.rec.t, hi, sqrt);
        forall j | 1 <= j < |objs| && HitOf(objs, j, r, lo, hi, sqrt).Some?
          ensures res.rec.t <= HitOf(objs, j, r, lo, hi, sqrt).value.rec.t
          ensures j < 1 + k' ==> res.rec.t < HitOf(objs, j, r, lo, hi, sqrt).value.rec.t
        {
          var tj := HitOf(objs, j, r, lo, hi, sqrt).value.rec.t;
          if tj < h0.rec.t {
            SphereWindow(objs[j].sphere, r, lo, hi, h0.rec.t, sqrt);
            assert HitOf(rest, j - 1, r, lo, h0.rec.t, sqrt) == HitOf(objs, j, r, lo, hi, sqrt);
          }
        }
      } else {
        forall j | 1 <= j < |objs| && HitOf(objs, j, r, lo, hi, sqrt).Some?
          ensures h0.rec.t <= HitOf(objs, j, r, lo, hi, sqrt).value.rec.t
        {
          var tj := HitOf(objs, j, r, lo, hi, sqrt).value.rec.t;
          if tj < h0.rec.t {
            SphereWindow(objs[j].sphere, r, lo, hi, h0.rec.t, sqrt);
            ScanMissAt(rest, j - 1, r, lo, h0.rec.t, sqrt);
            assert false;
          }
        }
      }
  }

  // ------------------------------------------------ BVH equals linear scan

  /** The spheres under a node, left subtree first. */
  function Leaves(h: Hittable): (s: seq<Hittable>)
    ensures |s| >= 1 && AllSpheres(s)
  {
    match h
    case SphereHittable(_) => [h]
    case BvhHittable(n) => Leaves(n.left) + Leaves(n.right)
  }

  /**
   * Every node box is conservative for this ray: whenever the slab test
   * rejects a window, no sphere under the node is hit inside it.
   */
  ghost predicate BoxSound(h: Hittable, r: Ray, sqrt: real -> real)
    requires SlabDefined(r)
  {
    match h
    case SphereHittable(_) => true
    case BvhHittable(n) =>
      && (forall lo, hi :: !SlabHit(n.bbox, r, Interval(lo, hi)) ==> Scan(Leaves(h), r, lo, hi, sqrt).None?)
      && BoxSound(n.left, r, sqrt)
      && BoxSound(n.right, r, sqrt)
  }

  /** With conservative boxes, BVH traversal answers exactly as the linear scan of its leaves. */
  lemma {:induction false} BvhHitIsScan(h: Hittable, r: Ray, lo: real, hi: real, sqrt: real -> real)
    requires SlabDefined(r) && BoxSound(h, r, sqrt)
    ensures HittableHit(h, r, Interval(lo, hi), sqrt) == Scan(Leaves(h), r, lo, hi, sqrt)
    decreases h
  {
    match h
    case SphereHittable(_) =>
      assert Leaves(h)[1..] == [];
    case BvhHittable(n) =>
      var L, R := Leaves(n.left), Leaves(n.right);
      assert Leaves(h) == L + R;
      if SlabHit(n.bbox, r, Interval(lo, hi)) {
        ScanAppend(L, R, r, lo, hi, sqrt);
        BvhHitIsScan(n.left, r, lo, hi, sqrt);
        match HittableHit(n.left, r, Interval(lo, hi), sqrt)
        case Some(hl) =>
          BvhHitIsScan(n.right, r, lo, hl.rec.t, sqrt);
          assert Scan(L, r, lo, hi, sqrt) == Some(hl);
        case None =>
          BvhHitIsScan(n.right, r, lo, hi, sqrt);
          assert Scan(L, r, lo, hi, sqrt).None?;
      } else {
        assert Scan(Leaves(h), r, lo, hi, sqrt).None?;
      }
  }

  /** Hence, under a conservative BVH, the closest sphere wins, earliest on ties. */
  lemma BvhClosest(h: Hittable, r: Ray, lo: real, hi: real, sqrt: real -> real)
    requires SlabDefined(r) && BoxSound(h, r, sqrt) && NonNegativeRoots(sqrt)
    ensures var res, s := HittableHit(h, r, Interval(lo, hi), sqrt), Leaves(h);
      && (res.None? <==> forall k :: 0 <= k < |s| ==> HitOf(s, k, r, lo, hi, sqrt).None?)
      && (res.Some? ==> forall k :: 0 <= k < |s| && HitOf(s, k, r, lo, hi, sqrt).Some? ==>
            res.value.rec.t <= HitOf(s, k, r, lo, hi, sqrt).value.rec.t)
  {
    BvhHitIsScan(h, r, lo, hi, sqrt);
    ScanMisses(Leaves(h), r, lo, hi, sqrt);
    if HittableHit(h, r, Interval(lo, hi), sqrt).Some? {
      ScanClosest(Leaves(h), r, lo, hi, sqrt);
    }
  }

  // ------------------------------------------------------------ the list

  /** An ordered, growable collection of objects. */
  class HittableList {
    var objects: seq<Hittable>

    constructor ()
      ensures objects == []
    {
      objects := [];
    }

    /** Appends at the end; existing objects keep their places. */
    method Add(o: Hittable)
      modifies this
      ensures objects == old(objects) + [o]
    {
      objects := objects + [o];
    }

    /** The source's loop, narrowing `closestSoFar` at every hit. */
    method Hit(r: Ray, rayT: Interval, sqrt: real -> real) returns (res: Option<SurfaceHit>)
      requires AllDefined(objects, r)
      ensures res == Scan(objects, r, rayT.min, rayT.max, sqrt)
      ensures res.Some? ==> Surrounds(rayT, res.value.rec.t)
    {
      var hitAnything := false;
      // the default record of the source; it is returned only after a hit overwrote it
      var tempRec := SurfaceHit(HitRecord(Point3(Zero), Zero, 0.0, false), Lambertian(Black));
      var closestSoFar := rayT.max;
      for i := 0 to |objects|
        invariant closestSoFar <= rayT.max
        invariant hitAnything ==> tempRec.rec.t == closestSoFar
        invariant AllDefined(objects[i..], r)
        invariant Scan(objects, r, rayT.min, rayT.max, sqrt)
               == Combine(if hitAnything then Some(tempRec) else None, Scan(objects[i..], r, rayT.min, closestSoFar, sqrt))
      {
        assert objects[i..][0] == objects[i];
        assert objects[i..][1..] == objects[i + 1..];
        assert AllDefined(objects[i + 1..], r);
        ghost var previous := closestSoFar;
        match HittableHit(objects[i], r, Interval(rayT.min, closestSoFar), sqrt) {
          case Some(hr) =>
            hitAnything := true;
            closestSoFar := hr.rec.t;
            tempRec := hr;
          case None =>
        }
        // the search window only ever narrows
        assert closestSoFar <= previous;
      }
      assert objects[|objects|..] == [];
      if hitAnything {
        res := Some(tempRec);
      } else {
        res := None;
      }
    }
  }
}
