/** Rays: an origin and a direction (camera.rs). */
module Rays {
  import opened Vectors
  import opened Points

  datatype Ray = Ray(origin: Point3, direction: Vec3)

  /** The point reached after travelling `t` times the direction from the origin. */
  function At(r: Ray, t: real): (p: Point3)
    ensures Sub(p.v, r.origin.v) == Mul(r.direction, t)
  {
    Point3(Add(r.origin.v, Mul(r.direction, t)))
  }

  lemma AtZeroAndOne(r: Ray)
    ensures At(r, 0.0) == r.origin
    ensures At(r, 1.0).v == Add(r.origin.v, r.direction)
  {
  }
}
