/** The record of one ray/surface intersection (hit_record.rs). */
module HitRecords {
  import opened Vectors
  import opened Points
  import opened Rays

  datatype HitRecord = HitRecord(point: Point3, normal: Vec3, t: real, frontFace: bool)

  /**
   * Orients the normal against the incoming ray: the record keeps the
   * outward normal when the ray arrives from outside, its negation otherwise.
   */
  function SetFaceNormal(rec: HitRecord, r: Ray, outward: Vec3): (res: HitRecord)
    ensures res.frontFace <==> Dot(r.direction, outward) < 0.0
    ensures res.frontFace ==> res.normal == outward
    ensures !res.frontFace ==> res.normal == Mul(outward, -1.0)
    ensures Dot(r.direction, res.normal) <= 0.0
    ensures res.point == rec.point && res.t == rec.t
  {
    var front := Dot(r.direction, outward) < 0.0;
    DotNegated(r.direction, outward);
    rec.(frontFace := front, normal := if front then outward else Mul(outward, -1.0))
  }
}
