/**
 * Material scattering decisions (material.rs).  The random vector a
 * material draws is a parameter `sample`; normalisation, reflection and the
 * near-zero test come from `VecOps`; the dielectric rule, which is not part
 * of this model, is the parameter `dielectric`.
 */
module Materials {
  import opened Vectors
  import opened Points
  import opened Rays
  import opened HitRecords

  datatype Material =
    | Lambertian(albedo: Color)
    | Metal(albedo: Color, fuzz: real)
    | Dielectric(refractionIndex: real)

  /** The (ray, attenuation, did-scatter) triple a material returns. */
  datatype Scatter = Scatter(ray: Ray, attenuation: Color, scattered: bool)

  /** Scattering of a dielectric of the given refraction index. */
  type DielectricRule = (real, Ray, HitRecord, Vec3) -> Scatter

  /** Diffuse reflection: the normal plus a random unit vector. */
  function LambertianScatter(albedo: Color, rec: HitRecord, sample: Vec3, ops: VecOps): (s: Scatter)
    ensures s.scattered
    ensures s.attenuation == albedo
    ensures s.ray.origin == rec.point
    ensures ops.nearZero(Add(rec.normal, sample)) ==> s.ray.direction == rec.normal
    ensures !ops.nearZero(Add(rec.normal, sample)) ==> s.ray.direction == Add(rec.normal, sample)
  {
    var direction := Add(rec.normal, sample);
    var direction := if ops.nearZero(direction) then rec.normal else direction;
    Scatter(Ray(rec.point, direction), Color(albedo.r, albedo.g, albedo.b), true)
  }

  /** Specular reflection blurred by `fuzz` times a random unit vector. */
  function MetalScatter(albedo: Color, fuzz: real, rIn: Ray, rec: HitRecord, sample: Vec3, ops: VecOps): (s: Scatter)
    ensures s.attenuation == albedo
    ensures s.ray.origin == rec.point
    ensures s.ray.direction == Add(ops.unit(ops.reflect(rIn.direction, rec.normal)), Mul(sample, fuzz))
    ensures s.scattered <==> Dot(s.ray.direction, rec.normal) > 0.0
  {
    var direction := ops.reflect(rIn.direction, rec.normal);
    var direction := Add(ops.unit(direction), Mul(sample, fuzz));
    var scattered := Ray(rec.point, direction);
    Scatter(scattered, Color(albedo.r, albedo.g, albedo.b), Dot(scattered.direction, rec.normal) > 0.0)
  }

  /** Dispatch on the material variant. */
  function MaterialScatter(m: Material, rIn: Ray, rec: HitRecord, sample: Vec3, ops: VecOps, dielectric: DielectricRule): (s: Scatter)
    ensures m.Lambertian? ==> s == LambertianScatter(m.albedo, rec, sample, ops)
    ensures m.Metal? ==> s == MetalScatter(m.albedo, m.fuzz, rIn, rec, sample, ops)
    ensures m.Dielectric? ==> s == dielectric(m.refractionIndex, rIn, rec, sample)
  {
    match m
    case Lambertian(albedo) => LambertianScatter(albedo, rec, sample, ops)
    case Metal(albedo, fuzz) => MetalScatter(albedo, fuzz, rIn, rec, sample, ops)
    case Dielectric(ior) => dielectric(ior, rIn, rec, sample)
  }

  /**
   * When the near-zero test accepts the zero vector and the normal is not
   * zero, a diffuse bounce never leaves in the zero direction.
   */
  lemma LambertianDirectionNonZero(albedo: Color, rec: HitRecord, sample: Vec3, ops: VecOps)
    requires ops.nearZero(Zero)
    requires rec.normal != Zero
    ensures LambertianScatter(albedo, rec, sample, ops).ray.direction != Zero
  {
  }

  /** A perfectly polished metal reflects exactly along the unit reflection. */
  lemma MetalWithoutFuzz(albedo: Color, rIn: Ray, rec: HitRecord, sample: Vec3, ops: VecOps)
    ensures MetalScatter(albedo, 0.0, rIn, rec, sample, ops).ray.direction
         == ops.unit(ops.reflect(rIn.direction, rec.normal))
  {
    MulIdentityAndZero(ops.unit(ops.reflect(rIn.direction, rec.normal)));
  }

  /** Both opaque materials emit the scattered ray from the hit point and attenuate by the albedo. */
  lemma OpaqueScatterFromHitPoint(m: Material, rIn: Ray, rec: HitRecord, sample: Vec3, ops: VecOps, dielectric: DielectricRule)
    requires !m.Dielectric?
    ensures MaterialScatter(m, rIn, rec, sample, ops, dielectric).ray.origin == rec.point
    ensures MaterialScatter(m, rIn, rec, sample, ops, dielectric).attenuation == m.albedo
    ensures m.Lambertian? ==> MaterialScatter(m, rIn, rec, sample, ops, dielectric).scattered
  {
  }
}
