/**
 * The position and colour value types of the program's main file: a point is
 * a vector used positionally, a colour is an RGB triple.
 */
module Points {
  import opened Vectors

  datatype Point3 = Point3(v: Vec3)

  datatype Color = Color(r: real, g: real, b: real)

  const Black: Color := Color(0.0, 0.0, 0.0)

  /** Coordinate `i` of a point; any index above 2 panics in the source. */
  function Index(p: Point3, i: nat): (c: real)
    requires i < 3
    ensures i == 0 ==> c == p.v.x
    ensures i == 1 ==> c == p.v.y
    ensures i == 2 ==> c == p.v.z
  {
    match i
    case 0 => p.v.x
    case 1 => p.v.y
    case 2 => p.v.z
  }

  /** The point with the vector's coordinates. */
  function FromVec(v: Vec3): (p: Point3)
    ensures forall k :: 0 <= k < 3 ==> Index(p, k) == Get(v, k)
  {
    Point3(v)
  }

  /** The vector with the point's coordinates. */
  function AsVec(p: Point3): (v: Vec3)
    ensures forall k :: 0 <= k < 3 ==> Get(v, k) == Index(p, k)
  {
    Vec3(p.v.x, p.v.y, p.v.z)
  }

  /** Componentwise difference of two points. */
  function PointSub(p: Point3, q: Point3): (r: Point3)
    ensures forall i :: 0 <= i < 3 ==> Index(r, i) == Index(p, i) - Index(q, i)
  {
    Point3(Vec3(p.v.x - q.v.x, p.v.y - q.v.y, p.v.z - q.v.z))
  }

  lemma VecRoundTrip(v: Vec3, p: Point3)
    ensures AsVec(FromVec(v)) == v
    ensures FromVec(AsVec(p)) == p
  {
  }
}
