/**
 * Three-component vectors over the reals (the source uses f32; rounding is
 * not modelled).  `Add` and `Mul` are the two operations of the vector file;
 * `Sub`, `Div` and `Dot` are the operators the other files use, given their
 * standard meaning.  Operations whose definition is not part of this model
 * (normalisation, reflection, the "near zero" test, random sampling) are
 * passed around as the fields of `VecOps`.
 */
module Vectors {

  datatype Vec3 = Vec3(x: real, y: real, z: real)

  const Zero: Vec3 := Vec3(0.0, 0.0, 0.0)

  /** Componentwise sum. */
  function Add(a: Vec3, b: Vec3): (r: Vec3)
    ensures r.x == a.x + b.x && r.y == a.y + b.y && r.z == a.z + b.z
  {
    Vec3(a.x + b.x, a.y + b.y, a.z + b.z)
  }

  /** Every component scaled by `t`. */
  function Mul(v: Vec3, t: real): (r: Vec3)
    ensures r.x == v.x * t && r.y == v.y * t && r.z == v.z * t
  {
    Vec3(v.x * t, v.y * t, v.z * t)
  }

  /** Componentwise difference. */
  function Sub(a: Vec3, b: Vec3): (r: Vec3)
    ensures Add(r, b) == a
  {
    Vec3(a.x - b.x, a.y - b.y, a.z - b.z)
  }

  /** Componentwise quotient by a scalar (the `/` operator on a vector). */
  function Div(v: Vec3, t: real): (r: Vec3)
    requires t != 0.0
    ensures Mul(r, t) == v
  {
    Vec3(v.x / t, v.y / t, v.z / t)
  }

  /** Component `i` (the indexing operator); any index above 2 panics. */
  function Get(v: Vec3, i: nat): (c: real)
    requires i < 3
    ensures c == (if i == 0 then v.x else if i == 1 then v.y else v.z)
  {
    if i == 0 then v.x else if i == 1 then v.y else v.z
  }

  function Dot(a: Vec3, b: Vec3): real
  {
    a.x * b.x + a.y * b.y + a.z * b.z
  }

  function LengthSquared(v: Vec3): (r: real)
    ensures r >= 0.0
  {
    SquarePositive(v.x); SquarePositive(v.y); SquarePositive(v.z);
    Dot(v, v)
  }

  lemma SquarePositive(a: real)
    ensures a * a >= 0.0
    ensures a != 0.0 ==> a * a > 0.0
  {
    if a < 0.0 {
      var b := -a;
      assert b * b > 0.0;
      assert b * b == a * a;
    }
  }

  /**
   * The vector operations whose definitions are not part of this model:
   * `unit` (normalisation), `reflect` (mirror about a normal) and
   * `nearZero` (the degenerate-direction test).
   */
  datatype VecOps = VecOps(unit: Vec3 -> Vec3, reflect: (Vec3, Vec3) -> Vec3, nearZero: Vec3 -> bool)

  // Algebraic laws of Add and Mul over the reals.

  lemma AddExample()
    ensures Add(Vec3(1.0, 2.0, 3.0), Vec3(2.0, 3.0, 4.0)) == Vec3(3.0, 5.0, 7.0)
  {
  }

  lemma MulExample()
    ensures Mul(Vec3(1.0, 2.0, 3.0), 0.5) == Vec3(0.5, 1.0, 1.5)
  {
  }

  lemma AddCommutative(a: Vec3, b: Vec3)
    ensures Add(a, b) == Add(b, a)
  {
  }

  lemma AddAssociative(a: Vec3, b: Vec3, c: Vec3)
    ensures Add(Add(a, b), c) == Add(a, Add(b, c))
  {
  }

  lemma MulIdentityAndZero(v: Vec3)
    ensures Mul(v, 1.0) == v
    ensures Mul(v, 0.0) == Zero
    ensures Add(v, Zero) == v
  {
  }

  lemma MulDistributesOverAdd(a: Vec3, b: Vec3, t: real)
    ensures Mul(Add(a, b), t) == Add(Mul(a, t), Mul(b, t))
  {
  }

  lemma DotNegated(a: Vec3, b: Vec3)
    ensures Dot(a, Mul(b, -1.0)) == -Dot(a, b)
  {
  }
}
