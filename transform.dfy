/**
 4x4 transforms as the free monoid of glm's transform factors.

 A `Matrix` is the product of its factors, left to right; `Mul` is
 concatenation (so it is associative with `Identity` as unit), and the smart
 constructors drop a factor that is itself the identity matrix. `Apply`
 gives each factor the meaning glm gives it on a homogeneous point, so
 statements about where a node's origin lands can be checked.
 */
module Transform {
  import opened GltfTypes

  /** Sixteen entries in glm's column-major order: entry (row r, column c) is at c * 4 + r. */
  type Mat16 = s: seq<real> | |s| == 16
    witness [1.0, 0.0, 0.0, 0.0, 0.0, 1.0, 0.0, 0.0, 0.0, 0.0, 1.0, 0.0, 0.0, 0.0, 0.0, 1.0]

  const IdentityEntries: Mat16 :=
    [1.0, 0.0, 0.0, 0.0, 0.0, 1.0, 0.0, 0.0, 0.0, 0.0, 1.0, 0.0, 0.0, 0.0, 0.0, 1.0]

  datatype Factor =
    | Translate(t: Vec3)   // glm::translate(mat4(1), t)
    | Rotate(q: Quat)      // glm::mat4(q)
    | Scale(s: Vec3)       // glm::scale(mat4(1), s)
    | Entries(m: Mat16)    // glm::make_mat4x4

  datatype Matrix = Matrix(factors: seq<Factor>)

  const Identity: Matrix := Matrix([])

  function Mul(a: Matrix, b: Matrix): Matrix
  {
    Matrix(a.factors + b.factors)
  }

  function TranslateM(t: Vec3): Matrix
  {
    if t == Zero3 then Identity else Matrix([Translate(t)])
  }

  /** glm's quaternion-to-matrix formula has only products with x, y or z off the
      diagonal and 1 - 2(..) on it, so a quaternion with x = y = z = 0 gives the identity. */
  function RotateM(q: Quat): Matrix
  {
    if q.x == 0.0 && q.y == 0.0 && q.z == 0.0 then Identity else Matrix([Rotate(q)])
  }

  function ScaleM(s: Vec3): Matrix
  {
    if s == One3 then Identity else Matrix([Scale(s)])
  }

  function EntriesM(m: Mat16): Matrix
  {
    if m == IdentityEntries then Identity else Matrix([Entries(m)])
  }

  /** One factor applied to a homogeneous point, as glm multiplies a mat4 by a vec4. */
  function ApplyFactor(f: Factor, p: Vec4): Vec4
  {
    match f
    case Translate(t) =>
      Vec4(p.x + t.x * p.w, p.y + t.y * p.w, p.z + t.z * p.w, p.w)
    case Scale(s) =>
      Vec4(p.x * s.x, p.y * s.y, p.z * s.z, p.w)
    case Rotate(q) =>
      var xx, yy, zz := q.x * q.x, q.y * q.y, q.z * q.z;
      var xy, xz, yz := q.x * q.y, q.x * q.z, q.y * q.z;
      var wx, wy, wz := q.w * q.x, q.w * q.y, q.w * q.z;
      Vec4(
        (1.0 - 2.0 * (yy + zz)) * p.x + 2.0 * (xy - wz) * p.y + 2.0 * (xz + wy) * p.z,
        2.0 * (xy + wz) * p.x + (1.0 - 2.0 * (xx + zz)) * p.y + 2.0 * (yz - wx) * p.z,
        2.0 * (xz - wy) * p.x + 2.0 * (yz + wx) * p.y + (1.0 - 2.0 * (xx + yy)) * p.z,
        p.w)
    case Entries(m) =>
      Vec4(
        m[0] * p.x + m[4] * p.y + m[8] * p.z + m[12] * p.w,
        m[1] * p.x + m[5] * p.y + m[9] * p.z + m[13] * p.w,
        m[2] * p.x + m[6] * p.y + m[10] * p.z + m[14] * p.w,
        m[3] * p.x + m[7] * p.y + m[11] * p.z + m[15] * p.w)
  }

  /** The product applied to a point: the right-most factor acts first. */
  function Apply(m: Matrix, p: Vec4): Vec4
    decreases |m.factors|
  {
    if m.factors == [] then p
    else ApplyFactor(m.factors[0], Apply(Matrix(m.factors[1..]), p))
  }

  /** The monoid laws of the product. Mul concatenates factor lists, so these laws hold by
      construction of the representation; what the product does to points is ApplyMul. */
  lemma MulMonoid(a: Matrix, b: Matrix, c: Matrix)
    ensures Mul(Mul(a, b), c) == Mul(a, Mul(b, c))
    ensures Mul(Identity, a) == a && Mul(a, Identity) == a
  {
    assert a.factors + [] == a.factors;
  }

  /** Multiplying matrices composes their actions on points. */
  lemma {:induction false} ApplyMul(a: Matrix, b: Matrix, p: Vec4)
    ensures Apply(Mul(a, b), p) == Apply(a, Apply(b, p))
    decreases |a.factors|
  {
    if a.factors == [] {
      assert Mul(a, b) == b;
    } else {
      var ab := Mul(a, b);
      assert ab.factors[0] == a.factors[0];
      assert Matrix(ab.factors[1..]) == Mul(Matrix(a.factors[1..]), b);
      ApplyMul(Matrix(a.factors[1..]), b, p);
    }
  }

  /** Dropping an identity factor in the smart constructors does not change the action. */
  lemma CollapsedFactorsAreIdentity(p: Vec4, q: Quat)
    ensures ApplyFactor(Translate(Zero3), p) == p
    ensures ApplyFactor(Scale(One3), p) == p
    ensures ApplyFactor(Entries(IdentityEntries), p) == p
    ensures q.x == 0.0 && q.y == 0.0 && q.z == 0.0 ==> ApplyFactor(Rotate(q), p) == p
  {
  }

  /** Each smart constructor acts on points as the factor it stands for. */
  lemma {:induction false} SmartConstructorsSound(t: Vec3, q: Quat, s: Vec3, m: Mat16, p: Vec4)
    ensures Apply(TranslateM(t), p) == ApplyFactor(Translate(t), p)
    ensures Apply(RotateM(q), p) == ApplyFactor(Rotate(q), p)
    ensures Apply(ScaleM(s), p) == ApplyFactor(Scale(s), p)
    ensures Apply(EntriesM(m), p) == ApplyFactor(Entries(m), p)
  {
    CollapsedFactorsAreIdentity(p, q);
    assert Matrix([Translate(t)]).factors[1..] == [];
    assert Matrix([Rotate(q)]).factors[1..] == [];
    assert Matrix([Scale(s)]).factors[1..] == [];
    assert Matrix([Entries(m)]).factors[1..] == [];
  }
}
