/**
 Value types shared by the glTF scene model: fixed-width integers, the
 small vectors and quaternions of glm, and the Option/Result wrappers used
 for the loader's "absent" and error paths.
 */
module GltfTypes {

  /** 2^32: the modulus of the source's `uint32_t` arithmetic. */
  const Two32: int := 0x1_0000_0000

  type uint32 = x: int | 0 <= x < Two32
  type byte = x: int | 0 <= x < 256

  /** `static_cast<uint32_t>` of a non-negative size or a signed value. */
  function ToUint32(x: int): (r: uint32)
    ensures 0 <= x < Two32 ==> r == x
    ensures (r - x) % Two32 == 0
  {
    x % Two32
  }

  datatype Option<T> = None | Some(value: T)

  datatype Result<T, E> = Success(value: T) | Failure(error: E)

  datatype Vec2 = Vec2(x: real, y: real)
  datatype Vec3 = Vec3(x: real, y: real, z: real)
  datatype Vec4 = Vec4(x: real, y: real, z: real, w: real)

  /** glm::quat, stored as its four components. */
  datatype Quat = Quat(x: real, y: real, z: real, w: real)

  const Zero3: Vec3 := Vec3(0.0, 0.0, 0.0)
  const One3: Vec3 := Vec3(1.0, 1.0, 1.0)

  /** The assignment of a `glm::vec4` to a `glm::vec3`: keeps x, y, z. */
  function Truncate(v: Vec4): Vec3
  {
    Vec3(v.x, v.y, v.z)
  }

  /** The `glm::vec4(v, w)` constructor. */
  function Extend(v: Vec3, w: real): (r: Vec4)
    ensures Truncate(r) == v && r.w == w
  {
    Vec4(v.x, v.y, v.z, w)
  }

  /** glm::mix on one component: x * (1 - a) + y * a. */
  function Mix(x: real, y: real, a: real): real
  {
    x * (1.0 - a) + y * a
  }

  /** glm::mix on a `glm::vec4`, component by component. */
  function Mix4(u: Vec4, v: Vec4, a: real): Vec4
  {
    Vec4(Mix(u.x, v.x, a), Mix(u.y, v.y, a), Mix(u.z, v.z, a), Mix(u.w, v.w, a))
  }

  function Min(x: real, y: real): real
  {
    if x <= y then x else y
  }

  function Max(x: real, y: real): real
  {
    if x <= y then y else x
  }

  /** Mixing reproduces the end points at a = 0 and a = 1 and, for a in [0, 1], lies between
      them whichever of the two is larger. */
  lemma MixBounds(x: real, y: real, a: real)
    ensures Mix(x, y, 0.0) == x && Mix(x, y, 1.0) == y
    ensures 0.0 <= a <= 1.0 ==> Min(x, y) <= Mix(x, y, a) <= Max(x, y)
  {
    if 0.0 <= a <= 1.0 {
      if x <= y {
        MixIncreasing(x, y, a);
      } else {
        assert Mix(x, y, a) == Mix(y, x, 1.0 - a);
        MixIncreasing(y, x, 1.0 - a);
      }
    }
  }

  /** For x <= y and a in [0, 1], x <= mix(x, y, a) <= y. */
  lemma MixIncreasing(x: real, y: real, a: real)
    requires 0.0 <= a <= 1.0 && x <= y
    ensures x <= Mix(x, y, a) <= y
  {
    var d := y - x;
    assert Mix(x, y, a) == x + d * a;
    assert 0.0 <= d * a by { NonNegativeProduct(d, a); }
    assert d * a <= d by {
      NonNegativeProduct(d, 1.0 - a);
      assert d * (1.0 - a) == d - d * a;
    }
  }

  lemma NonNegativeProduct(u: real, v: real)
    requires 0.0 <= u && 0.0 <= v
    ensures 0.0 <= u * v
  {
  }

  /** The quaternion's components, as `glm::quat q; q.x = v.x; ...` builds it. */
  function QuatOf(v: Vec4): Quat
  {
    Quat(v.x, v.y, v.z, v.w)
  }
}
