/** The small part of glm's `vec3` arithmetic that the core uses, over exact reals. */
module Glm {

  /** A glm::vec3, with real components instead of 32-bit floats. */
  datatype Vec3 = Vec3(x: real, y: real, z: real) {

    /** The component along one axis. */
    function At(a: Axis): real {
      match a
      case X => x
      case Y => y
      case Z => z
    }
  }

  datatype Axis = X | Y | Z

  function Add(u: Vec3, w: Vec3): Vec3
  {
    Vec3(u.x + w.x, u.y + w.y, u.z + w.z)
  }

  function Sub(u: Vec3, w: Vec3): Vec3
  {
    Vec3(u.x - w.x, u.y - w.y, u.z - w.z)
  }

  function Neg(u: Vec3): Vec3
  {
    Vec3(-u.x, -u.y, -u.z)
  }

  /** `v * s` for a vec3 and a scalar. */
  function Scale(v: Vec3, s: real): Vec3
  {
    Vec3(v.x * s, v.y * s, v.z * s)
  }

  function Dot(u: Vec3, w: Vec3): real {
    u.x * w.x + u.y * w.y + u.z * w.z
  }

  /** The square of glm::length; comparing it with a squared bound avoids the square root. */
  function LengthSq(v: Vec3): real {
    Dot(v, v)
  }

  /** |u + w|^2 = |u|^2 + 2 u.w + |w|^2. */
  lemma LengthSqOfSum(u: Vec3, w: Vec3)
    ensures LengthSq(Add(u, w)) == LengthSq(u) + 2.0 * Dot(u, w) + LengthSq(w)
  {
  }
}
