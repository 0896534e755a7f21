/**
 * Vectors of the simulation. The source uses single-precision floats
 * (glm::vec3, glm::vec4); this model uses exact reals.
 */
module Geometry {

  datatype Vec3 = Vec3(x: real, y: real, z: real)

  /** An RGBA colour. */
  datatype Vec4 = Vec4(r: real, g: real, b: real, a: real)

  const Zero: Vec3 := Vec3(0.0, 0.0, 0.0)

  function Add(a: Vec3, b: Vec3): Vec3
  {
    Vec3(a.x + b.x, a.y + b.y, a.z + b.z)
  }

  function Sub(a: Vec3, b: Vec3): Vec3
  {
    Vec3(a.x - b.x, a.y - b.y, a.z - b.z)
  }

  function Scale(a: Vec3, s: real): Vec3
  {
    Vec3(a.x * s, a.y * s, a.z * s)
  }

  function Neg(a: Vec3): Vec3
  {
    Vec3(-a.x, -a.y, -a.z)
  }

  function Cross(a: Vec3, b: Vec3): Vec3
  {
    Vec3(a.y * b.z - a.z * b.y, a.z * b.x - a.x * b.z, a.x * b.y - a.y * b.x)
  }

  /** The squared Euclidean length (the length itself needs a square root). */
  function SqLength(a: Vec3): real
  {
    a.x * a.x + a.y * a.y + a.z * a.z
  }
}
