/** Three-component vectors and 3x3 matrices over the reals.

    The firmware's `vector_t` holds three `float`s. The transforms only move
    and negate components, which IEEE-754 does exactly, so `real` components
    lose nothing that the transforms could observe.
 */
module Vectors {

  /** A sensor reading or a transformed reading: acceleration, angular rate
      or magnetic field, with no unit attached. */
  datatype Vec3 = Vec3(x: real, y: real, z: real)

  function Dot(u: Vec3, v: Vec3): real
  {
    u.x * v.x + u.y * v.y + u.z * v.z
  }

  /** x² + y² + z², the quantity a rotation must keep. */
  function SquaredNorm(v: Vec3): real
  {
    Dot(v, v)
  }

  function Cross(u: Vec3, v: Vec3): Vec3
  {
    Vec3(u.y * v.z - u.z * v.y, u.z * v.x - u.x * v.z, u.x * v.y - u.y * v.x)
  }

  /** A 3x3 matrix given by its rows. */
  datatype Mat3 = Mat3(r0: Vec3, r1: Vec3, r2: Vec3)

  const Identity: Mat3 := Mat3(Vec3(1.0, 0.0, 0.0), Vec3(0.0, 1.0, 0.0), Vec3(0.0, 0.0, 1.0))

  /** The matrix-vector product m * v. */
  function Apply(m: Mat3, v: Vec3): Vec3
  {
    Vec3(Dot(m.r0, v), Dot(m.r1, v), Dot(m.r2, v))
  }

  /** The transpose; for a rotation also its inverse, and the change of a
      fixed vector's coordinates when the frame is turned by it. */
  function Transpose(m: Mat3): Mat3
  {
    Mat3(Vec3(m.r0.x, m.r1.x, m.r2.x),
         Vec3(m.r0.y, m.r1.y, m.r2.y),
         Vec3(m.r0.z, m.r1.z, m.r2.z))
  }

  /** The matrix product a * b: row k of the product is b transposed applied to row k of a. */
  function Mul(a: Mat3, b: Mat3): Mat3
  {
    var bt := Transpose(b);
    Mat3(Apply(bt, a.r0), Apply(bt, a.r1), Apply(bt, a.r2))
  }

  /** The determinant, as the scalar triple product of the rows. */
  function Det(m: Mat3): real
  {
    Dot(m.r0, Cross(m.r1, m.r2))
  }

  /** A proper rotation: orthogonal (mᵀm = I) with determinant +1. */
  predicate IsRotation(m: Mat3)
  {
    Mul(Transpose(m), m) == Identity && Det(m) == 1.0
  }

  /** Rotation about the Z axis by the angle whose cosine is c and sine is s. */
  function RotZ(c: real, s: real): Mat3
  {
    Mat3(Vec3(c, -s, 0.0), Vec3(s, c, 0.0), Vec3(0.0, 0.0, 1.0))
  }

  /** Rotation about the X axis by the angle whose cosine is c and sine is s. */
  function RotX(c: real, s: real): Mat3
  {
    Mat3(Vec3(1.0, 0.0, 0.0), Vec3(0.0, c, -s), Vec3(0.0, s, c))
  }
}
