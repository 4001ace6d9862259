/** The two fixed axis remappings that bring raw sensor vectors into the
    device frame (main/main.c, `transform_accel_gyro` and `transform_mag`).

    Both are permutations of the components with sign changes. The lemmas
    below say what kind of map each one is: its inverse, its order, the
    rotation it is, and which vectors it leaves alone.
 */
module Transform {
  import opened Vectors

  /** `transform_accel_gyro`: applied to the accelerometer and to the
      gyroscope vector. */
  function AccelGyro(v: Vec3): Vec3
  {
    Vec3(-v.x, -v.z, -v.y)
  }

  /** `transform_mag`: applied to the magnetometer vector. */
  function Mag(v: Vec3): Vec3
  {
    Vec3(-v.y, v.z, -v.x)
  }

  /** The C function updates its argument in place, one field at a time,
      after copying the three fields to locals. Reading the fields from the
      locals (and not from the half-updated vector) is what makes the
      outcome the pure map above. */
  method TransformAccelGyroInPlace(v: Vec3) returns (w: Vec3)
    ensures w == AccelGyro(v)
    ensures AccelGyro(w) == v
  {
    var x, y, z := v.x, v.y, v.z;
    w := v;
    w := w.(x := -x);
    w := w.(y := -z);
    w := w.(z := -y);
    AccelGyroInvolution(v);
  }

  /** The same store sequence for `transform_mag`. */
  method TransformMagInPlace(v: Vec3) returns (w: Vec3)
    ensures w == Mag(v)
    ensures Mag(Mag(w)) == v
  {
    var x, y, z := v.x, v.y, v.z;
    w := v;
    w := w.(x := -y);
    w := w.(y := z);
    w := w.(z := -x);
    MagOrderThree(v);
  }

  const UnitX: Vec3 := Vec3(1.0, 0.0, 0.0)

  // ---------------------------------------------------------------------
  // The accelerometer/gyroscope map

  /** Applying the accel/gyro map twice gives back the input. */
  lemma AccelGyroInvolution(v: Vec3)
    ensures AccelGyro(AccelGyro(v)) == v
  {
  }

  /** The accel/gyro map is not the identity, so with
      `AccelGyroInvolution` its order is exactly two. */
  lemma AccelGyroOrderTwo()
    ensures AccelGyro(UnitX) != UnitX
  {
  }

  /** The accel/gyro map keeps every dot product, and so every length;
      angles are unchanged as well. */
  lemma AccelGyroPreservesDot(u: Vec3, v: Vec3)
    ensures Dot(AccelGyro(u), AccelGyro(v)) == Dot(u, v)
    ensures SquaredNorm(AccelGyro(v)) == SquaredNorm(v)
  {
  }

  /** The vectors the accel/gyro map leaves alone are exactly the multiples
      of (0, 1, -1): its rotation axis. */
  lemma AccelGyroFixedPoints(v: Vec3)
    ensures AccelGyro(v) == v <==> v.x == 0.0 && v.z == -v.y
  {
  }

  /** The matrix of the accel/gyro map. */
  const AccelGyroMatrix: Mat3 :=
    Mat3(Vec3(-1.0, 0.0, 0.0), Vec3(0.0, 0.0, -1.0), Vec3(0.0, -1.0, 0.0))

  /** The accel/gyro map is multiplication by a proper rotation matrix. */
  lemma AccelGyroIsRotation(v: Vec3)
    ensures Apply(AccelGyroMatrix, v) == AccelGyro(v)
    ensures IsRotation(AccelGyroMatrix)
  {
  }

  /* The doc comment of `transform_accel_gyro` names two turns: 180 degrees
     about Z, then -90 degrees about X (cos 180° = -1, sin 180° = 0;
     cos -90° = 0, sin -90° = -1). The code matches it when the second turn
     is about the X axis as the first turn left it, whether the frame or
     the vector is turned; about the original X axis both readings give
     (-x, z, y) instead. */

  /** Turning the frame 180 degrees about Z and then -90 degrees about its
      turned X axis, and expressing the vector in the turned frame: the
      coordinates change by the transposed turns, the Z turn's first. */
  lemma AccelGyroIsDocumentedFrameChange(v: Vec3)
    ensures AccelGyro(v) == Apply(Transpose(RotX(0.0, -1.0)), Apply(Transpose(RotZ(-1.0, 0.0)), v))
  {
  }

  /** Turning the vector itself 180 degrees about Z and then -90 degrees
      about the turned X axis: the X turn is applied first in fixed axes. */
  lemma AccelGyroIsDocumentedVectorTurn(v: Vec3)
    ensures AccelGyro(v) == Apply(RotZ(-1.0, 0.0), Apply(RotX(0.0, -1.0), v))
  {
  }

  /** With the second turn about the original, fixed X axis, turning the
      vector and turning the frame both give (-x, z, y), which differs
      from the code whenever y or z is not 0. */
  lemma AccelGyroIsNotTheFixedAxisTurn(v: Vec3)
    ensures Apply(RotX(0.0, -1.0), Apply(RotZ(-1.0, 0.0), v)) == Vec3(-v.x, v.z, v.y)
    ensures Apply(Transpose(RotZ(-1.0, 0.0)), Apply(Transpose(RotX(0.0, -1.0)), v)) == Vec3(-v.x, v.z, v.y)
    ensures AccelGyro(v) == Vec3(-v.x, v.z, v.y) <==> v.y == 0.0 && v.z == 0.0
  {
  }

  /** The frame change as one matrix: the product of the two turns'
      transposes, the X turn's on the left, is the accel/gyro matrix. */
  lemma AccelGyroMatrixIsDocumentedProduct()
    ensures AccelGyroMatrix == Mul(Transpose(RotX(0.0, -1.0)), Transpose(RotZ(-1.0, 0.0)))
  {
    // Transposed, the Z turn is diag(-1, -1, 1) and the X turn has rows
    // (1, 0, 0), (0, 0, -1), (0, 1, 0); multiplying by the former on the
    // right negates the first two columns, which gives the accel/gyro matrix.
  }

  // ---------------------------------------------------------------------
  // The magnetometer map

  /** The inverse of the magnetometer map. */
  function MagInverse(v: Vec3): Vec3
  {
    Vec3(-v.z, -v.x, v.y)
  }

  /** `MagInverse` undoes `Mag` on either side. */
  lemma MagInverseIsInverse(v: Vec3)
    ensures MagInverse(Mag(v)) == v
    ensures Mag(MagInverse(v)) == v
  {
  }

  /** Applying the magnetometer map three times gives back the input, and
      applying it twice is its inverse. */
  lemma MagOrderThree(v: Vec3)
    ensures Mag(Mag(Mag(v))) == v
    ensures Mag(Mag(v)) == MagInverse(v)
  {
  }

  /** The order is exactly three: neither one nor two applications give
      the identity, as the unit X vector shows. */
  lemma MagOrderIsExactlyThree()
    ensures Mag(UnitX) != UnitX
    ensures Mag(Mag(UnitX)) != UnitX
  {
  }

  /** The magnetometer map keeps every dot product, and so every length. */
  lemma MagPreservesDot(u: Vec3, v: Vec3)
    ensures Dot(Mag(u), Mag(v)) == Dot(u, v)
    ensures SquaredNorm(Mag(v)) == SquaredNorm(v)
  {
  }

  /** The vectors the magnetometer map leaves alone are exactly the
      multiples of (1, -1, -1): its rotation axis. */
  lemma MagFixedPoints(v: Vec3)
    ensures Mag(v) == v <==> v.y == -v.x && v.z == -v.x
  {
  }

  /** The matrix of the magnetometer map. */
  const MagMatrix: Mat3 :=
    Mat3(Vec3(0.0, -1.0, 0.0), Vec3(0.0, 0.0, 1.0), Vec3(-1.0, 0.0, 0.0))

  /** The magnetometer map is multiplication by a proper rotation matrix. */
  lemma MagIsRotation(v: Vec3)
    ensures Apply(MagMatrix, v) == Mag(v)
    ensures IsRotation(MagMatrix)
  {
  }

  /** Swapping x with y and negating z: the relation between the
      magnetometer's axes and the accelerometer's on the MPU-9250. */
  function MagAxesToAccelAxes(v: Vec3): Vec3
  {
    Vec3(v.y, v.x, -v.z)
  }

  /** The magnetometer map is the accel/gyro map applied after first
      bringing the magnetometer's axes onto the accelerometer's. */
  lemma MagIsAccelGyroAfterAxisAlignment(v: Vec3)
    ensures Mag(v) == AccelGyro(MagAxesToAccelAxes(v))
  {
  }
}
