/** Homogeneous coordinates: the 3-vectors and 3×3 matrices that the panorama
    code multiplies (H·v) and crosses, over the reals. */
module Geometry {

  datatype Vec3 = Vec3(x: real, y: real, z: real)

  /** A 3×3 matrix given by its rows. */
  datatype Mat3 = Mat3(r0: Vec3, r1: Vec3, r2: Vec3)

  const Zero := Vec3(0.0, 0.0, 0.0)

  const Identity := Mat3(Vec3(1.0, 0.0, 0.0), Vec3(0.0, 1.0, 0.0), Vec3(0.0, 0.0, 1.0))

  function Dot(a: Vec3, b: Vec3): real {
    a.x * b.x + a.y * b.y + a.z * b.z
  }

  /** The matrix-vector product m·v. */
  function Apply(m: Mat3, v: Vec3): Vec3 {
    Vec3(Dot(m.r0, v), Dot(m.r1, v), Dot(m.r2, v))
  }

  /** The pixel (x, y) in homogeneous coordinates, [x, y, 1]. */
  function Homogeneous(x: real, y: real): (v: Vec3)
    ensures v.z == 1.0
  {
    Vec3(x, y, 1.0)
  }

  /** Divides by the third component: the point that v stands for. */
  function Dehomogenise(v: Vec3): (p: (real, real))
    requires v.z != 0.0
  {
    (v.x / v.z, v.y / v.z)
  }

  /** The cross product a × b; it is orthogonal to both factors. */
  function Cross(a: Vec3, b: Vec3): (c: Vec3)
    ensures Dot(c, a) == 0.0 && Dot(c, b) == 0.0
  {
    Vec3(a.y * b.z - a.z * b.y, a.z * b.x - a.x * b.z, a.x * b.y - a.y * b.x)
  }

  /** A vector crossed with the pixel [x, y, 1] vanishes exactly when the vector
      is a multiple of that pixel, that is when it dehomogenises to (x, y). */
  lemma CrossZeroIffProportional(a: Vec3, x: real, y: real)
    ensures Cross(a, Homogeneous(x, y)) == Zero <==> a.x == a.z * x && a.y == a.z * y
  {
    var c := Cross(a, Homogeneous(x, y));
    assert c.x == a.y - a.z * y && c.y == a.z * x - a.x;
  }

  /** The 3×3 array H read as a matrix, row by row. */
  function MatrixOf(h: array2<real>): (m: Mat3)
    reads h
    requires h.Length0 == 3 && h.Length1 == 3
  {
    Mat3(Vec3(h[0, 0], h[0, 1], h[0, 2]),
         Vec3(h[1, 0], h[1, 1], h[1, 2]),
         Vec3(h[2, 0], h[2, 1], h[2, 2]))
  }
}
