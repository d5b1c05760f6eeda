/** Three-component vectors (libMesh's VectorValue with LIBMESH_DIM = 3) over
    exact reals, and the linear face interpolation the kernels call `Average`. */
module Geometry {

  /** Points, normals, velocities and coefficient vectors always carry three
      components; the ones at or past the mesh dimension are simply not written. */
  type Vec3 = v: seq<real> | |v| == 3 witness [0.0, 0.0, 0.0]

  const Zero: Vec3 := [0.0, 0.0, 0.0]

  function Dot(a: Vec3, b: Vec3): real
  {
    a[0] * b[0] + a[1] * b[1] + a[2] * b[2]
  }

  function Add(a: Vec3, b: Vec3): Vec3
  {
    [a[0] + b[0], a[1] + b[1], a[2] + b[2]]
  }

  function Sub(a: Vec3, b: Vec3): Vec3
  {
    [a[0] - b[0], a[1] - b[1], a[2] - b[2]]
  }

  function Neg(a: Vec3): Vec3
  {
    [-a[0], -a[1], -a[2]]
  }

  function Abs(x: real): real
  {
    if x < 0.0 then -x else x
  }

  /** The unit vector along axis k. */
  function Axis(k: nat): Vec3
    requires k < 3
  {
    [if k == 0 then 1.0 else 0.0, if k == 1 then 1.0 else 0.0, if k == 2 then 1.0 else 0.0]
  }

  /** Linear interpolation with weight w on the first value; it equals both
      values when they agree. */
  function Interp(w: real, a: real, b: real): (r: real)
    ensures a == b ==> r == a
  {
    b + w * (a - b)
  }

  /** For a weight in [0, 1] the interpolated value never leaves the interval
      the two values span. */
  lemma InterpBetween(w: real, a: real, b: real)
    requires 0.0 <= w <= 1.0
    ensures a <= b ==> a <= Interp(w, a, b) <= b
    ensures b <= a ==> b <= Interp(w, a, b) <= a
  {
    var d := a - b;
    assert d - w * d == (1.0 - w) * d;
    if d <= 0.0 {
      assert (1.0 - w) * d <= 0.0;
    } else {
      assert (1.0 - w) * d >= 0.0;
    }
  }

  function InterpVec(w: real, a: Vec3, b: Vec3): Vec3
  {
    [Interp(w, a[0], b[0]), Interp(w, a[1], b[1]), Interp(w, a[2], b[2])]
  }
}
