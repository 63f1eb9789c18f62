/**
 Positions. The widget stores `Vector3` values and only ever builds the zero
 vector and the product of a vector with a radial scale factor; nothing else
 about the geometry is needed here.
 */
module Vectors {

  datatype Vec = Vec(x: real, y: real, z: real)

  /** `Vector3.zero`, the local origin and the centroid slot's position. */
  const Zero: Vec := Vec(0.0, 0.0, 0.0)

  /** `v * s`: each coordinate multiplied by the radial scale `s`. */
  function Scale(v: Vec, s: real): (r: Vec)
    ensures s == 1.0 ==> r == v
    ensures s == 0.0 ==> r == Zero
  {
    Vec(v.x * s, v.y * s, v.z * s)
  }
}
