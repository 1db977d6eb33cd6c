/** The vector and matrix values the meshes are made of. Coordinates are
    real numbers: the `f32` rounding of the source is not modelled. */
module Geometry {

  datatype Vec3 = Vec3(x: real, y: real, z: real)

  /** A `[f32; 4]`: a position, or a packed position/normal with a texcoord
      component in `w`. */
  datatype Vec4 = Vec4(x: real, y: real, z: real, w: real)

  /** A `[f32; 2]` texture coordinate. */
  datatype Uv = Uv(u: real, v: real)

  /** Sixteen matrix coefficients. */
  type Coefficients = s: seq<real> | |s| == 16 witness seq(16, _ => 0.0)

  /** A 4x4 transform, sixteen coefficients in column-major order. */
  datatype Mat4 = Mat4(coefficients: Coefficients)

  const Zero4: Vec4 := Vec4(0.0, 0.0, 0.0, 0.0)

  function Sub(a: Vec3, b: Vec3): Vec3 { Vec3(a.x - b.x, a.y - b.y, a.z - b.z) }

  function Add(a: Vec3, b: Vec3): Vec3 { Vec3(a.x + b.x, a.y + b.y, a.z + b.z) }

  /** The first three components of a four-component vector. */
  function Xyz(p: Vec4): Vec3 { Vec3(p.x, p.y, p.z) }
}
