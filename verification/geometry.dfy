/** Plain geometric values handed from the host mesh to the exporter. */
module Geometry {

  /** A position or a normal: three coordinates. */
  datatype Vec3 = Vec3(x: real, y: real, z: real)

  /** A texture coordinate. */
  datatype Vec2 = Vec2(u: real, v: real)

  /** One output triangle: three vertex indices, in corner order. */
  datatype Triangle = Triangle(a: nat, b: nat, c: nat)
}
