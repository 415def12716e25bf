// Three-component vectors over the reals, standing in for Eigen's Vector3d.
module Vectors {
  datatype Vec3 = Vec3(x: real, y: real, z: real)

  const Zero: Vec3 := Vec3(0.0, 0.0, 0.0)

  /** A non-negative tolerance, such as Geometry::DistanceEpsilon. */
  type Tolerance = e: real | 0.0 <= e witness 0.0

  /** Eigen's NumTraits<double>::dummy_precision(), the default tolerance of isZero(). */
  const EigenDummyPrecision: real := 1e-12

  /** A parameter in the closed unit interval [0, 1]. */
  predicate InUnit(x: real) { 0.0 <= x <= 1.0 }

  function Add(a: Vec3, b: Vec3): Vec3 { Vec3(a.x + b.x, a.y + b.y, a.z + b.z) }

  function Sub(a: Vec3, b: Vec3): Vec3 { Vec3(a.x - b.x, a.y - b.y, a.z - b.z) }

  function Scale(a: Vec3, k: real): Vec3 { Vec3(a.x * k, a.y * k, a.z * k) }

  function Neg(a: Vec3): Vec3 { Vec3(-a.x, -a.y, -a.z) }

  function Dot(a: Vec3, b: Vec3): real { a.x * b.x + a.y * b.y + a.z * b.z }

  function Cross(a: Vec3, b: Vec3): Vec3 {
    Vec3(a.y * b.z - a.z * b.y, a.z * b.x - a.x * b.z, a.x * b.y - a.y * b.x)
  }

  function SquaredNorm(a: Vec3): real { Dot(a, a) }

  function Abs(r: real): real { if r < 0.0 then -r else r }

  /** Component `axis` (0, 1 or 2) of `a`. */
  function Coord(a: Vec3, axis: nat): real
    requires axis < 3
  {
    if axis == 0 then a.x else if axis == 1 then a.y else a.z
  }

  /** Eigen's isZero(): every coefficient within the default precision of 0. */
  predicate IsZero(a: Vec3) {
    Abs(a.x) <= EigenDummyPrecision && Abs(a.y) <= EigenDummyPrecision && Abs(a.z) <= EigenDummyPrecision
  }

  /** Linear interpolation a + (b - a) * t. */
  function Interpolate(a: Vec3, b: Vec3, t: real): Vec3 { Add(a, Scale(Sub(b, a), t)) }

  /** v.segment<3>(c) += p * k: the three entries from c on grow by k times p. */
  function AddSegment(b: seq<real>, c: nat, p: Vec3, k: real): (r: seq<real>)
    requires c + 3 <= |b|
    ensures |r| == |b|
    ensures forall i :: 0 <= i < 3 ==> r[c + i] == b[c + i] + Coord(p, i) * k
    ensures forall i :: 0 <= i < |b| && (i < c || c + 3 <= i) ==> r[i] == b[i]
  {
    b[c := b[c] + p.x * k][c + 1 := b[c + 1] + p.y * k][c + 2 := b[c + 2] + p.z * k]
  }
}
