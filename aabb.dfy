// Axis-aligned bounding boxes, standing in for Eigen's AlignedBox<double, 3> and the
// overlap test used by the broad and narrow phases.
module Boxes {
  import opened Vectors

  /** A default-constructed box is empty; extending it with points makes it a proper box. */
  datatype Aabb = Empty | Box(lo: Vec3, hi: Vec3)

  function Min(a: real, b: real): real { if b < a then b else a }

  function Max(a: real, b: real): real { if a < b then b else a }

  predicate LessEq(a: Vec3, b: Vec3) { a.x <= b.x && a.y <= b.y && a.z <= b.z }

  function MinVec(a: Vec3, b: Vec3): Vec3 { Vec3(Min(a.x, b.x), Min(a.y, b.y), Min(a.z, b.z)) }

  function MaxVec(a: Vec3, b: Vec3): Vec3 { Vec3(Max(a.x, b.x), Max(a.y, b.y), Max(a.z, b.z)) }

  predicate ContainsPoint(b: Aabb, p: Vec3) { b.Box? && LessEq(b.lo, p) && LessEq(p, b.hi) }

  /** Every point of `inner` lies in `outer` (an empty box lies in every box). */
  predicate Contains(outer: Aabb, inner: Aabb) {
    inner.Empty? || (outer.Box? && LessEq(outer.lo, inner.lo) && LessEq(inner.hi, outer.hi))
  }

  /** The overlap test: both boxes are proper and their closed extents meet on every axis. */
  predicate Intersect(a: Aabb, b: Aabb) {
    a.Box? && b.Box? && LessEq(a.lo, b.hi) && LessEq(b.lo, a.hi)
  }

  /** AlignedBox::extend(point): the smallest box holding the box and the point. */
  function Extend(b: Aabb, p: Vec3): (r: Aabb)
    ensures ContainsPoint(r, p) && Contains(r, b)
    ensures forall q :: ContainsPoint(b, q) ==> ContainsPoint(r, q)
  {
    match b
    case Empty => Box(p, p)
    case Box(lo, hi) => Box(MinVec(lo, p), MaxVec(hi, p))
  }

  /** AlignedBox::extend(box): the smallest box holding both boxes. */
  function Merge(a: Aabb, b: Aabb): (r: Aabb)
    ensures Contains(r, a) && Contains(r, b)
    ensures r.Empty? <==> a.Empty? && b.Empty?
  {
    match (a, b)
    case (Empty, _) => b
    case (_, Empty) => a
    case (Box(lo1, hi1), Box(lo2, hi2)) => Box(MinVec(lo1, lo2), MaxVec(hi1, hi2))
  }

  /** A default box extended with every point of `ps` in turn. */
  function BoundingBox(ps: seq<Vec3>): Aabb {
    if |ps| == 0 then Empty else Extend(BoundingBox(ps[..|ps| - 1]), ps[|ps| - 1])
  }

  lemma {:induction false} BoundingBoxContains(ps: seq<Vec3>)
    ensures forall i :: 0 <= i < |ps| ==> ContainsPoint(BoundingBox(ps), ps[i])
    ensures BoundingBox(ps).Empty? <==> |ps| == 0
  {
    if |ps| > 0 {
      BoundingBoxContains(ps[..|ps| - 1]);
      forall i | 0 <= i < |ps|
        ensures ContainsPoint(BoundingBox(ps), ps[i])
      {
        if i < |ps| - 1 {
          assert ps[i] == ps[..|ps| - 1][i];
        }
      }
    }
  }

  lemma ContainsTransitive(a: Aabb, b: Aabb, c: Aabb)
    requires Contains(a, b) && Contains(b, c)
    ensures Contains(a, c)
  {
  }

  /** Overlap is monotone under containment: that is what lets the tree prune a subtree. */
  lemma IntersectGrows(outerA: Aabb, a: Aabb, outerB: Aabb, b: Aabb)
    requires Contains(outerA, a) && Contains(outerB, b)
    requires Intersect(a, b)
    ensures Intersect(outerA, outerB)
  {
  }

  lemma IntersectSymmetric(a: Aabb, b: Aabb)
    ensures Intersect(a, b) <==> Intersect(b, a)
  {
  }
}
