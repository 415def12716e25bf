// Contact between two triangles: the clipping algorithm of TriangleHelper (each triangle
// clipped against the prism over the other, deepest vertex under the other's plane), and
// the separating-axis algorithm over the four points where each triangle crosses the
// other's plane.
module TriangleTriangleContact {
  import opened Wrappers
  import opened Vectors

  datatype Tri = Tri(a: Vec3, b: Vec3, c: Vec3)

  /** A plane n.x + d = 0. */
  datatype Plane = Plane(n: Vec3, d: real)

  function SignedDistance(v: Vec3, p: Plane): real { Dot(v, p.n) + p.d }

  function Corner(t: Tri, i: nat): Vec3
    requires i < 3
  {
    if i == 0 then t.a else if i == 1 then t.b else t.c
  }

  /** The plane of a triangle with the given normal. */
  function TrianglePlane(t: Tri, n: Vec3): Plane { Plane(n, -Dot(t.a, n)) }

  /** Side i of the infinite prism swept by the triangle along its normal; the normal
      is normalised by `normalize`, which stands in for Eigen's normalize(). */
  function PrismPlane(t: Tri, n: Vec3, i: nat, normalize: Vec3 -> Vec3): (p: Plane)
    requires i < 3
    ensures SignedDistance(Corner(t, i), p) == 0.0
  {
    var pn := normalize(Cross(Sub(Corner(t, (i + 1) % 3), Corner(t, i)), n));
    Plane(pn, -Dot(Corner(t, i), pn))
  }

  // ---------------------------------------------------------------------------
  // Clipping a polygon against a plane

  /** What edge i (from vertex i to the next, cyclically) contributes to the clipped
      polygon: its start when on or under the plane, and the crossing point when the edge
      runs strictly from one side to the other. */
  function ClipPiece(poly: seq<Vec3>, i: nat, p: Plane, eps: Tolerance): seq<Vec3>
    requires i < |poly|
  {
    var j := if i + 1 == |poly| then 0 else i + 1;
    var ds := SignedDistance(poly[i], p);
    var de := SignedDistance(poly[j], p);
    (if ds <= eps then [poly[i]] else [])
    + (if (ds < -(eps as real) && de > eps) || (ds > eps && de < -(eps as real))
       then [Add(poly[i], Scale(Sub(poly[j], poly[i]), ds / (ds - de)))] else [])
  }

  function ClipUpTo(poly: seq<Vec3>, p: Plane, eps: Tolerance, n: nat): seq<Vec3>
    requires n <= |poly|
  {
    if n == 0 then [] else ClipUpTo(poly, p, eps, n - 1) + ClipPiece(poly, n - 1, p, eps)
  }

  /** The polygon clipped against the plane: everything above it (by more than eps) is cut. */
  function Clip(poly: seq<Vec3>, p: Plane, eps: Tolerance): seq<Vec3> { ClipUpTo(poly, p, eps, |poly|) }

  lemma {:induction false} ClipUpToSize(poly: seq<Vec3>, p: Plane, eps: Tolerance, n: nat)
    requires n <= |poly|
    ensures |ClipUpTo(poly, p, eps, n)| <= 2 * n
  {
    if n > 0 {
      ClipUpToSize(poly, p, eps, n - 1);
    }
  }

  /** Each edge adds at most two vertices. */
  lemma ClipSize(poly: seq<Vec3>, p: Plane, eps: Tolerance)
    ensures |Clip(poly, p, eps)| <= 2 * |poly|
  {
    ClipUpToSize(poly, p, eps, |poly|);
  }

  /** The crossing point of an edge lies on the plane. */
  lemma CrossingOnPlane(a: Vec3, b: Vec3, p: Plane)
    requires SignedDistance(a, p) != SignedDistance(b, p)
    ensures var ds := SignedDistance(a, p);
            var de := SignedDistance(b, p);
            SignedDistance(Add(a, Scale(Sub(b, a), ds / (ds - de))), p) == 0.0
  {
    var ds := SignedDistance(a, p);
    var de := SignedDistance(b, p);
    var r := ds / (ds - de);
    var q := Add(a, Scale(Sub(b, a), r));
    assert SignedDistance(q, p) == ds + r * (de - ds);
    assert r * (de - ds) == -ds;
  }

  lemma {:induction false} ClipUpToBelow(poly: seq<Vec3>, p: Plane, eps: Tolerance, n: nat)
    requires n <= |poly|
    ensures forall k :: 0 <= k < |ClipUpTo(poly, p, eps, n)| ==> SignedDistance(ClipUpTo(poly, p, eps, n)[k], p) <= eps
  {
    if n > 0 {
      ClipUpToBelow(poly, p, eps, n - 1);
      var i := n - 1;
      var j := if i + 1 == |poly| then 0 else i + 1;
      var ds := SignedDistance(poly[i], p);
      var de := SignedDistance(poly[j], p);
      if (ds < -(eps as real) && de > eps) || (ds > eps && de < -(eps as real)) {
        CrossingOnPlane(poly[i], poly[j], p);
      }
      var prev := ClipUpTo(poly, p, eps, n - 1);
      var piece := ClipPiece(poly, i, p, eps);
      forall k | 0 <= k < |prev + piece|
        ensures SignedDistance((prev + piece)[k], p) <= eps
      {
        if k < |prev| {
          assert (prev + piece)[k] == prev[k];
        }
      }
    }
  }

  /** Every vertex of the clipped polygon lies on or under the plane (within eps). */
  lemma ClipBelowPlane(poly: seq<Vec3>, p: Plane, eps: Tolerance)
    ensures forall k :: 0 <= k < |Clip(poly, p, eps)| ==> SignedDistance(Clip(poly, p, eps)[k], p) <= eps
  {
    ClipUpToBelow(poly, p, eps, |poly|);
  }

  /** The start of an edge on or under the plane opens that edge's piece. */
  lemma ClipPieceStart(poly: seq<Vec3>, i: nat, p: Plane, eps: Tolerance)
    requires i < |poly| && SignedDistance(poly[i], p) <= eps
    ensures ClipPiece(poly, i, p, eps)[0] == poly[i]
  {
  }

  lemma {:induction false} ClipUpToKeeps(poly: seq<Vec3>, p: Plane, eps: Tolerance, n: nat)
    requires n <= |poly|
    ensures forall i :: 0 <= i < n && SignedDistance(poly[i], p) <= eps ==> poly[i] in ClipUpTo(poly, p, eps, n)
  {
    if n > 0 {
      ClipUpToKeeps(poly, p, eps, n - 1);
      var prev := ClipUpTo(poly, p, eps, n - 1);
      var piece := ClipPiece(poly, n - 1, p, eps);
      if SignedDistance(poly[n - 1], p) <= eps {
        ClipPieceStart(poly, n - 1, p, eps);
        assert (prev + piece)[|prev|] == poly[n - 1];
      }
      assert forall x :: x in prev ==> x in prev + piece;
    }
  }

  /** A polygon entirely on or under the plane is kept as it is, edge by edge. */
  lemma {:induction false} ClipUpToUnchanged(poly: seq<Vec3>, p: Plane, eps: Tolerance, n: nat)
    requires n <= |poly|
    requires forall i :: 0 <= i < |poly| ==> SignedDistance(poly[i], p) <= eps
    ensures ClipUpTo(poly, p, eps, n) == poly[..n]
  {
    if n > 0 {
      ClipUpToUnchanged(poly, p, eps, n - 1);
      var j := if n == |poly| then 0 else n;
      assert SignedDistance(poly[j], p) <= eps;
      assert ClipPiece(poly, n - 1, p, eps) == [poly[n - 1]];
      assert poly[..n] == poly[..n - 1] + [poly[n - 1]];
    }
  }

  /** Clipping keeps every vertex on or under the plane, and leaves a polygon that lies
      entirely on or under the plane unchanged. */
  lemma ClipKeepsUnder(poly: seq<Vec3>, p: Plane, eps: Tolerance)
    ensures forall i :: 0 <= i < |poly| && SignedDistance(poly[i], p) <= eps ==> poly[i] in Clip(poly, p, eps)
    ensures (forall i :: 0 <= i < |poly| ==> SignedDistance(poly[i], p) <= eps) ==> Clip(poly, p, eps) == poly
  {
    ClipUpToKeeps(poly, p, eps, |poly|);
    if forall i :: 0 <= i < |poly| ==> SignedDistance(poly[i], p) <= eps {
      ClipUpToUnchanged(poly, p, eps, |poly|);
      assert poly[..|poly|] == poly;
    }
  }

  /** One coordinate of the interpolated point, times w, splits between the two ends. */
  lemma ComponentInterpolated(u: real, v: real, r: real, w: real)
    ensures (u + (v - u) * r) * w == (1.0 - r) * (u * w) + r * (v * w)
  {
  }

  /** The signed distance of an interpolated point interpolates the two signed distances. */
  lemma SignedDistanceInterpolated(a: Vec3, b: Vec3, r: real, q: Plane)
    ensures SignedDistance(Add(a, Scale(Sub(b, a), r)), q)
            == (1.0 - r) * SignedDistance(a, q) + r * SignedDistance(b, q)
  {
    ComponentInterpolated(a.x, b.x, r, q.n.x);
    ComponentInterpolated(a.y, b.y, r, q.n.y);
    ComponentInterpolated(a.z, b.z, r, q.n.z);
    var da, db := Dot(a, q.n), Dot(b, q.n);
    assert Dot(Add(a, Scale(Sub(b, a), r)), q.n) == (1.0 - r) * da + r * db;
    assert (1.0 - r) * (da + q.d) + r * (db + q.d) == (1.0 - r) * da + r * db + q.d;
  }

  /** A convex combination of two values at most e is at most e. */
  lemma ConvexBelow(qa: real, qb: real, r: real, e: real)
    requires 0.0 <= r <= 1.0 && qa <= e && qb <= e
    ensures (1.0 - r) * qa + r * qb <= e
  {
    assert (1.0 - r) * qa <= (1.0 - r) * e;
    assert r * qb <= r * e;
  }

  /** A point between two points on or under a plane is on or under it too. */
  lemma InterpolationStaysBelow(a: Vec3, b: Vec3, r: real, q: Plane, eps: Tolerance)
    requires 0.0 <= r <= 1.0
    requires SignedDistance(a, q) <= eps && SignedDistance(b, q) <= eps
    ensures SignedDistance(Add(a, Scale(Sub(b, a), r)), q) <= eps
  {
    SignedDistanceInterpolated(a, b, r, q);
    ConvexBelow(SignedDistance(a, q), SignedDistance(b, q), r, eps);
  }

  /** The crossing parameter ds / (ds - de) of an edge running strictly from one side of a
      plane to the other lies in [0, 1]. */
  lemma CrossingParameterInUnit(ds: real, de: real)
    requires (ds < 0.0 && de > 0.0) || (ds > 0.0 && de < 0.0)
    ensures 0.0 <= ds / (ds - de) <= 1.0
  {
    var r := ds / (ds - de);
    assert r * (ds - de) == ds;
    if ds < 0.0 {
      assert ds - de < ds;
    } else {
      assert ds - de > ds;
    }
  }

  lemma {:induction false} ClipUpToStaysBelow(poly: seq<Vec3>, p: Plane, q: Plane, eps: Tolerance, n: nat)
    requires n <= |poly|
    requires forall k :: 0 <= k < |poly| ==> SignedDistance(poly[k], q) <= eps
    ensures forall k :: 0 <= k < |ClipUpTo(poly, p, eps, n)| ==> SignedDistance(ClipUpTo(poly, p, eps, n)[k], q) <= eps
  {
    if n > 0 {
      ClipUpToStaysBelow(poly, p, q, eps, n - 1);
      var i := n - 1;
      var j := if i + 1 == |poly| then 0 else i + 1;
      var ds := SignedDistance(poly[i], p);
      var de := SignedDistance(poly[j], p);
      if (ds < -(eps as real) && de > eps) || (ds > eps && de < -(eps as real)) {
        var r := ds / (ds - de);
        CrossingParameterInUnit(ds, de);
        InterpolationStaysBelow(poly[i], poly[j], r, q, eps);
      }
      var prev := ClipUpTo(poly, p, eps, n - 1);
      var piece := ClipPiece(poly, i, p, eps);
      forall k | 0 <= k < |prev + piece|
        ensures SignedDistance((prev + piece)[k], q) <= eps
      {
        if k < |prev| {
          assert (prev + piece)[k] == prev[k];
        }
      }
    }
  }

  /** Clipping against one plane never moves the polygon out from under another. */
  lemma ClipStaysBelow(poly: seq<Vec3>, p: Plane, q: Plane, eps: Tolerance)
    requires forall k :: 0 <= k < |poly| ==> SignedDistance(poly[k], q) <= eps
    ensures forall k :: 0 <= k < |Clip(poly, p, eps)| ==> SignedDistance(Clip(poly, p, eps)[k], q) <= eps
  {
    ClipUpToStaysBelow(poly, p, q, eps, |poly|);
  }

  /** Clipping twice against the same plane is clipping once. */
  lemma ClipIdempotent(poly: seq<Vec3>, p: Plane, eps: Tolerance)
    ensures Clip(Clip(poly, p, eps), p, eps) == Clip(poly, p, eps)
  {
    ClipBelowPlane(poly, p, eps);
    ClipKeepsUnder(Clip(poly, p, eps), p, eps);
  }

  // ---------------------------------------------------------------------------
  // Deepest vertex under a plane

  /** Running minimum of the signed distances of the first n vertices, starting from 0;
      the point is only set by a vertex strictly below the running depth. */
  function DeepestUpTo(poly: seq<Vec3>, p: Plane, n: nat): (real, Option<Vec3>)
    requires n <= |poly|
  {
    if n == 0 then (0.0, None)
    else
      var prev := DeepestUpTo(poly, p, n - 1);
      var s := SignedDistance(poly[n - 1], p);
      if s < prev.0 then (s, Some(poly[n - 1])) else prev
  }

  function Deepest(poly: seq<Vec3>, p: Plane): (real, Option<Vec3>) { DeepestUpTo(poly, p, |poly|) }

  /** The depth is min(0, smallest signed distance); a point is reported exactly when some
      vertex lies strictly under the plane, and it is a deepest vertex. */
  predicate IsDeepest(poly: seq<Vec3>, p: Plane, n: nat, r: (real, Option<Vec3>))
    requires n <= |poly|
  {
    r.0 <= 0.0
    && (forall i :: 0 <= i < n ==> r.0 <= SignedDistance(poly[i], p))
    && (r.1.Some? <==> exists i :: 0 <= i < n && SignedDistance(poly[i], p) < 0.0)
    && (r.1.Some? ==> r.1.value in poly[..n] && SignedDistance(r.1.value, p) == r.0)
    && (r.1.None? ==> r.0 == 0.0)
  }

  lemma {:induction false} DeepestUpToIsMinimum(poly: seq<Vec3>, p: Plane, n: nat)
    requires n <= |poly|
    ensures IsDeepest(poly, p, n, DeepestUpTo(poly, p, n))
  {
    if n > 0 {
      DeepestUpToIsMinimum(poly, p, n - 1);
      assert poly[..n] == poly[..n - 1] + [poly[n - 1]];
    }
  }

  lemma DeepestIsMinimum(poly: seq<Vec3>, p: Plane)
    ensures IsDeepest(poly, p, |poly|, Deepest(poly, p))
  {
    DeepestUpToIsMinimum(poly, p, |poly|);
  }

  // ---------------------------------------------------------------------------
  // Penetration of one triangle into the prism of the other

  /** A polygon clipped in turn against the first n sides of the other triangle's prism. */
  function ClipByPrismUpTo(poly: seq<Vec3>, other: Tri, otherN: Vec3, eps: Tolerance, normalize: Vec3 -> Vec3,
                           n: nat): seq<Vec3>
    requires n <= 3
  {
    if n == 0 then poly
    else Clip(ClipByPrismUpTo(poly, other, otherN, eps, normalize, n - 1), PrismPlane(other, otherN, n - 1, normalize), eps)
  }

  /** A triangle clipped in turn against the three sides of the other triangle's prism. */
  function ClipByPrism(poly: seq<Vec3>, other: Tri, otherN: Vec3, eps: Tolerance, normalize: Vec3 -> Vec3): seq<Vec3> {
    ClipByPrismUpTo(poly, other, otherN, eps, normalize, 3)
  }

  /** What survives the prism lies on or under each of its three sides (within eps). */
  lemma ClipByPrismInside(poly: seq<Vec3>, other: Tri, otherN: Vec3, eps: Tolerance, normalize: Vec3 -> Vec3)
    ensures forall k, side :: 0 <= k < |ClipByPrism(poly, other, otherN, eps, normalize)| && 0 <= side < 3 ==>
              SignedDistance(ClipByPrism(poly, other, otherN, eps, normalize)[k], PrismPlane(other, otherN, side, normalize)) <= eps
  {
    var c1 := ClipByPrismUpTo(poly, other, otherN, eps, normalize, 1);
    var c2 := ClipByPrismUpTo(poly, other, otherN, eps, normalize, 2);
    var c3 := ClipByPrismUpTo(poly, other, otherN, eps, normalize, 3);
    var p0, p1, p2 := PrismPlane(other, otherN, 0, normalize), PrismPlane(other, otherN, 1, normalize),
                      PrismPlane(other, otherN, 2, normalize);
    ClipBelowPlane(ClipByPrismUpTo(poly, other, otherN, eps, normalize, 0), p0, eps);
    ClipBelowPlane(c1, p1, eps);
    ClipBelowPlane(c2, p2, eps);
    ClipKeepsUnder(c1, p1, eps);
    ClipKeepsUnder(c2, p2, eps);
    ClipStaysBelow(c1, p1, p0, eps);
    ClipStaysBelow(c2, p2, p0, eps);
    ClipStaysBelow(c2, p2, p1, eps);
  }

  /** Depth (non-negative), the deepest point on this triangle and its projection onto the
      other triangle's plane; a point is `None` where the source leaves it unset because
      no clipped vertex lies strictly under the plane. */
  datatype Penetration = Penetration(depth: real, point0: Option<Vec3>, point1: Option<Vec3>)

  /** The penetration of polygon `poly` into triangle `other`, or a failure where the
      source asserts that some vertex survives the clipping. */
  function PenetrationOf(poly: seq<Vec3>, other: Tri, otherN: Vec3, eps: Tolerance,
                         normalize: Vec3 -> Vec3): Result<Penetration>
  {
    var clipped := ClipByPrism(poly, other, otherN, eps, normalize);
    if |clipped| == 0 then Failure("there are no vertices under the plane")
    else
      var deepest := Deepest(clipped, TrianglePlane(other, otherN));
      Success(Penetration(-deepest.0, deepest.1,
                          if deepest.1.Some? then Some(Sub(deepest.1.value, Scale(otherN, deepest.0))) else None))
  }

  /** The reported depth is never negative, and it is the depth of the deepest clipped vertex. */
  lemma PenetrationNonNegative(poly: seq<Vec3>, other: Tri, otherN: Vec3, eps: Tolerance, normalize: Vec3 -> Vec3)
    ensures PenetrationOf(poly, other, otherN, eps, normalize).Success? ==>
              var pen := PenetrationOf(poly, other, otherN, eps, normalize).value;
              var clipped := ClipByPrism(poly, other, otherN, eps, normalize);
              pen.depth >= 0.0
              && (forall k :: 0 <= k < |clipped| ==> -pen.depth <= SignedDistance(clipped[k], TrianglePlane(other, otherN)))
              && (pen.point0.Some? ==> pen.point0.value in clipped)
  {
    var clipped := ClipByPrism(poly, other, otherN, eps, normalize);
    DeepestIsMinimum(clipped, TrianglePlane(other, otherN));
    assert clipped[..|clipped|] == clipped;
  }

  /** A triangle with its normal, the plane through it, and two vertex buffers: clipping
      reads one buffer and writes the other, then toggles the receiver. */
  class TriangleHelper {
    const tri: Tri
    const normal: Vec3
    const planeD: real
    var buffers: seq<seq<Vec3>>
    var receiver: nat

    ghost predicate Valid()
      reads this
    {
      |buffers| == 2 && receiver < 2
    }

    constructor (v0: Vec3, v1: Vec3, v2: Vec3, n: Vec3)
      ensures Valid() && tri == Tri(v0, v1, v2) && normal == n && planeD == -Dot(v0, n)
      ensures buffers == [[], []] && receiver == 0
    {
      tri := Tri(v0, v1, v2);
      normal := n;
      planeD := -Dot(v0, n);
      buffers := [[], []];
      receiver := 0;
    }

    /** Clip the polygon of the buffer not receiving against the plane, into the receiving
        buffer; afterwards the roles of the buffers are swapped. */
    method ClipAgainstPlane(p: Plane, eps: Tolerance)
      requires Valid()
      modifies this
      ensures Valid() && receiver == 1 - old(receiver)
      ensures buffers[old(receiver)] == Clip(old(buffers[1 - receiver]), p, eps)
      ensures buffers[1 - old(receiver)] == old(buffers[1 - receiver])
    {
      var target := receiver;
      receiver := (receiver + 1) % 2;
      var clipped := ClipPolygon(buffers[receiver], p, eps);
      buffers := buffers[target := clipped];
    }

    /** The signed distance of every vertex of the polygon to the plane. */
    static method Distances(original: seq<Vec3>, p: Plane) returns (distances: seq<real>)
      ensures |distances| == |original|
      ensures forall k :: 0 <= k < |original| ==> distances[k] == SignedDistance(original[k], p)
    {
      distances := [];
      for i := 0 to |original|
        invariant |distances| == i
        invariant forall k :: 0 <= k < i ==> distances[k] == SignedDistance(original[k], p)
      {
        distances := distances + [Dot(original[i], p.n) + p.d];
      }
    }

    /** The vertices kept by clipping the polygon against the plane, with the crossing points
        of the edges that cross it. */
    static method ClipPolygon(original: seq<Vec3>, p: Plane, eps: Tolerance) returns (clipped: seq<Vec3>)
      ensures clipped == Clip(original, p, eps)
    {
      var distances := Distances(original, p);
      clipped := [];
      for i := 0 to |original|
        invariant clipped == ClipUpTo(original, p, eps, i)
      {
        var j := if i + 1 == |original| then 0 else i + 1;
        if distances[i] <= eps {
          clipped := clipped + [original[i]];
        }
        if (distances[i] < -(eps as real) && distances[j] > eps) || (distances[i] > eps && distances[j] < -(eps as real)) {
          var ratio := distances[i] / (distances[i] - distances[j]);
          clipped := clipped + [Add(original[i], Scale(Sub(original[j], original[i]), ratio))];
        }
      }
    }

    /** The deepest vertex under a plane, among the vertices of the buffer written last. */
    method FindDeepestVertexUnderPlane(p: Plane) returns (depth: real, point: Option<Vec3>)
      requires Valid() && |buffers[1 - receiver]| > 0
      ensures (depth, point) == Deepest(buffers[1 - receiver], p)
    {
      var polygon := buffers[(receiver + 1) % 2];
      depth := 0.0;
      point := None;
      for i := 0 to |polygon|
        invariant (depth, point) == DeepestUpTo(polygon, p, i)
      {
        var s := Dot(polygon[i], p.n) + p.d;
        if s < depth {
          depth := s;
          point := Some(polygon[i]);
        }
      }
    }

    /** Append this triangle to the first buffer and clip it against the three side planes
        of the prism of `other`; the result is left in the second buffer. */
    method ClipByPrismOf(other: TriangleHelper, eps: Tolerance, normalize: Vec3 -> Vec3)
      requires Valid()
      modifies this
      ensures Valid() && receiver == 0
      ensures buffers[1] == ClipByPrism(old(buffers[0]) + [tri.a, tri.b, tri.c], other.tri, other.normal, eps, normalize)
    {
      buffers := buffers[0 := buffers[0] + [tri.a, tri.b, tri.c]];
      receiver := 1;
      ghost var start := buffers[0];
      for i := 0 to 3
        invariant Valid() && receiver == (i + 1) % 2
        invariant buffers[1 - receiver] == ClipByPrismUpTo(start, other.tri, other.normal, eps, normalize, i)
      {
        ClipAgainstPlane(PrismPlane(other.tri, other.normal, i, normalize), eps);
      }
    }

    /** Clip this triangle against the prism of `other` and measure how deep it reaches
        under the other triangle's plane. */
    method FindDeepestPenetrationWithTriangle(other: TriangleHelper, eps: Tolerance, normalize: Vec3 -> Vec3)
      returns (r: Result<Penetration>)
      requires Valid() && other.planeD == -Dot(other.tri.a, other.normal)
      modifies this
      ensures Valid()
      ensures r == PenetrationOf(old(buffers[0]) + [tri.a, tri.b, tri.c], other.tri, other.normal, eps, normalize)
    {
      ClipByPrismOf(other, eps, normalize);
      if |buffers[1]| == 0 {
        return Failure("there are no vertices under the plane");
      }
      var depth, point0 := FindDeepestVertexUnderPlane(Plane(other.normal, other.planeD));
      var point1 := if point0.Some? then Some(Sub(point0.value, Scale(other.normal, depth))) else None;
      r := Success(Penetration(-depth, point0, point1));
    }
  }

  // ---------------------------------------------------------------------------
  // Contact by clipping

  /** A triangle-triangle contact: depth, the point on each triangle (unset where the
      source leaves it unset) and the contact normal. */
  datatype ContactResult = ContactResult(depth: real, point0: Option<Vec3>, point1: Option<Vec3>, normal: Vec3)

  /** The intersection test between two triangles, which is not part of this model. */
  type IntersectTest = (Tri, Tri, Vec3, Vec3) -> bool

  /** The shallower of the two penetrations: along t1n when triangle 0 penetrates less,
      otherwise along -t0n with the points of the second penetration swapped back. */
  function ChooseContact(pen0: Penetration, pen1: Penetration, t0n: Vec3, t1n: Vec3): ContactResult {
    if pen0.depth < pen1.depth then ContactResult(pen0.depth, pen0.point0, pen0.point1, t1n)
    else ContactResult(pen1.depth, pen1.point1, pen1.point0, Neg(t0n))
  }

  function ContactTriangleTriangle(t0: Tri, t1: Tri, t0n: Vec3, t1n: Vec3, doesIntersect: IntersectTest,
                                   eps: Tolerance, normalize: Vec3 -> Vec3): Result<Option<ContactResult>>
  {
    if !doesIntersect(t0, t1, t0n, t1n) then Success(None)
    else
      var pen0 := PenetrationOf([t0.a, t0.b, t0.c], t1, t1n, eps, normalize);
      var pen1 := PenetrationOf([t1.a, t1.b, t1.c], t0, t0n, eps, normalize);
      if pen0.Failure? then Failure(pen0.error)
      else if pen1.Failure? then Failure(pen1.error)
      else Success(Some(ChooseContact(pen0.value, pen1.value, t0n, t1n)))
  }

  /** No contact without an intersection; otherwise the contact has the smaller of the two
      non-negative depths, with normal t1n for the first and -t0n for the second. */
  lemma ContactIsShallowerPenetration(t0: Tri, t1: Tri, t0n: Vec3, t1n: Vec3, doesIntersect: IntersectTest,
                                      eps: Tolerance, normalize: Vec3 -> Vec3)
    ensures !doesIntersect(t0, t1, t0n, t1n) ==> ContactTriangleTriangle(t0, t1, t0n, t1n, doesIntersect, eps, normalize) == Success(None)
    ensures var r := ContactTriangleTriangle(t0, t1, t0n, t1n, doesIntersect, eps, normalize);
            var pen0 := PenetrationOf([t0.a, t0.b, t0.c], t1, t1n, eps, normalize);
            var pen1 := PenetrationOf([t1.a, t1.b, t1.c], t0, t0n, eps, normalize);
            r.Success? && r.value.Some? ==>
              pen0.Success? && pen1.Success?
              && var c := r.value.value;
                 c.depth >= 0.0 && c.depth <= pen0.value.depth && c.depth <= pen1.value.depth
                 && ((c.normal == t1n && c.depth == pen0.value.depth && pen0.value.depth < pen1.value.depth)
                     || (c.normal == Neg(t0n) && c.depth == pen1.value.depth && pen1.value.depth <= pen0.value.depth))
  {
    PenetrationNonNegative([t0.a, t0.b, t0.c], t1, t1n, eps, normalize);
    PenetrationNonNegative([t1.a, t1.b, t1.c], t0, t0n, eps, normalize);
  }

  /** The clipping contact between two triangles with given normals. */
  method CalculateContactTriangleTriangle(t0: Tri, t1: Tri, t0n: Vec3, t1n: Vec3, doesIntersect: IntersectTest,
                                          eps: Tolerance, normalize: Vec3 -> Vec3)
    returns (r: Result<Option<ContactResult>>)
    ensures r == ContactTriangleTriangle(t0, t1, t0n, t1n, doesIntersect, eps, normalize)
  {
    if !doesIntersect(t0, t1, t0n, t1n) {
      return Success(None);
    }
    var triangle1 := new TriangleHelper(t0.a, t0.b, t0.c, t0n);
    var triangle2 := new TriangleHelper(t1.a, t1.b, t1.c, t1n);
    var pen0 := triangle1.FindDeepestPenetrationWithTriangle(triangle2, eps, normalize);
    assert [] + [t0.a, t0.b, t0.c] == [t0.a, t0.b, t0.c];
    assert pen0 == PenetrationOf([t0.a, t0.b, t0.c], t1, t1n, eps, normalize);
    var pen1 := triangle2.FindDeepestPenetrationWithTriangle(triangle1, eps, normalize);
    assert [] + [t1.a, t1.b, t1.c] == [t1.a, t1.b, t1.c];
    assert pen1 == PenetrationOf([t1.a, t1.b, t1.c], t0, t0n, eps, normalize);
    if pen0.Failure? {
      return Failure(pen0.error);
    }
    if pen1.Failure? {
      return Failure(pen1.error);
    }
    r := Success(Some(ChooseContact(pen0.value, pen1.value, t0n, t1n)));
  }

  /** The (unnormalised) normal of a triangle. */
  function TriangleNormal(t: Tri): Vec3 { Cross(Sub(t.b, t.a), Sub(t.c, t.a)) }

  /** The clipping contact with the normals computed from the vertices: no contact when
      either triangle is degenerate. */
  method CalculateContactTriangleTriangleFromVertices(t0: Tri, t1: Tri, doesIntersect: IntersectTest,
                                                      eps: Tolerance, normalize: Vec3 -> Vec3)
    returns (r: Result<Option<ContactResult>>)
    ensures IsZero(TriangleNormal(t0)) || IsZero(TriangleNormal(t1)) ==> r == Success(None)
    ensures !IsZero(TriangleNormal(t0)) && !IsZero(TriangleNormal(t1)) ==>
              r == ContactTriangleTriangle(t0, t1, normalize(TriangleNormal(t0)), normalize(TriangleNormal(t1)),
                                           doesIntersect, eps, normalize)
  {
    var t0n := TriangleNormal(t0);
    var t1n := TriangleNormal(t1);
    if IsZero(t0n) || IsZero(t1n) {
      return Success(None);
    }
    r := CalculateContactTriangleTriangle(t0, t1, normalize(t0n), normalize(t1n), doesIntersect, eps, normalize);
  }

  // ---------------------------------------------------------------------------
  // Contact by the separating axis

  /** Signed distances of the three vertices of `t` from the plane through `origin` with normal `n`. */
  function PlaneDistances(t: Tri, origin: Vec3, n: Vec3): (d: seq<real>)
    ensures |d| == 3
  {
    [Dot(n, Sub(t.a, origin)), Dot(n, Sub(t.b, origin)), Dot(n, Sub(t.c, origin))]
  }

  /** Early rejection: every vertex within `eps` below, or every vertex within `eps` above. */
  predicate OneSided(d: seq<real>, eps: real)
    requires |d| == 3
  {
    (d[0] < eps && d[1] < eps && d[2] < eps) || (d[0] > -eps && d[1] > -eps && d[2] > -eps)
  }

  /** Edge j -> j+1 (mod 3) changes sides: from strictly below to not below, or from strictly
      above to not above. */
  predicate EdgeCrosses(d: seq<real>, j: nat)
    requires |d| == 3 && j < 3
  {
    (d[j] < 0.0 && d[(j + 1) % 3] >= 0.0) || (d[j] > 0.0 && d[(j + 1) % 3] <= 0.0)
  }

  /** The points where the first `n` edges of `t` cross the plane, in edge order. */
  function CrossingsUpTo(t: Tri, d: seq<real>, n: nat): seq<Vec3>
    requires |d| == 3 && n <= 3
  {
    if n == 0 then []
    else
      var j := n - 1;
      var k := (j + 1) % 3;
      var earlier := CrossingsUpTo(t, d, j);
      if EdgeCrosses(d, j) then
        var ratio := Abs(d[j]) / (Abs(d[j]) + Abs(d[k]));
        earlier + [Interpolate(Corner(t, j), Corner(t, k), ratio)]
      else earlier
  }

  function Crossings(t: Tri, d: seq<real>): seq<Vec3>
    requires |d| == 3
  {
    CrossingsUpTo(t, d, 3)
  }

  /** A triangle never crosses a plane more than twice, and exactly twice when it has a vertex
      strictly on each side. */
  lemma CrossingCount(t: Tri, d: seq<real>)
    requires |d| == 3
    ensures |Crossings(t, d)| <= 2
    ensures (exists j :: 0 <= j < 3 && d[j] > 0.0) && (exists j :: 0 <= j < 3 && d[j] < 0.0) ==> |Crossings(t, d)| == 2
  {
    assert |CrossingsUpTo(t, d, 1)| == (if EdgeCrosses(d, 0) then 1 else 0);
    assert |CrossingsUpTo(t, d, 2)| == |CrossingsUpTo(t, d, 1)| + (if EdgeCrosses(d, 1) then 1 else 0);
    assert |Crossings(t, d)| == |CrossingsUpTo(t, d, 2)| + (if EdgeCrosses(d, 2) then 1 else 0);
  }

  /** After the early rejection with a positive tolerance both triangles cross the other's
      plane exactly twice. */
  lemma TwoCrossingsAfterRejection(t: Tri, d: seq<real>, eps: real)
    requires |d| == 3 && eps > 0.0 && !OneSided(d, eps)
    ensures |Crossings(t, d)| == 2
  {
    CrossingCount(t, d);
    assert exists j :: 0 <= j < 3 && d[j] > 0.0 by {
      assert d[0] >= eps || d[1] >= eps || d[2] >= eps;
    }
    assert exists j :: 0 <= j < 3 && d[j] < 0.0 by {
      assert d[0] <= -eps || d[1] <= -eps || d[2] <= -eps;
    }
  }

  /** The crossing loop over the edges of one triangle. */
  method ComputeCrossings(t: Tri, d: seq<real>) returns (points: seq<Vec3>)
    requires |d| == 3
    ensures points == Crossings(t, d)
  {
    points := [];
    for j := 0 to 3
      invariant points == CrossingsUpTo(t, d, j)
    {
      var k := (j + 1) % 3;
      if (d[j] < 0.0 && d[k] >= 0.0) || (d[j] > 0.0 && d[k] <= 0.0) {
        var ratio := Abs(d[j]) / (Abs(d[j]) + Abs(d[k]));
        points := points + [Add(Corner(t, j), Scale(Sub(Corner(t, k), Corner(t, j)), ratio))];
      }
    }
  }

  /** A crossing point along the separating axis: its signed distance from the first crossing
      point of triangle 0, the triangle (0 or 1) and which of its two crossing points it is. */
  datatype Interval = Interval(dist: real, triangle: nat, vertex: nat)

  predicate SortedByDistance(s: seq<Interval>) {
    forall i, j :: 0 <= i < j < |s| ==> s[i].dist <= s[j].dist
  }

  /** Insertion of `x` into `s` scanning from the back and stopping at the first element not
      greater than `x`. std::sort fixes no order among equal distances; keeping an equal
      element ahead of `x` is the model's choice. */
  function InsertByDistance(x: Interval, s: seq<Interval>): (r: seq<Interval>)
    ensures multiset(r) == multiset(s) + multiset{x}
    ensures |r| == |s| + 1
  {
    if |s| == 0 then [x]
    else if x.dist < s[|s| - 1].dist then
      assert s == s[..|s| - 1] + [s[|s| - 1]];
      InsertByDistance(x, s[..|s| - 1]) + [s[|s| - 1]]
    else s + [x]
  }

  function SortByDistance(s: seq<Interval>): (r: seq<Interval>)
    ensures multiset(r) == multiset(s)
    ensures |r| == |s|
  {
    if |s| == 0 then []
    else
      assert s == s[..|s| - 1] + [s[|s| - 1]];
      InsertByDistance(s[|s| - 1], SortByDistance(s[..|s| - 1]))
  }

  /** Inserting into a sorted sequence keeps it sorted. */
  lemma {:induction false} InsertKeepsSorted(x: Interval, s: seq<Interval>)
    requires SortedByDistance(s)
    ensures SortedByDistance(InsertByDistance(x, s))
  {
    if |s| > 0 && x.dist < s[|s| - 1].dist {
      var front := s[..|s| - 1];
      InsertKeepsSorted(x, front);
      var q := InsertByDistance(x, front);
      forall i | 0 <= i < |q|
        ensures q[i].dist <= s[|s| - 1].dist
      {
        assert q[i] in multiset(q);
        if q[i] != x {
          assert q[i] in multiset(front);
          var m :| 0 <= m < |front| && front[m] == q[i];
          assert front[m] == s[m];
        }
      }
    }
  }

  /** The sort orders by distance and permutes its input. */
  lemma {:induction false} SortByDistanceSorts(s: seq<Interval>)
    ensures SortedByDistance(SortByDistance(s))
    ensures multiset(SortByDistance(s)) == multiset(s)
  {
    if |s| > 0 {
      SortByDistanceSorts(s[..|s| - 1]);
      InsertKeepsSorted(s[|s| - 1], SortByDistance(s[..|s| - 1]));
    }
  }

  /** The contact found along the separating axis. */
  datatype AxisContact = AxisContact(depth: real, point0: Vec3, point1: Vec3, normal: Vec3)

  /** The four crossing points along the axis, before sorting. */
  function AxisIntervals(tsa0: seq<Vec3>, tsa1: seq<Vec3>, axis: Vec3): (r: seq<Interval>)
    requires |tsa0| == 2 && |tsa1| == 2
    ensures |r| == 4 && forall x :: x in r ==> x.triangle < 2 && x.vertex < 2
  {
    [Interval(0.0, 0, 0), Interval(Dot(Sub(tsa0[1], tsa0[0]), axis), 0, 1),
     Interval(Dot(Sub(tsa1[0], tsa0[0]), axis), 1, 0), Interval(Dot(Sub(tsa1[1], tsa0[0]), axis), 1, 1)]
  }

  /** The sorted intervals, with every entry naming one of the two crossing points of one of
      the two triangles. */
  function SortedAxisIntervals(tsa0: seq<Vec3>, tsa1: seq<Vec3>, axis: Vec3): (r: seq<Interval>)
    requires |tsa0| == 2 && |tsa1| == 2
    ensures NamesCrossings(r) && SortedByDistance(r)
  {
    var intervals := AxisIntervals(tsa0, tsa1, axis);
    SortByDistanceSorts(intervals);
    var r := SortByDistance(intervals);
    assert forall i :: 0 <= i < 4 ==> r[i] in multiset(intervals);
    r
  }

  /** Which two of the sorted points P, Q, R, S bound the overlap: (P, R) or (Q, S) when Q and R
      lie on the same triangle, whichever gap PQ or RS is smaller, otherwise (Q, R). */
  function OverlapBounds(s: seq<Interval>): (bounds: (nat, nat))
    requires |s| == 4
    ensures bounds.0 < bounds.1 < 4
  {
    if s[1].triangle == s[2].triangle then
      if s[1].dist - s[0].dist < s[3].dist - s[2].dist then (0, 2) else (1, 3)
    else (1, 2)
  }

  /** The crossing points named by the sorted intervals `s`. */
  predicate NamesCrossings(s: seq<Interval>) {
    |s| == 4 && forall i :: 0 <= i < 4 ==> s[i].triangle < 2 && s[i].vertex < 2
  }

  /** The contact read off the sorted intervals P, Q, R, S. */
  function ContactFromSorted(s: seq<Interval>, tsa0: seq<Vec3>, tsa1: seq<Vec3>, axis: Vec3, eps: real): Option<AxisContact>
    requires NamesCrossings(s) && |tsa0| == 2 && |tsa1| == 2
  {
    if s[0].triangle == s[1].triangle then None
    else
      var (left, right) := OverlapBounds(s);
      var depth := s[right].dist - s[left].dist;
      if depth < eps then None
      else
        var p0 := if s[left].triangle == 0 then tsa0[s[left].vertex] else tsa0[s[right].vertex];
        var p1 := if s[left].triangle == 0 then tsa1[s[right].vertex] else tsa1[s[left].vertex];
        var normal := if Dot(Sub(p0, p1), axis) > 0.0 then Neg(axis) else axis;
        Some(AxisContact(depth, p0, p1, normal))
  }

  /** No contact when P and Q belong to the same triangle; a contact found is at least eps
      deep, its points are crossing points of triangle 0 and 1, and its normal is the axis
      turned so that normal . (point0 - point1) <= 0. */
  lemma ContactFromSortedOutcome(s: seq<Interval>, tsa0: seq<Vec3>, tsa1: seq<Vec3>, axis: Vec3, eps: real)
    requires NamesCrossings(s) && |tsa0| == 2 && |tsa1| == 2
    ensures s[0].triangle == s[1].triangle ==> ContactFromSorted(s, tsa0, tsa1, axis, eps).None?
    ensures var r := ContactFromSorted(s, tsa0, tsa1, axis, eps);
            r.Some? ==>
              r.value.depth >= eps && r.value.point0 in tsa0 && r.value.point1 in tsa1
              && (r.value.normal == axis || r.value.normal == Neg(axis))
              && Dot(r.value.normal, Sub(r.value.point0, r.value.point1)) <= 0.0
  {
    var r := ContactFromSorted(s, tsa0, tsa1, axis, eps);
    if r.Some? {
      var v := Sub(r.value.point0, r.value.point1);
      if Dot(v, axis) > 0.0 {
        assert Dot(Neg(axis), v) == -Dot(v, axis);
      } else {
        assert Dot(axis, v) == Dot(v, axis);
      }
    }
  }

  /** The contact along the axis from the two crossing points of each triangle. */
  function ContactOnAxis(tsa0: seq<Vec3>, tsa1: seq<Vec3>, axis: Vec3, eps: real): Option<AxisContact>
    requires |tsa0| == 2 && |tsa1| == 2
  {
    ContactFromSorted(SortedAxisIntervals(tsa0, tsa1, axis), tsa0, tsa1, axis, eps)
  }

  function SeparatingAxisContact(t0: Tri, t1: Tri, t0n: Vec3, t1n: Vec3, eps: real,
                                 normalize: Vec3 -> Vec3): Option<AxisContact>
    requires eps > 0.0
  {
    var d0 := PlaneDistances(t0, t1.a, t1n);
    var d1 := PlaneDistances(t1, t0.a, t0n);
    if OneSided(d0, eps) || OneSided(d1, eps) then None
    else
      TwoCrossingsAfterRejection(t0, d0, eps);
      TwoCrossingsAfterRejection(t1, d1, eps);
      ContactOnAxis(Crossings(t0, d0), Crossings(t1, d1), normalize(Cross(t0n, t1n)), eps)
  }

  /** No contact when either triangle lies within eps on one side of the other's plane;
      otherwise both triangles cross the other's plane exactly twice and the contact is the
      one along the normalised cross product of the normals. */
  lemma SeparatingAxisOutcome(t0: Tri, t1: Tri, t0n: Vec3, t1n: Vec3, eps: real, normalize: Vec3 -> Vec3)
    requires eps > 0.0
    ensures var d0 := PlaneDistances(t0, t1.a, t1n);
            var d1 := PlaneDistances(t1, t0.a, t0n);
            OneSided(d0, eps) || OneSided(d1, eps) ==> SeparatingAxisContact(t0, t1, t0n, t1n, eps, normalize).None?
    ensures var d0 := PlaneDistances(t0, t1.a, t1n);
            var d1 := PlaneDistances(t1, t0.a, t0n);
            var r := SeparatingAxisContact(t0, t1, t0n, t1n, eps, normalize);
            var axis := normalize(Cross(t0n, t1n));
            r.Some? ==>
              !OneSided(d0, eps) && !OneSided(d1, eps)
              && |Crossings(t0, d0)| == 2 && |Crossings(t1, d1)| == 2
              && r == ContactOnAxis(Crossings(t0, d0), Crossings(t1, d1), axis, eps)
              && r.value.depth >= eps
              && r.value.point0 in Crossings(t0, d0) && r.value.point1 in Crossings(t1, d1)
              && (r.value.normal == axis || r.value.normal == Neg(axis))
              && Dot(r.value.normal, Sub(r.value.point0, r.value.point1)) <= 0.0
  {
    var d0 := PlaneDistances(t0, t1.a, t1n);
    var d1 := PlaneDistances(t1, t0.a, t0n);
    if !OneSided(d0, eps) && !OneSided(d1, eps) {
      TwoCrossingsAfterRejection(t0, d0, eps);
      TwoCrossingsAfterRejection(t1, d1, eps);
      var axis := normalize(Cross(t0n, t1n));
      ContactFromSortedOutcome(SortedAxisIntervals(Crossings(t0, d0), Crossings(t1, d1), axis),
                               Crossings(t0, d0), Crossings(t1, d1), axis, eps);
    }
  }

  /** The separating-axis contact with given unit normals. */
  method CalculateContactTriangleTriangleSeparatingAxis(t0: Tri, t1: Tri, t0n: Vec3, t1n: Vec3, eps: real,
                                                        normalize: Vec3 -> Vec3)
    returns (r: Option<AxisContact>)
    requires eps > 0.0
    ensures r == SeparatingAxisContact(t0, t1, t0n, t1n, eps, normalize)
  {
    var d0 := PlaneDistances(t0, t1.a, t1n);
    var d1 := PlaneDistances(t1, t0.a, t0n);
    if OneSided(d0, eps) || OneSided(d1, eps) {
      return None;
    }
    TwoCrossingsAfterRejection(t0, d0, eps);
    TwoCrossingsAfterRejection(t1, d1, eps);
    var tsa0 := ComputeCrossings(t0, d0);
    var tsa1 := ComputeCrossings(t1, d1);
    r := ContactOnAxis(tsa0, tsa1, normalize(Cross(t0n, t1n)), eps);
  }

  /** The separating-axis contact with the normals computed from the vertices: no contact
      when either triangle is degenerate. */
  method CalculateContactTriangleTriangleSeparatingAxisFromVertices(t0: Tri, t1: Tri, eps: real,
                                                                    normalize: Vec3 -> Vec3)
    returns (r: Option<AxisContact>)
    requires eps > 0.0
    ensures IsZero(TriangleNormal(t0)) || IsZero(TriangleNormal(t1)) ==> r.None?
    ensures !IsZero(TriangleNormal(t0)) && !IsZero(TriangleNormal(t1)) ==>
              r == SeparatingAxisContact(t0, t1, normalize(TriangleNormal(t0)), normalize(TriangleNormal(t1)), eps, normalize)
  {
    var t0n := TriangleNormal(t0);
    var t1n := TriangleNormal(t1);
    if IsZero(t0n) || IsZero(t1n) {
      return None;
    }
    r := CalculateContactTriangleTriangleSeparatingAxis(t0, t1, normalize(t0n), normalize(t1n), eps, normalize);
  }
}
