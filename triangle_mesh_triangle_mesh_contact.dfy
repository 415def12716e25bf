// Narrow phase between two triangle meshes: the discrete test over the candidate
// triangles of the broad phase, and the continuous test that picks, per pair of swept
// triangles, the earliest of fifteen swept primitive tests.
module TriangleMeshTriangleMeshContact {
  import opened Wrappers
  import opened Vectors
  import opened CollisionTypes
  import opened Boxes

  const DblMax: real := 1.7976931348623157e308

  // ---------------------------------------------------------------------------
  // Discrete detection

  /** What the triangle-triangle contact calculation reports for one pair of triangles. */
  datatype TriangleContact = TriangleContact(depth: real, penetrationA: Vec3, penetrationB: Vec3, normal: Vec3)

  /** A contact together with the two triangles it was found between. */
  datatype MeshContact = MeshContact(triangleA: nat, triangleB: nat, contact: Contact)

  /** One node pair of the spatial join: the triangles of each node whose boxes meet the other node. */
  datatype Candidates = Candidates(trianglesA: seq<nat>, trianglesB: seq<nat>)

  predicate IdsInRange(ids: seq<nat>, n: nat) { forall k :: 0 <= k < |ids| ==> ids[k] < n }

  predicate CandidatesInRange(cands: seq<Candidates>, na: nat, nb: nat) {
    forall k :: 0 <= k < |cands| ==> IdsInRange(cands[k].trianglesA, na) && IdsInRange(cands[k].trianglesB, nb)
  }

  /** The contact built from a successful triangle-triangle calculation. */
  function DiscreteContact(i: nat, j: nat, c: TriangleContact): MeshContact {
    MeshContact(i, j, Contact(Discrete, Abs(c.depth), 1.0, Zero, c.normal, c.penetrationA, c.penetrationB))
  }

  /** Contacts of triangle `i` of A against the first `n` triangles of `listB`. */
  function DcdRow(normalsA: seq<Vec3>, normalsB: seq<Vec3>, i: nat, listB: seq<nat>, n: nat,
                  tt: (nat, nat) -> Option<TriangleContact>): seq<MeshContact>
    requires i < |normalsA| && n <= |listB| && IdsInRange(listB, |normalsB|)
  {
    if n == 0 || IsZero(normalsA[i]) then []
    else
      var j := listB[n - 1];
      var rest := DcdRow(normalsA, normalsB, i, listB, n - 1, tt);
      if IsZero(normalsB[j]) then rest
      else match tt(i, j)
        case None => rest
        case Some(c) => rest + [DiscreteContact(i, j, c)]
  }

  /** Contacts of the first `n` triangles of `listA` against all of `listB`. */
  function DcdNode(normalsA: seq<Vec3>, normalsB: seq<Vec3>, listA: seq<nat>, listB: seq<nat>, n: nat,
                   tt: (nat, nat) -> Option<TriangleContact>): seq<MeshContact>
    requires n <= |listA| && IdsInRange(listA, |normalsA|) && IdsInRange(listB, |normalsB|)
  {
    if n == 0 then []
    else DcdNode(normalsA, normalsB, listA, listB, n - 1, tt)
         + DcdRow(normalsA, normalsB, listA[n - 1], listB, |listB|, tt)
  }

  /** Contacts of the first `n` node pairs of the spatial join. */
  function Dcd(normalsA: seq<Vec3>, normalsB: seq<Vec3>, cands: seq<Candidates>, n: nat,
               tt: (nat, nat) -> Option<TriangleContact>): seq<MeshContact>
    requires n <= |cands| && CandidatesInRange(cands, |normalsA|, |normalsB|)
  {
    if n == 0 then []
    else Dcd(normalsA, normalsB, cands, n - 1, tt)
         + DcdNode(normalsA, normalsB, cands[n - 1].trianglesA, cands[n - 1].trianglesB,
                   |cands[n - 1].trianglesA|, tt)
  }

  /** A contact the discrete test may report for triangles `i` and `j`: both normals are
      non-zero and the triangle-triangle calculation found `c`. */
  predicate Reportable(normalsA: seq<Vec3>, normalsB: seq<Vec3>, i: nat, j: nat,
                       tt: (nat, nat) -> Option<TriangleContact>, m: MeshContact)
  {
    i < |normalsA| && j < |normalsB| && !IsZero(normalsA[i]) && !IsZero(normalsB[j])
    && tt(i, j).Some? && m == DiscreteContact(i, j, tt(i, j).value)
  }

  lemma {:induction false} DcdRowMembers(normalsA: seq<Vec3>, normalsB: seq<Vec3>, i: nat, listB: seq<nat>,
                                         n: nat, tt: (nat, nat) -> Option<TriangleContact>, m: MeshContact)
    requires i < |normalsA| && n <= |listB| && IdsInRange(listB, |normalsB|)
    ensures m in DcdRow(normalsA, normalsB, i, listB, n, tt) <==>
            exists k :: 0 <= k < n && Reportable(normalsA, normalsB, i, listB[k], tt, m)
  {
    if n > 0 && !IsZero(normalsA[i]) {
      DcdRowMembers(normalsA, normalsB, i, listB, n - 1, tt, m);
      if m in DcdRow(normalsA, normalsB, i, listB, n, tt) && m !in DcdRow(normalsA, normalsB, i, listB, n - 1, tt) {
        assert Reportable(normalsA, normalsB, i, listB[n - 1], tt, m);
      }
    }
  }

  lemma {:induction false} DcdNodeMembers(normalsA: seq<Vec3>, normalsB: seq<Vec3>, listA: seq<nat>, listB: seq<nat>,
                                          n: nat, tt: (nat, nat) -> Option<TriangleContact>, m: MeshContact)
    requires n <= |listA| && IdsInRange(listA, |normalsA|) && IdsInRange(listB, |normalsB|)
    ensures m in DcdNode(normalsA, normalsB, listA, listB, n, tt) <==>
            exists a, b :: 0 <= a < n && 0 <= b < |listB| && Reportable(normalsA, normalsB, listA[a], listB[b], tt, m)
  {
    if n > 0 {
      DcdNodeMembers(normalsA, normalsB, listA, listB, n - 1, tt, m);
      DcdRowMembers(normalsA, normalsB, listA[n - 1], listB, |listB|, tt, m);
    }
  }

  /** The discrete contacts are exactly the reportable contacts of the candidate pairs:
      a pair with a zero normal on either side is never examined, and every pair the
      triangle-triangle calculation accepts yields a contact. */
  lemma {:induction false} DcdMembers(normalsA: seq<Vec3>, normalsB: seq<Vec3>, cands: seq<Candidates>, n: nat,
                                      tt: (nat, nat) -> Option<TriangleContact>, m: MeshContact)
    requires n <= |cands| && CandidatesInRange(cands, |normalsA|, |normalsB|)
    ensures m in Dcd(normalsA, normalsB, cands, n, tt) <==>
            exists k, a, b :: 0 <= k < n && 0 <= a < |cands[k].trianglesA| && 0 <= b < |cands[k].trianglesB|
                              && Reportable(normalsA, normalsB, cands[k].trianglesA[a], cands[k].trianglesB[b], tt, m)
  {
    if n > 0 {
      DcdMembers(normalsA, normalsB, cands, n - 1, tt, m);
      DcdNodeMembers(normalsA, normalsB, cands[n - 1].trianglesA, cands[n - 1].trianglesB,
                     |cands[n - 1].trianglesA|, tt, m);
    }
  }

  /** A reportable contact is DISCRETE, has a non-negative depth, time 1 and the
      calculated normal, and both of its triangles have non-zero normals. */
  predicate WellFormedDiscrete(normalsA: seq<Vec3>, normalsB: seq<Vec3>,
                               tt: (nat, nat) -> Option<TriangleContact>, m: MeshContact)
  {
    m.contact.kind == Discrete && m.contact.depth >= 0.0 && m.contact.time == 1.0
    && m.triangleA < |normalsA| && m.triangleB < |normalsB|
    && !IsZero(normalsA[m.triangleA]) && !IsZero(normalsB[m.triangleB])
    && tt(m.triangleA, m.triangleB).Some?
    && m.contact.normal == tt(m.triangleA, m.triangleB).value.normal
  }

  lemma DcdContactWellFormed(normalsA: seq<Vec3>, normalsB: seq<Vec3>, cands: seq<Candidates>,
                             tt: (nat, nat) -> Option<TriangleContact>, m: MeshContact)
    requires CandidatesInRange(cands, |normalsA|, |normalsB|)
    requires m in Dcd(normalsA, normalsB, cands, |cands|, tt)
    ensures WellFormedDiscrete(normalsA, normalsB, tt, m)
  {
    DcdMembers(normalsA, normalsB, cands, |cands|, tt, m);
    var k, a, b :| 0 <= k < |cands| && 0 <= a < |cands[k].trianglesA| && 0 <= b < |cands[k].trianglesB|
                   && Reportable(normalsA, normalsB, cands[k].trianglesA[a], cands[k].trianglesB[b], tt, m);
  }

  /** Every discrete contact is DISCRETE, has a non-negative depth, time 1 and the
      calculated normal. */
  lemma DcdContactsWellFormed(normalsA: seq<Vec3>, normalsB: seq<Vec3>, cands: seq<Candidates>,
                              tt: (nat, nat) -> Option<TriangleContact>)
    requires CandidatesInRange(cands, |normalsA|, |normalsB|)
    ensures forall m :: m in Dcd(normalsA, normalsB, cands, |cands|, tt) ==> WellFormedDiscrete(normalsA, normalsB, tt, m)
  {
    forall m | m in Dcd(normalsA, normalsB, cands, |cands|, tt)
      ensures WellFormedDiscrete(normalsA, normalsB, tt, m)
    {
      DcdContactWellFormed(normalsA, normalsB, cands, tt, m);
    }
  }

  /** The discrete test over the node pairs of the spatial join of the two trees. */
  method CalculateDcdContact(normalsA: seq<Vec3>, normalsB: seq<Vec3>, cands: seq<Candidates>,
                             tt: (nat, nat) -> Option<TriangleContact>)
    returns (contacts: seq<MeshContact>)
    requires CandidatesInRange(cands, |normalsA|, |normalsB|)
    ensures contacts == Dcd(normalsA, normalsB, cands, |cands|, tt)
  {
    contacts := [];
    for k := 0 to |cands|
      invariant contacts == Dcd(normalsA, normalsB, cands, k, tt)
    {
      var listA := cands[k].trianglesA;
      var listB := cands[k].trianglesB;
      ghost var before := contacts;
      for a := 0 to |listA|
        invariant contacts == before + DcdNode(normalsA, normalsB, listA, listB, a, tt)
      {
        var i := listA[a];
        if IsZero(normalsA[i]) {
          continue;
        }
        ghost var beforeRow := contacts;
        for b := 0 to |listB|
          invariant contacts == beforeRow + DcdRow(normalsA, normalsB, i, listB, b, tt)
        {
          var j := listB[b];
          if IsZero(normalsB[j]) {
            continue;
          }
          match tt(i, j) {
            case None =>
            case Some(c) =>
              contacts := contacts + [DiscreteContact(i, j, c)];
          }
        }
      }
    }
  }

  // ---------------------------------------------------------------------------
  // Continuous detection

  /** The three vertex ids of a triangle. */
  datatype VertexIds = VertexIds(v0: nat, v1: nat, v2: nat)

  /** A mesh shape at one end of the time step: its (valid) triangles and vertex positions. */
  datatype MeshFrame = MeshFrame(triangles: seq<VertexIds>, vertices: seq<Vec3>)

  /** A vertex position at the start and at the end of the step. */
  datatype SweptVertex = SweptVertex(t0: Vec3, t1: Vec3)

  datatype SweptTriangle = SweptTriangle(v0: SweptVertex, v1: SweptVertex, v2: SweptVertex)

  /** A point of a triangle as P = v0 + alpha (v1 - v0) + beta (v2 - v0). */
  datatype Bary = Bary(alpha: real, beta: real)

  /** What a swept root-finder reports: the time of impact and two parameters. */
  datatype Hit = Hit(time: real, f1: real, f2: real)

  /** The geometric primitives the continuous test calls, which are not part of this model:
      the distance between the triangles at t = 0 together with the barycentric coordinates
      of the closest points (`Some` when the distance is <= 0), the swept segment-segment
      test and the swept point-triangle test. */
  datatype Primitives = Primitives(
    touchingAtT0: (Vec3, Vec3, Vec3, Vec3, Vec3, Vec3) -> Option<(Bary, Bary)>,
    segmentSegment: (SweptVertex, SweptVertex, SweptVertex, SweptVertex) -> Option<Hit>,
    pointTriangle: (SweptVertex, SweptVertex, SweptVertex, SweptVertex) -> Option<Hit>)

  predicate InTriangle(b: Bary) { b.alpha >= 0.0 && b.beta >= 0.0 && b.alpha + b.beta <= 1.0 }

  /** The range contracts of the primitives: closest points lie in their triangles, swept
      times and edge factors lie in [0, 1], and a point-triangle hit lies in the triangle. */
  ghost predicate PrimitivesInRange(p: Primitives) {
    (forall a, b, c, d, e, f :: p.touchingAtT0(a, b, c, d, e, f).Some? ==>
       InTriangle(p.touchingAtT0(a, b, c, d, e, f).value.0) && InTriangle(p.touchingAtT0(a, b, c, d, e, f).value.1))
    && (forall a, b, c, d :: p.segmentSegment(a, b, c, d).Some? ==>
       var h := p.segmentSegment(a, b, c, d).value; InUnit(h.time) && InUnit(h.f1) && InUnit(h.f2))
    && (forall a, b, c, d :: p.pointTriangle(a, b, c, d).Some? ==>
       var h := p.pointTriangle(a, b, c, d).value; InUnit(h.time) && InTriangle(Bary(h.f1, h.f2)))
  }

  /** A candidate contact: time of impact and the contact point on each triangle. */
  datatype Candidate = Candidate(time: real, bary1: Bary, bary2: Bary)

  /** Edge e of a triangle (0: v0v1, 1: v1v2, 2: v2v0) at factor f along it. */
  function EdgeBary(e: nat, f: real): (b: Bary)
    requires e < 3
    ensures InUnit(f) ==> InTriangle(b)
  {
    if e == 0 then Bary(f, 0.0) else if e == 1 then Bary(1.0 - f, f) else Bary(0.0, 1.0 - f)
  }

  /** Vertex k of a triangle. */
  function VertexBary(k: nat): (b: Bary)
    requires k < 3
    ensures InTriangle(b)
  {
    if k == 0 then Bary(0.0, 0.0) else if k == 1 then Bary(1.0, 0.0) else Bary(0.0, 1.0)
  }

  function EdgeStart(t: SweptTriangle, e: nat): SweptVertex
    requires e < 3
  {
    if e == 0 then t.v0 else if e == 1 then t.v1 else t.v2
  }

  function EdgeEnd(t: SweptTriangle, e: nat): SweptVertex
    requires e < 3
  {
    if e == 0 then t.v1 else if e == 1 then t.v2 else t.v0
  }

  /** The swept segment-segment test of edge e1 of t1 against edge e2 of t2. */
  function EdgeEdge(t1: SweptTriangle, e1: nat, t2: SweptTriangle, e2: nat, p: Primitives): Option<Candidate>
    requires e1 < 3 && e2 < 3
  {
    match p.segmentSegment(EdgeStart(t1, e1), EdgeEnd(t1, e1), EdgeStart(t2, e2), EdgeEnd(t2, e2))
    case None => None
    case Some(h) => Some(Candidate(h.time, EdgeBary(e1, h.f1), EdgeBary(e2, h.f2)))
  }

  /** Vertex k of t1 swept against t2. */
  function VertexThrough2(t1: SweptTriangle, k: nat, t2: SweptTriangle, p: Primitives): Option<Candidate>
    requires k < 3
  {
    match p.pointTriangle(EdgeStart(t1, k), t2.v0, t2.v1, t2.v2)
    case None => None
    case Some(h) => Some(Candidate(h.time, VertexBary(k), Bary(h.f1, h.f2)))
  }

  /** Vertex k of t2 swept against t1. */
  function VertexThrough1(t1: SweptTriangle, t2: SweptTriangle, k: nat, p: Primitives): Option<Candidate>
    requires k < 3
  {
    match p.pointTriangle(EdgeStart(t2, k), t1.v0, t1.v1, t1.v2)
    case None => None
    case Some(h) => Some(Candidate(h.time, Bary(h.f1, h.f2), VertexBary(k)))
  }

  /** The fifteen swept tests in the order they are tried: the nine edge-edge pairs, the
      three vertices of t1 against t2, then the three vertices of t2 against t1. */
  function SweptCandidates(t1: SweptTriangle, t2: SweptTriangle, p: Primitives): (cs: seq<Option<Candidate>>)
    ensures |cs| == 15
  {
    [EdgeEdge(t1, 0, t2, 0, p), EdgeEdge(t1, 0, t2, 1, p), EdgeEdge(t1, 0, t2, 2, p),
     EdgeEdge(t1, 1, t2, 0, p), EdgeEdge(t1, 1, t2, 1, p), EdgeEdge(t1, 1, t2, 2, p),
     EdgeEdge(t1, 2, t2, 0, p), EdgeEdge(t1, 2, t2, 1, p), EdgeEdge(t1, 2, t2, 2, p),
     VertexThrough2(t1, 0, t2, p), VertexThrough2(t1, 1, t2, p), VertexThrough2(t1, 2, t2, p),
     VertexThrough1(t1, t2, 0, p), VertexThrough1(t1, t2, 1, p), VertexThrough1(t1, t2, 2, p)]
  }

  predicate CandidateInRange(c: Candidate) { InUnit(c.time) && InTriangle(c.bary1) && InTriangle(c.bary2) }

  /** Every mapping of an edge factor or a vertex to (alpha, beta) lands in the triangle. */
  lemma SweptCandidatesInRange(t1: SweptTriangle, t2: SweptTriangle, p: Primitives)
    requires PrimitivesInRange(p)
    ensures forall c :: c in SweptCandidates(t1, t2, p) && c.Some? ==> CandidateInRange(c.value)
  {
    EdgeEdgeInRange(t1, 0, t2, 0, p); EdgeEdgeInRange(t1, 0, t2, 1, p); EdgeEdgeInRange(t1, 0, t2, 2, p);
    EdgeEdgeInRange(t1, 1, t2, 0, p); EdgeEdgeInRange(t1, 1, t2, 1, p); EdgeEdgeInRange(t1, 1, t2, 2, p);
    EdgeEdgeInRange(t1, 2, t2, 0, p); EdgeEdgeInRange(t1, 2, t2, 1, p); EdgeEdgeInRange(t1, 2, t2, 2, p);
    VertexThrough2InRange(t1, 0, t2, p); VertexThrough2InRange(t1, 1, t2, p); VertexThrough2InRange(t1, 2, t2, p);
    VertexThrough1InRange(t1, t2, 0, p); VertexThrough1InRange(t1, t2, 1, p); VertexThrough1InRange(t1, t2, 2, p);
  }

  lemma EdgeEdgeInRange(t1: SweptTriangle, e1: nat, t2: SweptTriangle, e2: nat, p: Primitives)
    requires PrimitivesInRange(p) && e1 < 3 && e2 < 3
    ensures EdgeEdge(t1, e1, t2, e2, p).Some? ==> CandidateInRange(EdgeEdge(t1, e1, t2, e2, p).value)
  {
    var h := p.segmentSegment(EdgeStart(t1, e1), EdgeEnd(t1, e1), EdgeStart(t2, e2), EdgeEnd(t2, e2));
    assert h.Some? ==> InUnit(h.value.f1);
  }

  lemma VertexThrough2InRange(t1: SweptTriangle, k: nat, t2: SweptTriangle, p: Primitives)
    requires PrimitivesInRange(p) && k < 3
    ensures VertexThrough2(t1, k, t2, p).Some? ==> CandidateInRange(VertexThrough2(t1, k, t2, p).value)
  {
    var h := p.pointTriangle(EdgeStart(t1, k), t2.v0, t2.v1, t2.v2);
    assert h.Some? ==> InUnit(h.value.time);
  }

  lemma VertexThrough1InRange(t1: SweptTriangle, t2: SweptTriangle, k: nat, p: Primitives)
    requires PrimitivesInRange(p) && k < 3
    ensures VertexThrough1(t1, t2, k, p).Some? ==> CandidateInRange(VertexThrough1(t1, t2, k, p).value)
  {
    var h := p.pointTriangle(EdgeStart(t2, k), t1.v0, t1.v1, t1.v2);
    assert h.Some? ==> InUnit(h.value.time);
  }

  /** Before any test: time DBL_MAX and both coordinates (-1, -1). */
  const NoCandidate: Candidate := Candidate(DblMax, Bary(-1.0, -1.0), Bary(-1.0, -1.0))

  /** The running selection: a test replaces the current candidate only when its time is
      strictly smaller. */
  function Select(cs: seq<Option<Candidate>>): Candidate {
    if |cs| == 0 then NoCandidate
    else
      var s := Select(cs[..|cs| - 1]);
      match cs[|cs| - 1]
      case None => s
      case Some(c) => if c.time < s.time then c else s
  }

  predicate TimesBelowMax(cs: seq<Option<Candidate>>) {
    forall k :: 0 <= k < |cs| && cs[k].Some? ==> cs[k].value.time < DblMax
  }

  /** The selection keeps the sentinel exactly when no test fires; otherwise it is the
      first test in order whose time is the minimum of all fired tests. */
  lemma {:induction false} SelectEarliestFirstWins(cs: seq<Option<Candidate>>)
    requires TimesBelowMax(cs)
    ensures Select(cs) == NoCandidate <==> forall k :: 0 <= k < |cs| ==> cs[k].None?
    ensures Select(cs) != NoCandidate ==>
              exists k :: 0 <= k < |cs| && cs[k] == Some(Select(cs))
                          && (forall j :: 0 <= j < k && cs[j].Some? ==> cs[j].value.time > Select(cs).time)
    ensures forall k :: 0 <= k < |cs| && cs[k].Some? ==> Select(cs).time <= cs[k].value.time
  {
    if |cs| > 0 {
      var init := cs[..|cs| - 1];
      assert forall k :: 0 <= k < |init| ==> init[k] == cs[k];
      SelectEarliestFirstWins(init);
      var s := Select(init);
      match cs[|cs| - 1]
      case None =>
        if s != NoCandidate {
          var k :| 0 <= k < |init| && init[k] == Some(s)
                   && (forall j :: 0 <= j < k && init[j].Some? ==> init[j].value.time > s.time);
          assert cs[k] == Some(Select(cs));
        }
      case Some(c) =>
        if c.time < s.time {
          assert c.time < DblMax;
          assert cs[|cs| - 1] == Some(Select(cs));
        } else if s != NoCandidate {
          var k :| 0 <= k < |init| && init[k] == Some(s)
                   && (forall j :: 0 <= j < k && init[j].Some? ==> init[j].value.time > s.time);
          assert cs[k] == Some(Select(cs));
        }
    }
  }

  /** A default box extended with the six positions the triangle occupies at the two ends
      of the step. */
  function SweptBox(t: SweptTriangle): Aabb {
    Extend(Extend(Extend(Extend(Extend(Extend(Empty, t.v0.t0), t.v0.t1), t.v1.t0), t.v1.t1), t.v2.t0), t.v2.t1)
  }

  lemma SweptBoxContains(t: SweptTriangle)
    ensures ContainsPoint(SweptBox(t), t.v0.t0) && ContainsPoint(SweptBox(t), t.v0.t1)
    ensures ContainsPoint(SweptBox(t), t.v1.t0) && ContainsPoint(SweptBox(t), t.v1.t1)
    ensures ContainsPoint(SweptBox(t), t.v2.t0) && ContainsPoint(SweptBox(t), t.v2.t1)
  {
  }

  /** The outcome for one pair of swept triangles: pruned when the swept boxes do not meet,
      time 0 when the triangles already touch at t = 0, otherwise the earliest swept test. */
  function PairOutcome(t1: SweptTriangle, t2: SweptTriangle, p: Primitives): Option<Candidate> {
    if !Intersect(SweptBox(t1), SweptBox(t2)) then None
    else match p.touchingAtT0(t1.v0.t0, t1.v1.t0, t1.v2.t0, t2.v0.t0, t2.v1.t0, t2.v2.t0)
      case Some(bs) => Some(Candidate(0.0, bs.0, bs.1))
      case None =>
        var s := Select(SweptCandidates(t1, t2, p));
        if s.time == DblMax then None else Some(s)
  }

  /** The outcome of a pair is pruned when the swept boxes are apart, is at time 0 when the
      triangles touch at t = 0, is absent exactly when no swept test fires, and otherwise is
      the earliest swept test (first in order among equal times); its time lies in [0, 1]
      and both contact points lie in their triangles. */
  lemma PairOutcomeSpec(t1: SweptTriangle, t2: SweptTriangle, p: Primitives)
    requires PrimitivesInRange(p)
    ensures !Intersect(SweptBox(t1), SweptBox(t2)) ==> PairOutcome(t1, t2, p).None?
    ensures Intersect(SweptBox(t1), SweptBox(t2))
            && p.touchingAtT0(t1.v0.t0, t1.v1.t0, t1.v2.t0, t2.v0.t0, t2.v1.t0, t2.v2.t0).Some? ==>
              PairOutcome(t1, t2, p).Some? && PairOutcome(t1, t2, p).value.time == 0.0
    ensures Intersect(SweptBox(t1), SweptBox(t2))
            && p.touchingAtT0(t1.v0.t0, t1.v1.t0, t1.v2.t0, t2.v0.t0, t2.v1.t0, t2.v2.t0).None? ==>
              (PairOutcome(t1, t2, p).None? <==> forall k :: 0 <= k < 15 ==> SweptCandidates(t1, t2, p)[k].None?)
              && (PairOutcome(t1, t2, p).Some? ==> PairOutcome(t1, t2, p).value == Select(SweptCandidates(t1, t2, p)))
    ensures PairOutcome(t1, t2, p).Some? ==> CandidateInRange(PairOutcome(t1, t2, p).value)
  {
    var cs := SweptCandidates(t1, t2, p);
    SweptCandidatesInRange(t1, t2, p);
    assert forall k :: 0 <= k < |cs| ==> cs[k] in cs;
    assert TimesBelowMax(cs);
    SelectEarliestFirstWins(cs);
    if Select(cs) != NoCandidate {
      var k :| 0 <= k < |cs| && cs[k] == Some(Select(cs));
    }
  }

  /** A contact of the continuous test: the two triangles, the time of impact and the
      contact point on each triangle.  Depth, normal and contact position are not modelled. */
  datatype CcdContact = CcdContact(triangle1: nat, triangle2: nat, kind: DetectionType, time: real,
                                   bary1: Bary, bary2: Bary)

  predicate IdsBelow(ids: VertexIds, n: nat) { ids.v0 < n && ids.v1 < n && ids.v2 < n }

  /** The conditions the continuous test asserts on a shape at both ends of the step:
      a non-empty mesh, equal triangle counts, identical vertex-id triples, and (through
      vertex access) vertex ids in range. */
  predicate FramesMatch(t0: MeshFrame, t1: MeshFrame) {
    |t0.triangles| > 0 && |t0.triangles| == |t1.triangles|
    && (forall i :: 0 <= i < |t0.triangles| ==> t0.triangles[i] == t1.triangles[i])
    && (forall i :: 0 <= i < |t0.triangles| ==> IdsBelow(t0.triangles[i], |t0.vertices|)
                                                && IdsBelow(t0.triangles[i], |t1.vertices|))
  }

  /** Triangle `id` of a shape, with each vertex at its start and end position. */
  function SweptTriangleOf(t0: MeshFrame, t1: MeshFrame, id: nat): SweptTriangle
    requires id < |t0.triangles| && IdsBelow(t0.triangles[id], |t0.vertices|)
    requires IdsBelow(t0.triangles[id], |t1.vertices|)
  {
    var ids := t0.triangles[id];
    SweptTriangle(SweptVertex(t0.vertices[ids.v0], t1.vertices[ids.v0]),
                  SweptVertex(t0.vertices[ids.v1], t1.vertices[ids.v1]),
                  SweptVertex(t0.vertices[ids.v2], t1.vertices[ids.v2]))
  }

  /** The swept box of a triangle holds the start and end positions of the triangle's own
      three vertices. */
  lemma SweptBoxHoldsTriangle(t0: MeshFrame, t1: MeshFrame, id: nat)
    requires id < |t0.triangles| && IdsBelow(t0.triangles[id], |t0.vertices|)
    requires IdsBelow(t0.triangles[id], |t1.vertices|)
    ensures var box := SweptBox(SweptTriangleOf(t0, t1, id));
            var ids := t0.triangles[id];
            ContainsPoint(box, t0.vertices[ids.v0]) && ContainsPoint(box, t1.vertices[ids.v0])
            && ContainsPoint(box, t0.vertices[ids.v1]) && ContainsPoint(box, t1.vertices[ids.v1])
            && ContainsPoint(box, t0.vertices[ids.v2]) && ContainsPoint(box, t1.vertices[ids.v2])
  {
    SweptBoxContains(SweptTriangleOf(t0, t1, id));
  }

  /** As written, the positions of triangle 1 are looked up in shape 2's vertices. */
  function Triangle1AsWritten(s1t0: MeshFrame, s2t0: MeshFrame, s2t1: MeshFrame, id: nat): SweptTriangle
    requires id < |s1t0.triangles|
    requires IdsBelow(s1t0.triangles[id], |s2t0.vertices|) && IdsBelow(s1t0.triangles[id], |s2t1.vertices|)
  {
    var ids := s1t0.triangles[id];
    SweptTriangle(SweptVertex(s2t0.vertices[ids.v0], s2t1.vertices[ids.v0]),
                  SweptVertex(s2t0.vertices[ids.v1], s2t1.vertices[ids.v1]),
                  SweptVertex(s2t0.vertices[ids.v2], s2t1.vertices[ids.v2]))
  }

  /** Two static meshes: triangle (0, 1, 2) of shape 1 lies on the unit triangle, and
      triangle (3, 4, 5) of shape 2 lies on it too, while shape 2's vertices 0..2 are far away.
      As written, triangle 1 is read at shape 2's vertices 0..2, so the swept boxes are apart
      and the pair is pruned, although the real swept boxes overlap. */
  lemma Triangle1FromShape2Prunes()
    ensures var s1 := MeshFrame([VertexIds(0, 1, 2)], [Vec3(0.0, 0.0, 0.0), Vec3(1.0, 0.0, 0.0), Vec3(0.0, 1.0, 0.0)]);
            var s2 := MeshFrame([VertexIds(3, 4, 5)],
                                [Vec3(10.0, 0.0, 0.0), Vec3(11.0, 0.0, 0.0), Vec3(10.0, 1.0, 0.0),
                                 Vec3(0.0, 0.0, 0.0), Vec3(1.0, 0.0, 0.0), Vec3(0.0, 1.0, 0.0)]);
            !Intersect(SweptBox(Triangle1AsWritten(s1, s2, s2, 0)), SweptBox(SweptTriangleOf(s2, s2, 0)))
            && Intersect(SweptBox(SweptTriangleOf(s1, s1, 0)), SweptBox(SweptTriangleOf(s2, s2, 0)))
  {
    var s1 := MeshFrame([VertexIds(0, 1, 2)], [Vec3(0.0, 0.0, 0.0), Vec3(1.0, 0.0, 0.0), Vec3(0.0, 1.0, 0.0)]);
    var s2 := MeshFrame([VertexIds(3, 4, 5)],
                        [Vec3(10.0, 0.0, 0.0), Vec3(11.0, 0.0, 0.0), Vec3(10.0, 1.0, 0.0),
                         Vec3(0.0, 0.0, 0.0), Vec3(1.0, 0.0, 0.0), Vec3(0.0, 1.0, 0.0)]);
    var asWritten := SweptBox(Triangle1AsWritten(s1, s2, s2, 0));
    var other := SweptBox(SweptTriangleOf(s2, s2, 0));
    var intended := SweptBox(SweptTriangleOf(s1, s1, 0));
    assert asWritten.lo.x == 10.0;
    assert other.hi.x == 1.0;
    assert intended == other;
  }

  /** The per-pair decision, as a parameter of the mesh loops; the continuous test uses
      `PairOutcome` with its primitives. */
  type Outcome = (SweptTriangle, SweptTriangle) -> Option<Candidate>

  function CcdOutcome(p: Primitives): Outcome { (t1, t2) => PairOutcome(t1, t2, p) }

  /** Contacts of triangle `t1` of shape 1 against the first `n` triangles of shape 2. */
  function CcdRow(s1t0: MeshFrame, s1t1: MeshFrame, s2t0: MeshFrame, s2t1: MeshFrame, t1: nat, n: nat,
                  outcome: Outcome): seq<CcdContact>
    requires FramesMatch(s1t0, s1t1) && FramesMatch(s2t0, s2t1)
    requires t1 < |s1t0.triangles| && n <= |s2t0.triangles|
  {
    if n == 0 then []
    else
      var rest := CcdRow(s1t0, s1t1, s2t0, s2t1, t1, n - 1, outcome);
      match outcome(SweptTriangleOf(s1t0, s1t1, t1), SweptTriangleOf(s2t0, s2t1, n - 1))
      case None => rest
      case Some(c) => rest + [CcdContact(t1, n - 1, Continuous, c.time, c.bary1, c.bary2)]
  }

  /** Contacts of the first `n` triangles of shape 1 against all of shape 2. */
  function Ccd(s1t0: MeshFrame, s1t1: MeshFrame, s2t0: MeshFrame, s2t1: MeshFrame, n: nat,
               outcome: Outcome): seq<CcdContact>
    requires FramesMatch(s1t0, s1t1) && FramesMatch(s2t0, s2t1)
    requires n <= |s1t0.triangles|
  {
    if n == 0 then []
    else Ccd(s1t0, s1t1, s2t0, s2t1, n - 1, outcome) + CcdRow(s1t0, s1t1, s2t0, s2t1, n - 1, |s2t0.triangles|, outcome)
  }

  /** What the continuous test reports for triangles t1 and t2. */
  predicate CcdReports(s1t0: MeshFrame, s1t1: MeshFrame, s2t0: MeshFrame, s2t1: MeshFrame, outcome: Outcome,
                       t1: nat, t2: nat, c: CcdContact)
    requires FramesMatch(s1t0, s1t1) && FramesMatch(s2t0, s2t1)
  {
    t1 < |s1t0.triangles| && t2 < |s2t0.triangles|
    && var o := outcome(SweptTriangleOf(s1t0, s1t1, t1), SweptTriangleOf(s2t0, s2t1, t2));
       o.Some? && c == CcdContact(t1, t2, Continuous, o.value.time, o.value.bary1, o.value.bary2)
  }

  /** The pair a contact of a row comes from. */
  lemma {:induction false} CcdRowSource(s1t0: MeshFrame, s1t1: MeshFrame, s2t0: MeshFrame, s2t1: MeshFrame,
                                        t1: nat, n: nat, outcome: Outcome, c: CcdContact)
    returns (t2: nat)
    requires FramesMatch(s1t0, s1t1) && FramesMatch(s2t0, s2t1)
    requires t1 < |s1t0.triangles| && n <= |s2t0.triangles|
    requires c in CcdRow(s1t0, s1t1, s2t0, s2t1, t1, n, outcome)
    ensures t2 < n && CcdReports(s1t0, s1t1, s2t0, s2t1, outcome, t1, t2, c)
  {
    if c in CcdRow(s1t0, s1t1, s2t0, s2t1, t1, n - 1, outcome) {
      t2 := CcdRowSource(s1t0, s1t1, s2t0, s2t1, t1, n - 1, outcome, c);
    } else {
      t2 := n - 1;
    }
  }

  /** A pair whose outcome is present has its contact in the row. */
  lemma {:induction false} CcdRowReported(s1t0: MeshFrame, s1t1: MeshFrame, s2t0: MeshFrame, s2t1: MeshFrame,
                                          t1: nat, n: nat, outcome: Outcome, t2: nat, c: CcdContact)
    requires FramesMatch(s1t0, s1t1) && FramesMatch(s2t0, s2t1)
    requires t1 < |s1t0.triangles| && n <= |s2t0.triangles|
    requires t2 < n && CcdReports(s1t0, s1t1, s2t0, s2t1, outcome, t1, t2, c)
    ensures c in CcdRow(s1t0, s1t1, s2t0, s2t1, t1, n, outcome)
  {
    if t2 < n - 1 {
      CcdRowReported(s1t0, s1t1, s2t0, s2t1, t1, n - 1, outcome, t2, c);
    }
  }

  /** A row holds exactly the contacts of the pairs (t1, t2), t2 < n, whose outcome is
      present. */
  lemma CcdRowMembers(s1t0: MeshFrame, s1t1: MeshFrame, s2t0: MeshFrame, s2t1: MeshFrame,
                      t1: nat, n: nat, outcome: Outcome, c: CcdContact)
    requires FramesMatch(s1t0, s1t1) && FramesMatch(s2t0, s2t1)
    requires t1 < |s1t0.triangles| && n <= |s2t0.triangles|
    ensures c in CcdRow(s1t0, s1t1, s2t0, s2t1, t1, n, outcome) <==>
            exists t2 :: 0 <= t2 < n && CcdReports(s1t0, s1t1, s2t0, s2t1, outcome, t1, t2, c)
  {
    if c in CcdRow(s1t0, s1t1, s2t0, s2t1, t1, n, outcome) {
      var t2 := CcdRowSource(s1t0, s1t1, s2t0, s2t1, t1, n, outcome, c);
    }
    if exists t2 :: 0 <= t2 < n && CcdReports(s1t0, s1t1, s2t0, s2t1, outcome, t1, t2, c) {
      var t2 :| 0 <= t2 < n && CcdReports(s1t0, s1t1, s2t0, s2t1, outcome, t1, t2, c);
      CcdRowReported(s1t0, s1t1, s2t0, s2t1, t1, n, outcome, t2, c);
    }
  }

  /** The pair a continuous contact comes from. */
  lemma {:induction false} CcdSource(s1t0: MeshFrame, s1t1: MeshFrame, s2t0: MeshFrame, s2t1: MeshFrame,
                                     n: nat, outcome: Outcome, c: CcdContact)
    returns (t1: nat, t2: nat)
    requires FramesMatch(s1t0, s1t1) && FramesMatch(s2t0, s2t1)
    requires n <= |s1t0.triangles|
    requires c in Ccd(s1t0, s1t1, s2t0, s2t1, n, outcome)
    ensures t1 < n && t2 < |s2t0.triangles| && CcdReports(s1t0, s1t1, s2t0, s2t1, outcome, t1, t2, c)
  {
    if c in Ccd(s1t0, s1t1, s2t0, s2t1, n - 1, outcome) {
      t1, t2 := CcdSource(s1t0, s1t1, s2t0, s2t1, n - 1, outcome, c);
    } else {
      t1 := n - 1;
      t2 := CcdRowSource(s1t0, s1t1, s2t0, s2t1, n - 1, |s2t0.triangles|, outcome, c);
    }
  }

  /** A pair whose outcome is present has its contact among the continuous contacts. */
  lemma {:induction false} CcdReported(s1t0: MeshFrame, s1t1: MeshFrame, s2t0: MeshFrame, s2t1: MeshFrame,
                                       n: nat, outcome: Outcome, t1: nat, t2: nat, c: CcdContact)
    requires FramesMatch(s1t0, s1t1) && FramesMatch(s2t0, s2t1)
    requires n <= |s1t0.triangles|
    requires t1 < n && t2 < |s2t0.triangles| && CcdReports(s1t0, s1t1, s2t0, s2t1, outcome, t1, t2, c)
    ensures c in Ccd(s1t0, s1t1, s2t0, s2t1, n, outcome)
  {
    var earlier := Ccd(s1t0, s1t1, s2t0, s2t1, n - 1, outcome);
    var row := CcdRow(s1t0, s1t1, s2t0, s2t1, n - 1, |s2t0.triangles|, outcome);
    assert Ccd(s1t0, s1t1, s2t0, s2t1, n, outcome) == earlier + row;
    if t1 < n - 1 {
      CcdReported(s1t0, s1t1, s2t0, s2t1, n - 1, outcome, t1, t2, c);
      assert c in earlier;
    } else {
      CcdRowReported(s1t0, s1t1, s2t0, s2t1, t1, |s2t0.triangles|, outcome, t2, c);
      assert c in row;
    }
  }

  /** The continuous contacts are exactly one per pair of triangles whose outcome is
      present: one CONTINUOUS contact at the earliest time, none for a pruned pair or a
      pair on which no test fires. */
  lemma CcdMembers(s1t0: MeshFrame, s1t1: MeshFrame, s2t0: MeshFrame, s2t1: MeshFrame,
                   n: nat, outcome: Outcome, c: CcdContact)
    requires FramesMatch(s1t0, s1t1) && FramesMatch(s2t0, s2t1)
    requires n <= |s1t0.triangles|
    ensures c in Ccd(s1t0, s1t1, s2t0, s2t1, n, outcome) <==>
            exists t1, t2 :: 0 <= t1 < n && 0 <= t2 < |s2t0.triangles| && CcdReports(s1t0, s1t1, s2t0, s2t1, outcome, t1, t2, c)
  {
    if c in Ccd(s1t0, s1t1, s2t0, s2t1, n, outcome) {
      var t1, t2 := CcdSource(s1t0, s1t1, s2t0, s2t1, n, outcome, c);
    }
    if exists t1, t2 :: 0 <= t1 < n && 0 <= t2 < |s2t0.triangles| && CcdReports(s1t0, s1t1, s2t0, s2t1, outcome, t1, t2, c) {
      var t1, t2 :| 0 <= t1 < n && 0 <= t2 < |s2t0.triangles| && CcdReports(s1t0, s1t1, s2t0, s2t1, outcome, t1, t2, c);
      CcdReported(s1t0, s1t1, s2t0, s2t1, n, outcome, t1, t2, c);
    }
  }

  /** The bounds the continuous test asserts on the contact points, with tolerance epsilon. */
  predicate BaryWithin(b: Bary, epsilon: real) {
    b.alpha >= -epsilon && b.beta >= -epsilon && b.alpha + b.beta <= 1.0 + epsilon + epsilon
  }

  /** Every continuous contact is CONTINUOUS with its time in [0, 1], and the coordinate
      assertions of the source hold for any non-negative tolerance. */
  lemma CcdContactsInRange(s1t0: MeshFrame, s1t1: MeshFrame, s2t0: MeshFrame, s2t1: MeshFrame,
                           p: Primitives, epsilon: real, c: CcdContact)
    requires FramesMatch(s1t0, s1t1) && FramesMatch(s2t0, s2t1)
    requires PrimitivesInRange(p) && epsilon >= 0.0
    requires c in Ccd(s1t0, s1t1, s2t0, s2t1, |s1t0.triangles|, CcdOutcome(p))
    ensures c.kind == Continuous && InUnit(c.time)
    ensures BaryWithin(c.bary1, epsilon) && BaryWithin(c.bary2, epsilon)
  {
    var t1, t2 := CcdSource(s1t0, s1t1, s2t0, s2t1, |s1t0.triangles|, CcdOutcome(p), c);
    PairOutcomeSpec(SweptTriangleOf(s1t0, s1t1, t1), SweptTriangleOf(s2t0, s2t1, t2), p);
  }

  /** The nested loops of the continuous test over every triangle of shape 1 and every
      triangle of shape 2, for a given per-pair decision. */
  method SweepTrianglePairs(s1t0: MeshFrame, s1t1: MeshFrame, s2t0: MeshFrame, s2t1: MeshFrame,
                            decide: Outcome)
    returns (contacts: seq<CcdContact>)
    requires FramesMatch(s1t0, s1t1) && FramesMatch(s2t0, s2t1)
    ensures contacts == Ccd(s1t0, s1t1, s2t0, s2t1, |s1t0.triangles|, decide)
  {
    contacts := [];
    for t1 := 0 to |s1t0.triangles|
      invariant contacts == Ccd(s1t0, s1t1, s2t0, s2t1, t1, decide)
    {
      var row := SweepRow(s1t0, s1t1, s2t0, s2t1, t1, decide);
      contacts := contacts + row;
    }
  }

  /** The inner loop of the continuous test: triangle t1 of shape 1 against every triangle of
      shape 2. */
  method SweepRow(s1t0: MeshFrame, s1t1: MeshFrame, s2t0: MeshFrame, s2t1: MeshFrame, t1: nat,
                  decide: Outcome)
    returns (row: seq<CcdContact>)
    requires FramesMatch(s1t0, s1t1) && FramesMatch(s2t0, s2t1) && t1 < |s1t0.triangles|
    ensures row == CcdRow(s1t0, s1t1, s2t0, s2t1, t1, |s2t0.triangles|, decide)
  {
    var triangle1 := SweptTriangleOf(s1t0, s1t1, t1);
    row := [];
    for t2 := 0 to |s2t0.triangles|
      invariant row == CcdRow(s1t0, s1t1, s2t0, s2t1, t1, t2, decide)
    {
      var triangle2 := SweptTriangleOf(s2t0, s2t1, t2);
      var outcome := decide(triangle1, triangle2);
      if outcome.None? {
        continue;
      }
      var c := outcome.value;
      row := row + [CcdContact(t1, t2, Continuous, c.time, c.bary1, c.bary2)];
    }
  }

  /** The continuous test, with triangle 1 read from shape 1 and each pair decided by
      `PairOutcome`. */
  method CalculateCcdContact(s1t0: MeshFrame, s1t1: MeshFrame, s2t0: MeshFrame, s2t1: MeshFrame,
                             p: Primitives)
    returns (contacts: seq<CcdContact>)
    requires FramesMatch(s1t0, s1t1) && FramesMatch(s2t0, s2t1)
    ensures contacts == Ccd(s1t0, s1t1, s2t0, s2t1, |s1t0.triangles|, CcdOutcome(p))
  {
    contacts := SweepTrianglePairs(s1t0, s1t1, s2t0, s2t1, CcdOutcome(p));
  }
}
