// The triangle mesh's bookkeeping: triangle slots with a free list of deleted slots that
// addTriangle reuses, edges, and the vertex-range check.
module TriangleMeshes {
  import opened Wrappers
  import opened Vectors

  /** The largest size_t plus one; getNumTriangles subtracts in size_t. */
  const SizeModulus: int := 0x1_0000_0000_0000_0000

  type EdgeIds = s: seq<nat> | |s| == 2 witness [0, 0]
  type TriangleIds = s: seq<nat> | |s| == 3 witness [0, 0, 0]

  datatype Edge = Edge(verticesId: EdgeIds)

  /** A triangle slot; a removed triangle stays in its slot with isValid false. */
  datatype Triangle = Triangle(verticesId: TriangleIds, isValid: bool)

  // ---------------------------------------------------------------------------
  // Triangle slots and the free list

  /** The triangle slots and the free list, in push order. */
  datatype Slots = Slots(triangles: seq<Triangle>, free: seq<nat>)

  predicate Distinct(s: seq<nat>) {
    forall i, j :: 0 <= i < j < |s| ==> s[i] != s[j]
  }

  /** The free list holds distinct indices of exactly the removed slots. */
  predicate FreeListOk(s: Slots) {
    (forall i :: 0 <= i < |s.free| ==> s.free[i] < |s.triangles| && !s.triangles[s.free[i]].isValid)
    && Distinct(s.free)
    && (forall t :: 0 <= t < |s.triangles| && !s.triangles[t].isValid ==> t in s.free)
  }

  /** The slot addTriangle would reuse is an index of the slots (the write is otherwise undefined). */
  predicate CanAdd(s: Slots) {
    |s.free| == 0 || s.free[|s.free| - 1] < |s.triangles|
  }

  /** addTriangle: append when nothing is free, otherwise refill the most recently freed slot. */
  function AddSlot(s: Slots, t: Triangle): (r: (Slots, nat))
    requires t.isValid && CanAdd(s)
    ensures r.1 < |r.0.triangles| && r.0.triangles[r.1] == t
    ensures |s.free| == 0 ==> r.1 == |s.triangles| && |r.0.triangles| == |s.triangles| + 1 && r.0.free == []
    ensures |s.free| > 0 ==> r.1 == s.free[|s.free| - 1] && |r.0.triangles| == |s.triangles|
                             && r.0.free == s.free[..|s.free| - 1]
    ensures forall k :: 0 <= k < |s.triangles| && k != r.1 ==> r.0.triangles[k] == s.triangles[k]
  {
    if |s.free| == 0 then
      (Slots(s.triangles + [t], []), |s.triangles|)
    else
      var id := s.free[|s.free| - 1];
      (Slots(s.triangles[id := t], s.free[..|s.free| - 1]), id)
  }

  /** removeTriangle: mark a live slot removed and push it on the free list; a removed slot
      is left alone. */
  function RemoveSlot(s: Slots, id: nat): (r: Slots)
    requires id < |s.triangles|
    ensures |r.triangles| == |s.triangles| && !r.triangles[id].isValid
    ensures r.triangles[id].verticesId == s.triangles[id].verticesId
    ensures forall k :: 0 <= k < |s.triangles| && k != id ==> r.triangles[k] == s.triangles[k]
  {
    if s.triangles[id].isValid then
      Slots(s.triangles[id := s.triangles[id].(isValid := false)], s.free + [id])
    else s
  }

  /** getNumTriangles: slots minus free slots, in size_t arithmetic. */
  function NumTrianglesOf(s: Slots): nat {
    (|s.triangles| - |s.free|) % SizeModulus
  }

  /** The number of live triangles among the slots. */
  function ValidCount(ts: seq<Triangle>): (n: nat)
    ensures n <= |ts|
  {
    if |ts| == 0 then 0
    else ValidCount(ts[..|ts| - 1]) + (if ts[|ts| - 1].isValid then 1 else 0)
  }

  lemma {:induction false} ValidCountUpdate(ts: seq<Triangle>, id: nat, t: Triangle)
    requires id < |ts|
    ensures ValidCount(ts[id := t]) + (if ts[id].isValid then 1 else 0)
            == ValidCount(ts) + (if t.isValid then 1 else 0)
    decreases |ts|
  {
    var n := |ts| - 1;
    assert ts[id := t][..n] == if id < n then ts[..n][id := t] else ts[..n];
    if id < n {
      ValidCountUpdate(ts[..n], id, t);
    }
  }

  lemma ValidCountAppend(ts: seq<Triangle>, t: Triangle)
    ensures ValidCount(ts + [t]) == ValidCount(ts) + (if t.isValid then 1 else 0)
  {
    assert (ts + [t])[..|ts|] == ts;
  }

  /** addTriangle keeps the free list exact and adds one live triangle. */
  lemma AddKeepsFreeList(s: Slots, t: Triangle)
    requires FreeListOk(s) && t.isValid
    ensures CanAdd(s)
    ensures FreeListOk(AddSlot(s, t).0)
    ensures ValidCount(AddSlot(s, t).0.triangles) == ValidCount(s.triangles) + 1
  {
    if |s.free| == 0 {
      AppendKeepsFreeList(s, t);
    } else {
      ReuseKeepsFreeList(s, t);
    }
  }

  /** With nothing free, the appended slot is live and the free list stays empty. */
  lemma AppendKeepsFreeList(s: Slots, t: Triangle)
    requires FreeListOk(s) && t.isValid && |s.free| == 0
    ensures FreeListOk(Slots(s.triangles + [t], []))
    ensures ValidCount(s.triangles + [t]) == ValidCount(s.triangles) + 1
  {
    var ts := s.triangles + [t];
    ValidCountAppend(s.triangles, t);
    forall k | 0 <= k < |ts|
      ensures ts[k].isValid
    {
      if k < |s.triangles| {
        assert k !in s.free;
      }
    }
  }

  /** The most recently freed slot is refilled and popped; the rest of the list stays exact. */
  lemma ReuseKeepsFreeList(s: Slots, t: Triangle)
    requires FreeListOk(s) && t.isValid && |s.free| > 0
    ensures var id := s.free[|s.free| - 1];
            FreeListOk(Slots(s.triangles[id := t], s.free[..|s.free| - 1]))
            && ValidCount(s.triangles[id := t]) == ValidCount(s.triangles) + 1
  {
    var id := s.free[|s.free| - 1];
    var ts := s.triangles[id := t];
    var free := s.free[..|s.free| - 1];
    ValidCountUpdate(s.triangles, id, t);
    forall k | 0 <= k < |ts| && !ts[k].isValid
      ensures k in free
    {
      assert k != id && !s.triangles[k].isValid;
      var i :| 0 <= i < |s.free| && s.free[i] == k;
      assert i < |s.free| - 1;
      assert free[i] == k;
    }
    forall i | 0 <= i < |free|
      ensures free[i] < |ts| && !ts[free[i]].isValid
    {
      assert free[i] == s.free[i] && s.free[i] != id;
    }
  }

  /** removeTriangle keeps the free list exact and removes at most one live triangle. */
  lemma RemoveKeepsFreeList(s: Slots, id: nat)
    requires FreeListOk(s) && id < |s.triangles|
    ensures FreeListOk(RemoveSlot(s, id))
    ensures ValidCount(RemoveSlot(s, id).triangles)
            == ValidCount(s.triangles) - (if s.triangles[id].isValid then 1 else 0)
  {
    var r := RemoveSlot(s, id);
    if s.triangles[id].isValid {
      ValidCountUpdate(s.triangles, id, s.triangles[id].(isValid := false));
      assert id !in s.free;
      forall k | 0 <= k < |r.triangles| && !r.triangles[k].isValid
        ensures k in r.free
      {
        if k != id {
          var i :| 0 <= i < |s.free| && s.free[i] == k;
          assert r.free[i] == k;
        } else {
          assert r.free[|s.free|] == id;
        }
      }
    }
  }

  /** Removing the same slot twice is the same as removing it once. */
  lemma RemoveIdempotent(s: Slots, id: nat)
    requires id < |s.triangles|
    ensures RemoveSlot(RemoveSlot(s, id), id) == RemoveSlot(s, id)
  {
  }

  /** Adding into a slot freed by the last removal puts the triangle back where it was. */
  lemma RemoveThenAddReusesSlot(s: Slots, id: nat, t: Triangle)
    requires id < |s.triangles| && s.triangles[id].isValid && t.isValid
    ensures CanAdd(RemoveSlot(s, id)) && AddSlot(RemoveSlot(s, id), t).1 == id
    ensures AddSlot(RemoveSlot(s, id), t).0 == Slots(s.triangles[id := t], s.free)
  {
    var r := RemoveSlot(s, id);
    assert r.free[..|r.free| - 1] == s.free;
  }

  function SetOf(s: seq<nat>): set<nat> {
    set i | i in s
  }

  lemma {:induction false} DistinctCardinality(s: seq<nat>)
    requires Distinct(s)
    ensures |SetOf(s)| == |s|
  {
    if |s| > 0 {
      var front := s[..|s| - 1];
      DistinctCardinality(front);
      assert SetOf(s) == SetOf(front) + {s[|s| - 1]};
      assert forall i :: 0 <= i < |front| ==> front[i] == s[i] != s[|s| - 1];
      assert s[|s| - 1] !in SetOf(front);
    }
  }

  function RemovedSet(ts: seq<Triangle>): set<nat> {
    set t: nat | t < |ts| && !ts[t].isValid
  }

  lemma {:induction false} RemovedSetCardinality(ts: seq<Triangle>)
    ensures |RemovedSet(ts)| == |ts| - ValidCount(ts)
  {
    if |ts| > 0 {
      var n := |ts| - 1;
      RemovedSetCardinality(ts[..n]);
      if ts[n].isValid {
        assert RemovedSet(ts) == RemovedSet(ts[..n]);
      } else {
        assert RemovedSet(ts) == RemovedSet(ts[..n]) + {n};
      }
    }
  }

  /** getNumTriangles counts the live triangles whenever the free list is exact. */
  lemma NumTrianglesCountsValid(s: Slots)
    requires FreeListOk(s) && |s.triangles| < SizeModulus
    ensures NumTrianglesOf(s) == ValidCount(s.triangles)
  {
    DistinctCardinality(s.free);
    assert SetOf(s.free) == RemovedSet(s.triangles);
    RemovedSetCardinality(s.triangles);
  }

  // ---------------------------------------------------------------------------
  // Copying a mesh of another vertex type

  /** A slot as the converting constructor builds it: the source's vertex ids, live. */
  function Fresh(t: Triangle): Triangle {
    Triangle(t.verticesId, true)
  }

  /** The converting constructor's triangle loop as written: addTriangle each source triangle
      as live, then push the running index when the source slot was removed. None where
      addTriangle would write past the end of the slots. */
  function ConvertAsWrittenUpTo(src: seq<Triangle>, n: nat): Option<Slots>
    requires n <= |src|
  {
    if n == 0 then Some(Slots([], []))
    else match ConvertAsWrittenUpTo(src, n - 1)
      case None => None
      case Some(s) =>
        if !CanAdd(s) then None
        else
          var added := AddSlot(s, Fresh(src[n - 1])).0;
          Some(if src[n - 1].isValid then added else added.(free := added.free + [n - 1]))
  }

  function ConvertAsWritten(src: seq<Triangle>): Option<Slots> {
    ConvertAsWrittenUpTo(src, |src|)
  }

  /** A removed source triangle is copied as a live slot that is also on the free list. */
  lemma ConvertAsWrittenFreesLiveSlot()
    ensures var b := Triangle([0, 1, 2], false);
            ConvertAsWritten([b]) == Some(Slots([Fresh(b)], [0]))
            && !FreeListOk(ConvertAsWritten([b]).value)
  {
    var b := Triangle([0, 1, 2], false);
    var empty := Slots([], []);
    assert ConvertAsWrittenUpTo([b], 0) == Some(empty);
    assert CanAdd(empty) && AddSlot(empty, Fresh(b)).0 == Slots([Fresh(b)], []);
    assert [] + [0] == [0];
    assert ConvertAsWrittenUpTo([b], 1) == Some(Slots([Fresh(b)], [0]));
    var r := Slots([Fresh(b)], [0]);
    assert r.free[0] == 0 && r.triangles[0].isValid;
    assert !FreeListOk(r);
  }

  /** [a, removed b, c]: c is written over b's slot, so three source slots become two and c
      changes index. */
  lemma ConvertAsWrittenOverwritesSlot()
    ensures var a := Triangle([0, 1, 2], true);
            var b := Triangle([1, 2, 3], false);
            var c := Triangle([2, 3, 4], true);
            ConvertAsWritten([a, b, c]) == Some(Slots([a, c], []))
  {
    var a := Triangle([0, 1, 2], true);
    var b := Triangle([1, 2, 3], false);
    var c := Triangle([2, 3, 4], true);
    var src := [a, b, c];
    var empty := Slots([], []);
    assert ConvertAsWrittenUpTo(src, 0) == Some(empty);
    assert CanAdd(empty) && AddSlot(empty, Fresh(a)).0 == Slots([a], []);
    assert ConvertAsWrittenUpTo(src, 1) == Some(Slots([a], []));
    assert CanAdd(Slots([a], [])) && AddSlot(Slots([a], []), Fresh(b)).0 == Slots([a, Fresh(b)], []);
    assert [a] + [Fresh(b)] == [a, Fresh(b)] && [] + [1] == [1];
    assert ConvertAsWrittenUpTo(src, 2) == Some(Slots([a, Fresh(b)], [1]));
    assert [a, Fresh(b)][1 := c] == [a, c];
    assert CanAdd(Slots([a, Fresh(b)], [1])) && AddSlot(Slots([a, Fresh(b)], [1]), Fresh(c)).0 == Slots([a, c], []);
  }

  /** [removed a, removed b, c]: the second push names slot 1 of a one-slot list, and the
      third addTriangle writes there, past the end of the slots. */
  lemma ConvertAsWrittenWritesPastEnd()
    ensures var a := Triangle([0, 1, 2], false);
            var b := Triangle([1, 2, 3], false);
            var c := Triangle([2, 3, 4], true);
            ConvertAsWritten([a, b, c]) == None
  {
    var a := Triangle([0, 1, 2], false);
    var b := Triangle([1, 2, 3], false);
    var c := Triangle([2, 3, 4], true);
    var src := [a, b, c];
    var empty := Slots([], []);
    assert ConvertAsWrittenUpTo(src, 0) == Some(empty);
    assert CanAdd(empty) && AddSlot(empty, Fresh(a)).0 == Slots([Fresh(a)], []);
    assert [] + [Fresh(a)] == [Fresh(a)] && [] + [0] == [0];
    assert ConvertAsWrittenUpTo(src, 1) == Some(Slots([Fresh(a)], [0]));
    assert [Fresh(a)][0 := Fresh(b)] == [Fresh(b)] && [] + [1] == [1];
    assert CanAdd(Slots([Fresh(a)], [0])) && AddSlot(Slots([Fresh(a)], [0]), Fresh(b)).0 == Slots([Fresh(b)], []);
    assert ConvertAsWrittenUpTo(src, 2) == Some(Slots([Fresh(b)], [1]));
    assert !CanAdd(Slots([Fresh(b)], [1]));
  }

  /** The indices below n of removed source slots, in increasing order. */
  function RemovedIndicesUpTo(src: seq<Triangle>, n: nat): (r: seq<nat>)
    requires n <= |src|
    ensures forall i :: 0 <= i < |r| ==> r[i] < n && !src[r[i]].isValid
    ensures forall i, j :: 0 <= i < j < |r| ==> r[i] < r[j]
  {
    if n == 0 then []
    else RemovedIndicesUpTo(src, n - 1) + (if src[n - 1].isValid then [] else [n - 1])
  }

  lemma {:induction false} RemovedIndicesComplete(src: seq<Triangle>, n: nat, t: nat)
    requires n <= |src| && t < n && !src[t].isValid
    ensures t in RemovedIndicesUpTo(src, n)
  {
    if t < n - 1 {
      RemovedIndicesComplete(src, n - 1, t);
    }
  }

  /** The intended copy: every source slot keeps its index and its removed flag, and the free
      list names the removed ones. */
  function ConvertCorrected(src: seq<Triangle>): Slots {
    Slots(src, RemovedIndicesUpTo(src, |src|))
  }

  /** The corrected copy has exactly the source's slots and an exact free list. */
  lemma ConvertCorrectedKeepsSlots(src: seq<Triangle>)
    ensures ConvertCorrected(src).triangles == src
    ensures FreeListOk(ConvertCorrected(src))
    ensures NumTrianglesOf(ConvertCorrected(src)) == ValidCount(src) || |src| >= SizeModulus
  {
    var r := ConvertCorrected(src);
    forall t | 0 <= t < |src| && !src[t].isValid
      ensures t in r.free
    {
      RemovedIndicesComplete(src, |src|, t);
    }
    if |src| < SizeModulus {
      NumTrianglesCountsValid(r);
    }
  }

  // ---------------------------------------------------------------------------
  // Vertex-range validity

  /** Every edge and every triangle slot, removed or not, names vertices below numVertices. */
  predicate IdsInRange(numVertices: nat, edges: seq<Edge>, triangles: seq<Triangle>) {
    (forall e, k :: 0 <= e < |edges| && 0 <= k < 2 ==> edges[e].verticesId[k] < numVertices)
    && (forall t, k :: 0 <= t < |triangles| && 0 <= k < 3 ==> triangles[t].verticesId[k] < numVertices)
  }

  /** Adding or removing triangles keeps every id in range when the added triangle's are. */
  lemma AddRemoveKeepIdsInRange(numVertices: nat, edges: seq<Edge>, s: Slots, t: Triangle, id: nat)
    requires IdsInRange(numVertices, edges, s.triangles)
    requires t.isValid && CanAdd(s) && forall k :: 0 <= k < 3 ==> t.verticesId[k] < numVertices
    requires id < |s.triangles|
    ensures IdsInRange(numVertices, edges, AddSlot(s, t).0.triangles)
    ensures IdsInRange(numVertices, edges, RemoveSlot(s, id).triangles)
  {
  }

  // ---------------------------------------------------------------------------
  // The mesh object

  class TriangleMesh {
    var vertices: seq<Vec3>
    var edges: seq<Edge>
    var triangles: seq<Triangle>
    var freeTriangles: seq<nat>

    function State(): Slots
      reads this
    {
      Slots(triangles, freeTriangles)
    }

    ghost predicate Valid()
      reads this
    {
      FreeListOk(State())
    }

    constructor ()
      ensures vertices == [] && edges == [] && triangles == [] && freeTriangles == []
      ensures Valid()
    {
      vertices, edges, triangles, freeTriangles := [], [], [], [];
    }

    /** The copy of a mesh of the same type: edges, slots and free list copied as they are. */
    constructor Copy(other: TriangleMesh)
      ensures vertices == other.vertices && edges == other.edges
      ensures triangles == other.triangles && freeTriangles == other.freeTriangles
    {
      vertices, edges := other.vertices, other.edges;
      triangles, freeTriangles := other.triangles, other.freeTriangles;
    }

    /** The copy of a mesh of another type, with the slots copied as the corrected definition
        says: each slot keeps its index and flag, and the removed ones go on the free list. */
    constructor Convert(positions: seq<Vec3>, sourceEdges: seq<Edge>, sourceTriangles: seq<Triangle>)
      ensures vertices == positions && edges == sourceEdges
      ensures State() == ConvertCorrected(sourceTriangles) && Valid()
    {
      vertices, edges, triangles, freeTriangles := [], [], [], [];
      new;
      for i := 0 to |positions|
        invariant vertices == positions[..i] && edges == [] && triangles == [] && freeTriangles == []
      {
        var _ := AddVertex(positions[i]);
      }
      assert vertices == positions;
      for i := 0 to |sourceEdges|
        invariant vertices == positions && edges == sourceEdges[..i] && triangles == [] && freeTriangles == []
      {
        var _ := AddEdge(sourceEdges[i]);
      }
      assert edges == sourceEdges;
      for i := 0 to |sourceTriangles|
        invariant vertices == positions && edges == sourceEdges
        invariant triangles == sourceTriangles[..i]
        invariant freeTriangles == RemovedIndicesUpTo(sourceTriangles, i)
      {
        triangles := triangles + [sourceTriangles[i]];
        if !sourceTriangles[i].isValid {
          freeTriangles := freeTriangles + [i];
        }
      }
      assert triangles == sourceTriangles;
      ConvertCorrectedKeepsSlots(sourceTriangles);
    }

    /** Vertices::addVertex (not part of this model) appends and returns the new index. */
    method AddVertex(position: Vec3) returns (id: nat)
      modifies this
      ensures vertices == old(vertices) + [position] && id == |old(vertices)|
      ensures edges == old(edges) && triangles == old(triangles) && freeTriangles == old(freeTriangles)
    {
      vertices := vertices + [position];
      id := |vertices| - 1;
    }

    method AddEdge(edge: Edge) returns (id: nat)
      modifies this
      ensures edges == old(edges) + [edge] && id == |old(edges)| && edges[id] == edge
      ensures vertices == old(vertices) && triangles == old(triangles) && freeTriangles == old(freeTriangles)
    {
      edges := edges + [edge];
      id := |edges| - 1;
    }

    method AddTriangle(triangle: Triangle) returns (id: nat)
      requires triangle.isValid && CanAdd(State())
      modifies this
      ensures (State(), id) == AddSlot(old(State()), triangle)
      ensures old(Valid()) ==> Valid()
      ensures vertices == old(vertices) && edges == old(edges)
    {
      if |freeTriangles| == 0 {
        triangles := triangles + [triangle];
        id := |triangles| - 1;
      } else {
        id := freeTriangles[|freeTriangles| - 1];
        freeTriangles := freeTriangles[..|freeTriangles| - 1];
        triangles := triangles[id := triangle];
      }
      if old(Valid()) {
        AddKeepsFreeList(old(State()), triangle);
      }
    }

    function NumEdges(): nat
      reads this
    {
      |edges|
    }

    function NumTriangles(): nat
      reads this
    {
      NumTrianglesOf(State())
    }

    /** getTriangle: only a live slot may be read. */
    function GetTriangle(id: nat): (t: Triangle)
      requires id < |triangles| && triangles[id].isValid
      reads this
      ensures t.isValid && t == triangles[id]
    {
      triangles[id]
    }

    method RemoveTriangle(id: nat)
      requires id < |triangles|
      modifies this
      ensures State() == RemoveSlot(old(State()), id)
      ensures old(Valid()) ==> Valid()
      ensures vertices == old(vertices) && edges == old(edges)
    {
      if triangles[id].isValid {
        triangles := triangles[id := triangles[id].(isValid := false)];
        freeTriangles := freeTriangles + [id];
      }
      if old(Valid()) {
        RemoveKeepsFreeList(old(State()), id);
      }
    }

    /** isValid: scan every edge and every slot for a vertex id out of range. */
    method IsValid() returns (ok: bool)
      ensures ok == IdsInRange(|vertices|, edges, triangles)
    {
      var numVertices := |vertices|;
      for e := 0 to |edges|
        invariant forall e', k :: 0 <= e' < e && 0 <= k < 2 ==> edges[e'].verticesId[k] < numVertices
      {
        for k := 0 to 2
          invariant forall k' :: 0 <= k' < k ==> edges[e].verticesId[k'] < numVertices
        {
          if edges[e].verticesId[k] >= numVertices {
            return false;
          }
        }
      }
      for t := 0 to |triangles|
        invariant forall t', k :: 0 <= t' < t && 0 <= k < 3 ==> triangles[t'].verticesId[k] < numVertices
      {
        for k := 0 to 3
          invariant forall k' :: 0 <= k' < k ==> triangles[t].verticesId[k'] < numVertices
        {
          if triangles[t].verticesId[k] >= numVertices {
            return false;
          }
        }
      }
      return true;
    }

    method ClearEdges()
      modifies this
      ensures edges == [] && vertices == old(vertices)
      ensures triangles == old(triangles) && freeTriangles == old(freeTriangles)
    {
      edges := [];
    }

    method ClearTriangles()
      modifies this
      ensures triangles == [] && freeTriangles == [] && Valid()
      ensures vertices == old(vertices) && edges == old(edges)
    {
      triangles, freeTriangles := [], [];
    }

    /** doClear: triangles, then edges, then vertices. */
    method Clear()
      modifies this
      ensures vertices == [] && edges == [] && triangles == [] && freeTriangles == [] && Valid()
    {
      ClearTriangles();
      ClearEdges();
      vertices := [];
    }
  }
}
