// A place on a mass-spring representation: either one of its nodes or a point given by local
// coordinates on one of its elements, never both. It turns into a position (and a velocity)
// blended between the previous and the current state, and it can move onto the element
// closest to a point.
module MassSpringLocalizations {
  import opened Wrappers
  import opened Vectors
  import opened IndexedCoordinates
  import opened MassSprings
  import opened MassSpringRepresentations

  /** The machine epsilon of a double, 2^-52. */
  const MachineEpsilon: real := 1.0 / 4503599627370496.0

  /** What createLocalization reads of a location: a node index, an element-local coordinate,
      either, both or neither. */
  datatype Location = Location(index: Option<nat>, elementMeshLocalCoordinate: Option<IndexedLocalCoordinate>)

  /** What the point-segment distance and the barycentric coordinates give for one 2-node
      element: the distance from the point to the segment, and the parameter t of the closest
      point, whose barycentric coordinates are (1 - t, t). */
  datatype SegmentProjection = SegmentProjection(distance: real, t: real)

  /** The time blend of a calculated position or velocity: the previous value up to machine
      epsilon, the current one from 1 - epsilon on, a linear interpolation in between. */
  function Blend(previous: Vec3, current: Vec3, time: real): Vec3 {
    if time <= MachineEpsilon then previous
    else if time >= 1.0 - MachineEpsilon then current
    else Interpolate(previous, current, time)
  }

  /** A point that does not move between the two states is reported at every time. */
  lemma BlendOfStillPoint(p: Vec3, time: real)
    ensures Blend(p, p, time) == p
  {
    if MachineEpsilon < time < 1.0 - MachineEpsilon {
      assert Sub(p, p) == Zero;
      assert Scale(Zero, time) == Zero;
    }
  }

  /** The blend picks an end exactly outside (epsilon, 1 - epsilon) and stays on the segment
      between the two values inside it. */
  lemma BlendEnds(previous: Vec3, current: Vec3, time: real)
    ensures time <= MachineEpsilon ==> Blend(previous, current, time) == previous
    ensures MachineEpsilon < time && time >= 1.0 - MachineEpsilon ==> Blend(previous, current, time) == current
    ensures MachineEpsilon < time < 1.0 - MachineEpsilon ==>
              Blend(previous, current, time) == Add(Scale(previous, 1.0 - time), Scale(current, time))
  {
    if MachineEpsilon < time < 1.0 - MachineEpsilon {
      var r := Blend(previous, current, time);
      assert r.x == previous.x + (current.x - previous.x) * time == previous.x * (1.0 - time) + current.x * time;
      assert r.y == previous.y + (current.y - previous.y) * time == previous.y * (1.0 - time) + current.y * time;
      assert r.z == previous.z + (current.z - previous.z) * time == previous.z * (1.0 - time) + current.z * time;
    }
  }

  /** The first element at the smallest distance: no element is closer, and every earlier one
      is strictly farther. */
  function FirstClosest(ps: seq<SegmentProjection>): (k: nat)
    requires |ps| > 0
    ensures k < |ps|
    ensures forall j :: 0 <= j < |ps| ==> ps[k].distance <= ps[j].distance
    ensures forall j :: 0 <= j < k ==> ps[j].distance > ps[k].distance
  {
    if |ps| == 1 then 0
    else
      var k := FirstClosest(ps[..|ps| - 1]);
      if ps[|ps| - 1].distance < ps[k].distance then |ps| - 1 else k
  }

  /** Those two properties single out the element. */
  lemma FirstClosestUnique(ps: seq<SegmentProjection>, k: nat)
    requires k < |ps|
    requires forall j :: 0 <= j < |ps| ==> ps[k].distance <= ps[j].distance
    requires forall j :: 0 <= j < k ==> ps[j].distance > ps[k].distance
    ensures k == FirstClosest(ps)
  {
    var f := FirstClosest(ps);
    assert ps[k].distance <= ps[f].distance && ps[f].distance <= ps[k].distance;
  }

  /** Whether the localization has reached an end of the mesh: on the first element at its
      first node, or on the last element at its second node, within epsilon. */
  predicate ReachedEnd(k: nat, numElements: nat, coordinate: seq<real>, distanceEpsilon: real)
    requires |coordinate| == 2
  {
    (k == 0 && Abs(coordinate[0] - 1.0) < distanceEpsilon)
    || (k == numElements - 1 && Abs(coordinate[1] - 1.0) < distanceEpsilon)
  }

  class MassSpringLocalization {
    var representation: MassSpringRepresentation?
    var node: Option<nat>
    var position: Option<IndexedLocalCoordinate>

    /** A localization never holds both a node and a position. */
    predicate Valid()
      reads this
    {
      !(node.Some? && position.Some?)
    }

    constructor (representation: MassSpringRepresentation?)
      ensures this.representation == representation && node == None && position == None && Valid()
    {
      this.representation := representation;
      node, position := None, None;
    }

    /** setLocalNode: refused once a position is set. */
    method SetLocalNode(nodeId: nat)
      requires position.None?
      modifies this
      ensures node == Some(nodeId) && position == old(position) && representation == old(representation)
      ensures Valid()
    {
      node := Some(nodeId);
    }

    /** setLocalPosition: needs a representation, no node, and a coordinate valid on it. */
    method SetLocalPosition(localPosition: IndexedLocalCoordinate, eps: real)
      requires representation != null && node.None?
      requires representation.IsValidIndexedCoordinate(localPosition, eps)
      modifies this
      ensures position == Some(localPosition) && node == old(node) && representation == old(representation)
      ensures Valid()
    {
      position := Some(localPosition);
    }

    /** The localized position is an element point the representation can compute in the
        given state. */
    predicate PointReadable(values: seq<Vec3>, eps: real)
      reads this, representation, representation.mesh
      requires representation != null && position.Some?
    {
      representation.mesh.Uniform() && representation.IsValidIndexedCoordinate(position.value, eps)
      && forall i :: 0 <= i < |representation.mesh.elements[position.value.index]| ==>
           representation.mesh.elements[position.value.index][i] < |values|
    }

    /** The element point of the localized position, weighted over the given node values. */
    function ElementPoint(values: seq<Vec3>, eps: real): Vec3
      reads this, representation, representation.mesh
      requires representation != null && position.Some? && PointReadable(values, eps)
    {
      var nodeIds := representation.mesh.elements[position.value.index];
      WeightedSum(values, nodeIds, position.value.coordinate, |position.value.coordinate|)
    }

    /** What calculating a position or a velocity needs of the two states. */
    predicate Readable(previous: seq<Vec3>, current: seq<Vec3>, eps: real)
      reads this, representation, representation.mesh
      requires representation != null
    {
      (node.Some? ==> node.value < |previous| && node.value < |current|)
      && (node.None? && position.Some? ==> PointReadable(previous, eps) && PointReadable(current, eps))
    }

    /** doCalculatePosition: a node is read from the two states, a position is computed on
        both; either is then blended at the given time. Neither is a failure. */
    function CalculatePosition(previous: OdeState, current: OdeState, time: real, eps: real): (r: Result<Vec3>)
      reads this, representation, representation.mesh
      requires representation != null && Readable(previous.positions, current.positions, eps)
      ensures r.Success? <==> node.Some? || position.Some?
    {
      if node.Some? then
        Success(Blend(previous.positions[node.value], current.positions[node.value], time))
      else if position.Some? then
        Success(Blend(ElementPoint(previous.positions, eps), ElementPoint(current.positions, eps), time))
      else Failure("neither index nor local position")
    }

    /** doCalculateVelocity as written: a node is read from the velocities, but a position is
        computed on the states' positions. */
    function CalculateVelocityAsWritten(previous: OdeState, current: OdeState, time: real, eps: real): (r: Result<Vec3>)
      reads this, representation, representation.mesh
      requires representation != null && Readable(previous.velocities, current.velocities, eps)
      requires Readable(previous.positions, current.positions, eps)
      ensures r.Success? <==> node.Some? || position.Some?
      ensures node.None? && position.Some? ==> r == CalculatePosition(previous, current, time, eps)
    {
      if node.Some? then
        Success(Blend(previous.velocities[node.value], current.velocities[node.value], time))
      else if position.Some? then
        Success(Blend(ElementPoint(previous.positions, eps), ElementPoint(current.positions, eps), time))
      else Failure("neither index nor local position")
    }

    /** doCalculateVelocity computing a position's velocity from the node velocities. */
    function CalculateVelocity(previous: OdeState, current: OdeState, time: real, eps: real): (r: Result<Vec3>)
      reads this, representation, representation.mesh
      requires representation != null && Readable(previous.velocities, current.velocities, eps)
      ensures r.Success? <==> node.Some? || position.Some?
    {
      if node.Some? then
        Success(Blend(previous.velocities[node.value], current.velocities[node.value], time))
      else if position.Some? then
        Success(Blend(ElementPoint(previous.velocities, eps), ElementPoint(current.velocities, eps), time))
      else Failure("neither index nor local position")
    }

    /** moveClosestTo: on a mesh of 2-node elements, the localization moves onto the first
        element closest to the point, at the closest point's barycentric coordinates, dropping
        any node; it answers whether the mesh had an element, and reports an end reached. */
    method MoveClosestTo(projections: seq<SegmentProjection>, distanceEpsilon: real, scalarEpsilon: real)
        returns (found: bool, hasReachedEnd: bool)
      requires representation != null
      requires |projections| == |representation.mesh.elements|
      requires forall i :: 0 <= i < |representation.mesh.elements| ==> |representation.mesh.elements[i]| == 2
      requires forall i :: 0 <= i < |projections| ==> 0.0 <= projections[i].t <= 1.0
      requires scalarEpsilon > 0.0
      modifies this
      ensures representation == old(representation)
      ensures found <==> |projections| > 0
      ensures !found ==> node == old(node) && position == old(position) && !hasReachedEnd
      ensures found ==>
                var k := FirstClosest(projections);
                var coordinate := [1.0 - projections[k].t, projections[k].t];
                node.None? && position == Some(IndexedLocalCoordinate(k, coordinate))
                && hasReachedEnd == ReachedEnd(k, |projections|, coordinate, distanceEpsilon)
      ensures found ==> Valid()
    {
      hasReachedEnd := false;
      var numElements := |representation.mesh.elements|;
      var closest: Option<nat> := None;
      for i := 0 to numElements
        invariant closest.None? <==> i == 0
        invariant i > 0 ==> closest.value == FirstClosest(projections[..i])
        modifies {}
      {
        assert projections[..i + 1][..i] == projections[..i];
        if closest.None? || projections[i].distance < projections[closest.value].distance {
          closest := Some(i);
        }
      }
      assert projections[..numElements] == projections;
      if closest.Some? {
        var k := closest.value;
        var t := projections[k].t;
        node := None;
        var localPosition := IndexedLocalCoordinate(k, [1.0 - t, t]);
        hasReachedEnd := ReachedEnd(k, numElements, localPosition.coordinate, distanceEpsilon);
        SegmentCoordinateValid(representation, k, t, scalarEpsilon);
        SetLocalPosition(localPosition, scalarEpsilon);
        return true, hasReachedEnd;
      }
      found := false;
    }

    /** doCopy: a new localization on the same representation holding the same node or
        position. */
    method DoCopy(eps: real) returns (copy: MassSpringLocalization)
      requires Valid()
      requires position.Some? ==> representation != null && representation.IsValidIndexedCoordinate(position.value, eps)
      ensures fresh(copy) && copy.representation == representation
      ensures copy.node == node && copy.position == position && copy.Valid()
    {
      copy := new MassSpringLocalization(representation);
      if node.Some? {
        copy.SetLocalNode(node.value);
      }
      if position.Some? {
        copy.SetLocalPosition(position.value, eps);
      }
    }
  }

  /** createLocalization: a localization on the representation at the location's node when
      it has one, else at its element coordinate; a location with neither is a failure. */
  method CreateLocalization(representation: MassSpringRepresentation, location: Location, eps: real)
      returns (r: Result<MassSpringLocalization>)
    requires location.index.None? && location.elementMeshLocalCoordinate.Some? ==>
               representation.IsValidIndexedCoordinate(location.elementMeshLocalCoordinate.value, eps)
    ensures r.Success? <==> location.index.Some? || location.elementMeshLocalCoordinate.Some?
    ensures r.Success? ==> fresh(r.value) && r.value.representation == representation && r.value.Valid()
    ensures location.index.Some? ==> r.value.node == location.index && r.value.position.None?
    ensures location.index.None? && location.elementMeshLocalCoordinate.Some? ==>
              r.value.node.None? && r.value.position == location.elementMeshLocalCoordinate
  {
    var result := new MassSpringLocalization(representation);
    if location.index.Some? {
      result.SetLocalNode(location.index.value);
    } else if location.elementMeshLocalCoordinate.Some? {
      result.SetLocalPosition(location.elementMeshLocalCoordinate.value, eps);
    } else {
      return Failure("a location needs an index or an element-mesh local coordinate");
    }
    r := Success(result);
  }

  /** A position localization at an element corner computes that corner node's value. */
  lemma CornerPoint(loc: MassSpringLocalization, values: seq<Vec3>, eps: real, j: nat)
    requires loc.representation != null && loc.position.Some? && loc.PointReadable(values, eps)
    requires var lc := loc.position.value;
             j < |lc.coordinate| && forall i :: 0 <= i < |lc.coordinate| ==> lc.coordinate[i] == if i == j then 1.0 else 0.0
    ensures j < |loc.representation.mesh.elements[loc.position.value.index]|
    ensures loc.ElementPoint(values, eps) == values[loc.representation.mesh.elements[loc.position.value.index][j]]
  {
    var lc := loc.position.value;
    var nodeIds := loc.representation.mesh.elements[lc.index];
    assert |lc.coordinate| == |nodeIds|;
    WeightedSumAtCorner(values, nodeIds, lc.coordinate, |lc.coordinate|, j);
  }

  /** A node localization and a position localization at that node's corner of an element
      calculate the same position. */
  lemma NodeAndCornerAgree(atNode: MassSpringLocalization, atCorner: MassSpringLocalization,
                           previous: OdeState, current: OdeState, time: real, eps: real, j: nat)
    requires atNode.representation != null && atCorner.representation == atNode.representation
    requires atCorner.node.None? && atCorner.position.Some?
    requires atCorner.Readable(previous.positions, current.positions, eps)
    requires var lc := atCorner.position.value;
             j < |lc.coordinate| && forall i :: 0 <= i < |lc.coordinate| ==> lc.coordinate[i] == if i == j then 1.0 else 0.0
    requires j < |atCorner.representation.mesh.elements[atCorner.position.value.index]|
    requires atNode.node == Some(atCorner.representation.mesh.elements[atCorner.position.value.index][j])
    requires atNode.Readable(previous.positions, current.positions, eps)
    ensures atNode.CalculatePosition(previous, current, time, eps) == atCorner.CalculatePosition(previous, current, time, eps)
  {
    CornerPoint(atCorner, previous.positions, eps, j);
    CornerPoint(atCorner, current.positions, eps, j);
  }

  /** The element [0, 1] at its first corner can be read in any state of two nodes. */
  lemma FirstCornerReadable(loc: MassSpringLocalization, values: seq<Vec3>, eps: real)
    requires loc.representation != null && loc.representation.mesh.elements == [[0, 1]]
    requires loc.position == Some(IndexedLocalCoordinate(0, [1.0, 0.0]))
    requires |values| == 2 && eps > 0.0
    ensures loc.PointReadable(values, eps)
    ensures loc.ElementPoint(values, eps) == values[0]
  {
    var c := [1.0, 0.0];
    assert c[..1] == [1.0] && c[..1][..0] == [];
    assert Sum(c) == 1.0;
    assert loc.representation.mesh.Uniform();
    CornerPoint(loc, values, eps, 0);
  }

  /** At a position, the two velocity calculations blend the element point of the positions
      and of the velocities respectively. */
  lemma PositionVelocities(loc: MassSpringLocalization, previous: OdeState, current: OdeState, time: real, eps: real)
    requires loc.representation != null && loc.node.None? && loc.position.Some?
    requires loc.PointReadable(previous.positions, eps) && loc.PointReadable(current.positions, eps)
    requires loc.PointReadable(previous.velocities, eps) && loc.PointReadable(current.velocities, eps)
    ensures loc.Readable(previous.velocities, current.velocities, eps) && loc.Readable(previous.positions, current.positions, eps)
    ensures loc.CalculateVelocityAsWritten(previous, current, time, eps)
            == Success(Blend(loc.ElementPoint(previous.positions, eps), loc.ElementPoint(current.positions, eps), time))
    ensures loc.CalculateVelocity(previous, current, time, eps)
            == Success(Blend(loc.ElementPoint(previous.velocities, eps), loc.ElementPoint(current.velocities, eps), time))
  {
  }

  /** As written, a position localization on an element whose first node rests at (1, 0, 0)
      reports a velocity of (1, 0, 0) instead of zero. */
  lemma VelocityReadsPositions(loc: MassSpringLocalization, state: OdeState, eps: real)
    requires loc.representation != null && loc.representation.mesh.elements == [[0, 1]]
    requires loc.node.None? && loc.position == Some(IndexedLocalCoordinate(0, [1.0, 0.0]))
    requires |state.positions| == 2 && state.positions[0] == Vec3(1.0, 0.0, 0.0)
    requires |state.velocities| == 2 && state.velocities[0] == Zero
    requires eps > 0.0
    ensures loc.Readable(state.velocities, state.velocities, eps) && loc.Readable(state.positions, state.positions, eps)
    ensures loc.CalculateVelocityAsWritten(state, state, 0.5, eps) == Success(Vec3(1.0, 0.0, 0.0))
    ensures loc.CalculateVelocity(state, state, 0.5, eps) == Success(Zero)
  {
    FirstCornerReadable(loc, state.positions, eps);
    FirstCornerReadable(loc, state.velocities, eps);
    var p := loc.ElementPoint(state.positions, eps);
    var v := loc.ElementPoint(state.velocities, eps);
    BlendOfStillPoint(p, 0.5);
    BlendOfStillPoint(v, 0.5);
    PositionVelocities(loc, state, state, 0.5, eps);
  }
}
