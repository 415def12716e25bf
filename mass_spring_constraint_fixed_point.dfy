// MassSpringConstraintFixedPoint: three bilateral rows pinning a mass-spring point (a node or
// a point inside an element) along X, Y and Z.
module MassSpringFixedPoint {
  import opened Wrappers
  import opened Vectors
  import opened IndexedCoordinates
  import opened ConstraintRows

  const Type: ConstraintType := Fixed3DPoint
  const NumDof: nat := 3

  /** The builder; newH is its reusable sparse H row. */
  class FixedPointConstraint {
    var newH: seq<Entry>

    constructor ()
      ensures newH == []
    {
      newH := [];
    }

    /** doBuild. The localization is given by its node and local position (node wins when
        both are set) and by its calculatePosition() p; elements are the mass-spring's node ids
        per element. An inactive representation leaves everything untouched; a localization
        with neither node nor position is a failure and leaves the MLCP untouched. Otherwise
        b[c .. c + 2] grows by scale * p and rows c .. c + 2 are handed to the MLCP. */
    method DoBuild(dt: real, active: bool, node: Option<nat>, position: Option<IndexedLocalCoordinate>,
                   elements: seq<seq<nat>>, p: Vec3, mlcp: Mlcp, representation: nat, c: nat,
                   sign: ConstraintSideSign) returns (r: Result<()>)
      requires c + NumDof <= |mlcp.b|
      requires active && node.None? && position.Some? ==>
                 position.value.index < |elements| && |elements[position.value.index]| <= |position.value.coordinate|
      modifies this, mlcp
      ensures !active ==> r.Success? && unchanged(this, mlcp)
      ensures active && node.None? && position.None? ==> r.Failure? && unchanged(mlcp)
      ensures active && (node.Some? || position.Some?) ==>
                var s := SelectNodes(node, position, elements).value;
                r.Success?
                && mlcp.b == AddSegment(old(mlcp.b), c, p, SideScale(sign))
                && mlcp.mu == old(mlcp.mu)
                && mlcp.updates
                   == old(mlcp.updates) + AxisUpdates(s.nodes, s.coordinates, 3, dt * SideScale(sign), representation, c, NumDof)
    {
      if !active {
        return Success(());
      }
      var scale := SideScale(sign);
      var selected := SelectNodes(node, position, elements);
      if selected.Failure? {
        return Failure(selected.error);
      }
      var nodeIds, coordinates := selected.value.nodes, selected.value.coordinates;

      mlcp.b := AddSegment(mlcp.b, c, p, scale);

      ghost var updates0 := mlcp.updates;
      for axis := 0 to 3
        invariant mlcp.b == AddSegment(old(mlcp.b), c, p, scale) && mlcp.mu == old(mlcp.mu)
        invariant mlcp.updates == updates0 + AxisUpdates(nodeIds, coordinates, 3, dt * scale, representation, c, axis)
      {
        FillAxisRow(nodeIds, coordinates, axis, dt * scale);
        mlcp.UpdateConstraint(newH, representation, c + axis);
      }
      assert dt * scale == dt * SideScale(sign);
      return Success(());
    }

    /** The node loop of one axis: newH is cleared, then gets factor * coordinate at
        3 * node + axis for each node whose coordinate is nonzero. */
    method FillAxisRow(nodeIds: seq<nat>, coordinates: seq<real>, axis: nat, factor: real)
      requires |nodeIds| <= |coordinates|
      modifies this
      ensures newH == AxisRow(nodeIds, coordinates, |nodeIds|, 3, axis, factor)
    {
      newH := [];
      for index := 0 to |nodeIds|
        invariant newH == AxisRow(nodeIds, coordinates, index, 3, axis, factor)
      {
        if coordinates[index] != 0.0 {
          newH := newH + [Entry(3 * nodeIds[index] + axis, coordinates[index] * factor)];
        }
        assert newH == AxisRow(nodeIds, coordinates, index + 1, 3, axis, factor);
      }
    }
  }
}
