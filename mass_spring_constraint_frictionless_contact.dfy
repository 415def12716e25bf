// MassSpringConstraintFrictionlessContact: one unilateral row keeping a mass-spring point on
// the positive side of a contact plane.
module MassSpringFrictionlessContact {
  import opened Wrappers
  import opened Vectors
  import opened IndexedCoordinates
  import opened ConstraintRows

  const Type: ConstraintType := Frictionless3DContact
  const NumDof: nat := 1

  /** The builder; newH is its reusable sparse H row. */
  class FrictionlessContact {
    var newH: seq<Entry>
    const mlcpNumericalPrecision: real

    constructor ()
      ensures newH == [] && mlcpNumericalPrecision == 1.0e-04
    {
      newH := [];
      mlcpNumericalPrecision := 1.0e-04;
    }

    /** doBuild for the contact normal n. The localization is given by its node and local
        position (node wins when both are set) and by its calculatePosition() p; elements are
        the mass-spring's node ids per element; segmentRadius is the radius of the collision
        shape when that is a segment mesh. An inactive representation leaves everything
        untouched; a localization with neither node nor position is a failure and leaves the
        MLCP untouched. Otherwise b[c] grows by scale * (n . p) - radius - precision and the row
        c is handed to the MLCP. */
    method DoBuild(dt: real, n: Vec3, active: bool, node: Option<nat>, position: Option<IndexedLocalCoordinate>,
                   elements: seq<seq<nat>>, segmentRadius: Option<real>, p: Vec3, mlcp: Mlcp,
                   representation: nat, c: nat, sign: ConstraintSideSign) returns (r: Result<()>)
      requires c + NumDof <= |mlcp.b|
      requires active && node.None? && position.Some? ==>
                 position.value.index < |elements| && |elements[position.value.index]| <= |position.value.coordinate|
      modifies this, mlcp
      ensures !active ==> r.Success? && unchanged(this, mlcp)
      ensures active && node.None? && position.None? ==> r.Failure? && unchanged(mlcp)
      ensures active && (node.Some? || position.Some?) ==>
                var s := SelectNodes(node, position, elements).value;
                var radius := if segmentRadius.Some? then segmentRadius.value else 0.0;
                r.Success?
                && mlcp.b == old(mlcp.b)[c := old(mlcp.b)[c] + Dot(n, p) * SideScale(sign) - radius - mlcpNumericalPrecision]
                && mlcp.mu == old(mlcp.mu)
                && mlcp.updates
                   == old(mlcp.updates)
                      + [RowUpdate(DirectionRow(s.nodes, s.coordinates, |s.nodes|, 3, n, SideScale(sign), dt, true), representation, c)]
    {
      if !active {
        return Success(());
      }
      var scale := SideScale(sign);
      var selected := SelectNodes(node, position, elements);
      if selected.Failure? {
        return Failure(selected.error);
      }
      var nodeIds, coordinates := selected.value.nodes, selected.value.coordinates;
      var radius := 0.0;
      if segmentRadius.Some? {
        radius := segmentRadius.value;
      }

      var violation := Dot(n, p);
      assert violation * scale == Dot(n, p) * SideScale(sign);
      mlcp.b := mlcp.b[c := mlcp.b[c] + violation * scale - radius - mlcpNumericalPrecision];

      FillNormalRow(nodeIds, coordinates, n, scale, dt);
      mlcp.UpdateConstraint(newH, representation, c);
      return Success(());
    }

    /** The node loop: newH is cleared, then gets coordinate * n[axis] * scale * dt at
        3 * node + axis, axis = 0, 1, 2, for each node whose coordinate is nonzero. */
    method FillNormalRow(nodeIds: seq<nat>, coordinates: seq<real>, n: Vec3, scale: real, dt: real)
      requires |nodeIds| <= |coordinates|
      modifies this
      ensures newH == DirectionRow(nodeIds, coordinates, |nodeIds|, 3, n, scale, dt, true)
    {
      newH := [];
      for index := 0 to |nodeIds|
        invariant newH == DirectionRow(nodeIds, coordinates, index, 3, n, scale, dt, true)
      {
        if coordinates[index] != 0.0 {
          // the three inserts at 3 * node + 0, 1, 2
          newH := newH + NodeEntries(nodeIds[index], coordinates[index], 3, n, scale, dt);
        }
      }
    }
  }
}
