// FemConstraintFrictionalSliding: five rows for an FEM point sliding with friction along a
// guide: two unilateral-free rows along the guide's normals and three bilateral rows holding
// the point, with the friction coefficient on the first row.
module FemFrictionalSliding {
  import opened Vectors
  import opened IndexedCoordinates
  import opened ConstraintRows

  const Type: ConstraintType := FrictionalSliding
  const NumDof: nat := 5

  /** SlidingConstraintData: the two normals and the tangent of the guide, the friction
      coefficient, and the previous first localization (its local position and its
      calculatePosition()). */
  datatype SlidingData = SlidingData(normal0: Vec3, normal1: Vec3, tangent: Vec3, friction: real,
                                     previous: IndexedLocalCoordinate, previousPosition: Vec3)

  /** directions[i] for the two rows that use them. */
  function Normal(data: SlidingData, i: nat): Vec3
    requires i < 2
  {
    if i == 0 then data.normal0 else data.normal1
  }

  /** The violation of normal row i, signed by the side: scale * (normal_i . p). */
  function Violation(data: SlidingData, i: nat, p: Vec3, scale: real): real
    requires i < 2
  {
    Dot(Normal(data, i), p) * scale
  }

  /** b after the two normal rows: b[c + i] grows by the violation of row i. */
  function NormalViolations(b: seq<real>, c: nat, data: SlidingData, p: Vec3, scale: real): seq<real>
    requires c + 2 <= |b|
  {
    b[c := b[c] + Violation(data, 0, p, scale)][c + 1 := b[c + 1] + Violation(data, 1, p, scale)]
  }

  /** What doBuild does to b: rows c and c + 1 grow by the normal violations, rows
      c + 2 .. c + 4 by scale times the bilateral point q; nothing else moves. */
  lemma SlidingViolations(b: seq<real>, c: nat, data: SlidingData, p: Vec3, q: Vec3, scale: real)
    requires c + NumDof <= |b|
    ensures var r := AddSegment(NormalViolations(b, c, data, p, scale), c + 2, q, scale);
            |r| == |b|
            && r[c] == b[c] + Dot(data.normal0, p) * scale
            && r[c + 1] == b[c + 1] + Dot(data.normal1, p) * scale
            && (forall i :: 0 <= i < 3 ==> r[c + 2 + i] == b[c + 2 + i] + Coord(q, i) * scale)
            && (forall k :: 0 <= k < |b| && (k < c || c + NumDof <= k) ==> r[k] == b[k])
  {
    var n := NormalViolations(b, c, data, p, scale);
    assert n[c] == b[c] + Violation(data, 0, p, scale);
    assert n[c + 1] == b[c + 1] + Violation(data, 1, p, scale);
  }

  /** The updateConstraint calls of the first n normal rows: row c + i holds the direction
      row of normal i over every element node. */
  function NormalUpdates(nodes: seq<nat>, coordinates: seq<real>, dofPerNode: nat, data: SlidingData,
                         scale: real, dt: real, representation: nat, c: nat, n: nat): seq<RowUpdate>
    requires |nodes| <= |coordinates| && n <= 2
  {
    if n == 0 then []
    else NormalUpdates(nodes, coordinates, dofPerNode, data, scale, dt, representation, c, n - 1)
         + [RowUpdate(DirectionRow(nodes, coordinates, |nodes|, dofPerNode, Normal(data, n - 1), scale, dt, false),
                      representation, c + n - 1)]
  }

  /** The builder; newH is its reusable sparse H row. */
  class FrictionalSlidingConstraint {
    var newH: seq<Entry>

    constructor ()
      ensures newH == []
    {
      newH := [];
    }

    /** doBuild for an FEM with dofPerNode dofs per node whose elements are given by their
        node ids, at the local position coord whose calculatePosition() is p. An inactive FEM
        leaves everything untouched. Otherwise rows c and c + 1 are built along the two
        normals (the tangent is not used), rows c + 2 .. c + 4 hold the bilateral point
        (the previous first localization for 2-node elements), and mu[c] becomes the friction
        coefficient. */
    method DoBuild(dt: real, data: SlidingData, active: bool, dofPerNode: nat, elements: seq<seq<nat>>,
                   coord: IndexedLocalCoordinate, p: Vec3, mlcp: Mlcp, representation: nat, c: nat,
                   sign: ConstraintSideSign)
      requires c + NumDof <= |mlcp.b| && c < |mlcp.mu|
      requires active ==> coord.index < |elements| && |elements[coord.index]| <= |coord.coordinate|
      requires active && coord.index < |elements| && |elements[coord.index]| == 2 ==>
                 data.previous.index < |elements| && |elements[data.previous.index]| <= |data.previous.coordinate|
      modifies this, mlcp
      ensures !active ==> unchanged(this, mlcp)
      ensures active ==>
                var scale := SideScale(sign);
                var nodes := elements[coord.index];
                var q := if |nodes| == 2 then data.previous else coord;
                var pq := if |nodes| == 2 then data.previousPosition else p;
                mlcp.b == AddSegment(NormalViolations(old(mlcp.b), c, data, p, scale), c + 2, pq, scale)
                && mlcp.mu == old(mlcp.mu)[c := data.friction]
                && mlcp.updates
                   == old(mlcp.updates)
                      + NormalUpdates(nodes, coord.coordinate, dofPerNode, data, scale, dt, representation, c, 2)
                      + AxisUpdates(elements[q.index], q.coordinate, dofPerNode, dt * scale, representation, c + 2, 3)
    {
      if !active {
        return;
      }
      var scale := SideScale(sign);
      BuildNormalRows(dt, data, dofPerNode, elements[coord.index], coord.coordinate, p, mlcp, representation, c, scale);
      var q, pq := coord, p;
      if |elements[coord.index]| == 2 {
        q, pq := data.previous, data.previousPosition;
      }
      BuildBilateralRows(dt, dofPerNode, elements[q.index], q.coordinate, pq, mlcp, representation, c, scale);
      mlcp.mu := mlcp.mu[c := data.friction];
    }

    /** The loop over the two normals: b[c + i] grows by scale * (normal_i . p) and row c + i
        gets an entry for every element node, even those with a zero coordinate. */
    method BuildNormalRows(dt: real, data: SlidingData, dofPerNode: nat, nodes: seq<nat>, coordinates: seq<real>,
                           p: Vec3, mlcp: Mlcp, representation: nat, c: nat, scale: real)
      requires c + 2 <= |mlcp.b| && |nodes| <= |coordinates|
      modifies this, mlcp
      ensures mlcp.b == NormalViolations(old(mlcp.b), c, data, p, scale) && mlcp.mu == old(mlcp.mu)
      ensures mlcp.updates
              == old(mlcp.updates) + NormalUpdates(nodes, coordinates, dofPerNode, data, scale, dt, representation, c, 2)
    {
      for i := 0 to 2
        invariant |mlcp.b| == |old(mlcp.b)| && mlcp.mu == old(mlcp.mu)
        invariant mlcp.b[c] == if i < 1 then old(mlcp.b)[c] else old(mlcp.b)[c] + Violation(data, 0, p, scale)
        invariant mlcp.b[c + 1] == if i < 2 then old(mlcp.b)[c + 1] else old(mlcp.b)[c + 1] + Violation(data, 1, p, scale)
        invariant forall k :: 0 <= k < |mlcp.b| && k != c && k != c + 1 ==> mlcp.b[k] == old(mlcp.b)[k]
        invariant mlcp.updates
                  == old(mlcp.updates) + NormalUpdates(nodes, coordinates, dofPerNode, data, scale, dt, representation, c, i)
      {
        var direction := Normal(data, i);
        var violation := Dot(direction, p);
        mlcp.b := mlcp.b[c + i := mlcp.b[c + i] + violation * scale];
        assert violation * scale == Violation(data, i, p, scale);

        FillDirectionRow(nodes, coordinates, dofPerNode, direction, scale, dt);
        mlcp.UpdateConstraint(newH, representation, c + i);
      }
      ghost var expected := NormalViolations(old(mlcp.b), c, data, p, scale);
      assert forall k :: 0 <= k < |mlcp.b| ==> mlcp.b[k] == expected[k];
    }

    /** The bilateral rows: b[c + 2 .. c + 4] grows by scale * p and row c + 2 + axis gets
        coordinate * dt * scale at dofPerNode * node + axis for each node with a nonzero
        coordinate. */
    method BuildBilateralRows(dt: real, dofPerNode: nat, nodes: seq<nat>, coordinates: seq<real>,
                              p: Vec3, mlcp: Mlcp, representation: nat, c: nat, scale: real)
      requires c + NumDof <= |mlcp.b| && |nodes| <= |coordinates|
      modifies this, mlcp
      ensures mlcp.b == AddSegment(old(mlcp.b), c + 2, p, scale) && mlcp.mu == old(mlcp.mu)
      ensures mlcp.updates
              == old(mlcp.updates) + AxisUpdates(nodes, coordinates, dofPerNode, dt * scale, representation, c + 2, 3)
    {
      mlcp.b := AddSegment(mlcp.b, c + 2, p, scale);
      for axis := 0 to 3
        invariant mlcp.b == AddSegment(old(mlcp.b), c + 2, p, scale) && mlcp.mu == old(mlcp.mu)
        invariant mlcp.updates
                  == old(mlcp.updates) + AxisUpdates(nodes, coordinates, dofPerNode, dt * scale, representation, c + 2, axis)
      {
        FillAxisRow(nodes, coordinates, dofPerNode, axis, dt * scale);
        mlcp.UpdateConstraint(newH, representation, c + axis + 2);
      }
    }

    /** The node loop of one bilateral row: newH is cleared, then gets coordinate * factor at
        dofPerNode * node + axis for every node whose coordinate is nonzero. */
    method FillAxisRow(nodes: seq<nat>, coordinates: seq<real>, dofPerNode: nat, axis: nat, factor: real)
      requires |nodes| <= |coordinates|
      modifies this
      ensures newH == AxisRow(nodes, coordinates, |nodes|, dofPerNode, axis, factor)
    {
      newH := [];
      for index := 0 to |nodes|
        invariant newH == AxisRow(nodes, coordinates, index, dofPerNode, axis, factor)
      {
        var added := if coordinates[index] != 0.0 then [Entry(dofPerNode * nodes[index] + axis, coordinates[index] * factor)] else [];
        assert AxisRow(nodes, coordinates, index + 1, dofPerNode, axis, factor)
               == AxisRow(nodes, coordinates, index, dofPerNode, axis, factor) + added;
        newH := newH + added;
      }
    }

    /** The node loop of one normal row: newH is cleared, then gets
        coordinate * d[axis] * scale * dt at dofPerNode * node + axis for every node. */
    method FillDirectionRow(nodes: seq<nat>, coordinates: seq<real>, dofPerNode: nat, d: Vec3, scale: real, dt: real)
      requires |nodes| <= |coordinates|
      modifies this
      ensures newH == DirectionRow(nodes, coordinates, |nodes|, dofPerNode, d, scale, dt, false)
    {
      newH := [];
      for j := 0 to |nodes|
        invariant newH == DirectionRow(nodes, coordinates, j, dofPerNode, d, scale, dt, false)
      {
        // the three inserts at dofPerNode * node + 0, 1, 2
        newH := newH + NodeEntries(nodes[j], coordinates[j], dofPerNode, d, scale, dt);
      }
    }
  }
}
