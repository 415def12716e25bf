// What the mass-spring and FEM constraint builders share: the side sign, the MLCP they write
// into, and the sparse H rows they fill one entry at a time.
module ConstraintRows {
  import opened Wrappers
  import opened Vectors
  import opened IndexedCoordinates

  datatype ConstraintSideSign = PositiveSide | NegativeSide

  datatype ConstraintType = Fixed3DPoint | Frictionless3DContact | FrictionalSliding

  /** The factor a builder applies to its rows: +1 on the positive side, -1 on the other. */
  function SideScale(sign: ConstraintSideSign): (s: real)
    ensures s * s == 1.0
    ensures s > 0.0 <==> sign == PositiveSide
  {
    if sign == PositiveSide then 1.0 else -1.0
  }

  /** One SparseVector::insert into an H row: the dof index and the value. */
  datatype Entry = Entry(index: nat, value: real)

  /** One MlcpPhysicsProblem::updateConstraint call: the H row, the representation it belongs
      to and the constraint row it fills. */
  datatype RowUpdate = RowUpdate(h: seq<Entry>, representation: nat, constraint: nat)

  /** The part of MlcpPhysicsProblem the builders touch: the violation vector b, the friction
      coefficients mu, and the rows handed to updateConstraint, in order. */
  class Mlcp {
    var b: seq<real>
    var mu: seq<real>
    var updates: seq<RowUpdate>

    constructor (b0: seq<real>, mu0: seq<real>)
      ensures b == b0 && mu == mu0 && updates == []
    {
      b, mu, updates := b0, mu0, [];
    }

    /** updateConstraint: records the row; the compliance product it also receives is not
        part of this model. */
    method UpdateConstraint(h: seq<Entry>, representation: nat, constraint: nat)
      modifies this
      ensures b == old(b) && mu == old(mu)
      ensures updates == old(updates) + [RowUpdate(h, representation, constraint)]
    {
      updates := updates + [RowUpdate(h, representation, constraint)];
    }
  }

  // ---------------------------------------------------------------------------
  // Selecting the constrained nodes of a mass-spring localization

  /** The nodes a constraint acts on and the weight of each. */
  datatype Selection = Selection(nodes: seq<nat>, coordinates: seq<real>)

  /** A node localization constrains that node with weight 1; otherwise a position
      localization constrains the nodes of its element with its local coordinates; a
      localization with neither is a failure. */
  function SelectNodes(node: Option<nat>, position: Option<IndexedLocalCoordinate>,
                       elements: seq<seq<nat>>): (r: Result<Selection>)
    requires node.None? && position.Some? ==> position.value.index < |elements|
    ensures r.Success? <==> node.Some? || position.Some?
    ensures node.Some? ==> r.value == Selection([node.value], [1.0])
    ensures node.None? && position.Some? ==>
              r.value.nodes == elements[position.value.index] && r.value.coordinates == position.value.coordinate
  {
    if node.Some? then Success(Selection([node.value], [1.0]))
    else if position.Some? then Success(Selection(elements[position.value.index], position.value.coordinate))
    else Failure("a localization with either a node or a local position is required")
  }

  // ---------------------------------------------------------------------------
  // H rows

  /** How many of the first k coordinates are nonzero. */
  function NonZeros(coordinates: seq<real>, k: nat): nat
    requires k <= |coordinates|
  {
    if k == 0 then 0 else NonZeros(coordinates, k - 1) + (if coordinates[k - 1] != 0.0 then 1 else 0)
  }

  /** The row the node loop fills for one axis: for each of the first k nodes whose
      coordinate is nonzero, in node order, the value coordinate * factor at
      dofPerNode * node + axis. */
  function AxisRow(nodes: seq<nat>, coordinates: seq<real>, k: nat, dofPerNode: nat, axis: nat, factor: real): seq<Entry>
    requires k <= |nodes| <= |coordinates|
  {
    if k == 0 then []
    else AxisRow(nodes, coordinates, k - 1, dofPerNode, axis, factor)
         + if coordinates[k - 1] != 0.0 then [Entry(dofPerNode * nodes[k - 1] + axis, coordinates[k - 1] * factor)] else []
  }

  /** The three entries of one node with coordinate c along direction d:
      c * d[axis] * scale * dt at dofPerNode * node + axis. */
  function NodeEntries(node: nat, c: real, dofPerNode: nat, d: Vec3, scale: real, dt: real): (r: seq<Entry>)
    ensures |r| == 3
  {
    [Entry(dofPerNode * node + 0, c * d.x * scale * dt), Entry(dofPerNode * node + 1, c * d.y * scale * dt),
     Entry(dofPerNode * node + 2, c * d.z * scale * dt)]
  }

  /** Entry axis of a node's three is c * d[axis] * scale * dt at dofPerNode * node + axis. */
  lemma NodeEntriesAt(node: nat, c: real, dofPerNode: nat, d: Vec3, scale: real, dt: real, axis: nat)
    requires axis < 3
    ensures NodeEntries(node, c, dofPerNode, d, scale, dt)[axis] == Entry(dofPerNode * node + axis, c * Coord(d, axis) * scale * dt)
  {
    if axis == 0 {
      assert Coord(d, axis) == d.x;
    } else if axis == 1 {
      assert Coord(d, axis) == d.y;
    } else {
      assert Coord(d, axis) == d.z;
    }
  }

  /** The row the node loop fills along a direction d: the NodeEntries of each of the first k
      nodes (all of them, or only those with a nonzero coordinate when skipZeros), in node
      order. */
  function DirectionRow(nodes: seq<nat>, coordinates: seq<real>, k: nat, dofPerNode: nat, d: Vec3,
                        scale: real, dt: real, skipZeros: bool): seq<Entry>
    requires k <= |nodes| <= |coordinates|
  {
    if k == 0 then []
    else DirectionRow(nodes, coordinates, k - 1, dofPerNode, d, scale, dt, skipZeros)
         + if !skipZeros || coordinates[k - 1] != 0.0
           then NodeEntries(nodes[k - 1], coordinates[k - 1], dofPerNode, d, scale, dt)
           else []
  }

  /** The updateConstraint calls of the axis loop: row c + axis holds the AxisRow of that
      axis over all the nodes, for axis = 0 .. n - 1. */
  function AxisUpdates(nodes: seq<nat>, coordinates: seq<real>, dofPerNode: nat, factor: real,
                       representation: nat, c: nat, n: nat): seq<RowUpdate>
    requires |nodes| <= |coordinates|
  {
    if n == 0 then []
    else AxisUpdates(nodes, coordinates, dofPerNode, factor, representation, c, n - 1)
         + [RowUpdate(AxisRow(nodes, coordinates, |nodes|, dofPerNode, n - 1, factor), representation, c + n - 1)]
  }

  /** An axis row holds one entry per nonzero coordinate. */
  lemma {:induction false} AxisRowLength(nodes: seq<nat>, coordinates: seq<real>, k: nat, dofPerNode: nat, axis: nat, factor: real)
    requires k <= |nodes| <= |coordinates|
    ensures |AxisRow(nodes, coordinates, k, dofPerNode, axis, factor)| == NonZeros(coordinates, k)
  {
    if k > 0 {
      AxisRowLength(nodes, coordinates, k - 1, dofPerNode, axis, factor);
    }
  }

  /** Every entry of an axis row comes from a node with a nonzero coordinate: node j. */
  lemma {:induction false} AxisRowSound(nodes: seq<nat>, coordinates: seq<real>, k: nat, dofPerNode: nat, axis: nat, factor: real, i: nat)
    returns (j: nat)
    requires k <= |nodes| <= |coordinates|
    requires i < |AxisRow(nodes, coordinates, k, dofPerNode, axis, factor)|
    ensures j < k && coordinates[j] != 0.0
    ensures AxisRow(nodes, coordinates, k, dofPerNode, axis, factor)[i] == Entry(dofPerNode * nodes[j] + axis, coordinates[j] * factor)
  {
    var prefix := AxisRow(nodes, coordinates, k - 1, dofPerNode, axis, factor);
    if i < |prefix| {
      j := AxisRowSound(nodes, coordinates, k - 1, dofPerNode, axis, factor, i);
    } else {
      j := k - 1;
    }
  }

  /** Every node with a nonzero coordinate has its entry in the axis row. */
  lemma {:induction false} AxisRowComplete(nodes: seq<nat>, coordinates: seq<real>, k: nat, dofPerNode: nat, axis: nat, factor: real, j: nat)
    requires k <= |nodes| <= |coordinates|
    requires j < k && coordinates[j] != 0.0
    ensures Entry(dofPerNode * nodes[j] + axis, coordinates[j] * factor) in AxisRow(nodes, coordinates, k, dofPerNode, axis, factor)
  {
    var row := AxisRow(nodes, coordinates, k, dofPerNode, axis, factor);
    var prefix := AxisRow(nodes, coordinates, k - 1, dofPerNode, axis, factor);
    if j < k - 1 {
      AxisRowComplete(nodes, coordinates, k - 1, dofPerNode, axis, factor, j);
      var i :| 0 <= i < |prefix| && prefix[i] == Entry(dofPerNode * nodes[j] + axis, coordinates[j] * factor);
      assert row[i] == prefix[i];
    } else {
      assert row[|prefix|] == Entry(dofPerNode * nodes[j] + axis, coordinates[j] * factor);
    }
  }

  /** For a single node with weight 1 the axis row is the single entry factor at its dof:
      H is dt times the identity on that node. */
  lemma NodeAxisRow(node: nat, dofPerNode: nat, axis: nat, factor: real)
    ensures AxisRow([node], [1.0], 1, dofPerNode, axis, factor) == [Entry(dofPerNode * node + axis, factor)]
  {
    assert AxisRow([node], [1.0], 0, dofPerNode, axis, factor) == [];
  }

  /** A direction row holds three entries per node it covers. */
  lemma {:induction false} DirectionRowLength(nodes: seq<nat>, coordinates: seq<real>, k: nat, dofPerNode: nat, d: Vec3,
                                              scale: real, dt: real, skipZeros: bool)
    requires k <= |nodes| <= |coordinates|
    ensures |DirectionRow(nodes, coordinates, k, dofPerNode, d, scale, dt, skipZeros)|
            == 3 * if skipZeros then NonZeros(coordinates, k) else k
  {
    if k > 0 {
      DirectionRowLength(nodes, coordinates, k - 1, dofPerNode, d, scale, dt, skipZeros);
    }
  }

  /** Every entry of a direction row is one of the NodeEntries of a covered node j. */
  lemma {:induction false} DirectionRowSound(nodes: seq<nat>, coordinates: seq<real>, k: nat, dofPerNode: nat, d: Vec3,
                                             scale: real, dt: real, skipZeros: bool, i: nat)
    returns (j: nat, axis: nat)
    requires k <= |nodes| <= |coordinates|
    requires i < |DirectionRow(nodes, coordinates, k, dofPerNode, d, scale, dt, skipZeros)|
    ensures j < k && axis < 3 && (!skipZeros || coordinates[j] != 0.0)
    ensures DirectionRow(nodes, coordinates, k, dofPerNode, d, scale, dt, skipZeros)[i]
            == NodeEntries(nodes[j], coordinates[j], dofPerNode, d, scale, dt)[axis]
  {
    var row := DirectionRow(nodes, coordinates, k, dofPerNode, d, scale, dt, skipZeros);
    assert k > 0;
    var prefix := DirectionRow(nodes, coordinates, k - 1, dofPerNode, d, scale, dt, skipZeros);
    if i < |prefix| {
      j, axis := DirectionRowSound(nodes, coordinates, k - 1, dofPerNode, d, scale, dt, skipZeros, i);
      assert row[i] == prefix[i];
    } else {
      var tail := NodeEntries(nodes[k - 1], coordinates[k - 1], dofPerNode, d, scale, dt);
      assert row == prefix + tail;
      j, axis := k - 1, i - |prefix|;
      assert row[i] == tail[axis];
    }
  }

  /** Every covered node has its three entries in the direction row. */
  lemma {:induction false} DirectionRowComplete(nodes: seq<nat>, coordinates: seq<real>, k: nat, dofPerNode: nat, d: Vec3,
                                                scale: real, dt: real, skipZeros: bool, j: nat, axis: nat)
    requires k <= |nodes| <= |coordinates|
    requires j < k && axis < 3 && (!skipZeros || coordinates[j] != 0.0)
    ensures NodeEntries(nodes[j], coordinates[j], dofPerNode, d, scale, dt)[axis]
            in DirectionRow(nodes, coordinates, k, dofPerNode, d, scale, dt, skipZeros)
  {
    if j < k - 1 {
      DirectionRowComplete(nodes, coordinates, k - 1, dofPerNode, d, scale, dt, skipZeros, j, axis);
    } else {
      var row := DirectionRow(nodes, coordinates, k, dofPerNode, d, scale, dt, skipZeros);
      var prefix := DirectionRow(nodes, coordinates, k - 1, dofPerNode, d, scale, dt, skipZeros);
      var tail := NodeEntries(nodes[j], coordinates[j], dofPerNode, d, scale, dt);
      assert row == prefix + tail && |tail| == 3;
      assert row[|prefix| + axis] == tail[axis];
    }
  }

  /** The axis loop fills rows c .. c + n - 1 in order, row c + axis holding the axis row of
      that axis. */
  lemma {:induction false} AxisUpdatesAt(nodes: seq<nat>, coordinates: seq<real>, dofPerNode: nat, factor: real,
                                         representation: nat, c: nat, n: nat, axis: nat)
    requires |nodes| <= |coordinates| && axis < n
    ensures |AxisUpdates(nodes, coordinates, dofPerNode, factor, representation, c, n)| == n
    ensures AxisUpdates(nodes, coordinates, dofPerNode, factor, representation, c, n)[axis]
            == RowUpdate(AxisRow(nodes, coordinates, |nodes|, dofPerNode, axis, factor), representation, c + axis)
  {
    if axis < n - 1 {
      AxisUpdatesAt(nodes, coordinates, dofPerNode, factor, representation, c, n - 1, axis);
    } else if n > 1 {
      AxisUpdatesAt(nodes, coordinates, dofPerNode, factor, representation, c, n - 1, 0);
    }
  }
}
