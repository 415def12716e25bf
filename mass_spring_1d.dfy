// A line of masses: each node carries an equal share of the total mass, consecutive nodes
// form 2-node elements, stretching springs join neighbours and bending springs join nodes
// two apart.
module MassSpring1D {
  import opened Vectors
  import opened MassSprings
  import opened MassSpringRepresentations
  import opened MassSpringGrids

  /** The count springs joining node i to node i + gap, in order of i. */
  function LineSprings(count: nat, gap: nat, stiffness: real, damping: real): seq<Spring> {
    seq(count, i requires 0 <= i < count => LinearSpring(i, i + gap, stiffness, damping))
  }

  /** The stretching springs of a line of n nodes: one per pair of neighbours. */
  function StretchingSprings(n: nat, stiffness: real, damping: real): seq<Spring> {
    if Enabled(stiffness, damping) then LineSprings(Monus(n, 1), 1, stiffness, damping) else []
  }

  /** The bending springs as written: the loop bound n - 2 is a size_t, so one node gives
      2^64 - 1 springs. */
  function BendingSpringsAsWritten(n: nat, stiffness: real, damping: real): seq<Spring>
    requires n < SizeModulus
  {
    if Enabled(stiffness, damping) then LineSprings(SizeSub(n, 2), 2, stiffness, damping) else []
  }

  /** The bending springs: one per pair of nodes two apart, none below three nodes. */
  function BendingSprings(n: nat, stiffness: real, damping: real): seq<Spring> {
    if Enabled(stiffness, damping) then LineSprings(Monus(n, 2), 2, stiffness, damping) else []
  }

  /** The segments of a line of n nodes: {i, i + 1} for each pair of neighbours. */
  function Segments(n: nat): seq<seq<nat>> {
    seq(Monus(n, 1), i requires 0 <= i < Monus(n, 1) => [i, i + 1])
  }

  lemma LineSpringsJoin(count: nat, gap: nat, stiffness: real, damping: real, n: nat)
    requires gap > 0 && (count == 0 || count + gap <= n)
    ensures Joins(LineSprings(count, gap, stiffness, damping), stiffness, damping, n)
  {
  }

  /** Both spring families of a line of n nodes join distinct nodes of the line; there are
      n - 1 stretching and n - 2 bending springs (none when a family is disabled). */
  lemma LineSpringsShape(n: nat, stiffness: real, damping: real)
    ensures Joins(StretchingSprings(n, stiffness, damping), stiffness, damping, n)
    ensures Joins(BendingSprings(n, stiffness, damping), stiffness, damping, n)
    ensures |StretchingSprings(n, stiffness, damping)| == if Enabled(stiffness, damping) then Monus(n, 1) else 0
    ensures |BendingSprings(n, stiffness, damping)| == if Enabled(stiffness, damping) then Monus(n, 2) else 0
  {
    if Enabled(stiffness, damping) {
      LineSpringsJoin(Monus(n, 1), 1, stiffness, damping, n);
      LineSpringsJoin(Monus(n, 2), 2, stiffness, damping, n);
    }
  }

  /** With one node the bending loop as written runs 2^64 - 1 times, and its first spring
      reaches node 2 of a line of one node. */
  lemma SingleNodeBendingOutOfRange(stiffness: real, damping: real)
    requires Enabled(stiffness, damping)
    ensures |BendingSpringsAsWritten(1, stiffness, damping)| == SizeModulus - 1
    ensures BendingSpringsAsWritten(1, stiffness, damping)[0] == LinearSpring(0, 2, stiffness, damping)
    ensures !Joins(BendingSpringsAsWritten(1, stiffness, damping), stiffness, damping, 1)
  {
    SizeSubValue(1, 2);
  }

  /** From two nodes on the two bounds agree. */
  lemma BendingBoundsAgree(n: nat, stiffness: real, damping: real)
    requires 2 <= n < SizeModulus
    ensures BendingSpringsAsWritten(n, stiffness, damping) == BendingSprings(n, stiffness, damping)
  {
    SizeSubValue(n, 2);
  }

  /** The node loop of init1D: one mass and one vertex per node, in order. */
  method AddNodes(mesh: MassSpring, nodes: seq<Vec3>, mass: real)
    requires mesh.vertices == [] && mesh.masses == []
    modifies mesh
    ensures mesh.vertices == seq(|nodes|, i requires 0 <= i < |nodes| => Vertex(nodes[i], mass))
    ensures mesh.masses == seq(|nodes|, _ => mass)
    ensures mesh.springs == old(mesh.springs) && mesh.elements == old(mesh.elements)
    ensures mesh.boundaryConditions == old(mesh.boundaryConditions)
  {
    for massId := 0 to |nodes|
      invariant mesh.vertices == seq(massId, i requires 0 <= i < massId => Vertex(nodes[i], mass))
      invariant mesh.masses == seq(massId, _ => mass)
      invariant mesh.springs == old(mesh.springs) && mesh.elements == old(mesh.elements)
      invariant mesh.boundaryConditions == old(mesh.boundaryConditions)
    {
      mesh.AddMass(mass);
      mesh.AddVertex(Vertex(nodes[massId], mass));
    }
  }

  /** The element loop of init1D: the segment {i, i + 1} for each pair of neighbours. */
  method AddSegments(mesh: MassSpring, n: nat)
    requires mesh.elements == []
    modifies mesh
    ensures mesh.elements == Segments(n)
    ensures mesh.vertices == old(mesh.vertices) && mesh.masses == old(mesh.masses)
    ensures mesh.springs == old(mesh.springs) && mesh.boundaryConditions == old(mesh.boundaryConditions)
  {
    for massId := 0 to Monus(n, 1)
      invariant mesh.elements == seq(massId, i requires 0 <= i < massId => [i, i + 1])
      invariant mesh.vertices == old(mesh.vertices) && mesh.masses == old(mesh.masses)
      invariant mesh.springs == old(mesh.springs) && mesh.boundaryConditions == old(mesh.boundaryConditions)
    {
      var count := mesh.AddElement([massId, massId + 1]);
    }
  }

  /** A spring loop of init1D: count springs from node i to node i + gap. */
  method AddLineSprings(mesh: MassSpring, count: nat, gap: nat, stiffness: real, damping: real)
    modifies mesh
    ensures mesh.springs == old(mesh.springs) + LineSprings(count, gap, stiffness, damping)
    ensures mesh.vertices == old(mesh.vertices) && mesh.masses == old(mesh.masses)
    ensures mesh.elements == old(mesh.elements) && mesh.boundaryConditions == old(mesh.boundaryConditions)
  {
    for massId := 0 to count
      invariant mesh.springs == old(mesh.springs) + LineSprings(massId, gap, stiffness, damping)
      invariant mesh.vertices == old(mesh.vertices) && mesh.masses == old(mesh.masses)
      invariant mesh.elements == old(mesh.elements) && mesh.boundaryConditions == old(mesh.boundaryConditions)
    {
      mesh.AddSpring(LinearSpring(massId, massId + gap, stiffness, damping));
    }
  }

  /** init1D: a new mesh with one vertex per node, each with an equal share of the total
      mass, the segments between neighbours, the stretching then the bending springs, and the
      boundary conditions in the given order; the representation then takes the mesh. */
  method Init1D(representation: MassSpringRepresentation, nodes: seq<Vec3>, boundaryConditions: seq<nat>,
                totalMass: real, stiffnessStretching: real, dampingStretching: real,
                stiffnessBending: real, dampingBending: real)
    requires |nodes| > 0
    requires !representation.initialized
    modifies representation
    ensures fresh(representation.mesh)
    ensures representation.mesh.vertices
            == seq(|nodes|, i requires 0 <= i < |nodes| => Vertex(nodes[i], totalMass / (|nodes| as real)))
    ensures representation.mesh.masses == seq(|nodes|, _ => totalMass / (|nodes| as real))
    ensures representation.mesh.elements == Segments(|nodes|)
    ensures representation.mesh.springs
            == StretchingSprings(|nodes|, stiffnessStretching, dampingStretching)
               + BendingSprings(|nodes|, stiffnessBending, dampingBending)
    ensures representation.mesh.boundaryConditions == boundaryConditions
    ensures representation.masses == old(representation.masses) + representation.mesh.masses
    ensures representation.springs == old(representation.springs) + representation.mesh.springs
    ensures representation.numDof == NumDofPerNode * |nodes|
  {
    var mesh := new MassSpring(MassSpringAsset);
    var n := |nodes|;
    AddNodes(mesh, nodes, totalMass / (n as real));
    AddSegments(mesh, n);
    if Enabled(stiffnessStretching, dampingStretching) {
      AddLineSprings(mesh, n - 1, 1, stiffnessStretching, dampingStretching);
    }
    if Enabled(stiffnessBending, dampingBending) {
      AddLineSprings(mesh, Monus(n, 2), 2, stiffnessBending, dampingBending);
    }
    AddBoundaryConditions(mesh, boundaryConditions);
    assert mesh.masses[..|mesh.vertices|] == mesh.masses;
    representation.SetMassSpring(mesh);
  }
}
