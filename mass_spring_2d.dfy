// A sheet of masses: nx * ny nodes laid out column first, then row, each carrying an equal
// share of the total mass; stretching springs join neighbours along the two axes, bending
// springs join nodes two apart, and face-diagonal springs cross each square of four
// neighbouring nodes both ways. The generator fills an ODE state rather than a mesh.
module MassSpring2D {
  import opened Vectors
  import opened MassSprings
  import opened MassSpringRepresentations
  import opened MassSpringGrids

  /** The node counts along X (columns) and Y (rows). */
  datatype Dims = Dims(nx: nat, ny: nat)

  /** The four corners of the sheet: edge i runs along Y from extremities[i][0] to
      extremities[i][1]; i picks the X side. */
  datatype Sheet = Sheet(e0: Edge, e1: Edge)

  function NumNodes(d: Dims): nat {
    d.nx * d.ny
  }

  predicate NonEmpty(d: Dims) {
    d.nx > 0 && d.ny > 0
  }

  /** The last node id is (ny - 1) rows and (nx - 1) columns in. */
  lemma LastNode(d: Dims)
    requires NonEmpty(d)
    ensures (d.ny - 1) * d.nx + (d.nx - 1) == NumNodes(d) - 1
  {
    MulStep(d.ny - 1, d.nx);
  }

  // ---------------------------------------------------------------------------
  // Node positions

  /** The node loop nest: a single pass of rows, then columns. */
  function NodeLoops(d: Dims): Loops {
    Loops(1, d.ny, d.nx)
  }

  /** Node (row, col): the two Y edges are cut at `row`, and the resulting row at `col`, each
      at even spacing. */
  function SheetPoint(sheet: Sheet, d: Dims, c: Cell): Vec3 {
    Along(Along(sheet.e0.first, sheet.e0.last, d.ny, c.middle), Along(sheet.e1.first, sheet.e1.last, d.ny, c.middle),
          d.nx, c.inner)
  }

  /** The first node sits on the first corner of the sheet and, with two nodes or more along
      both axes, the last node on the opposite corner. */
  lemma SheetCorners(sheet: Sheet, d: Dims)
    ensures SheetPoint(sheet, d, Cell(0, 0, 0)) == sheet.e0.first
    ensures d.nx > 1 && d.ny > 1 ==> SheetPoint(sheet, d, Cell(0, d.ny - 1, d.nx - 1)) == sheet.e1.last
  {
    AlongEnds(sheet.e0.first, sheet.e0.last, d.ny);
    AlongEnds(sheet.e1.first, sheet.e1.last, d.ny);
    AlongEnds(sheet.e0.first, sheet.e1.first, d.nx);
    AlongEnds(sheet.e0.last, sheet.e1.last, d.nx);
  }

  /** The positions the node loop writes for a run of iterations. */
  function SheetPositions(cells: seq<Cell>, sheet: Sheet, d: Dims): (r: seq<Vec3>)
    ensures |r| == |cells|
  {
    seq(|cells|, j requires 0 <= j < |cells| => SheetPoint(sheet, d, cells[j]))
  }

  /** The node loop runs once per node. */
  lemma NodeCount(d: Dims)
    ensures |Iterations(NodeLoops(d))| == NumNodes(d)
  {
    IterationsLength(NodeLoops(d));
  }

  /** Node (row, col) is at position row * nx + col of the state. */
  lemma NodeAt(sheet: Sheet, d: Dims, row: nat, col: nat)
    requires row < d.ny && col < d.nx
    ensures row * d.nx + col < |SheetPositions(Iterations(NodeLoops(d)), sheet, d)|
    ensures SheetPositions(Iterations(NodeLoops(d)), sheet, d)[row * d.nx + col] == SheetPoint(sheet, d, Cell(0, row, col))
  {
    IterationAt(NodeLoops(d), 0, row, col);
  }

  /** Every field of the representation but its masses. */
  function AllButMasses(r: MassSpringRepresentation): (MassSpring, seq<Spring>, bool, bool, nat, OdeState, seq<real>, bool, seq<real>)
    reads r
  {
    (r.mesh, r.springs, r.initialized, r.active, r.numDof, r.initialState, r.externalForce, r.hasExternalForce, r.massDiagonal)
  }

  /** The positions of one row of nx nodes from `first` to `last`. */
  function RowPoints(first: Vec3, last: Vec3, nx: nat): (r: seq<Vec3>)
    ensures |r| == nx
  {
    seq(nx, col requires 0 <= col < nx => Along(first, last, nx, col))
  }

  /** A row of the sheet is a row of nodes between the row's extremities. */
  lemma SheetRow(done: seq<Cell>, sheet: Sheet, d: Dims, row: nat)
    ensures SheetPositions(done + Cells(0, row, d.nx), sheet, d)
            == SheetPositions(done, sheet, d)
               + RowPoints(Along(sheet.e0.first, sheet.e0.last, d.ny, row), Along(sheet.e1.first, sheet.e1.last, d.ny, row), d.nx)
  {
    CellsShape(0, row, d.nx);
  }

  /** The column loop of init2D: one mass and one position per node of a row, the positions
      written from node id `start` on. */
  method AddRow(representation: MassSpringRepresentation, positions: array<Vec3>, start: nat,
                first: Vec3, last: Vec3, nx: nat, mass: real)
    requires start + nx <= positions.Length
    modifies representation, positions
    ensures positions[..start] == old(positions[..start])
    ensures positions[start..start + nx] == RowPoints(first, last, nx)
    ensures representation.masses == old(representation.masses) + seq(nx, _ => mass)
    ensures AllButMasses(representation) == old(AllButMasses(representation))
  {
    var nodeId := start;
    for col := 0 to nx
      invariant nodeId == start + col
      invariant positions[..start] == old(positions[..start])
      invariant positions[start..nodeId] == RowPoints(first, last, nx)[..col]
      invariant representation.masses == old(representation.masses) + seq(col, _ => mass)
      invariant AllButMasses(representation) == old(AllButMasses(representation))
    {
      representation.AddMass(mass);
      positions[nodeId] := Along(first, last, nx, col);
      assert positions[start..nodeId + 1] == positions[start..nodeId] + [positions[nodeId]];
      assert RowPoints(first, last, nx)[..col + 1] == RowPoints(first, last, nx)[..col] + [Along(first, last, nx, col)];
      nodeId := nodeId + 1;
    }
    assert RowPoints(first, last, nx)[..nx] == RowPoints(first, last, nx);
  }

  lemma RowFits(d: Dims, row: nat)
    requires row < d.ny
    ensures row * d.nx + d.nx == (row + 1) * d.nx <= d.nx * d.ny
  {
    MulStep(row, d.nx);
    MulMonotone(row + 1, d.ny, d.nx);
  }

  /** One pass of the row loop of init2D: the row's extremities, then its nodes from node id
      `start` on. */
  method AddSheetRow(representation: MassSpringRepresentation, positions: array<Vec3>, sheet: Sheet, d: Dims,
                     row: nat, mass: real, start: nat, ghost done: seq<Cell>)
    requires start == |done| && start + d.nx <= positions.Length
    requires positions[..start] == SheetPositions(done, sheet, d)
    modifies representation, positions
    ensures positions[..start + d.nx] == SheetPositions(done + Cells(0, row, d.nx), sheet, d)
    ensures representation.masses == old(representation.masses) + seq(d.nx, _ => mass)
    ensures AllButMasses(representation) == old(AllButMasses(representation))
  {
    var first := Along(sheet.e0.first, sheet.e0.last, d.ny, row);
    var last := Along(sheet.e1.first, sheet.e1.last, d.ny, row);
    AddRow(representation, positions, start, first, last, d.nx, mass);
    SheetRow(done, sheet, d, row);
    assert positions[..start + d.nx] == positions[..start] + positions[start..start + d.nx];
  }

  lemma CopiesAppend(n: nat, k: nat, mass: real)
    ensures seq(n, _ => mass) + seq(k, _ => mass) == seq(n + k, _ => mass)
  {
  }

  /** The node loop of init2D: one mass added to the representation and one position written
      into the state per node, in id order. */
  method AddNodes(representation: MassSpringRepresentation, sheet: Sheet, d: Dims, mass: real)
      returns (positions: array<Vec3>)
    modifies representation
    ensures fresh(positions)
    ensures positions[..] == SheetPositions(Iterations(NodeLoops(d)), sheet, d)
    ensures representation.masses == old(representation.masses) + seq(NumNodes(d), _ => mass)
    ensures AllButMasses(representation) == old(AllButMasses(representation))
  {
    var numNodes := d.nx * d.ny;
    positions := new Vec3[numNodes](_ => Zero);
    ghost var loops := NodeLoops(d);
    ghost var done: seq<Cell> := [];
    var nodeId := 0;
    for row := 0 to d.ny
      invariant done == Rows(loops, 0, row) && nodeId == |done| && nodeId == row * d.nx
      invariant positions[..nodeId] == SheetPositions(done, sheet, d)
      invariant representation.masses == old(representation.masses) + seq(nodeId, _ => mass)
      invariant AllButMasses(representation) == old(AllButMasses(representation))
    {
      RowFits(d, row);
      AddSheetRow(representation, positions, sheet, d, row, mass, nodeId, done);
      CopiesAppend(nodeId, d.nx, mass);
      CellsShape(0, row, d.nx);
      done := done + Cells(0, row, d.nx);
      nodeId := nodeId + d.nx;
    }
    NodeCount(d);
    assert Iterations(loops) == Rows(loops, 0, d.ny);
    assert positions[..] == positions[..nodeId];
  }

  // ---------------------------------------------------------------------------
  // Spring families

  /** Stretching springs join neighbours: along X (row, col loops) and along Y (col, row). */
  function StretchingNests(d: Dims): seq<Nest> {
    [Nest(Loops(1, d.ny, Monus(d.nx, 1)), Strides(0, d.nx, 1), [Offset(0, 1)]),
     Nest(Loops(1, d.nx, Monus(d.ny, 1)), Strides(0, 1, d.nx), [Offset(0, d.nx)])]
  }

  /** Bending springs join nodes two apart along X and along Y. */
  function BendingNests(d: Dims): seq<Nest> {
    [Nest(Loops(1, d.ny, Monus(d.nx, 2)), Strides(0, d.nx, 1), [Offset(0, 2)]),
     Nest(Loops(1, d.nx, Monus(d.ny, 2)), Strides(0, 1, d.nx), [Offset(0, 2 * d.nx)])]
  }

  /** Face-diagonal springs cross each square of four neighbouring nodes both ways. */
  function FaceDiagonalNests(d: Dims): seq<Nest> {
    [Nest(Loops(1, Monus(d.ny, 1), Monus(d.nx, 1)), Strides(0, d.nx, 1), [Offset(0, d.nx + 1), Offset(1, d.nx)])]
  }

  lemma NestsSizeOfTwo(a: Nest, b: Nest)
    ensures NestsSize([a, b]) == NestSize(a) + NestSize(b)
  {
    var s1, s2 := [a], [a, b];
    assert s2[..1] == s1 && s1[..0] == [];
    assert NestsSize(s1) == NestSize(a);
  }

  /** The stretching springs join neighbouring nodes of the sheet: ny * (nx - 1) along X and
      nx * (ny - 1) along Y. */
  lemma StretchingShape(d: Dims, stiffness: real, damping: real)
    requires NonEmpty(d)
    ensures Joins(FamilySprings(StretchingNests(d), stiffness, damping), stiffness, damping, NumNodes(d))
    ensures |FamilySprings(StretchingNests(d), stiffness, damping)|
            == if Enabled(stiffness, damping) then d.ny * Monus(d.nx, 1) + d.nx * Monus(d.ny, 1) else 0
  {
    var nests := StretchingNests(d);
    LastNode(d);
    if d.ny >= 2 {
      MulStep(d.ny - 2, d.nx);
    }
    assert Fits(nests[0], NumNodes(d)) && Fits(nests[1], NumNodes(d));
    FamilyShape(nests, stiffness, damping, NumNodes(d));
    NestsSizeOfTwo(nests[0], nests[1]);
    assert nests == [nests[0], nests[1]];
  }

  /** The bending springs join nodes two apart: ny * (nx - 2) along X and nx * (ny - 2) along
      Y, none along an axis of fewer than three nodes. */
  lemma BendingShape(d: Dims, stiffness: real, damping: real)
    requires NonEmpty(d)
    ensures Joins(FamilySprings(BendingNests(d), stiffness, damping), stiffness, damping, NumNodes(d))
    ensures |FamilySprings(BendingNests(d), stiffness, damping)|
            == if Enabled(stiffness, damping) then d.ny * Monus(d.nx, 2) + d.nx * Monus(d.ny, 2) else 0
  {
    var nests := BendingNests(d);
    LastNode(d);
    if d.ny >= 3 {
      MulStep(d.ny - 3, d.nx);
      MulStep(d.ny - 2, d.nx);
    }
    assert Fits(nests[0], NumNodes(d)) && Fits(nests[1], NumNodes(d));
    FamilyShape(nests, stiffness, damping, NumNodes(d));
    NestsSizeOfTwo(nests[0], nests[1]);
    assert nests == [nests[0], nests[1]];
  }

  /** Two face-diagonal springs per square: 2 * (ny - 1) * (nx - 1). */
  lemma FaceDiagonalShape(d: Dims, stiffness: real, damping: real)
    requires NonEmpty(d)
    ensures Joins(FamilySprings(FaceDiagonalNests(d), stiffness, damping), stiffness, damping, NumNodes(d))
    ensures |FamilySprings(FaceDiagonalNests(d), stiffness, damping)|
            == if Enabled(stiffness, damping) then Monus(d.ny, 1) * Monus(d.nx, 1) * 2 else 0
  {
    var nests := FaceDiagonalNests(d);
    LastNode(d);
    if d.ny >= 2 {
      MulStep(d.ny - 2, d.nx);
    }
    assert Fits(nests[0], NumNodes(d));
    FamilyShape(nests, stiffness, damping, NumNodes(d));
    assert nests[..0] == [];
  }

  /** Every field of the representation but its springs. */
  function AllButSprings(r: MassSpringRepresentation): (MassSpring, seq<real>, bool, bool, nat, OdeState, seq<real>, bool, seq<real>)
    reads r
  {
    (r.mesh, r.masses, r.initialized, r.active, r.numDof, r.initialState, r.externalForce, r.hasExternalForce, r.massDiagonal)
  }

  /** Each spring of a nest handed to the representation's addSpring, in order. */
  method AddSprings(representation: MassSpringRepresentation, springs: seq<Spring>)
    modifies representation
    ensures representation.springs == old(representation.springs) + springs
    ensures AllButSprings(representation) == old(AllButSprings(representation))
  {
    for j := 0 to |springs|
      invariant representation.springs == old(representation.springs) + springs[..j]
      invariant AllButSprings(representation) == old(AllButSprings(representation))
    {
      assert springs[..j + 1] == springs[..j] + [springs[j]];
      representation.AddSpring(springs[j]);
    }
    assert springs[..|springs|] == springs;
  }

  /** A spring family of init2D: when enabled, each nest in turn hands its springs to the
      representation's addSpring. */
  method AddFamily(representation: MassSpringRepresentation, nests: seq<Nest>, stiffness: real, damping: real)
    modifies representation
    ensures representation.springs == old(representation.springs) + FamilySprings(nests, stiffness, damping)
    ensures AllButSprings(representation) == old(AllButSprings(representation))
  {
    if Enabled(stiffness, damping) {
      for k := 0 to |nests|
        invariant representation.springs == old(representation.springs) + NestsSprings(nests[..k], stiffness, damping)
        invariant AllButSprings(representation) == old(AllButSprings(representation))
      {
        assert nests[..k + 1][..k] == nests[..k];
        var springs := NestSprings(nests[k].loops, nests[k].strides, nests[k].stencil, stiffness, damping);
        AddSprings(representation, springs);
      }
      assert nests[..|nests|] == nests;
    }
  }

  /** The three spring families of init2D, in order. */
  function SheetSprings(d: Dims, stiffnessStretching: real, dampingStretching: real,
                        stiffnessBending: real, dampingBending: real,
                        stiffnessFaceDiagonal: real, dampingFaceDiagonal: real): seq<Spring> {
    FamilySprings(StretchingNests(d), stiffnessStretching, dampingStretching)
    + FamilySprings(BendingNests(d), stiffnessBending, dampingBending)
    + FamilySprings(FaceDiagonalNests(d), stiffnessFaceDiagonal, dampingFaceDiagonal)
  }

  // ---------------------------------------------------------------------------
  // init2D

  /** The boundary-condition loop of init2D: each node id appended to the state in order. */
  method AddStateBoundaryConditions(state: OdeState, boundaryConditions: seq<nat>) returns (r: OdeState)
    ensures r.positions == state.positions && r.velocities == state.velocities
    ensures r.boundaryConditions == state.boundaryConditions + boundaryConditions
  {
    r := state;
    for k := 0 to |boundaryConditions|
      invariant r.positions == state.positions && r.velocities == state.velocities
      invariant r.boundaryConditions == state.boundaryConditions + boundaryConditions[..k]
    {
      assert boundaryConditions[..k + 1] == boundaryConditions[..k] + [boundaryConditions[k]];
      r := r.(boundaryConditions := r.boundaryConditions + [boundaryConditions[k]]);
    }
    assert boundaryConditions[..|boundaryConditions|] == boundaryConditions;
  }

  /** init2D: one mass per node of the sheet, each an equal share of the total mass, the
      stretching, bending and face-diagonal springs in that order, and an initial state whose
      positions fill the sheet evenly, whose velocities are zero and whose boundary conditions
      are the given node ids. */
  method Init2D(representation: MassSpringRepresentation, sheet: Sheet, d: Dims, boundaryConditions: seq<nat>,
                totalMass: real, stiffnessStretching: real, dampingStretching: real,
                stiffnessBending: real, dampingBending: real,
                stiffnessFaceDiagonal: real, dampingFaceDiagonal: real)
    requires NonEmpty(d)
    modifies representation
    ensures representation.initialState
            == OdeState(SheetPositions(Iterations(NodeLoops(d)), sheet, d), seq(NumNodes(d), _ => Zero), boundaryConditions)
    ensures representation.numDof == NumDofPerNode * NumNodes(d)
    ensures representation.masses == old(representation.masses) + seq(NumNodes(d), _ => totalMass / (NumNodes(d) as real))
    ensures representation.springs
            == old(representation.springs)
               + SheetSprings(d, stiffnessStretching, dampingStretching, stiffnessBending, dampingBending,
                              stiffnessFaceDiagonal, dampingFaceDiagonal)
    ensures representation.mesh == old(representation.mesh) && representation.initialized == old(representation.initialized)
    ensures representation.active == old(representation.active) && representation.massDiagonal == old(representation.massDiagonal)
    ensures representation.externalForce == old(representation.externalForce)
    ensures representation.hasExternalForce == old(representation.hasExternalForce)
  {
    var numNodes := NumNodes(d);
    var positions := AddNodes(representation, sheet, d, totalMass / (numNodes as real));
    AddFamily(representation, StretchingNests(d), stiffnessStretching, dampingStretching);
    AddFamily(representation, BendingNests(d), stiffnessBending, dampingBending);
    AddFamily(representation, FaceDiagonalNests(d), stiffnessFaceDiagonal, dampingFaceDiagonal);
    var state := AddStateBoundaryConditions(OdeState(positions[..], seq(numNodes, _ => Zero), []), boundaryConditions);
    NodeCount(d);
    representation.SetInitialState(state);
  }
}
