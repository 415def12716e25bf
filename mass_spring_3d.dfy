// A box of masses: nx * ny * nz nodes laid out column first, then row, then depth, each
// carrying an equal share of the total mass; the cubes between neighbouring nodes are the
// elements, and four families of springs join nodes along the axes (stretching), two apart
// along the axes (bending), across the faces of each cube and across its volume.
module MassSpring3D {
  import opened Vectors
  import opened MassSprings
  import opened MassSpringRepresentations
  import opened MassSpringGrids

  /** The node counts along X (columns), Y (rows) and Z (depth). */
  datatype Dims = Dims(nx: nat, ny: nat, nz: nat)

  /** The eight corners of the box: edge ij runs along Z from extremities[i][j][0] to
      extremities[i][j][1]; i picks the X side and j the Y side. */
  datatype Box = Box(e00: Edge, e01: Edge, e10: Edge, e11: Edge)

  /** The node id moves by 1 along X, by nx along Y and by nx * ny along Z. */
  function DepthOffset(d: Dims): nat {
    d.nx * d.ny
  }

  function NumNodes(d: Dims): nat {
    d.nx * d.ny * d.nz
  }

  predicate NonEmpty(d: Dims) {
    d.nx > 0 && d.ny > 0 && d.nz > 0
  }

  /** The last node id is (nz - 1) depths, (ny - 1) rows and (nx - 1) columns in. */
  lemma LastNode(d: Dims)
    requires NonEmpty(d)
    ensures (d.nz - 1) * DepthOffset(d) + (d.ny - 1) * d.nx + (d.nx - 1) == NumNodes(d) - 1
  {
    MulStep(d.nz - 1, DepthOffset(d));
    MulStep(d.ny - 1, d.nx);
  }

  /** A layer of nodes holds at least two rows' worth when there are two rows. */
  lemma LayerAtLeastTwoRows(d: Dims)
    requires d.ny >= 2
    ensures DepthOffset(d) >= 2 * d.nx
  {
    MulMonotone(2, d.ny, d.nx);
  }

  // ---------------------------------------------------------------------------
  // Node positions

  /** Node (depth, row, col): the corners' edges are cut at `depth`, the two Y edges of each X
      side at `row`, and the resulting row at `col`, each at even spacing. */
  function GridPoint(box: Box, d: Dims, c: Cell): Vec3 {
    var d00 := Along(box.e00.first, box.e00.last, d.nz, c.outer);
    var d01 := Along(box.e01.first, box.e01.last, d.nz, c.outer);
    var d10 := Along(box.e10.first, box.e10.last, d.nz, c.outer);
    var d11 := Along(box.e11.first, box.e11.last, d.nz, c.outer);
    Along(Along(d00, d01, d.ny, c.middle), Along(d10, d11, d.ny, c.middle), d.nx, c.inner)
  }

  /** The first node sits on the first corner of the box and, with two nodes or more along
      every axis, the last node on the opposite corner. */
  lemma GridCorners(box: Box, d: Dims)
    ensures GridPoint(box, d, Cell(0, 0, 0)) == box.e00.first
    ensures d.nx > 1 && d.ny > 1 && d.nz > 1 ==> GridPoint(box, d, Cell(d.nz - 1, d.ny - 1, d.nx - 1)) == box.e11.last
  {
    AlongEnds(box.e00.first, box.e00.last, d.nz);
    AlongEnds(box.e01.first, box.e01.last, d.nz);
    AlongEnds(box.e10.first, box.e10.last, d.nz);
    AlongEnds(box.e11.first, box.e11.last, d.nz);
    AlongEnds(box.e00.first, box.e01.first, d.ny);
    var r1 := Along(box.e10.first, box.e11.first, d.ny, 0);
    AlongEnds(box.e10.first, box.e11.first, d.ny);
    AlongEnds(box.e00.first, r1, d.nx);
    if d.nx > 1 && d.ny > 1 && d.nz > 1 {
      AlongEnds(box.e00.last, box.e01.last, d.ny);
      AlongEnds(box.e10.last, box.e11.last, d.ny);
      AlongEnds(box.e01.last, box.e11.last, d.nx);
    }
  }

  /** The vertices the node loop adds for a run of iterations. */
  function GridVertices(cells: seq<Cell>, box: Box, d: Dims, mass: real): (r: seq<Vertex>)
    ensures |r| == |cells|
  {
    seq(|cells|, j requires 0 <= j < |cells| => Vertex(GridPoint(box, d, cells[j]), mass))
  }

  lemma GridVerticesSnoc(cells: seq<Cell>, c: Cell, box: Box, d: Dims, mass: real)
    ensures GridVertices(cells + [c], box, d, mass) == GridVertices(cells, box, d, mass) + [Vertex(GridPoint(box, d, c), mass)]
  {
  }

  /** The loop nest over the nodes: depth, then row, then column. */
  function NodeLoops(d: Dims): Loops {
    Loops(d.nz, d.ny, d.nx)
  }

  /** The node loop runs once per node. */
  lemma NodeCount(d: Dims)
    ensures |Iterations(NodeLoops(d))| == NumNodes(d)
  {
    IterationsLength(NodeLoops(d));
    assert d.nz * (d.ny * d.nx) == d.nx * d.ny * d.nz;
  }

  /** Node (depth, row, col) is vertex depth * nx * ny + row * nx + col. */
  lemma NodeAt(box: Box, d: Dims, mass: real, depth: nat, row: nat, col: nat)
    requires depth < d.nz && row < d.ny && col < d.nx
    ensures depth * DepthOffset(d) + row * d.nx + col < |GridVertices(Iterations(NodeLoops(d)), box, d, mass)|
    ensures GridVertices(Iterations(NodeLoops(d)), box, d, mass)[depth * DepthOffset(d) + row * d.nx + col]
            == Vertex(GridPoint(box, d, Cell(depth, row, col)), mass)
  {
    var loops := NodeLoops(d);
    IterationAt(loops, depth, row, col);
    var k := depth * DepthOffset(d) + row * d.nx + col;
    assert DepthOffset(d) == loops.middle * loops.inner;
    assert k == depth * (loops.middle * loops.inner) + row * loops.inner + col;
    assert Iterations(loops)[k] == Cell(depth, row, col);
  }

  /** The vertices of one row of nx nodes from `first` to `last`. */
  function RowVertices(first: Vec3, last: Vec3, nx: nat, mass: real): (r: seq<Vertex>)
    ensures |r| == nx
  {
    seq(nx, col requires 0 <= col < nx => Vertex(Along(first, last, nx, col), mass))
  }

  /** A row of the grid is a row of nodes between the row's extremities. */
  lemma GridRow(done: seq<Cell>, box: Box, d: Dims, mass: real, depth: nat, row: nat)
    ensures GridVertices(done + Cells(depth, row, d.nx), box, d, mass)
            == GridVertices(done, box, d, mass)
               + RowVertices(Along(Along(box.e00.first, box.e00.last, d.nz, depth), Along(box.e01.first, box.e01.last, d.nz, depth), d.ny, row),
                             Along(Along(box.e10.first, box.e10.last, d.nz, depth), Along(box.e11.first, box.e11.last, d.nz, depth), d.ny, row),
                             d.nx, mass)
  {
    CellsShape(depth, row, d.nx);
  }

  /** The column loop of init3D: one mass and one vertex per node of a row. */
  method AddRow(mesh: MassSpring, first: Vec3, last: Vec3, nx: nat, mass: real)
    modifies mesh
    ensures mesh.vertices == old(mesh.vertices) + RowVertices(first, last, nx, mass)
    ensures mesh.masses == old(mesh.masses) + seq(nx, _ => mass)
    ensures mesh.springs == old(mesh.springs) && mesh.elements == old(mesh.elements)
    ensures mesh.boundaryConditions == old(mesh.boundaryConditions)
  {
    for col := 0 to nx
      invariant mesh.vertices == old(mesh.vertices) + RowVertices(first, last, nx, mass)[..col]
      invariant mesh.masses == old(mesh.masses) + seq(col, _ => mass)
      invariant mesh.springs == old(mesh.springs) && mesh.elements == old(mesh.elements)
      invariant mesh.boundaryConditions == old(mesh.boundaryConditions)
    {
      mesh.AddMass(mass);
      mesh.AddVertex(Vertex(Along(first, last, nx, col), mass));
      assert RowVertices(first, last, nx, mass)[..col + 1] == RowVertices(first, last, nx, mass)[..col] + [Vertex(Along(first, last, nx, col), mass)];
    }
    assert RowVertices(first, last, nx, mass)[..nx] == RowVertices(first, last, nx, mass);
  }

  /** The node loop of init3D: one mass and one vertex per node, in id order. */
  method AddNodes(mesh: MassSpring, box: Box, d: Dims, mass: real)
    requires mesh.vertices == [] && mesh.masses == []
    modifies mesh
    ensures mesh.vertices == GridVertices(Iterations(NodeLoops(d)), box, d, mass)
    ensures mesh.masses == seq(|mesh.vertices|, _ => mass)
    ensures mesh.springs == old(mesh.springs) && mesh.elements == old(mesh.elements)
    ensures mesh.boundaryConditions == old(mesh.boundaryConditions)
  {
    ghost var loops := NodeLoops(d);
    ghost var done: seq<Cell> := [];
    for depth := 0 to d.nz
      invariant done == Planes(loops, depth)
      invariant mesh.vertices == GridVertices(done, box, d, mass)
      invariant mesh.masses == seq(|done|, _ => mass)
      invariant mesh.springs == old(mesh.springs) && mesh.elements == old(mesh.elements)
      invariant mesh.boundaryConditions == old(mesh.boundaryConditions)
    {
      var d00 := Along(box.e00.first, box.e00.last, d.nz, depth);
      var d01 := Along(box.e01.first, box.e01.last, d.nz, depth);
      var d10 := Along(box.e10.first, box.e10.last, d.nz, depth);
      var d11 := Along(box.e11.first, box.e11.last, d.nz, depth);
      for row := 0 to d.ny
        invariant done == Planes(loops, depth) + Rows(loops, depth, row)
        invariant mesh.vertices == GridVertices(done, box, d, mass)
        invariant mesh.masses == seq(|done|, _ => mass)
        invariant mesh.springs == old(mesh.springs) && mesh.elements == old(mesh.elements)
        invariant mesh.boundaryConditions == old(mesh.boundaryConditions)
      {
        AddRow(mesh, Along(d00, d01, d.ny, row), Along(d10, d11, d.ny, row), d.nx, mass);
        GridRow(done, box, d, mass, depth, row);
        CellsShape(depth, row, d.nx);
        assert seq(|done|, _ => mass) + seq(d.nx, _ => mass) == seq(|done| + d.nx, _ => mass);
        done := done + Cells(depth, row, d.nx);
      }
    }
  }

  // ---------------------------------------------------------------------------
  // Cube elements

  /** The corners of a cube from its first corner: the four of its front face, then the same
      four one depth further, nx * ny ids on. */
  function CubeCorners(d: Dims): seq<nat> {
    var a := DepthOffset(d);
    [0, 1, d.nx, d.nx + 1, a, a + 1, a + d.nx, a + d.nx + 1]
  }

  /** The corners as written: the back face is taken ny ids on rather than nx * ny. */
  function CubeCornersAsWritten(d: Dims): seq<nat> {
    [0, 1, d.nx, d.nx + 1, d.ny, d.ny + 1, d.ny + d.nx, d.ny + d.nx + 1]
  }

  /** The cube loop nest: one cube per node that has a neighbour along every axis. */
  function CubeLoops(d: Dims): Loops {
    Loops(Monus(d.nz, 1), Monus(d.ny, 1), Monus(d.nx, 1))
  }

  function CubeStrides(d: Dims): Strides {
    Strides(DepthOffset(d), d.nx, 1)
  }

  function Cubes(d: Dims): seq<seq<nat>> {
    GridElements(Iterations(CubeLoops(d)), CubeStrides(d), CubeCorners(d))
  }

  function CubesAsWritten(d: Dims): seq<seq<nat>> {
    GridElements(Iterations(CubeLoops(d)), CubeStrides(d), CubeCornersAsWritten(d))
  }

  /** The node ids of s are strictly increasing, so no node appears twice. */
  predicate Increasing(s: seq<nat>) {
    forall a, b :: 0 <= a < b < |s| ==> s[a] < s[b]
  }

  lemma CornersAtIncreasing(base: nat, corners: seq<nat>)
    requires Increasing(corners)
    ensures Increasing(CornersAt(base, corners))
  {
  }

  /** There is a cube per node with a neighbour along every axis; each cube has eight
      distinct corners, all nodes of the box. */
  lemma CubesShape(d: Dims)
    requires NonEmpty(d)
    ensures |Cubes(d)| == Monus(d.nz, 1) * (Monus(d.ny, 1) * Monus(d.nx, 1))
    ensures forall j :: 0 <= j < |Cubes(d)| ==>
              |Cubes(d)[j]| == 8 && Increasing(Cubes(d)[j]) && Cubes(d)[j][7] < NumNodes(d)
  {
    var loops := CubeLoops(d);
    var cells := Iterations(loops);
    IterationsLength(loops);
    if loops.outer > 0 && loops.middle > 0 && loops.inner > 0 {
      var a := DepthOffset(d);
      LayerAtLeastTwoRows(d);
      assert Increasing(CubeCorners(d));
      LastNode(d);
      MulStep(d.nz - 2, a);
      MulStep(d.ny - 2, d.nx);
      assert LastBase(loops, CubeStrides(d)) + a + d.nx + 1 == NumNodes(d) - 1;
      IterationsInNest(loops);
      forall j | 0 <= j < |cells|
        ensures |Cubes(d)[j]| == 8 && Increasing(Cubes(d)[j]) && Cubes(d)[j][7] < NumNodes(d)
      {
        BaseAtMostLast(loops, CubeStrides(d), cells[j]);
        CornersAtIncreasing(Base(CubeStrides(d), cells[j]), CubeCorners(d));
      }
    }
  }

  /** The first cube as written starts at node 0. */
  lemma FirstCubeAsWritten(d: Dims)
    requires d.nx >= 2 && d.ny >= 2 && d.nz >= 2
    ensures |CubesAsWritten(d)| > 0 && CubesAsWritten(d)[0] == CubeCornersAsWritten(d)
  {
    IterationAt(CubeLoops(d), 0, 0, 0);
  }

  /** With three columns and two rows (and any depth of two or more) the first cube as written names node 3 twice: it is
      both the third corner (one row on) and the sixth (ny = 2 ids on, taken as one depth on). */
  lemma CubeAsWrittenRepeatsNode(d: Dims)
    requires d.nx == 3 && d.ny == 2 && d.nz >= 2
    ensures |CubesAsWritten(d)| > 0
    ensures CubesAsWritten(d)[0][2] == 3 && CubesAsWritten(d)[0][5] == 3
    ensures !Increasing(CubesAsWritten(d)[0])
  {
    FirstCubeAsWritten(d);
    var c := CubesAsWritten(d)[0];
    assert c == [0, 1, 3, 4, 2, 3, 5, 6];
    assert c[2] == c[5];
  }

  /** The element loop of init3D: the cube at each node with a neighbour along every axis. */
  method AddCubes(mesh: MassSpring, d: Dims)
    requires mesh.elements == []
    modifies mesh
    ensures mesh.elements == Cubes(d)
    ensures mesh.vertices == old(mesh.vertices) && mesh.masses == old(mesh.masses)
    ensures mesh.springs == old(mesh.springs) && mesh.boundaryConditions == old(mesh.boundaryConditions)
  {
    ghost var loops := CubeLoops(d);
    ghost var done: seq<Cell> := [];
    var corners := CubeCorners(d);
    for depth := 0 to Monus(d.nz, 1)
      invariant done == Planes(loops, depth)
      invariant mesh.elements == GridElements(done, CubeStrides(d), corners)
      invariant mesh.vertices == old(mesh.vertices) && mesh.masses == old(mesh.masses)
      invariant mesh.springs == old(mesh.springs) && mesh.boundaryConditions == old(mesh.boundaryConditions)
    {
      for row := 0 to Monus(d.ny, 1)
        invariant done == Planes(loops, depth) + Rows(loops, depth, row)
        invariant mesh.elements == GridElements(done, CubeStrides(d), corners)
        invariant mesh.vertices == old(mesh.vertices) && mesh.masses == old(mesh.masses)
        invariant mesh.springs == old(mesh.springs) && mesh.boundaryConditions == old(mesh.boundaryConditions)
      {
        for col := 0 to Monus(d.nx, 1)
          invariant done == Planes(loops, depth) + Rows(loops, depth, row) + Cells(depth, row, col)
          invariant mesh.elements == GridElements(done, CubeStrides(d), corners)
          invariant mesh.vertices == old(mesh.vertices) && mesh.masses == old(mesh.masses)
          invariant mesh.springs == old(mesh.springs) && mesh.boundaryConditions == old(mesh.boundaryConditions)
        {
          var firstCorner := Base(CubeStrides(d), Cell(depth, row, col));
          var count := mesh.AddElement(CornersAt(firstCorner, corners));
          assert GridElements(done + [Cell(depth, row, col)], CubeStrides(d), corners)
                 == GridElements(done, CubeStrides(d), corners) + [CornersAt(firstCorner, corners)];
          done := done + [Cell(depth, row, col)];
        }
      }
    }
  }

  // ---------------------------------------------------------------------------
  // Spring families

  /** Stretching springs join neighbours: along X (depth, row, col loops), along Y (depth,
      col, row) and along Z (row, col, depth). */
  function StretchingNests(d: Dims): seq<Nest> {
    var a := DepthOffset(d);
    [Nest(Loops(d.nz, d.ny, Monus(d.nx, 1)), Strides(a, d.nx, 1), [Offset(0, 1)]),
     Nest(Loops(d.nz, d.nx, Monus(d.ny, 1)), Strides(a, 1, d.nx), [Offset(0, d.nx)]),
     Nest(Loops(d.ny, d.nx, Monus(d.nz, 1)), Strides(d.nx, 1, a), [Offset(0, a)])]
  }

  /** Bending springs join nodes two apart along X, Y and Z. */
  function BendingNests(d: Dims): seq<Nest> {
    var a := DepthOffset(d);
    [Nest(Loops(d.nz, d.ny, Monus(d.nx, 2)), Strides(a, d.nx, 1), [Offset(0, 2)]),
     Nest(Loops(d.nz, d.nx, Monus(d.ny, 2)), Strides(a, 1, d.nx), [Offset(0, 2 * d.nx)]),
     Nest(Loops(d.ny, d.nx, Monus(d.nz, 2)), Strides(d.nx, 1, a), [Offset(0, 2 * a)])]
  }

  /** Face-diagonal springs cross each face of each cube both ways: the faces orthogonal to
      Z (depth, row, col loops), to Y (row, depth, col) and to X (col, row, depth). */
  function FaceDiagonalNests(d: Dims): seq<Nest> {
    var a := DepthOffset(d);
    [Nest(Loops(d.nz, Monus(d.ny, 1), Monus(d.nx, 1)), Strides(a, d.nx, 1), [Offset(0, d.nx + 1), Offset(1, d.nx)]),
     Nest(Loops(d.ny, Monus(d.nz, 1), Monus(d.nx, 1)), Strides(d.nx, a, 1), [Offset(0, a + 1), Offset(1, a)]),
     Nest(Loops(d.nx, Monus(d.ny, 1), Monus(d.nz, 1)), Strides(1, d.nx, a), [Offset(0, a + d.nx), Offset(d.nx, a)])]
  }

  /** Volume-diagonal springs join the four pairs of opposite corners of each cube (col, row,
      depth loops). */
  function VolumeDiagonalNests(d: Dims): seq<Nest> {
    var a := DepthOffset(d);
    [Nest(Loops(Monus(d.nx, 1), Monus(d.ny, 1), Monus(d.nz, 1)), Strides(1, d.nx, a),
          [Offset(0, a + d.nx + 1), Offset(1, a + d.nx), Offset(d.nx, a + 1), Offset(d.nx + 1, a)])]
  }

  lemma StretchingFits(d: Dims)
    requires NonEmpty(d)
    ensures forall k :: 0 <= k < |StretchingNests(d)| ==> Fits(StretchingNests(d)[k], NumNodes(d))
  {
    var nests := StretchingNests(d);
    LastNode(d);
    if d.ny >= 2 {
      MulStep(d.ny - 2, d.nx);
    }
    if d.nz >= 2 {
      MulStep(d.nz - 2, DepthOffset(d));
    }
    assert Fits(nests[0], NumNodes(d)) && Fits(nests[1], NumNodes(d)) && Fits(nests[2], NumNodes(d));
  }

  lemma BendingFits(d: Dims)
    requires NonEmpty(d)
    ensures forall k :: 0 <= k < |BendingNests(d)| ==> Fits(BendingNests(d)[k], NumNodes(d))
  {
    var nests := BendingNests(d);
    LastNode(d);
    if d.ny >= 3 {
      MulStep(d.ny - 3, d.nx);
      MulStep(d.ny - 2, d.nx);
    }
    if d.nz >= 3 {
      MulStep(d.nz - 3, DepthOffset(d));
      MulStep(d.nz - 2, DepthOffset(d));
    }
    assert Fits(nests[0], NumNodes(d)) && Fits(nests[1], NumNodes(d)) && Fits(nests[2], NumNodes(d));
  }

  lemma FaceDiagonalFits(d: Dims)
    requires NonEmpty(d)
    ensures forall k :: 0 <= k < |FaceDiagonalNests(d)| ==> Fits(FaceDiagonalNests(d)[k], NumNodes(d))
  {
    var nests := FaceDiagonalNests(d);
    LastNode(d);
    if d.ny >= 2 {
      MulStep(d.ny - 2, d.nx);
      LayerAtLeastTwoRows(d);
    }
    if d.nz >= 2 {
      MulStep(d.nz - 2, DepthOffset(d));
    }
    assert Fits(nests[0], NumNodes(d));
    assert Fits(nests[1], NumNodes(d));
    assert Fits(nests[2], NumNodes(d));
  }

  lemma VolumeDiagonalFits(d: Dims)
    requires NonEmpty(d)
    ensures forall k :: 0 <= k < |VolumeDiagonalNests(d)| ==> Fits(VolumeDiagonalNests(d)[k], NumNodes(d))
  {
    LastNode(d);
    if d.ny >= 2 {
      MulStep(d.ny - 2, d.nx);
      LayerAtLeastTwoRows(d);
    }
    if d.nz >= 2 {
      MulStep(d.nz - 2, DepthOffset(d));
    }
    assert Fits(VolumeDiagonalNests(d)[0], NumNodes(d));
  }

  /** The stretching springs join neighbouring nodes of the box: nz * ny * (nx - 1) along X,
      nz * nx * (ny - 1) along Y and ny * nx * (nz - 1) along Z. */
  lemma StretchingShape(d: Dims, stiffness: real, damping: real)
    requires NonEmpty(d)
    ensures Joins(FamilySprings(StretchingNests(d), stiffness, damping), stiffness, damping, NumNodes(d))
    ensures |FamilySprings(StretchingNests(d), stiffness, damping)|
            == if Enabled(stiffness, damping)
               then d.nz * (d.ny * Monus(d.nx, 1)) + d.nz * (d.nx * Monus(d.ny, 1)) + d.ny * (d.nx * Monus(d.nz, 1))
               else 0
  {
    var nests := StretchingNests(d);
    StretchingFits(d);
    FamilyShape(nests, stiffness, damping, NumNodes(d));
    NestsSizeOfThree(nests[0], nests[1], nests[2]);
    assert nests == [nests[0], nests[1], nests[2]];
  }

  /** The bending springs join nodes two apart: nz * ny * (nx - 2) along X, nz * nx * (ny - 2)
      along Y and ny * nx * (nz - 2) along Z, none along an axis of fewer than three nodes. */
  lemma BendingShape(d: Dims, stiffness: real, damping: real)
    requires NonEmpty(d)
    ensures Joins(FamilySprings(BendingNests(d), stiffness, damping), stiffness, damping, NumNodes(d))
    ensures |FamilySprings(BendingNests(d), stiffness, damping)|
            == if Enabled(stiffness, damping)
               then d.nz * (d.ny * Monus(d.nx, 2)) + d.nz * (d.nx * Monus(d.ny, 2)) + d.ny * (d.nx * Monus(d.nz, 2))
               else 0
  {
    var nests := BendingNests(d);
    BendingFits(d);
    FamilyShape(nests, stiffness, damping, NumNodes(d));
    NestsSizeOfThree(nests[0], nests[1], nests[2]);
    assert nests == [nests[0], nests[1], nests[2]];
  }

  /** Two face-diagonal springs per face of each cube: the faces orthogonal to Z, to Y and to X. */
  lemma FaceDiagonalShape(d: Dims, stiffness: real, damping: real)
    requires NonEmpty(d)
    ensures Joins(FamilySprings(FaceDiagonalNests(d), stiffness, damping), stiffness, damping, NumNodes(d))
    ensures |FamilySprings(FaceDiagonalNests(d), stiffness, damping)|
            == if Enabled(stiffness, damping)
               then d.nz * (Monus(d.ny, 1) * Monus(d.nx, 1)) * 2 + d.ny * (Monus(d.nz, 1) * Monus(d.nx, 1)) * 2
                    + d.nx * (Monus(d.ny, 1) * Monus(d.nz, 1)) * 2
               else 0
  {
    var nests := FaceDiagonalNests(d);
    FaceDiagonalFits(d);
    FamilyShape(nests, stiffness, damping, NumNodes(d));
    NestsSizeOfThree(nests[0], nests[1], nests[2]);
    assert nests == [nests[0], nests[1], nests[2]];
  }

  /** Four volume-diagonal springs per cube. */
  lemma VolumeDiagonalShape(d: Dims, stiffness: real, damping: real)
    requires NonEmpty(d)
    ensures Joins(FamilySprings(VolumeDiagonalNests(d), stiffness, damping), stiffness, damping, NumNodes(d))
    ensures |FamilySprings(VolumeDiagonalNests(d), stiffness, damping)|
            == if Enabled(stiffness, damping) then Monus(d.nx, 1) * (Monus(d.ny, 1) * Monus(d.nz, 1)) * 4 else 0
  {
    var nests := VolumeDiagonalNests(d);
    VolumeDiagonalFits(d);
    FamilyShape(nests, stiffness, damping, NumNodes(d));
    assert nests[..0] == [];
  }

  // ---------------------------------------------------------------------------
  // init3D

  /** The four spring families of init3D, in order. */
  function BoxSprings(d: Dims, stiffnessStretching: real, dampingStretching: real,
                      stiffnessBending: real, dampingBending: real,
                      stiffnessFaceDiagonal: real, dampingFaceDiagonal: real,
                      stiffnessVolumeDiagonal: real, dampingVolumeDiagonal: real): seq<Spring> {
    FamilySprings(StretchingNests(d), stiffnessStretching, dampingStretching)
    + FamilySprings(BendingNests(d), stiffnessBending, dampingBending)
    + FamilySprings(FaceDiagonalNests(d), stiffnessFaceDiagonal, dampingFaceDiagonal)
    + FamilySprings(VolumeDiagonalNests(d), stiffnessVolumeDiagonal, dampingVolumeDiagonal)
  }

  /** The spring calls of init3D: each family in turn adds its springs to the mesh. */
  method AddBoxSprings(mesh: MassSpring, d: Dims, stiffnessStretching: real, dampingStretching: real,
                       stiffnessBending: real, dampingBending: real,
                       stiffnessFaceDiagonal: real, dampingFaceDiagonal: real,
                       stiffnessVolumeDiagonal: real, dampingVolumeDiagonal: real)
    modifies mesh
    ensures mesh.springs == old(mesh.springs)
            + BoxSprings(d, stiffnessStretching, dampingStretching, stiffnessBending, dampingBending,
                         stiffnessFaceDiagonal, dampingFaceDiagonal, stiffnessVolumeDiagonal, dampingVolumeDiagonal)
    ensures mesh.vertices == old(mesh.vertices) && mesh.masses == old(mesh.masses)
    ensures mesh.elements == old(mesh.elements) && mesh.boundaryConditions == old(mesh.boundaryConditions)
  {
    ghost var before := mesh.springs;
    ghost var stretching := FamilySprings(StretchingNests(d), stiffnessStretching, dampingStretching);
    ghost var bending := FamilySprings(BendingNests(d), stiffnessBending, dampingBending);
    ghost var faceDiagonal := FamilySprings(FaceDiagonalNests(d), stiffnessFaceDiagonal, dampingFaceDiagonal);
    ghost var volumeDiagonal := FamilySprings(VolumeDiagonalNests(d), stiffnessVolumeDiagonal, dampingVolumeDiagonal);
    AddFamily(mesh, StretchingNests(d), stiffnessStretching, dampingStretching);
    AddFamily(mesh, BendingNests(d), stiffnessBending, dampingBending);
    AddFamily(mesh, FaceDiagonalNests(d), stiffnessFaceDiagonal, dampingFaceDiagonal);
    AddFamily(mesh, VolumeDiagonalNests(d), stiffnessVolumeDiagonal, dampingVolumeDiagonal);
    AppendFamilies(before, stretching, bending, faceDiagonal, volumeDiagonal);
  }

  /** Appending the families one at a time appends their concatenation. */
  lemma AppendFamilies(before: seq<Spring>, a: seq<Spring>, b: seq<Spring>, c: seq<Spring>, e: seq<Spring>)
    ensures before + a + b + c + e == before + (a + b + c + e)
  {
    assert before + a + b == before + (a + b);
    assert before + (a + b) + c == before + (a + b + c);
    assert before + (a + b + c) + e == before + (a + b + c + e);
  }

  /** init3D: a new mesh whose nodes fill the box evenly, each with an equal share of the
      total mass, whose elements are the cubes between neighbouring nodes, whose springs are
      the stretching, bending, face-diagonal and volume-diagonal families in that order, and
      whose boundary conditions are the given node ids; the representation then takes the mesh. */
  method Init3D(representation: MassSpringRepresentation, box: Box, d: Dims, boundaryConditions: seq<nat>,
                totalMass: real, stiffnessStretching: real, dampingStretching: real,
                stiffnessBending: real, dampingBending: real,
                stiffnessFaceDiagonal: real, dampingFaceDiagonal: real,
                stiffnessVolumeDiagonal: real, dampingVolumeDiagonal: real)
    requires NonEmpty(d)
    requires !representation.initialized
    modifies representation
    ensures fresh(representation.mesh)
    ensures representation.mesh.vertices
            == GridVertices(Iterations(NodeLoops(d)), box, d, totalMass / (NumNodes(d) as real))
    ensures representation.mesh.masses == seq(NumNodes(d), _ => totalMass / (NumNodes(d) as real))
    ensures representation.mesh.elements == Cubes(d)
    ensures representation.mesh.springs
            == BoxSprings(d, stiffnessStretching, dampingStretching, stiffnessBending, dampingBending,
                          stiffnessFaceDiagonal, dampingFaceDiagonal, stiffnessVolumeDiagonal, dampingVolumeDiagonal)
    ensures representation.mesh.boundaryConditions == boundaryConditions
    ensures representation.masses == old(representation.masses) + representation.mesh.masses
    ensures representation.springs == old(representation.springs) + representation.mesh.springs
    ensures representation.numDof == NumDofPerNode * NumNodes(d)
  {
    var mesh := new MassSpring(MassSpringAsset);
    var numNodes := NumNodes(d);
    AddNodes(mesh, box, d, totalMass / (numNodes as real));
    AddCubes(mesh, d);
    AddBoxSprings(mesh, d, stiffnessStretching, dampingStretching, stiffnessBending, dampingBending,
                  stiffnessFaceDiagonal, dampingFaceDiagonal, stiffnessVolumeDiagonal, dampingVolumeDiagonal);
    AddBoundaryConditions(mesh, boundaryConditions);
    NodeCount(d);
    assert mesh.masses[..|mesh.vertices|] == mesh.masses;
    representation.SetMassSpring(mesh);
  }
}
