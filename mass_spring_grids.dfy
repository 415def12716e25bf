// The node grids the 1D, 2D and 3D mass-spring generators lay out. A generator walks its
// grid with a triple loop nest; each iteration has a base node id, the sum of its loop
// counters times their node-id strides, and adds springs (or an element) between fixed node
// offsets from that base.
module MassSpringGrids {
  import opened Vectors
  import opened MassSprings
  import opened MassSpringRepresentations

  /** The bounds of a triple loop nest, outermost first. */
  datatype Loops = Loops(outer: nat, middle: nat, inner: nat)

  /** How far the node id moves for one step of each loop of the nest. */
  datatype Strides = Strides(outer: nat, middle: nat, inner: nat)

  /** One iteration of a loop nest: the values of its three counters. */
  datatype Cell = Cell(outer: nat, middle: nat, inner: nat)

  /** A spring between two node offsets from an iteration's base node. */
  datatype Offset = Offset(from: nat, to: nat)

  /** Two extremities of a row of evenly spaced nodes. */
  datatype Edge = Edge(first: Vec3, last: Vec3)

  /** The 2^64 modulus of a size_t. */
  const SizeModulus: nat := 0x1_0000_0000_0000_0000

  /** n - k on an unsigned 64-bit size, which wraps below zero. */
  function SizeSub(n: nat, k: nat): nat
    requires n < SizeModulus && k < SizeModulus
  {
    (n - k) % SizeModulus
  }

  /** The wrapped difference is the true one from k on, and close to 2^64 below it. */
  lemma SizeSubValue(n: nat, k: nat)
    requires n < SizeModulus && k < SizeModulus
    ensures n >= k ==> SizeSub(n, k) == n - k
    ensures n < k ==> SizeSub(n, k) == SizeModulus + n - k
  {
    if n < k {
      assert n - k + SizeModulus == SizeModulus + n - k;
    }
  }

  /** n - k where it is non-negative and 0 otherwise: the number of node pairs k apart on a
      row of n nodes. */
  function Monus(n: nat, k: nat): nat {
    if n >= k then n - k else 0
  }

  // ---------------------------------------------------------------------------
  // Loop nests

  /** The first k iterations of the innermost loop at outer counter o and middle counter m. */
  function Cells(o: nat, m: nat, k: nat): seq<Cell> {
    if k == 0 then [] else Cells(o, m, k - 1) + [Cell(o, m, k - 1)]
  }

  /** The first k passes of the middle loop at outer counter o. */
  function Rows(loops: Loops, o: nat, k: nat): seq<Cell> {
    if k == 0 then [] else Rows(loops, o, k - 1) + Cells(o, k - 1, loops.inner)
  }

  /** The first k passes of the outer loop. */
  function Planes(loops: Loops, k: nat): seq<Cell> {
    if k == 0 then [] else Planes(loops, k - 1) + Rows(loops, k - 1, loops.middle)
  }

  /** The iterations of the whole nest, in the order they run. */
  function Iterations(loops: Loops): seq<Cell> {
    Planes(loops, loops.outer)
  }

  /** An iteration's counters are within the loops' bounds. */
  predicate InNest(loops: Loops, c: Cell) {
    c.outer < loops.outer && c.middle < loops.middle && c.inner < loops.inner
  }

  lemma {:induction false} CellsShape(o: nat, m: nat, k: nat)
    ensures |Cells(o, m, k)| == k
    ensures forall j :: 0 <= j < k ==> Cells(o, m, k)[j] == Cell(o, m, j)
  {
    if k > 0 {
      CellsShape(o, m, k - 1);
    }
  }

  lemma MulStep(k: nat, b: nat)
    ensures (k + 1) * b == k * b + b
  {
  }

  lemma MulMonotone(a: nat, b: nat, c: nat)
    requires a <= b
    ensures a * c <= b * c
  {
  }

  lemma {:induction false} RowsLength(loops: Loops, o: nat, k: nat)
    ensures |Rows(loops, o, k)| == k * loops.inner
  {
    if k > 0 {
      RowsLength(loops, o, k - 1);
      CellsShape(o, k - 1, loops.inner);
      MulStep(k - 1, loops.inner);
    }
  }

  lemma {:induction false} PlanesLength(loops: Loops, k: nat)
    ensures |Planes(loops, k)| == k * (loops.middle * loops.inner)
  {
    if k > 0 {
      PlanesLength(loops, k - 1);
      RowsLength(loops, k - 1, loops.middle);
      MulStep(k - 1, loops.middle * loops.inner);
    }
  }

  /** Iteration (o, m, i) follows the first m passes of the middle loop. */
  lemma {:induction false} RowsAt(loops: Loops, o: nat, k: nat, m: nat, i: nat)
    requires m < k && i < loops.inner
    ensures |Rows(loops, o, m)| + i < |Rows(loops, o, k)|
    ensures Rows(loops, o, k)[|Rows(loops, o, m)| + i] == Cell(o, m, i)
  {
    CellsShape(o, k - 1, loops.inner);
    if m < k - 1 {
      RowsAt(loops, o, k - 1, m, i);
    }
  }

  /** Iteration (o, m, i) follows the first o passes of the outer loop. */
  lemma {:induction false} PlanesAt(loops: Loops, k: nat, o: nat, m: nat, i: nat)
    requires o < k && m < loops.middle && i < loops.inner
    ensures |Planes(loops, o)| + |Rows(loops, o, m)| + i < |Planes(loops, k)|
    ensures Planes(loops, k)[|Planes(loops, o)| + |Rows(loops, o, m)| + i] == Cell(o, m, i)
  {
    RowsAt(loops, k - 1, loops.middle, m, i);
    if o < k - 1 {
      PlanesAt(loops, k - 1, o, m, i);
    }
  }

  /** The counters run in lexicographic order: iteration (o, m, i) runs as number
      o * (middle * inner) + m * inner + i. */
  lemma IterationAt(loops: Loops, o: nat, m: nat, i: nat)
    requires o < loops.outer && m < loops.middle && i < loops.inner
    ensures o * (loops.middle * loops.inner) + m * loops.inner + i < |Iterations(loops)|
    ensures Iterations(loops)[o * (loops.middle * loops.inner) + m * loops.inner + i] == Cell(o, m, i)
  {
    PlanesLength(loops, o);
    RowsLength(loops, o, m);
    PlanesAt(loops, loops.outer, o, m, i);
  }

  /** The nest runs outer * middle * inner iterations. */
  lemma IterationsLength(loops: Loops)
    ensures |Iterations(loops)| == loops.outer * (loops.middle * loops.inner)
  {
    PlanesLength(loops, loops.outer);
  }

  lemma {:induction false} CellsInNest(loops: Loops, o: nat, m: nat, k: nat)
    requires o < loops.outer && m < loops.middle && k <= loops.inner
    ensures forall j :: 0 <= j < |Cells(o, m, k)| ==> InNest(loops, Cells(o, m, k)[j])
  {
    if k > 0 {
      CellsInNest(loops, o, m, k - 1);
    }
  }

  lemma {:induction false} RowsInNest(loops: Loops, o: nat, k: nat)
    requires o < loops.outer && k <= loops.middle
    ensures forall j :: 0 <= j < |Rows(loops, o, k)| ==> InNest(loops, Rows(loops, o, k)[j])
  {
    if k > 0 {
      RowsInNest(loops, o, k - 1);
      CellsInNest(loops, o, k - 1, loops.inner);
    }
  }

  lemma {:induction false} PlanesInNest(loops: Loops, k: nat)
    requires k <= loops.outer
    ensures forall j :: 0 <= j < |Planes(loops, k)| ==> InNest(loops, Planes(loops, k)[j])
  {
    if k > 0 {
      PlanesInNest(loops, k - 1);
      RowsInNest(loops, k - 1, loops.middle);
    }
  }

  /** Every iteration of the nest has its counters within the loops' bounds. */
  lemma IterationsInNest(loops: Loops)
    ensures forall j :: 0 <= j < |Iterations(loops)| ==> InNest(loops, Iterations(loops)[j])
  {
    PlanesInNest(loops, loops.outer);
  }

  // ---------------------------------------------------------------------------
  // Base node ids

  /** The node id of an iteration: each counter times its stride. */
  function Base(strides: Strides, c: Cell): nat {
    c.outer * strides.outer + c.middle * strides.middle + c.inner * strides.inner
  }

  /** The base node id of the last iteration of a non-empty nest. */
  function LastBase(loops: Loops, strides: Strides): int {
    (loops.outer - 1) * strides.outer + (loops.middle - 1) * strides.middle + (loops.inner - 1) * strides.inner
  }

  /** No iteration has a larger base node id than the last. */
  lemma BaseAtMostLast(loops: Loops, strides: Strides, c: Cell)
    requires InNest(loops, c)
    ensures Base(strides, c) <= LastBase(loops, strides)
  {
    MulMonotone(c.outer, loops.outer - 1, strides.outer);
    MulMonotone(c.middle, loops.middle - 1, strides.middle);
    MulMonotone(c.inner, loops.inner - 1, strides.inner);
  }

  // ---------------------------------------------------------------------------
  // Springs

  /** A spring family is built only when its stiffness or its damping is non-zero. */
  predicate Enabled(stiffness: real, damping: real) {
    stiffness != 0.0 || damping != 0.0
  }

  /** The springs of a stencil at one base node, in stencil order. */
  function StencilAt(base: nat, stencil: seq<Offset>, stiffness: real, damping: real): (r: seq<Spring>)
    ensures |r| == |stencil|
  {
    seq(|stencil|, k requires 0 <= k < |stencil| =>
      LinearSpring(base + stencil[k].from, base + stencil[k].to, stiffness, damping))
  }

  /** The springs a loop nest adds: the stencil at each iteration's base node, in order. */
  function GridSprings(cells: seq<Cell>, strides: Strides, stencil: seq<Offset>, stiffness: real, damping: real): seq<Spring> {
    if |cells| == 0 then []
    else GridSprings(cells[..|cells| - 1], strides, stencil, stiffness, damping)
         + StencilAt(Base(strides, cells[|cells| - 1]), stencil, stiffness, damping)
  }

  /** The springs of a whole nest. */
  function NestSpringsOf(loops: Loops, strides: Strides, stencil: seq<Offset>, stiffness: real, damping: real): seq<Spring> {
    GridSprings(Iterations(loops), strides, stencil, stiffness, damping)
  }

  lemma {:induction false} GridSpringsConcat(a: seq<Cell>, b: seq<Cell>, strides: Strides, stencil: seq<Offset>,
                                             stiffness: real, damping: real)
    ensures GridSprings(a + b, strides, stencil, stiffness, damping)
            == GridSprings(a, strides, stencil, stiffness, damping) + GridSprings(b, strides, stencil, stiffness, damping)
    decreases |b|
  {
    if |b| == 0 {
      assert a + b == a;
    } else {
      assert (a + b)[..|a + b| - 1] == a + b[..|b| - 1];
      GridSpringsConcat(a, b[..|b| - 1], strides, stencil, stiffness, damping);
    }
  }

  lemma GridSpringsSnoc(cells: seq<Cell>, c: Cell, strides: Strides, stencil: seq<Offset>, stiffness: real, damping: real)
    ensures GridSprings(cells + [c], strides, stencil, stiffness, damping)
            == GridSprings(cells, strides, stencil, stiffness, damping) + StencilAt(Base(strides, c), stencil, stiffness, damping)
  {
    assert (cells + [c])[..|cells|] == cells;
  }

  /** Each iteration adds one spring per stencil entry. */
  lemma {:induction false} GridSpringsLength(cells: seq<Cell>, strides: Strides, stencil: seq<Offset>,
                                             stiffness: real, damping: real)
    ensures |GridSprings(cells, strides, stencil, stiffness, damping)| == |cells| * |stencil|
  {
    if |cells| > 0 {
      GridSpringsLength(cells[..|cells| - 1], strides, stencil, stiffness, damping);
      MulStep(|cells| - 1, |stencil|);
    }
  }

  /** Every spring is a linear spring with the given stiffness and damping that joins two
      distinct node ids below numNodes. */
  predicate Joins(springs: seq<Spring>, stiffness: real, damping: real, numNodes: nat) {
    forall k :: 0 <= k < |springs| ==>
      springs[k].LinearSpring? && springs[k].node0 < numNodes && springs[k].node1 < numNodes
      && springs[k].node0 != springs[k].node1
      && springs[k].stiffness == stiffness && springs[k].damping == damping
  }

  lemma JoinsConcat(a: seq<Spring>, b: seq<Spring>, stiffness: real, damping: real, numNodes: nat)
    requires Joins(a, stiffness, damping, numNodes) && Joins(b, stiffness, damping, numNodes)
    ensures Joins(a + b, stiffness, damping, numNodes)
  {
    forall k | 0 <= k < |a + b|
      ensures (a + b)[k] == if k < |a| then a[k] else b[k - |a|]
    {
    }
  }

  /** A stencil reaches below numNodes from every base up to `last`. */
  predicate StencilFits(stencil: seq<Offset>, last: int, numNodes: nat) {
    forall k :: 0 <= k < |stencil| ==>
      stencil[k].from != stencil[k].to && last + stencil[k].from < numNodes && last + stencil[k].to < numNodes
  }

  lemma {:induction false} GridSpringsJoin(cells: seq<Cell>, strides: Strides, stencil: seq<Offset>,
                                           stiffness: real, damping: real, last: int, numNodes: nat)
    requires forall j :: 0 <= j < |cells| ==> Base(strides, cells[j]) <= last
    requires StencilFits(stencil, last, numNodes)
    ensures Joins(GridSprings(cells, strides, stencil, stiffness, damping), stiffness, damping, numNodes)
  {
    if |cells| > 0 {
      GridSpringsJoin(cells[..|cells| - 1], strides, stencil, stiffness, damping, last, numNodes);
    }
  }

  /** The springs of a nest number one per stencil entry and iteration, and when the stencil
      fits from the last base node every one joins two distinct nodes below numNodes. */
  lemma NestSpringsShape(loops: Loops, strides: Strides, stencil: seq<Offset>, stiffness: real, damping: real,
                         numNodes: nat)
    requires loops.outer == 0 || loops.middle == 0 || loops.inner == 0
             || StencilFits(stencil, LastBase(loops, strides), numNodes)
    ensures |NestSpringsOf(loops, strides, stencil, stiffness, damping)|
            == loops.outer * (loops.middle * loops.inner) * |stencil|
    ensures Joins(NestSpringsOf(loops, strides, stencil, stiffness, damping), stiffness, damping, numNodes)
  {
    var cells := Iterations(loops);
    IterationsLength(loops);
    GridSpringsLength(cells, strides, stencil, stiffness, damping);
    if loops.outer == 0 || loops.middle == 0 || loops.inner == 0 {
      assert |cells| == 0;
    } else {
      IterationsInNest(loops);
      forall j | 0 <= j < |cells|
        ensures Base(strides, cells[j]) <= LastBase(loops, strides)
      {
        BaseAtMostLast(loops, strides, cells[j]);
      }
      GridSpringsJoin(cells, strides, stencil, stiffness, damping, LastBase(loops, strides), numNodes);
    }
  }

  /** A generator's triple loop adding a stencil's springs at every iteration: the counters
      run over the loops' bounds, innermost fastest. */
  method NestSprings(loops: Loops, strides: Strides, stencil: seq<Offset>, stiffness: real, damping: real)
      returns (springs: seq<Spring>)
    ensures springs == NestSpringsOf(loops, strides, stencil, stiffness, damping)
  {
    springs := [];
    ghost var done: seq<Cell> := [];
    for o := 0 to loops.outer
      invariant done == Planes(loops, o)
      invariant springs == GridSprings(done, strides, stencil, stiffness, damping)
    {
      for m := 0 to loops.middle
        invariant done == Planes(loops, o) + Rows(loops, o, m)
        invariant springs == GridSprings(done, strides, stencil, stiffness, damping)
      {
        for i := 0 to loops.inner
          invariant done == Planes(loops, o) + Rows(loops, o, m) + Cells(o, m, i)
          invariant springs == GridSprings(done, strides, stencil, stiffness, damping)
        {
          var nodeId := Base(strides, Cell(o, m, i));
          GridSpringsSnoc(done, Cell(o, m, i), strides, stencil, stiffness, damping);
          springs := springs + StencilAt(nodeId, stencil, stiffness, damping);
          done := done + [Cell(o, m, i)];
        }
      }
    }
  }

  // ---------------------------------------------------------------------------
  // Spring families

  /** One loop nest of a spring family: its bounds, its node-id strides and its stencil. */
  datatype Nest = Nest(loops: Loops, strides: Strides, stencil: seq<Offset>)

  /** The springs of a family's nests, one nest after the other. */
  function NestsSprings(nests: seq<Nest>, stiffness: real, damping: real): seq<Spring> {
    if |nests| == 0 then []
    else
      var last := nests[|nests| - 1];
      NestsSprings(nests[..|nests| - 1], stiffness, damping)
      + NestSpringsOf(last.loops, last.strides, last.stencil, stiffness, damping)
  }

  /** A family adds its nests' springs only when it is enabled. */
  function FamilySprings(nests: seq<Nest>, stiffness: real, damping: real): seq<Spring> {
    if Enabled(stiffness, damping) then NestsSprings(nests, stiffness, damping) else []
  }

  /** The number of springs a nest adds. */
  function NestSize(nest: Nest): nat {
    nest.loops.outer * (nest.loops.middle * nest.loops.inner) * |nest.stencil|
  }

  function NestsSize(nests: seq<Nest>): nat {
    if |nests| == 0 then 0 else NestsSize(nests[..|nests| - 1]) + NestSize(nests[|nests| - 1])
  }

  lemma NestsSizeOfThree(a: Nest, b: Nest, c: Nest)
    ensures NestsSize([a, b, c]) == NestSize(a) + NestSize(b) + NestSize(c)
  {
    var s1, s2, s3 := [a], [a, b], [a, b, c];
    assert s3[..2] == s2 && s2[..1] == s1 && s1[..0] == [];
    assert NestsSize(s1) == NestSize(a);
    assert NestsSize(s2) == NestsSize(s1) + NestSize(b);
    assert NestsSize(s3) == NestsSize(s2) + NestSize(c);
  }

  /** A nest is empty or its stencil fits from its last base node. */
  predicate Fits(nest: Nest, numNodes: nat) {
    nest.loops.outer == 0 || nest.loops.middle == 0 || nest.loops.inner == 0
    || StencilFits(nest.stencil, LastBase(nest.loops, nest.strides), numNodes)
  }

  /** When every nest fits, the family's springs number the nests' sizes added up and each
      joins two distinct nodes below numNodes. */
  lemma {:induction false} NestsShape(nests: seq<Nest>, stiffness: real, damping: real, numNodes: nat)
    requires forall k :: 0 <= k < |nests| ==> Fits(nests[k], numNodes)
    ensures |NestsSprings(nests, stiffness, damping)| == NestsSize(nests)
    ensures Joins(NestsSprings(nests, stiffness, damping), stiffness, damping, numNodes)
  {
    if |nests| > 0 {
      var last := nests[|nests| - 1];
      NestsShape(nests[..|nests| - 1], stiffness, damping, numNodes);
      NestSpringsShape(last.loops, last.strides, last.stencil, stiffness, damping, numNodes);
      JoinsConcat(NestsSprings(nests[..|nests| - 1], stiffness, damping),
                  NestSpringsOf(last.loops, last.strides, last.stencil, stiffness, damping),
                  stiffness, damping, numNodes);
    }
  }

  /** An enabled family whose nests all fit adds the nests' sizes in springs, each joining two
      distinct nodes below numNodes; a disabled family adds none. */
  lemma FamilyShape(nests: seq<Nest>, stiffness: real, damping: real, numNodes: nat)
    requires forall k :: 0 <= k < |nests| ==> Fits(nests[k], numNodes)
    ensures |FamilySprings(nests, stiffness, damping)| == if Enabled(stiffness, damping) then NestsSize(nests) else 0
    ensures Joins(FamilySprings(nests, stiffness, damping), stiffness, damping, numNodes)
  {
    NestsShape(nests, stiffness, damping, numNodes);
  }

  /** A generator's spring family: when enabled, each nest in turn adds its springs to the
      mesh. */
  method AddFamily(mesh: MassSpring, nests: seq<Nest>, stiffness: real, damping: real)
    modifies mesh
    ensures mesh.springs == old(mesh.springs) + FamilySprings(nests, stiffness, damping)
    ensures mesh.vertices == old(mesh.vertices) && mesh.masses == old(mesh.masses)
    ensures mesh.elements == old(mesh.elements) && mesh.boundaryConditions == old(mesh.boundaryConditions)
  {
    if Enabled(stiffness, damping) {
      for k := 0 to |nests|
        invariant mesh.springs == old(mesh.springs) + NestsSprings(nests[..k], stiffness, damping)
        invariant mesh.vertices == old(mesh.vertices) && mesh.masses == old(mesh.masses)
        invariant mesh.elements == old(mesh.elements) && mesh.boundaryConditions == old(mesh.boundaryConditions)
      {
        assert nests[..k + 1][..k] == nests[..k];
        var springs := NestSprings(nests[k].loops, nests[k].strides, nests[k].stencil, stiffness, damping);
        AddSprings(mesh, springs);
      }
      assert nests[..|nests|] == nests;
    }
  }

  // ---------------------------------------------------------------------------
  // Elements

  /** The element a stencil of node offsets makes at one base node. */
  function CornersAt(base: nat, corners: seq<nat>): (r: seq<nat>)
    ensures |r| == |corners|
  {
    seq(|corners|, k requires 0 <= k < |corners| => base + corners[k])
  }

  /** The elements a loop nest adds: one per iteration, in order. */
  function GridElements(cells: seq<Cell>, strides: Strides, corners: seq<nat>): (r: seq<seq<nat>>)
    ensures |r| == |cells|
  {
    seq(|cells|, j requires 0 <= j < |cells| => CornersAt(Base(strides, cells[j]), corners))
  }

  /** Each spring of a family handed to the mesh's addSpring, in order. */
  method AddSprings(mesh: MassSpring, springs: seq<Spring>)
    modifies mesh
    ensures mesh.springs == old(mesh.springs) + springs
    ensures mesh.vertices == old(mesh.vertices) && mesh.masses == old(mesh.masses)
    ensures mesh.elements == old(mesh.elements) && mesh.boundaryConditions == old(mesh.boundaryConditions)
  {
    for k := 0 to |springs|
      invariant mesh.springs == old(mesh.springs) + springs[..k]
      invariant mesh.vertices == old(mesh.vertices) && mesh.masses == old(mesh.masses)
      invariant mesh.elements == old(mesh.elements) && mesh.boundaryConditions == old(mesh.boundaryConditions)
    {
      assert springs[..k + 1] == springs[..k] + [springs[k]];
      mesh.AddSpring(springs[k]);
    }
    assert springs[..|springs|] == springs;
  }

  /** The boundary-condition loop of the generators: each node id appended in order. */
  method AddBoundaryConditions(mesh: MassSpring, boundaryConditions: seq<nat>)
    modifies mesh
    ensures mesh.boundaryConditions == old(mesh.boundaryConditions) + boundaryConditions
    ensures mesh.vertices == old(mesh.vertices) && mesh.masses == old(mesh.masses)
    ensures mesh.springs == old(mesh.springs) && mesh.elements == old(mesh.elements)
  {
    for k := 0 to |boundaryConditions|
      invariant mesh.boundaryConditions == old(mesh.boundaryConditions) + boundaryConditions[..k]
      invariant mesh.vertices == old(mesh.vertices) && mesh.masses == old(mesh.masses)
      invariant mesh.springs == old(mesh.springs) && mesh.elements == old(mesh.elements)
    {
      assert boundaryConditions[..k + 1] == boundaryConditions[..k] + [boundaryConditions[k]];
      var id := mesh.AddBoundaryCondition(boundaryConditions[k]);
    }
    assert boundaryConditions[..|boundaryConditions|] == boundaryConditions;
  }

  // ---------------------------------------------------------------------------
  // Node positions and masses

  /** Node k of n evenly spaced from `a` to `b`: the first extremity plus k times the spacing
      (b - a) / (n - 1). A row of one node has no spacing; the model keeps that node at `a`. */
  function Along(a: Vec3, b: Vec3, n: nat, k: nat): Vec3 {
    if n > 1 then Add(a, Scale(Scale(Sub(b, a), 1.0 / ((n - 1) as real)), k as real)) else a
  }

  /** The first node of a row is its first extremity and the last node its last. */
  lemma AlongEnds(a: Vec3, b: Vec3, n: nat)
    ensures Along(a, b, n, 0) == a
    ensures n > 1 ==> Along(a, b, n, n - 1) == b
  {
    if n > 1 {
      var m := (n - 1) as real;
      assert 1.0 / m * m == 1.0;
      var p := Along(a, b, n, n - 1);
      assert p.x == a.x + (b.x - a.x) * (1.0 / m) * m == b.x;
      assert p.y == a.y + (b.y - a.y) * (1.0 / m) * m == b.y;
      assert p.z == a.z + (b.z - a.z) * (1.0 / m) * m == b.z;
    }
  }

  /** Equal masses that share out a total: n masses of total / n add up to the total. */
  lemma {:induction false} EqualMassesSum(n: nat, mass: real)
    ensures Sum(seq(n, _ => mass)) == (n as real) * mass
  {
    if n > 0 {
      assert seq(n, _ => mass)[..n - 1] == seq(n - 1, _ => mass);
      EqualMassesSum(n - 1, mass);
    }
  }

  /** n equal shares of the total mass add up to the total. */
  lemma ShareOutMass(n: nat, totalMass: real)
    requires n > 0
    ensures Sum(seq(n, _ => totalMass / (n as real))) == totalMass
  {
    EqualMassesSum(n, totalMass / (n as real));
  }
}
