// The mass-spring representation: the masses and springs it simulates, the mesh they come
// from, the validity of a local coordinate on that mesh and the point it stands for, the
// external force gathered per node, and the diagonal mass matrix.
module MassSpringRepresentations {
  import opened Wrappers
  import opened Vectors
  import opened IndexedCoordinates
  import opened MassSprings

  /** A state of the ode: a position and a velocity per node, and the nodes held fixed. */
  datatype OdeState = OdeState(positions: seq<Vec3>, velocities: seq<Vec3>, boundaryConditions: seq<nat>)

  /** Each node carries three degrees of freedom. */
  const NumDofPerNode: nat := 3

  // ---------------------------------------------------------------------------
  // Sums

  /** The sum of s, accumulated from the front. */
  function Sum(s: seq<real>): real {
    if |s| == 0 then 0.0 else Sum(s[..|s| - 1]) + s[|s| - 1]
  }

  lemma {:induction false} SumConcat(a: seq<real>, b: seq<real>)
    ensures Sum(a + b) == Sum(a) + Sum(b)
    decreases |b|
  {
    if |b| == 0 {
      assert a + b == a;
    } else {
      assert (a + b)[..|a + b| - 1] == a + b[..|b| - 1];
      SumConcat(a, b[..|b| - 1]);
    }
  }

  /** Masses that are not negative add up to a total that is not negative. */
  lemma {:induction false} SumNonNegative(s: seq<real>)
    requires forall i :: 0 <= i < |s| ==> s[i] >= 0.0
    ensures Sum(s) >= 0.0
  {
    if |s| > 0 {
      SumNonNegative(s[..|s| - 1]);
    }
  }

  // ---------------------------------------------------------------------------
  // The mass matrix

  function Zeros(n: nat): (z: seq<real>)
    ensures |z| == n && forall i :: 0 <= i < n ==> z[i] == 0.0
  {
    seq(n, _ => 0.0)
  }

  /** Each mass three times over, in node order. */
  function Repeat3(ms: seq<real>): (d: seq<real>)
    ensures |d| == 3 * |ms|
  {
    if |ms| == 0 then [] else
      var m := ms[|ms| - 1];
      Repeat3(ms[..|ms| - 1]) + [m, m, m]
  }

  /** The diagonal of an n-by-n mass matrix holding the given node masses, zero past them. */
  function MassDiagonal(ms: seq<real>, n: nat): (d: seq<real>)
    requires 3 * |ms| <= n
    ensures |d| == n
  {
    Repeat3(ms) + Zeros(n - 3 * |ms|)
  }

  /** Node i's mass sits on diagonal entries 3i, 3i+1 and 3i+2; every later entry is 0. */
  lemma {:induction false} MassDiagonalAt(ms: seq<real>, n: nat, j: nat)
    requires 3 * |ms| <= n && j < n
    ensures MassDiagonal(ms, n)[j] == if j < 3 * |ms| then ms[j / 3] else 0.0
  {
    if j < 3 * |ms| {
      Repeat3At(ms, j);
    }
  }

  lemma {:induction false} Repeat3At(ms: seq<real>, j: nat)
    requires j < 3 * |ms|
    ensures Repeat3(ms)[j] == ms[j / 3]
  {
    var init := ms[..|ms| - 1];
    if j < 3 * |init| {
      Repeat3At(init, j);
      assert Repeat3(ms)[j] == Repeat3(init)[j];
    } else {
      assert j / 3 == |ms| - 1;
    }
  }

  /** The trace of the mass matrix is three times the total mass. */
  lemma {:induction false} MassDiagonalTrace(ms: seq<real>)
    ensures Sum(MassDiagonal(ms, 3 * |ms|)) == 3.0 * Sum(ms)
  {
    assert MassDiagonal(ms, 3 * |ms|) == Repeat3(ms);
    Repeat3Sum(ms);
  }

  lemma {:induction false} Repeat3Sum(ms: seq<real>)
    ensures Sum(Repeat3(ms)) == 3.0 * Sum(ms)
  {
    if |ms| > 0 {
      var m := ms[|ms| - 1];
      Repeat3Sum(ms[..|ms| - 1]);
      SumConcat(Repeat3(ms[..|ms| - 1]), [m, m, m]);
      assert [m, m, m][..2] == [m, m] && [m, m][..1] == [m] && [m][..0] == [];
      assert Sum([m]) == m;
      assert Sum([m, m]) == Sum([m]) + m;
      assert Sum([m, m, m]) == Sum([m, m]) + m;
    }
  }

  /** Writing the next node's mass on the three entries after a filled prefix. */
  lemma WriteNodeMass(ms: seq<real>, n: nat, m: real)
    requires 3 * |ms| + 3 <= n
    ensures MassDiagonal(ms, n)[3 * |ms| := m][3 * |ms| + 1 := m][3 * |ms| + 2 := m] == MassDiagonal(ms + [m], n)
  {
    assert (ms + [m])[..|ms|] == ms;
    var lhs := MassDiagonal(ms, n)[3 * |ms| := m][3 * |ms| + 1 := m][3 * |ms| + 2 := m];
    var rhs := MassDiagonal(ms + [m], n);
    forall j | 0 <= j < n
      ensures lhs[j] == rhs[j]
    {
      if j >= 3 * |ms| + 3 {
        MassDiagonalAt(ms, n, j);
        MassDiagonalAt(ms + [m], n, j);
      }
    }
  }

  // ---------------------------------------------------------------------------
  // Points and forces on an element

  /** c_0 x(node_0) + ... + c_(k-1) x(node_(k-1)). */
  function WeightedSum(positions: seq<Vec3>, nodeIds: seq<nat>, coordinate: seq<real>, k: nat): Vec3
    requires k <= |nodeIds| && k <= |coordinate|
    requires forall i :: 0 <= i < k ==> nodeIds[i] < |positions|
  {
    if k == 0 then Zero
    else Add(WeightedSum(positions, nodeIds, coordinate, k - 1), Scale(positions[nodeIds[k - 1]], coordinate[k - 1]))
  }

  /** On an element whose nodes all sit at x, the point is x scaled by the coordinates' sum. */
  lemma {:induction false} WeightedSumOfCoincidentNodes(positions: seq<Vec3>, nodeIds: seq<nat>,
                                                        coordinate: seq<real>, k: nat, x: Vec3)
    requires k <= |nodeIds| && k <= |coordinate|
    requires forall i :: 0 <= i < k ==> nodeIds[i] < |positions| && positions[nodeIds[i]] == x
    ensures WeightedSum(positions, nodeIds, coordinate, k) == Scale(x, Sum(coordinate[..k]))
  {
    if k > 0 {
      WeightedSumOfCoincidentNodes(positions, nodeIds, coordinate, k - 1, x);
      assert coordinate[..k][..k - 1] == coordinate[..k - 1];
      var s := Sum(coordinate[..k - 1]);
      var c := coordinate[k - 1];
      assert x.x * s + x.x * c == x.x * (s + c);
      assert x.y * s + x.y * c == x.y * (s + c);
      assert x.z * s + x.z * c == x.z * (s + c);
    }
  }

  /** The coordinate with 1 at j and 0 elsewhere stands for node j itself. */
  lemma {:induction false} WeightedSumAtCorner(positions: seq<Vec3>, nodeIds: seq<nat>,
                                               coordinate: seq<real>, k: nat, j: nat)
    requires j < k <= |nodeIds| && k <= |coordinate|
    requires forall i :: 0 <= i < k ==> nodeIds[i] < |positions|
    requires forall i :: 0 <= i < k ==> coordinate[i] == if i == j then 1.0 else 0.0
    ensures WeightedSum(positions, nodeIds, coordinate, k) == positions[nodeIds[j]]
  {
    if k - 1 == j {
      WeightedSumBeforeCorner(positions, nodeIds, coordinate, j);
    } else {
      WeightedSumAtCorner(positions, nodeIds, coordinate, k - 1, j);
    }
  }

  lemma {:induction false} WeightedSumBeforeCorner(positions: seq<Vec3>, nodeIds: seq<nat>,
                                                   coordinate: seq<real>, k: nat)
    requires k <= |nodeIds| && k <= |coordinate|
    requires forall i :: 0 <= i < k ==> nodeIds[i] < |positions| && coordinate[i] == 0.0
    ensures WeightedSum(positions, nodeIds, coordinate, k) == Zero
  {
    if k > 0 {
      WeightedSumBeforeCorner(positions, nodeIds, coordinate, k - 1);
    }
  }

  /** The force vector after adding f * c_i to the 3-dof segment of each of the first k
      element nodes. */
  function DistributedForce(v: seq<real>, nodeIds: seq<nat>, coordinate: seq<real>, k: nat, f: Vec3): (r: seq<real>)
    requires k <= |nodeIds| && k <= |coordinate|
    requires forall i :: 0 <= i < k ==> 3 * nodeIds[i] + 3 <= |v|
    ensures |r| == |v|
  {
    if k == 0 then v
    else AddSegment(DistributedForce(v, nodeIds, coordinate, k - 1, f), 3 * nodeIds[k - 1], f, coordinate[k - 1])
  }

  lemma AddSegmentAt(b: seq<real>, c: nat, p: Vec3, k: real, axis: nat)
    requires c + 3 <= |b| && axis < 3
    ensures AddSegment(b, c, p, k)[c + axis] == b[c + axis] + Coord(p, axis) * k
  {
  }

  /** On an element with distinct nodes, node i's segment grows by f * c_i. */
  lemma {:induction false} DistributedForceAt(v: seq<real>, nodeIds: seq<nat>, coordinate: seq<real>, k: nat,
                                              f: Vec3, i: nat, axis: nat)
    requires k <= |nodeIds| && k <= |coordinate|
    requires forall n :: 0 <= n < k ==> 3 * nodeIds[n] + 3 <= |v|
    requires forall n, m :: 0 <= n < m < k ==> nodeIds[n] != nodeIds[m]
    requires i < k && axis < 3
    ensures DistributedForce(v, nodeIds, coordinate, k, f)[3 * nodeIds[i] + axis]
            == v[3 * nodeIds[i] + axis] + Coord(f, axis) * coordinate[i]
  {
    if i == k - 1 {
      DistributedForceLast(v, nodeIds, coordinate, k, f, axis);
    } else {
      var c := 3 * nodeIds[k - 1];
      var dof := 3 * nodeIds[i] + axis;
      var prev := DistributedForce(v, nodeIds, coordinate, k - 1, f);
      assert DistributedForce(v, nodeIds, coordinate, k, f) == AddSegment(prev, c, f, coordinate[k - 1]);
      DistributedForceAt(v, nodeIds, coordinate, k - 1, f, i, axis);
      assert nodeIds[i] != nodeIds[k - 1];
      assert dof < c || c + 3 <= dof;
    }
  }

  /** The last node's segment grows by its share when no earlier node shares it. */
  lemma DistributedForceLast(v: seq<real>, nodeIds: seq<nat>, coordinate: seq<real>, k: nat, f: Vec3, axis: nat)
    requires 0 < k <= |nodeIds| && k <= |coordinate|
    requires forall n :: 0 <= n < k ==> 3 * nodeIds[n] + 3 <= |v|
    requires forall n :: 0 <= n < k - 1 ==> nodeIds[n] != nodeIds[k - 1]
    requires axis < 3
    ensures DistributedForce(v, nodeIds, coordinate, k, f)[3 * nodeIds[k - 1] + axis]
            == v[3 * nodeIds[k - 1] + axis] + Coord(f, axis) * coordinate[k - 1]
  {
    var c := 3 * nodeIds[k - 1];
    var prev := DistributedForce(v, nodeIds, coordinate, k - 1, f);
    DistributedForceOutside(v, nodeIds, coordinate, k - 1, f, c + axis);
    AddSegmentAt(prev, c, f, coordinate[k - 1], axis);
  }

  /** An entry outside every touched segment keeps its value. */
  lemma {:induction false} DistributedForceOutside(v: seq<real>, nodeIds: seq<nat>, coordinate: seq<real>, k: nat,
                                                   f: Vec3, dof: nat)
    requires k <= |nodeIds| && k <= |coordinate|
    requires forall n :: 0 <= n < k ==> 3 * nodeIds[n] + 3 <= |v|
    requires dof < |v| && forall n :: 0 <= n < k ==> dof < 3 * nodeIds[n] || 3 * nodeIds[n] + 3 <= dof
    ensures DistributedForce(v, nodeIds, coordinate, k, f)[dof] == v[dof]
  {
    if k > 0 {
      DistributedForceOutside(v, nodeIds, coordinate, k - 1, f, dof);
    }
  }

  // ---------------------------------------------------------------------------
  // The representation

  class MassSpringRepresentation {
    var mesh: MassSpring
    var masses: seq<real>
    var springs: seq<Spring>
    var initialized: bool
    var active: bool
    var numDof: nat
    var initialState: OdeState
    var externalForce: seq<real>
    var hasExternalForce: bool
    /** The mass matrix, which holds entries on its diagonal only. */
    var massDiagonal: seq<real>

    constructor ()
      ensures fresh(mesh) && mesh.flavour == MassSpringAsset && mesh.vertices == [] && mesh.elements == []
      ensures masses == [] && springs == [] && !initialized && active && numDof == 0
      ensures initialState == OdeState([], [], []) && externalForce == [] && !hasExternalForce
      ensures massDiagonal == []
    {
      mesh := new MassSpring(MassSpringAsset);
      masses, springs := [], [];
      initialized, active := false, true;
      numDof := 0;
      initialState := OdeState([], [], []);
      externalForce, hasExternalForce := [], false;
      massDiagonal := [];
    }

    method AddMass(mass: real)
      modifies this
      ensures masses == old(masses) + [mass]
      ensures mesh == old(mesh) && springs == old(springs) && initialized == old(initialized)
      ensures active == old(active) && numDof == old(numDof) && initialState == old(initialState)
      ensures externalForce == old(externalForce) && hasExternalForce == old(hasExternalForce)
      ensures massDiagonal == old(massDiagonal)
    {
      masses := masses + [mass];
    }

    method AddSpring(spring: Spring)
      modifies this
      ensures springs == old(springs) + [spring]
      ensures mesh == old(mesh) && masses == old(masses) && initialized == old(initialized)
      ensures active == old(active) && numDof == old(numDof) && initialState == old(initialState)
      ensures externalForce == old(externalForce) && hasExternalForce == old(hasExternalForce)
      ensures massDiagonal == old(massDiagonal)
    {
      springs := springs + [spring];
    }

    /** getTotalMass: the masses added up one after the other. */
    method GetTotalMass() returns (mass: real)
      ensures mass == Sum(masses)
      ensures (forall i :: 0 <= i < |masses| ==> masses[i] >= 0.0) ==> mass >= 0.0
    {
      mass := 0.0;
      var i := 0;
      while i < |masses|
        invariant i <= |masses| && mass == Sum(masses[..i])
      {
        assert masses[..i + 1][..i] == masses[..i];
        mass := mass + masses[i];
        i := i + 1;
      }
      assert masses[..i] == masses;
      if forall i :: 0 <= i < |masses| ==> masses[i] >= 0.0 {
        SumNonNegative(masses);
      }
    }

    /** What beforeUpdate asserts of an active representation: three dof per mass, and at
        least one mass, one spring and one dof. */
    predicate ReadyToUpdate()
      reads this
    {
      3 * |masses| == numDof && |masses| > 0 && |springs| > 0 && numDof > 0
    }

    /** beforeUpdate: an inactive representation is not checked. */
    method BeforeUpdate() returns (r: Result<()>)
      ensures r.Success? <==> !active || ReadyToUpdate()
    {
      if !active {
        return Success(());
      }
      if 3 * |masses| != numDof {
        return Failure("mismatch between the number of masses and the number of dof");
      }
      if |masses| == 0 {
        return Failure("no masses specified yet");
      }
      if |springs| == 0 {
        return Failure("no springs specified yet");
      }
      if numDof == 0 {
        return Failure("state has not been initialized yet");
      }
      r := Success(());
    }

    /** isValidCoordinate: the coordinates sum to 1 within eps, the mesh has elements, there is
        one coordinate per element node, and each lies within [-eps, 1 + eps]. */
    predicate IsValidCoordinate(coordinate: seq<real>, eps: real)
      reads this, mesh
    {
      Abs(Sum(coordinate) - 1.0) < eps && |mesh.elements| > 0
      && |coordinate| == |mesh.elements[0]|
      && forall i :: 0 <= i < |coordinate| ==> -eps <= coordinate[i] <= 1.0 + eps
    }

    /** The indexed overload also needs an existing element. */
    predicate IsValidIndexedCoordinate(localCoordinate: IndexedLocalCoordinate, eps: real)
      reads this, mesh
    {
      localCoordinate.index < |mesh.elements| && IsValidCoordinate(localCoordinate.coordinate, eps)
    }

    /** computeCartesianCoordinate: the element's node positions weighted by the coordinate. */
    method ComputeCartesianCoordinate(state: OdeState, localCoordinate: IndexedLocalCoordinate, eps: real)
        returns (result: Vec3)
      requires mesh.Uniform() && IsValidIndexedCoordinate(localCoordinate, eps)
      requires forall i :: 0 <= i < |mesh.elements[localCoordinate.index]| ==>
                 mesh.elements[localCoordinate.index][i] < |state.positions|
      ensures |localCoordinate.coordinate| == |mesh.elements[localCoordinate.index]|
      ensures result == WeightedSum(state.positions, mesh.elements[localCoordinate.index],
                                    localCoordinate.coordinate, |localCoordinate.coordinate|)
    {
      var nodeIds := mesh.elements[localCoordinate.index];
      var coordinate := localCoordinate.coordinate;
      result := Zero;
      var i := 0;
      while i < |coordinate|
        invariant i <= |coordinate| && result == WeightedSum(state.positions, nodeIds, coordinate, i)
      {
        result := Add(result, Scale(state.positions[nodeIds[i]], coordinate[i]));
        i := i + 1;
      }
    }

    /** The element nodes a position localization spreads a force over all have their 3-dof
        segment inside the force vector. */
    predicate ForceFits(localCoordinate: IndexedLocalCoordinate)
      reads this, mesh
    {
      localCoordinate.index < |mesh.elements|
      && |mesh.elements[localCoordinate.index]| <= |localCoordinate.coordinate|
      && forall i :: 0 <= i < |mesh.elements[localCoordinate.index]| ==>
           3 * mesh.elements[localCoordinate.index][i] + 3 <= |externalForce|
    }

    /** addExternalGeneralizedForce, force part: a node localization adds the force to that
        node's segment; a position localization adds force * c_i to each element node's
        segment; a localization with neither is a failure. The flag is raised in every case. */
    method AddExternalGeneralizedForce(node: Option<nat>, position: Option<IndexedLocalCoordinate>, force: Vec3)
        returns (r: Result<()>)
      requires node.Some? ==> node.value < |masses| && 3 * node.value + 3 <= |externalForce|
      requires node.None? && position.Some? ==> ForceFits(position.value)
      modifies this
      ensures mesh == old(mesh) && masses == old(masses) && springs == old(springs) && initialized == old(initialized)
      ensures active == old(active) && numDof == old(numDof) && initialState == old(initialState)
      ensures massDiagonal == old(massDiagonal)
      ensures hasExternalForce
      ensures r.Success? <==> node.Some? || position.Some?
      ensures node.Some? ==> externalForce == AddSegment(old(externalForce), 3 * node.value, force, 1.0)
      ensures node.None? && position.Some? ==>
                externalForce == DistributedForce(old(externalForce), mesh.elements[position.value.index],
                                                  position.value.coordinate, |mesh.elements[position.value.index]|, force)
      ensures r.Failure? ==> externalForce == old(externalForce)
    {
      hasExternalForce := true;
      if node.Some? {
        externalForce := AddSegment(externalForce, 3 * node.value, force, 1.0);
        r := Success(());
      } else if position.Some? {
        var nodeIds := mesh.elements[position.value.index];
        var coordinate := position.value.coordinate;
        var f := externalForce;
        var index := 0;
        while index < |nodeIds|
          invariant index <= |nodeIds|
          invariant f == DistributedForce(externalForce, nodeIds, coordinate, index, force)
        {
          f := AddSegment(f, 3 * nodeIds[index], force, coordinate[index]);
          index := index + 1;
        }
        externalForce := f;
        r := Success(());
      } else {
        r := Failure("a location without either node or local position");
      }
    }

    /** setInitialState: the state becomes the initial state, and the representation takes
        its number of degrees of freedom, three per node. */
    method SetInitialState(state: OdeState)
      modifies this
      ensures initialState == state && numDof == NumDofPerNode * |state.positions|
      ensures mesh == old(mesh) && masses == old(masses) && springs == old(springs)
      ensures initialized == old(initialized) && active == old(active)
      ensures externalForce == old(externalForce) && hasExternalForce == old(hasExternalForce)
      ensures massDiagonal == old(massDiagonal)
    {
      initialState := state;
      numDof := NumDofPerNode * |state.positions|;
    }

    /** The part of doInitialize that sizes the mass matrix: numDof by numDof, with its
        diagonal pattern cleared to zero. */
    method Initialize()
      requires !initialized
      modifies this
      ensures initialized && massDiagonal == Zeros(numDof)
      ensures mesh == old(mesh) && masses == old(masses) && springs == old(springs) && active == old(active)
      ensures numDof == old(numDof) && initialState == old(initialState)
      ensures externalForce == old(externalForce) && hasExternalForce == old(hasExternalForce)
    {
      massDiagonal := Zeros(numDof);
      initialized := true;
    }

    /** computeM: the matrix is cleared, then each node's mass is written on its three
        diagonal entries. */
    method ComputeM()
      requires 3 * |masses| <= |massDiagonal|
      modifies this
      ensures mesh == old(mesh) && masses == old(masses) && springs == old(springs) && initialized == old(initialized)
      ensures active == old(active) && numDof == old(numDof) && initialState == old(initialState)
      ensures externalForce == old(externalForce) && hasExternalForce == old(hasExternalForce)
      ensures massDiagonal == MassDiagonal(masses, old(|massDiagonal|))
    {
      var n := |massDiagonal|;
      var diagonal := Zeros(n);
      assert diagonal == MassDiagonal(masses[..0], n);
      var massId := 0;
      while massId < |masses|
        invariant massId <= |masses| && 3 * |masses| <= n
        invariant diagonal == MassDiagonal(masses[..massId], n)
        modifies {}
      {
        var m := masses[massId];
        WriteNodeMass(masses[..massId], n, m);
        assert masses[..massId + 1] == masses[..massId] + [m];
        diagonal := diagonal[3 * massId := m][3 * massId + 1 := m][3 * massId + 2 := m];
        massId := massId + 1;
      }
      assert masses[..massId] == masses;
      massDiagonal := diagonal;
    }

    /** setMassSpring: the representation takes the mesh, a state with one zero-velocity node
        per vertex at the vertex's position and the mesh's boundary conditions, one mass per
        vertex, and every spring. */
    method SetMassSpring(m: MassSpring)
      requires !initialized
      requires |m.vertices| <= |m.masses|
      modifies this
      ensures mesh == m && numDof == NumDofPerNode * |m.vertices|
      ensures masses == old(masses) + m.masses[..|m.vertices|]
      ensures springs == old(springs) + m.springs
      ensures |initialState.positions| == |m.vertices| && initialState.velocities == seq(|m.vertices|, _ => Zero)
      ensures forall i :: 0 <= i < |m.vertices| ==> initialState.positions[i] == m.vertices[i].position
      ensures initialState.boundaryConditions == m.boundaryConditions
      ensures old(masses) == [] && old(springs) == [] ==>
                (ReadyToUpdate() <==> |m.vertices| > 0 && |m.springs| > 0)
      ensures initialized == old(initialized) && active == old(active)
      ensures externalForce == old(externalForce) && hasExternalForce == old(hasExternalForce)
      ensures massDiagonal == old(massDiagonal)
    {
      mesh := m;
      var numVertices := |m.vertices|;
      var positions: seq<Vec3> := seq(numVertices, _ => Zero);
      var newMasses := masses;
      for i := 0 to numVertices
        invariant |positions| == numVertices
        invariant forall j :: 0 <= j < i ==> positions[j] == m.vertices[j].position
        invariant newMasses == old(masses) + m.masses[..i]
      {
        positions := positions[i := m.vertices[i].position];
        assert m.masses[..i + 1] == m.masses[..i] + [m.masses[i]];
        newMasses := newMasses + [m.GetMass(i)];
      }
      var newSprings := springs;
      for k := 0 to |m.springs|
        invariant newSprings == old(springs) + m.springs[..k]
      {
        assert m.springs[..k + 1] == m.springs[..k] + [m.springs[k]];
        newSprings := newSprings + [m.springs[k]];
      }
      masses, springs := newMasses, newSprings;
      var boundaryConditions: seq<nat> := [];
      for k := 0 to |m.boundaryConditions|
        invariant boundaryConditions == m.boundaryConditions[..k]
      {
        boundaryConditions := boundaryConditions + [m.boundaryConditions[k]];
      }
      assert m.springs[..|m.springs|] == m.springs;
      assert m.boundaryConditions[..|m.boundaryConditions|] == m.boundaryConditions;
      initialState := OdeState(positions, seq(numVertices, _ => Zero), boundaryConditions);
      numDof := NumDofPerNode * numVertices;
    }
  }

  /** A segment coordinate (1 - t, t) with t in [0, 1] is valid on any element of a mesh of
      2-node elements, whatever the positive tolerance. */
  lemma SegmentCoordinateValid(representation: MassSpringRepresentation, index: nat, t: real, eps: real)
    requires eps > 0.0 && 0.0 <= t <= 1.0
    requires index < |representation.mesh.elements| && |representation.mesh.elements[0]| == 2
    ensures representation.IsValidIndexedCoordinate(IndexedLocalCoordinate(index, [1.0 - t, t]), eps)
  {
    var c := [1.0 - t, t];
    assert c[..1] == [1.0 - t] && c[..1][..0] == [];
    assert Sum(c[..1]) == 1.0 - t;
    assert Sum(c) == Sum(c[..1]) + t;
  }
}
