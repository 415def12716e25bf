// The mass-spring mesh asset, MassSpring, and its twin MassSpringModel: vertices, masses,
// springs, elements and boundary conditions appended one at a time, and the ply header that
// save writes for them.
module MassSprings {
  import opened Wrappers
  import opened Vectors

  /** Which of the two asset classes a mesh is. They share every container operation and
      differ only in the list-property lines save writes for 3-, 4- and 8-node elements. */
  datatype Flavour = MassSpringAsset | MassSpringModelAsset

  /** A mesh vertex: its position and the mass stored with it. */
  datatype Vertex = Vertex(position: Vec3, mass: real)

  /** A spring of the mesh. Only a linear spring's end nodes, stiffness and damping are ever
      written by save; other springs are known by their nodes alone. */
  datatype Spring = LinearSpring(node0: nat, node1: nat, stiffness: real, damping: real)
                  | OtherSpring(nodeIds: seq<nat>)

  /** The nodes a spring joins. */
  function SpringNodes(s: Spring): seq<nat> {
    if s.LinearSpring? then [s.node0, s.node1] else s.nodeIds
  }

  /** What a save produces: nothing when the file cannot be opened, otherwise the header lines
      and the radius or thickness value written after the elements, if any. */
  datatype SaveOutcome = CouldNotOpen | Saved(header: seq<string>, sizeValue: Option<real>)

  function DigitChar(d: nat): char
    requires d < 10
  {
    "0123456789"[d]
  }

  /** The decimal text of n, as a stream writes it. */
  function NatToString(n: nat): string {
    if n < 10 then [DigitChar(n)] else NatToString(n / 10) + [DigitChar(n % 10)]
  }

  /** The element part of the header (MassSpring.cpp:155-181): nothing without elements or for
      a node count other than 2, 3, 4 or 8. */
  function ElementSection(flavour: Flavour, numElements: nat, nodesPerElement: nat): (lines: seq<string>)
  {
    if numElements == 0 then []
    else if nodesPerElement == 2 then
      ["element 1d_element " + NatToString(numElements), "property list uint uint vertex_indices",
       "element radius 1", "property double value"]
    else if nodesPerElement == 3 then
      ["element 2d_element " + NatToString(numElements),
       if flavour == MassSpringAsset then "property list uint uint uint vertex_indices"
       else "property list uint uint vertex_indices",
       "element thickness 1", "property double value"]
    else if nodesPerElement == 4 then
      ["element 3d_element " + NatToString(numElements),
       if flavour == MassSpringAsset then "property list uint uint uint uint vertex_indices"
       else "property list uint uint vertex_indices"]
    else if nodesPerElement == 8 then
      ["element 3d_element " + NatToString(numElements),
       if flavour == MassSpringAsset then "property list uint uint uint uint uint uint uint uint vertex_indices"
       else "property list uint uint vertex_indices"]
    else []
  }

  /** save writes a spring section only when the first spring is a linear one. */
  predicate HasLinearSprings(springs: seq<Spring>) {
    |springs| > 0 && springs[0].LinearSpring?
  }

  /** The whole header, from "ply" to "end_header". */
  function Header(flavour: Flavour, numVertices: nat, numElements: nat, nodesPerElement: nat,
                  springs: seq<Spring>, numBoundaryConditions: nat): seq<string>
  {
    ["ply", "format ascii 1.0", "comment Created by OpenSurgSim, www.opensurgsim.org",
     "element vertex " + NatToString(numVertices),
     "property double x", "property double y", "property double z", "property double mass"]
    + ElementSection(flavour, numElements, nodesPerElement)
    + (if HasLinearSprings(springs) then
         ["element spring " + NatToString(|springs|), "property list uint uint vertex_indices",
          "property double stiffness", "property double damping"]
       else [])
    + ["element boundary_condition " + NatToString(numBoundaryConditions), "property uint vertex_index",
       "end_header"]
  }

  /** The two asset classes write the same element section except for its list-property line,
      which differs exactly for 3-, 4- and 8-node elements. */
  lemma FlavoursDifferOnlyInListProperty(numElements: nat, nodesPerElement: nat)
    ensures var a := ElementSection(MassSpringAsset, numElements, nodesPerElement);
            var m := ElementSection(MassSpringModelAsset, numElements, nodesPerElement);
            |a| == |m|
            && (forall i :: 0 <= i < |a| && i != 1 ==> a[i] == m[i])
            && (|a| > 1 && a[1] != m[1] <==> numElements > 0 && nodesPerElement in {3, 4, 8})
  {
    var a := ElementSection(MassSpringAsset, numElements, nodesPerElement);
    var m := ElementSection(MassSpringModelAsset, numElements, nodesPerElement);
    if numElements > 0 && nodesPerElement in {3, 4, 8} {
      assert a[1][24] == 'u' && m[1][24] == 'v';
    }
  }

  /** The mesh asset: vertices, masses, springs, elements (each a list of node ids), boundary
      conditions (node ids) and the optional radius and thickness. */
  class MassSpring {
    const flavour: Flavour
    var vertices: seq<Vertex>
    var masses: seq<real>
    var springs: seq<Spring>
    var elements: seq<seq<nat>>
    var boundaryConditions: seq<nat>
    var radius: Option<real>
    var thickness: Option<real>

    /** Every element has as many nodes as the first one. */
    predicate Uniform()
      reads this
    {
      forall i :: 0 <= i < |elements| ==> |elements[i]| == |elements[0]|
    }

    constructor (flavour: Flavour)
      ensures this.flavour == flavour && vertices == [] && masses == [] && springs == []
      ensures elements == [] && boundaryConditions == [] && radius == None && thickness == None
      ensures Uniform()
    {
      this.flavour := flavour;
      vertices, masses, springs, elements, boundaryConditions := [], [], [], [], [];
      radius, thickness := None, None;
    }

    /** The vertex container the asset inherits: appends one vertex. */
    method AddVertex(v: Vertex)
      modifies this
      ensures vertices == old(vertices) + [v]
      ensures masses == old(masses) && springs == old(springs) && elements == old(elements)
      ensures boundaryConditions == old(boundaryConditions) && radius == old(radius) && thickness == old(thickness)
    {
      vertices := vertices + [v];
    }

    method AddMass(mass: real)
      modifies this
      ensures masses == old(masses) + [mass] && |masses| == old(|masses|) + 1
      ensures vertices == old(vertices) && springs == old(springs) && elements == old(elements)
      ensures boundaryConditions == old(boundaryConditions) && radius == old(radius) && thickness == old(thickness)
    {
      masses := masses + [mass];
    }

    method AddSpring(spring: Spring)
      modifies this
      ensures springs == old(springs) + [spring] && |springs| == old(|springs|) + 1
      ensures vertices == old(vertices) && masses == old(masses) && elements == old(elements)
      ensures boundaryConditions == old(boundaryConditions) && radius == old(radius) && thickness == old(thickness)
    {
      springs := springs + [spring];
    }

    /** getMass: the id must be below the number of masses. */
    function GetMass(nodeId: nat): real
      reads this
      requires nodeId < |masses|
    {
      masses[nodeId]
    }

    /** getSpring: the id must be below the number of springs. */
    function GetSpring(springId: nat): Spring
      reads this
      requires springId < |springs|
    {
      springs[springId]
    }

    /** addBoundaryCondition: appends and answers the index of the new entry. */
    method AddBoundaryCondition(boundaryCondition: nat) returns (id: nat)
      modifies this
      ensures boundaryConditions == old(boundaryConditions) + [boundaryCondition]
      ensures id == |boundaryConditions| - 1 && boundaryConditions[id] == boundaryCondition
      ensures vertices == old(vertices) && masses == old(masses) && springs == old(springs)
      ensures elements == old(elements) && radius == old(radius) && thickness == old(thickness)
    {
      boundaryConditions := boundaryConditions + [boundaryCondition];
      id := |boundaryConditions| - 1;
    }

    /** getBoundaryCondition: an unchecked read. */
    function GetBoundaryCondition(id: nat): nat
      reads this
      requires id < |boundaryConditions|
    {
      boundaryConditions[id]
    }

    /** addElement: a new element must have as many nodes as the existing ones; the answer is
        the new number of elements, one more than the new element's index. */
    method AddElement(nodeIds: seq<nat>) returns (count: nat)
      requires |elements| == 0 || |nodeIds| == |elements[0]|
      modifies this
      ensures elements == old(elements) + [nodeIds]
      ensures count == |elements| && elements[count - 1] == nodeIds
      ensures old(Uniform()) ==> Uniform()
      ensures vertices == old(vertices) && masses == old(masses) && springs == old(springs)
      ensures boundaryConditions == old(boundaryConditions) && radius == old(radius) && thickness == old(thickness)
    {
      elements := elements + [nodeIds];
      count := |elements|;
    }

    /** getNumNodesPerElement: only defined once an element exists; on a uniform mesh it is the
        node count of every element. */
    function NumNodesPerElement(): (n: nat)
      reads this
      requires |elements| > 0
      ensures Uniform() ==> forall i :: 0 <= i < |elements| ==> |elements[i]| == n
    {
      |elements[0]|
    }

    method SetRadius(r: real)
      modifies this
      ensures radius == Some(r) && radius.Some?
      ensures vertices == old(vertices) && masses == old(masses) && springs == old(springs) && elements == old(elements)
      ensures boundaryConditions == old(boundaryConditions) && thickness == old(thickness)
    {
      radius := Some(r);
    }

    method SetThickness(t: real)
      modifies this
      ensures thickness == Some(t) && thickness.Some?
      ensures vertices == old(vertices) && masses == old(masses) && springs == old(springs) && elements == old(elements)
      ensures boundaryConditions == old(boundaryConditions) && radius == old(radius)
    {
      thickness := Some(t);
    }

    /** The value written after the elements: the radius for 2-node elements and the thickness
        for 3-node elements, each falling back to physicsLength. */
    function SizeValue(nodesPerElement: nat, physicsLength: real): Option<real>
      reads this
    {
      if nodesPerElement == 2 then Some(if radius.Some? then radius.value else physicsLength)
      else if nodesPerElement == 3 then Some(if thickness.Some? then thickness.value else physicsLength)
      else None
    }

    /** save as written (MassSpring.cpp:144-266): after the guarded header it asks for the
        number of nodes per element unconditionally, so a mesh without elements fails there. */
    function SaveAsWritten(isOpen: bool, physicsLength: real): (r: Result<SaveOutcome>)
      reads this
      ensures r.Failure? <==> isOpen && |elements| == 0
    {
      if !isOpen then Success(CouldNotOpen)
      else if |elements| == 0 then Failure("cannot get the number of nodes per element before adding elements")
      else Success(Saved(Header(flavour, |vertices|, |elements|, |elements[0]|, springs, |boundaryConditions|),
                         SizeValue(|elements[0]|, physicsLength)))
    }

    /** save with the trailer guarded like the header: an element-less mesh writes no radius or
        thickness. */
    function Save(isOpen: bool, physicsLength: real): (r: Result<SaveOutcome>)
      reads this
      ensures r.Success?
      ensures r.value.CouldNotOpen? <==> !isOpen
    {
      if !isOpen then Success(CouldNotOpen)
      else
        var nodesPerElement := if |elements| > 0 then |elements[0]| else 0;
        Success(Saved(Header(flavour, |vertices|, |elements|, nodesPerElement, springs, |boundaryConditions|),
                      SizeValue(nodesPerElement, physicsLength)))
    }
  }

  /** Saving a mesh with vertices but no elements fails as written, while the guarded save
      writes the header with no element section and no size value. */
  lemma ElementlessSaveFails(m: MassSpring)
    requires |m.elements| == 0
    ensures m.SaveAsWritten(true, 1.0).Failure?
    ensures m.Save(true, 1.0) == Success(Saved(Header(m.flavour, |m.vertices|, 0, 0, m.springs, |m.boundaryConditions|), None))
    ensures ElementSection(m.flavour, 0, 0) == []
  {
  }

  /** With at least one element, or when the file cannot be opened, both saves agree. */
  lemma SavesAgreeWithElements(m: MassSpring, isOpen: bool, physicsLength: real)
    requires |m.elements| > 0 || !isOpen
    ensures m.SaveAsWritten(isOpen, physicsLength) == m.Save(isOpen, physicsLength)
  {
  }

  /** The header names an element section exactly when elements exist and have 2, 3, 4 or 8
      nodes; its first line names the element kind and count. */
  lemma ElementSectionChoice(flavour: Flavour, numElements: nat, nodesPerElement: nat)
    ensures var s := ElementSection(flavour, numElements, nodesPerElement);
            (|s| > 0 <==> numElements > 0 && nodesPerElement in {2, 3, 4, 8})
            && (|s| > 0 ==> s[0] == (if nodesPerElement == 2 then "element 1d_element "
                                     else if nodesPerElement == 3 then "element 2d_element "
                                     else "element 3d_element ") + NatToString(numElements))
  {
  }
}
