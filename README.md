# OpenSurgSim collision, contact and mass-spring core in Dafny

This project models the sequential core of OpenSurgSim, a surgical simulation toolkit. It
covers the collision and contact pipeline and the integer and data-structure bookkeeping
around it. Each C++ file is modelled in its own form. Code that computes a value becomes
datatypes, functions and lemmas. Objects whose methods update fields become classes whose
methods state the new state. Loops become methods with loop invariants, each proved against
a specification function.

- **Continuous collision loop** (`ccd_collision_loop.dfy`): the earliest-time-of-impact
  filter over the contact lists of the CONTINUOUS pairs, the accumulated time-of-impact
  update in IEEE arithmetic (infinities and NaN written out), and the iteration-capped loop
  with its three exits (no contact found, toi past 1, counter exhausted).
  The pipeline stages it drives are opaque state transformers.
- **Narrow phase**:
  - `triangle_mesh_triangle_mesh_contact.dfy`: the discrete and continuous mesh-mesh tests,
    including the swept-box pruning, the "earliest of fifteen swept tests, first wins ties"
    selection and the barycentric mapping.
  - `triangle_triangle_contact.dfy`: polygon clipping against the prism of the other
    triangle with a double buffer, the deepest vertex, and the separating-axis test over four
    sorted points.
  - `segment_segment_ccd.dfy`: the nine-region classification and clamping that keep r and s
    in [0, 1].
- **Broad phase and meshes**:
  - `aabb.dfy`, `aabb_tree.dfy`: the spatial join of two trees and the bounds refit.
  - `triangle_mesh.dfy`: triangle slots with a free list.
- **Linear algebra bookkeeping**:
  - `sparse_matrix.dfy`: compressed sparse storage and block add/assign written into the
    index and value arrays.
  - `linear_sparse_solve.dfy`: the sparsity-pattern comparison of the LU solver.
- **Constraint rows**: `constraint_rows.dfy` and the three builders for a mass-spring fixed
  point, mass-spring frictionless contact and FEM frictional sliding.
- **Mass-spring**:
  - `mass_spring.dfy`: the containers and the header that `save` writes.
  - `mass_spring_representation.dfy`: the representation.
  - `mass_spring_localization.dfy`: localization with its node-xor-position invariant.
  - `mass_spring_grids.dfy`, `mass_spring_1d.dfy`, `mass_spring_2d.dfy`,
    `mass_spring_3d.dfy`: the grid generators.
- **Small state machines**:
  - `ode_equation.dfy`: the ODE update flags.
  - `computation_group.dfy`: the computation group pass.
  - `messenger.dfy`: the messenger queue.
  - `key_behavior.dfy`: key transitions and the key registry.
  - `ply_reader.dfy`: the .ply request registry and the delegate registration that fills it.
- **Knot identification** on Gauss codes:
  - `gauss_code.dfy`, `reidemeister_moves.dfy`: Reidemeister moves 1 and 2.
  - `crossing_renumbering.dfy`: renumbering after erased crossings.
  - `knot_identification.dfy`: matching against the known knots.

Coordinates and times are `real`. Machine integers appear only where their width matters,
as in the `size_t` underflow of the bending-spring loops (`MassSpringGrids.SizeSub`). The
geometric primitives the narrow phase calls (distances, swept root finders, intersection
tests) are not part of this model. They enter as parameters, and their contracts become the
requirements of the members that use them.

The code is followed where it differs from the system's tests:

- `CcdCollisionLoop.FilterContacts` reports `currentToi` as the earliest time plus epsilon,
  as `SurgSim/Physics/CcdCollisionLoop.cpp:142,152` does. The test
  `SurgSim/Physics/UnitTests/CcdCollisionLoopTest.cpp:95-98` expects the bare minimum.
- The knot tests call `identifyKnot` with the older `vector<int>` API. They also expect a
  rotation of the trefoil code to be recognised. `isSameCode` compares entry by entry, so
  `KnotIdentification.RotationNotMatched` proves that a rotation is not matched.

## Model

| member | source | states |
|---|---|---|
| CcdCollisionLoop.ContinuousPairs | SurgSim/Physics/CcdCollisionLoop.cpp:61-73 | the copied pairs are exactly the pairs of type CONTINUOUS, each one a member of the input |
| CcdCollisionLoop.ContinuousMembers | SurgSim/Physics/CcdCollisionLoop.cpp:61-73 | a pair is copied exactly when it is in the input and of type CONTINUOUS |
| CcdCollisionLoop.EarliestAppend | SurgSim/Physics/CcdCollisionLoop.cpp:124-134 | the min-fold over the concatenated contact lists is the fold over the second list started from the fold over the first |
| CcdCollisionLoop.EarliestIsMinimum | SurgSim/Physics/CcdCollisionLoop.cpp:124-134 | the earliest time is at most the start value and at most every contact time, and it is the start value or one of the times |
| CcdCollisionLoop.NoContactIffSentinel | SurgSim/Physics/CcdCollisionLoop.cpp:136-140 | when every time is below DBL_MAX, the fold drops below DBL_MAX exactly when there is at least one contact |
| CcdCollisionLoop.SurvivorsMembers | SurgSim/Physics/CcdCollisionLoop.cpp:144-150 | remove_if keeps exactly the contacts whose time is not greater than the bound, and never lengthens a list |
| CcdCollisionLoop.SurvivorsAppend | SurgSim/Physics/CcdCollisionLoop.cpp:144-150 | filtering distributes over concatenation, so kept contacts keep their relative order |
| CcdCollisionLoop.SurvivorsIdempotent | SurgSim/Physics/CcdCollisionLoop.cpp:144-150 | filtering a second time with the same bound changes nothing |
| CcdCollisionLoop.InSomePair | SurgSim/Physics/CcdCollisionLoop.cpp:127-134 | every contact of the concatenated lists comes from one of the pairs |
| CcdCollisionLoop.InAllContacts | SurgSim/Physics/CcdCollisionLoop.cpp:127-134 | every contact of every pair is visited by the earliest-time loop |
| CcdCollisionLoop.NoEarlyContact | SurgSim/Physics/CcdCollisionLoop.cpp:136-140 | when the search stays at DBL_MAX, no contact of any pair is earlier than DBL_MAX |
| CcdCollisionLoop.EarliestSurvives | SurgSim/Physics/CcdCollisionLoop.cpp:127-150 | with epsilon >= 0 an earliest contact survives the filter, and every survivor lies within epsilon of the earliest time |
| CcdCollisionLoop.ToiNonDecreasing | SurgSim/Physics/CcdCollisionLoop.cpp:82 | from toi and localToi in [0,1], toi + (1 - toi) * localToi stays in [toi, 1] |
| CcdCollisionLoop.EpsilonSign | SurgSim/Physics/CcdCollisionLoop.cpp:83 | 1/((1 - toi) * 100) is positive for toi < 1, infinite at toi = 1 and negative past 1 |
| CcdCollisionLoop.NaNToiPersists | SurgSim/Physics/CcdCollisionLoop.cpp:82-109 | once toi is NaN the update keeps it NaN and the toi > 1 exit never fires |
| CcdCollisionLoop.EarliestTime | SurgSim/Physics/CcdCollisionLoop.cpp:124-134 | the loop computes the min-fold of every contact time of the pairs, starting from DBL_MAX |
| CcdCollisionLoop.RemoveLaterContacts | SurgSim/Physics/CcdCollisionLoop.cpp:144-150 | every pair's list becomes its old list with the contacts later than the bound removed, in order |
| CcdCollisionLoop.FilterContacts | SurgSim/Physics/CcdCollisionLoop.cpp:117-155 | returns false, with lists and currentToi untouched, exactly when no time is below DBL_MAX, and then every contact time is at least DBL_MAX; otherwise reports earliest + epsilon, filters every list to it and, for epsilon >= 0, leaves a contact |
| CcdCollisionLoop.ClearContacts | SurgSim/Physics/CcdCollisionLoop.cpp:172-178 | every given pair's contact list is empty afterwards |
| CcdCollisionLoop.DetectAndFilter | SurgSim/Physics/CcdCollisionLoop.cpp:85-93 | after the continuous stage and the filter, a false answer keeps localToi and leaves only contacts at or past DBL_MAX |
| CcdCollisionLoop.DoUpdate | SurgSim/Physics/CcdCollisionLoop.cpp:55-115 | the body runs at most 19 times; without the warning the loop stopped because the filter found no contact or because toi > 1 after a solved pass; with the warning it made all 19 passes, never found toi > 1 and never stopped on no contact; after a stop on no contact every continuous pair holds only contacts at or past DBL_MAX, otherwise every continuous pair's list is empty; non-continuous pairs keep their contacts |
| Boxes.Extend | SurgSim/DataStructures/AabbTree.cpp:154-158 | extending a box by a point gives a box holding the old box, the point and every point the old box held |
| Boxes.Merge | SurgSim/DataStructures/AabbTree.cpp:141-149 | the merged box holds both boxes, and it is empty exactly when both are |
| Boxes.BoundingBoxContains | SurgSim/DataStructures/AabbTree.cpp:158 | the recalculated box of a leaf holds every point it is built from, and is empty exactly when there is none |
| Boxes.ContainsTransitive | SurgSim/DataStructures/AabbTree.cpp:133-161 | containment of boxes is transitive, so nested refits compose |
| Boxes.IntersectGrows | SurgSim/DataStructures/AabbTree.cpp:88-91 | if two boxes overlap, boxes that contain them overlap too, which is why pruning a pair whose parents do not overlap loses nothing |
| Boxes.IntersectSymmetric | SurgSim/DataStructures/AabbTree.cpp:88 | the overlap test does not depend on the order of its arguments |
| AabbTrees.JoinSound | SurgSim/DataStructures/AabbTree.cpp:85-126 | every reported pair names a leaf below each root, and the two leaves' boxes overlap |
| AabbTrees.JoinRightSound | SurgSim/DataStructures/AabbTree.cpp:97-104 | the loop over the right node's children reports only overlapping leaf pairs below the two nodes |
| AabbTrees.JoinLeftSound | SurgSim/DataStructures/AabbTree.cpp:105-112 | the loop over the left node's children reports only overlapping leaf pairs below the two nodes |
| AabbTrees.JoinRowsSound | SurgSim/DataStructures/AabbTree.cpp:113-125 | the double loop over both nodes' children reports only overlapping leaf pairs below the two nodes |
| AabbTrees.SubtreeContained | SurgSim/DataStructures/AabbTree.cpp:133-161 | in a tree whose inner boxes hold their children's boxes, every subtree's box lies in the root box |
| AabbTrees.JoinComplete | SurgSim/DataStructures/AabbTree.cpp:85-126 | when both trees are well bounded, every pair of leaves whose boxes overlap is reported |
| AabbTrees.JoinRightComplete | SurgSim/DataStructures/AabbTree.cpp:97-104 | the loop over the right children reports every overlapping leaf pair below the children it has visited |
| AabbTrees.JoinLeftComplete | SurgSim/DataStructures/AabbTree.cpp:105-112 | the loop over the left children reports every overlapping leaf pair below the children it has visited |
| AabbTrees.JoinRowsComplete | SurgSim/DataStructures/AabbTree.cpp:113-125 | the double loop reports every overlapping leaf pair below the rows it has visited |
| AabbTrees.JoinDistinct | SurgSim/DataStructures/AabbTree.cpp:97-125 | no pair of leaves is reported twice |
| AabbTrees.JoinRightDistinct | SurgSim/DataStructures/AabbTree.cpp:99-103 | the loop over the right children reports no pair twice |
| AabbTrees.JoinLeftDistinct | SurgSim/DataStructures/AabbTree.cpp:107-111 | the loop over the left children reports no pair twice |
| AabbTrees.JoinRowsDistinct | SurgSim/DataStructures/AabbTree.cpp:115-124 | the double loop reports no pair twice |
| AabbTrees.SpatialJoinNodes | SurgSim/DataStructures/AabbTree.cpp:85-126 | the recursive join appends exactly the join of the two nodes to the result vector |
| AabbTrees.ItemsBoxContains | SurgSim/DataStructures/AabbTree.cpp:153-159 | a leaf's recalculated box holds every item's box |
| AabbTrees.NodesBoxContains | SurgSim/DataStructures/AabbTree.cpp:139-149 | the first child's box extended by the others' holds every child's box |
| AabbTrees.RefitWellBounded | SurgSim/DataStructures/AabbTree.cpp:133-161 | the refit keeps the tree's shape and ids, gives each item bounds[objectId], and leaves every inner box holding its children's boxes |
| AabbTrees.UpdateNodeBounds | SurgSim/DataStructures/AabbTree.cpp:133-161 | the recursive update computes the refit of the node from the new bounds |
| AabbTrees.AabbTree.constructor | SurgSim/DataStructures/AabbTree.cpp:26-31 | a default tree allows three objects per node and has an empty root |
| AabbTrees.AabbTree.WithMaximum | SurgSim/DataStructures/AabbTree.cpp:33-38 | the tree keeps the given maximum and has an empty root |
| AabbTrees.AabbTree.Add | SurgSim/DataStructures/AabbTree.cpp:45-48 | the object is added to the existing root with the tree's maximum |
| AabbTrees.AabbTree.Set | SurgSim/DataStructures/AabbTree.cpp:50-62 | the items go into a fresh empty root, whatever the old tree held |
| AabbTrees.AabbTree.SpatialJoin | SurgSim/DataStructures/AabbTree.cpp:74-83 | the result is the join of the two roots, starting from an empty vector |
| AabbTrees.AabbTree.UpdateBounds | SurgSim/DataStructures/AabbTree.cpp:128-131 | the root becomes its refit from the bounds, and the tree is then well bounded |
| TriangleMeshTriangleMeshContact.DcdRowMembers | SurgSim/Collision/TriangleMeshTriangleMeshContact.cpp:176-223 | the inner loop yields a contact for triangle j of B exactly when j's normal is nonzero and the triangle-triangle calculation accepts the pair |
| TriangleMeshTriangleMeshContact.DcdNodeMembers | SurgSim/Collision/TriangleMeshTriangleMeshContact.cpp:166-225 | the two loops over one node pair yield exactly the accepted pairs whose two normals are nonzero |
| TriangleMeshTriangleMeshContact.DcdMembers | SurgSim/Collision/TriangleMeshTriangleMeshContact.cpp:155-226 | the discrete contacts are exactly those of candidate pairs with two nonzero normals that the calculation accepts |
| TriangleMeshTriangleMeshContact.DcdContactsWellFormed | SurgSim/Collision/TriangleMeshTriangleMeshContact.cpp:220-222 | every discrete contact is DISCRETE, with depth the absolute value of the calculated depth, time 1 and the calculated normal |
| TriangleMeshTriangleMeshContact.CalculateDcdContact | SurgSim/Collision/TriangleMeshTriangleMeshContact.cpp:139-228 | the loops produce exactly the discrete contacts of the spatial join's node pairs |
| TriangleMeshTriangleMeshContact.EdgeBary | SurgSim/Collision/TriangleMeshTriangleMeshContact.cpp:383-470 | mapping an edge factor in [0,1] to (alpha, beta) as (f, 0), (1 - f, f) or (0, 1 - f) lands in the triangle |
| TriangleMeshTriangleMeshContact.VertexBary | SurgSim/Collision/TriangleMeshTriangleMeshContact.cpp:524-577 | each vertex corner (0,0), (1,0), (0,1) lies in the triangle |
| TriangleMeshTriangleMeshContact.EdgeEdgeInRange | SurgSim/Collision/TriangleMeshTriangleMeshContact.cpp:373-490 | an edge-edge test that fires gives a time in [0,1], and its two edge factors map to (alpha, beta) pairs inside the triangles |
| TriangleMeshTriangleMeshContact.VertexThrough2InRange | SurgSim/Collision/TriangleMeshTriangleMeshContact.cpp:493-534 | a test of a vertex of triangle 1 against triangle 2 that fires gives a time in [0,1] and coordinates inside both triangles |
| TriangleMeshTriangleMeshContact.VertexThrough1InRange | SurgSim/Collision/TriangleMeshTriangleMeshContact.cpp:535-577 | a test of a vertex of triangle 2 against triangle 1 that fires gives a time in [0,1] and coordinates inside both triangles |
| TriangleMeshTriangleMeshContact.SweptCandidatesInRange | SurgSim/Collision/TriangleMeshTriangleMeshContact.cpp:373-577 | every swept test that fires gives a time in [0,1] and two (alpha, beta) pairs inside their triangles |
| TriangleMeshTriangleMeshContact.SelectEarliestFirstWins | SurgSim/Collision/TriangleMeshTriangleMeshContact.cpp:376-584 | the selection stays at DBL_MAX exactly when no test fires; otherwise it is the first test in order with the least time, and no fired test is earlier |
| TriangleMeshTriangleMeshContact.SweptBoxContains | SurgSim/Collision/TriangleMeshTriangleMeshContact.cpp:269-275 | the box extended by the six positions holds each of them |
| TriangleMeshTriangleMeshContact.PairOutcomeSpec | SurgSim/Collision/TriangleMeshTriangleMeshContact.cpp:307-597 | a pair whose swept boxes are apart gives nothing; touching at t0 gives time 0; otherwise the earliest swept test, absent when none fires; the time lies in [0,1] and both points in their triangles |
| TriangleMeshTriangleMeshContact.SweptBoxHoldsTriangle | SurgSim/Collision/TriangleMeshTriangleMeshContact.cpp:289-305 | the swept box of a triangle holds the start and end positions of its own three vertices |
| TriangleMeshTriangleMeshContact.CcdRowSource | SurgSim/Collision/TriangleMeshTriangleMeshContact.cpp:277-649 | every contact of the inner loop comes from a triangle of shape 2 whose pair outcome is present and carries that outcome |
| TriangleMeshTriangleMeshContact.CcdRowReported | SurgSim/Collision/TriangleMeshTriangleMeshContact.cpp:277-649 | every triangle of shape 2 whose pair outcome is present has its contact in the inner loop's output |
| TriangleMeshTriangleMeshContact.CcdRowMembers | SurgSim/Collision/TriangleMeshTriangleMeshContact.cpp:277-649 | the inner loop emits one contact for each triangle of shape 2 whose pair outcome is present |
| TriangleMeshTriangleMeshContact.CcdSource | SurgSim/Collision/TriangleMeshTriangleMeshContact.cpp:247-650 | every continuous contact comes from a pair of triangles whose outcome is present and carries that outcome |
| TriangleMeshTriangleMeshContact.CcdReported | SurgSim/Collision/TriangleMeshTriangleMeshContact.cpp:247-650 | every pair of triangles whose outcome is present has its contact among the continuous contacts |
| TriangleMeshTriangleMeshContact.CcdMembers | SurgSim/Collision/TriangleMeshTriangleMeshContact.cpp:247-650 | the continuous contacts are exactly one CONTINUOUS contact, at the earliest time, per triangle pair whose outcome is present |
| TriangleMeshTriangleMeshContact.CcdContactsInRange | SurgSim/Collision/TriangleMeshTriangleMeshContact.cpp:586-646 | every continuous contact is CONTINUOUS with its time in [0,1], and both barycentric assertions hold for any non-negative epsilon |
| TriangleMeshTriangleMeshContact.SweepRow | SurgSim/Collision/TriangleMeshTriangleMeshContact.cpp:277-649 | the inner loop over shape 2 produces exactly the row of contacts of triangle t1 |
| TriangleMeshTriangleMeshContact.SweepTrianglePairs | SurgSim/Collision/TriangleMeshTriangleMeshContact.cpp:247-650 | the nested loops produce exactly the contacts of every (triangle of shape 1, triangle of shape 2) pair, in loop order |
| TriangleMeshTriangleMeshContact.CalculateCcdContact | SurgSim/Collision/TriangleMeshTriangleMeshContact.cpp:230-653 | the continuous test, with triangle 1 read from shape 1, yields the contacts of every pair decided by the pruning and earliest-test selection |
| TriangleMeshTriangleMeshContact.DcdContactWellFormed | SurgSim/Collision/TriangleMeshTriangleMeshContact.cpp:176-222 | a discrete contact is DISCRETE at time 1 with a non-negative depth, between two triangles with non-zero normals in range, and carries the normal of their triangle contact |
| TriangleMeshTriangleMeshContact.Triangle1FromShape2Prunes | SurgSim/Collision/TriangleMeshTriangleMeshContact.cpp:259-267 | as written, two triangles that touch are pruned because triangle 1's positions are read from shape 2 |
| TriangleTriangleContact.PrismPlane | SurgSim/Math/TriangleTriangleContactCalculation-inl.h:91-97 | prism side i passes through vertex i of the triangle (its signed distance is 0) |
| TriangleTriangleContact.ClipSize | SurgSim/Math/TriangleTriangleContactCalculation-inl.h:145-169 | clipping adds at most two vertices per edge, so the result has at most twice the input size |
| TriangleTriangleContact.CrossingOnPlane | SurgSim/Math/TriangleTriangleContactCalculation-inl.h:163-168 | the interpolated vertex of an edge whose end distances differ lies on the clipping plane |
| TriangleTriangleContact.ClipBelowPlane | SurgSim/Math/TriangleTriangleContactCalculation-inl.h:156-168 | every vertex of the clipped polygon is on or under the plane, within EPSILON |
| TriangleTriangleContact.ClipKeepsUnder | SurgSim/Math/TriangleTriangleContactCalculation-inl.h:156-160 | every input vertex with signed distance <= EPSILON is kept, and a polygon lying entirely on or under the plane comes out unchanged |
| TriangleTriangleContact.SignedDistanceInterpolated | SurgSim/Math/TriangleTriangleContactCalculation-inl.h:166-167 | the signed distance of a point interpolated between two points is the same interpolation of their signed distances |
| TriangleTriangleContact.CrossingParameterInUnit | SurgSim/Math/TriangleTriangleContactCalculation-inl.h:163-166 | the ratio at which an edge running strictly from one side of a plane to the other is clipped lies in [0, 1] |
| TriangleTriangleContact.InterpolationStaysBelow | SurgSim/Math/TriangleTriangleContactCalculation-inl.h:166-167 | a point interpolated between two points on or under a plane stays on or under it |
| TriangleTriangleContact.ClipStaysBelow | SurgSim/Math/TriangleTriangleContactCalculation-inl.h:69-73 | clipping against one prism side never moves the polygon out from under a side it was already under |
| TriangleTriangleContact.ClipIdempotent | SurgSim/Math/TriangleTriangleContactCalculation-inl.h:103-170 | clipping twice against the same plane gives the same polygon as clipping once |
| TriangleTriangleContact.DeepestIsMinimum | SurgSim/Math/TriangleTriangleContactCalculation-inl.h:187-197 | the deepest signed distance is min(0, every vertex's signed distance), and the point reported is a vertex attaining it |
| TriangleTriangleContact.ClipByPrismInside | SurgSim/Math/TriangleTriangleContactCalculation-inl.h:69-73 | whatever survives the three clips lies on or under each of the prism's three sides |
| TriangleTriangleContact.PenetrationNonNegative | SurgSim/Math/TriangleTriangleContactCalculation-inl.h:75-82 | the reported depth is non-negative, no clipped vertex is deeper, and the reported point is a clipped vertex |
| TriangleTriangleContact.TriangleHelper.constructor | SurgSim/Math/TriangleTriangleContactCalculation-inl.h:44-51 | the helper holds the triangle and its normal, planeD = -v0 . n, and the receiver buffer is 0 |
| TriangleTriangleContact.TriangleHelper.ClipAgainstPlane | SurgSim/Math/TriangleTriangleContactCalculation-inl.h:103-123 | the receiving buffer gets the clip of the other buffer, which is left as it was, and the receiver index toggles |
| TriangleTriangleContact.TriangleHelper.Distances | SurgSim/Math/TriangleTriangleContactCalculation-inl.h:127-132 | the list holds the signed distance of every vertex, in order |
| TriangleTriangleContact.TriangleHelper.ClipPolygon | SurgSim/Math/TriangleTriangleContactCalculation-inl.h:134-169 | the edge loop produces exactly the clip of the polygon against the plane |
| TriangleTriangleContact.TriangleHelper.FindDeepestVertexUnderPlane | SurgSim/Math/TriangleTriangleContactCalculation-inl.h:178-198 | the loop over the most recently written buffer returns its deepest depth and vertex |
| TriangleTriangleContact.TriangleHelper.ClipByPrismOf | SurgSim/Math/TriangleTriangleContactCalculation-inl.h:61-73 | the triangle appended to buffer 0 and clipped by the three prism sides ends in buffer 1 |
| TriangleTriangleContact.TriangleHelper.FindDeepestPenetrationWithTriangle | SurgSim/Math/TriangleTriangleContactCalculation-inl.h:58-83 | the result is the penetration of the clipped triangle under the other's plane, or the empty-polygon assertion failure |
| TriangleTriangleContact.ContactIsShallowerPenetration | SurgSim/Math/TriangleTriangleContactCalculation-inl.h:232-271 | no contact without an intersection; otherwise the contact has the smaller of the two depths, with normal t1n for the first and -t0n for the second |
| TriangleTriangleContact.CalculateContactTriangleTriangle | SurgSim/Math/TriangleTriangleContactCalculation-inl.h:215-272 | the method computes the clipping contact of two triangles with given normals |
| TriangleTriangleContact.CalculateContactTriangleTriangleFromVertices | SurgSim/Math/TriangleTriangleContactCalculation-inl.h:275-299 | no contact when either computed normal is zero; otherwise the contact with both normals normalised |
| TriangleTriangleContact.CrossingCount | SurgSim/Math/TriangleTriangleContactCalculation-inl.h:341-356 | a triangle crosses a plane at most twice, and exactly twice when it has a vertex strictly on each side |
| TriangleTriangleContact.TwoCrossingsAfterRejection | SurgSim/Math/TriangleTriangleContactCalculation-inl.h:329-360 | after the early rejection with DistanceEpsilon > 0, each triangle crosses the other's plane exactly twice, so the index == 2 assertion holds |
| TriangleTriangleContact.ComputeCrossings | SurgSim/Math/TriangleTriangleContactCalculation-inl.h:341-356 | the edge loop produces exactly the crossing points, in edge order |
| TriangleTriangleContact.SortByDistanceSorts | SurgSim/Math/TriangleTriangleContactCalculation-inl.h:384-388 | the sort of the four intervals orders them by distance and permutes them |
| TriangleTriangleContact.InsertKeepsSorted | SurgSim/Math/TriangleTriangleContactCalculation-inl.h:384-388 | one insertion step keeps the intervals sorted |
| TriangleTriangleContact.SortedAxisIntervals | SurgSim/Math/TriangleTriangleContactCalculation-inl.h:376-388 | the sorted intervals are ordered by distance and each names one of the two crossing points of one of the triangles |
| TriangleTriangleContact.OverlapBounds | SurgSim/Math/TriangleTriangleContactCalculation-inl.h:403-442 | the chosen bounds are two distinct sorted positions, left before right |
| TriangleTriangleContact.ContactFromSortedOutcome | SurgSim/Math/TriangleTriangleContactCalculation-inl.h:396-471 | no contact when P and Q lie on the same triangle; a contact found is at least DistanceEpsilon deep, its points are crossing points of triangles 0 and 1, and normal . (point0 - point1) <= 0 |
| TriangleTriangleContact.SeparatingAxisOutcome | SurgSim/Math/TriangleTriangleContactCalculation-inl.h:323-471 | no contact when a triangle lies on one side of the other's plane within DistanceEpsilon; otherwise both cross twice and the contact is taken along the normalised cross product of the normals |
| TriangleTriangleContact.CalculateContactTriangleTriangleSeparatingAxis | SurgSim/Math/TriangleTriangleContactCalculation-inl.h:301-472 | the method computes the separating-axis contact for given unit normals |
| TriangleTriangleContact.CalculateContactTriangleTriangleSeparatingAxisFromVertices | SurgSim/Math/TriangleTriangleContactCalculation-inl.h:475-499 | no contact when either computed normal is zero; otherwise the separating-axis contact with normalised normals |
| TriangleTriangleContact.PlaneDistances | SurgSim/Math/TriangleTriangleContactCalculation-inl.h:329-330 | one signed distance per vertex of the triangle |
| TriangleTriangleContact.AxisIntervals | SurgSim/Math/TriangleTriangleContactCalculation-inl.h:378-382 | four intervals along the axis, each naming triangle 0 or 1 and vertex 0 or 1 |
| TriangleTriangleContact.InsertByDistance | SurgSim/Math/TriangleTriangleContactCalculation-inl.h:384-388 | one insertion step adds the interval and loses none |
| TriangleTriangleContact.SortByDistance | SurgSim/Math/TriangleTriangleContactCalculation-inl.h:384-388 | the sort is a permutation of the four intervals |
| SegmentSegmentCcdStaticContact.Clamp | SurgSim/Collision/SegmentSegmentCcdStaticContact.cpp:153-154 | the clamped abscissa lies in [lo, hi] and a value strictly inside the band is kept unchanged |
| SegmentSegmentCcdStaticContact.ComputeCollisionEdge | SurgSim/Collision/SegmentSegmentCcdStaticContact.cpp:161-277 | the nine-region classification never answers EdgeInvalid; it answers EdgeSkip exactly when the unscaled minimiser lies in [0, ratio]^2, and each edge it picks lies on the side of the square where the minimiser fell (R0: r < 0, R1: r > ratio, S0: s < 0, S1: s > ratio) |
| SegmentSegmentCcdStaticContact.EdgeMinimiser | SurgSim/Collision/SegmentSegmentCcdStaticContact.cpp:289-360 | the per-edge clamp (compare -g with 0 and k before dividing) always gives a parameter in [0, 1] |
| SegmentSegmentCcdStaticContact.EdgeMinimiserMinimises | SurgSim/Collision/SegmentSegmentCcdStaticContact.cpp:289-360 | that clamped parameter minimises k t^2 + 2 g t over the whole unit interval |
| SegmentSegmentCcdStaticContact.ComputeCollisionParametrics | SurgSim/Collision/SegmentSegmentCcdStaticContact.cpp:279-369 | on each of the edges R0, R1, S0, S1 the fixed parameter is 0 or 1 and the free one is the edge minimiser of the matching one-dimensional quadratic; in the interior the result times ratio gives back the unscaled minimiser |
| SegmentSegmentCcdStaticContact.ComputeParallelSegmentParametrics | SurgSim/Collision/SegmentSegmentCcdStaticContact.cpp:371-433 | for (nearly) parallel segments both parameters lie in [0, 1] in all six cases |
| SegmentSegmentCcdStaticContact.PointSegmentHit | SurgSim/Collision/SegmentSegmentCcdStaticContact.cpp:114-159 | a parameter set by the point-segment test lies in [0, 1], and the test reports contact exactly when it set r and the segment point at r is within the summed thickness of the point |
| SegmentSegmentCcdStaticContact.ClampIsEdgeMinimiser | SurgSim/Collision/SegmentSegmentCcdStaticContact.cpp:150-154 | clamping the projection abscissa to [0, 1] gives the same parameter as the edge minimiser of the distance quadratic |
| SegmentSegmentCcdStaticContact.PointSegmentClosest | SurgSim/Collision/SegmentSegmentCcdStaticContact.cpp:150-158 | for a segment that is not a point, the test sets r and the segment point at r is the closest one to the point among all points of the segment |
| SegmentSegmentCcdStaticContact.MinimiserIsClosest | SurgSim/Collision/SegmentSegmentCcdStaticContact.cpp:150-158 | the edge minimiser of the point-segment distance quadratic names a closest point of the segment |
| SegmentSegmentCcdStaticContact.CoefficientsOf | SurgSim/Collision/SegmentSegmentCcdStaticContact.cpp:60-79 | the coefficients a and c are the squared lengths of P and Q that the degenerate-segment tests compare with the epsilon |
| SegmentSegmentCcdStaticContact.CollideStaticSegmentSegmentWithin | SurgSim/Collision/SegmentSegmentCcdStaticContact.cpp:30-37 | the single-tolerance overload reports contact exactly when both parameters are set and the two closest points are within distanceEpsilon |
| SegmentSegmentCcdStaticContact.HalvesOutcome | SurgSim/Collision/SegmentSegmentCcdStaticContact.cpp:36-46 | two radii of half the tolerance give a total thickness equal to the tolerance |
| SegmentSegmentCcdStaticContact.ParametersInUnit | SurgSim/Collision/SegmentSegmentCcdStaticContact.cpp:85-105 | for proper segments both parameters lie in [0, 1] whichever branch computes them, so the range assertions on r and s hold |
| SegmentSegmentCcdStaticContact.RegionParametersInUnit | SurgSim/Collision/SegmentSegmentCcdStaticContact.cpp:92-97 | region classification followed by the clamp lands in the unit square for any unscaled minimiser |
| SegmentSegmentCcdStaticContact.InteriorIsStationary | SurgSim/Collision/SegmentSegmentCcdStaticContact.cpp:92-97 | in the interior region the scaled parameters zero both partial derivatives of the squared distance (see also lines 361-365) |
| SegmentSegmentCcdStaticContact.FirstDerivativeVanishes | SurgSim/Collision/SegmentSegmentCcdStaticContact.cpp:92-93 | the scaled solution of the 2x2 system zeroes the derivative in r (see also lines 361-365) |
| SegmentSegmentCcdStaticContact.SecondDerivativeVanishes | SurgSim/Collision/SegmentSegmentCcdStaticContact.cpp:92-93 | the scaled solution of the 2x2 system zeroes the derivative in s (see also lines 361-365) |
| SegmentSegmentCcdStaticContact.EdgeR0Minimises | SurgSim/Collision/SegmentSegmentCcdStaticContact.cpp:289-306 | on the edge r = 0 the chosen s minimises the squared distance along that edge |
| SegmentSegmentCcdStaticContact.EdgeR1Minimises | SurgSim/Collision/SegmentSegmentCcdStaticContact.cpp:307-324 | on the edge r = 1 the chosen s minimises the squared distance along that edge |
| SegmentSegmentCcdStaticContact.EdgeS0Minimises | SurgSim/Collision/SegmentSegmentCcdStaticContact.cpp:325-342 | on the edge s = 0 the chosen r minimises the squared distance along that edge |
| SegmentSegmentCcdStaticContact.EdgeS1Minimises | SurgSim/Collision/SegmentSegmentCcdStaticContact.cpp:343-360 | on the edge s = 1 the chosen r minimises the squared distance along that edge |
| SegmentSegmentCcdStaticContact.SegmentSegmentOutcome | SurgSim/Collision/SegmentSegmentCcdStaticContact.cpp:39-112 | every parameter set lies in [0, 1]; a degenerate P fixes r = 0, a degenerate Q fixes s = 0, proper segments get both parameters, and contact is reported exactly when both are set and the closest points are within radiusP + radiusQ |
| TriangleMeshes.AddSlot | SurgSim/DataStructures/TriangleMesh-inl.h:95-115 | addTriangle stores the triangle at the returned index: it appends when the free list is empty, otherwise it reuses and pops the most recently freed slot, and no other slot changes |
| TriangleMeshes.RemoveSlot | SurgSim/DataStructures/TriangleMesh-inl.h:189-198 | removeTriangle leaves the slot marked removed with its vertex ids kept and every other slot unchanged |
| TriangleMeshes.AddKeepsFreeList | SurgSim/DataStructures/TriangleMesh-inl.h:95-115 | when the free list names exactly the removed slots, with no repeats, it still does after addTriangle, and the number of live triangles grows by one |
| TriangleMeshes.AppendKeepsFreeList | SurgSim/DataStructures/TriangleMesh-inl.h:102-106 | with nothing free the appended slot is live and the free list stays exact and empty |
| TriangleMeshes.ReuseKeepsFreeList | SurgSim/DataStructures/TriangleMesh-inl.h:107-112 | refilling and popping the last freed slot keeps the free list exact and adds one live triangle |
| TriangleMeshes.RemoveKeepsFreeList | SurgSim/DataStructures/TriangleMesh-inl.h:189-198 | removeTriangle keeps the free list exact; the live count drops by one for a live slot and is unchanged for a removed one |
| TriangleMeshes.RemoveIdempotent | SurgSim/DataStructures/TriangleMesh-inl.h:193-197 | removing the same slot twice has the effect of removing it once |
| TriangleMeshes.RemoveThenAddReusesSlot | SurgSim/DataStructures/TriangleMesh-inl.h:95-115 | adding right after removing a live slot puts the new triangle back at that index and restores the free list (see also lines 189-198) |
| TriangleMeshes.NumTrianglesCountsValid | SurgSim/DataStructures/TriangleMesh-inl.h:123-127 | getNumTriangles (slots minus free slots) equals the number of live triangles whenever the free list is exact |
| TriangleMeshes.ConvertAsWrittenFreesLiveSlot | SurgSim/DataStructures/TriangleMesh-inl.h:61-73 | as written, a removed source triangle is added live and also pushed on the free list, so the free list is no longer exact |
| TriangleMeshes.ConvertAsWrittenOverwritesSlot | SurgSim/DataStructures/TriangleMesh-inl.h:61-73 | as written, for [a, removed b, c] the third addTriangle overwrites b's slot, so three source slots become two and c changes index |
| TriangleMeshes.ConvertAsWrittenWritesPastEnd | SurgSim/DataStructures/TriangleMesh-inl.h:61-73 | as written, for [removed a, removed b, c] the third addTriangle writes at an index past the end of the slots |
| TriangleMeshes.RemovedIndicesUpTo | SurgSim/DataStructures/TriangleMesh-inl.h:64-73 | the indices pushed for removed source slots are removed slots, in increasing order |
| TriangleMeshes.RemovedIndicesComplete | SurgSim/DataStructures/TriangleMesh-inl.h:64-73 | every removed source slot below n is among those indices |
| TriangleMeshes.ConvertCorrectedKeepsSlots | SurgSim/DataStructures/TriangleMesh-inl.h:44-74 | the corrected copy keeps every source slot at its index with its flag, its free list is exact, and getNumTriangles counts the live source triangles |
| TriangleMeshes.AddRemoveKeepIdsInRange | SurgSim/DataStructures/TriangleMesh-inl.h:216-249 | addTriangle and removeTriangle keep every edge and slot vertex id below the vertex count when the added triangle's ids are |
| TriangleMeshes.TriangleMesh.Copy | SurgSim/DataStructures/TriangleMesh-inl.h:30-42 | the same-type copy has the other mesh's vertices, edges, slots and free list |
| TriangleMeshes.TriangleMesh.Convert | SurgSim/DataStructures/TriangleMesh-inl.h:44-74 | the converting copy has the source's vertex positions and edges, and its slots and free list are the corrected copy's, so the mesh stays valid |
| TriangleMeshes.TriangleMesh.AddEdge | SurgSim/DataStructures/TriangleMesh-inl.h:88-93 | addEdge appends and returns the index of the new edge |
| TriangleMeshes.TriangleMesh.AddTriangle | SurgSim/DataStructures/TriangleMesh-inl.h:95-115 | the new slots, free list and returned index are those of AddSlot, and a valid mesh stays valid |
| TriangleMeshes.TriangleMesh.GetTriangle | SurgSim/DataStructures/TriangleMesh-inl.h:171-187 | only a live slot can be read, and it is returned as stored |
| TriangleMeshes.TriangleMesh.RemoveTriangle | SurgSim/DataStructures/TriangleMesh-inl.h:189-198 | the new slots and free list are those of RemoveSlot, and a valid mesh stays valid |
| TriangleMeshes.TriangleMesh.IsValid | SurgSim/DataStructures/TriangleMesh-inl.h:216-249 | the answer is true exactly when every edge and every triangle slot, removed ones included, names vertex ids below the vertex count |
| TriangleMeshes.TriangleMesh.ClearEdges | SurgSim/DataStructures/TriangleMesh-inl.h:252-256 | doClearEdges empties the edges and changes nothing else |
| TriangleMeshes.TriangleMesh.ClearTriangles | SurgSim/DataStructures/TriangleMesh-inl.h:258-263 | doClearTriangles empties the slots and the free list, which leaves the mesh valid |
| TriangleMeshes.TriangleMesh.Clear | SurgSim/DataStructures/TriangleMesh-inl.h:288-294 | doClear empties the triangles, edges and vertices |
| SparseMatrices.LowerBound | SurgSim/Math/SparseMatrix.h:218-223 | searchLowerIndex returns a position in [lo, hi] before which every inner index is smaller than the key, and at which, if below hi, the index is at least the key |
| SparseMatrices.Find | SurgSim/Math/SparseMatrix.h:357-372 | a stored entry (s, i) is found in slice s at a position holding inner index i |
| SparseMatrices.LowerBoundFinds | SurgSim/Math/SparseMatrix.h:218-223 | in a sorted slice the lower bound of a stored index is exactly its position |
| SparseMatrices.LowerBoundBeforeLast | SurgSim/Math/SparseMatrix.h:220-222 | searching up to the slice end minus one, as the source does, still finds any stored index other than the last one, and the last one too |
| SparseMatrices.FindExact | SurgSim/Math/SparseMatrix.h:357-372 | Find names a position exactly when that position of the slice holds the inner index |
| SparseMatrices.SliceUnique | SurgSim/Math/SparseMatrix.h:207-210 | a storage position belongs to one slice only |
| SparseMatrices.CoeffAfterWrite | SurgSim/Math/SparseMatrix.h:94-97 | writing the value at a stored position keeps the storage compressed and changes that coefficient and no other (see also lines 133-136, 359) |
| SparseMatrices.CoeffAfterWriteAt | SurgSim/Math/SparseMatrix.h:94-97 | after the write, entry (t, j) reads the new value when it is the written entry and its old value otherwise (see also lines 133-136, 359) |
| SparseMatrices.WrittenIn | SurgSim/Math/SparseMatrix.h:359-374 | on storage seen through its layout, writing the stored position of entry (r, c) keeps the storage compressed, makes that coefficient the new value and leaves every other coefficient as it was |
| SparseMatrices.BlockContiguous | SurgSim/Math/SparseMatrix.h:225-238 | when every index of the block is stored in a sorted slice, they sit contiguously from the first one, in increasing order |
| SparseMatrices.SortedOrder | SurgSim/Math/SparseMatrix.h:212-223 | in a sorted slice a smaller inner index sits at an earlier position |
| SparseMatrices.AboveByGaps | SurgSim/Math/SparseMatrix.h:229-238 | along a sorted slice inner indices grow by at least one per position |
| SparseMatrices.BlockNotEmpty | SurgSim/Math/SparseMatrix.h:209-214 | a slice holding a whole non-empty block has at least one entry, so the first-entry read is in range |
| SparseMatrices.BlockInSlice | SurgSim/Math/SparseMatrix.h:212-238 | the first-element search finds innerStart, and the innerSize block entries follow it contiguously within the slice, so all three source assertions hold |
| SparseMatrices.InsertAt | SurgSim/Math/SparseMatrix.h:284 | inserting an element shifts everything from position p one place up and keeps the prefix |
| SparseMatrices.InsertKeepsCoeffs | SurgSim/Math/SparseMatrix.h:284 | coeffRef on a missing entry inserts a zero at its sorted position: storage stays compressed, the new entry is found there, every coefficient is unchanged and every stored entry stays stored |
| SparseMatrices.InsertCompressed | SurgSim/Math/SparseMatrix.h:284 | the insertion keeps slice bounds monotone and each slice sorted |
| SparseMatrices.InsertKeepsStored | SurgSim/Math/SparseMatrix.h:284 | an entry stored before the insertion is still stored with the same value |
| SparseMatrices.InsertMovesEntry | SurgSim/Math/SparseMatrix.h:284 | a stored position moves up by one exactly when it lies at or after the insertion point, staying in its slice |
| SparseMatrices.InsertAddsOnlyZero | SurgSim/Math/SparseMatrix.h:284 | an entry missing before the insertion reads 0 afterwards, whether it is the inserted one or not |
| SparseMatrices.InsertedSliceSorted | SurgSim/Math/SparseMatrix.h:284 | inserting at the lower bound keeps every slice sorted |
| SparseMatrices.AppliedStep | SurgSim/Math/SparseMatrix.h:84-146 | applying the operation at the position of the next block entry extends the visited part of the block by that entry |
| SparseMatrices.VisitedNextSlice | SurgSim/Math/SparseMatrix.h:205-241 | finishing one slice of the block is starting the next |
| SparseMatrices.AppliedCoeff | SurgSim/Math/SparseMatrix.h:178-242 | after all slices, each block coefficient is op of its old value and the sub-matrix entry, and every other coefficient is unchanged |
| SparseMatrices.BlockCoeffIn | SurgSim/Math/SparseMatrix.h:178-242 | through the layout, coefficient (r, c) after the block pass is op of its old value and the block value at its offset when (r, c) is in the block, and its old value otherwise |
| SparseMatrices.BlockAppliedIn | SurgSim/Math/SparseMatrix.h:178-242 | with the sub-matrix entries, read in the storage order, as the block values, every block coefficient becomes op of its old value and the sub-matrix entry at its offset and every other coefficient is unchanged |
| SparseMatrices.CoeffRefIn | SurgSim/Math/SparseMatrix.h:284 | coeffRef returns the position where entry (r, c) is stored, inserting it if needed, and the storage stays compressed (see also lines 359, 374) |
| SparseMatrices.ApplyCell | SurgSim/Math/SparseMatrix.h:94-97 | op(coeffRef(r, c), x) keeps the storage compressed (see also lines 109-112, 284) |
| SparseMatrices.CoeffRefKeepsCoeffs | SurgSim/Math/SparseMatrix.h:284 | coeffRef changes no coefficient and leaves a stored entry's storage untouched |
| SparseMatrices.ApplyCellCoeffs | SurgSim/Math/SparseMatrix.h:94-97 | after op(coeffRef(r, c), x) entry (r, c) is stored with op of its old value and x, and every other coefficient is unchanged (see also lines 109-112, 284) |
| SparseMatrices.CellStateStep | SurgSim/Math/SparseMatrix.h:280-286 | visiting one more block entry changes only that entry, to op of its value and the sub-matrix value |
| SparseMatrices.BlockStep | SurgSim/Math/SparseMatrix.h:280-286 | after visiting entry (row, column) the entries up to it in row-major order hold their new values and the rest their old ones |
| SparseMatrices.RowDoneNext | SurgSim/Math/SparseMatrix.h:280-286 | finishing a row of the block is starting the next |
| SparseMatrices.BlockStart | SurgSim/Math/SparseMatrix.h:280-286 | before the first entry every coefficient holds its original value |
| SparseMatrices.BlockFinished | SurgSim/Math/SparseMatrix.h:266-287 | after the two loops every block entry is stored with op of its old value and the sub-matrix entry, and every other coefficient is unchanged |
| SparseMatrices.SparseMatrix.constructor | SurgSim/Math/SparseMatrix.h:32 | a new matrix has the given shape and order and stores no entry |
| SparseMatrices.SparseMatrix.BlockWithSearch | SurgSim/Math/SparseMatrix.h:178-242 | with every block entry stored, the pattern is unchanged, each block coefficient becomes op of its old value and the sub-matrix entry, and every other coefficient is unchanged |
| SparseMatrices.SparseMatrix.BlockWithSearchSlices | SurgSim/Math/SparseMatrix.h:205-241 | the outer loop applies the operation to every slice of the block |
| SparseMatrices.SparseMatrix.BlockFound | SurgSim/Math/SparseMatrix.h:225-238 | every slice of a fully stored block holds all innerSize indices from innerStart |
| SparseMatrices.SparseMatrix.BlockWithSearchSlice | SurgSim/Math/SparseMatrix.h:209-240 | one pass of the outer loop finds the block's first entry in the slice and applies the operation to the innerSize entries from it |
| SparseMatrices.SparseMatrix.ApplyRun | SurgSim/Math/SparseMatrix.h:84-146 | the contiguous add or assign applies the operation to the innerSize stored entries from the first one, in order |
| SparseMatrices.SparseMatrix.WriteStored | SurgSim/Math/SparseMatrix.h:359-374 | writing a stored entry changes that coefficient only and keeps the pattern |
| SparseMatrices.SparseMatrix.ZeroRow | SurgSim/Math/SparseMatrix.h:352-362 | every coefficient of the row becomes 0, every other coefficient is unchanged, and nothing is inserted |
| SparseMatrices.SparseMatrix.ZeroColumn | SurgSim/Math/SparseMatrix.h:367-377 | every coefficient of the column becomes 0, every other coefficient is unchanged, and nothing is inserted |
| SparseMatrices.SparseMatrix.ClearMatrix | SurgSim/Math/SparseMatrix.h:383-393 | every stored value becomes 0, so every coefficient is 0, and the pattern is kept |
| SparseMatrices.SparseMatrix.CoeffRef | SurgSim/Math/SparseMatrix.h:284 | the new storage and returned position are those of CoeffRefIn |
| SparseMatrices.SparseMatrix.ApplyAt | SurgSim/Math/SparseMatrix.h:284 | entry (r, c) becomes stored with op of its old value and x; every other coefficient is unchanged |
| SparseMatrices.SparseMatrix.BlockOperation | SurgSim/Math/SparseMatrix.h:266-287 | every block entry becomes stored with op of its old value and the sub-matrix entry; every other coefficient is unchanged |
| SparseMatrices.SparseMatrix.AddSubMatrix | SurgSim/Math/SparseMatrix.h:296-302 | block (blockIdRow, blockIdCol) of sub-sized blocks has sub added to it and the rest of the matrix is unchanged |
| SparseMatrices.SparseMatrix.AssignSubMatrix | SurgSim/Math/SparseMatrix.h:326-332 | block (blockIdRow, blockIdCol) is overwritten by sub and the rest of the matrix is unchanged |
| SparseMatrices.SparseMatrix.AddSubMatrixNoInitialize | SurgSim/Math/SparseMatrix.h:311-318 | on a fully stored block, sub is added to the block, the pattern is unchanged and the rest of the matrix is unchanged |
| SparseMatrices.SparseMatrix.AssignSubMatrixNoInitialize | SurgSim/Math/SparseMatrix.h:340-347 | on a fully stored block, the block is overwritten by sub, the pattern is unchanged and the rest of the matrix is unchanged |
| LinearSolvers.EmptyMatrix | SurgSim/Math/LinearSparseSolveAndInverse.cpp:31-41 | the matrix a solver holds before its first setMatrix is a well-formed 0 x 0 matrix |
| LinearSolvers.SliceContaining | SurgSim/Math/LinearSparseSolveAndInverse.cpp:44-61 | every stored position lies in exactly the slice whose bounds enclose it, so comparing slices covers all inner indices |
| LinearSolvers.SamePatternExact | SurgSim/Math/LinearSparseSolveAndInverse.cpp:40-67 | comparing every slice, sameMatrix holds exactly when the sizes agree, there is more than one column, and the outer and inner index arrays are equal |
| LinearSolvers.AsWrittenMissesLastSlice | SurgSim/Math/LinearSparseSolveAndInverse.cpp:44-47 | as written, the loop stops before the last slice: two 2 x 2 matrices that differ only in their last column are judged the same |
| LinearSolvers.SlicesEqual | SurgSim/Math/LinearSparseSolveAndInverse.cpp:44-66 | the comparison loop answers true exactly when the first n slices have equal bounds and equal inner indices, leaving at the first difference |
| LinearSolvers.SameMatrix | SurgSim/Math/LinearSparseSolveAndInverse.cpp:40-67 | the corrected sameMatrix answers exactly SamePattern, comparing all slices |
| LinearSolvers.LuSolver.constructor | SurgSim/Math/LinearSparseSolveAndInverse.cpp:31-41 | a new LU solver holds the empty matrix, an empty identity and no solver calls |
| LinearSolvers.LuSolver.SetMatrix | SurgSim/Math/LinearSparseSolveAndInverse.cpp:31-86 | a matrix with the stored pattern is only factorized and the stored matrix is kept; any other matrix is computed and stored; the identity is resized to cols x rows, and reset only when its size changes |
| LinearSolvers.CgSolver.SetMatrix | SurgSim/Math/LinearSparseSolveAndInverse.cpp:119-124 | the CG solver always computes and stores the new matrix |
| ConstraintRows.SideScale | SurgSim/Physics/MassSpringConstraintFixedPoint.cpp:52 | the side factor squares to one and is positive exactly on the positive side |
| ConstraintRows.Mlcp.constructor | SurgSim/Physics/MassSpringConstraintFixedPoint.cpp:41 | an MLCP starts with the given b and mu and no row handed to it |
| ConstraintRows.Mlcp.UpdateConstraint | SurgSim/Physics/MassSpringConstraintFixedPoint.cpp:129-130 | updateConstraint records the row with its representation and constraint index and leaves b and mu alone |
| ConstraintRows.SelectNodes | SurgSim/Physics/MassSpringConstraintFixedPoint.cpp:58-75 | a node localization constrains that node with coordinate 1, else a local position constrains its element's nodes with its coordinates, and neither is a failure |
| ConstraintRows.NodeEntries | SurgSim/Physics/MassSpringConstraintFrictionlessContact.cpp:123-125 | a node contributes exactly three entries to a direction row |
| ConstraintRows.NodeEntriesAt | SurgSim/Physics/MassSpringConstraintFrictionlessContact.cpp:123-125 | entry axis of a node is coordinate * direction[axis] * scale * dt at dof dofPerNode * node + axis |
| ConstraintRows.AxisRowLength | SurgSim/Physics/MassSpringConstraintFixedPoint.cpp:122-128 | an axis row holds one entry per nonzero coordinate, matching the reserve of 3 * count per three rows |
| ConstraintRows.AxisRowSound | SurgSim/Physics/MassSpringConstraintFixedPoint.cpp:122-128 | every entry of an axis row is coordinate * factor at dof 3 * node + axis for a node whose coordinate is nonzero |
| ConstraintRows.AxisRowComplete | SurgSim/Physics/MassSpringConstraintFixedPoint.cpp:122-128 | every node with a nonzero coordinate has its entry in the axis row |
| ConstraintRows.NodeAxisRow | SurgSim/Physics/MassSpringConstraintFixedPoint.cpp:58-128 | a node localization gives a one-entry axis row of value dt * scale at the node's dof for that axis |
| ConstraintRows.DirectionRowLength | SurgSim/Physics/FemConstraintFrictionalSliding.cpp:80-86 | a direction row holds three entries per covered node: every node, or only those with a nonzero coordinate when zeros are skipped |
| ConstraintRows.DirectionRowSound | SurgSim/Physics/FemConstraintFrictionalSliding.cpp:80-86 | every entry of a direction row is one of the three entries of a covered node |
| ConstraintRows.DirectionRowComplete | SurgSim/Physics/FemConstraintFrictionalSliding.cpp:80-86 | each of the three entries of each covered node is in the direction row |
| ConstraintRows.AxisUpdatesAt | SurgSim/Physics/MassSpringConstraintFixedPoint.cpp:119-131 | the n axis rows are handed over in axis order, row axis at constraint index c + axis |
| MassSpringFixedPoint.FixedPointConstraint.constructor | SurgSim/Physics/MassSpringConstraintFixedPoint.cpp:30-32 | a new builder has an empty H row |
| MassSpringFixedPoint.FixedPointConstraint.DoBuild | SurgSim/Physics/MassSpringConstraintFixedPoint.cpp:38-132 | an inactive representation changes nothing, a localization with neither node nor position fails, otherwise b[c..c+2] grows by scale * position and the X, Y, Z rows of the selected nodes go to constraints c..c+2 |
| MassSpringFixedPoint.FixedPointConstraint.FillAxisRow | SurgSim/Physics/MassSpringConstraintFixedPoint.cpp:121-128 | the inner loop leaves H equal to the axis row of the selected nodes |
| MassSpringFrictionlessContact.FrictionlessContact.constructor | SurgSim/Physics/MassSpringConstraintFrictionlessContact.cpp:32-35 | a new builder has an empty H row and precision 1e-4 |
| MassSpringFrictionlessContact.FrictionlessContact.DoBuild | SurgSim/Physics/MassSpringConstraintFrictionlessContact.cpp:42-130 | an inactive representation changes nothing, a localization with neither node nor position fails, otherwise b[c] grows by scale * (n . p) - radius - precision, radius being the segment shape's or zero, and the normal row of the selected nodes goes to constraint c |
| MassSpringFrictionlessContact.FrictionlessContact.FillNormalRow | SurgSim/Physics/MassSpringConstraintFrictionlessContact.cpp:119-127 | the loop leaves H equal to the normal direction row over nodes with a nonzero coordinate |
| FemFrictionalSliding.SlidingViolations | SurgSim/Physics/FemConstraintFrictionalSliding.cpp:72-99 | b[c] and b[c+1] grow by the signed violations along the two normals, b[c+2..c+4] by scale * the bilateral point, and no other entry of b changes |
| FemFrictionalSliding.FrictionalSlidingConstraint.constructor | SurgSim/Physics/FemConstraintFrictionalSliding.cpp:32-34 | a new builder has an empty H row |
| FemFrictionalSliding.FrictionalSlidingConstraint.DoBuild | SurgSim/Physics/FemConstraintFrictionalSliding.cpp:40-122 | an inactive FEM changes nothing; otherwise two normal rows at c and c+1, three bilateral rows at c+2..c+4 taken from the previous first localization for two-node elements, and mu[c] set to the friction coefficient |
| FemFrictionalSliding.FrictionalSlidingConstraint.BuildNormalRows | SurgSim/Physics/FemConstraintFrictionalSliding.cpp:72-90 | the two normal rows are handed over in order and b grows by their violations |
| FemFrictionalSliding.FrictionalSlidingConstraint.BuildBilateralRows | SurgSim/Physics/FemConstraintFrictionalSliding.cpp:99-119 | b[c+2..c+4] grows by scale * the point and the three axis rows go to constraints c+2..c+4 |
| FemFrictionalSliding.FrictionalSlidingConstraint.FillAxisRow | SurgSim/Physics/FemConstraintFrictionalSliding.cpp:108-116 | the inner loop leaves H equal to the axis row over nodes with a nonzero coordinate |
| FemFrictionalSliding.FrictionalSlidingConstraint.FillDirectionRow | SurgSim/Physics/FemConstraintFrictionalSliding.cpp:79-86 | the inner loop leaves H equal to the direction row over every node of the element |
| MassSpringLocalizations.BlendOfStillPoint | SurgSim/Physics/MassSpringLocalization.cpp:106-115 | a point that stays put between the two states is reported at every time |
| MassSpringLocalizations.BlendEnds | SurgSim/Physics/MassSpringLocalization.cpp:106-115 | up to machine epsilon the previous value, from 1 - epsilon the current value, in between the linear interpolation (1 - t) previous + t current |
| MassSpringLocalizations.FirstClosest | SurgSim/Physics/MassSpringLocalization.cpp:185-206 | the chosen element is at least as close as every element and strictly closer than every earlier one, since only a strictly smaller distance replaces it |
| MassSpringLocalizations.FirstClosestUnique | SurgSim/Physics/MassSpringLocalization.cpp:185-206 | those two properties single out the element the scan picks |
| MassSpringLocalizations.MassSpringLocalization.constructor | SurgSim/Physics/MassSpringLocalization.cpp:34-39 | a new localization is on the given representation with neither node nor position |
| MassSpringLocalizations.MassSpringLocalization.SetLocalNode | SurgSim/Physics/MassSpringLocalization.cpp:46-51 | setting a node is refused once a position is set, and otherwise sets the node and nothing else |
| MassSpringLocalizations.MassSpringLocalization.SetLocalPosition | SurgSim/Physics/MassSpringLocalization.cpp:58-70 | setting a position needs a representation, no node and a coordinate valid on the representation, and then sets the position and nothing else |
| MassSpringLocalizations.MassSpringLocalization.CalculatePosition | SurgSim/Physics/MassSpringLocalization.cpp:78-116 | a position is computed exactly when the localization has a node or a position, and is otherwise a failure |
| MassSpringLocalizations.MassSpringLocalization.CalculateVelocityAsWritten | SurgSim/Physics/MassSpringLocalization.cpp:118-156 | as written, a position localization's velocity is its calculated position |
| MassSpringLocalizations.MassSpringLocalization.CalculateVelocity | SurgSim/Physics/MassSpringLocalization.cpp:118-156 | a velocity is computed exactly when the localization has a node or a position |
| MassSpringLocalizations.MassSpringLocalization.MoveClosestTo | SurgSim/Physics/MassSpringLocalization.cpp:168-226 | with no element nothing changes and false is returned; otherwise the localization moves to the first closest element at barycentric (1 - t, t), drops its node, and reports an end reached exactly at the first element's first node or the last element's second node |
| MassSpringLocalizations.MassSpringLocalization.DoCopy | SurgSim/Physics/MassSpringLocalization.cpp:228-241 | the copy is a new localization on the same representation with the same node and position |
| MassSpringLocalizations.CreateLocalization | SurgSim/Physics/MassSpringRepresentation.cpp:504-525 | a location with a node gives a node localization, else one with an element coordinate gives a position localization, and one with neither is a failure |
| MassSpringLocalizations.CornerPoint | SurgSim/Physics/MassSpringLocalization.cpp:91-99 | a position at an element corner computes that corner node's value |
| MassSpringLocalizations.NodeAndCornerAgree | SurgSim/Physics/MassSpringLocalization.cpp:86-99 | a node localization and a position at the corner of that node compute the same position |
| MassSpringLocalizations.FirstCornerReadable | SurgSim/Physics/MassSpringLocalization.cpp:91-99 | the element [0, 1] at coordinate (1, 0) can be read in any two-node state and gives node 0 |
| MassSpringLocalizations.PositionVelocities | SurgSim/Physics/MassSpringLocalization.cpp:131-155 | for a position localization the as-written velocity blends element points of the positions, the corrected one blends element points of the velocities |
| MassSpringLocalizations.VelocityReadsPositions | SurgSim/Physics/MassSpringLocalization.cpp:131-139 | a position localization on an element whose first node rests at (1, 0, 0) has a velocity of (1, 0, 0) as written and of zero once corrected |
| MassSpringRepresentations.SumConcat | SurgSim/Physics/MassSpringRepresentation.cpp:139-147 | the accumulated total of two runs of masses is the sum of their totals |
| MassSpringRepresentations.SumNonNegative | SurgSim/Physics/MassSpringRepresentation.cpp:139-147 | masses that are not negative add up to a total that is not negative |
| MassSpringRepresentations.Zeros | SurgSim/Physics/MassSpringRepresentation.cpp:277 | a cleared diagonal has n entries, all zero |
| MassSpringRepresentations.Repeat3 | SurgSim/Physics/MassSpringRepresentation.cpp:279-284 | each mass written three times gives three entries per node |
| MassSpringRepresentations.MassDiagonal | SurgSim/Physics/MassSpringRepresentation.cpp:271-285 | the mass diagonal keeps the size of the matrix |
| MassSpringRepresentations.MassDiagonalAt | SurgSim/Physics/MassSpringRepresentation.cpp:279-284 | node i's mass sits on diagonal entries 3i, 3i+1 and 3i+2, and every later entry is zero |
| MassSpringRepresentations.Repeat3At | SurgSim/Physics/MassSpringRepresentation.cpp:279-284 | entry j of the tripled masses is mass j / 3 |
| MassSpringRepresentations.MassDiagonalTrace | SurgSim/Physics/MassSpringRepresentation.cpp:139-147 | the trace of the mass matrix is three times the total mass (see also lines 271-285) |
| MassSpringRepresentations.Repeat3Sum | SurgSim/Physics/MassSpringRepresentation.cpp:279-284 | the tripled masses add up to three times the total mass |
| MassSpringRepresentations.WriteNodeMass | SurgSim/Physics/MassSpringRepresentation.cpp:281-283 | writing the next node's mass on its three entries extends the filled diagonal by that node |
| MassSpringRepresentations.WeightedSumOfCoincidentNodes | SurgSim/Physics/MassSpringRepresentation.cpp:589-594 | on an element whose nodes all sit at x the computed point is x scaled by the sum of the coordinates, so x itself for a valid coordinate summing to one |
| MassSpringRepresentations.WeightedSumAtCorner | SurgSim/Physics/MassSpringRepresentation.cpp:589-594 | the coordinate with 1 at j and 0 elsewhere gives node j's position |
| MassSpringRepresentations.WeightedSumBeforeCorner | SurgSim/Physics/MassSpringRepresentation.cpp:589-594 | zero coordinates contribute nothing |
| MassSpringRepresentations.DistributedForce | SurgSim/Physics/MassSpringRepresentation.cpp:195-201 | distributing a force over an element keeps the size of the force vector |
| MassSpringRepresentations.AddSegmentAt | SurgSim/Physics/MassSpringRepresentation.cpp:185 | adding to a 3-dof segment adds the force's axis component to that entry |
| MassSpringRepresentations.DistributedForceAt | SurgSim/Physics/MassSpringRepresentation.cpp:195-201 | on an element with distinct nodes node i's segment grows by force * c_i |
| MassSpringRepresentations.DistributedForceLast | SurgSim/Physics/MassSpringRepresentation.cpp:195-201 | the last node's segment grows by its share when no earlier node shares it |
| MassSpringRepresentations.DistributedForceOutside | SurgSim/Physics/MassSpringRepresentation.cpp:195-201 | an entry outside every element node's segment keeps its value |
| MassSpringRepresentations.MassSpringRepresentation.constructor | SurgSim/Physics/MassSpringRepresentation.cpp:40-50 | a new representation has an empty mass-spring mesh, no masses, no springs, no dof and no external force, and is active and not initialized |
| MassSpringRepresentations.MassSpringRepresentation.AddMass | SurgSim/Physics/MassSpringRepresentation.cpp:102-105 | the mass is appended and nothing else changes |
| MassSpringRepresentations.MassSpringRepresentation.AddSpring | SurgSim/Physics/MassSpringRepresentation.cpp:107-110 | the spring is appended and nothing else changes |
| MassSpringRepresentations.MassSpringRepresentation.GetTotalMass | SurgSim/Physics/MassSpringRepresentation.cpp:139-147 | the loop returns the sum of the masses, which is not negative when no mass is |
| MassSpringRepresentations.MassSpringRepresentation.BeforeUpdate | SurgSim/Physics/MassSpringRepresentation.cpp:236-253 | an inactive representation passes; an active one passes exactly when it has three dof per mass, masses, springs and dof |
| MassSpringRepresentations.MassSpringRepresentation.ComputeCartesianCoordinate | SurgSim/Physics/MassSpringRepresentation.cpp:581-595 | the loop returns the element's node positions weighted by the coordinate |
| MassSpringRepresentations.MassSpringRepresentation.AddExternalGeneralizedForce | SurgSim/Physics/MassSpringRepresentation.cpp:169-234 | the external force is flagged; a node localization adds the force to that node's segment, a position localization adds force * c_i to each element node's segment, and one with neither fails and leaves the force alone |
| MassSpringRepresentations.MassSpringRepresentation.SetInitialState | SurgSim/Physics/MassSpringRepresentation.cpp:542-559 | the initial state is set and fixes the dof count at three per node |
| MassSpringRepresentations.MassSpringRepresentation.Initialize | SurgSim/Physics/MassSpringRepresentation.cpp:56-100 | initializing once sizes the mass matrix to the dof count and clears it |
| MassSpringRepresentations.MassSpringRepresentation.ComputeM | SurgSim/Physics/MassSpringRepresentation.cpp:271-285 | the loop leaves the mass diagonal holding each node's mass on its three entries and zero past them |
| MassSpringRepresentations.MassSpringRepresentation.SetMassSpring | SurgSim/Physics/MassSpringRepresentation.cpp:534-560 | before initialization, the mesh is taken, one mass per vertex and every spring are added, and the initial state holds the vertex positions, zero velocities and the mesh's boundary conditions |
| MassSpringRepresentations.SegmentCoordinateValid | SurgSim/Physics/MassSpringRepresentation.cpp:567-579 | the barycentric coordinate (1 - t, t) of an existing 2-node element is valid for t in [0, 1] |
| MassSprings.FlavoursDifferOnlyInListProperty | SurgSim/Physics/MassSpring.cpp:155-181 | MassSpring and MassSpringModel write element sections of the same length that differ only in the list-property line, and exactly for 3-, 4- and 8-node elements |
| MassSprings.MassSpring.constructor | SurgSim/Physics/MassSpring.cpp:31-33 | a new mesh of either class is empty, with no radius and no thickness |
| MassSprings.MassSpring.AddVertex | SurgSim/Physics/MassSpring.cpp:194-198 | the inherited vertex container appends the vertex and nothing else changes |
| MassSprings.MassSpring.AddMass | SurgSim/Physics/MassSpring.cpp:35-38 | the mass is appended and nothing else changes |
| MassSprings.MassSpring.AddSpring | SurgSim/Physics/MassSpring.cpp:40-43 | the spring is appended and nothing else changes |
| MassSprings.MassSpring.AddBoundaryCondition | SurgSim/Physics/MassSpring.cpp:77-81 | the node is appended and the answer is its index |
| MassSprings.MassSpring.AddElement | SurgSim/Physics/MassSpring.cpp:98-105 | an element with the first element's node count (or the first element) is appended, the answer is the new number of elements, and every element keeps the same node count |
| MassSprings.MassSpring.NumNodesPerElement | SurgSim/Physics/MassSpring.cpp:117-122 | the first element's node count, which is every element's when elements are uniform |
| MassSprings.MassSpring.SetRadius | SurgSim/Physics/MassSpring.cpp:124-127 | the radius is set and nothing else changes |
| MassSprings.MassSpring.SetThickness | SurgSim/Physics/MassSpring.cpp:134-137 | the thickness is set and nothing else changes |
| MassSprings.MassSpring.SaveAsWritten | SurgSim/Physics/MassSpring.cpp:144-266 | as written, save fails exactly when the file opens and the mesh has no element |
| MassSprings.MassSpring.Save | SurgSim/Physics/MassSpring.cpp:144-266 | save with the trailer guarded like the header always succeeds, and reports a file it could not open |
| MassSprings.ElementlessSaveFails | SurgSim/Physics/MassSpring.cpp:155-222 | a mesh without elements fails to save as written, while the guarded save writes the header without element section and no size value |
| MassSprings.SavesAgreeWithElements | SurgSim/Physics/MassSpring.cpp:144-266 | with at least one element, or when the file cannot be opened, both saves agree |
| MassSprings.ElementSectionChoice | SurgSim/Physics/MassSpring.cpp:155-181 | an element section is written exactly for a mesh with elements of 2, 3, 4 or 8 nodes, and starts with the 1d, 2d or 3d element line and the element count |
| MassSpringGrids.SizeSubValue | SurgSim/Blocks/MassSpring1DRepresentation.cpp:68 | a size_t difference is the true one from k on and wraps to 2^64 + n - k below it |
| MassSpringGrids.IterationAt | SurgSim/Blocks/MassSpring3DRepresentation.cpp:42-50 | iteration (o, m, i) of a triple loop nest runs at position o * middle * inner + m * inner + i |
| MassSpringGrids.IterationsLength | SurgSim/Blocks/MassSpring3DRepresentation.cpp:42-50 | a triple loop nest runs outer * middle * inner iterations |
| MassSpringGrids.IterationsInNest | SurgSim/Blocks/MassSpring3DRepresentation.cpp:42-50 | every iteration's counters are within the loops' bounds |
| MassSpringGrids.BaseAtMostLast | SurgSim/Blocks/MassSpring3DRepresentation.cpp:42-50 | no iteration has a larger base node id than the last one |
| MassSpringGrids.StencilAt | SurgSim/Blocks/MassSpring3DRepresentation.cpp:48-49 | an iteration adds one spring per stencil entry |
| MassSpringGrids.GridSpringsLength | SurgSim/Blocks/MassSpring3DRepresentation.cpp:42-50 | a run of iterations adds iterations * stencil-size springs |
| MassSpringGrids.NestSpringsShape | SurgSim/Blocks/MassSpring3DRepresentation.cpp:42-50 | a nest adds outer * middle * inner * stencil-size springs, each joining two node ids below the node count with the family's stiffness and damping, when the stencil fits from its last base node |
| MassSpringGrids.NestSprings | SurgSim/Blocks/MassSpring3DRepresentation.cpp:42-50 | the triple loop adds the stencil's springs at each iteration's base node, innermost counter fastest |
| MassSpringGrids.NestsShape | SurgSim/Blocks/MassSpring3DRepresentation.cpp:39-80 | the nests of a family add the sum of their sizes in springs, each within the node range |
| MassSpringGrids.FamilyShape | SurgSim/Blocks/MassSpring3DRepresentation.cpp:39-80 | a family adds its nests' springs only when its stiffness or damping is non-zero, and none otherwise |
| MassSpringGrids.AddFamily | SurgSim/Blocks/MassSpring3DRepresentation.cpp:31-81 | a family's nests in turn append their springs to the mesh and nothing else changes |
| MassSpringGrids.CornersAt | SurgSim/Blocks/MassSpring3DRepresentation.cpp:296-301 | an element has one node per corner offset |
| MassSpringGrids.GridElements | SurgSim/Blocks/MassSpring3DRepresentation.cpp:290-304 | the element nest adds one element per iteration |
| MassSpringGrids.AddSprings | SurgSim/Blocks/MassSpring3DRepresentation.cpp:48-49 | each spring is handed to the mesh's addSpring in order and nothing else changes |
| MassSpringGrids.AddBoundaryConditions | SurgSim/Blocks/MassSpring3DRepresentation.cpp:319-324 | each boundary-condition node is appended in order and nothing else changes |
| MassSpringGrids.AlongEnds | SurgSim/Blocks/MassSpring3DRepresentation.cpp:277-283 | the first node of a row sits on its first extremity and, with two nodes or more, the last on its last |
| MassSpringGrids.EqualMassesSum | SurgSim/Blocks/MassSpring3DRepresentation.cpp:280-281 | n equal masses add up to n times the mass |
| MassSpringGrids.ShareOutMass | SurgSim/Blocks/MassSpring3DRepresentation.cpp:247-281 | n shares of total / n add up to the total mass |
| MassSpring1D.LineSpringsJoin | SurgSim/Blocks/MassSpring1DRepresentation.cpp:58-62 | springs from node i to node i + gap stay within a line of n nodes |
| MassSpring1D.LineSpringsShape | SurgSim/Blocks/MassSpring1DRepresentation.cpp:56-73 | when enabled there are n - 1 stretching and n - 2 bending springs (none below that), all within the line and with the family's stiffness and damping |
| MassSpring1D.SingleNodeBendingOutOfRange | SurgSim/Blocks/MassSpring1DRepresentation.cpp:68-72 | as written, a single node with bending enabled gets 2^64 - 1 bending springs, the first joining node 0 to the missing node 2 |
| MassSpring1D.BendingBoundsAgree | SurgSim/Blocks/MassSpring1DRepresentation.cpp:68-72 | from two nodes on the wrapping and the guarded loop bounds give the same springs |
| MassSpring1D.AddNodes | SurgSim/Blocks/MassSpring1DRepresentation.cpp:42-47 | one mass and one vertex per node, in order |
| MassSpring1D.AddSegments | SurgSim/Blocks/MassSpring1DRepresentation.cpp:50-53 | the elements are the segments {i, i + 1} of neighbouring nodes |
| MassSpring1D.AddLineSprings | SurgSim/Blocks/MassSpring1DRepresentation.cpp:58-72 | a spring loop appends the springs from node i to node i + gap in order |
| MassSpring1D.Init1D | SurgSim/Blocks/MassSpring1DRepresentation.cpp:30-82 | a non-empty line gets a fresh mesh with equal masses of total / n at the given nodes, its segments, its stretching then bending springs and its boundary conditions, and the representation takes its masses, springs and 3n dof |
| MassSpring2D.LastNode | SurgSim/Blocks/MassSpring2DRepresentation.cpp:34-35 | the last node id is ny - 1 rows and nx - 1 columns in |
| MassSpring2D.SheetCorners | SurgSim/Blocks/MassSpring2DRepresentation.cpp:130-152 | the first node sits on the first corner and, with two nodes or more along both axes, the last node on the opposite corner |
| MassSpring2D.SheetPositions | SurgSim/Blocks/MassSpring2DRepresentation.cpp:136-152 | the node loop writes one position per iteration |
| MassSpring2D.NodeCount | SurgSim/Blocks/MassSpring2DRepresentation.cpp:136-152 | the node loop runs once per node |
| MassSpring2D.NodeAt | SurgSim/Blocks/MassSpring2DRepresentation.cpp:136-152 | node (row, col) is at position row * nx + col of the state |
| MassSpring2D.RowPoints | SurgSim/Blocks/MassSpring2DRepresentation.cpp:142-151 | a row holds nx positions |
| MassSpring2D.SheetRow | SurgSim/Blocks/MassSpring2DRepresentation.cpp:138-151 | a row of the sheet is a row of evenly spaced nodes between the row's extremities |
| MassSpring2D.AddRow | SurgSim/Blocks/MassSpring2DRepresentation.cpp:143-151 | the column loop writes the row's positions after the earlier ones and adds one mass per node |
| MassSpring2D.RowFits | SurgSim/Blocks/MassSpring2DRepresentation.cpp:136-152 | each row's positions fit in the nx * ny state |
| MassSpring2D.AddSheetRow | SurgSim/Blocks/MassSpring2DRepresentation.cpp:136-152 | one pass of the row loop extends the written positions by that row |
| MassSpring2D.AddNodes | SurgSim/Blocks/MassSpring2DRepresentation.cpp:130-152 | the node loops fill the state with the sheet's positions in id order and add nx * ny equal masses to the representation |
| MassSpring2D.StretchingShape | SurgSim/Blocks/MassSpring2DRepresentation.cpp:31-59 | when enabled ny (nx - 1) + nx (ny - 1) stretching springs, all within the sheet |
| MassSpring2D.BendingShape | SurgSim/Blocks/MassSpring2DRepresentation.cpp:61-89 | when enabled ny (nx - 2) + nx (ny - 2) bending springs (no term below two nodes), all within the sheet |
| MassSpring2D.FaceDiagonalShape | SurgSim/Blocks/MassSpring2DRepresentation.cpp:91-110 | when enabled two face-diagonal springs per square of four nodes, all within the sheet |
| MassSpring2D.AddSprings | SurgSim/Blocks/MassSpring2DRepresentation.cpp:46-55 | each spring is handed to the representation's addSpring in order and nothing else changes |
| MassSpring2D.AddFamily | SurgSim/Blocks/MassSpring2DRepresentation.cpp:31-110 | a family appends its nests' springs when enabled and nothing else changes |
| MassSpring2D.AddStateBoundaryConditions | SurgSim/Blocks/MassSpring2DRepresentation.cpp:164-169 | each boundary condition is appended to the state in order, positions and velocities unchanged |
| MassSpring2D.Init2D | SurgSim/Blocks/MassSpring2DRepresentation.cpp:112-173 | the representation gets the sheet's positions, zero velocities and the boundary conditions as its initial state, nx * ny equal masses of the total mass and the stretching, bending and face-diagonal springs in that order |
| MassSpring3D.LastNode | SurgSim/Blocks/MassSpring3DRepresentation.cpp:238-242 | the last node id is nz - 1 depths, ny - 1 rows and nx - 1 columns in |
| MassSpring3D.LayerAtLeastTwoRows | SurgSim/Blocks/MassSpring3DRepresentation.cpp:238-242 | a layer holds at least two rows of nodes when there are two rows |
| MassSpring3D.GridCorners | SurgSim/Blocks/MassSpring3DRepresentation.cpp:251-287 | the first node sits on the first corner and, with two nodes or more along every axis, the last node on the opposite corner |
| MassSpring3D.GridVertices | SurgSim/Blocks/MassSpring3DRepresentation.cpp:260-287 | the node loop adds one vertex per iteration |
| MassSpring3D.GridVerticesSnoc | SurgSim/Blocks/MassSpring3DRepresentation.cpp:282-283 | one more iteration adds its grid point with the node mass |
| MassSpring3D.NodeCount | SurgSim/Blocks/MassSpring3DRepresentation.cpp:260-287 | the node loop runs once per node |
| MassSpring3D.NodeAt | SurgSim/Blocks/MassSpring3DRepresentation.cpp:238-287 | node (depth, row, col) is vertex depth * nx * ny + row * nx + col |
| MassSpring3D.RowVertices | SurgSim/Blocks/MassSpring3DRepresentation.cpp:277-285 | a row holds nx vertices |
| MassSpring3D.GridRow | SurgSim/Blocks/MassSpring3DRepresentation.cpp:262-285 | a row of the grid is a row of evenly spaced nodes between the row's extremities |
| MassSpring3D.AddRow | SurgSim/Blocks/MassSpring3DRepresentation.cpp:278-285 | the column loop appends one mass and one vertex per node of the row |
| MassSpring3D.AddNodes | SurgSim/Blocks/MassSpring3DRepresentation.cpp:258-287 | the node loops add the grid's vertices in id order with equal masses |
| MassSpring3D.CubesShape | SurgSim/Blocks/MassSpring3DRepresentation.cpp:290-304 | with the back face nx * ny ids on, there are (nz - 1)(ny - 1)(nx - 1) cubes of eight distinct increasing node ids below the node count |
| MassSpring3D.FirstCubeAsWritten | SurgSim/Blocks/MassSpring3DRepresentation.cpp:296-301 | as written the first cube starts at node 0 with the written corner offsets |
| MassSpring3D.CubeAsWrittenRepeatsNode | SurgSim/Blocks/MassSpring3DRepresentation.cpp:296-301 | as written, with nx = 3 and ny = 2 the first cube lists node 3 twice |
| MassSpring3D.AddCubes | SurgSim/Blocks/MassSpring3DRepresentation.cpp:290-304 | the element loops add one cube per node with a neighbour along every axis |
| MassSpring3D.StretchingFits | SurgSim/Blocks/MassSpring3DRepresentation.cpp:31-81 | each stretching nest is empty or reaches only existing nodes |
| MassSpring3D.BendingFits | SurgSim/Blocks/MassSpring3DRepresentation.cpp:83-133 | each bending nest is empty or reaches only existing nodes |
| MassSpring3D.FaceDiagonalFits | SurgSim/Blocks/MassSpring3DRepresentation.cpp:135-191 | each face-diagonal nest is empty or reaches only existing nodes |
| MassSpring3D.VolumeDiagonalFits | SurgSim/Blocks/MassSpring3DRepresentation.cpp:193-226 | the volume-diagonal nest is empty or reaches only existing nodes |
| MassSpring3D.StretchingShape | SurgSim/Blocks/MassSpring3DRepresentation.cpp:31-81 | when enabled one stretching spring per pair of neighbours along X, Y and Z, all within the grid |
| MassSpring3D.BendingShape | SurgSim/Blocks/MassSpring3DRepresentation.cpp:83-133 | when enabled one bending spring per pair of nodes two apart along X, Y and Z, all within the grid |
| MassSpring3D.FaceDiagonalShape | SurgSim/Blocks/MassSpring3DRepresentation.cpp:135-191 | when enabled two face-diagonal springs per square face orthogonal to Z, Y and X, all within the grid |
| MassSpring3D.VolumeDiagonalShape | SurgSim/Blocks/MassSpring3DRepresentation.cpp:193-226 | when enabled four volume-diagonal springs per cube, all within the grid |
| MassSpring3D.AddBoxSprings | SurgSim/Blocks/MassSpring3DRepresentation.cpp:306-316 | the four families append their springs in order and nothing else changes |
| MassSpring3D.Init3D | SurgSim/Blocks/MassSpring3DRepresentation.cpp:228-327 | a non-empty grid gets a fresh mesh with the grid's vertices and equal masses of total / n, its cubes, its four spring families and its boundary conditions, and the representation takes its masses, springs and 3n dof |
| OdeEquations.RequestsUpdate | SurgSim/Math/OdeEquation.cpp:78-103 | the four per-quantity branches together set exactly the requested bits |
| OdeEquations.StepSetsBit | SurgSim/Math/OdeEquation.cpp:80-103 | the branch for one quantity sets that quantity's bit exactly when the options have it |
| OdeEquations.UpdatedFlags | SurgSim/Math/OdeEquation.cpp:51-104 | after an update a quantity is flagged exactly when it was flagged before or was requested |
| OdeEquations.HasBit | SurgSim/Math/OdeEquation.cpp:50-68 | a quantity is reported as computed exactly when the flags masked by its bit are not zero |
| OdeEquations.UpdatedBit | SurgSim/Math/OdeEquation.cpp:70-104 | after an update a quantity's bit is set exactly when it was set in the flags or in the options |
| OdeEquations.UpdatedKeepsOtherBits | SurgSim/Math/OdeEquation.cpp:71-104 | an update leaves every bit outside FMDK as it was |
| OdeEquations.UpdatedAll | SurgSim/Math/OdeEquation.cpp:73-77 | an update with FMDK flags all four quantities |
| OdeEquations.UpdatedMonotone | SurgSim/Math/OdeEquation.cpp:71-104 | flags are only ever set: a flagged quantity stays flagged |
| OdeEquations.UpdatedIdempotent | SurgSim/Math/OdeEquation.cpp:71-104 | repeating an update changes nothing |
| OdeEquations.ComputationsRequested | SurgSim/Math/OdeEquation.cpp:71-104 | computeFMDK runs exactly for options equal to FMDK; otherwise each quantity's compute runs exactly when its bit is requested, at most four in all |
| OdeEquations.OdeEquation.constructor | SurgSim/Math/OdeEquation.h:58 | a new equation has no quantity flagged and has computed nothing |
| OdeEquations.OdeEquation.UpdateFMDK | SurgSim/Math/OdeEquation.cpp:71-104 | the requested computations run in F, M, D, K order (or computeFMDK alone) and the flags become the update of the old flags |
| OdeEquations.OdeEquation.Request | SurgSim/Math/OdeEquation.cpp:80-84 | one branch computes and flags its quantity exactly when it is requested |
| ComputationGroups.PassWithoutAbort | SurgSim/Physics/ComputationGroup.cpp:47-56 | without an abort along the way a pass is the plain composition of the computations |
| ComputationGroups.PassStopsAtFirstAbort | SurgSim/Physics/ComputationGroup.cpp:47-56 | a pass stops at the first computation whose state asks to abort, clears that request and hands back that state |
| ComputationGroups.PassClearsAbort | SurgSim/Physics/ComputationGroup.cpp:50-54 | a pass never hands back a state that still asks to abort |
| ComputationGroups.ComputationGroup.constructor | SurgSim/Physics/ComputationGroup.cpp:25-29 | a new group has no computation and no iteration |
| ComputationGroups.ComputationGroup.AddComputation | SurgSim/Physics/ComputationGroup.cpp:64-68 | the computation is appended |
| ComputationGroups.ComputationGroup.DoUpdate | SurgSim/Physics/ComputationGroup.cpp:36-61 | since endIteration is always true, the group runs exactly one pass and returns that pass's state |
| GaussCodes.NextPrevValues | SurgSim/Blocks/KnotIdentificationBehavior.cpp:511-519 | nextIndex and prevIndex step to the neighbouring entry and wrap around at the ends |
| GaussCodes.CyclicIndices | SurgSim/Blocks/KnotIdentificationBehavior.cpp:511-519 | both indices stay in the code and undo each other |
| GaussCodes.RemoveAtMultiset | SurgSim/Blocks/KnotIdentificationBehavior.cpp:541-542 | erasing one position drops exactly that entry |
| GaussCodes.RemoveAtSubsequence | SurgSim/Blocks/KnotIdentificationBehavior.cpp:541-542 | erasing one position keeps the other entries in order |
| GaussCodes.Erase2Keeps | SurgSim/Blocks/KnotIdentificationBehavior.cpp:539-543 | erasing the larger position first keeps the entries before, between and after the two positions |
| GaussCodes.Erase2Drops | SurgSim/Blocks/KnotIdentificationBehavior.cpp:539-543 | erase(code, i, j) drops exactly the entries at i and j |
| GaussCodes.Erase2InOrder | SurgSim/Blocks/KnotIdentificationBehavior.cpp:539-543 | erase(code, i, j) keeps the other entries in order |
| GaussCodes.SortDescendingKeeps | SurgSim/Blocks/KnotIdentificationBehavior.cpp:547-548 | sorting the four positions keeps the entries they name |
| GaussCodes.SortDescendingSorts | SurgSim/Blocks/KnotIdentificationBehavior.cpp:547-548 | four distinct positions come out strictly decreasing |
| GaussCodes.EraseDescending | SurgSim/Blocks/KnotIdentificationBehavior.cpp:549-552 | erasing four positions leaves four entries fewer |
| GaussCodes.EraseDescendingKeeps | SurgSim/Blocks/KnotIdentificationBehavior.cpp:549-552 | erasing from the last position to the first keeps the runs of entries around them |
| GaussCodes.EraseDescendingDrops | SurgSim/Blocks/KnotIdentificationBehavior.cpp:549-552 | erasing from the last position to the first drops exactly their entries |
| GaussCodes.EraseDescendingInOrder | SurgSim/Blocks/KnotIdentificationBehavior.cpp:549-552 | erasing from the last position to the first keeps the other entries in order |
| GaussCodes.Erase4 | SurgSim/Blocks/KnotIdentificationBehavior.cpp:545-553 | erase(code, i, j, k, l) of four distinct positions leaves four entries fewer |
| GaussCodes.Erase4Drops | SurgSim/Blocks/KnotIdentificationBehavior.cpp:545-553 | erase(code, i, j, k, l) drops exactly the entries at the four positions |
| GaussCodes.Erase4InOrder | SurgSim/Blocks/KnotIdentificationBehavior.cpp:545-553 | erase(code, i, j, k, l) keeps the other entries in order |
| GaussCodes.WellFormedReordered | SurgSim/Blocks/KnotIdentificationBehavior.cpp:243-246 | being well formed depends only on the ids present, so sorting the crossings keeps it |
| GaussCodes.NonZeroIds | SurgSim/Blocks/KnotIdentificationBehavior.cpp:303-329 | no entry has id 0 exactly when 0 is not among the ids |
| GaussCodes.IdsRemoveAt | SurgSim/Blocks/KnotIdentificationBehavior.cpp:541-542 | erasing an entry erases the same position from the ids |
| GaussCodes.IdsErase2 | SurgSim/Blocks/KnotIdentificationBehavior.cpp:539-543 | erasing two entries erases the same positions from the ids |
| GaussCodes.IdsEraseDescending | SurgSim/Blocks/KnotIdentificationBehavior.cpp:549-552 | erasing four entries from the last erases the same positions from the ids |
| GaussCodes.IdsErase4 | SurgSim/Blocks/KnotIdentificationBehavior.cpp:545-553 | erase(code, i, j, k, l) erases the same positions from the ids |
| GaussCodes.AddPairKeepsWellFormed | SurgSim/Blocks/KnotIdentificationBehavior.cpp:328-329 | adding both passages of a new crossing keeps every crossing passed exactly twice, once over and once under |
| GaussCodes.RemovePairKeepsWellFormed | SurgSim/Blocks/KnotIdentificationBehavior.cpp:539-543 | removing both passages of a crossing keeps the code well formed |
| GaussCodes.AppendPairKeepsWellFormed | SurgSim/Blocks/KnotIdentificationBehavior.cpp:328-330 | appending the two passages of a fresh crossing id keeps the code well formed |
| GaussCodes.IdsBelow | SurgSim/Blocks/KnotIdentificationBehavior.cpp:303-330 | every id of a code whose entries are below a bound is below it |
| GaussCodes.AppendPairBounded | SurgSim/Blocks/KnotIdentificationBehavior.cpp:328-330 | after appending crossing id every id lies between 1 and id |
| GaussCodes.AssignCrossingIds | SurgSim/Blocks/KnotIdentificationBehavior.cpp:302-335 | the n-th intersection found becomes crossing n + 1, segment i's entry signed by the intersection and segment j's entry opposite, giving a well-formed code whose ids run from 1 to the number of crossings |
| ReidemeisterMoves.ErasePairIds | SurgSim/Blocks/KnotIdentificationBehavior.cpp:370-374 | erasing a cyclically adjacent pair of the same crossing drops exactly the two passages id and -id |
| ReidemeisterMoves.ErasePairOfCrossing | SurgSim/Blocks/KnotIdentificationBehavior.cpp:370-375 | one move-1 step keeps the invariant that the code plus the pairs recorded as erased is the original code, in order |
| ReidemeisterMoves.TraceExtend | SurgSim/Blocks/KnotIdentificationBehavior.cpp:370-376 | an erasure of an adjacent pair from the last code extends the record of the pass by one step |
| ReidemeisterMoves.TryMove1 | SurgSim/Blocks/KnotIdentificationBehavior.cpp:362-383 | a move is performed exactly when the code has an entry cyclically followed by the other passage of its crossing; each erasure, in order, removes such an adjacent pair of the code as it then stood and appends its absolute id; the result has two entries fewer per erased id, keeps the other entries in order and keeps the code well formed; with no move the code is unchanged; the code left and the ids erased are exactly those of the walk `Move1From` from position 0, so every adjacent pair met on the way is erased, not just the first |
| ReidemeisterMoves.WalkErase | SurgSim/Blocks/KnotIdentificationBehavior.cpp:370-375 | erasing the adjacent pair at the walk's position keeps everything the walk promises, with the crossing's id added to the record |
| ReidemeisterMoves.WalkSkip | SurgSim/Blocks/KnotIdentificationBehavior.cpp:377-380 | stepping past an entry that starts no adjacent pair keeps everything the walk promises, one position further |
| ReidemeisterMoves.WalkDone | SurgSim/Blocks/KnotIdentificationBehavior.cpp:368-382 | when the walk reaches the end, something was erased exactly when the original code had an adjacent pair, and the erasures account for every dropped entry |
| ReidemeisterMoves.Move1Visit | SurgSim/Blocks/KnotIdentificationBehavior.cpp:370-380 | one visit either erases the adjacent pair at the position, staying there and adding the crossing's absolute id, or leaves the code alone and moves one position on; either way the walk's promises hold |
| ReidemeisterMoves.Move1FromErase | SurgSim/Blocks/KnotIdentificationBehavior.cpp:370-375 | erasing the adjacent pair at the walk's position is the walk's first step from there: what is left and what is erased afterwards, after the crossing's id, is what the walk leaves and erases |
| ReidemeisterMoves.Move1FromSkip | SurgSim/Blocks/KnotIdentificationBehavior.cpp:377-380 | stepping past an entry that starts no adjacent pair does not change what the walk leaves or erases |
| ReidemeisterMoves.Move1FromEraseAt | SurgSim/Blocks/KnotIdentificationBehavior.cpp:370-375 | at an adjacent pair the walk records the crossing's absolute id first, then goes on from the same position in the shortened code |
| ReidemeisterMoves.Move1FromSkipRun | SurgSim/Blocks/KnotIdentificationBehavior.cpp:368-382 | a run of entries none of which starts an adjacent pair is passed without any change |
| ReidemeisterMoves.Move1ExampleFirst | SurgSim/Blocks/UnitTests/KnotIdentificationBehaviorTests.cpp:155-158 | on the tests' 14-entry code the walk passes 3 and 1 and first erases the pair 4 -4 |
| ReidemeisterMoves.Move1ExampleSecond | SurgSim/Blocks/UnitTests/KnotIdentificationBehaviorTests.cpp:155-158 | on the code then left the walk passes -2 6 7 -6 -7 -1 and erases the pair -5 5 |
| ReidemeisterMoves.Move1ExampleLast | SurgSim/Blocks/UnitTests/KnotIdentificationBehaviorTests.cpp:155-158 | the walk then passes 2 and erases the pair -3 3 that wraps around the end, and stops |
| ReidemeisterMoves.Move1ExampleIds | SurgSim/Blocks/UnitTests/KnotIdentificationBehaviorTests.cpp:155-158 | the ids of the tests' code after each of the three erasures |
| ReidemeisterMoves.Move1Example | SurgSim/Blocks/UnitTests/KnotIdentificationBehaviorTests.cpp:155-158 | on 3 1 4 -4 -2 6 7 -6 -7 -1 -5 5 2 -3 the walk leaves 1 -2 6 7 -6 -7 -1 2 and erases 4, 5, 3 in that order, as the test expects |
| ReidemeisterMoves.Offset | SurgSim/Blocks/KnotIdentificationBehavior.cpp:397-411 | walking along the closed code with nextIndex stays inside the code |
| ReidemeisterMoves.OffsetNext | SurgSim/Blocks/KnotIdentificationBehavior.cpp:410-411 | one more nextIndex is one more step along the closed code |
| ReidemeisterMoves.Move2Distinct | SurgSim/Blocks/KnotIdentificationBehavior.cpp:394-407 | the four positions a move 2 erases are pairwise different |
| ReidemeisterMoves.CrossedIds | SurgSim/Blocks/KnotIdentificationBehavior.cpp:531-537 | the two overlapping passages carry the negations of the first two ids, in either order |
| ReidemeisterMoves.AbsPair | SurgSim/Blocks/KnotIdentificationBehavior.cpp:405-406 | recording the absolute id names the same pair of passages as the signed id |
| ReidemeisterMoves.Move2Ids | SurgSim/Blocks/KnotIdentificationBehavior.cpp:394-407 | the four entries of a move 2 are the two passages of each of its two crossings |
| ReidemeisterMoves.Move2DropsIds | SurgSim/Blocks/KnotIdentificationBehavior.cpp:405-407 | a move 2 drops exactly the passages of the two recorded crossings |
| ReidemeisterMoves.Move2InOrder | SurgSim/Blocks/KnotIdentificationBehavior.cpp:407 | a move 2 keeps the other entries in their order (see also lines 544-552) |
| ReidemeisterMoves.Move2KeepsWellFormed | SurgSim/Blocks/KnotIdentificationBehavior.cpp:405-407 | a move 2 on a well-formed code leaves a well-formed code |
| ReidemeisterMoves.SearchStrand | SurgSim/Blocks/KnotIdentificationBehavior.cpp:397-412 | the inner search finds the nearest overlapping pair after i, j, and reports none exactly when there is none |
| ReidemeisterMoves.TryMove2 | SurgSim/Blocks/KnotIdentificationBehavior.cpp:385-417 | without a move the code and the erased list are unchanged and no move 2 exists; with one, the first move 2 in search order was erased and its two absolute ids were appended |
| CrossingRenumbering.AbsIdsAppend | SurgSim/Blocks/KnotIdentificationBehavior.cpp:472-474 | the absolute ids of a code grow by the last entry's id |
| CrossingRenumbering.RenumberingKeys | SurgSim/Blocks/KnotIdentificationBehavior.cpp:470-481 | the map gets exactly the absolute ids of the code as keys |
| CrossingRenumbering.RenumberingRange | SurgSim/Blocks/KnotIdentificationBehavior.cpp:471-480 | the new ids are exactly 1 up to the number of crossings |
| CrossingRenumbering.RenumberingInjective | SurgSim/Blocks/KnotIdentificationBehavior.cpp:476-481 | no two crossings get the same new id |
| CrossingRenumbering.RenumberingPrefix | SurgSim/Blocks/KnotIdentificationBehavior.cpp:476-485 | a number once given is never changed by later entries |
| CrossingRenumbering.RenumberingStep | SurgSim/Blocks/KnotIdentificationBehavior.cpp:474-485 | each entry either reuses its crossing's number or gives it the next number |
| CrossingRenumbering.Renumbered | SurgSim/Blocks/KnotIdentificationBehavior.cpp:467-488 | renumbering keeps the length of the code |
| CrossingRenumbering.AdjustIds | SurgSim/Blocks/KnotIdentificationBehavior.cpp:467-488 | the loop with its map computes the renumbered code |
| CrossingRenumbering.RenumberedAbs | SurgSim/Blocks/KnotIdentificationBehavior.cpp:474-486 | each entry's new absolute id is its crossing's number (0 stays 0) |
| CrossingRenumbering.RenumberedKeepsSigns | SurgSim/Blocks/KnotIdentificationBehavior.cpp:486 | each entry keeps its sign and every field other than the id |
| CrossingRenumbering.RenumberedSameCrossing | SurgSim/Blocks/KnotIdentificationBehavior.cpp:474-486 | two entries share a crossing after renumbering exactly when they did before |
| CrossingRenumbering.RenumberedConsecutive | SurgSim/Blocks/KnotIdentificationBehavior.cpp:467-488 | after renumbering the crossings are numbered 1 to their count with no gap |
| CrossingRenumbering.RenumberedFirstAppearance | SurgSim/Blocks/KnotIdentificationBehavior.cpp:476-480 | crossings are numbered in order of first appearance |
| CrossingRenumbering.SignedNumbers | SurgSim/Blocks/KnotIdentificationBehavior.cpp:486 | sign times an injective positive number never merges two ids |
| CrossingRenumbering.MappedCount | SurgSim/Blocks/KnotIdentificationBehavior.cpp:486 | renumbering keeps how often each signed id occurs |
| CrossingRenumbering.MappedKeepsWellFormed | SurgSim/Blocks/KnotIdentificationBehavior.cpp:486 | renumbering keeps every crossing passed once over and once under |
| CrossingRenumbering.IdsRenumbered | SurgSim/Blocks/KnotIdentificationBehavior.cpp:472-487 | the renumbered ids are the old ids sent through the map, signs kept |
| CrossingRenumbering.RenumberedKeepsWellFormed | SurgSim/Blocks/KnotIdentificationBehavior.cpp:467-488 | renumbering a well-formed code gives a well-formed code |
| KnotIdentification.LessIrreflexive | SurgSim/Blocks/KnotIdentificationBehavior.cpp:197 | the name order of the table of known knots is irreflexive (see also line 497) |
| KnotIdentification.LessTotal | SurgSim/Blocks/KnotIdentificationBehavior.cpp:197 | two different names are ordered exactly one way (see also line 497) |
| KnotIdentification.LessTransitive | SurgSim/Blocks/KnotIdentificationBehavior.cpp:197 | the name order is transitive (see also line 497) |
| KnotIdentification.LookupBefore | SurgSim/Blocks/KnotIdentificationBehavior.cpp:197 | a name before every name of the table is not found |
| KnotIdentification.InsertedAfter | SurgSim/Blocks/KnotIdentificationBehavior.cpp:197-207 | adding a code under a later name keeps every name after a lower bound |
| KnotIdentification.AllAfterChain | SurgSim/Blocks/KnotIdentificationBehavior.cpp:197 | a table after a name is after every smaller name |
| KnotIdentification.InsertedSorted | SurgSim/Blocks/KnotIdentificationBehavior.cpp:197-207 | adding a known code keeps the names strictly increasing |
| KnotIdentification.InsertedLookup | SurgSim/Blocks/KnotIdentificationBehavior.cpp:197-207 | adding a known code appends it to its name's codes and changes no other name |
| KnotIdentification.SameCodeSymmetric | SurgSim/Blocks/KnotIdentificationBehavior.cpp:604-628 | isSameCode answers the same with its arguments swapped |
| KnotIdentification.AgreeLoop | SurgSim/Blocks/KnotIdentificationBehavior.cpp:611-624 | the comparison loop is true exactly when all ids (times the factor) and handedness agree |
| KnotIdentification.IsSameCode | SurgSim/Blocks/KnotIdentificationBehavior.cpp:604-628 | true exactly when the lengths match and the ids agree as written or all negated, handedness agreeing |
| KnotIdentification.RotationNotMatched | SurgSim/Blocks/UnitTests/KnotIdentificationBehaviorTests.cpp:238-241 | the tests' rotated trefoil [-3, 1, -2, 3, -1, 2] is not the same code as the known trefoil, as written or negated, so it is not recognised |
| KnotIdentification.FirstMatchFound | SurgSim/Blocks/KnotIdentificationBehavior.cpp:497-506 | the name found has a matching known code and no name before it has one |
| KnotIdentification.NoMatchNoneSame | SurgSim/Blocks/KnotIdentificationBehavior.cpp:497-508 | when no name is found, no known code under any name matches |
| KnotIdentification.FirstMatchNone | SurgSim/Blocks/KnotIdentificationBehavior.cpp:497-508 | nothing is found exactly when no known code under any name matches |
| KnotIdentification.KnotIdentifier.constructor | SurgSim/Blocks/KnotIdentificationBehavior.cpp:40-66 | a new behavior knows the trefoil, the four granny and the four square codes, in order |
| KnotIdentification.KnotIdentifier.AddGrannyCodes | SurgSim/Blocks/KnotIdentificationBehavior.cpp:50-57 | the four granny codes are appended under "Granny Knot", nothing else changes |
| KnotIdentification.KnotIdentifier.AddSquareCodes | SurgSim/Blocks/KnotIdentificationBehavior.cpp:58-65 | the four square codes are appended under "Square Knot", nothing else changes |
| KnotIdentification.KnotIdentifier.Empty | SurgSim/Blocks/KnotIdentificationBehavior.cpp:210-213 | a table with no known knots |
| KnotIdentification.KnotIdentifier.AddKnownKnotCode | SurgSim/Blocks/KnotIdentificationBehavior.cpp:186-208 | the code with its handedness is appended under its name; no other name changes and the names stay ordered |
| KnotIdentification.KnotIdentifier.ClearKnownKnotCodes | SurgSim/Blocks/KnotIdentificationBehavior.cpp:210-213 | no known knot is left |
| KnotIdentification.KnotIdentifier.IdentifyKnot | SurgSim/Blocks/KnotIdentificationBehavior.cpp:490-509 | "No Knot" for an empty code, else the first name in table order with the same code, else "Unknown Knot" |
| Messengers.SubscribedHolds | SurgSim/Framework/Messenger.cpp:112-117 | after subscribing, the list has an entry for the component |
| Messengers.SubscribeIdempotent | SurgSim/Framework/Messenger.cpp:112-117 | subscribing a component a second time, whatever the callback, changes nothing |
| Messengers.SubscribeKeepsUnique | SurgSim/Framework/Messenger.cpp:112-132 | subscribing keeps at most one entry per component |
| Messengers.WithoutMembers | SurgSim/Framework/Messenger.cpp:29-45 | the erase-remove with Contains keeps exactly the entries of other components (see also lines 146-148) |
| Messengers.WithoutIsSubsequence | SurgSim/Framework/Messenger.cpp:146-148 | removing a component never adds or duplicates entries |
| Messengers.WithoutKeepsUnique | SurgSim/Framework/Messenger.cpp:146-167 | removing a component keeps at most one entry per component |
| Messengers.LiveMembers | SurgSim/Framework/Messenger.cpp:47-84 | purging expired entries keeps exactly the entries of live components |
| Messengers.LiveIdempotent | SurgSim/Framework/Messenger.cpp:73-84 | purging twice is purging once |
| Messengers.LiveKeepsUnique | SurgSim/Framework/Messenger.cpp:73-84 | the purge keeps at most one entry per component |
| Messengers.NotifiedLive | SurgSim/Framework/Messenger.cpp:84-88 | sendEvent on the purged list invokes the same callbacks as on the unpurged list (see also lines 171-181) |
| Messengers.NotifiedMembers | SurgSim/Framework/Messenger.cpp:171-181 | a callback is invoked with the event exactly when some entry of a live component holds it |
| Messengers.NotifiedOrder | SurgSim/Framework/Messenger.cpp:171-181 | one invocation per live entry, in the order of the list |
| Messengers.PurgedGet | SurgSim/Framework/Messenger.cpp:79-86 | the purges of update change no name's live subscribers |
| Messengers.PurgedKeepsUnique | SurgSim/Framework/Messenger.cpp:79-86 | the purges of update keep at most one entry per component in every list |
| Messengers.UniversalGetsEveryEvent | SurgSim/Framework/Messenger.cpp:73-90 | every queued event reaches every live universal subscriber |
| Messengers.DeliveriesStep | SurgSim/Framework/Messenger.cpp:79-90 | one more event of the loop purges its name's list and delivers to its subscribers, then to the broadcast list |
| Messengers.Messenger.constructor | SurgSim/Framework/Messenger.cpp:57-60 | a new messenger has no events, no subscribers and has invoked nothing |
| Messengers.Messenger.Publish | SurgSim/Framework/Messenger.cpp:93-97 | the event with the sender and the current time joins the end of the queue, nothing else changes |
| Messengers.Messenger.Find | SurgSim/Framework/Messenger.cpp:29-45 | the search is true exactly when the list has an entry for the component (see also line 113) |
| Messengers.Messenger.Remove | SurgSim/Framework/Messenger.cpp:146-148 | the erase-remove gives the list without the component's entries, the rest in order |
| Messengers.Messenger.Subscribe | SurgSim/Framework/Messenger.cpp:104-119 | the name's list gets the component's entry appended unless it has one (the name is created if absent); lists stay unique |
| Messengers.Messenger.SubscribeAll | SurgSim/Framework/Messenger.cpp:121-133 | the universal list gets the component's entry appended unless it has one |
| Messengers.Messenger.Unsubscribe | SurgSim/Framework/Messenger.cpp:135-150 | the component leaves the list of a known name; an unknown name changes nothing |
| Messengers.Messenger.UnsubscribeAll | SurgSim/Framework/Messenger.cpp:152-169 | the component leaves the universal list and every name's list; no name is added or dropped |
| Messengers.Messenger.RemoveFrom | SurgSim/Framework/Messenger.cpp:162-168 | one turn of the loop removes the component from one name's list |
| Messengers.Messenger.SendEvent | SurgSim/Framework/Messenger.cpp:171-181 | the invocations are the live entries' callbacks with the event, in order |
| Messengers.Messenger.Dispatch | SurgSim/Framework/Messenger.cpp:81-89 | one event: its name's list is purged, then its live subscribers and the live broadcast list are invoked |
| Messengers.Messenger.Update | SurgSim/Framework/Messenger.cpp:62-91 | the queue is emptied, the universal list and the lists of the events' names are purged, and every queued event is delivered in order |
| PlyReaders.PlyTypeOf | SurgSim/DataStructures/PlyReader.cpp:38-54 | the reader's codes 0 to 8 translate to the library types of the same numbers, and any other code to PLY_START_TYPE, the 0 the unordered_map inserts; so the start type comes exactly from codes outside 1..8 |
| PlyReaders.FirstNamed | SurgSim/DataStructures/PlyReader.cpp:343-373 | the search of find_element and find_property finds nothing exactly when no entry has the name, and otherwise the position of the first entry with the name |
| PlyReaders.ElementRequestGranted | SurgSim/DataStructures/PlyReader.cpp:94-116 | requestElement succeeds exactly when the file has the element and it was not requested; a refusal changes nothing |
| PlyReaders.ElementRequestOnce | SurgSim/DataStructures/PlyReader.cpp:103 | requesting an element a second time is refused and changes nothing |
| PlyReaders.PropertyRequestFails | SurgSim/DataStructures/PlyReader.cpp:158-170 | requestProperty fails exactly when a scalar is asked for as a list or a list as a scalar |
| PlyReaders.PropertyRequestOnce | SurgSim/DataStructures/PlyReader.cpp:172-191 | requesting a property a second time returns false and changes nothing |
| PlyReaders.PropertyBeforeElement | SurgSim/DataStructures/PlyReader.cpp:103 | requesting a property of an unrequested element creates an unnamed entry for it, after which requestElement refuses the element (see also lines 174-188) |
| PlyReaders.ElementRequestFits | SurgSim/DataStructures/PlyReader.cpp:103-113 | requestElement only records elements of the file, and their properties stay properties of the file with distinct names |
| PlyReaders.PropertyRequestFits | SurgSim/DataStructures/PlyReader.cpp:172-191 | requestProperty only records properties the file declares for the element, each name once, and never records a scalar with a count type that parseFile reads as a list |
| PlyReaders.ListRequestReadAsList | SurgSim/DataStructures/PlyReader.cpp:180-191 | a new list property requested with a count type code from 1 to 8 is granted and recorded with the library type of that number, which parseFile reads as a list (see also line 252) |
| PlyReaders.UnknownCountTypeReadAsScalar | SurgSim/DataStructures/PlyReader.cpp:180-191 | a new list property requested with a count type code outside 0..8 is granted but recorded with PLY_START_TYPE, which parseFile reads as a scalar (see also line 252) |
| PlyReaders.ElementRequestGrows | SurgSim/DataStructures/PlyReader.cpp:103-113 | requestElement only adds an entry, keeping every existing one |
| PlyReaders.PropertyRequestGrows | SurgSim/DataStructures/PlyReader.cpp:172-191 | a successful requestProperty keeps every entry's name and callbacks and only appends to its property list |
| PlyReaders.GrowsTransitive | SurgSim/DataStructures/PlyReader.cpp:94-194 | two growths of the table in a row are one growth |
| PlyReaders.RegisterFits | SurgSim/DataStructures/PlyReader.cpp:196-209 | whatever calls a delegate makes while registering, and whether or not one fails, the table keeps fitting the file |
| PlyReaders.RegisterGrows | SurgSim/DataStructures/PlyReader.cpp:196-209 | whatever calls a delegate makes while registering, the table only grows: entries keep their name and callbacks and their property lists are extended |
| PlyReaders.PlyReader.constructor | SurgSim/DataStructures/PlyReader.cpp:36-92 | a reader of a file (or of none, when it could not be opened) with nothing requested, no parse callbacks and nothing parsed |
| PlyReaders.PlyReader.RequestElement | SurgSim/DataStructures/PlyReader.cpp:94-116 | the result and the new table are those of requestElement on the header |
| PlyReaders.PlyReader.FindNamed | SurgSim/DataStructures/PlyReader.cpp:174-178 | the search is true exactly when a property with the name was requested |
| PlyReaders.PlyReader.RequestProperty | SurgSim/DataStructures/PlyReader.cpp:124-194 | the result and the new table are those of requestProperty; a failure leaves the table as it was (also requestListProperty, which passes its arguments through) |
| PlyReaders.PlyReader.RequestScalarProperty | SurgSim/DataStructures/PlyReader.cpp:118-122 | requestProperty with count type and count offset 0 |
| PlyReaders.PlyReader.SetStartParseFileCallback | SurgSim/DataStructures/PlyReader.cpp:132-135 | sets the start-of-parse callback and nothing else |
| PlyReaders.PlyReader.SetEndParseFileCallback | SurgSim/DataStructures/PlyReader.cpp:137-140 | sets the end-of-parse callback and nothing else |
| PlyReaders.PlyReader.SetDelegate | SurgSim/DataStructures/PlyReader.cpp:196-209 | false with nothing changed for a missing delegate or one that does not accept the file; otherwise the delegate's calls are made on the reader in order, leaving the table and callbacks that Register gives, and the result is the first failing call's failure or else what registerDelegate returns |
| PlyReaders.PlyReader.ParseWithDelegate | SurgSim/DataStructures/PlyReader.cpp:333-341 | setDelegate's result and new table and callbacks, and one more parse exactly when setDelegate answered true |
| KeyBehaviors.Transition | SurgSim/Blocks/KeyBehavior.cpp:68-90 | a change of key makes at most two notifications |
| KeyBehaviors.Extend | SurgSim/Blocks/KeyBehavior.cpp:78-86 | one more notification keeps the log bracketed exactly when it releases the pressed key or presses when none is pressed |
| KeyBehaviors.TransitionBracketed | SurgSim/Blocks/KeyBehavior.cpp:68-90 | the notifications of a reading keep every release matched to a press, and leave the new key pressed |
| KeyBehaviors.TransitionQuiet | SurgSim/Blocks/KeyBehavior.cpp:76-89 | a reading notifies nothing exactly when the key did not change |
| KeyBehaviors.KeyBehavior.constructor | SurgSim/Blocks/KeyBehavior.cpp:30-37 | a new behavior's last key is NONE and it has notified nothing |
| KeyBehaviors.KeyBehavior.Update | SurgSim/Blocks/KeyBehavior.cpp:68-90 | without a key entry nothing changes; otherwise the change is notified and the key becomes the last key, the log staying bracketed |
| KeyBehaviors.KeyMap.constructor | SurgSim/Blocks/KeyBehavior.cpp:92 | the shared table starts empty |
| KeyBehaviors.KeyMap.RegisterKey | SurgSim/Blocks/KeyBehavior.cpp:95-115 | NONE and an already registered key are refused and change nothing; otherwise the key is added with its description |
| KeyBehaviors.KeyMap.UnregisterKey | SurgSim/Blocks/KeyBehavior.cpp:117-127 | true exactly when the key was registered, and afterwards it is not |
| KeyBehaviors.KeyMap.ClearKeyMap | SurgSim/Blocks/KeyBehavior.cpp:140-144 | no key stays registered |
| KeyBehaviors.RegisterThenUnregister | SurgSim/Blocks/KeyBehavior.cpp:95-127 | registering a free key and unregistering it gives back the table |

## Left out

### Framework

- Logging, SURGSIM_LOG warnings and file I/O are left out. A failing SURGSIM_ASSERT is
  modelled as a `requires` where it guards a caller error, and as a `Failure` result where
  it is a data condition.
- Mutexes and threads (Messenger, KeyBehavior's key map) are left out. The model is
  sequential.
- Floating point is modelled as exact `real`. The only exception is the CCD time-of-impact
  update, whose infinities and NaN are written out explicitly.
- Eigen is not part of this model. Vectors, matrices and solvers are `real` sequences and
  functions. The sparse solvers' factorisation is a recorded trace of calls, and
  `getInverse`, `solve` and the CG tolerance and iteration setters are left out.
- `Math::clamp` is not part of this model. Its behaviour is taken from its use and from
  `SurgSim/Math/UnitTests/ScalarTests.cpp:128-141`: `v >= hi - eps` gives hi, otherwise
  `v <= lo + eps` gives lo, so hi wins where the two bands overlap. The only call in the
  model passes eps = 0, where the bands cannot overlap.
- `Geometry.h` primitives are not part of this model; they are parameters. This covers the
  swept root finders, segment and point-triangle distances, triangle intersection and
  barycentric coordinates.

### Continuous collision loop

- The collision, constraint-generation, build, solve and push stages are opaque state
  transformers given as parameters.
- `CollisionPair` is not part of this model beyond its id, detection type and contact list.

### Mesh-mesh narrow phase

- Contact geometry is not modelled: location, penetration position, normal and depth are
  left out. The source has three more slips in that geometry:
  - it computes triangle 1's point with triangle 2's alpha and beta (line 604);
  - it gives both locations the same `triangleId` (lines 616, 629);
  - it sets both `rigidLocalPosition` values from `pose2` and triangle 1 (lines 625, 638).

### Triangle-triangle contact

- TriangleTriangleContact.CalculateContactTriangleTriangleSeparatingAxis: does not require
  unit normals. The source asserts that both normals have norm 1 within ScalarEpsilon, and
  norms need a square root that the exact-`real` model does not have. The `FromVertices`
  variant passes normalised normals.
- The order of equal distances after `std::sort` is unspecified. The model keeps an
  earlier interval ahead of a later one with the same distance.

### AABB tree

- `AabbTreeNode`'s insertion and splitting are not part of this model. `addData` and
  `setData` are function parameters of `AabbTree.Add` and `AabbTree.Set`.

### Triangle mesh

- `Vertices::addVertex` is not part of this model. `TriangleMesh.AddVertex` only appends a
  position.
- Vertex, edge and triangle payload data (the template parameters) are left out.

### Sparse matrices

- SparseMatrices.SparseMatrix.BlockWithSearch: requires a non-empty block (n > 0 and
  m > 0). The source's loop does nothing when the block has no slice. Its asserts index
  outside the slice when the block has no inner entry. The model covers neither case.
- The Eigen `coeffRef` insertion is modelled as an insertion at the sorted position. Eigen's
  reservation and reallocation strategy is left out.

### Constraints and mass-spring representation

- The constraint builders' compliance product `compliance * H^T` and the MLCP solve are
  left out. The rows H and the constraint violations b are modelled.
- MassSpringRepresentation's force, damping and stiffness assembly is left out: `computeF`,
  `computeD`, `computeK`, `computeFMDK`, the K/D parts of `addExternalGeneralizedForce`,
  the compliance matrix, Rayleigh damping, `transformState`, `loadMassSpring` and the
  sparsity pattern of `doInitialize`. The mass matrix and the external force vector are
  modelled.
- The spring objects' `initialize` call and the spring physics (`LinearSpring`) are not part
  of this model.
- The localization's representation and state are passed in as parameters.
- OdeState is modelled as position and velocity sequences plus boundary-condition ids.

### Mass-spring generators

- MassSpring2D.BendingShape: states the guarded loop bound. The 2D loop has the same
  `size_t` underflow as the 1D finding below, with a single node along an axis.
- MassSpring3D.BendingShape: states the guarded loop bound. The 3D loop has the same
  `size_t` underflow, with a single node along an axis.
- With a single node along an axis, the 2D and 3D generators divide by zero when spacing
  nodes (a floating-point NaN). `Along` keeps that node at the row's first extremity.

### Knot identification

- Reidemeister move 3, `getComplementCross` and `hasCommonNeighbor` are not modelled.
- The `performReidmeisterMoves` loop is not modelled, because it needs move 3. Moves 1 and
  2 and the renumbering it ends with are each modelled.
- `buildNodeData` and the geometry of `calculateCrossings` are left out. This covers
  segment intersection, the projection and the handedness from `atan2`. The crossing ids
  and signs they produce are the Gauss code input.
- The knot-name vote in `update` is left out.
- The `std::map` of known knots is modelled as entries sorted by the character order of the
  names.

### Messenger, key behavior and ply reader

- Messenger: the null-argument asserts and the component overload of `publish` are left out.
  Whether a component is alive (the expiry of its weak reference) is a parameter. Callback
  side effects are a log of invocations, so a callback cannot publish during `update`; the
  model does not capture an event published from a callback while the taken queue is
  delivered.
- KeyBehavior: `KeyCode.h` is not part of this model; NONE is the `NoKey` constructor. The
  input component and `logMap` are left out.
- PlyReader: `parseFile` and the rply library callbacks are not part of this model; a parse
  is counted, and `ReadAsList` states the list test it makes on a requested property.
  `ply.h` is not part of this model either: its type numbers PLY_START_TYPE (0) to
  PLY_DOUBLE (8) are written into `LibraryCode`.
- PlyReader: a delegate is given by its answer to `fileIsAcceptable`, the calls its
  `registerDelegate` makes on the reader, in order, and the value `registerDelegate`
  returns. The delegate's own state and the callbacks it registers are identities only.
  The assertion messages of `requestProperty` are kept without the element and property
  names.

## Findings

| source | as written | input that shows it | evidently intended | confidence | as-written member | corrected member |
|---|---|---|---|---|---|---|
| SurgSim/Collision/TriangleMeshTriangleMeshContact.cpp:259-267 | triangle 1's vertex positions are read from shape 2 | shape 1's triangle (0,1,2) and shape 2's triangle (3,4,5) lie on the same three points, and shape 2's vertices 0-2 lie ten units away: the pair is pruned though the triangles touch | read triangle 1's positions from shape 1 | not executed | TriangleMeshTriangleMeshContact.Triangle1FromShape2Prunes | TriangleMeshTriangleMeshContact.CalculateCcdContact |
| SurgSim/DataStructures/TriangleMesh-inl.h:61-73 | the converting constructor adds every source triangle live through addTriangle and also pushes the index of each removed one on the free list | [a, removed b, c]: b is live yet free, and the third addTriangle overwrites it | copy each slot at its index with its flag, and free exactly the removed slots | not executed | TriangleMeshes.ConvertAsWrittenOverwritesSlot | TriangleMeshes.ConvertCorrectedKeepsSlots |
| SurgSim/Math/LinearSparseSolveAndInverse.cpp:44-47 | the pattern loop stops at outerSize - 1, so the last column's inner indices are never compared | 2 x 2 matrices with outer [0,1,1] / inner [0] and outer [0,1,2] / inner [0,1] | compare every slice | not executed | LinearSolvers.AsWrittenMissesLastSlice | LinearSolvers.SameMatrix |
| SurgSim/Physics/MassSpring.cpp:155,211,222 | the radius/thickness trailer calls getNumNodesPerElement without the element-count guard the header has | a mesh with vertices and no element | guard the trailer like the header | not executed | MassSprings.ElementlessSaveFails | MassSprings.MassSpring.Save |
| SurgSim/Physics/MassSpringLocalization.cpp:131-139 | a position localization's velocity is computed from the states' positions | an element whose first node rests at (1, 0, 0) has velocity (1, 0, 0) | interpolate the velocities | not executed | MassSpringLocalizations.VelocityReadsPositions | MassSpringLocalizations.MassSpringLocalization.CalculateVelocity |
| SurgSim/Blocks/MassSpring1DRepresentation.cpp:68 | `nodes.size() - 2` in `size_t` wraps for a single node | one node with bending enabled: the loop bound is 2^64 - 1 and addSpring gets node ids past the end | no bending spring below three nodes | not executed | MassSpring1D.SingleNodeBendingOutOfRange | MassSpring1D.BendingBoundsAgree |
| SurgSim/Blocks/MassSpring3DRepresentation.cpp:296-301 | the back face of a cube is offset by ny instead of nx * ny | nx = 3, ny = 2: the first cube lists node 3 twice | offset the back face by nx * ny | not executed | MassSpring3D.CubeAsWrittenRepeatsNode | MassSpring3D.CubesShape |
