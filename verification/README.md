# QuickHull builder and soft-body node, modelled in Dafny

This project models two parts of the Bounce physics library.

The first is the incremental QuickHull builder `qhHull` (`src/bounce/quickhull/qh_hull.cpp`). It
turns a point cloud into a convex hull kept as a half-edge mesh. The builder works in steps:
- `qhFindAABB` finds the extreme points along each axis and the coplanarity tolerance.
- `BuildInitialHull` picks four points for a seed tetrahedron through three degeneracy checks,
  builds the four faces, and files every other point in the conflict list of the face it lies
  farthest above.
- While `FindEyeVertex` finds a conflict point more than the tolerance above its face,
  `AddEyeVertex` makes that point a hull vertex. It marks the faces the point sees and collects and
  orders the horizon (`FindHorizon`). It then replaces the visible faces with a fan of triangles
  (`AddNewFaces`, `AddFace`, `RemoveFace`) and re-files or frees their conflict points. Finally it
  merges each new face with any neighbour that is not strictly convex against it (`MergeFaces`,
  `MergeFace`, `RemoveEdge`).
- The three debug validators `Validate` check the mesh.

The mesh is a pointer graph in `qhHull`; here it is three immutable maps from integer ids to
records (`Mesh.Vertex`, `Mesh.HalfEdge`, `Mesh.Face`):
- A pointer that may be NULL is an `Option`.
- A record is active exactly when its id is a key of its map.
- An allocation takes the lowest unused id (`Sequences.FreshId`).
- The intrusive face and vertex lists are sequences, head first.
- Loops that follow `next` pointers become `Mesh.EdgeLoop`. It returns the closed boundary, or
  None when the walk meets a NULL or freed pointer or does not close.

The floating-point part of the geometry is behind `Geometry.Kernel`, which holds these
uninterpreted values:
- the epsilon and the largest float;
- `b3AreaSquared`;
- normalisation;
- the two `b3Plane` constructors.

Distances, dot and cross products and Newell's normal are written out over the reals.

The builder's main invariant is the conflict graph (`Mesh.Consistent`):
- every conflict point names the face whose list holds it;
- lists have no repeats;
- hull vertices are on no list.

The pending points (`Mesh.Pending`) are the termination measure of the main loop. The half-edge
invariant the validators check is `Validation.WellFormed`; `MergeInvariant` shows that face
merging keeps it.

The second part is the soft-body node `b3SoftBodyNode`
(`include/bounce/softbody/softbody_node.h`). It is a record of a type (static or dynamic),
position, velocity, accumulated force, radius, friction and a body contact. Its setters are
guarded by the type. Here the node is a datatype and each setter a pure function.

Modules follow the builder's structure:
- `Sequences`, `Options`, `Orbits`: general helpers.
- `Geometry`: the geometry.
- `Mesh`: the mesh and its invariants.
- `Scan`: the argmax-above-threshold loop that every selection in the builder uses.
- `InitialHull`, `Conflicts`, `Horizon`, `MeshEdit`, `Expansion`, `Merge`, `Validation`,
  `Construct`: the steps of the builder.
- `MergeInvariant`: face merging keeps the half-edge invariant.
- `SoftBodyNode`: the node.

## Model

| member | source | states |
|---|---|---|
| SoftBodyNode.SetType | include/bounce/softbody/softbody_node.h:173-189 | setting the current type changes nothing; a new type clears the force and deactivates the body contact; becoming static zeroes the velocity, becoming dynamic keeps it; no other field changes |
| SoftBodyNode.SetTypeIdempotent | include/bounce/softbody/softbody_node.h:173-189 | setting a type twice is the same as setting it once |
| SoftBodyNode.BecomingStaticRests | include/bounce/softbody/softbody_node.h:180-188 | a dynamic node made static has zero velocity and zero force |
| SoftBodyNode.SetPosition | include/bounce/softbody/softbody_node.h:201-204 | for either type, the getter then returns the new position and no other field changes |
| SoftBodyNode.SetVelocity | include/bounce/softbody/softbody_node.h:211-218 | a static node is unchanged; a dynamic node takes the new velocity and nothing else changes |
| SoftBodyNode.SetRadius | include/bounce/softbody/softbody_node.h:230-233 | for either type, the getter returns the new radius and no other field changes |
| SoftBodyNode.SetFriction | include/bounce/softbody/softbody_node.h:240-243 | for either type, the getter returns the new friction and no other field changes |
| SoftBodyNode.ApplyForce | include/bounce/softbody/softbody_node.h:250-257 | a node that is not dynamic is unchanged; a dynamic node adds the force to its accumulated force and nothing else changes |
| SoftBodyNode.ApplyForceAdditive | include/bounce/softbody/softbody_node.h:250-257 | applying f and then g equals applying f + g |
| SoftBodyNode.ApplyForcesIsSum | include/bounce/softbody/softbody_node.h:250-257 | applying a batch of forces one by one equals applying their sum once |
| SoftBodyNode.ApplyKeepsAtRest | include/bounce/softbody/softbody_node.h:173-257 | no operation of the node's interface gives a static node at rest a velocity or a force |
| SoftBodyNode.ApplyAllKeepsAtRest | include/bounce/softbody/softbody_node.h:173-257 | a static node at rest stays at rest under any sequence of operations |
| Scan.ArgMaxAbove | src/bounce/quickhull/qh_hull.cpp:228-258 | None exactly when no candidate outside the skip set exceeds the threshold; otherwise the first index holding the maximum, which exceeds the threshold |
| Scan.ScanFromCorrect | src/bounce/quickhull/qh_hull.cpp:228-258 | the loop's running maximum and winner, kept as an invariant, give the argmax specification when the loop ends |
| Scan.FirstMaxAboveUnique | src/bounce/quickhull/qh_hull.cpp:228-258 | at most one index meets the argmax specification |
| Scan.ArgMaxAboveIsReference | src/bounce/quickhull/qh_hull.cpp:228-258 | any index meeting the specification is the one the loop returns |
| Geometry.NewellTriangle | src/bounce/quickhull/qh_hull.cpp:539-574 | for a triangle, Newell's sum is the cross product of two sides |
| Geometry.PolygonPlane | src/bounce/quickhull/qh_hull.cpp:544-574 | the center is the centroid of the polygon, the normal is the normalised Newell normal, and the center lies on the plane |
| InitialHull.FindAabb | src/bounce/quickhull/qh_hull.cpp:23-56 | the loop over the points yields the reference extremes: per axis the first minimum and first maximum index, and the tolerance of the maximum corner |
| InitialHull.ExtremesBounds | src/bounce/quickhull/qh_hull.cpp:23-56 | the maximum index's coordinate is at least every coordinate above minus the largest float; the minimum index's coordinate is at most every coordinate below the largest float |
| InitialHull.ExtremesInRange | src/bounce/quickhull/qh_hull.cpp:23-56 | on a non-empty cloud every reported index is a valid point index |
| InitialHull.ExtremesUsable | src/bounce/quickhull/qh_hull.cpp:23-56 | the extremes have three valid indices per side and a non-negative tolerance |
| InitialHull.LongestAxis | src/bounce/quickhull/qh_hull.cpp:156-179 | None exactly when every axis span is at most epsilon squared; otherwise the two extreme points of the first longest axis, distinct and more than epsilon apart |
| InitialHull.WidestApex | src/bounce/quickhull/qh_hull.cpp:187-217 | None exactly when every other point spans a triangle of squared area at most (2 epsilon) squared; otherwise the first point of largest area, above that bound |
| InitialHull.FarthestFromPlane | src/bounce/quickhull/qh_hull.cpp:223-258 | None exactly when every other point is within the tolerance of the plane; otherwise the first point farthest from it, beyond the tolerance |
| InitialHull.SelectSimplex | src/bounce/quickhull/qh_hull.cpp:147-258 | the coincident, collinear and coplanar rejections each happen exactly when their check fails; a selected simplex has four distinct indices and passes all three checks |
| InitialHull.SelectionOf | src/bounce/quickhull/qh_hull.cpp:147-258 | a selection from the extremes is sound at the cloud's tolerance, and a rejection is one of the three degeneracies |
| MeshEdit.AddVertices | src/bounce/quickhull/qh_hull.cpp:265-268 | the points come in as fresh, distinct hull vertices with no conflict face, pushed on the vertex list in order; old vertices, faces and edges are untouched |
| InitialHull.BuildSimplex | src/bounce/quickhull/qh_hull.cpp:265-284 | four fresh vertices at the simplex points and four fresh faces with empty conflict lists; face i is the i-th seed triangle for the side of the plane through A, B, C that D lies on (`D` below it gives (v1, v2, v3), (v4, v2, v1), (v4, v3, v2), (v4, v1, v3), otherwise the opposite windings); the conflict graph is kept |
| InitialHull.AddSeedFaces | src/bounce/quickhull/qh_hull.cpp:270-284 | the four triangles of the chosen winding become four fresh faces, face i being triangle i with its boundary, plane and centroid, after all four are in |
| InitialHull.SeedVertices | src/bounce/quickhull/qh_hull.cpp:265-268 | the hull has exactly four vertices, last added first, at the simplex points |
| InitialHull.SeedShapedFrom | src/bounce/quickhull/qh_hull.cpp:265-321 | filing the remaining points keeps the four seed faces, oldest last on the face list, as the seed triangles over the four vertices, oldest last on the vertex list |
| InitialHull.SeedListed | src/bounce/quickhull/qh_hull.cpp:270-284 | after the four faces are added to an empty hull the graph is consistent, four faces are listed and nothing is pending |
| Conflicts.BestFace | src/bounce/quickhull/qh_hull.cpp:301-311 | None exactly when the point is within the tolerance of every face; otherwise the first face of the list at maximal distance, above the tolerance |
| Conflicts.BestFaceIsFarthest | src/bounce/quickhull/qh_hull.cpp:301-311 | the chosen face is on the list, above the tolerance, and at least as far from the point as every listed face |
| Conflicts.BestFaceFrame | src/bounce/quickhull/qh_hull.cpp:301-311 | the choice depends only on the planes of the listed faces and the tolerance |
| InitialHull.DistributeFrom | src/bounce/quickhull/qh_hull.cpp:290-321 | only conflict lists and points change; each point not in the simplex that has a best face is filed under it, and the others are dropped |
| InitialHull.SeedFiled | src/bounce/quickhull/qh_hull.cpp:290-321 | after filing the graph is consistent, the number of pending points equals the number of filed inputs, and each face's list holds, last first, exactly the inputs whose best face it is |
| InitialHull.Seed | src/bounce/quickhull/qh_hull.cpp:265-321 | on a reset hull with a sound simplex: four vertices, the four seed faces wound away from the fourth point, a consistent graph and exactly the filed inputs pending |
| InitialHull.BuildInitialHull | src/bounce/quickhull/qh_hull.cpp:139-324 | fewer than four points, or a failed degeneracy check, fails and builds nothing; otherwise the seeded hull at the cloud's tolerance, whose four faces are the seed triangles |
| Conflicts.Refile | src/bounce/quickhull/qh_hull.cpp:514-519 | the point goes to the front of the face's list and names that face; one more pending point; consistency is kept for a loose point; nothing else changes |
| Conflicts.Drop | src/bounce/quickhull/qh_hull.cpp:520-524 | freeing a point removes it from the pending set and keeps a consistent graph consistent when the point is loose |
| Conflicts.CandidatesMembers | src/bounce/quickhull/qh_hull.cpp:326-346 | the candidates are exactly the pairs of a listed face and a point on its conflict list |
| Conflicts.FindEyeVertex | src/bounce/quickhull/qh_hull.cpp:326-346 | None exactly when every conflict point is within the tolerance of its face; otherwise a conflict point beyond the tolerance whose distance is maximal over all lists |
| Conflicts.EyeIsPending | src/bounce/quickhull/qh_hull.cpp:326-346 | in a consistent graph the eye is pending and names the face it was found on |
| Mesh.LoopWalk | src/bounce/quickhull/qh_hull.cpp:857-871 | walking `next` from the first edge of a simple loop yields exactly that loop |
| Mesh.EdgeLoopShape | src/bounce/quickhull/qh_hull.cpp:857-871 | a walk that closes starts at its edge, follows `next` over existing edges and comes back |
| Mesh.PendingIsConflictLists | src/bounce/quickhull/qh_hull.cpp:873-891 | in a consistent graph the pending points are exactly the members of the conflict lists |
| Horizon.MarkFaces | src/bounce/quickhull/qh_hull.cpp:358-369 | only marks change; each listed face is marked visible exactly when the eye is above it by more than the tolerance |
| Horizon.MarksKeep | src/bounce/quickhull/qh_hull.cpp:358-369 | marking keeps the pending set, the consistency of the graph, every boundary loop and every plane |
| Horizon.HorizonOfLoop | src/bounce/quickhull/qh_hull.cpp:380-393 | the result holds exactly the loop edges whose twin lies on an invisible face, without repeats when the loop has none |
| Horizon.CollectHorizon | src/bounce/quickhull/qh_hull.cpp:372-394 | the result holds exactly the edges, on closed boundaries of listed visible faces, whose twin's face is invisible |
| Horizon.CollectHorizonExact | src/bounce/quickhull/qh_hull.cpp:372-394 | when every edge lies on its own face's closed boundary, the collected edges are exactly the edges from a visible face to an invisible one |
| Horizon.FindHorizonEdges | src/bounce/quickhull/qh_hull.cpp:355-394 | only marks change, and the edges are collected under the new marks |
| Horizon.FindHorizonEdgesExact | src/bounce/quickhull/qh_hull.cpp:355-394 | on a well-formed mesh the horizon is exactly the edges of faces the eye sees whose twin's face it does not see |
| Horizon.MarkedBoundary | src/bounce/quickhull/qh_hull.cpp:358-394 | after marking, an edge is a horizon edge exactly when it runs from a face the eye sees to one it does not |
| Horizon.FindLinked | src/bounce/quickhull/qh_hull.cpp:403-416 | None exactly when no later edge starts at the vertex; otherwise the first later edge that does |
| Horizon.Swap | src/bounce/quickhull/qh_hull.cpp:411-415 | the two positions are exchanged, the rest kept, and the multiset unchanged |
| Horizon.SortFrom | src/bounce/quickhull/qh_hull.cpp:396-417 | the sort from a position permutes the edges and leaves the earlier positions alone |
| Horizon.SortHorizon | src/bounce/quickhull/qh_hull.cpp:396-417 | the sort only permutes the collected edges and keeps the first in place |
| Horizon.SortFromChain | src/bounce/quickhull/qh_hull.cpp:396-417 | sorting a permutation of a chain through distinct vertices, whose prefix already follows the chain, yields the chain |
| Horizon.SortHorizonCloses | src/bounce/quickhull/qh_hull.cpp:396-432 | when the horizon edges form one closed chain through distinct vertices, the sorted horizon has each edge ending where the next starts, the last where the first starts |
| MeshEdit.AddVertex | src/bounce/quickhull/qh_hull.cpp:528-537 | a fresh vertex at the point, with no conflict face, at the head of the vertex list; pending points and consistency kept |
| MeshEdit.FindHalfEdge | src/bounce/quickhull/qh_hull.cpp:627-628 | an edge it returns can be reused from a to b: no face owns it, it starts at a if it starts anywhere, and its twin points back, starts at b and is followed by an edge from a |
| MeshEdit.AttachEdge | src/bounce/quickhull/qh_hull.cpp:627-654 | the edge is reused or a fresh twin pair; it runs from a to b on the new face; only NULL tails and faces are filled; no edge a face owned is touched, and no link changes |
| MeshEdit.LinkTriangle | src/bounce/quickhull/qh_hull.cpp:714-721 | three distinct edges form a loop e1, e2, e3 with `prev` its inverse; tails, faces and twins kept |
| MeshEdit.AddFace | src/bounce/quickhull/qh_hull.cpp:623-730 | one fresh face with an empty list at the head of the face list, old faces untouched, only NULL tails and faces filled, fresh edges paired, no link of an edge some face owned changed; the face holds the plane through the three corner positions, their centroid and the invisible mark; for distinct corners its edge starts a loop a -> b -> c whose three edges all belong to it |
| MeshEdit.AddFaces | src/bounce/quickhull/qh_hull.cpp:480-490 | one fresh face per triangle, distinct, in the order added, pushed on the face list; vertices and conflict graph kept; once all are in, face i is still triangle i, with the boundary and record `AddFace` gave it |
| MeshEdit.TriangleFaceKept | src/bounce/quickhull/qh_hull.cpp:623-730 | a later insertion, which keeps old face records, fills only NULL fields and relinks no owned edge, leaves an earlier triangle face as it was |
| MeshEdit.NextInList | src/bounce/quickhull/qh_hull.cpp:769-772 | a result is the element right after an occurrence of the face on the list |
| MeshEdit.NextInListFirst | src/bounce/quickhull/qh_hull.cpp:769-772 | nothing exactly when the face does not occur before the last place on the list; otherwise the element right after its first occurrence |
| MeshEdit.DetachLoop | src/bounce/quickhull/qh_hull.cpp:734-767 | each boundary edge across a NULL face is freed with its twin; each other boundary edge is cleared to point only at its twin; every unrelated edge is unchanged |
| MeshEdit.RemoveFace | src/bounce/quickhull/qh_hull.cpp:732-773 | the face leaves the pool and the list; the boundary is detached as above; vertices and pending points kept; the face that followed is returned |
| Expansion.HorizonTails | src/bounce/quickhull/qh_hull.cpp:434-440 | one saved vertex per horizon edge: that edge's tail |
| Expansion.RemoveEye | src/bounce/quickhull/qh_hull.cpp:442-446 | the eye leaves its face's list and is freed; it stops pending; every other face and point is unchanged; consistency kept |
| Expansion.SwapEye | src/bounce/quickhull/qh_hull.cpp:442-449 | the eye is freed and a hull vertex is added at its position; nothing else changes apart from the eye's list |
| Expansion.RemoveVisibleFace | src/bounce/quickhull/qh_hull.cpp:465-477 | the face is removed; its list is returned as orphans, which become loose and stop pending; every other point is kept |
| Expansion.RemoveVisible | src/bounce/quickhull/qh_hull.cpp:454-478 | exactly the visible listed faces go, the rest unchanged; the orphans are, each once, the pending points of those faces, in list order |
| Expansion.ClearVisible | src/bounce/quickhull/qh_hull.cpp:434-478 | the saved vertices are exactly the horizon tails; the eye is swapped for a hull vertex and the visible faces removed, and every corner of the fan is allocated |
| Expansion.FanClosesHorizon | src/bounce/quickhull/qh_hull.cpp:480-490 | over a closed horizon each fan triangle runs from the new vertex along one horizon edge, from its tail to its head |
| Expansion.Rehome | src/bounce/quickhull/qh_hull.cpp:514-524 | one orphan is filed or freed; only the points and the lists change |
| Expansion.RefileOrphans | src/bounce/quickhull/qh_hull.cpp:494-525 | each orphan with a choice is at the front of that face's list, reversed in order, and names it; the rest are freed; the graph stays consistent and gains exactly the chosen orphans |
| Expansion.FileOrphans | src/bounce/quickhull/qh_hull.cpp:494-525 | each orphan is filed under the new face it is farthest above beyond the tolerance, or freed |
| Expansion.AddNewFaces | src/bounce/quickhull/qh_hull.cpp:420-526 | one new face per horizon edge and one new hull vertex; new face i is the triangle (new vertex, tail i, tail i+1, wrapping to tail 0) with its boundary, plane and centroid over the swapped points; the visible faces are gone; the eye no longer pends; each orphan is re-filed once among the new faces or freed; other pending points stay where they were |
| Expansion.GrownFrom | src/bounce/quickhull/qh_hull.cpp:420-526 | the four stages of the step compose to its promise |
| Merge.ComputePlane | src/bounce/quickhull/qh_hull.cpp:544-574 | only the face's plane and center change; on a closed boundary the center is the centroid of the tails and lies on the plane |
| Merge.MoveConflictsEffect | src/bounce/quickhull/qh_hull.cpp:581-589 | the left list moves, reversed, in front of the right list; each moved point names the right face; the left list is emptied |
| Merge.MoveConflictsConsistent | src/bounce/quickhull/qh_hull.cpp:581-589 | the move keeps a consistent graph consistent with the same pending points |
| Merge.SpliceEffect | src/bounce/quickhull/qh_hull.cpp:603-607 | the four link writes join e.prev to twin.next and twin.prev to e.next, and change no other link |
| Merge.RemoveEdge | src/bounce/quickhull/qh_hull.cpp:576-621 | the left face's points move to the right face; the left boundary joins the right face; e, its twin and the left face are freed; the right face's center lies on its plane; the same points pend |
| Merge.RemoveEdgeMergesLoops | src/bounce/quickhull/qh_hull.cpp:576-621 | for two disjoint simple boundaries, the right face's new boundary is the left loop without the twin joined to the right loop without e |
| Merge.FirstMergeable | src/bounce/quickhull/qh_hull.cpp:779-805 | None exactly when no boundary edge has a non-convex neighbour; otherwise the first such edge |
| Merge.MergeFace | src/bounce/quickhull/qh_hull.cpp:775-808 | reports a merge exactly when the first non-convex edge of a closed boundary is removable; then the face freed is exactly the one across that first non-convex edge, so a strictly convex neighbour is never merged, and nothing changes otherwise |
| Merge.MergeLoop | src/bounce/quickhull/qh_hull.cpp:822-823 | merges until the face has no non-convex neighbour; faces are only freed; the conflict graph is kept |
| Merge.MergeFaces | src/bounce/quickhull/qh_hull.cpp:810-825 | faces are only freed, faces already freed are skipped, the last face has nothing left to merge, and the conflict graph is kept |
| MergeInvariant.LoopFrom | src/bounce/quickhull/qh_hull.cpp:596-601 | in a well-formed mesh the walk from any half-edge closes into a simple loop linked both ways, holding exactly the edges of that edge's face |
| MergeInvariant.AbsorbSpliced | src/bounce/quickhull/qh_hull.cpp:596-610 | after the absorb and the four link writes, with e and its twin freed, every left boundary edge names the right face, tails and twins are kept, the left loop without the twin joined to the right loop without e is a simple loop linked both ways, and only the links at the two joins change |
| MergeInvariant.SplicedEdgesSound | src/bounce/quickhull/qh_hull.cpp:603-610 | every half-edge left after the splice keeps its twin, tail, face, links both ways and endpoint distance |
| MergeInvariant.AbsorbKeepsWellFormed | src/bounce/quickhull/qh_hull.cpp:576-613 | moving the points, absorbing the left boundary, splicing and freeing e, its twin and the left face keep a well-formed mesh well-formed |
| MergeInvariant.ComputePlaneKeepsWellFormed | src/bounce/quickhull/qh_hull.cpp:544-574 | recomputing a face's plane keeps a well-formed mesh well-formed |
| MergeInvariant.RemoveEdgeKeepsWellFormed | src/bounce/quickhull/qh_hull.cpp:576-621 | removing a removable edge of a well-formed mesh leaves it well-formed |
| MergeInvariant.MergeFaceKeepsWellFormed | src/bounce/quickhull/qh_hull.cpp:775-808 | one merge step keeps a well-formed mesh well-formed |
| MergeInvariant.MergeLoopKeepsWellFormed | src/bounce/quickhull/qh_hull.cpp:822-823 | merging one face until nothing is left to merge keeps a well-formed mesh well-formed |
| MergeInvariant.MergeFacesKeepsWellFormed | src/bounce/quickhull/qh_hull.cpp:810-825 | merging each new face in turn keeps a well-formed mesh well-formed |
| Orbits.OrbitReturns | src/bounce/quickhull/qh_hull.cpp:847-854 | every orbit of a one-to-one step on a finite set comes back to its start within that many steps |
| Validation.FanMapPermutes | src/bounce/quickhull/qh_hull.cpp:847-854 | on a linked mesh the step next-then-twin is a permutation of the half-edges |
| Validation.IterateReturns | src/bounce/quickhull/qh_hull.cpp:847-854 | reaching the start after n steps ends the validator's counting walk |
| Validation.WellFormedEdgeValid | src/bounce/quickhull/qh_hull.cpp:827-855 | every half-edge of a well-formed mesh passes `Validate(edge)`, including the walk around its head |
| Validation.WellFormedValidated | src/bounce/quickhull/qh_hull.cpp:857-891 | a well-formed mesh passes all three validators |
| Construct.CapacityAsWritten | src/bounce/quickhull/qh_hull.cpp:70-76 | the counts in unsigned 32-bit arithmetic, each below 2^32 |
| Construct.CapacityWrapsBelowTwo | src/bounce/quickhull/qh_hull.cpp:70-76 | on fewer than two points the 32-bit counts wrap to about four billion half-edges and faces, where none are needed |
| Construct.HullCapacity | src/bounce/quickhull/qh_hull.cpp:67-76 | Euler's formula V - E + F = 2 holds for the counts, doubled as `qhHull` doubles them, and there are none below two points |
| Construct.CapacityAgrees | src/bounce/quickhull/qh_hull.cpp:70-76 | wherever nothing wraps, the 32-bit counts equal the Euler counts |
| Construct.CapacityModular | src/bounce/quickhull/qh_hull.cpp:70-76 | from two points on, the 32-bit half-edge and face counts are the Euler counts reduced modulo 2^32 |
| Construct.CapacityWrapsAbove | src/bounce/quickhull/qh_hull.cpp:70-76 | on 357913944 points the half-edge count wraps to 8, where the Euler count is 2^32 + 8 |
| Construct.AddEyeVertex | src/bounce/quickhull/qh_hull.cpp:348-353 | the step adds one hull vertex and takes the eye, and maybe more points, off the lists, so the pending set shrinks; the graph stays consistent |
| Construct.NoEyeSettled | src/bounce/quickhull/qh_hull.cpp:126-136 | when no eye is found, every conflict point is within the tolerance of its face |
| Construct.Start | src/bounce/quickhull/qh_hull.cpp:113-124 | the reset and seed fail exactly as `BuildInitialHull` does; on success at most one pending point per input outside the simplex |
| Construct.Construct | src/bounce/quickhull/qh_hull.cpp:66-137 | the capacity reserved is exactly the 32-bit counts of `CapacityAsWritten`: the Euler counts wherever nothing wraps and about four billion half-edges and faces below two points; building fails exactly on the four degeneracies; otherwise the graph stays consistent, each iteration adds one hull vertex, there are at most as many iterations as inputs outside the simplex, and a completed run leaves no point above its face |

## Left out

- Memory carving in `Construct` (`qh_hull.cpp:78-111`) is left out: the pointer arithmetic, byte layout and free-list threading. Only the counts are modelled. Line 102 offsets the horizon array by `sizeof(qhFace*)` where the face array holds `qhFace` records; byte layout is outside the model.
- The calls to `Validate()` inside the `Construct` loop (line 129) and after seeding (line 287) are left out. They are debug assertions that change no state; `Validation.WellFormedValidated` states when they pass.
- `Draw` (lines 893-923) is left out: debug rendering.
- The float geometry stays uninterpreted: normalisation, `b3Plane`, `b3AreaSquared`, epsilon, the largest float and float32 rounding. Arithmetic is over the reals.
- No global convexity, containment or Euler-count proofs are given for the final hull. They depend on float tolerance.
- The half-edge invariant `Validation.WellFormed` is defined and shown to pass the validators. `MergeFaces` is shown to keep it (`MergeInvariant.MergeFacesKeepsWellFormed`), with no geometry involved. Its preservation by `AddNewFaces`, and so by `AddEyeVertex`, is not proved. That would need the visible region to be bounded by one simple horizon, so that the removed faces leave one hole that the fan of new triangles closes with every twin paired. What is stated instead: each face `AddFace` builds is a triangle with its loop, tails, heads, owner and record (`MeshEdit.TriangleFace`), which the rest of the same `AddFaces` batch keeps; the seed faces and the fan faces are stated this way; and `RemoveFace` states its own local effects. Twin pairing across the faces of a batch is not stated.
- Several helpers called by the builder are not part of this model. Each is given a concrete definition chosen here:
  - `AllocateVertex`, `AllocateEdge` and `AllocateFace` take the lowest free id.
  - `AllocateFace` starts with an empty conflict list and the invisible mark.
  - The `Free*` helpers delete the id.
  - List `PushFront` prepends, and `Remove` deletes the element and returns the one after it.
  - `MeshEdit.FindHalfEdge` searches the boundaries of the listed faces in list order. It returns the twin of the first boundary edge running from b to a whose twin no face owns yet and starts at a, or nowhere.
- MeshEdit.FindHalfEdge: only soundness is stated (an edge it returns is reusable), not that it finds one whenever one exists. The search also passes over a twin that a face already owns. A search that returned such an edge would make `AddFace` relink that face's boundary; the model does not follow that case.
- MeshEdit.AddFace: the triangle boundary is stated only for three distinct corners. With a repeated corner two of its edges coincide and the links written last win.
- The counts of the intrusive lists and arrays are left out; they are the lengths of sequences.
- The horizon-order assertion loop (lines 422-432) is not checked; it is a debug assertion. `Expansion.FanClosesHorizon` and `Horizon.SortHorizonCloses` state what it asserts when the horizon is a closed chain.
- Expansion.AddNewFaces: requires a non-empty horizon whose tails are allocated vertices other than the eye. `qhHull` reads these without a check and has no defined behaviour otherwise.
- Construct.AddEyeVertex: returns None when the sorted horizon is not usable as above. `Construct.Construct` then stops with status `HorizonBroken` instead of continuing into undefined behaviour.
- Merge.MergeFace: a boundary that does not close, an edge `RemoveEdge` could not dereference, or an edge of another face ends the walk without a merge. `qhHull` would follow a NULL pointer or loop forever there.
- MeshEdit.RemoveFace: an edge without a twin, or a boundary that does not close, detaches nothing. `qhHull` would dereference NULL.
- Horizon.SortHorizon: an empty horizon is returned unchanged; `qhHull`'s unsigned bound `m_horizonCount - 1` would wrap.
- Horizon.CollectHorizon: a visible face whose boundary does not close contributes nothing; `qhHull`'s do-while would not end.
- Expansion.Rehome: a choice naming a face that is not allocated leaves the orphan as it is. The selection rule never produces one.
- Construct.Construct: requires fewer than 2^32 points, the range of `qhHull`'s `u32 count`.
- Vertex ids may be reused: a point freed in one step can give its id to the vertex added for a later eye. Nothing in the model depends on ids staying fresh.
- The getters of `b3SoftBodyNode` (`GetType`, `GetVertex`, `GetPosition`, `GetVelocity`, `GetMass`, `GetRadius`, `GetFriction`) are field reads with no rows of their own. The setters' rows state them.
- `b3NodeBodyContactWorldPoint::Initialize` (`softbody_node.h:55-68`) is left out: float math over `b3Transform`, which is not part of this model.
- `examples/testbed/framework/cloth_dragger.h` is left out: testbed UI and ray-picking glue.

## Findings

| source | as written | input that shows it | evidently intended | confidence | as-written member | corrected member |
|---|---|---|---|---|---|---|
| src/bounce/quickhull/qh_hull.cpp:70-76 | `E = 3 * V - 6` and `F = 2 * V - 4` are computed in `u32` before `BuildInitialHull` rejects small inputs, so for `count` 0 or 1 they wrap and the free-list loops at lines 86-99 walk about 2^32 half-edges and faces past the buffer | `Construct(memory, vs, 0)` or `count == 1` | no capacity (or a reject) below two points, the Euler counts otherwise | not executed | Construct.CapacityAsWritten, Construct.CapacityWrapsBelowTwo, Construct.CapacityWrapsAbove, Construct.Construct | Construct.HullCapacity, Construct.CapacityAgrees |

`Construct.Construct` reserves the counts as written. Its contract states that they equal the Euler counts of `Construct.HullCapacity` wherever nothing wraps, and that they wrap below two points. `Construct.CapacityModular` shows that they also wrap when the Euler counts reach 2^32, which needs over 357 million points and is outside the finding.
