# Spatial indexes and their bookkeeping

This project models the spatial indexes of OpenGeoSys and the id bookkeeping that is built on them, and
proves what they promise. Each module follows one component and keeps its form: trees are objects that are
split in place, vectors are fields that loops rewrite, and every such method is proved against a
specification that is stated apart from it.

* `QuadCells`, `QuadGeometry`, `QuadTree`, `MeshDensity`: the quadtree. `QuadCells` is the reference: a
  cell is a path of quadrants with integer coordinates, a tree is a set of split cells, and neighbours and
  balance are defined by arithmetic. `QuadTree` is the linked structure with father pointers. Its neighbour
  lookup is proved to refine the arithmetic, and its balancing to produce the least balanced refinement.
* `Common`: the machine epsilon and sequences without repetition, which several components share.
* `Space`, `OctTree`: the octree with half-open cubes, bucket splitting and range queries.
* `BoundingBox`, `PointVec`: the vector of unique points, its map from old to new ids, and insertion.
* `Grid`: the regular grid and its epsilon query.
* `Polyline`, `LineEnds`, `Merge`: cached lengths, joining of polylines, and merging of geometries.
* `RadiusSearch`, `ElementStatus`, `ConfigTree`: three smaller state machines.

Coordinates are `real` and midpoints are exact. `nextafter` is a function value `next` with `next(x) > x`,
and the square root is a function value `root` without further assumptions, since only the symmetry of the
squared distance matters. `PointVec` takes the absolute tolerance, which the source computes from the
bounding box and a relative one, as a parameter that is not negative. Nodes of the quadtree carry their cell
as ghost data, and methods take the ghost map from cells to nodes in place of a reachability predicate.

## What the proofs found

Some properties one would expect do not hold. In each case the exact condition is proved.

* A point that is accepted inside the cube of the octree, but outside the bounding box, does not extend the
  bounding box. If the tree is rebuilt later, the new cube may not contain that point, and the point is in the
  vector but not in the tree (`PointVec.CubeMoves`, `PointVec.LosePoint`). From a complete tree, an insertion
  leaves a complete tree iff the new point duplicates an old one, or lies in the old cube, or the cube around
  the extended bounding box contains all old points (`PointVec.CompleteAfter`); that is certain as long as
  every new point is inside the bounding box or outside the cube (`PointVec.SnugAfter`).
* The vector takes a point for which it rebuilds the tree without asking whether the new tree took it. From a
  complete tree it always does (`PointVec.CompleteAfter`). In general it does iff what the rebuilt tree accepts
  of the old points does not conflict with the new one (`PointVec.TreeTakesIff`); where the old points do not
  conflict with each other, iff none of them inside the rebuilt cube conflicts with the new one
  (`PointVec.TreeTakesOrdered`). A lost point that comes back refuses its twin, and the vector keeps both
  (`PointVec.TwinRefused`, `PointVec.KeepTwins`).
* A stored point conflicts with a new one iff it is within eps of it and not the new one moved by eps along an
  axis towards larger coordinates, which the half-open range query leaves out (`OctTree.ConflictIffNear`). So a
  point of the cube is added iff all stored ones within eps are such a step ahead (`OctTree.FreeIff`), and
  conflict is symmetric except between two points one of which is a step ahead (`OctTree.SymmetricIff`). For
  these, which points are kept depends on the order (`PointVec.OrderMattersIff`, `PointVec.OrderMatters`), so it
  matters that a rebuilt tree gets the points in the order of the vector.
* The adaptive mesh density takes the root square from the bounding box of its points. The square is half-open,
  so the points on the far border of the longer side, at least one, are never stored
  (`MeshDensity.RootSquareMisses`, `MeshDensity.Initialize`).
* Removing the first point of a polyline does not rebase the lengths: they stay prefix sums iff the removed
  segment has no length and there is one (`Polyline.Polyline.RemovePoint`). Two points at distance two, or
  a single point, show the failure (`Polyline.RemoveFirst`, `Polyline.RemoveOnly`).
* Lines that can be joined to one are not always joined: the first line that fits is taken, and at an id where
  more than two ends come together the order of the lines decides (`Polyline.JoinAtJunction`). With tolerance
  zero, lines that all join are connected; where no such id exists, they join iff they are connected, in any
  order (`LineEnds.AllJoinIffConnected`, `LineEnds.OrderIgnored`).
* The tolerance of joining is squared in every round, although squared distances are compared with it and the
  source means to square it once. It is the same in all rounds iff it is zero or one
  (`Polyline.SameToleranceIff`). With 0.5, of two equal gaps the first is closed and the second is not
  (`Polyline.ToleranceShrinks`).
* When geometries are merged, a skipped geometry (missing, or stations) hands no offset on. All offsets are
  right iff no geometry is skipped between two that are merged (`Merge.OffsetsRightIff`).
* The node counters of the element status are single bytes. A counter is the number of active incidences iff
  that number is at most 255, and a node is reported rightly iff that number is zero or no multiple of 256
  (`ElementStatus.ElementStatus.CounterRightIff`). A mesh with 256 elements at one node shows the failure
  (`ElementStatus.LostNode`).
* An element status that is announced to have inactive elements, but is given none, hands out empty lists while
  everything is active. The list of elements is right iff the mesh has no elements, the list of nodes iff no
  element has a node (`ElementStatus.ElementStatus.EmptyListsRightIff`). A mesh of one element shows the failure
  (`ElementStatus.NothingHandedOut`).
* For a negative `eps` the grid query still compares with the square of `eps` but visits the cells of an
  inverted cube. It finds what a linear scan finds iff `eps` is not negative, or both corners lie in one cell,
  or there is nothing to find (`Grid.FindsAllIff`, `Grid.Grid.GetPointsInEpsilonEnvironment`). A grid of three
  points and a query that misses one of them show the failure (`Grid.MissPoint`).

## Model

| member | source | states |
|---|---|---|
| QuadCells.CoordinatesDetermineCell | GeoLib/QuadTree.h:524-559 | a cell is determined by depth, column and row, so a quadrant path is an address |
| QuadCells.AdjacentOfQuarter | GeoLib/QuadTree.h:360-494 | the cell next to a quadrant is its sibling or the mirrored quadrant of the cell next to the father, and exists in the lattice in the same cases |
| QuadCells.CoveringIsDeepest | GeoLib/QuadTree.h:360-494 | the covering cell exists, contains the asked cell, and is the deepest such one; if it is shallower than asked it is a leaf |
| QuadCells.CoveringOfAdjacent | GeoLib/QuadTree.h:360-494 | the deepest existing cell over an adjacent cell follows from the one over the cell adjacent to the father |
| QuadCells.BalancedIffNoLeafNeedsRefinement | GeoLib/QuadTree.h:561-639 | the local test that balancing uses is right: leaves that share an edge differ by at most one level iff no leaf needs refinement |
| QuadCells.SplitDisturbsOnlyNeighbours | GeoLib/QuadTree.h:171-245 | splitting a leaf creates need of refinement only in its quarters and in the leaves covering its four neighbours |
| QuadCells.RefinementStaysWithinDepth | GeoLib/QuadTree.h:561-639 | a leaf that needs refinement lies two levels above some existing cell, so that refining it never raises the maximum depth |
| QuadCells.ForcedSplit | GeoLib/QuadTree.h:561-639 | a leaf that needs refinement is split in every balanced tree that extends the given one |
| QuadGeometry.SquareOfArithmetic | GeoLib/QuadTree.h:524-545 | the square reached by exact halving along a path is the lattice square of its depth, column and row |
| QuadGeometry.SquaresNested | GeoLib/QuadTree.h:524-545 | two cells whose half-open squares share a point lie one under the other |
| QuadGeometry.LeavesDisjoint | GeoLib/QuadTree.h:107-162 | a point lies in the square of at most one leaf |
| QuadGeometry.LeafAround | GeoLib/QuadTree.h:107-135 | a point in the square of an existing cell lies in the square of a leaf under it |
| QuadGeometry.DistinctPointsNeedRoom | GeoLib/QuadTree.h:137-160 | a square holding two points that are not close can be halved: the measure by which splitting terminates decreases |
| QuadGeometry.CloseBounds | GeoLib/QuadTree.h:137-150 | points that differ by 2^-26 or more in x or in y are never close, and points that differ by less than half of that in both always are |
| QuadGeometry.EpsilonIsPower | GeoLib/QuadTree.h:143 | the machine epsilon is 2^-52 |
| QuadTree.LookupFindsNeighbour | GeoLib/QuadTree.h:360-494 | each of the four pointer recursions returns the node of the deepest existing cell over the adjacent cell, or null exactly at the border of the root |
| QuadTree.ShallowNeighbourIsLeaf | GeoLib/QuadTree.h:360-494 | a neighbour that is less deep than the asking node is a leaf |
| QuadTree.NeedToRefineIff | GeoLib/QuadTree.h:561-639 | the test on neighbours and their near children is true iff the cell has to be refined by the arithmetic definition |
| QuadTree.QuadTree.constructor | GeoLib/QuadTree.h:53-88 | an empty leaf over a square that has the lower left corner of the box and its longer side |
| QuadTree.QuadTree.AddPoint | GeoLib/QuadTree.h:107-162 | accepted iff the point is in the half-open square and the sum of the two squared coordinate differences to every point of the leaf around it is at least the machine epsilon; then it is stored besides the old points and nothing outside the subtree changes, otherwise nothing changes |
| QuadTree.AcceptsInCoordinates | GeoLib/QuadTree.h:107-150 | acceptance by a subtree in coordinates, for every state of the tree |
| QuadTree.QuadTree.IsInLeaf | GeoLib/QuadTree.h:137-150 | true iff the squared distance to some point of the leaf is below the machine epsilon |
| QuadTree.QuadTree.AddPointToChildren | GeoLib/QuadTree.h:127-135 | offering a point to the children in order stores it in exactly the child that accepts it |
| QuadTree.QuadTree.CreateChildren | GeoLib/QuadTree.h:524-545 | four empty leaves for the four quarters, one level deeper, linked to the father |
| QuadTree.QuadTree.DistributePoints | GeoLib/QuadTree.h:547-556 | redistribution rejects and loses none of the points of the leaf |
| QuadTree.QuadTree.SplitNode | GeoLib/QuadTree.h:524-559 | afterwards the subtree stores exactly the old points; with at most the maximum number of points the split is exactly one level |
| QuadTree.QuadTree.GetLeafs | GeoLib/QuadTree.h:251-264 | appends every leaf of the subtree once and nothing else |
| QuadTree.QuadTree.SplitAndQueue | GeoLib/QuadTree.h:183-241 | one round of balancing: the leaf is split by one level, its quarters and the shallower leaf neighbours are queued |
| QuadTree.SplitKeepsTree | GeoLib/QuadTree.h:524-559 | a split of a leaf of a valid tree leaves a valid tree |
| QuadTree.StillPending | GeoLib/QuadTree.h:171-245 | the loop invariant of balancing survives a split: every leaf that needs refinement is still in the list |
| QuadTree.RefinedOnce | GeoLib/QuadTree.h:183-241 | one round keeps the points, stays within every balanced extension and within the maximum depth, and takes one cell out of those that can still be split |
| QuadTree.QuadTree.Balance | GeoLib/QuadTree.h:171-245 | terminates with the least balanced tree that extends the old one: balanced, contained in every balanced extension, no deeper, same points; old nodes stay in place |
| MeshDensity.StoredOnce | GeoLib/QuadTree.h:107-162 | in a valid tree every stored point occurs once, in a leaf, whose square contains it |
| MeshDensity.AddPoints | Applications/FileIO/Gmsh/GMSHAdaptiveMeshDensity.cpp:85-99 | after inserting all points and balancing, the tree is valid and is the least balanced one that extends the tree of the insertions, stores the old points and exactly those given ones that the tree of the moment accepted, and each given point is stored, outside the root square, or closer in coordinates to a stored point than the root of the machine epsilon |
| MeshDensity.StoredInTurn | Applications/FileIO/Gmsh/GMSHAdaptiveMeshDensity.cpp:85-99 | after insertions in turn the tree stores the old points and those that were accepted, and no others |
| MeshDensity.AddAbove | Applications/FileIO/Gmsh/GMSHAdaptiveMeshDensity.cpp:85-99 | a run that stores two points above each other in one leaf |
| MeshDensity.BoundingBox | Applications/FileIO/Gmsh/GMSHAdaptiveMeshDensity.cpp:48-75 | the smallest and largest coordinates, each attained by a point |
| MeshDensity.RootSquareMisses | Applications/FileIO/Gmsh/GMSHAdaptiveMeshDensity.cpp:76-83 | a point is inside the root square iff it is not on the far border of the longer side of the bounding box |
| MeshDensity.Initialize | Applications/FileIO/Gmsh/GMSHAdaptiveMeshDensity.cpp:48-83 | a root square with the lower left corner and the longer side of the bounding box, and the least balanced tree over the insertions of the points that are not on the far border; at least one point is on it and is not stored |
| Space.Box.PartsPartition | GeoLib/OctTree-impl.h:202-258 | the eight octants of a cube are cubes of half the side inside it, and no point lies in two of them |
| Space.Box.PartsInCoordinates | GeoLib/OctTree-impl.h:202-258 | the octants in the order of the children, by comparison of each coordinate with the middle |
| Space.Box.PartAround | GeoLib/OctTree-impl.h:202-258 | every point of the cube lies in an octant |
| Space.DistanceInCube | GeoLib/OctTree-impl.h:202-278 | two points of a cube are closer than its diagonal |
| OctTree.CubeAroundBox | GeoLib/OctTree-impl.h:17-54 | the domain of a tree is a cube and contains the closed box it is made for |
| OctTree.CubeIsCentred | GeoLib/OctTree-impl.h:17-54 | for every box each side of the cube is as long as the longest extent, lies around the middle of the box, and is enlarged at its upper end by a millionth of its length, or by the tolerance |
| OctTree.SplitHalves | GeoLib/OctTree-impl.h:202-278 | a cube that holds two separated points can be halved only so often, so splitting terminates |
| OctTree.NoConflictSeparates | GeoLib/OctTree-impl.h:66-91 | adding a point that conflicts with no stored one keeps all points at least eps apart |
| OctTree.ConflictIffNear | GeoLib/OctTree-impl.h:66-91 | a stored point conflicts iff it is within eps and not the new point moved by eps along one axis towards larger coordinates |
| OctTree.NearInCoordinates | GeoLib/OctTree-impl.h:66-91 | within eps: the sum of the three squared coordinate differences is at most the square of eps |
| OctTree.SymmetricIff | GeoLib/OctTree-impl.h:66-91 | conflict is symmetric iff neither point is the other one moved in this way |
| OctTree.FreeIff | GeoLib/OctTree-impl.h:66-91 | some stored point conflicts with the new one iff, in coordinates, one is within eps and not the new one moved in this way |
| OctTree.NegativeNeverConflicts | GeoLib/OctTree-impl.h:66-91 | with a negative tolerance no point conflicts with any other |
| OctTree.InnerIsLarge | GeoLib/OctTree-impl.h:202-278 | only a cube whose diagonal is longer than eps has been split |
| OctTree.DepthBound | GeoLib/OctTree-impl.h:202-278 | in every valid tree with separated points, a node at some depth exists only if the cube one level above is longer than eps across, and the depth is bounded by the halvings of the root |
| OctTree.QueryFindsConflicts | GeoLib/OctTree-impl.h:66-91 | testing the norm on the result of the range query finds exactly the conflicting points |
| OctTree.OctTree.constructor | GeoLib/OctTree-impl.h:146-151 | an empty leaf for a cube |
| OctTree.OctTree.CreateOctTree | GeoLib/OctTree-impl.h:17-54 | an empty tree over a cube with the longest extent of the box as its side and the same middle, enlarged at the upper ends; tolerance zero is replaced by the machine epsilon |
| OctTree.OctTree.GetPointsInRange | GeoLib/OctTree-impl.h:115-143 | appends exactly the stored points of the half-open range, each once, in spite of both prunings |
| OctTree.OctTree.AddPoint | GeoLib/OctTree-impl.h:66-113 | exactly three outcomes: a stored conflicting point is returned, or null for a point outside, or the point is added; added iff it is inside the half-open cube and no stored point is within eps in coordinates, except a step ahead; the stored points stay separated |
| OctTree.OctTree.AddPoint_ | GeoLib/OctTree-impl.h:154-182 | without a query: null for a point outside, else the point is added |
| OctTree.OctTree.Insert | GeoLib/OctTree-impl.h:154-182 | the point goes below the one child around it, or into this leaf; the children never refuse it |
| OctTree.OctTree.AddPointToChild | GeoLib/OctTree-impl.h:184-199 | called on leaves only; refuses exactly the points outside |
| OctTree.OctTree.CreateChildren | GeoLib/OctTree-impl.h:202-258 | eight empty leaves, the one at position k for octant k |
| OctTree.OctTree.GiveToChild | GeoLib/OctTree-impl.h:260-276 | exactly one child takes the point, and no child has split before more points were given than a leaf can hold |
| OctTree.OctTree.SplitNode | GeoLib/OctTree-impl.h:202-278 | the new children hold the old points and the new one between them, each in its octant |
| BoundingBox.BoundsHold | GeoLib/AABB.h:78-92 | the bounds computed from a point range bound every point |
| BoundingBox.BoundsAttained | GeoLib/AABB.h:78-92 | each of the six bounds is a coordinate of some point |
| BoundingBox.BoxHoldsPoints | GeoLib/AABB.h:78-92 | the half-open box contains all points it was computed from |
| BoundingBox.Aabb.constructor | GeoLib/AABB.h:78-92 | the lower corner has the smallest coordinates, the upper one the numbers next to the largest |
| BoundingBox.Aabb.Update | GeoLib/AABB.h:94-122 | each of the six coordinates moves exactly if the point is not inside there, the upper ones to the next number; the box contains the point and the old box, and tells whether it changed |
| PointVec.UniqueIsOrdered | GeoLib/PointVec.cpp:54-69 | among the kept points no earlier one conflicts with a later one |
| PointVec.KeptIffFree | GeoLib/PointVec.cpp:54-69 | in coordinates: a point is kept iff no kept earlier one is within eps of it, except a step ahead |
| PointVec.UniqueInOrder | GeoLib/PointVec.cpp:54-73 | the kept points keep their order |
| PointVec.OrderedIsUnique | GeoLib/PointVec.cpp:183-188 | points without such conflicts are all kept when they are added again in order |
| PointVec.OrderMattersIff | GeoLib/PointVec.cpp:183-188 | how many of two points are kept depends on their order iff one is the other one moved by eps along an axis |
| PointVec.OrderMatters | GeoLib/PointVec.cpp:183-188 | two points one unit apart, of which one order keeps one and the other order both |
| PointVec.RemovedAt | GeoLib/PointVec.cpp:78-85 | the i-th removed position has i removed positions before it |
| PointVec.CompactedAt | GeoLib/PointVec.cpp:71-73 | a kept point moves down by the number of removed points before it |
| PointVec.CorrectIds | GeoLib/PointVec.cpp:40-47 | a point without an id gets its position, every other id stays |
| PointVec.Deduplicate | GeoLib/PointVec.cpp:49-69 | the tree holds the points that are kept greedily; the id map holds positions of kept representatives, the list holds the removed positions |
| PointVec.DecrementKept | GeoLib/PointVec.cpp:75-93 | the first two loops subtract from every kept position the number of removed positions before it |
| PointVec.DecrementRemoved | GeoLib/PointVec.cpp:94-105 | the third loop does the same for the representatives of removed points, the first of which needs nothing |
| PointVec.CorrectedIdMaps | GeoLib/PointVec.cpp:75-105 | the corrected entry of every original point is the new index of the point itself, or of an earlier kept point within eps |
| PointVec.PointVec.constructor | GeoLib/PointVec.cpp:25-111 | the data are the greedily kept points in order with ids equal to positions, the id map sends each original point to itself or to an earlier point within eps, the tree holds exactly the data, and the bounding box contains them |
| PointVec.PointVec.PushBack | GeoLib/PointVec.cpp:131-136 | the recorded index names the point itself or one within eps; ids stay positions; from a complete tree, the new point is stored, and the tree stays complete iff a condition on the state before the call holds; in general, exactly when the tree takes the point |
| PointVec.PointVec.UniqueInsert | GeoLib/PointVec.cpp:163-201 | the complete effect: duplicate, new inside, or new outside with an extended box and a tree of the points accepted in order |
| PointVec.PointVec.Rebuild | GeoLib/PointVec.cpp:175-191 | the new tree holds what it accepts of the old points and the new one, in this order |
| PointVec.AcceptedOfOrdered | GeoLib/PointVec.cpp:183-188 | because the order is the order of insertion, a rebuilt tree accepts exactly the points inside its cube |
| PointVec.CompleteAfter | GeoLib/PointVec.cpp:163-201 | from a complete tree, the new point is in the tree, and the tree is complete afterwards iff the point is a duplicate, or in the old cube, or the cube around the extended box contains every old point |
| PointVec.TreeTakesIff | GeoLib/PointVec.cpp:183-196 | the point is in the tree iff it lies in the old cube, or nothing the rebuilt tree accepted before conflicts with it |
| PointVec.TreeTakesOrdered | GeoLib/PointVec.cpp:183-196 | where no earlier point conflicts with a later one, the tree takes the point iff its old cube contains it or no old point inside the rebuilt cube conflicts with it |
| PointVec.SnugAfter | GeoLib/PointVec.cpp:163-201 | a bounding box that contains all points, and a cube around it, persist over points that are inside the box or outside the cube, and then no point is lost |
| PointVec.CubeMoves | GeoLib/PointVec.cpp:178-182 | a point in the old cube that is outside the new one |
| PointVec.LosePoint | GeoLib/PointVec.cpp:163-201 | a run of two insertions after which a point of the vector is missing in the tree |
| PointVec.TwinRefused | GeoLib/PointVec.cpp:183-196 | a twin of a lost point makes the tree take the lost point back and refuse the twin |
| PointVec.KeepTwins | GeoLib/PointVec.cpp:163-201 | a run of three insertions after which the vector holds two points at one place, one of them not in the tree |
| Grid.Axis.Cell | GeoLib/Grid.h:376-401 | every coordinate is mapped to a valid cell |
| Grid.Axis.CellInCoordinates | GeoLib/Grid.h:376-401 | the distance from the lower end, rounded down before it is divided, lies between the ends of the cell |
| Grid.Axis.CellMonotone | GeoLib/Grid.h:376-401 | the map is monotone, although it rounds before it divides |
| Grid.AxisOfValid | GeoLib/Grid.h:197-218 | the step sizes of the constructor cover the extent |
| Grid.AxisOfIsAxis | GeoLib/Grid.h:197-218 | the steps add up to the number next to the extent, or to the machine epsilon where that is smaller; cells are found with the number next to the step |
| Grid.Lattice.IndexInjective | GeoLib/Grid.h:220-229 | different cells have different positions in the linear array, all inside it |
| Grid.ComponentwiseIsLexicographic | GeoLib/Grid.h:224-225 | the lexicographic test of the constructor is true for every point |
| Grid.Lattice.NearIsBetween | GeoLib/Grid.h:239-264 | everything within eps of a point lies in the cells between those of the corners of the cube |
| Grid.Grid.constructor | GeoLib/Grid.h:192-235 | every cell holds exactly the points that lie in it, in order; each axis has the bounds, the number of cells and the step size that the points demand |
| Grid.CellsBetweenMean | GeoLib/Grid.h:239-264 | the order of visits contains every cell between the corner cells exactly once, and no other |
| Grid.Grid.CellsIntersectingCube | GeoLib/Grid.h:239-264 | the contents of the cells between the corner cells, in the order of visits |
| Grid.OneMoreCell | GeoLib/Grid.h:588-608 | scanning one more cell finds the points of that cell in addition, with multiplicity |
| Grid.ScanMeans | GeoLib/Grid.h:588-608 | in coordinates: a linear scan finds a point as often as it is there if the sum of the squared differences is below the square of eps, and else not at all |
| Grid.ScanOfCells | GeoLib/Grid.h:588-608 | a scan of cells that contain all near points finds what a scan of all points finds |
| Grid.InvertedCube | GeoLib/Grid.h:239-264 | with a negative eps either one cell is visited, which has all near points, or none |
| Grid.FindsAllIff | GeoLib/Grid.h:588-608 | the visited cells give what a linear scan gives iff eps is not negative, or both corners lie in one cell, or nothing is near |
| Grid.SameIds | GeoLib/Grid.h:588-608 | points in another order have the same ids with the same multiplicity |
| Grid.Grid.GetPointsInEpsilonEnvironment | GeoLib/Grid.h:588-608 | the ids of the near points in the cells around, for every eps; they are those a linear scan finds, with the same multiplicity, iff the exact condition holds; in coordinates, only ids of near points, and all of them for every eps that is not negative |
| Grid.MissPoint | GeoLib/Grid.h:588-608 | a grid and a query with a negative eps that misses the very point it is asked at |
| Polyline.Polyline.constructor | GeoLib/Polyline.cpp:25-28 | an empty polyline with the one length zero |
| Polyline.Polyline.Copy | GeoLib/Polyline.cpp:30-34 | same points, ids and lengths |
| Polyline.Polyline.AddPoint | GeoLib/Polyline.cpp:45-71 | appends unless the last id is repeated; the new length exceeds the last one by the root of the sum of the three squared coordinate differences, the others stay right, and adjacent ids distinct |
| Polyline.Polyline.PrefixSumsIff | GeoLib/Polyline.cpp:45-71 | lengths are prefix sums iff they begin with zero and each exceeds the one before by the root of the sum of the squared coordinate differences |
| Polyline.Polyline.InsertPoint | GeoLib/Polyline.cpp:73-156 | inserts iff no neighbour is repeated; the lengths begin with zero and all their differences are distances in coordinates, and adjacent ids stay distinct |
| Polyline.Polyline.UpdateLengths | GeoLib/Polyline.cpp:103-153 | the patched lengths are the prefix sums of the new ids, at the front and between two points |
| Polyline.Polyline.InsertedBetween | GeoLib/Polyline.cpp:130-151 | replacing one segment by two and shifting the rest gives prefix sums |
| Polyline.Polyline.RemovePoint | GeoLib/Polyline.cpp:158-196 | removes the id; all differences of lengths are distances in coordinates afterwards, and the lengths are prefix sums iff it was not the first one, or the removed segment has no length and exists |
| Polyline.Polyline.RemovedFirst | GeoLib/Polyline.cpp:176-183 | the shifted lengths are prefix sums iff the first segment has no length |
| Polyline.RemoveFirst | GeoLib/Polyline.cpp:158-196 | a run that leaves length two for a polyline of one point |
| Polyline.RemoveOnly | GeoLib/Polyline.cpp:158-196 | a run that leaves no length for an empty polyline |
| Polyline.InsertAndRemove | GeoLib/Polyline.cpp:73-196 | a point inserted behind the first one and removed again leaves both arrays as they were |
| Polyline.EdgesPrepend | GeoLib/Polyline.cpp:310-330 | the undirected edges of a line grow by one link at either end |
| Polyline.EdgesMean | GeoLib/Polyline.cpp:310-330 | exactly the pairs of different adjacent ids are edges, in either direction |
| Polyline.EdgesCount | GeoLib/Polyline.cpp:310-330 | a line without repeats has one edge less than ids |
| Polyline.IdenticalIds | GeoLib/Polyline.cpp:639-649 | with tolerance zero only equal ids are identical |
| Polyline.IdenticalInCoordinates | GeoLib/Polyline.cpp:639-649 | ids are identical iff they are equal or the sum of the squared coordinate differences is below the tolerance |
| Polyline.AddReversed | GeoLib/Polyline.cpp:314-319 | adding a line in reverse adds exactly its edges |
| Polyline.AddRest | GeoLib/Polyline.cpp:353-360 | adding a line behind a shared end adds exactly its edges |
| Polyline.Join | GeoLib/Polyline.cpp:308-373 | joins iff the lines touch at an end; with tolerance zero the edges add up in all four cases |
| Polyline.ConstructPolylineFromSegments | GeoLib/Polyline.cpp:291-393 | with tolerance zero the undirected edges of the result are those of all inputs; when lines are left over, null is returned and none of them over the same points touches what was joined; over the same points, a polyline is returned iff the ends of the lines all join, only if they are connected, and where no id has more than two ends iff they are connected; with any tolerance, each joined line touched the polyline within the tolerance of its round, no line left over does within that of the last round, and no id is invented |
| Polyline.SameToleranceIff | GeoLib/Polyline.cpp:304-307 | the tolerance, squared in every round, is the same in all of them iff it is zero or one |
| Polyline.ToleranceShrinks | GeoLib/Polyline.cpp:291-393 | a run of three lines with equal gaps, the first of which is closed and the second is not |
| Polyline.JoinSegments | GeoLib/Polyline.cpp:291-393 | lines of two points each are joined to one polyline iff their ends all join |
| Polyline.JoinAtJunction | GeoLib/Polyline.cpp:291-393 | the same four lines give null in one order and a polyline in another |
| LineEnds.JoinedKeepsNoJunction | GeoLib/Polyline.cpp:308-373 | joining makes no junction, and without one the id at which two lines are joined is an end of no other line |
| LineEnds.ConnectedAfter | GeoLib/Polyline.cpp:308-373 | connected lines without a junction are connected after a join |
| LineEnds.AllJoinIffConnected | GeoLib/Polyline.cpp:304-390 | lines that all join are connected; without a junction they all join iff they are connected |
| LineEnds.OrderIgnored | GeoLib/Polyline.cpp:304-390 | without a junction, the order of the lines does not decide whether they all join |
| LineEnds.OrderMatters | GeoLib/Polyline.cpp:304-390 | four lines at a junction that are stuck in one order and all join in another |
| Merge.ContiguousOffsets | GeoLib/GEOObjects.cpp:474-503 | without a gap, the offset of a merged geometry is the number of points in front of it |
| Merge.OffsetsRightIff | GeoLib/GEOObjects.cpp:474-503 | all offsets are right iff no geometry is skipped between two that are merged |
| Merge.WrongOffset | GeoLib/GEOObjects.cpp:474-503 | three geometries, the middle one missing, with a wrong offset |
| Merge.CopyPoints | GeoLib/GEOObjects.cpp:474-503 | the copies of all points in order with their given ids, and the offsets |
| Merge.ContiguousIds | GeoLib/GEOObjects.cpp:489-493 | without a gap, the given ids are the positions, as the point vector demands |
| Merge.MergePoints | GeoLib/GEOObjects.cpp:466-509 | point i of geometry j is named by the id map at offset j plus i, exactly or within eps |
| Merge.CollapsedMeans | GeoLib/GEOObjects.cpp:528-537 | collapsing adjacent repeats leaves no repeats, the same ends and ids, and the same edges |
| Merge.CarryPolylines | GeoLib/GEOObjects.cpp:528-537 | every polyline is the image of the old id sequence with adjacent repeats collapsed |
| Merge.MergePolylines | GeoLib/GEOObjects.cpp:511-552 | the images of the polylines of all geometries, in order, with the given root function |
| Merge.CarriedFollows | GeoLib/GEOObjects.cpp:528-537 | the image of a line is the collapse of as many ids as the line has, each naming the point of the line there |
| Merge.MergedLinesFollow | GeoLib/GEOObjects.cpp:511-552 | polyline k of geometry j has its copy behind those in front, and the copy follows it through the points of its geometry |
| Merge.ImageMeans | GeoLib/Surface.cpp:50-61 | a triangle is in the image of a surface iff it is carried over from one of its triangles and its corners stay different |
| Merge.CarrySurface | GeoLib/GEOObjects.cpp:569-579 | the copy of a surface is its image, in order |
| Merge.MergeSurfaces | GeoLib/GEOObjects.cpp:554-590 | the images of the surfaces of all geometries, in order |
| Merge.ImageFollows | GeoLib/GEOObjects.cpp:569-579 | the image of a surface has the triangles whose three corners name the corners of the old ones, without those whose corners coincide |
| Merge.MergedSurfacesFollow | GeoLib/GEOObjects.cpp:554-590 | surface k of geometry j has its copy behind those in front, and the copy follows it |
| Merge.MergeGeometries | GeoLib/GEOObjects.cpp:442-464 | two geometries at least; no point is invented, and each merged polyline and surface names, exactly or within eps, the points that the old one runs through, in its order |
| RadiusSearch.ElementInRadius | MeshLib/findElementsWithinRadius.cpp:44-70 | true iff the squared distance of some node to some start node, in coordinates, is at most the squared radius |
| RadiusSearch.MarkVisitedAndAddNeighbors | MeshLib/findElementsWithinRadius.cpp:76-98 | exactly the neighbours that were not visited are pushed and marked, each once |
| RadiusSearch.ClosedContainsWalk | MeshLib/findElementsWithinRadius.cpp:100-114 | a set closed under near neighbours contains everything that walks reach |
| RadiusSearch.SearchContinues | MeshLib/findElementsWithinRadius.cpp:104-114 | visiting a near element keeps the invariant of the search |
| RadiusSearch.SearchEnds | MeshLib/findElementsWithinRadius.cpp:104-116 | with nothing left to visit, exactly the reached elements are found |
| RadiusSearch.FindElementsWithinRadius | MeshLib/findElementsWithinRadius.cpp:23-117 | for a radius that is not zero, the ascending ids of exactly the elements that walks through near elements reach from the start; exactly the neighbours of these are put on the list, none twice; terminates on cycles |
| ElementStatus.SetElementsConnectedToNodes | MeshLib/Mesh.cpp:175-185 | each node lists each element as often as it is a node of it |
| ElementStatus.IncidencesChange | MeshLib/ElementStatus.cpp:112-128 | changing one element changes the incidences of a node by its occurrences in that element |
| ElementStatus.ElementStatus.constructor | MeshLib/ElementStatus.cpp:23-32 | all elements are active, the counters are right modulo 256, and without inactive elements the getters give the mesh |
| ElementStatus.ElementStatus.SetElementStatus | MeshLib/ElementStatus.cpp:112-128 | the status is set and every counter is again the number of active incidences modulo 256 |
| ElementStatus.ElementStatus.CounterRightIff | MeshLib/ElementStatus.cpp:130-133 | a counter is right iff its number fits into a byte; a node is reported active rightly iff that number is zero or no multiple of 256 |
| ElementStatus.ElementStatus.CountersRight | MeshLib/ElementStatus.cpp:130-133 | with at most 255 incidences in the mesh, a node is active iff it belongs to an active element, after any changes |
| ElementStatus.LostNode | MeshLib/ElementStatus.cpp:112-133 | a mesh of 256 elements at one node, which is reported inactive while all of them are active |
| ElementStatus.ElementStatus.ByMaterial | MeshLib/ElementStatus.cpp:34-79 | an element is active iff its material is not given, even if given repeatedly; the lists are ascending and complete |
| ElementStatus.ElementStatus.GetActiveElements | MeshLib/ElementStatus.cpp:81-89 | exactly the active elements, ascending, from the list or, where nothing is inactive, from the mesh |
| ElementStatus.ElementStatus.GetActiveNodes | MeshLib/ElementStatus.cpp:91-99 | exactly the nodes of active elements if no node has more than 255 incidences; all nodes where nothing is inactive |
| ElementStatus.NothingHandedOut | MeshLib/ElementStatus.cpp:23-32 | a mesh of one active element of which neither the element nor its node is given out |
| ElementStatus.ElementStatus.EmptyListsRightIff | MeshLib/ElementStatus.cpp:23-32 | with the flag set and no list built, the elements given out are right iff there are none, the nodes iff no element has one |
| ConfigTree.FindIffNamed | BaseLib/ConfigTree.cpp:163-169 | a key is found iff it occurs |
| ConfigTree.FindIsFirst | BaseLib/ConfigTree.cpp:163-169 | what is found is the first child with the name, and nothing is found iff no child has it |
| ConfigTree.AttributesMean | BaseLib/ConfigTree-impl.h:216-238 | attributes are the children of the first child named <xmlattr> |
| ConfigTree.NamedListing | BaseLib/ConfigTree.cpp:180-184 | the subtrees with a name are those at all positions of the name, in the order of the tree |
| ConfigTree.KeynameGrows | BaseLib/ConfigTree.cpp:276-291 | which names are valid, character by character |
| ConfigTree.ValidAttributeIff | BaseLib/ConfigTree.cpp:317-345 | which attributes are valid: with a colon, colons and upper-case letters may stand everywhere |
| ConfigTree.ConfigTree.MarkVisited | BaseLib/ConfigTree-impl.h:240-266 | a first visit claims the key, a visit that is no peek counts one read, another type is an error without effect |
| ConfigTree.ConfigTree.GetConfigSubtreeOptional | BaseLib/ConfigTree.cpp:159-171 | an error iff the name is invalid or claimed; else claims the key and counts one read iff it is there, and hands out the first child with the name, on its own path and with nothing read |
| ConfigTree.ConfigTree.GetConfigSubtree | BaseLib/ConfigTree.cpp:149-157 | succeeds iff the name is valid, not claimed and there; counts one read and hands out the first child with the name, on its own path and with nothing read |
| ConfigTree.ConfigTree.GetList | BaseLib/ConfigTree.cpp:173-185 | claims the key and reads nothing; the list has the children with that name, all of them, in the order of the tree |
| ConfigTree.ConfigTree.IgnoreConfigParameter | BaseLib/ConfigTree.cpp:187-193 | counts one read iff the key is there |
| ConfigTree.ConfigTree.IgnoreConfigParameterAll | BaseLib/ConfigTree.cpp:206-215 | counts as many reads as occurrences |
| ConfigTree.ConfigTree.IgnoreConfigAttribute | BaseLib/ConfigTree.cpp:195-204 | counts one read iff the attribute is there |
| ConfigTree.ConfigTree.GetConfigAttributeOptional | BaseLib/ConfigTree-impl.h:216-238 | an attribute that is there counts as read, even if it cannot be converted |
| ConfigTree.ConfigTree.GetValue | BaseLib/ConfigTree-impl.h:174-190 | the data can be read once |
| ConfigTree.ConfigTree.CheckAndInvalidate | BaseLib/ConfigTree.cpp:386-450 | warns about a key, with the number, iff its reads and occurrences differ, and about data that were not read; a second call warns about nothing |
| ConfigTree.WarnedIffDifferent | BaseLib/ConfigTree.cpp:421-445 | some warning names the key iff the difference is not zero |
| ConfigTree.ListIterator.Deref | BaseLib/ConfigTree.h:114-128 | hands out the child at that occurrence of the name; counts a read the first time at each position only, and the error about another type never occurs |
| ConfigTree.ReadWholeList | BaseLib/ConfigTree.h:99-142 | iterating over a whole list, dereferencing any positive number of times per position, leaves no warning about its key |
| ConfigTree.ReadSecond | BaseLib/ConfigTree.h:99-142 | a run that gets the second child of a list, and is warned that the key was read once too little |
| ConfigTree.Perform | BaseLib/ConfigTree.cpp:308-346 | an access succeeds iff it is allowed by itself and no earlier one claimed its key; then it claims its key and counts its reads |
| ConfigTree.LogAllMeans | BaseLib/ConfigTree-impl.h:240-266 | the history of a run claims exactly the named keys and counts exactly their reads |
| ConfigTree.TotalReadsOfOne | BaseLib/ConfigTree.cpp:308-315 | where all keys differ, the reads of a key are those of the one access that names it |
| ConfigTree.Run | BaseLib/ConfigTree.cpp:159-450 | a run of accesses on a new tree succeeds iff each is allowed by itself and no key is named twice; then the check at the end warns about each key with the difference of its reads and its occurrences |

## Left out

- Merge.MergeGeometries: only lists without a gap between merged geometries, and with at least one point geometry, because otherwise the ids handed to the point vector are not positions, or there is no merged vector.
- Merge.MergePoints: the same lists as `Merge.MergeGeometries`, for the same reason; `Merge.CopyPoints` and `Merge.OffsetsRightIff` cover all lists.
- PointVec.PointVec.constructor: demands at least one point, different pointers, and ids that are unset or positions; the source stops on an empty vector and indexes the id map by these ids.
- OctTree.OctTree.CreateOctTree: demands a tolerance that is not negative; with a negative one nothing conflicts (`OctTree.NegativeNeverConflicts`), and equal points in a full leaf would be split without end.
- Polyline.ConstructPolylineFromSegments: claims nothing about edges, or when all lines join, for a tolerance other than zero, which is squared again in every round and joins different points.
- RadiusSearch.FindElementsWithinRadius: the id of an element is its position in the mesh.
- ElementStatus.ElementStatus.SetElementStatus: the debug assertion, which looks at the counter of node j instead of the j-th node of the element, is not modelled.
- ConfigTree.ConfigTree.GetList: subtree, parameter and value lists are one accessor, since they claim and count alike; the check that a parameter has no children is not modelled.
- ConfigTree.ConfigTree.CheckAndInvalidate: the warnings form a set, without their order and wording.
- Rounding, the bits of `nextafter`, and square roots, which are abstracted as described above.
- `Grid::getNearestPoint` and the heuristic for the numbers of grid cells, which are parameters of at least one.
- Names of points, polylines and surfaces; `PointVec::resetInternalDataStructures`; `Polyline::setPointID`.
- `QuadTree::getLeaf` and diagonal neighbours.
- Ownership and destructors: a rejected point is not deleted, and objects that are replaced stay allocated.
- Typed parameter accessors of the configuration tree, which combine the modelled ones with text conversion; conversion is a function parameter.
- Polygons, minimal bounding spheres, mappers, intersections, readers and writers.
