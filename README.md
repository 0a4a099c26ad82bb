# Floor-plan graph engine, modelled and verified in Dafny

This project models the 2D floor-plan engine of the `ui-floorplan-react` library and the
store reducer that loads a floor plan in the `msh-builder` app. In the engine, a floor plan
is a graph. **Corners** are its vertices. Each corner lists the walls that start and end at
it. **Walls** are its edges and point back to their two corners. The engine merges a
moved corner into a nearby corner or wall, removes duplicate walls, and finds the **rooms**:
the tightest cycles of the graph, found by a depth-first search. For every room it builds a
closed ring of **half-edges**, one per wall side, doubly linked as in a DCEL face.

The model has these parts:

- `FloorPlans.FloorPlan` (floorplan.dfy) is a class holding the plan's state.
  - It keeps one table per kind of object: `cornerTable`, `wallTable` and `edgeTable`.
  - An object is its index in its table. This is how the cyclic corner–wall references
    and in-place updates are modelled: `Corner`, `Wall` and `HalfEdge` methods become
    methods of the floor plan that take an index.
  - It keeps the live lists `corners`, `walls` and `rooms` that the editor draws.
  - Every method keeps `Valid()`: the incidence invariant (each listed wall points back
    to the corner that lists it, and no list holds a wall twice), every reference within
    its table, and each wall side pointing to a half-edge built on that side.
- Coordinates are `real`. A distance `d < t` is compared as squared distances.
- The trigonometry is passed to the constructor as two functions:
  - `angle2pi` (atan2);
  - `turn`, the cos/sin tail of `HalfEdge.halfAngleVector`.
- The other modules state the engine's parts on values:
  - utils.dfy, utils2d.dfy and canvas_utils.dfy: the helpers;
  - graph.dfy and incidence.dfy: the corner–wall incidence;
  - room_search.dfy: the room search;
  - rooms.dfy: the half-edge ring;
  - plan_state.dfy: what `update` leaves behind;
  - dedup.dfy: duplicate-wall removal.

The model follows the code where it behaves oddly. It does not fix these:

- `Corner.removeAll` walks its lists forward while each removal splices the same list. It
  removes only the walls at even positions (`Incidence.RemoveAllReach`).
- The `wallEnds` loop of `removeDuplicateWalls` keys every wall on `getEnd()`. That end is
  the corner itself, so the loop keeps at most one end wall (`WallDedup.EndsScanKeepsOne`).
- The index `removeDuplicateWalls` hands to `removeWall` after a splice is stale. The wall
  removed from the plan's list is the one at that stale position, not the duplicate
  (`WallDedup.DropStale`).
- `combineCorners` runs the duplicate removal on the corner it has just emptied, so that
  removal does nothing (`WallDedup.RetiredCorner`).
- `findRooms` keeps the loops that `isClockwise` accepts, although its comment says it
  removes clockwise loops (`RoomSearch.ClockwiseOnly`).
- `isClockwise` subtracts the minimum x from the y coordinates as well. Translation does not
  change the sum, so this has no effect (`Utils2D.ShoelaceTranslate`).
- `pointInPolygon` always starts its ray at a defined point, so its bounding-box fallback
  is never reached (`Utils2D.RayStart`).

In two places the code does less than the engine's design suggests. The model follows the
code in both:

- By design, a corner's lists hold exactly the walls that reference it. The code keeps only one direction: a listed wall points back to the corner. When
  `combineCorners` re-points a wall whose two ends are the same corner, that wall can
  reference a corner without being listed there. `Valid()` states the direction the code
  keeps.
- By design, `removeAll` removes every incident wall. The code removes every
  other one, as stated above.

## Model

| member | source | states |
|---|---|---|
| Utils.Cycle | monorepo/msh/libs/ui-floorplan-react/src/utils/Utils.ts:17-26 | `cycle` returns the list obtained by shifting the head off `shift` times and pushing it back only when truthy; the input is a value and is left as it was |
| Utils.CycleShort | monorepo/msh/libs/ui-floorplan-react/src/utils/Utils.ts:17-26 | for a shift `j` no longer than the list, `cycle` moves the first `j` elements to the end and drops the falsy ones among them |
| Utils.CycleIsRotation | monorepo/msh/libs/ui-floorplan-react/src/utils/Utils.ts:17-26 | when every element is truthy, `cycle` by `j ≤ n` is the left rotation by `j` (`r[i] == a[(i+j) mod n]`), and cycling by `j + n` equals cycling by `j` |
| Utils.CycleCompose | monorepo/msh/libs/ui-floorplan-react/src/utils/Utils.ts:17-26 | cycling by `i` and then by `k` is cycling by `i + k` |
| Utils.RemoveValue | monorepo/msh/libs/ui-floorplan-react/src/utils/Utils.ts:29-35 | the backward splice loop leaves the list without every occurrence of `value`, the rest in their order (`Without`) |
| Utils.WithoutMembers | monorepo/msh/libs/ui-floorplan-react/src/utils/Utils.ts:29-35 | after the removal, `x` is in the list iff it was there before and is not `value` |
| Utils.WithoutDistinct | monorepo/msh/libs/ui-floorplan-react/src/utils/Utils.ts:29-35 | removing a value from a list without repeats leaves a list without repeats |
| Utils.HasValue | monorepo/msh/libs/ui-floorplan-react/src/utils/Utils.ts:38-45 | true iff the value occurs in the list |
| Utils.HasProperty | monorepo/msh/libs/ui-floorplan-react/src/utils/Utils.ts:47-49 | true iff the key is a key of the map |
| Utils.EveryOtherSplit | monorepo/msh/libs/ui-floorplan-react/src/components/2d/Corner.ts:209-217 | the walls a forward splice loop visits and the ones it steps over together make up the whole list |
| Utils2D.DistanceSqSign | monorepo/msh/libs/ui-floorplan-react/src/utils/Utils2D.ts:68-70 | the squared distance is never negative and is zero iff the points coincide |
| Utils2D.ClosestPointOnSegment | monorepo/msh/libs/ui-floorplan-react/src/utils/Utils2D.ts:31-59 | `closestPointOnLine` is the point of the segment at a parameter in `[0, 1]`: the start for a parameter below 0 or a degenerate segment, the end above 1, the projection otherwise |
| Utils2D.ClosestPointIsClosest | monorepo/msh/libs/ui-floorplan-react/src/utils/Utils2D.ts:31-59 | no point of the segment is closer to `(x, y)` than the point `closestPointOnLine` returns |
| Utils2D.PointOnSegmentHasZeroDistance | monorepo/msh/libs/ui-floorplan-react/src/utils/Utils2D.ts:15-20 | a point on the segment is at distance zero from it |
| Utils2D.PointDistanceBelowEndpoints | monorepo/msh/libs/ui-floorplan-react/src/utils/Utils2D.ts:15-20 | the distance to the segment is at most the distance to either end |
| Utils2D.MinOrZero | monorepo/msh/libs/ui-floorplan-react/src/utils/Utils2D.ts:97-121 | the minimum the normalisation subtracts is at most 0 and at most every value |
| Utils2D.IsClockwiseIsShoelaceSign | monorepo/msh/libs/ui-floorplan-react/src/utils/Utils2D.ts:95-137 | `isClockwise` is true iff the shoelace sum `Σ (x_{i+1} − x_i)(y_{i+1} + y_i)` over the closed cycle is ≥ 0 |
| Utils2D.ShoelaceTranslate | monorepo/msh/libs/ui-floorplan-react/src/utils/Utils2D.ts:97-121 | translating every point leaves the closed shoelace sum unchanged, so the normalisation, including its use of the minimum x on y, has no effect |
| Utils2D.IsClockwiseRotate | monorepo/msh/libs/ui-floorplan-react/src/utils/Utils2D.ts:95-137 | rotating the point list leaves the sum and `isClockwise` unchanged |
| Utils2D.ShoelaceReverse | monorepo/msh/libs/ui-floorplan-react/src/utils/Utils2D.ts:125-136 | reversing the point list negates the sum |
| Utils2D.IsClockwiseDegenerate | monorepo/msh/libs/ui-floorplan-react/src/utils/Utils2D.ts:95-137 | fewer than three points, the empty list included, give true |
| Utils2D.OrientRotates | monorepo/msh/libs/ui-floorplan-react/src/utils/Utils2D.ts:179-204 | the counter-clockwise test is the sign of the orientation determinant, which is invariant under rotating its three points |
| Utils2D.LineLineIntersectSymmetric | monorepo/msh/libs/ui-floorplan-react/src/utils/Utils2D.ts:179-204 | swapping the two segments does not change the result |
| Utils2D.CollinearNeverIntersect | monorepo/msh/libs/ui-floorplan-react/src/utils/Utils2D.ts:179-204 | because of the strict comparison, segments on one line never intersect |
| Utils2D.TouchingDependsOnDirection | monorepo/msh/libs/ui-floorplan-react/src/utils/Utils2D.ts:179-204 | a segment touching another at its midpoint counts as intersecting in one direction and not in the other |
| Utils2D.LinePolygonIntersectIff | monorepo/msh/libs/ui-floorplan-react/src/utils/Utils2D.ts:161-176 | true iff the segment intersects some edge of the polygon, the closing edge included; false for an empty polygon |
| Utils2D.PolygonPolygonIntersectIff | monorepo/msh/libs/ui-floorplan-react/src/utils/Utils2D.ts:140-158 | true iff some edge of the first polygon intersects some edge of the second; false when either is empty |
| Utils2D.CrossingCountIsCard | monorepo/msh/libs/ui-floorplan-react/src/utils/Utils2D.ts:211-256 | the counter the loop keeps equals the number of edges the ray crosses |
| Utils2D.PointInPolygonParity | monorepo/msh/libs/ui-floorplan-react/src/utils/Utils2D.ts:211-256 | the point is inside iff the ray from `(startX or 0, startY or 0)` crosses an odd number of edges, the closing edge included; never inside an empty polygon |
| Utils2D.PolygonContainment | monorepo/msh/libs/ui-floorplan-react/src/utils/Utils2D.ts:259-292 | inside iff every corner of the inner polygon is inside the outer one; outside iff none is; both hold for an empty inner polygon |
| CanvasUtils.JsRemRange | monorepo/msh/libs/ui-floorplan-react/src/utils/CanvasUtils.ts:15-21 | JavaScript's `%` truncates: the remainder lies in `[0, b)` for a non-negative dividend and in `(−b, 0]` for a negative one |
| CanvasUtils.GridOffsetCongruent | monorepo/msh/libs/ui-floorplan-react/src/utils/CanvasUtils.ts:15-21 | the offset differs from `n` by an integer multiple of the grid spacing |
| CanvasUtils.GridOffsetRange | monorepo/msh/libs/ui-floorplan-react/src/utils/CanvasUtils.ts:15-21 | the offset lies in `[−s/2, s/2)` for `n ≥ 0` and in `(−s/2, s/2]` for `n < 0` |
| CanvasUtils.GridOffsetZero | monorepo/msh/libs/ui-floorplan-react/src/utils/CanvasUtils.ts:16-17 | `n = 0` gives 0 |
| CanvasUtils.GridOffsetMissesDocumentedRange | monorepo/msh/libs/ui-floorplan-react/src/utils/CanvasUtils.ts:14-17 | `n = s/2` gives `−s/2`, outside the documented range `(−s/2, s/2]` |
| CanvasUtils.GridOffsetAsDocumentedRange | monorepo/msh/libs/ui-floorplan-react/src/utils/CanvasUtils.ts:14-21 | the corrected offset lies in `(−s/2, s/2]` and differs from `n` by an integer multiple of the spacing |
| CanvasUtils.GridOffsetAgreesOffBoundary | monorepo/msh/libs/ui-floorplan-react/src/utils/CanvasUtils.ts:14-21 | the corrected offset and the offset as written agree wherever the latter is not `−s/2` |
| FloorPlanReducer.Reduce | monorepo/msh/apps/msh-builder/src/store/reducers/floorPlan.ts:23-47 | the request sets `pending` and keeps the plan and the error; success clears `pending`, stores the plan and clears the error; failure clears `pending`, resets the plan to the empty one and stores the error; any other action keeps the state; an undefined state is the initial one |
| FloorPlanReducer.InitialStateIsEmpty | monorepo/msh/apps/msh-builder/src/store/reducers/floorPlan.ts:5-21 | the initial state is not pending, holds the empty plan (empty id, no corners, no walls) and no error |
| FloorPlanReducer.ReduceIdempotent | monorepo/msh/apps/msh-builder/src/store/reducers/floorPlan.ts:23-47 | dispatching the same action twice has the effect of dispatching it once |
| FloorPlanReducer.RunSummary | monorepo/msh/apps/msh-builder/src/store/reducers/floorPlan.ts:23-47 | after any sequence of actions, `pending` holds iff the last fetch action was a request, and the plan and the error are those of the last success or failure (the empty plan and no error if there was none) |
| Graph.AdjacentCornersMembers | monorepo/msh/libs/ui-floorplan-react/src/components/2d/Corner.ts:142-151 | the adjacent corners number `|wallStarts| + |wallEnds|`; `d` is one of them iff a start wall ends at `d` or an end wall starts at `d` |
| Graph.AdjacentCornersOf | monorepo/msh/libs/ui-floorplan-react/src/components/2d/Corner.ts:142-151 | the loop returns the ends of the start walls in order, then the starts of the end walls in order |
| Graph.IsWallConnected | monorepo/msh/libs/ui-floorplan-react/src/components/2d/Corner.ts:157-169 | true iff the wall is in `wallStarts` or in `wallEnds` |
| Graph.WallTo | monorepo/msh/libs/ui-floorplan-react/src/components/2d/Corner.ts:186-193 | returns the first wall of `wallStarts` ending at the given corner, or none |
| Graph.FirstEndingAtIsFirst | monorepo/msh/libs/ui-floorplan-react/src/components/2d/Corner.ts:186-193 | that result is none iff no start wall ends there; otherwise it is a start wall ending there before which none does |
| Graph.WallFrom | monorepo/msh/libs/ui-floorplan-react/src/components/2d/Corner.ts:199-206 | returns the first wall of `wallEnds` starting at the given corner, or none |
| Graph.FirstStartingAtIsFirst | monorepo/msh/libs/ui-floorplan-react/src/components/2d/Corner.ts:199-206 | that result is none iff no end wall starts there; otherwise it is an end wall starting there before which none does |
| Graph.DetachSpec | monorepo/msh/libs/ui-floorplan-react/src/components/2d/Corner.ts:174-180 | after `detachWall(w)`, `w` is in neither list, every other wall stays listed exactly where it was, id and position are kept, and the corner is deleted iff it was or both lists are now empty |
| Graph.GenerateIdInjective | monorepo/msh/libs/ui-floorplan-react/src/components/2d/Wall.ts:16-18 | wall ids `start.id + "," + end.id` are distinct for distinct pairs of comma-free corner ids |
| Graph.SnapOverSpec | monorepo/msh/libs/ui-floorplan-react/src/components/2d/Corner.ts:117-137 | `snapToAxis` reports a snapped axis iff some adjacent corner lies within the tolerance on that axis, measured against the corner's starting position; the new coordinate is the old one or an adjacent corner's, and a later adjacent corner within the tolerance overrides an earlier one (the last match wins, as `SnapOver` defines) |
| Graph.OddIndexedOfThree | monorepo/msh/libs/ui-floorplan-react/src/components/2d/Corner.ts:209-217 | of three walls, the forward splice loop steps over the middle one only |
| Graph.EdgeOrientation | monorepo/msh/libs/ui-floorplan-react/src/components/2d/HalfEdge.ts:83-97 | a front half-edge runs from the wall's start to its end; the back one on the same wall runs the other way |
| Graph.HalfAngleVectorMissingNeighbour | monorepo/msh/libs/ui-floorplan-react/src/components/2d/HalfEdge.ts:102-135 | a missing previous or next wall is replaced by the straight continuation of the edge |
| Graph.EdgeCornersStraddle | monorepo/msh/libs/ui-floorplan-react/src/components/2d/HalfEdge.ts:46-81 | `corners()` returns four points; interior and exterior start lie symmetrically about the start corner, interior and exterior end about the end corner |
| Graph.InteriorCenterHalfway | monorepo/msh/libs/ui-floorplan-react/src/components/2d/HalfEdge.ts:199-204 | the interior centre is the midpoint of the interior start and end and is equally far from both |
| Graph.ClosedRingLinks | monorepo/msh/libs/ui-floorplan-react/src/components/2d/Room.ts:71-85 | when every pair has a half-edge, pair `j` links forward to pair `j+1 mod n` and back to `j−1 mod n` |
| Incidence.DetachKeepsIncidence | monorepo/msh/libs/ui-floorplan-react/src/components/2d/Corner.ts:174-180 | detaching a wall from a corner keeps the incidence invariant |
| Incidence.RegisterKeepsIncidence | monorepo/msh/libs/ui-floorplan-react/src/components/2d/Wall.ts:55-67 | a new wall registered once on its start's `wallStarts` and once on its end's `wallEnds` keeps the invariant |
| Incidence.SetStartKeepsIncidence | monorepo/msh/libs/ui-floorplan-react/src/components/2d/Wall.ts:195-199 | moving a wall's start to another corner keeps the invariant |
| Incidence.SetEndKeepsIncidence | monorepo/msh/libs/ui-floorplan-react/src/components/2d/Wall.ts:201-205 | moving a wall's end to another corner keeps the invariant |
| Incidence.RemovedUnlists | monorepo/msh/libs/ui-floorplan-react/src/components/2d/Wall.ts:76-80 | after `remove`, no corner lists the wall; every corner keeps the rest of its lists, its id and position, and stays deleted if it was |
| Incidence.RemoveAllReach | monorepo/msh/libs/ui-floorplan-react/src/components/2d/Corner.ts:209-217 | `removeAll` removes every start wall at an even position and spares each at an odd position that is not also an end wall |
| Incidence.SweepDone | monorepo/msh/libs/ui-floorplan-react/src/components/2d/Corner.ts:209-217 | when the forward loop ends, it has removed exactly the walls at the even positions of the list it started with |
| Incidence.AbsorbingStep | monorepo/msh/libs/ui-floorplan-react/src/components/2d/FloorPlan.ts:340-345 | one iteration of a `combineCorners` loop moves one wall from the absorbed corner to the target and keeps the loop's invariant |
| Incidence.AbsorbedBoth | monorepo/msh/libs/ui-floorplan-react/src/components/2d/FloorPlan.ts:340-345 | after both loops, every start wall of the absorbed corner starts at the target, every remaining end wall ends there, the target lists them after its own in reverse order, and the absorbed corner lists nothing |
| RoomSearch.InsertDescSorted | monorepo/msh/libs/ui-floorplan-react/src/components/2d/FloorPlan.ts:243-253 | inserting into a list sorted by decreasing theta keeps it sorted |
| RoomSearch.SortDescSorted | monorepo/msh/libs/ui-floorplan-react/src/components/2d/FloorPlan.ts:243-253 | the neighbour sort returns a permutation of its input sorted by decreasing theta |
| RoomSearch.SmallestThetaPoppedFirst | monorepo/msh/libs/ui-floorplan-react/src/components/2d/FloorPlan.ts:243-266 | the last element of the sorted list, which is popped first, has the smallest theta |
| RoomSearch.UnvisitedNeighbours | monorepo/msh/libs/ui-floorplan-react/src/components/2d/FloorPlan.ts:224-241 | collects exactly the adjacent corners whose id is not yet visited, plus the start corner unless the search stands at the second corner; no more than there are adjacent corners |
| RoomSearch.PushNeighbours | monorepo/msh/libs/ui-floorplan-react/src/components/2d/FloorPlan.ts:224-266 | the pushed neighbours are those candidates, sorted by decreasing theta relative to the incoming direction |
| RoomSearch.Expand | monorepo/msh/libs/ui-floorplan-react/src/components/2d/FloorPlan.ts:224-266 | one step of the search keeps the stack invariant (every path a simple walk from the start pair) and lowers the termination measure |
| RoomSearch.FindTightestCycle | monorepo/msh/libs/ui-floorplan-react/src/components/2d/FloorPlan.ts:191-270 | terminates; returns either nothing or a cycle `[first, second, …]` of distinct adjacent corners whose last corner is adjacent to `first` |
| RoomSearch.ScanRotations | monorepo/msh/libs/ui-floorplan-react/src/components/2d/FloorPlan.ts:172-181 | a loop is new iff none of its rotations' keys is in the lookup; the key recorded is that of the last rotation |
| RoomSearch.RemoveDuplicateRooms | monorepo/msh/libs/ui-floorplan-react/src/components/2d/FloorPlan.ts:163-189 | computes the first-seen-wins filter over the candidate loops |
| RoomSearch.DedupKeeps | monorepo/msh/libs/ui-floorplan-react/src/components/2d/FloorPlan.ts:163-189 | that filter keeps only loops of the input, and only non-empty loops with a non-empty key, none of whose rotations has a key seen before |
| RoomSearch.DedupDrops | monorepo/msh/libs/ui-floorplan-react/src/components/2d/FloorPlan.ts:163-189 | a dropped loop is empty, has an empty key, or has a rotation whose key was in the lookup or was recorded by a kept loop |
| RoomSearch.DedupNoRotations | monorepo/msh/libs/ui-floorplan-react/src/components/2d/FloorPlan.ts:163-189 | no two kept loops are rotations of each other |
| RoomSearch.RotationMeetsKey | monorepo/msh/libs/ui-floorplan-react/src/components/2d/FloorPlan.ts:172-181 | a rotation of a recorded loop always meets the recorded key, so it is dropped |
| RoomSearch.ClockwiseOnly | monorepo/msh/libs/ui-floorplan-react/src/components/2d/FloorPlan.ts:283-288 | keeps exactly the loops whose corner points `isClockwise` accepts, in their order |
| RoomSearch.ClockwiseOnlyKeepsNoRotations | monorepo/msh/libs/ui-floorplan-react/src/components/2d/FloorPlan.ts:283-288 | the filter keeps the loops free of rotations of one another |
| RoomSearch.FindRooms | monorepo/msh/libs/ui-floorplan-react/src/components/2d/FloorPlan.ts:152-289 | every room returned is a cycle of the graph accepted by `isClockwise`, and no two are rotations of each other |
| Rooms.PickSideSpec | monorepo/msh/libs/ui-floorplan-react/src/components/2d/Room.ts:57-69 | the pair `(c_i, c_{i+1})` gets a front half-edge on the first start wall of `c_i` ending at `c_{i+1}`; failing that, a back half-edge on the first end wall starting there; failing both, nothing |
| Rooms.PickSideRuns | monorepo/msh/libs/ui-floorplan-react/src/components/2d/Room.ts:57-69 | the picked half-edge runs from `c_i` to `c_{i+1}` |
| Rooms.PicksSameEnds | monorepo/msh/libs/ui-floorplan-react/src/components/2d/Room.ts:57-58 | the picks depend only on the walls' corners, not on their sides |
| Rooms.LinkedRingShape | monorepo/msh/libs/ui-floorplan-react/src/components/2d/Room.ts:71-85 | linking a pair's half-edge rewrites only links of it, of the previous pair's and of the first pair's half-edge |
| Rooms.RingStepLink | monorepo/msh/libs/ui-floorplan-react/src/components/2d/Room.ts:71-85 | after linking, every built half-edge carries the links the ring gives it so far |
| Rooms.ClosedRing | monorepo/msh/libs/ui-floorplan-react/src/components/2d/Room.ts:48-91 | when every pair of at least two has a half-edge, `updateWalls` leaves a closed ring: `e_j.next == e_{j+1 mod n}` and `e_j.prev == e_{j−1 mod n}` |
| Rooms.SideEdgeSpec | monorepo/msh/libs/ui-floorplan-react/src/components/2d/Room.ts:62-65 | a wall side no pair picked keeps its half-edge; a picked side points to the half-edge of a pair that picked it |
| Rooms.WalkStep | monorepo/msh/libs/ui-floorplan-react/src/components/2d/Room.ts:93-104 | each step of the walk goes to the next pair's half-edge and stops at the first pair or at the end of the run |
| Rooms.InteriorCorners | monorepo/msh/libs/ui-floorplan-react/src/components/2d/Room.ts:93-104 | the walk from `edgePointer` terminates and returns the interior starts of the leading run of half-edges in ring order, one per pair on a closed ring, none for no corners |
| PlanState.CombineMoves | monorepo/msh/libs/ui-floorplan-react/src/components/2d/FloorPlan.ts:335-351 | `combineCorners` moves only the target, to the absorbed corner's position, and re-points walls only to the target |
| PlanState.SplitMoves | monorepo/msh/libs/ui-floorplan-react/src/components/2d/FloorPlan.ts:105-125 | the wall split moves only the new corner; the new wall runs from it to the old end, the old wall now ends at it, and no other wall changes its corners |
| PlanState.NewRoomSides | monorepo/msh/libs/ui-floorplan-react/src/components/2d/Room.ts:48-91 | building a room sets a side on every wall the room's cycle uses and leaves every other wall's sides alone |
| PlanState.SidesSoFarStep | monorepo/msh/libs/ui-floorplan-react/src/components/2d/FloorPlan.ts:140-142 | adding one room keeps the invariant of the room-building loop |
| PlanState.SettledAfterOrphans | monorepo/msh/libs/ui-floorplan-react/src/components/2d/FloorPlan.ts:353-367 | once the orphans get their two half-edges, every listed wall has a side and is an orphan exactly when no room uses it |
| PlanState.CloseCornerFrom | monorepo/msh/libs/ui-floorplan-react/src/components/2d/FloorPlan.ts:97-103 | finds the first listed corner within the corner tolerance of the moved corner, or none |
| PlanState.CloseWallFrom | monorepo/msh/libs/ui-floorplan-react/src/components/2d/FloorPlan.ts:105-107 | finds the first listed wall within the corner tolerance that the moved corner does not list, or none |
| PlanState.HitTolerance | monorepo/msh/libs/ui-floorplan-react/src/components/2d/FloorPlan.ts:75-76 | a tolerance that is missing or 0 becomes 10; any other is used as given |
| PlanState.LiveListsKeepPlan | monorepo/msh/libs/ui-floorplan-react/src/components/2d/FloorPlan.ts:384-390 | dropping the deleted corners and walls from the lists keeps the plan invariant and the rooms and sides that `update` settled |
| PlanState.LiveCorners | monorepo/msh/libs/ui-floorplan-react/src/components/2d/FloorPlan.ts:384-390 | the surviving corners are exactly the listed corners not deleted, in their order |
| PlanState.LiveWalls | monorepo/msh/libs/ui-floorplan-react/src/components/2d/FloorPlan.ts:384-390 | the surviving walls are exactly the listed walls not deleted, in their order |
| WallDedup.ScanStep | monorepo/msh/libs/ui-floorplan-react/src/components/2d/FloorPlan.ts:300-314 | a wall is removed iff it has zero length or its far end's key was already seen; a kept wall is recorded |
| WallDedup.ScanFrom | monorepo/msh/libs/ui-floorplan-react/src/components/2d/FloorPlan.ts:300-314 | every wall scanned is either kept or removed, and one stale list position is dropped per removal |
| WallDedup.ScanRecordsKeptKeys | monorepo/msh/libs/ui-floorplan-react/src/components/2d/FloorPlan.ts:300-314 | the keys seen are exactly those of the kept walls |
| WallDedup.ScanKeepsNoZeroLength | monorepo/msh/libs/ui-floorplan-react/src/components/2d/FloorPlan.ts:303-306 | no kept wall has zero length |
| WallDedup.ScanKeepsDistinctKeys | monorepo/msh/libs/ui-floorplan-react/src/components/2d/FloorPlan.ts:307-313 | no two kept walls lead to the same far end |
| WallDedup.ScanRemovesOnlyDuplicates | monorepo/msh/libs/ui-floorplan-react/src/components/2d/FloorPlan.ts:300-314 | every removed wall has zero length or shares its far end with a kept wall |
| WallDedup.EndsScanKeepsOne | monorepo/msh/libs/ui-floorplan-react/src/components/2d/FloorPlan.ts:315-329 | keyed on `getEnd()`, every end wall has the same key, so the loop keeps at most one |
| WallDedup.DedupBoth | monorepo/msh/libs/ui-floorplan-react/src/components/2d/FloorPlan.ts:292-330 | the two loops together remove what their scans remove; the corner keeps what they keep |
| WallDedup.DuplicatesGone | monorepo/msh/libs/ui-floorplan-react/src/components/2d/FloorPlan.ts:292-330 | afterwards no start wall of the corner ends at it, no two lead to the same corner, and at most one end wall is left |
| WallDedup.RetiredCorner | monorepo/msh/libs/ui-floorplan-react/src/components/2d/FloorPlan.ts:347-349 | on the corner `combineCorners` has emptied, the duplicate removal removes nothing and moves no corner |
| FloorPlans.FloorPlan.constructor | monorepo/msh/libs/ui-floorplan-react/src/components/2d/FloorPlan.ts:33-39 | the empty floor plan: no corners, walls or rooms |
| FloorPlans.FloorPlan.NewCorner | monorepo/msh/libs/ui-floorplan-react/src/components/2d/FloorPlan.ts:56-60 | appends one corner at `(x, y)`, with no walls, to the table and the list, and changes nothing else |
| FloorPlans.FloorPlan.AttachStart | monorepo/msh/libs/ui-floorplan-react/src/components/2d/Corner.ts:68-70 | appends the wall to the corner's `wallStarts` and changes nothing else |
| FloorPlans.FloorPlan.AttachEnd | monorepo/msh/libs/ui-floorplan-react/src/components/2d/Corner.ts:75-77 | appends the wall to the corner's `wallEnds` and changes nothing else |
| FloorPlans.FloorPlan.CornerRemove | monorepo/msh/libs/ui-floorplan-react/src/components/2d/Corner.ts:220-222 | marks the corner deleted and changes nothing else |
| FloorPlans.FloorPlan.DetachWall | monorepo/msh/libs/ui-floorplan-react/src/components/2d/Corner.ts:174-180 | detaches the wall from the corner (`Graph.DetachSpec`) and keeps the plan invariant |
| FloorPlans.FloorPlan.RemoveAll | monorepo/msh/libs/ui-floorplan-react/src/components/2d/Corner.ts:209-217 | removes from every corner and marks deleted exactly the walls the skipping loops reach, and leaves the corner deleted |
| FloorPlans.FloorPlan.RemoveStartWalls | monorepo/msh/libs/ui-floorplan-react/src/components/2d/Corner.ts:210-212 | the start-wall loop removes the walls at the even positions of `wallStarts` |
| FloorPlans.FloorPlan.RemoveEndWalls | monorepo/msh/libs/ui-floorplan-react/src/components/2d/Corner.ts:213-215 | the end-wall loop removes the walls at the even positions of what is left of `wallEnds` |
| FloorPlans.FloorPlan.CreateWall | monorepo/msh/libs/ui-floorplan-react/src/components/2d/Wall.ts:45-67 | appends a wall with id `start,end`, thickness 10 and height 250 and registers it once on each end, keeping the invariant |
| FloorPlans.FloorPlan.WallRemove | monorepo/msh/libs/ui-floorplan-react/src/components/2d/Wall.ts:76-80 | detaches the wall from both its corners and marks it deleted; its corners are unchanged |
| FloorPlans.FloorPlan.SetStart | monorepo/msh/libs/ui-floorplan-react/src/components/2d/Wall.ts:195-199 | detaches the wall from its old start, lists it on the new one and changes only its start |
| FloorPlans.FloorPlan.SetEnd | monorepo/msh/libs/ui-floorplan-react/src/components/2d/Wall.ts:201-205 | detaches the wall from its old end, lists it on the new one and changes only its end |
| FloorPlans.FloorPlan.MoveWallsTo | monorepo/msh/libs/ui-floorplan-react/src/components/2d/FloorPlan.ts:340-345 | one loop of `combineCorners` moves every listed wall of the absorbed corner to the target |
| FloorPlans.FloorPlan.ResetFrontBack | monorepo/msh/libs/ui-floorplan-react/src/components/2d/Wall.ts:189-193 | clears both sides and the orphan flag of the wall and changes nothing else |
| FloorPlans.FloorPlan.NewHalfEdge | monorepo/msh/libs/ui-floorplan-react/src/components/2d/HalfEdge.ts:28-41 | appends a half-edge on the wall side with offset `thickness / 2` and the wall's height, and points that side to it, overwriting what it pointed to |
| FloorPlans.FloorPlan.SnapTarget | monorepo/msh/libs/ui-floorplan-react/src/components/2d/Corner.ts:117-137 | computes the snapped position and flags over the adjacent corners (`Graph.SnapOverSpec`) |
| FloorPlans.FloorPlan.CornerSnapToAxis | monorepo/msh/libs/ui-floorplan-react/src/components/2d/Corner.ts:117-137 | changes only the corner's `x` and `y`, to the snapped position, and returns the flags |
| FloorPlans.FloorPlan.WallSnapToAxis | monorepo/msh/libs/ui-floorplan-react/src/components/2d/Wall.ts:159-163 | snaps the start corner against the table as it was, then the end corner against the table the first snap left (each as `Corner.snapToAxis` does); no other corner and no other field changes |
| FloorPlans.FloorPlan.CreatePairEdge | monorepo/msh/libs/ui-floorplan-react/src/components/2d/Room.ts:56-69 | builds the half-edge picked for one pair of consecutive corners, or none |
| FloorPlans.FloorPlan.LinkPairEdge | monorepo/msh/libs/ui-floorplan-react/src/components/2d/Room.ts:71-85 | writes the links of one pair into the ring (`Rooms.LinkedRing`) |
| FloorPlans.FloorPlan.BuildPair | monorepo/msh/libs/ui-floorplan-react/src/components/2d/Room.ts:52-87 | one iteration of `updateWalls` keeps the ring-building invariant |
| FloorPlans.FloorPlan.UpdateWalls | monorepo/msh/libs/ui-floorplan-react/src/components/2d/Room.ts:48-91 | builds one half-edge per connected pair and links them into a ring; `edgePointer` is the first pair's half-edge, none for no corners |
| FloorPlans.FloorPlan.NewRoom | monorepo/msh/libs/ui-floorplan-react/src/components/2d/Room.ts:19-26 | a new room over the corners, its ring built, its interior corners the walk of that ring |
| FloorPlans.FloorPlan.AssignOrphanEdges | monorepo/msh/libs/ui-floorplan-react/src/components/2d/FloorPlan.ts:353-367 | every listed wall without a side becomes an orphan with both sides; every other wall is unchanged |
| FloorPlans.FloorPlan.OrphanWall | monorepo/msh/libs/ui-floorplan-react/src/components/2d/FloorPlan.ts:358-365 | one orphan gets a back and then a front half-edge |
| FloorPlans.FloorPlan.ResetAll | monorepo/msh/libs/ui-floorplan-react/src/components/2d/FloorPlan.ts:133-135 | every listed wall loses its sides and orphan flag and keeps its corners |
| FloorPlans.FloorPlan.Update | monorepo/msh/libs/ui-floorplan-react/src/components/2d/FloorPlan.ts:132-144 | the rooms satisfy what `RoomSearch.FindRooms` ensures (`RoomsFound`: clockwise cycles of the graph, none a rotation of another); every listed wall has a side and is an orphan exactly when no room uses it; walls change only in their sides |
| FloorPlans.FloorPlan.BuildRooms | monorepo/msh/libs/ui-floorplan-react/src/components/2d/FloorPlan.ts:137-142 | one room per loop found, in order, with the sides built so far |
| FloorPlans.FloorPlan.AddRoom | monorepo/msh/libs/ui-floorplan-react/src/components/2d/FloorPlan.ts:141 | appends one room over the given corners and keeps the room-building invariant |
| FloorPlans.FloorPlan.NewWall | monorepo/msh/libs/ui-floorplan-react/src/components/2d/FloorPlan.ts:68-73 | appends and lists one new wall registered on both corners, then updates the rooms and sides |
| FloorPlans.FloorPlan.RemoveCorner | monorepo/msh/libs/ui-floorplan-react/src/components/2d/FloorPlan.ts:372-374 | removes the corner from the list and keeps the invariant |
| FloorPlans.FloorPlan.RemoveWall | monorepo/msh/libs/ui-floorplan-react/src/components/2d/FloorPlan.ts:379-382 | removes the wall, when given, from the list, then updates the rooms and sides |
| FloorPlans.FloorPlan.RemoveDuplicatesFrom | monorepo/msh/libs/ui-floorplan-react/src/components/2d/FloorPlan.ts:300-329 | one loop of `removeDuplicateWalls` removes what its scan removes; when it removes something the plan is updated |
| FloorPlans.FloorPlan.VisitForDuplicate | monorepo/msh/libs/ui-floorplan-react/src/components/2d/FloorPlan.ts:300-329 | one iteration of that loop keeps its invariant |
| FloorPlans.FloorPlan.RemoveDuplicate | monorepo/msh/libs/ui-floorplan-react/src/components/2d/FloorPlan.ts:303-310 | removes one duplicate wall from the corners, and from the list at the stale index, and updates the plan |
| FloorPlans.FloorPlan.RemoveDuplicateWalls | monorepo/msh/libs/ui-floorplan-react/src/components/2d/FloorPlan.ts:292-330 | removes the duplicate and zero-length walls (`WallDedup.DuplicatesRemoved`); when none, nothing changes, otherwise the plan is updated |
| FloorPlans.FloorPlan.Move | monorepo/msh/libs/ui-floorplan-react/src/components/2d/Corner.ts:108-112 | places the corner and merges it (`PlanState.Moved`): it takes the first close corner's position, or splits the first close wall, or just stands at `(x, y)` |
| FloorPlans.FloorPlan.RelativeMove | monorepo/msh/libs/ui-floorplan-react/src/components/2d/Corner.ts:228-230 | the same as `Move` to the position shifted by `(dx, dy)` |
| FloorPlans.FloorPlan.WallRelativeMove | monorepo/msh/libs/ui-floorplan-react/src/components/2d/Wall.ts:154-157 | moving both ends moves no other corner |
| FloorPlans.FloorPlan.MergeWithIntersected | monorepo/msh/libs/ui-floorplan-react/src/components/2d/FloorPlan.ts:95-127 | returns true iff a listed corner or wall is within 20; a close corner is absorbed (the new corner takes its position and walls, and it leaves the list); otherwise the first close wall is split at the corner; when neither, nothing changes |
| FloorPlans.FloorPlan.MergeIntoCorner | monorepo/msh/libs/ui-floorplan-react/src/components/2d/FloorPlan.ts:97-103 | the corner case of the merge |
| FloorPlans.FloorPlan.MergeIntoWall | monorepo/msh/libs/ui-floorplan-react/src/components/2d/FloorPlan.ts:105-126 | the wall case of the merge |
| FloorPlans.FloorPlan.SplitWall | monorepo/msh/libs/ui-floorplan-react/src/components/2d/FloorPlan.ts:109-122 | moves the corner to the closest point of the wall, ends the wall there and appends a wall from there to the old end |
| FloorPlans.FloorPlan.CombineCorners | monorepo/msh/libs/ui-floorplan-react/src/components/2d/FloorPlan.ts:335-351 | the target takes the absorbed corner's position and all its walls, the absorbed corner is deleted and leaves the list, and the plan is updated |
| FloorPlans.FloorPlan.AbsorbCorner | monorepo/msh/libs/ui-floorplan-react/src/components/2d/FloorPlan.ts:336-345 | the move and the two loops of `combineCorners` (`Incidence.Combined`) |
| FloorPlans.FloorPlan.RetireCorner | monorepo/msh/libs/ui-floorplan-react/src/components/2d/FloorPlan.ts:347-349 | the tail of `combineCorners`: on the emptied corner, it only marks it deleted and removes it from the list |
| FloorPlans.FloorPlan.CleanUp | monorepo/msh/libs/ui-floorplan-react/src/components/2d/FloorPlan.ts:384-390 | keeps exactly the corners and walls not deleted, in their order, and updates the plan |
| FloorPlans.FloorPlan.OverlappedCorner | monorepo/msh/libs/ui-floorplan-react/src/components/2d/FloorPlan.ts:75-83 | returns the first listed corner within the tolerance, or none |
| FloorPlans.FloorPlan.OverlappedWall | monorepo/msh/libs/ui-floorplan-react/src/components/2d/FloorPlan.ts:85-93 | returns the first listed wall within the tolerance of its segment, or none |

## Left out

- Rendering is not part of this model: every `render`/`draw*` method, the grid, the ruler, guide lines, the drafting desk and the canvas, DOM and Three.js helpers. All of it is canvas I/O.
- `Drawing2DContext` is not part of this model. It scales coordinates for display.
- The trigonometry is not computed. `angle`/`angle2pi` (atan2) is the `angle2pi` parameter. The cos/sin tail of `halfAngleVector` is the `turn` parameter, including its division by `sin(θ/2)`.
- Square roots are not computed. Distances are compared squared, which gives the same answer for a positive tolerance. `HalfEdge.interiorDistance` is left out because it is only a square root.
- `Corner.distanceFrom`, `distanceFromWall`, `distanceFromCorner` and `Wall.distanceFrom` have no members of their own. They are the squared distances `Utils2D.DistanceSq` and `Utils2D.PointDistanceSqFromLine` that the hit tests use.
- `Utils.guid` uses a random source. Its value is a parameter of the constructor and of `NewCorner`.
- The deserializing `FloorPlan` constructor builds walls from plain records, not from the plan's corners. Only the empty floor plan is modelled. For the same reason, the `Wall` constructor's defaulting of a missing or zero thickness from a record is not modelled: `createWall` always gives thickness 10 and height 250.
- The React components, the Redux store, sagas and HTTP service are not part of this model. Only the reducer and its actions are.
- Floating point is modelled as exact `real` arithmetic. Rounding is not captured.
- The `visited` and `lookup` dictionaries are modelled as sets and maps of strings. Keys inherited from `Object.prototype` are not modelled.
- Aliasing of corner and wall objects is modelled by indices into the tables. A JavaScript object that is no longer listed but still referenced stays in its table.
- `Utils.RemoveValue` returns the new list, and the floor plan assigns it to its field. This models the in-place splice, but not other references to the same array.
- FloorPlans.FloorPlan.WallRelativeMove: the contract covers only that no other corner moves. Each end's move runs a full merge, and the second merge sees the first one's result, so the model does not state the composition.
- FloorPlans.FloorPlan.RemoveCorner: it only removes the corner from the list, as the source does. It does not detach the corner's walls.
- RoomSearch.FindRooms: the contract states what every returned room satisfies, not that every cycle of the graph is found. Tightness of the cycles (the smallest-turn-first order) is stated per step by `RoomSearch.PushNeighbours` and `RoomSearch.SmallestThetaPoppedFirst`.
- FloorPlans.FloorPlan.Update: the rooms are stated by `RoomsFound`, so the contract inherits the gap of `RoomSearch.FindRooms`: it does not state that every room of the graph is listed.
- CanvasUtils.CalculateGridOffset: a zero grid spacing is excluded. JavaScript's `%` then gives NaN, which exact `real` arithmetic does not have.
- The plan invariant `FloorPlans.FloorPlan.Valid` states that a listed wall points back to the corner listing it, not the converse, because `combineCorners` can break the converse for a wall whose two ends are the same corner.

## Findings

| source | as written | input that shows it | evidently intended | confidence | as-written member | corrected member |
|---|---|---|---|---|---|---|
| monorepo/msh/libs/ui-floorplan-react/src/utils/CanvasUtils.ts:14-21 | for `n ≥ 0` the result is `((n + s/2) % s) − s/2`, which lies in `[−s/2, s/2)` | `n = s/2` (for example `s = 10`, `n = 5`) gives `−5` | the documented range `−s/2 < result ≤ s/2`, with the result still differing from `n` by a multiple of `s` | not executed | CanvasUtils.GridOffsetMissesDocumentedRange | CanvasUtils.GridOffsetAsDocumentedRange |
