# Golf-cart map, localization, identification and setup tools: a Dafny model

This project models the tools of the golf-cart repository whose results are trusted without a
person looking at every number, and proves what those results mean. Arithmetic is exact (`real`
and `int`); distances are compared squared; the only rounding kept is the one the programs do on
purpose (`round`, four decimals in the map file, `floor` in grids, the 4-byte float of a centroid).

`dafny verify dfyconfig.toml` checks everything.

**Lane map.** A driven centreline is offset to two bounds, cut into lanelets, written as an OSM
document, read back by two other programs and checked against an obstacle grid. The headline is
`LaneMap.PassedMapIsClear`: when the check passes, no point of any occupied cell lies in the lane
as written, *before* it was cut. It composes: the squared square-to-segment distance is exact; a
square that meets no edge of a ring is wholly on one side of it, so testing a cell's centre tests
the cell; cutting a lane never hides an obstacle, because the parities of the lanelet rings add up
to the parity of the strip; and the rings the clearance check reads are those of the lane that was
written. `LaneMap.CountedIsOutside` takes it back to the cloud the grid was counted from.

**Smoother.** The loop that scatters 6 x 6 blocks into `A` and `b` assembles the normal equations
of a sum of squares; with positive semidefinite information the damped system is positive definite,
so that there is exactly one solution: the only minimiser of the damped cost.

**System identification.** Both forms of the rate-limited lag, the step finder, and the simplex
search with the fit built on it, for any cost function.

**Setup.** A persistent state machine over any sequence of runs, with failures and interruptions.

**Streams and files.** Stop detection, incremental voxel deduplication, voxel centroids, the PCD
writer and reader down to bytes, and the depth-limited include walk of the launch auditor.

## Where the code does something a reader might not expect

- `refine_pass` slices its pins as `lb[-pin:]`, so a `pin` of 0 pins every point of the stretch
  (`Corridor.SomePointFree` says exactly when a point is left free). It may loosen a lower bound by up
  to a millimetre, and a body band narrower than the cart is read upside down;
  `Corridor.CentreStaysInBand` says what is kept.
- An `at_least` override restarts from the stretch's own margin and drops an earlier `at_most`
  (`Corridor.RaiseUndoesCap`); `Corridor.MarginKeeps` says exactly which caps survive.
- A line added to the obstacle grid is documented to mark every cell it crosses. It marks exactly the
  cells that hold one of its samples (`GridBuilding.MarkedExactly`), so it misses a clipped corner
  (`GridBuilding.ClippedCornerMissed`), and nothing that it is in for half a cell or more
  (`GridBuilding.CrossedCellMarked`).
- The auditor's `complete` says nothing of files beyond its depth limit, nor of param files: it passes
  over one that it cannot resolve or open, and of an argument it opens the default, where an include
  may pass another file. A name read only there is reported as never read.
  `LaunchAudit.RightExactlyWhenSeen` is the exact condition: every file that is launched is within four
  hops, and every param file those load is one the walk takes up, as a launch file or as a param file
  some file within three hops resolves to. `LaunchAudit.FarFileIsMissed` and
  `LaunchAudit.UnseenParamIsMissed` break it on any graph where one part fails;
  `LaunchAudit.FourHopsAreTooMany` and `LaunchAudit.UnopenedParamsAreMissed` are concrete inputs.
  Passing a name to a file that exists and cannot be read stops the check with an error.
- With `--keep-going` a step can start after the step it must follow has failed
  (`SetupProperties.KeepGoingStartsAfterFailure`); that is so whenever a step to be run must follow
  another one, and only then (`SetupProperties.KeepGoingExactly`).
- The PCD writer accepts an empty list of fields, which the reader refuses
  (`PcdFile.RoundTrip` gives the exact condition).

## Model

| member | source | states |
|---|---|---|
| SquareDistance.SegmentDistanceExact | scripts/map/check_lane_clearance.py:83-106 | for every square and segment, degenerate ones included, the computed squared distance is the minimum over all pairs of their points, some pair attains it, and it is 0 exactly when the two meet |
| SquareDistance.CrossingIsExact | scripts/map/check_lane_clearance.py:100-105 | the corner-sides and bounding-box test holds if and only if some point is in both square and segment |
| SquareDistance.NoPairNearer | scripts/map/check_lane_clearance.py:87-99 | a segment that misses the square is nowhere nearer to it than the nearest of its ends to the square and of the corners to it (the docstring's convexity argument, proved) |
| SquareDistance.SlideToEnd | scripts/map/check_lane_clearance.py:87-89 | two disjoint segments' points can be moved, never apart, until one of them is an end |
| SquareDistance.PointSegmentNearest | scripts/map/check_lane_clearance.py:74-80 | the clipped projection is nearest among all points of the segment |
| SquareDistance.ToSquareNearest | scripts/map/check_lane_clearance.py:93-94 | the excess formula is the least squared distance from a point to the square, and is attained |
| SquareDistance.SquareRow | scripts/map/check_lane_clearance.py:96-105 | the array loop over corners, with crossed entries set to 0, gives that exact distance for every segment |
| SquareDistance.SquareSegmentDistance2 | scripts/map/check_lane_clearance.py:83-106 | per square, the distance to the nearest of all the segments: attained, beaten by none, 0 exactly when one crosses |
| EvenOdd.Inside | scripts/map/check_lane_clearance.py:62-71 | the toggled bits are the parity of crossings of the closed ring, for every point and any ring, the empty one included |
| EvenOdd.CutInTwo | scripts/map/check_lane_clearance.py:62-71 | the parity of a lanelet is the exclusive or of the parities of the two it is cut into |
| EvenOdd.CutKeepsParity | scripts/map/centerline_to_lanelet.py:216-226 | over any cut, the lanelets' parities add up to the parity of the uncut strip |
| EvenOdd.OddCutHasLanelet | scripts/map/check_lane_clearance.py:114-117 | a point of odd parity over a cut is inside at least one lanelet |
| EvenOdd.LoopParity | scripts/map/centerline_to_lanelet.py:286-315 | for a loop whose last points are its first ones, the strip's parity is the left ring's xor the right ring's |
| SquareInRing.Level | scripts/map/check_lane_clearance.py:66-70 | moving horizontally along a segment that misses an edge does not change that edge's bit |
| SquareInRing.Rising | scripts/map/check_lane_clearance.py:66-70 | moving along any segment that climbs and misses an edge changes its bit exactly at the edge's ends passed on the right |
| SquareInRing.SegmentOnOneSide | scripts/map/check_lane_clearance.py:62-71 | the ends of a segment that meets no edge of a ring have the same parity |
| SquareInRing.SquareOnOneSide | scripts/map/check_lane_clearance.py:109-128 | all points of a square that meets no edge of a ring have the same parity, so the centre decides for the cell |
| LaneVerdict.Flags | scripts/map/check_lane_clearance.py:115-117 | a cell is flagged exactly when its centre is inside some ring |
| LaneVerdict.Distances | scripts/map/check_lane_clearance.py:122-123 | taking the outside cells chunk by chunk gives each its exact distance |
| LaneVerdict.Clearance | scripts/map/check_lane_clearance.py:109-128 | every cell is flagged inside, or is listed outside with its exact distance to all edges of all rings |
| LaneVerdict.Verdict | scripts/map/check_lane_clearance.py:171-190 | status 0 if and only if no centre is inside a ring and no point of any cell is at 0, or nearer than the minimum, to a point of an edge |
| LaneVerdict.PassedSquareOutside | scripts/map/check_lane_clearance.py:189-190 | a cell that passes is outside every ring with all its points |
| LaneVerdict.PassMeansLaneClear | scripts/map/check_lane_clearance.py:189-190 | a pass over the pieces means every point of every occupied cell is outside the uncut strip |
| LaneVerdict.CutHidesNothing | scripts/map/check_lane_clearance.py:114-117 | a cell centre inside the uncut strip is flagged by some lanelet and fails the check |
| LaneOutline.OutlineDecides | scripts/map/check_lane_clearance.py:109-126 | for a cell outside the lane, whatever its size, the distance to all the lanelets' edges is that to the lane's outline (a loop's two bounds, without the seam), and so is every verdict on it, when the lanelets' ends run inside the lane |
| LaneOutline.OutlineDecidesExactly | scripts/map/check_lane_clearance.py:112-113 | and only then: the distances agree for every cell outside if and only if every point of every end is in the lane or on its outline |
| Splitting.Round | scripts/map/centerline_to_lanelet.py:221 | to the nearest integer, halves to the even one |
| Splitting.Stride | scripts/map/centerline_to_lanelet.py:221 | a lanelet has the number of samples asked for, rounded, and at least one |
| Splitting.SplitSegments | scripts/map/centerline_to_lanelet.py:216-226 | the ranges are those between consecutive boundaries, where an index is a boundary exactly when it is an end, an inner break, or a stride multiple at least half a stride from the end |
| Splitting.CutCovers | scripts/map/centerline_to_lanelet.py:218-220 | the cut runs from 0 to n - 1 in non-empty ranges that share ends, and every inner break is a boundary |
| Splitting.LaneletsAreShort | scripts/map/centerline_to_lanelet.py:221-225 | whatever the breaks, no lanelet is over one and a half strides, nor over one and a half times the number of samples asked for and a half |
| Splitting.LaneletsAreLong | scripts/map/centerline_to_lanelet.py:222-224 | without breaks, none of several lanelets is under half a stride |
| Profiles.ArcFractions | scripts/map/centerline_to_lanelet.py:164-168 | fractions run from 0 to 1 in order and are the share of the length so far; a polyline of no length is the one case of failure |
| Profiles.SharesAreLengths | scripts/map/centerline_to_lanelet.py:164-168 | each edge has the share of the fractions that it has of the length |
| Profiles.WidthsAlong | scripts/map/centerline_to_lanelet.py:171-184 | the one-pass cursor gives every sample the width a search for its segment would |
| Profiles.WidthIsLinear | scripts/map/centerline_to_lanelet.py:181-183 | between two route points the width goes evenly from the one's to the other's |
| Profiles.SegmentUnique | scripts/map/centerline_to_lanelet.py:179-180 | there is only one segment the cursor can be on for a given fraction |
| Profiles.WidthBetweenNeighbours | scripts/map/centerline_to_lanelet.py:181-183 | a width lies between those of the route points around the sample, repeated points included |
| Profiles.WidthAtVertex | scripts/map/centerline_to_lanelet.py:174-175 | a sample at a route vertex, the first of those at its fraction when points repeat, has exactly that vertex's width |
| Profiles.SpeedsAlong | scripts/map/centerline_to_lanelet.py:187-195 | every sample has the speed of the last route point at or before it (within the slack of 1e-9) |
| Profiles.Breaks | scripts/map/centerline_to_lanelet.py:269 | the breaks are exactly the samples whose speed differs from the one before |
| Profiles.OneSpeedPerLanelet | scripts/map/centerline_to_lanelet.py:269-326 | with those breaks, every sample of a range but its shared end has the speed the range is written with |
| Profiles.CarriedWidths | scripts/map/centerline_to_lanelet.py:259-262 | one width goes to every sample, per-point ones are carried by the search; refused exactly for a count that differs or a polyline of no length |
| Profiles.CarriedSpeeds | scripts/map/centerline_to_lanelet.py:263-268 | the same for speeds, each sample taking that of the last route point at or before it |
| Profiles.PositiveWidths | scripts/map/centerline_to_lanelet.py:171-184 | positive route widths give every sample a positive width |
| LaneletDoc.WrittenIsClose | scripts/map/centerline_to_lanelet.py:240-243 | a written coordinate has four decimals and is within half of the fourth |
| LaneletDoc.FreshOffset | scripts/map/centerline_to_lanelet.py:280-284 | the id search ends with the least multiple of a million that puts every new id above every id in use |
| LaneletDoc.OffsetBounds | scripts/map/centerline_to_lanelet.py:145-161 | the bounds are symmetric about the centre across a unit tangent, half a width away, left on the left; refused exactly for a wrong count or a width that is not positive |
| LaneletDoc.AppendNodes | scripts/map/centerline_to_lanelet.py:286-298 | one pair of new nodes per distinct sample, in order; a loop's last sample reuses the ids of its first |
| LaneletDoc.AppendLanelets | scripts/map/centerline_to_lanelet.py:300-328 | two ways stored against travel and one relation per range, with consecutive ids and the range's speed |
| LaneletDoc.AppendLane | scripts/map/centerline_to_lanelet.py:280-328 | the base is kept as it was, the lane follows, and every id of the base's nodes, ways and relations is under the first new one |
| LaneletReaders.NodeTable | scripts/map/check_lane_clearance.py:45-49 | the dictionary finds an id exactly when some node with that id has a position, and then the last such node's |
| LaneletReaders.WayTable | scripts/map/check_lane_clearance.py:50 | every way, used or not, must resolve; the table then holds the last way's points under each id |
| LaneletReaders.RingOf | scripts/map/check_lane_clearance.py:55-58 | a ring is read exactly when all members are found and both roles are there and have points; it is left, then right backwards |
| LaneletReaders.LaneletPolygons | scripts/map/check_lane_clearance.py:42-59 | reads one ring per lanelet relation in document order, and fails exactly on a missing key or a bound without points |
| LaneletReaders.LaneletBoundaries | scripts/testing/sim_loop_drive.py:183-202 | two midpoints per lanelet, of the first and last points of its bounds; fails exactly when one cannot be found |
| RoundTrip.RingsReadBack | scripts/map/check_lane_clearance.py:42-59 | over any readable base without lanelets, the clearance check reads one ring per split range, in order, made of the written bounds, with the range's speed |
| RoundTrip.HandOversReadBack | scripts/testing/sim_loop_drive.py:183-202 | the driver reads, per range, the written midpoints at its end and start indices |
| RoundTrip.SharedNodes | scripts/map/centerline_to_lanelet.py:286-316 | in the built document, the ways found under both roles of a lanelet and of the one that starts where it ends meet in one node id, and a loop's last lanelet meets its first so |
| RoundTrip.HandOverIsCentre | scripts/map/centerline_to_lanelet.py:156-160 | the midpoint of two written bound points is the centre point to within half of the fourth decimal |
| LaneMap.BuildOsm | scripts/map/centerline_to_lanelet.py:246-331 | carries widths and speeds onto the samples, offsets, cuts by stride and at every change of speed, and writes; refused exactly for a profile that cannot be carried or a width that is not positive |
| LaneMap.OneSpeed | scripts/map/centerline_to_lanelet.py:269-300 | cut so, every sample of a range but its shared end has the speed the range is written with |
| LaneMap.HandOversAreCentrePoints | scripts/testing/sim_loop_drive.py:183-202 | hand-over points are the centre points at the cut indices up to rounding, and a lanelet's speed is that of every sample it covers |
| LaneMap.LaneletSpeedIsTheRoutes | scripts/map/centerline_to_lanelet.py:187-195 | the speed read back from a lanelet is, at each of its samples but the last, that of the last route point at or before it |
| LaneMap.LaneletsJoin | scripts/map/centerline_to_lanelet.py:286-316 | consecutive lanelets of a built document share both end nodes, and so do the last and first of a loop |
| LaneMap.RingsAreTheLanelets | scripts/map/check_lane_clearance.py:42-59 | the rings the check reads from a built document are the rings of the written lane's cut |
| LaneMap.CheckMap | scripts/map/check_lane_clearance.py:166-190 | refuses exactly a document with an unreadable table or lanelet, or without lanelets; otherwise its verdict is about exactly the occupied cells and every lanelet of the document |
| LaneMap.BuiltIsCheckable | scripts/map/check_lane_clearance.py:42-59 | a document built over a readable base without lanelets is never refused |
| LaneMap.FailureHasACell | scripts/map/check_lane_clearance.py:171-190 | a failed check is the fault of some occupied cell: its centre is in a lanelet, or it is too near an edge of one |
| LaneMap.PassedMapIsClear | scripts/map/check_lane_clearance.py:109-190 | when the map built for a lane passes, no point of any occupied cell is in the lane as written and uncut |
| LaneMap.LoopIsBetweenTheBounds | scripts/map/centerline_to_lanelet.py:286-293 | for a closed loop that lane is what lies between the two bounds' rings |
| LaneMap.CountedIsOutside | scripts/map/check_lane_clearance.py:166-190 | from cloud to lane: when the map built for a lane passes against the grid built of a cloud, no point in a cell of the grid where enough was counted is in the uncut lane |
| LaneMap.LineIsOutside | scripts/map/obstacle_grid.py:117-120 | nor is any sample of a line added to that grid, whatever was removed |
| LaneMap.DistancesAreToTheOutline | scripts/map/check_lane_clearance.py:109-126 | the distances the check reports for a built map are those to the written lane's outline when the ends run inside it |
| ObstacleGrid.OccupiedCentres | scripts/map/obstacle_grid.py:147-151 | the list holds the centre of every occupied cell and nothing else |
| ObstacleGrid.InOwnCell | scripts/map/obstacle_grid.py:126-127 | a point lies in the closed square about the centre of the cell its indices name |
| ObstacleGrid.CellIndexIs | scripts/map/obstacle_grid.py:126-127 | a coordinate has an index exactly when it is from that multiple of the cell on and short of the next |
| ObstacleGrid.OccupiedAtIs | scripts/map/fit_lane_corridor.py:75-80 | looking a point up says exactly whether it is in the half-open square of an occupied cell |
| GridBuilding.Points | scripts/map/obstacle_grid.py:101-124 | the weighted points add up, cell by cell, to kept band points once, boxed cloud points once more, line samples `min_points` times; refused exactly for an addition of no known kind |
| GridBuilding.KeptAre | scripts/map/obstacle_grid.py:73-106 | what the cloud counts in a cell is how many of its points are over the cell, in the height band above the floor, and strictly inside no removed box |
| GridBuilding.BoxedAre | scripts/map/obstacle_grid.py:111-115 | an added box counts those over the cell that are strictly inside it, at any height |
| GridBuilding.SamplesAre | scripts/map/obstacle_grid.py:83-89 | the samples of a line lie on it half a cell apart, from its first end up to short of its second |
| GridBuilding.CountCells | scripts/map/obstacle_grid.py:126-130 | the in-place counts are the weights of the cells, points off the grid left out |
| GridBuilding.BuildGrid | scripts/map/obstacle_grid.py:92-139 | a cell is occupied if and only if what it holds weighs at least `min_points` |
| GridBuilding.SizeIs | scripts/map/obstacle_grid.py:99 | the grid has the size asked for to within half a cell |
| GridBuilding.MarkedExactly | scripts/map/obstacle_grid.py:101-131 | for any additions, a cell is marked if and only if some line has a sample in it or the points of the cloud counted there are enough |
| GridBuilding.LongPartsSampled | scripts/map/obstacle_grid.py:83-89 | every part of a line half a cell long, short of its end, holds a sample |
| GridBuilding.CrossedCellMarked | scripts/map/obstacle_grid.py:83-89 | so a cell that a line is in for half a cell or more is marked |
| GridBuilding.ClippedCornerMissed | scripts/map/obstacle_grid.py:35-37 | a concrete line that passes through a cell, has no sample in it and leaves it unmarked |
| Arange.ArangeCovers | scripts/map/fit_lane_corridor.py:69-70 | a half-open range holds exactly the multiples below its stop |
| Corridor.FreeSpace | scripts/map/fit_lane_corridor.py:62-83 | the distance of the first occupied strip row out along the normal, or the reach when all rows are free |
| Corridor.RowHitIs | scripts/map/fit_lane_corridor.py:71-79 | a row is hit exactly when a point that far out along the unit normal, and at one of the strip's offsets across it, is in an occupied cell |
| Corridor.FreeSpaceIs | scripts/map/fit_lane_corridor.py:69-83 | no such point short of the free space is in an occupied cell, and where it is not the reach one at its end is |
| Corridor.Selected | scripts/map/fit_lane_corridor.py:224-229 | a stretch is accepted exactly when its points are some and contiguous |
| Corridor.EasedIs | scripts/map/fit_lane_corridor.py:236-244 | the width is the pinch's at every held point, the lane's where every held point is the ease distance away, and never outside the two |
| Corridor.EasedSquare | scripts/map/fit_lane_corridor.py:243-244 | in between it goes back to the lane's as the square of the distance from the nearest held point |
| Corridor.WidthIs | scripts/map/fit_lane_corridor.py:247-248 | the width is as near the eased one as never being under the minimum, nor over the free span less both margins where that has room for the minimum, allows |
| Corridor.MarginIs | scripts/map/fit_lane_corridor.py:252-260 | the margin of a point is the least of what the last `at_least` made of it, the `at_most` caps that are not before that one, and the pinch's cap |
| Corridor.MarginKeeps | scripts/map/fit_lane_corridor.py:252-260 | so it stays within a value if and only if the last raise, a surviving cap or the pinch's cap does |
| Corridor.RaiseUndoesCap | scripts/map/fit_lane_corridor.py:253-258 | a concrete list in which a later `at_least` undoes a cap |
| Corridor.FeasibleBySpan | scripts/map/fit_lane_corridor.py:248-261 | a point bounded by its edges alone has a proper interval whenever the free span has room for the minimum width and both margins and no override raises the margin; where none touches it, only then |
| Corridor.RefineBounds | scripts/map/fit_lane_corridor.py:245-285 | the interval of every point of the stretch as a function of free space, width, margin and band |
| Corridor.AllowedExactly | scripts/map/fit_lane_corridor.py:261-276 | the limits of a point allow exactly the moves that keep both its edges their margin inside the free space and, level with the pinch, its sides the band's margin off both faces |
| Corridor.PinnedAre | scripts/map/fit_lane_corridor.py:285 | that many points are pinned at either end; all for a pin of 0 |
| Corridor.IntervalsNonEmpty | scripts/map/fit_lane_corridor.py:278-285 | no interval handed to the solver is empty; a lower bound is loosened by at most a millimetre, and only for an interval shorter than that; an empty one becomes a millimetre either side of its middle |
| Corridor.EdgesKeepMargin | scripts/map/fit_lane_corridor.py:261-285 | a point so moved keeps both edges their margin inside the free space, less a millimetre on the right |
| Corridor.RoomyPointKeepsMargin | scripts/map/fit_lane_corridor.py:245-285 | so where the span has that room and no override raises the margin, every unpinned point outside the band keeps both margins, for any solver vector within the bounds |
| Corridor.RowsBesideEdgesFree | scripts/map/fit_lane_corridor.py:62-83 | so no point of a strip row that the margin reaches past the left edge of a point so moved, and none past its right edge, is in an occupied cell |
| Corridor.CentreStaysInBand | scripts/map/fit_lane_corridor.py:266-276 | where the cart is level with the pinch its centre stays in the body band, by the same millimetre |
| Corridor.SomePointFree | scripts/map/fit_lane_corridor.py:285 | with the slices as Python cuts them, some point is left unpinned if and only if the pin is positive and twice it is under the number of points, or it is negative and minus twice it is over that number |
| Sums.FormPlaced | scripts/localization/restricted_fov/tools/sliding_window_localizer.py:231-243 | the quadratic form of a block placed in a large matrix is the block's form on the parts it meets |
| Smoother.AddFactors | scripts/localization/restricted_fov/tools/sliding_window_localizer.py:227-243 | the in-place updates for one pose add exactly its scan and motion blocks |
| Smoother.Assemble | scripts/localization/restricted_fov/tools/sliding_window_localizer.py:224-243 | the filled arrays are the sums of those blocks over the window |
| Smoother.NormalEquations | scripts/localization/restricted_fov/tools/sliding_window_localizer.py:221-243 | x'Ax - 2b'x plus a constant is the weighted sum of squares of the scan and motion residuals after the increment x, the oldest pose held, for every window and every x |
| SmootherSolution.SymmetricTridiagonal | scripts/localization/restricted_fov/tools/sliding_window_localizer.py:227-243 | the matrix is symmetric, and zero between poses that are not neighbours |
| SmootherSolution.SymmetrisedForm | scripts/localization/restricted_fov/tools/sliding_window_localizer.py:211-212 | symmetrising the matcher's information is scaling its quadratic form |
| SmootherSolution.DiagonalIsPsd | scripts/localization/restricted_fov/tools/sliding_window_localizer.py:236 | a diagonal of non-negative weights is positive semidefinite |
| SmootherSolution.AssembledIsPsd | scripts/localization/restricted_fov/tools/sliding_window_localizer.py:221-243 | with semidefinite information the assembled matrix is semidefinite |
| SmootherSolution.DampedIsPositiveDefinite | scripts/localization/restricted_fov/tools/sliding_window_localizer.py:244-245 | the damped matrix is positive definite |
| SmootherSolution.Solvable | scripts/localization/restricted_fov/tools/sliding_window_localizer.py:244-245 | a positive definite system of any size has a solution |
| SmootherSolution.SolutionExists | scripts/localization/restricted_fov/tools/sliding_window_localizer.py:244-245 | so the damped equations of every window have one, and the branch for a singular matrix is never taken |
| SmootherSolution.SolutionIsUniqueMinimiser | scripts/localization/restricted_fov/tools/sliding_window_localizer.py:244-245 | a solution of the damped system has the least damped cost, and any other increment costs more |
| SmootherWindow.Symmetrised | scripts/localization/restricted_fov/tools/sliding_window_localizer.py:212 | the stored information is symmetric, entry by entry the mean of the matcher's two |
| SmootherWindow.FrameWindow.Push | scripts/localization/restricted_fov/tools/sliding_window_localizer.py:209-216 | the four lists stay in step and hold the last frames of the history |
| SmootherWindow.FrameWindow.Retract | scripts/localization/restricted_fov/tools/sliding_window_localizer.py:248-249 | every pose but the oldest moves by its own six entries |
| LagModel.DelayedInput | scripts/testing/sysid/sysid_fit.py:97-100 | the held input is the last sample at or before the delayed time, or the first of all |
| LagModel.HeldIndexUnique | scripts/testing/sysid/sysid_fit.py:97-100 | there is only one such sample |
| LagModel.Simulate | scripts/testing/sysid/sysid_fit.py:103-141 | the loop with its cached gain is the step-by-step model for both forms |
| LagModel.ParallelStep | scripts/testing/sysid/sysid_fit.py:133-139 | where the limit does not bind, what is left of the way to the target is the part 1 - a of it; where it binds, the output moves by exactly the limit, towards the target and not past it |
| LagModel.SeriesStep | scripts/testing/sysid/sysid_fit.py:129-132 | the command goes to the target, by the limit at most, and the output keeps what the gain leaves of the way to the command |
| LagModel.ParallelSettles | scripts/testing/sysid/sysid_fit.py:107-111 | over n equal steps of a held target, once the limit does not bind, it never binds again and the output is off by what n steps leave of what it was off by |
| LagModel.RestAfterIs | scripts/testing/sysid/sysid_fit.py:107-111 | n steps leave the part (1 - a)^n |
| LagModel.CommandArrives | scripts/testing/sysid/sysid_fit.py:129-131 | the command of the series form goes the whole way to a held target, by the limit each step, and stays there |
| LagModel.SeriesSettles | scripts/testing/sysid/sysid_fit.py:129-132 | from then on the series output closes in as the lag does |
| LagModel.StepsFollowTheGrid | scripts/testing/sysid/sysid_fit.py:117 | the steps add up to the time since the start of the grid |
| LagModel.StepsForward | scripts/testing/sysid/sysid_fit.py:117 | a grid in order has no step back in time, which is all the theorems below ask of it |
| LagModel.StaysInHull | scripts/testing/sysid/sysid_fit.py:123-140 | output and limited command never leave the hull of start and inputs |
| LagModel.MonotoneRun | scripts/testing/sysid/sysid_fit.py:123-140 | larger start and inputs never give a smaller output |
| LagModel.NonExpansive | scripts/testing/sysid/sysid_fit.py:123-140 | two runs never draw farther apart than their starts |
| LagModel.CommutesWithAffine | scripts/testing/sysid/sysid_fit.py:103-141 | both forms commute with any affine map when the rate is scaled by the size of its gain |
| LagModel.NormalisedRun | scripts/testing/sysid/sysid_fit.py:258-264 | simulating the normalised command from the report's start is normalising the raw simulation |
| LagModel.ParallelRate | scripts/testing/sysid/sysid_fit.py:133-139 | the parallel output moves at most rate times step |
| LagModel.SeriesLag | scripts/testing/sysid/sysid_fit.py:129-132 | on the uniform grid the lag behind the limited command stays within what the gain leaves of one limit (the invariant on r - y) |
| LagModel.SeriesRateOnUniformGrid | scripts/testing/sysid/sysid_fit.py:269-276 | so on the grid the fit uses the series output moves at most rate times step too |
| LagModel.FormsAgree | scripts/testing/sysid/sysid_fit.py:107-114 | where the limit cannot bind the two forms give the same output |
| StepFinder.Changes | scripts/testing/sysid/sysid_fit.py:200 | all command changes, in order, and nothing else |
| StepFinder.Groups | scripts/testing/sysid/sysid_fit.py:201-206 | the changes in order, cut exactly at the gaps over `merge_s` |
| StepFinder.FindSteps | scripts/testing/sysid/sysid_fit.py:189-220 | the events are those of the groups that move the command by more than the threshold |
| StepFinder.EventStartsFromU0 | scripts/testing/sysid/sysid_fit.py:210-213 | since the last change of the group before, or the start, the command rests at u0, and it leaves it at t0 |
| StepFinder.GroupsUnique | scripts/testing/sysid/sysid_fit.py:201-206 | there is only one such grouping |
| StepFinder.EventRestsAtU1 | scripts/testing/sysid/sysid_fit.py:210-218 | from its last change to the end of its window the command rests at u1, for at least `min_hold_s` exactly when the event is held |
| StepFinder.WindowsDisjoint | scripts/testing/sysid/sysid_fit.py:212-216 | windows end before later ones start |
| StepFinder.GroupMoves | scripts/testing/sysid/sysid_fit.py:213-215 | a group moves the command when the way from before its first change to its last is above the threshold, up or down |
| StepFinder.AcceptedGroups | scripts/testing/sysid/sysid_fit.py:214-219 | accepted events are, in order, those of exactly the groups that move the command enough |
| StepFinder.AcceptedDisjoint | scripts/testing/sysid/sysid_fit.py:209-219 | accepted windows are disjoint and in time order |
| StepFinder.JumpsTelescope | scripts/testing/sysid/sysid_fit.py:213 | the jumps of the first groups add up to the way the command went so far, within 1e-9 a sample |
| StepFinder.AllJumpsTelescope | scripts/testing/sysid/sysid_fit.py:213 | all jumps add up to last minus first value, within 1e-9 a sample |
| NelderMead.ArgSort | scripts/testing/sysid/sysid_fit.py:284 | an order that lists every vertex once, by rising value |
| NelderMead.SortSimplex | scripts/testing/sysid/sysid_fit.py:284-286 | points and values reordered together by one permutation |
| NelderMead.SortingKeeps | scripts/testing/sysid/sysid_fit.py:284-286 | so they stay paired, none is lost however often it occurs, and the best is first |
| NelderMead.Round | scripts/testing/sysid/sysid_fit.py:289-305 | which of expansion, reflection, contraction and shrinking is taken is decided by the values, as the code orders the comparisons |
| NelderMead.MeanIs | scripts/testing/sysid/sysid_fit.py:289 | the centroid times the number of vertices is their sum, coordinate by coordinate |
| NelderMead.CandidatesLie | scripts/testing/sysid/sysid_fit.py:289-300 | the centroid of the others is midway between the worst vertex and the reflected one; the expanded one is twice as far out, the contracted one half way between centroid and worst |
| NelderMead.RoundPlaces | scripts/testing/sysid/sysid_fit.py:289-305 | so a round is what the comparisons say of three points given by those places, or all vertices end midway to the best |
| NelderMead.RoundKeeps | scripts/testing/sysid/sysid_fit.py:289-305 | a round keeps the best vertex, every value stays that of its point, and either the worst vertex gives way to a strictly better one or all are drawn half way to the best |
| NelderMead.Pass | scripts/testing/sysid/sysid_fit.py:283-305 | one pass of the loop: sorts, and either settles, exactly when the spread is within the tolerance, or makes a round |
| NelderMead.SettledIs | scripts/testing/sysid/sysid_fit.py:287 | settled means that every value is within the tolerance of the best |
| NelderMead.StartVertices | scripts/testing/sysid/sysid_fit.py:280-282 | the first vertices are the start and, for each coordinate, the start with that one stepped |
| NelderMead.Search | scripts/testing/sysid/sysid_fit.py:279-307 | for any cost: the result is the best vertex at the end of a path of passes from the first simplex, which stops when settled or after the given number, and its value is that of its point and no worse than any starting vertex |
| NelderMead.BestNeverRises | scripts/testing/sysid/sysid_fit.py:283-305 | along such a path the best value never rises |
| NelderMead.ResultIsNoWorse | scripts/testing/sysid/sysid_fit.py:279-307 | whatever a search may return has the value of its point and is no worse than any starting vertex |
| NelderMead.SearchFromStarts | scripts/testing/sysid/sysid_fit.py:331-338 | the first best of the results of the searches from all starts, no worse than any of them |
| NelderMead.Polish | scripts/testing/sysid/sysid_fit.py:339-341 | the result of a finer search from there, or what it started from if that is not better |
| NelderMead.PolishIsNoWorse | scripts/testing/sysid/sysid_fit.py:339-341 | polishing never worsens the cost |
| NelderMead.Fit | scripts/testing/sysid/sysid_fit.py:320-342 | the best of the searches, polished; its value is its cost, and no more than that best's or any start's |
| NelderMead.FitIsFeasible | scripts/testing/sysid/sysid_fit.py:323-342 | when some start is feasible, the delay and log time constant returned are in the box, with a residual no greater than that start's |
| SetupState.StatusMeans | setup/golfcart_setup/state.py:53-60 | each of the five statuses by what is recorded: done exactly for a success with the same digest, stale for one with another |
| SetupState.State.ImportMarkers | setup/golfcart_setup/state.py:85-116 | markers are adopted only when nothing is recorded, and saved only when something was adopted |
| SetupState.ImportedReadsAsDone | setup/golfcart_setup/state.py:85-116 | an imported step is recorded as a success with its digest; exactly the known steps that a visible marker stands for are imported, under a former name too |
| SetupRunner.Ordered | setup/golfcart_setup/registry.py:475-494 | the selected steps in registry order, refused exactly when a step comes before one it must follow |
| SetupRunner.Select | setup/main.py:127-156 | the ordered selection of the profile less done and skipped steps, or of the named ones; unknown names refused |
| SetupRunner.Runner.RunOne | setup/golfcart_setup/runner.py:35-58 | success and failure are recorded and on disk before it returns; an interruption leaves both as they were; a dry run does nothing |
| SetupRunner.Runner.RunAll | setup/golfcart_setup/runner.py:60-78 | what was started, recorded, written and counted for any outcomes and any state, stopping at the first failure or interruption; a dry run, or one refused root access, does nothing |
| SetupRunner.Stops | setup/golfcart_setup/runner.py:74-77 | nothing happens after a stopping failure or an interruption |
| SetupProperties.SelectedExactly | setup/main.py:127-156 | without named steps a run selects exactly those of its profile whose last success does not have their digest, or all of them when forced, less the skipped |
| SetupProperties.SelectedInOrder | setup/golfcart_setup/registry.py:475-494 | in the registry's order |
| SetupProperties.RunMeans | setup/golfcart_setup/runner.py:60-78 | a run starts its steps in order up to the first that ends it, counts the failures among them, and writes the file as soon as one is not interrupted |
| SetupProperties.RecordedAfter | setup/golfcart_setup/runner.py:35-58 | afterwards every step started is recorded as a success or failure with its digest, or as before when interrupted, and no other step of the run has a new record |
| SetupProperties.DependenciesDone | setup/golfcart_setup/registry.py:475-494 | from any recorded state, whenever a step of a profile run starts, every step of the profile that it must follow is recorded as a success with its current digest |
| SetupProperties.DoneStaysDone | setup/main.py:150-155 | an unforced profile run neither starts nor undoes a step that is done, whatever fails |
| SetupProperties.DoneOnlyGrows | setup/golfcart_setup/runner.py:60-78 | over any sequence of unforced runs with failures and interruptions the done steps only grow |
| SetupProperties.NeverStartedAgain | setup/main.py:150-155 | once a step is done no later run of such a sequence starts it |
| SetupProperties.CleanRunLeavesNothing | setup/main.py:136-156 | after a run without failure or interruption the next selection is empty |
| SetupProperties.KeepGoingStartsAfterFailure | setup/main.py:227-228 | a concrete run with `--keep-going` that starts a step whose dependency has just failed |
| SetupProperties.KeepGoingExactly | setup/main.py:227-228 | with `--keep-going`, wanted dependencies are done at every start whatever fails, if and only if no step to be run must follow another one to be run |
| SetupMain.CmdRun | setup/main.py:177-235 | memory, file, exit code and started steps of a run from any memory, file and markers, readable or not: dry, refused root access, interrupted, failed or complete |
| SetupMain.ExitMeans | setup/main.py:177-235 | exit 2 exactly for an unknown step; none exactly when cut short; 0 exactly when nothing was to be done, or all that was started succeeded |
| SetupMain.MarkersAreDone | setup/golfcart_setup/state.py:85-116 | when nothing is recorded, the steps that old markers stand for start out done, in the file too |
| SetupMain.CmdRerun | setup/main.py:238-249 | forgets and runs exactly the named steps, with the outcome and exit code of such a run; an unknown one leaves the file untouched |
| SetupMain.FileIsCurrent | setup/main.py:177-235 | from a file that was read, the file again holds all that is in memory when the command ends, however it ends |
| SetupMain.ZeroLeavesNothing | setup/main.py:177-235 | exit 0 of a profile run means that the next one, unless forced, selects nothing |
| SetupMain.OnlyIsExact | setup/main.py:139-145 | `--only` selects exactly the named steps, done or not, less the skipped |
| LegStatistics.LegStats.Add | scripts/testing/sim_loop_drive.py:272-292 | every number kept equals its meaning over the whole history: first and last time, greatest speed and steer, least mid-leg speed, number of stops |
| LegStatistics.FartherIs | scripts/testing/sim_loop_drive.py:280-281 | the test of squares is that of distances |
| LegStatistics.SlowIs | scripts/testing/sim_loop_drive.py:280-285 | a sample is slow exactly when it is farther than the margin from the leg's start and goal and its speed, either way, is under `STOP_SPEED` |
| LegStatistics.StopsAreLongRuns | scripts/testing/sim_loop_drive.py:285-292 | with times in order a stop is a maximal run of slow mid-leg samples whose last is at least `STOP_HOLD` after its first |
| LegStatistics.StopsOpen | scripts/testing/sim_loop_drive.py:285-290 | a slow sample makes at most one stop, the open run's, and no other run's status changes |
| LegStatistics.StopsClosed | scripts/testing/sim_loop_drive.py:291-292 | any other sample closes the run and changes no stop |
| VoxelKeys.Unique | scripts/localization/restricted_fov/tools/build_pcd_map.py:136 | the keys sorted, once each, with the index each comes at first |
| VoxelKeys.SortedUnique | scripts/localization/restricted_fov/tools/build_pcd_map.py:136 | that list is determined by the keys |
| VoxelKeys.SortedIs | scripts/localization/restricted_fov/tools/build_pcd_map.py:136 | sorted by the first coordinate, then the second, then the third |
| MapCompaction.DedupedAbsorbs | scripts/localization/restricted_fov/tools/build_pcd_map.py:130-138 | deduplicating what was kept together with later points is deduplicating everything |
| MapCompaction.DedupedUnique | scripts/localization/restricted_fov/tools/build_pcd_map.py:122-138 | each occupied voxel once with the value of its first point: only one map is that |
| MapCompaction.Accumulator.Append | scripts/localization/restricted_fov/tools/build_pcd_map.py:171-175 | a cloud joins the stream and the kept points stay |
| MapCompaction.Accumulator.Compact | scripts/localization/restricted_fov/tools/build_pcd_map.py:130-138 | afterwards the kept points are the whole stream deduplicated once, whatever was compacted before |
| MapCompaction.BuildMap | scripts/localization/restricted_fov/tools/build_pcd_map.py:146-182 | so the final map is the same for every choice of when to compact, every 100 clouds among them |
| VoxelDownsample.Downsample | scripts/map/downsample_pcd.py:76-84 | one row per occupied voxel, in key order: the mean of every field over its points, rounded once |
| VoxelDownsample.OneVoxel | scripts/map/downsample_pcd.py:78 | two points share a voxel exactly when in each of the three coordinates they lie between the same multiples of the leaf, of either sign |
| VoxelDownsample.OneOutputEach | scripts/map/downsample_pcd.py:78-79 | every point is in the cube of exactly one output |
| VoxelDownsample.InOwnVoxel | scripts/map/downsample_pcd.py:77-84 | the centroid as stored, rounded to a 4-byte float, is between the multiples of the leaf that bound its own voxel, for leaves of either sign and any table of such floats |
| VoxelDownsample.SumsConserved | scripts/map/downsample_pcd.py:79-83 | every column keeps its sum, each output weighted by its voxel's count |
| VoxelDownsample.Idempotent | scripts/map/downsample_pcd.py:76-84 | downsampling what was downsampled with the same leaf gives it back, rounding and order included |
| VoxelDownsample.DownsampledUnique | scripts/map/downsample_pcd.py:76-84 | the contract of Downsample determines its result |
| PcdText.WordsOfJoin | scripts/map/downsample_pcd.py:48 | splitting on white space undoes joining plain words with spaces |
| PcdText.DecimalReadsBack | scripts/map/downsample_pcd.py:57 | a printed count parses to itself |
| PcdText.DecimalIsPlain | scripts/map/downsample_pcd.py:64-73 | a printed count is one plain ASCII word |
| PcdText.SignedReadsBack | scripts/map/downsample_pcd.py:57 | so does one with a sign |
| PcdText.SpacesAre | scripts/map/downsample_pcd.py:48 | which characters count as white space |
| PcdFile.ReadLine | scripts/map/downsample_pcd.py:41-50 | the reader takes one written line back to its key and values, and stops exactly at the DATA line |
| PcdFile.ReadPcd | scripts/map/downsample_pcd.py:36-61 | the reading loop computes the parse, error cases included, of any bytes |
| PcdFile.WritePcd | scripts/map/downsample_pcd.py:64-73 | the writer's bytes are the header's and the table's, or a refusal |
| PcdFile.HeaderSays | scripts/map/downsample_pcd.py:64-73 | the header of a written file says, under each key, what the cloud has, the lines that are not read back included, and all that follows it is the table |
| PcdFile.ReadExactly | scripts/map/downsample_pcd.py:51-61 | a header and body are read exactly when the keys are there, the data are binary single 4-byte floats, the number of points is one and not negative, and the body is that long |
| PcdFile.WordAt | scripts/map/downsample_pcd.py:58-61 | the c-th value of the i-th row is the little-endian word at place i k + c of the body |
| PcdFile.TableReadsBack | scripts/map/downsample_pcd.py:58-61 | rows of little-endian words read back as they were, any count including none |
| PcdFile.ReadNamesArePlain | scripts/map/downsample_pcd.py:48-51 | whatever the file, every field name read is non-empty and without white space |
| PcdFile.RoundTrip | scripts/map/downsample_pcd.py:36-73 | reading what was written gives the same rows and names if and only if there is a field and every name is non-empty without white space; the writer refuses exactly names beyond ASCII |
| LaunchAudit.ReferencedNames | scripts/check/audit_launch.py:97-170 | on any include graph, cycles included: the names of files within four hops and the param-file names of files within three, and `complete` exactly when all of those are readable and all their includes exist |
| LaunchAudit.CheckInclude | scripts/check/audit_launch.py:228-262 | per include, the findings on its target and on each passed name, or the error of a target that cannot be read |
| LaunchAudit.UnreadMeans | scripts/check/audit_launch.py:246-256 | a name is reported as never read if and only if it is passed, not found, and the walk was complete |
| LaunchAudit.NeverReadIsRight | scripts/check/audit_launch.py:247-256 | when the walk sees all, such a name is read by no file that is launched, nor through a param file that one loads; every one of those files was opened |
| LaunchAudit.SeenWhenNear | scripts/check/audit_launch.py:130-170 | enough for that, file by file: everything within three hops, every param file resolved to one that opens, and no other loaded in its place |
| LaunchAudit.FarFileIsMissed | scripts/check/audit_launch.py:130-135 | for any graph with a file beyond four hops the report is wrong for some names in it, with `complete` still true |
| LaunchAudit.UnseenParamIsMissed | scripts/check/audit_launch.py:135-156 | so it is for any graph where a param file is loaded that the walk does not take up: too far, not resolved, not opened, or loaded in place of the default the auditor opens |
| LaunchAudit.RightExactlyWhenSeen | scripts/check/audit_launch.py:97-170 | after a complete walk, the reports are right whatever names the files read if and only if every file launched is within four hops and every param file those load is one the walk takes up |
| LaunchAudit.FourHopsAreTooMany | scripts/check/audit_launch.py:130-135 | a concrete chain of four includes where it is wrong |
| LaunchAudit.UnopenedParamsAreMissed | scripts/check/audit_launch.py:143-156 | a concrete file with three param files: one passed in place of its default, one that does not resolve, one that cannot be opened; reported wrong for each |

## Left out

- ROS nodes, bag reading, publishers and live monitors: input and output over libraries.
- XML, YAML and JSON text: documents are records of nodes, ways and relations; elevation, subtype and
  version tags and the `%g` text of a speed carry nothing the readers modelled here use.
- Floating-point rounding and overflow: arithmetic is exact.
- `smooth`, `resample`, `_tangents`, `min_radius` and the lengths under `_arc_fractions`: square roots;
  samples, unit tangents and edge lengths are given, and `Profiles` holds for any non-negative lengths.
- `fit_centre`, `_ring_filter`, the curvature reweighting and `lsq_linear`: the corridor theorems hold
  for any solver vector within the bounds; the boxes of `_where` and `level_with` are given as flags.
- GridBuilding.Points: the length of a drawn line is given with it rather than computed by a square root.
- Corridor.CentreStaysInBand: with a body band, a point is level with the pinch only where its normal
  is not along the aisle, since the code divides by that component.
- SE(3) logarithm and exponential, the matcher and `np.linalg.solve`: residuals, information and the
  solution are given; `SmootherSolution.SolutionExists` says that there is one.
- The gain 1 - exp(-h / tau) is any function of the step with values in [0, 1] and 0 at 0.
- The median levels, settling tests and rejections of `prepare`, and the residual cost of `_fit`: the
  search and the fit are proved for any cost.
- SetupRunner.Runner.RunOne: a command is a success, a failure or an interruption chosen from outside;
  times, exit codes and notes are not recorded.
- SetupMain.CmdRun: the operating-system check, JSON output, the prompt, the menu and the
  suggestion of a profile are not modelled; a digest does not change during a run.
- PcdFile.TableReadsBack: a 4-byte float is its bit pattern.
- MapCompaction.BuildMap: a cloud comes with the keys and values of its points; the poses, the limits on
  the range and the cast to 4-byte floats are not modelled.
- LegStatistics: `add_truth`, `error`, `duration` and the verdict on a leg are simple reductions.
- LaunchAudit.ReferencedNames: what the regular expressions find in a text is given, with where each
  param file and include resolves to.
- The other checks of the auditor, the distance to cell centres and the route summary of the clearance
  check: reports without a deeper invariant.
