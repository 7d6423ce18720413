# hiding-wumpus grid engine in Dafny

A model of the reasoning engine of hiding-wumpus. In the game a seeker chases a hider
on a square grid of cells, some of them walls. The engine covers:

- the grid itself: cells addressed by `(x, y)`, with the bounds check, wall toggling,
  the 8-way neighbour relation and its corner-cutting rule, and Bresenham's
  line-of-sight test;
- the visibility pass, which marks each cell as seen or unseen by either agent;
- the A* pathfinder with its Manhattan heuristic and the per-cell scratch state it
  resets before every search;
- target setting for an agent, which checks the requested cell, runs the pathfinder
  and turns the path into waypoints at cell centres;
- the first hider: two layered multi-source breadth-first searches from the cells the
  seeker sees, the deepest shadow, and a choice of target by ascending score;
- the second hider, which is the larger part:
  - five maps, built one after the other: possible locations, distance to the nearest
    wall-side hiding cell, distance to the nearest cell beside the seeker's view, a
    unit-weight Dijkstra distance from the hider, and blind-spot sizes;
  - weighted normalised scoring with Python float semantics (`inf`, `-inf`, NaN);
  - the `max` that picks the hiding cell;
  - the early exit of its `think`, and the failure of a first `think` on a cell the
    seeker does not see, when the attribute holding the last pick does not exist yet.

The grid is an immutable value (`GridModel.Grid`, rows indexed `nodes[y][x]`). Every
operation is a pure function, or a method over maps with loop invariants. Python's
`inf` and `-inf` tags on the distance maps are the datatype `Extended.Ext = Fin(n) | Inf
| NegInf`. Python floats in the scoring are `Scoring.Float = Num(real) | PInf | NInf |
NaN`: exact reals plus the three special values, with the IEEE 754 rules for each
operation.

Behaviour of the code that is easy to misread, and which the model keeps:

- `is_wall_between` examines its start cell and never its end cell. It is therefore not
  symmetric: a wall next to an open cell blocks the view from the wall and not the view
  back (`LineOfSight.SightNotSymmetric`).
- The fourth map of the second hider is a search from the hider's own cell, not the
  seeker's. Its score is inverted, so a cell nearer the hider scores higher.
- Scores are scaled against the range from 0 to the largest value of the whole map. The
  range is not the smallest to largest value over the candidates. When the wall map or
  the distance map holds `inf`, every total is NaN and the pick is the first candidate in
  grid order.
- A candidate of the second hider must be unseen and not a wall, and the walk from the
  cells beside the seeker's view must reach it.
- The blind-spot sizing groups the cells whose distance to the hider is not `-inf`.
- When no candidate exists, the second hider keeps its target. There is no random
  fallback.
- The second hider's `best_location` is assigned only in `think`, so on the first turn
  reading it fails unless the seeker sees the hider's cell, which short-circuits the test.
  `HiderB.Think` reports this as the outcome `Raised`, as it does for a hider off the grid,
  whose cell is None.

## Model

| member | source | states |
|---|---|---|
| GridNode.NewNode | models/grid_node.py:5-12 | a new cell has the given coordinates and wall flag, reset search state, both seen flags true and no stench |
| GridNode.Node.ResetPathData | models/grid_node.py:14-19 | g becomes 99999, h becomes 0 and came_from none; coordinates, wall and visibility flags are kept |
| GridNode.Node.FScore | models/grid_node.py:21-22 | a cell with reset search state has f-score 99999 |
| GridNode.SameCellIsSamePosition | models/grid_node.py:24-37 | two cells are equal exactly when their positions are equal |
| GridNode.SameCellHashesEqual | models/grid_node.py:34-41 | equal cells hash alike, and equality survives a reset and any change of wall or seen flags |
| GridNode.LessIsStrictOrder | models/grid_node.py:29-30 | `<` on f-scores is irreflexive, transitive and asymmetric, and cells with equal f-scores compare alike |
| GridModel.NewGrid | models/grid.py:10-20 | a grid of the given size whose cell at (x, y) is a fresh non-wall cell with those coordinates |
| GridModel.AllPositions | models/grid.py:25-26 | the flattened list holds exactly the in-bounds cells |
| GridModel.AllPositionsLength | models/grid.py:25-26 | the flattened list has size times size entries |
| GridModel.AllPositionsDistinct | models/grid.py:25-26 | no cell appears twice in the flattened list |
| GridModel.CellCount | models/grid.py:10-26 | a grid has size times size cells |
| GridModel.GetNode | models/grid.py:55-63 | None exactly when a coordinate is outside [0, size); otherwise the cell stored at (x, y), whose fields are x and y |
| GridModel.ToggleWall | models/grid.py:68-73 | out of bounds: false and the grid unchanged; in bounds: true, that cell's wall flag flipped, every other cell unchanged |
| GridModel.ToggleTwiceRestores | models/grid.py:68-73 | toggling one in-bounds cell twice succeeds both times and gives back the original grid |
| GridModel.Clear | models/grid.py:107-110 | every cell becomes a non-wall and nothing else about it changes |
| GridModel.Neighbors | models/grid.py:77-98 | at most 8 cells, and q is listed exactly when it is an in-bounds king neighbour that passes the wall and corner tests |
| GridModel.NeighborsAreAdjacent | models/grid.py:80-88 | every listed cell is in bounds, at king distance 1 and not the cell itself; without wall_ok no listed cell is a wall |
| GridModel.CornerRule | models/grid.py:89-96 | a diagonal cell whose two flanking orthogonal cells are walls is never listed, whatever wall_ok is |
| GridModel.WallOkWidens | models/grid.py:87-88 | wall_ok only adds wall cells to the neighbours |
| GridModel.NeighborSymmetric | models/grid.py:77-98 | between two non-wall cells (any cells under wall_ok) the neighbour relation is symmetric |
| GridModel.ClearedNeighbors | models/grid.py:77-110 | on a cleared grid the neighbours are exactly the in-bounds cells at king distance 1 |
| Extended.Min | core/hider_b.py:63 | Python `min` on distances tagged `inf` and `-inf`: a lower bound of both arguments that is one of them |
| Paths.LabelsAreDistances | core/hider_a.py:41-58 | a labelling where sources are 0, each finite label is backed by a neighbour one lower, and every neighbour of a labelled cell is labelled, gives the hop distances |
| Paths.DistanceOfUnion | core/hider_b.py:54-63 | the smaller of the distances from a set S and from one more cell s is the distance from S plus s |
| LineOfSight.AdvanceKeepsTrack | models/grid.py:45-51 | one loop iteration keeps the walk on the line, moves it one king step and strictly shortens what remains, so the loop ends |
| LineOfSight.Line | models/grid.py:36-51 | the cells the walk examines: empty when the ends coincide, else it starts at pos0, moves by king steps, excludes pos1, ends beside it and has at least king-distance many cells |
| LineOfSight.IsWallBetween | models/grid.py:30-52 | true exactly when a wall lies on the line from pos0 up to but excluding pos1; false between a cell and itself; true from a wall to any other cell |
| LineOfSight.AdjacentLine | models/grid.py:36-51 | between king neighbours the walk examines only its start cell |
| LineOfSight.SightNotSymmetric | models/grid.py:41-52 | from a wall to an adjacent open cell there is a wall between, and from that cell back to the wall there is none |
| Visibility.UpdateVisibility | ui/app.py:135-142 | each cell is seen by the seeker (or hider) exactly when no wall lies on the line from it to that agent's cell; nothing but the two flags changes |
| Visibility.OwnCellSeen | ui/app.py:138-142 | each agent's own in-bounds cell is seen by that agent |
| Visibility.WallCellsUnseen | ui/app.py:141 | every wall other than the seeker's cell is unseen by the seeker |
| Visibility.ClearedGridAllSeen | ui/app.py:135-142 | on a grid without walls both agents see every cell |
| Visibility.UpdateVisibilityIdempotent | ui/app.py:135-142 | running the pass twice from the same cells equals running it once |
| Pathfinder.Heuristic | core/pathfinder.py:29-32 | Manhattan distance: zero exactly at the goal and never below the king distance |
| Pathfinder.HeuristicStep | core/pathfinder.py:29-32 | one king step changes the heuristic by at most 2, so with unit diagonal moves it may overestimate |
| Pathfinder.ResetPathData | core/pathfinder.py:19-25 | every cell gets reset search state with everything else kept, and path, visited and frontier become empty |
| Pathfinder.ResetIdempotent | core/pathfinder.py:19-25 | resetting a reset grid changes nothing |
| Pathfinder.Initial | core/pathfinder.py:49-60 | the search starts with only start open, start at g 0, every other cell at 99999 and no came_from links |
| Pathfinder.RelaxOne | core/pathfinder.py:77-88 | after considering one neighbour its g is at most g(current) + 1, the scratch state stays consistent and no g rises |
| Pathfinder.Relax | core/pathfinder.py:75-88 | after the neighbour loop every non-wall neighbour of the current cell has g at most g(current) + 1 |
| Pathfinder.Reconstruct | core/pathfinder.py:66-74 | following came_from back from the goal and reversing gives a path from start to the goal whose consecutive cells are neighbours |
| Pathfinder.Expand | core/pathfinder.py:61-88 | expanding a non-goal open cell marks it visited and lowers the pair (sum of g-scores, size of the open set) |
| Pathfinder.ExhaustedUnreachable | core/pathfinder.py:61-89 | once the open set is empty without reaching the goal, no walk over non-wall cells leads from start to goal, on a grid of at most 99999 cells |
| Pathfinder.Explore | core/pathfinder.py:49-89 | a non-empty result runs from start to goal by neighbour steps and the goal was visited; start equal to goal gives `[start]`; on a grid of at most 99999 cells the result is empty only when no walk over non-wall cells reaches the goal |
| Pathfinder.FindPath | core/pathfinder.py:37-89 | [] with nothing visited when start or goal is out of bounds or the goal is a wall; otherwise a non-empty result runs from start to goal by non-wall neighbour steps, and on a grid of at most 99999 cells a path is found whenever the goal is reachable |
| Npc.CentreInCell | core/npc.py:61-63 | the centre (x + 0.5, y + 0.5) of a cell lies in that cell |
| Npc.ToWaypoints | core/npc.py:61-63 | one waypoint per path cell, in order, each inside its cell |
| Npc.Follow | core/npc.py:63-69 | the new waypoints replace the old; a non-empty path resets the index to 0 and reports true, an empty one reports false and keeps the index |
| Npc.UpdatePath | core/npc.py:52-69 | no target: empty path and index 0; otherwise the path from the agent's cell to the target by neighbour steps, true exactly when it is non-empty; on a grid of at most 99999 cells it is true whenever the target is a non-wall cell reachable through non-wall cells |
| Npc.SetTarget | core/npc.py:35-44 | accepted exactly for an in-bounds non-wall cell; a refusal changes nothing; on acceptance the target is the cell and the path is recomputed, and on a grid of at most 99999 cells it is non-empty whenever the cell is reachable through non-wall cells |
| HiderA.SeenCells | core/hider_a.py:37-40 | the sources are exactly the in-bounds cells the seeker sees, walls included |
| HiderA.InitialLayer | core/hider_a.py:32-40 | seen cells at 0 and in the queue, every other cell `inf` |
| HiderA.StartSearch | core/hider_a.py:28-45 | the search state before the loop: the seen cells are labelled 0 and every other cell `inf`, the first layer is queued and closed by a marker, and the next layer is 1 |
| HiderA.MarkerTurn | core/hider_a.py:49-53 | taking a marker raises the layer by one and re-queues the marker behind the rest, unless the queue is then empty; the queue's rank falls |
| HiderA.Visit | core/hider_a.py:55-58 | after a cell's neighbours are visited, every neighbour is labelled at most one more than it |
| HiderA.CellTurn | core/hider_a.py:54-58 | taking a cell labels its `inf` neighbours with the next layer and keeps the search state; finite labels never change, the rest of the queue stays in front and every cell it appends carries the current layer; the count of unlabelled cells or the queue rank falls |
| HiderA.LayeredBfs | core/hider_a.py:41-58 | every cell ends labelled with its hop distance from the seen cells, or `inf` when none reaches it |
| HiderA.ShadowDepths | core/hider_a.py:24-58 | hop distances from the seen cells through non-wall cells; seen cells at 0; unseen walls at `inf` |
| HiderA.WallDistances | core/hider_a.py:64-88 | hop distances from the seen cells with walls crossable; seen cells at 0 |
| HiderA.UnseenWallUnreached | core/hider_a.py:55 | an unseen wall is never reached when walls may not be entered |
| HiderA.WallDistanceAtMostShadowDepth | core/hider_a.py:72-88 | a cell's wall distance is at most its shadow depth |
| HiderA.MaxShadowDepth | core/hider_a.py:100-105 | the largest finite depth, or 0 when there is none |
| HiderA.InsertStable | core/hider_a.py:150 | inserting a cell puts it before every cell of equal score already there and keeps their order |
| HiderA.SortByScore | core/hider_a.py:150 | a permutation of the candidates in ascending score order that keeps the order of equal scores (Python's sort is stable) |
| HiderA.FirstLowest | core/hider_a.py:150-153 | the earliest of the lowest-scored entries: one of them, scoring no more than any |
| HiderA.SortHeadIsFirstLowest | core/hider_a.py:150-153 | the stable sort puts the earliest lowest-scored candidate first |
| HiderA.FirstLowestComesFirst | core/hider_a.py:121-153 | in grid order, every non-wall cell before the earliest lowest-scored one scores strictly more |
| HiderA.Candidates | core/hider_a.py:121-125 | exactly the non-wall cells, in grid order |
| HiderA.ChooseTarget | core/hider_a.py:148-153 | the first candidate by ascending score that set_target accepts: a lowest-scored non-wall cell, and every non-wall cell before it in grid order scores strictly more; the agent pursues it as `set_target` leaves it (a non-empty path at index 0 from the agent's cell to it by non-wall neighbour steps, non-empty whenever it is reachable on a grid of at most 99999 cells); none (and nothing changes) exactly on a grid of walls |
| HiderBMaps.PossibleLocations | core/hider_b.py:34-39 | 0 exactly on the unseen non-wall cells, `-inf` on every other cell |
| HiderBMaps.AnyAnchor | core/hider_b.py:46-48 | Python `any` over the neighbours: true exactly when one of them is a wall (or an open seen cell) |
| HiderBMaps.StartingPoints | core/hider_b.py:43-49 | exactly the hiding cells with a wall among their neighbours (or an open seen cell, for the shadow map) |
| HiderBMaps.Expand | core/hider_b.py:64-66 | every hiding neighbour not yet popped is queued with one more hop |
| HiderBMaps.WalkTurn | core/hider_b.py:58-66 | one turn of a walk keeps the walk's invariant, and the unpopped hiding cells or the queue shrink |
| HiderBMaps.SourceWalk | core/hider_b.py:54-66 | one walk pops each hiding cell reachable from its start once, with its hop distance through hiding cells |
| HiderBMaps.MergeKeeps | core/hider_b.py:54-63 | folding in one more walk gives the distances from one more starting point |
| HiderBMaps.AnchorDistances | core/hider_b.py:50-66 | `-inf` off hiding cells; on them the hop distance through hiding cells to the nearest starting point, `inf` if none reachable |
| HiderBMaps.WallDistances | core/hider_b.py:41-66 | as above, from the hiding cells next to a wall |
| HiderBMaps.ShadowDistances | core/hider_b.py:74-103 | finite on the hiding cells reachable from one beside an open seen cell, as their hop distance; `-inf` elsewhere; never `inf` |
| HiderBDist.DijkstraStart | core/hider_b.py:113-118 | every cell at `inf` but the start at 0, whose entry is queued |
| HiderBDist.RelaxAll | core/hider_b.py:123-126 | relaxing the neighbours keeps the search state, and the labels either stay or fall |
| HiderBDist.Settle | core/hider_b.py:119-126 | a stale entry is dropped; a current one relaxes its neighbours; the search state is kept |
| HiderBDist.Dijkstra | core/hider_b.py:112-126 | every cell ends with its hop distance from the hider's cell through non-wall cells, or `inf` |
| HiderBDist.DistToMe | core/hider_b.py:111-131 | not `-inf` exactly on hiding cells whose shadow distance is not `-inf`, and there the hop distance from the hider |
| HiderBSizes.OpenCells | core/hider_b.py:140 | the cells the sizing covers: those whose distance to the hider is not `-inf` |
| HiderBSizes.PushFree | core/hider_b.py:150-152 | the queue grows by exactly the unmarked non-wall neighbours, with none missed |
| HiderBSizes.Flood | core/hider_b.py:143-152 | the cells flooded from a node are exactly its component among the unmarked cells |
| HiderBSizes.FloodIsComponent | core/hider_b.py:140-152 | a flood among the cells not yet sized finds the whole blind spot of the node |
| HiderBSizes.BlindSpotSizes | core/hider_b.py:139-155 | a size of at least 1 exactly for the covered cells; on floor cells it is the size of the cell's blind spot |
| HiderBSizes.SizeSharedInComponent | core/hider_b.py:139-155 | cells of one blind spot get one size |
| Scoring.ScaleIsMul | core/hider_b.py:198 | multiplying by a positive weight is IEEE multiplication by that number |
| Scoring.LessTransitive | core/hider_b.py:231 | float `<` is transitive |
| Scoring.LessTotal | core/hider_b.py:231 | two non-NaN floats are equal or ordered |
| Scoring.LessIrreflexive | core/hider_b.py:231 | no float is less than itself |
| Scoring.ScoreInUnit | core/hider_b.py:163-167 | a finite value inside a finite range scores in [0, 1], and 0 when the range has width 0 |
| Scoring.InvertInRangeStays | core/hider_b.py:169-171 | reflection is hi - (v - lo) and maps a finite range into itself |
| Scoring.InvertInvolution | core/hider_b.py:169-171 | reflecting twice gives back the value |
| Scoring.InfiniteRangeScoreNaN | core/hider_b.py:163-167 | against an infinite upper end an infinite or NaN value scores NaN |
| Scoring.InfiniteRangeScoreZero | core/hider_b.py:163-167 | against an infinite upper end a number scores 0 |
| Scoring.InfiniteRangeInvert | core/hider_b.py:169-171 | against an infinite upper end a number reflects to `inf` and `inf` reflects to NaN |
| HiderBBest.MaxOf | core/hider_b.py:187 | the largest value the map holds for the listed cells, one of them, or None when it holds none |
| HiderBBest.Largest | core/hider_b.py:187 | `max(values or [0])`: an upper bound of the values that is one of them, or 0 for no values |
| HiderBBest.ClosenessValue | core/hider_b.py:190-198 | a finite value where smaller is better scores (hi - v) / hi, or 0 when hi is 0 |
| HiderBBest.FarnessValue | core/hider_b.py:204-208 | a finite value where larger is better scores v / hi, or 0 when hi is 0 |
| HiderBBest.CombineFinite | core/hider_b.py:175-230 | finite scores combine to 30a + 20b + 40c + 10e |
| HiderBBest.TotalValue | core/hider_b.py:186-230 | finite values against finite ranges give a finite total equal to the weighted real sum |
| HiderBBest.FarScoreUnit | core/hider_b.py:163-167 | a value in [0, hi] scores in [0, 1] |
| HiderBBest.FarScoreOrder | core/hider_b.py:163-167 | against a positive upper end a larger value scores strictly more |
| HiderBBest.TotalBounds | core/hider_b.py:175-230 | values within their ranges give a total in [0, 100] |
| HiderBBest.NearerWallBetter | core/hider_b.py:187-198 | with a positive largest wall distance, nearer a wall scores strictly higher |
| HiderBBest.FartherFromViewBetter | core/hider_b.py:201-208 | with a positive largest shadow distance, deeper in shadow scores strictly higher |
| HiderBBest.NearerHiderBetter | core/hider_b.py:210-221 | with a positive largest distance, nearer the hider scores strictly higher |
| HiderBBest.LargerSpotBetter | core/hider_b.py:223-230 | with a positive largest size, a larger blind spot scores strictly higher |
| HiderBBest.InfiniteRangePoisons | core/hider_b.py:187-221 | `inf` as the upper end of the wall or hider distances makes every total NaN |
| HiderBBest.Candidates | core/hider_b.py:182 | the cells whose shadow distance is not `-inf`, in grid order |
| HiderBBest.Totals | core/hider_b.py:186-230 | one total per candidate, in order |
| HiderBBest.TotalsPoisoned | core/hider_b.py:186-230 | against poisoned ranges every total is NaN |
| HiderBBest.ArgMax | core/hider_b.py:231 | `max` by key: no later total is greater, a NaN first total is kept, and without NaN the first highest total |
| HiderBBest.Pick | core/hider_b.py:184-231 | None exactly for no candidates; otherwise the key `max` picks, the first key when its total is NaN |
| HiderBBest.CandidateTotalNumber | core/hider_b.py:186-230 | with the values the passes produce and no `inf` range for the wall or hider distances, a candidate's total is a number |
| HiderBBest.UnpoisonedNoNaN | core/hider_b.py:186-230 | with those values, no total is NaN unless the wall or hider distances hold `inf` |
| HiderBBest.DetermineBestLocation | core/hider_b.py:173-231 | None exactly when no cell has a shadow distance other than `-inf`; otherwise such a cell that `max` picks from the totals: the first candidate when a range is `inf`, and otherwise, with the values the passes produce, the candidate with the first highest total |
| HiderB.MapsValued | core/hider_b.py:173-259 | the maps the passes leave have every key the scoring reads, and no value that makes a total NaN other than an `inf` range |
| HiderB.BuildMaps | core/hider_b.py:238-259 | the passes, from empty maps, leave the wall distances, shadow distances that are `-inf` exactly off the cells worth hiding in, the distances to the hider on those cells, and their blind-spot sizes |
| HiderB.PickCandidate | core/hider_b.py:173-231 | the pick is the first highest total, or the first candidate when a range is `inf`; it exists exactly when some cell is worth hiding in, and is such a cell |
| HiderB.Think | core/hider_b.py:238-265 | a hider off the grid, or on its first turn on a cell the seeker does not see (`best_location` is set nowhere before), fails; unseen on the last pick, it stays; otherwise the maps are rebuilt and the best cell becomes the new memory and the target, pursued as `set_target` leaves it (path from the hider's cell to it by non-wall neighbour steps, non-empty whenever reachable on a grid of at most 99999 cells), with nothing changed when no cell is worth hiding in |

## Left out

- Drawing, the GUI, events, the screen conversions and the thought texts (`emit_thought`) are display only. So are the debug code after each `return`, the `print` in `determine_best_location`, and the debug lists `reset_mind` empties. `reset_mind` is modelled by every pass starting from empty maps.
- Motion along the path, the think timer and `models/vector.py` are floating-point motion. Each agent's grid cell is taken as an input.
- The first hider's score formula is a parameter `score: Pos -> real`. It uses a Euclidean distance, which is floating point.
- `extra_costs` is fixed at zero. No caller passes it.
- Python's heap order in A* and in Dijkstra is not modelled. Any open cell may be expanded next, and any queued entry taken. The A* heap is given nodes whose g-score later changes in place, so its order is not a priority order anyway.
- Pathfinder.FindPath: does not state that the path is shortest, since the heuristic may overestimate. That a path is found whenever the goal is reachable is stated only for grids of at most 99999 cells, where no g-score can reach the 99999 of an unreached cell.
- Pathfinder.Explore: completeness is stated only for grids of at most 99999 cells, as for FindPath.
- Npc.UpdatePath: that a reachable target gets a path is stated only for grids of at most 99999 cells, as for FindPath.
- Npc.SetTarget: likewise only for grids of at most 99999 cells.
- The pathfinder's scratch state is a map local to one search, not written back onto the cells. `visited` and `frontier` are returned in a `Search` value.
- Floats are exact reals. Rounding and the sign of zero are not modelled.
- `Scoring.Div` requires a divisor other than 0. Python would raise on one, and its one caller tests the width first.
- HiderBBest.DetermineBestLocation: for arbitrary maps the pick is a highest total only when no total is NaN; with NaN present it is a key `max` would return, which may not be a highest. For the maps the passes produce, NaN arises only from `inf` in the wall or hider distances, where the pick is the first candidate (UnpoisonedNoNaN, TotalsPoisoned).
- HiderBSizes.BlindSpotSizes: the size is stated as the blind-spot size only when the covered cells are floor cells, as they are for the map the hider builds.
- The iteration order of the sets and dicts in `create_wall_distances`, `create_shadow_distances` and `create_blind_spot_shadow_size` (the starting points, `tempseen`) is not modelled. The results do not depend on it.
- The second hider's test for the early exit compares the hider's cell with the last pick and does not check whether that cell is still worth hiding in, as `think` does not.
- `core/seeker_npc.py`, `core/seeker.py`, `constants.py`, the simulation managers and `level_manager.py` are not part of this model.
