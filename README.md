# Grid pathfinder and unit controller, modelled in Dafny

This project models the discrete core of a Unity grid pathfinder in Dafny, and proves what that core promises. It has three parts.

- **The walkability grid** (`GridMap`, `Node`). `Build` sizes the grid to the world size divided by the cell size, rounded to the nearest integer. It places the origin at the grid's position shifted by minus half the world size on x and on z, and fills every cell with a node that holds the cell's coordinates, its centre and whether the obstacle test left it free. Lookups by cell coordinates return null outside the grid. `WorldToCell` floors a world position to a cell and reports whether that cell is inside the grid.
- **The A\* search** (`Pathfinder`).
  - The search runs over 4- or 8-neighbour moves. On a diagonal, a move may not squeeze past a blocked corner, and cells other units occupy are refused.
  - Moves cost 10 straight and 14 diagonal, plus a penalty for nearby units. The heuristic is the octile distance.
  - Each pass takes the open cell with the least F, breaking ties on the least H and then on the earliest position in the list.
  - A neighbour is relaxed only when it is new or strictly cheaper.
  - When the target is closed, the route is read back along the parent links. It is then thinned to the cells where the direction of travel changes.
- **The unit controller** (`UnitController`). It holds a target, the path to it and the index of the next waypoint. It advances past waypoints within reach, and drops the target on arrival or when no path exists. A stuck watchdog rebuilds the path when the unit has barely moved, at most once per cooldown.

Modules, one per file: `Geometry` (geometry.dfy), `Grid` (grid_map.dfy), `Costs` (costs.dfy), `Trace` (trace.dfy), `AStar` (astar.dfy), `Agent` (agent.dfy).

**Numbers and physics.**
- Floating-point numbers are modelled as reals. `Mathf.RoundToInt` is rounding half to even.
- The physics queries are parameters. The obstacle box test is a function `blocked` given to `Build`. The unit overlap query and `Vector3.Distance` are a `UnitQuery`.

**How the search keeps its state.**
- The search keeps G, H and the parent links in maps local to one search (`Scratch`), keyed by cell, rather than in the nodes' fields. This matches the code: every cell the search touches has all three written before they are read, since the start and the target are reset, and a cell entering the open list gets a parent, a G and an H.
- The grid is read through a ghost snapshot (`GridView`): its dimensions, its walkable cells, its origin and its cell size. `Matches` ties the snapshot to the grid's nodes.
- The main loop is split into methods that follow the code's own blocks:
  - `Explore`: the `while` loop;
  - `Round`: one pass;
  - `CloseBest`: the scan and the move to the closed set;
  - `Finish`: the target branch;
  - `Expand`, `VisitNeighbour` and `CheckNeighbour`: the `foreach` over the neighbours and its skip tests.

**Behaviour of the code that a reader might not expect.** The model follows the code in each case.
- *A straight route keeps three waypoints, not two.* The step before the first node counts as zero, so the second node always differs from it and is kept. `Trace.StraightRouteKeepsThree` proves this. One might expect only the start-adjacent cell and the target.
- *The simplifier keeps the node after a turn, not the corner.* A node is kept when its own step differs from the step before it. `Trace.DroppedRunIsStraight` proves that the nodes dropped after a kept node continue in one straight line from it.
- *A search whose start and target are the same cell reports no path.* It does not return a one-waypoint path.
- *The start cell's walkability is never checked.* Only the target's is.
- *Arrival is checked against the original target,* not against the last waypoint.
- *A corner cell outside the grid does not block a diagonal move.* Only a corner inside the grid that is not walkable does (Pathfinder.cs:83); `BlocksCorner` and `Legal` follow this.

## Model

| member | source | states |
|---|---|---|
| Geometry.RoundToInt | Assets/Scripts/Pathfind/GridMap.cs:18-19 | the result is within one half of its argument, and on an exact half it is even |
| Geometry.Clamp01 | Assets/Scripts/Pathfind/Pathfinder.cs:138 | the result lies in [0, 1] and equals its argument when that is already in [0, 1] |
| Grid.Node.constructor | Assets/Scripts/Pathfind/GridMap.cs:90-93 | the node holds the given coordinates, centre and walkability, with G, H and Parent at their defaults |
| Grid.Node.ResetPath | Assets/Scripts/Pathfind/GridMap.cs:87-98 | G, H and Parent are cleared, so F (G + H) is 0; coordinates, centre and walkability are constants and stay |
| Grid.GridMap.constructor | Assets/Scripts/Pathfind/GridMap.cs:6-14 | before the first build the grid has the given world and cell size and no cells, and is valid |
| Grid.GridMap.Build | Assets/Scripts/Pathfind/GridMap.cs:16-39 | sizes are the rounded world-to-cell ratios; the origin is the position minus half the world size on x and z; every cell holds a node with its own coordinates and centre, walkable exactly when the obstacle test at the centre, with half-extents 0.45 cell, 0.5, 0.45 cell, reports nothing |
| Grid.GridMap.GetNode | Assets/Scripts/Pathfind/GridMap.cs:41-45 | null exactly when a coordinate is negative or past the size; otherwise the stored node, with those coordinates and centre |
| Grid.GridMap.WorldToCell | Assets/Scripts/Pathfind/GridMap.cs:47-53 | the cell's square contains the position on x and z (floor of the offset over the cell size), and the flag is true exactly when the cell is inside the grid |
| Grid.GridMap.CellToWorldCenter | Assets/Scripts/Pathfind/GridMap.cs:55-58 | the centre lies at the origin's height, strictly inside the cell's square on x and z |
| Grid.WorldToCellOfCenter | Assets/Scripts/Pathfind/GridMap.cs:47-58 | round trip: the centre of any cell converts back to that cell, flagged valid exactly when the cell is inside the grid |
| Grid.CellCount | Assets/Scripts/Pathfind/GridMap.cs:23-26 | a grid of w by h cells has w * h distinct cells |
| Costs.Heuristic | Assets/Scripts/Pathfind/Pathfinder.cs:145-152 | the octile distance 14 min + 10 abs(dx - dy) equals 10 max + 4 min of the axis gaps, and is never negative |
| Costs.BaseCost | Assets/Scripts/Pathfind/Pathfinder.cs:156-157 | a move's base cost is 10 or 14, and 14 exactly when both coordinates change |
| Costs.HeuristicSymmetric | Assets/Scripts/Pathfind/Pathfinder.cs:145-152 | the heuristic does not depend on the order of its cells |
| Costs.HeuristicZeroIff | Assets/Scripts/Pathfind/Pathfinder.cs:145-152 | the heuristic is zero exactly when the cells coincide |
| Costs.HeuristicConsistent | Assets/Scripts/Pathfind/Pathfinder.cs:145-161 | one king move lowers the heuristic to any target by at most that move's base cost |
| Costs.HeuristicAdmissible | Assets/Scripts/Pathfind/Pathfinder.cs:145-161 | the heuristic never exceeds the summed base cost of any walk of king moves to the target |
| Costs.Hits | Assets/Scripts/Pathfind/Pathfinder.cs:110-125 | the overlap query reports a prefix of the colliders in range, at most 32 of them, and all of them when fewer than 32 |
| Costs.Falloff | Assets/Scripts/Pathfind/Pathfinder.cs:137-138 | the falloff of a unit's distance is in [0, 1] |
| Costs.Contribution | Assets/Scripts/Pathfind/Pathfinder.cs:137-139 | one other unit adds between 0 and the penalty setting, and nothing when at or beyond the influence radius |
| Costs.ContributionAntitone | Assets/Scripts/Pathfind/Pathfinder.cs:137-139 | a farther unit never adds more than a nearer one |
| Costs.PenaltyPrefixBounds | Assets/Scripts/Pathfind/Pathfinder.cs:131-140 | the first n hits add between 0 and n times the penalty setting |
| Costs.UnitPenaltyBounds | Assets/Scripts/Pathfind/Pathfinder.cs:123-143 | a cell's unit penalty is between 0 and 32 times the penalty setting |
| Costs.UnitPenaltyAlone | Assets/Scripts/Pathfind/Pathfinder.cs:126-135 | when every collider in range is the searching unit itself, the penalty is 0 |
| Trace.Reverse | Assets/Scripts/Pathfind/Pathfinder.cs:174 | the result has the same length, and element i is element n-1-i of the input |
| Trace.Retrace | Assets/Scripts/Pathfind/Pathfinder.cs:165-174 | walking parent links back from the target and reversing gives a chain of parent links out of the start, ending at the target, never visiting a cell twice and not containing the start; empty when the target is the start |
| Trace.ReversedWalk | Assets/Scripts/Pathfind/Pathfinder.cs:168-174 | the reversed walk, ranked strictly by closing order, is a duplicate-free chain of parent links from the start to the target |
| Trace.Simplify | Assets/Scripts/Pathfind/Pathfinder.cs:176-193 | the loop keeps exactly the nodes `Keep` accepts (the first, the last, and each whose step differs from the step before it), in order |
| Trace.KeptIsSubsequence | Assets/Scripts/Pathfind/Pathfinder.cs:179-193 | the kept nodes are the route's nodes at strictly increasing indices, and an index is among them exactly when `Keep` accepts it |
| Trace.KeptEnds | Assets/Scripts/Pathfind/Pathfinder.cs:181-188 | a non-empty route keeps its first and its last node |
| Trace.DroppedRunIsStraight | Assets/Scripts/Pathfind/Pathfinder.cs:183-190 | nodes dropped after a kept node lie a whole number of equal steps past it |
| Trace.StraightRouteKeepsThree | Assets/Scripts/Pathfind/Pathfinder.cs:179-190 | a straight route of three or more nodes keeps exactly the first, the second and the last |
| AStar.ViewAgrees | Assets/Scripts/Pathfind/GridMap.cs:41-58 | the grid's snapshot calls a cell walkable exactly when it is inside the grid and its node is walkable, and places centres where the grid does |
| AStar.Centers | Assets/Scripts/Pathfind/Pathfinder.cs:188 | one waypoint per kept cell, each the centre of its cell |
| AStar.InitKeepsInv | Assets/Scripts/Pathfind/Pathfinder.cs:42-50 | the open list holding only the start at G 0 and H 0 satisfies the search invariant |
| AStar.CloseKeepsInv | Assets/Scripts/Pathfind/Pathfinder.cs:62-64 | moving an open cell to the closed set, numbered after every closed cell, keeps the search invariant |
| AStar.RelaxKeepsInv | Assets/Scripts/Pathfind/Pathfinder.cs:92-103 | relaxing a legal neighbour that is new or strictly cheaper keeps the invariant: the parent is closed earlier, the move is legal, and G is the parent's G plus the move's cost |
| AStar.VisitKeepsInv | Assets/Scripts/Pathfind/Pathfinder.cs:74-104 | one pass of the neighbour loop keeps the invariant, leaves the closed set alone, only adds to the open list and only lowers G |
| AStar.VisitAllKeepsInv | Assets/Scripts/Pathfind/Pathfinder.cs:74-104 | the whole neighbour loop keeps the invariant and makes only such progress, every changed parent being the cell just closed |
| AStar.InvGivesTree | Assets/Scripts/Pathfind/Pathfinder.cs:92-96 | under the invariant the parent links form a tree rooted at the start, each parent closed before its child |
| AStar.LinkedRouteIsLegal | Assets/Scripts/Pathfind/Pathfinder.cs:76-88 | a route read back along parent links is made only of moves the neighbour loop admits |
| AStar.InvGivesCostLinks | Assets/Scripts/Pathfind/Pathfinder.cs:90-96 | every cell with a parent has G equal to its parent's G plus the cost of the move between them |
| AStar.LinkedRouteCost | Assets/Scripts/Pathfind/Pathfinder.cs:90-96 | the G of each cell on a route read back along parent links is the summed move cost of the route up to it |
| AStar.Legal | Assets/Scripts/Pathfind/Pathfinder.cs:72-88 | a move the neighbour loop admits is a king move (each coordinate changes by at most one, not both by zero) onto a walkable cell |
| AStar.VisitAllCovers | Assets/Scripts/Pathfind/Pathfinder.cs:72-104 | the first n passes of the neighbour loop keep the closed set, only add to the open list, and leave each legal neighbour among the first n offsets open or closed |
| AStar.NeighbourLoopCovers | Assets/Scripts/Pathfind/Pathfinder.cs:72-104 | after the whole neighbour loop, every cell the current cell may legally move to is open or closed |
| AStar.RoundKeepsClosure | Assets/Scripts/Pathfind/Pathfinder.cs:54-104 | one pass keeps the closure: every legal move out of a closed cell other than the target leads to an open or closed cell |
| AStar.RouteStaysClosed | Assets/Scripts/Pathfind/Pathfinder.cs:52-107 | with nothing open, the start closed, the target not closed and the closure holding, every cell of a legal route is closed |
| AStar.ExhaustedUnreachable | Assets/Scripts/Pathfind/Pathfinder.cs:52-107 | a search that empties the open list without closing the target proves that no legal route reaches the target |
| AStar.LegalRouteIsKingWalk | Assets/Scripts/Pathfind/Pathfinder.cs:17-26 | a legal route out of the start is a walk of king moves |
| AStar.RouteCostCoversWalk | Assets/Scripts/Pathfind/Pathfinder.cs:154-161 | a route's cost is at least the summed base cost of its moves |
| AStar.HeuristicBelowRouteCost | Assets/Scripts/Pathfind/Pathfinder.cs:145-161 | the heuristic from the start to a route's end never exceeds the route's cost |
| AStar.ClosingCounts | Assets/Scripts/Pathfind/Pathfinder.cs:62-64 | the cell taken from the open list is not yet closed; closing it grows the closed set by one, stays within the cell count, and shrinks what is left to close |
| AStar.SelectBest | Assets/Scripts/Pathfind/Pathfinder.cs:54-60 | the chosen open cell has the least F, then the least H, and every cell before it in the list is strictly behind it |
| AStar.RetracedRouteFound | Assets/Scripts/Pathfind/Pathfinder.cs:66-69 | once the target is closed, the read-back route is a legal, duplicate-free route from the start to the target, costing the target's G, with the waypoints its kept cells' centres |
| AStar.Pathfinder.constructor | Assets/Scripts/Pathfind/Pathfinder.cs:6-13 | the pathfinder holds the given grid and settings |
| AStar.Pathfinder.WithDefaults | Assets/Scripts/Pathfind/Pathfinder.cs:6-13 | the inspector defaults: diagonals on, block radius 0.35, influence radius 1.2, penalty 60 |
| AStar.Pathfinder.IsCellOccupiedByUnit | Assets/Scripts/Pathfind/Pathfinder.cs:110-121 | true exactly when some reported collider within the block radius is not the searching unit |
| AStar.Pathfinder.UnitPenaltyAround | Assets/Scripts/Pathfind/Pathfinder.cs:123-143 | the loop sums the contributions of the other units in range, and the sum is between 0 and 32 times the penalty setting |
| AStar.Pathfinder.StepCost | Assets/Scripts/Pathfind/Pathfinder.cs:154-161 | 14 for a diagonal move and 10 otherwise, plus the unit penalty around the cell entered, so never below the base cost |
| AStar.Pathfinder.RetraceAndSimplify | Assets/Scripts/Pathfind/Pathfinder.cs:163-194 | the waypoints are the centres of the kept cells of the read-back route; empty exactly when the target is the start; otherwise they end at the target's centre |
| AStar.Pathfinder.TryFindPath | Assets/Scripts/Pathfind/Pathfinder.cs:28-108 | no grid, an endpoint outside the grid, or a blocked target gives no path and no search; the same cell gives no path; otherwise a path is found exactly when some legal route leads from the start cell to the target cell; a found path is a legal, duplicate-free route from the start cell to the target cell with its cost, thinned to waypoints at the kept cells' centres; the loop runs at most once per cell |
| AStar.Pathfinder.Search | Assets/Scripts/Pathfind/Pathfinder.cs:42-107 | a search from a cell inside the grid finds a path exactly when start and target differ and a legal route reaches the target; a found path is a found route as above; at most one pass per cell |
| AStar.Pathfinder.Explore | Assets/Scripts/Pathfind/Pathfinder.cs:52-105 | the loop keeps the search invariant and the closure; it reports reaching the target exactly when the target is closed, and otherwise stops with nothing open and the start closed; at most one pass per cell |
| AStar.Pathfinder.Round | Assets/Scripts/Pathfind/Pathfinder.cs:54-104 | one pass closes the open cell with the least F, then the least H, the earliest in the open list on a full tie; exactly that cell joins the closed set; the pass keeps the invariant and the closure, and shrinks what is left to close |
| AStar.Pathfinder.CloseBest | Assets/Scripts/Pathfind/Pathfinder.cs:54-64 | the closed cell is the open cell nothing open is ahead of, and every open cell before it in the list is strictly behind it (the earliest wins a full tie); it is removed from its place in the open list, the rest keeping their order, and joins the closed set; nothing else changes |
| AStar.Pathfinder.Finish | Assets/Scripts/Pathfind/Pathfinder.cs:66-70 | with the target closed, a path is found exactly when the target is not the start, and a found path is a found route |
| AStar.Pathfinder.Expand | Assets/Scripts/Pathfind/Pathfinder.cs:72-104 | the scratch after the neighbour loop is the in-order fold of one pass per enabled neighbour offset |
| AStar.Pathfinder.VisitNeighbour | Assets/Scripts/Pathfind/Pathfinder.cs:76-103 | a neighbour that is not closed and may be entered is relaxed through the current cell exactly when it is not open or its new G is strictly lower; otherwise the scratch is unchanged |
| AStar.Pathfinder.CheckNeighbour | Assets/Scripts/Pathfind/Pathfinder.cs:76-88 | a node is returned exactly when the neighbour is inside the grid, walkable, not closed, not cutting a blocked corner on a diagonal and not occupied by another unit |
| Agent.PreferredSide | Assets/Scripts/UnitController.cs:49 | the side is +1 or -1, and +1 exactly when the instance id is even |
| Agent.LowBitIsParity | Assets/Scripts/UnitController.cs:49 | the low bit of an id's 32-bit two's-complement pattern is clear exactly when the id is even |
| Agent.UnitController.constructor | Assets/Scripts/UnitController.cs:32-53 | `Awake`: the side from the instance id, the last position sampled, timers at 0, no target and an empty path |
| Agent.UnitController.SetTarget | Assets/Scripts/UnitController.cs:63-68 | the target is stored and a path rebuilt from index 0; the target stays active exactly when a path was found, and that path is what the search returns; with no pathfinder, no grid, or a search that gives up, the path is empty and the target dropped; when a legal route exists otherwise, a path is set and the target stays active |
| Agent.UnitController.RebuildPath | Assets/Scripts/UnitController.cs:169-184 | the index is reset; with no pathfinder, no grid, or a search that gives up or fails, the path is empty and the target dropped; when the search may run and a legal route exists, the path is non-empty; a found path is the search's waypoints and the target flag is kept |
| Agent.UnitController.MoveAlongPath | Assets/Scripts/UnitController.cs:70-89 | with the path used up, the target is dropped exactly when the unit is within 0.3 of it; otherwise the index grows by one exactly when the next waypoint is within reach on the horizontal plane; the index never passes the path's end |
| Agent.UnitController.UpdateStuckAndReplan | Assets/Scripts/UnitController.cs:186-200 | the stuck timer adds up frame time until the check interval, then restarts and resamples the position; a replan happens exactly when the unit moved less than the minimum and the replan timer has run out, and then rearms that timer and rebuilds the path as `RebuildPath` does: no pathfinder, no grid or a refused search gives an empty path, a reachable target a non-empty one, and a non-empty path is a found route; two replans are at least the cooldown apart |
| Agent.UnitController.Update | Assets/Scripts/UnitController.cs:55-61 | the replan timer always runs down by the frame time; with no target nothing else changes; a replan rearms the timer and comes at least the cooldown after the previous one |

## Left out

- Steering: `ComputeSeparation`, `ComputeForwardAvoidance`, the velocity blend and clamp, and the rotation. This is floating-point vector numerics over physics queries (UnitController.cs:91-117 and 120-167). Where the unit ends up after steering is a parameter of `MoveAlongPath` and `Update`.
- `DrawPath`, the line renderer, `OnDrawGizmos`, `OnDrawGizmosSelected` and `SetSelected`: these are visualisation only.
- SelectManager.cs and GameBootstrap.cs are not part of this model. They are input handling and scene wiring.
- Unity physics. `Physics.CheckBox` is the `blocked` parameter of `Build`. `OverlapSphereNonAlloc` and `Vector3.Distance` are the `UnitQuery` oracle, which reports positions. Colliders that are null or destroyed, skipped by `if (!c)`, are not represented.
- `transform.position` and `Time.deltaTime` are parameters of the controller's methods. The instance id is a parameter of its constructor.
- Floating-point rounding: floats are reals. The arrival radius is compared as exactly 0.3 squared.
- A\* optimality is not proved: that a found route's cost is the least of all legal routes. The model proves legality of the route, its cost, the heuristic bounds, the selection rule, the iteration bound, and that a path is found exactly when the query is not refused, start and target differ, and a legal route exists.
- Configuration preconditions: `TryFindPath` requires a positive influence radius, since the penalty divides by it. The unit penalty setting is a `nat`; the source's `int` could be set negative in the inspector, which would let a step cost fall below its base cost and break the heuristic bounds. `Build` requires a positive cell size and non-negative rounded sizes. With other values the source divides by zero or allocates a negative-sized array.
- The nodes' own G, H and Parent fields are not written by the search; it keeps them in search-local maps. Their staleness between searches is therefore not modelled.
- `openSet` is not kept separately. It always mirrors membership in the `open` list, which the model uses directly.
- A failed `TryFindPath` leaves `waypoints` null on a refused query and an empty list when start and target share a cell; the model returns an empty sequence in both cases.
- Integer width: G, H and F sums, the rounded penalty, `SizeX * SizeY` and the cell coordinates are 32-bit `int`s in the source and unbounded integers here, so overflow on very large grids or costs is not modelled.
- `_pathfinder` being unset (Unity's destroyed-object test) is modelled as a null reference.
- Agent.UnitController.Update: with a target, the contract states the timers, the clock and the replan spacing. The path-following and watchdog effects are stated by `MoveAlongPath` and `UpdateStuckAndReplan`.
