/** The discrete part of a unit's movement controller: the target it
    heads for, the path of waypoints it follows, the index of the next
    waypoint, and the stuck watchdog that asks for a new path when the unit
    has barely moved. The steering that actually moves the unit is left to
    the caller, who says where the unit ended up. */
module Agent {
  import opened Geometry
  import opened Grid
  import opened Costs
  import opened AStar

  /** The inspector settings the discrete part reads. */
  datatype Tuning = Tuning(waypointReachRadius: real, stuckCheckInterval: real,
                           stuckMinMove: real, replanCooldown: real)

  /** The agent has arrived once it is within 0.3 of its target
      (`UnitController` compares squared magnitudes against 0.3 * 0.3). */
  const ArrivalRadius: real := 0.3

  /** The side a unit steers to when something is ahead of it: +1 when the
      low bit of its 32-bit instance id is clear, -1 otherwise. */
  function PreferredSide(id: int): (side: real)
    requires -0x8000_0000 <= id < 0x8000_0000
    ensures side == 1.0 || side == -1.0
    ensures side == 1.0 <==> id % 2 == 0
  {
    LowBitIsParity(id);
    if LowBit(id) == 0 then 1.0 else -1.0
  }

  /** `id & 1` on the id's 32-bit two's-complement pattern. */
  function LowBit(id: int): bv32
    requires -0x8000_0000 <= id < 0x8000_0000
  {
    ((if id < 0 then id + 0x1_0000_0000 else id) as bv32) & 1
  }

  /** The low bit of the pattern is the id's parity: the pattern of a
      negative id adds an even number to it. */
  lemma LowBitIsParity(id: int)
    requires -0x8000_0000 <= id < 0x8000_0000
    ensures LowBit(id) == 0 <==> id % 2 == 0
  {
    var n := if id < 0 then id + 0x1_0000_0000 else id;
    assert n % 2 == id % 2;
    var b := n as bv32;
    assert b & 1 == b % 2;
    assert (b % 2) as int == n % 2;
  }

  /** The path follower and stuck watchdog of one unit. `clock` adds up the
      frame times the controller has seen and `lastReplanAt` records the
      clock at the last replan the watchdog made, so that the spacing of
      watchdog replans can be stated. */
  class UnitController {
    const pathfinder: Pathfinder?
    const tuning: Tuning
    const preferredSide: real

    var stuckTimer: real
    var lastPos: Vec3
    var replanTimer: real

    var path: seq<Vec3>
    var pathIndex: int
    var hasTarget: bool
    var target: Vec3

    ghost var clock: real
    ghost var lastReplanAt: Option<real>

    /** The pathfinder, when there is one, can be asked for paths. */
    ghost predicate Ready()
      reads if pathfinder != null && pathfinder.grid != null then {pathfinder.grid} else {}
      reads if pathfinder != null && pathfinder.grid != null then {pathfinder.grid.nodes} else {}
    {
      pathfinder != null ==>
        0.0 < pathfinder.unitInfluenceRadius && (pathfinder.grid != null ==> pathfinder.grid.Valid())
    }

    /** The index never passes the end of the path, the side is a unit
        sign, and the replan timer has run down by exactly the time elapsed
        since the last watchdog replan set it. */
    ghost predicate Valid()
      reads this
    {
      0 <= pathIndex <= |path| &&
      (preferredSide == 1.0 || preferredSide == -1.0) &&
      (lastReplanAt.Some? ==> replanTimer == tuning.replanCooldown - (clock - lastReplanAt.value))
    }

    /** `Awake`: picks the preferred side from the instance id and samples
        the position for the stuck check; every other field starts at its
        default. */
    constructor (pathfinder: Pathfinder?, tuning: Tuning, instanceId: int, position: Vec3)
      requires -0x8000_0000 <= instanceId < 0x8000_0000
      ensures Valid()
      ensures this.pathfinder == pathfinder && this.tuning == tuning
      ensures preferredSide == PreferredSide(instanceId)
      ensures lastPos == position && stuckTimer == 0.0 && replanTimer == 0.0
      ensures path == [] && pathIndex == 0 && !hasTarget
      ensures clock == 0.0 && lastReplanAt == None
    {
      this.pathfinder := pathfinder;
      this.tuning := tuning;
      preferredSide := PreferredSide(instanceId);
      lastPos := position;
      stuckTimer, replanTimer := 0.0, 0.0;
      path, pathIndex, hasTarget := [], 0, false;
      target := Vec3(0.0, 0.0, 0.0);
      clock, lastReplanAt := 0.0, None;
    }

    /** Heads for `t` from `position`: stores the target, marks it active
        and asks for a path, which clears the target again if none exists. */
    method SetTarget(t: Vec3, position: Vec3, units: UnitQuery) returns (ghost route: seq<Cell>, ghost cost: int)
      requires Valid() && Ready()
      modifies this
      ensures Valid()
      ensures target == t && pathIndex == 0
      ensures hasTarget <==> path != []
      ensures path != [] ==> PathTo(position, t, units, route, cost)
      ensures pathfinder == null || pathfinder.grid == null || NoSearch(position, t) ==> path == [] && !hasTarget
      ensures pathfinder != null && pathfinder.grid != null && !NoSearch(position, t) && RouteExists(position, t, units)
              ==> path != [] && hasTarget
      ensures stuckTimer == old(stuckTimer) && lastPos == old(lastPos) && replanTimer == old(replanTimer)
      ensures clock == old(clock) && lastReplanAt == old(lastReplanAt)
    {
      target := t;
      hasTarget := true;
      route, cost := RebuildPath(position, units);
    }

    /** `path` is what the pathfinder delivers for a search from `position`
        to `t`: the centres of the simplified cells of a legal route between
        the two cells, ending at the target cell's centre. */
    ghost predicate PathTo(position: Vec3, t: Vec3, units: UnitQuery, route: seq<Cell>, cost: int)
      reads this
      reads if pathfinder != null && pathfinder.grid != null then {pathfinder.grid} else {}
      reads if pathfinder != null && pathfinder.grid != null then {pathfinder.grid.nodes} else {}
    {
      pathfinder != null && pathfinder.grid != null && pathfinder.grid.Valid() &&
      var m := pathfinder.grid;
      FoundRoute(pathfinder.Config(), ViewOf(m),
                 Query(units, position, CellOf(m.WorldToCell(position)), CellOf(m.WorldToCell(t))),
                 route, cost, path)
    }

    /** Some legal route leads from the cell under `position` to the cell
        under `t`. */
    ghost predicate RouteExists(position: Vec3, t: Vec3, units: UnitQuery)
      reads this
      reads if pathfinder != null && pathfinder.grid != null then {pathfinder.grid} else {}
      reads if pathfinder != null && pathfinder.grid != null then {pathfinder.grid.nodes} else {}
    {
      pathfinder != null && pathfinder.grid != null && pathfinder.grid.Valid() &&
      var m := pathfinder.grid;
      Reachable(pathfinder.Config(), ViewOf(m),
                Query(units, position, CellOf(m.WorldToCell(position)), CellOf(m.WorldToCell(t))))
    }

    /** The search gives up before exploring: the start or the target lies
        outside the grid, the target cell is blocked, or both are one cell. */
    ghost predicate NoSearch(position: Vec3, t: Vec3)
      reads if pathfinder != null && pathfinder.grid != null then {pathfinder.grid} else {}
      reads if pathfinder != null && pathfinder.grid != null then {pathfinder.grid.nodes} else {}
      requires Ready() && pathfinder != null && pathfinder.grid != null
    {
      var m := pathfinder.grid;
      var sq, tq := m.WorldToCell(position), m.WorldToCell(t);
      !sq.ok || !tq.ok || CellOf(tq) !in ViewOf(m).walkable || CellOf(sq) == CellOf(tq)
    }

    /** Replaces the path with a fresh search from `position` to the
        target, starting again at its first waypoint. Without a pathfinder,
        or when the search fails, the path is left empty and the target is
        dropped; a found path leaves the target flag as it was. */
    method RebuildPath(position: Vec3, units: UnitQuery) returns (ghost route: seq<Cell>, ghost cost: int)
      requires Valid() && Ready()
      modifies this
      ensures Valid()
      ensures pathIndex == 0
      ensures hasTarget <==> old(hasTarget) && path != []
      ensures path != [] ==> PathTo(position, target, units, route, cost)
      ensures pathfinder == null || pathfinder.grid == null || NoSearch(position, target) ==> path == []
      ensures (pathfinder != null && pathfinder.grid != null && !NoSearch(position, target) &&
               RouteExists(position, target, units)) ==> path != []
      ensures target == old(target) && stuckTimer == old(stuckTimer) && lastPos == old(lastPos)
      ensures replanTimer == old(replanTimer) && clock == old(clock) && lastReplanAt == old(lastReplanAt)
    {
      path := [];
      pathIndex := 0;
      route, cost := [], 0;
      var found := false;
      if pathfinder != null {
        var waypoints;
        ghost var iterations;
        found, waypoints, route, cost, iterations := pathfinder.TryFindPath(units, position, target);
        if found {
          path := waypoints;
        }
      }
      if !found {
        hasTarget := false;
      }
    }

    /** The index and arrival branches of `MoveAlongPath`, for a unit at
        `position`. With the path used up, the target is dropped once the
        unit is within the arrival radius of it. Otherwise, a next waypoint
        within reach on the horizontal plane is passed; one out of reach
        leaves the state alone and the unit steers, ending up at `stepped`.
        Returns where the unit is afterwards. */
    method MoveAlongPath(position: Vec3, stepped: Vec3) returns (now: Vec3)
      requires Valid()
      modifies this
      ensures Valid()
      ensures old(pathIndex) >= |path| ==>
                now == position && pathIndex == old(pathIndex) &&
                (hasTarget <==> old(hasTarget) && ArrivalRadius * ArrivalRadius < SqrMagnitude(Sub(position, target)))
      ensures old(pathIndex) < |path| ==>
                hasTarget == old(hasTarget) &&
                var reached := MagnitudeAtMost(Planar(Sub(path[old(pathIndex)], position)), tuning.waypointReachRadius);
                (reached ==> pathIndex == old(pathIndex) + 1 && now == position) &&
                (!reached ==> pathIndex == old(pathIndex) && now == stepped)
      ensures path == old(path) && target == old(target)
      ensures stuckTimer == old(stuckTimer) && lastPos == old(lastPos) && replanTimer == old(replanTimer)
      ensures clock == old(clock) && lastReplanAt == old(lastReplanAt)
    {
      now := position;
      if pathIndex >= |path| {
        if SqrMagnitude(Sub(position, target)) <= ArrivalRadius * ArrivalRadius {
          hasTarget := false;
        }
        return;
      }
      var next := path[pathIndex];
      var to := Planar(Sub(next, position));
      if MagnitudeAtMost(to, tuning.waypointReachRadius) {
        pathIndex := pathIndex + 1;
        return;
      }
      now := stepped;
    }

    /** The stuck watchdog, after a frame of `dt` with the unit at
        `position`. The stuck timer adds up frame times; once it reaches the
        check interval it restarts and the position is sampled again. If the
        unit moved less than the minimum since the last sample and the
        replan timer has run out, the timer is rearmed and the path rebuilt.
        Two such replans are at least the cooldown apart on the clock. */
    method UpdateStuckAndReplan(dt: real, position: Vec3, units: UnitQuery)
      returns (replanned: bool, ghost route: seq<Cell>, ghost cost: int)
      requires Valid() && Ready()
      modifies this
      ensures Valid()
      ensures var due := old(stuckTimer) + dt >= tuning.stuckCheckInterval;
              (!due ==> stuckTimer == old(stuckTimer) + dt && lastPos == old(lastPos)) &&
              (due ==> stuckTimer == 0.0 && lastPos == position) &&
              (replanned <==> due && MagnitudeBelow(Sub(position, old(lastPos)), tuning.stuckMinMove) &&
                              old(replanTimer) <= 0.0)
      ensures replanned ==>
                replanTimer == tuning.replanCooldown && lastReplanAt == Some(clock) && pathIndex == 0 &&
                (hasTarget <==> old(hasTarget) && path != []) &&
                (path != [] ==> PathTo(position, target, units, route, cost)) &&
                (pathfinder == null || pathfinder.grid == null || NoSearch(position, target) ==> path == []) &&
                ((pathfinder != null && pathfinder.grid != null && !NoSearch(position, target) &&
                  RouteExists(position, target, units)) ==> path != []) &&
                (old(lastReplanAt).Some? ==> clock - old(lastReplanAt).value >= tuning.replanCooldown)
      ensures !replanned ==>
                replanTimer == old(replanTimer) && lastReplanAt == old(lastReplanAt) &&
                path == old(path) && pathIndex == old(pathIndex) && hasTarget == old(hasTarget)
      ensures target == old(target) && clock == old(clock)
    {
      replanned, route, cost := false, [], 0;
      stuckTimer := stuckTimer + dt;
      if stuckTimer < tuning.stuckCheckInterval {
        return;
      }
      stuckTimer := 0.0;
      var moved := Sub(position, lastPos);
      lastPos := position;
      if MagnitudeBelow(moved, tuning.stuckMinMove) && replanTimer <= 0.0 {
        replanTimer := tuning.replanCooldown;
        lastReplanAt := Some(clock);
        replanned := true;
        route, cost := RebuildPath(position, units);
      }
    }

    /** One frame of `dt`: the replan timer always runs down and the clock
        advances; with a target, the unit follows its path (ending up at
        `stepped` if it steers) and the watchdog runs at its new position. */
    method Update(dt: real, position: Vec3, stepped: Vec3, units: UnitQuery)
      returns (now: Vec3, replanned: bool)
      requires Valid() && Ready()
      modifies this
      ensures Valid()
      ensures clock == old(clock) + dt
      ensures !old(hasTarget) ==>
                now == position && !replanned && replanTimer == old(replanTimer) - dt &&
                path == old(path) && pathIndex == old(pathIndex) && !hasTarget &&
                stuckTimer == old(stuckTimer) && lastPos == old(lastPos)
      ensures !replanned ==> replanTimer == old(replanTimer) - dt && lastReplanAt == old(lastReplanAt)
      ensures replanned ==>
                replanTimer == tuning.replanCooldown && lastReplanAt == Some(clock) &&
                (old(lastReplanAt).Some? ==> clock - old(lastReplanAt).value >= tuning.replanCooldown)
      ensures target == old(target)
    {
      replanTimer := replanTimer - dt;
      clock := clock + dt;
      now, replanned := position, false;
      if !hasTarget {
        return;
      }
      now := MoveAlongPath(position, stepped);
      ghost var route, cost;
      replanned, route, cost := UpdateStuckAndReplan(dt, now, units);
    }
  }
}
