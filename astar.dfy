/** The A* search over the grid. Each search keeps its scratch data (the
    open list, the closed set, and G, H and Parent per cell) in a `Scratch`
    value keyed by cell, so no state survives from one search to the next.
    The grid does not change during a search; the search rules read it
    through a `GridView`, a value holding what the search looks at. */
module AStar {
  import opened Geometry
  import opened Grid
  import opened Costs
  import opened Trace

  /** The four straight moves, and the same four followed by the four diagonal moves. */
  const Neigh4: seq<Dir> := [Dir(1, 0), Dir(-1, 0), Dir(0, 1), Dir(0, -1)]
  const Neigh8: seq<Dir> := Neigh4 + [Dir(1, 1), Dir(1, -1), Dir(-1, 1), Dir(-1, -1)]

  function Neighbours(diagonals: bool): seq<Dir>
  {
    if diagonals then Neigh8 else Neigh4
  }

  /** What a search sees of the grid: its dimensions, which of its cells are
      walkable, and where each cell's centre lies in the world. */
  datatype GridView = GridView(sizeX: int, sizeY: int, walkable: set<Cell>, origin: Vec3, cellSize: real)

  predicate InView(v: GridView, c: Cell)
  {
    0 <= c.x < v.sizeX && 0 <= c.y < v.sizeY
  }

  /** All the cells of the viewed grid. */
  function ViewCells(v: GridView): set<Cell>
  {
    set x, y | 0 <= x < v.sizeX && 0 <= y < v.sizeY :: Cell(x, y)
  }

  /** The centre of a cell, as `CellToWorldCenter` computes it. */
  function CenterOf(v: GridView, c: Cell): Vec3
  {
    CellCenter(v.origin, v.cellSize, c.x, c.y)
  }

  ghost function ViewOf(m: GridMap): GridView
    reads m, m.nodes
    requires m.Valid()
  {
    GridView(m.SizeX, m.SizeY,
             set x, y | 0 <= x < m.SizeX && 0 <= y < m.SizeY && m.nodes[x, y].Walkable :: Cell(x, y),
             m.Origin, m.CellSize)
  }

  /** The view agrees with the grid: a cell is walkable in the view exactly
      when it is inside the grid and its node is walkable, and the view's
      bounds and centres are the grid's. */
  lemma ViewAgrees(m: GridMap, c: Cell)
    requires m.Valid()
    ensures c in ViewOf(m).walkable <==> m.InBounds(c.x, c.y) && m.nodes[c.x, c.y].Walkable
    ensures InView(ViewOf(m), c) <==> m.InBounds(c.x, c.y)
    ensures CenterOf(ViewOf(m), c) == m.CellToWorldCenter(c.x, c.y)
  {
    if m.InBounds(c.x, c.y) && m.nodes[c.x, c.y].Walkable {
      assert Cell(c.x, c.y) == c;
    }
  }

  /** The view places cells where the grid does. */
  predicate SameFrame(v: GridView, m: GridMap)
    reads m
  {
    v.origin == m.Origin && v.cellSize == m.CellSize
  }

  lemma CenterAgrees(v: GridView, m: GridMap, c: Cell)
    requires SameFrame(v, m)
    ensures CenterOf(v, c) == m.CellToWorldCenter(c.x, c.y)
  {
  }

  /** `v` shows the grid `m` as it is: the same dimensions and centres, and
      a cell is walkable in `v` exactly when it is inside `m` and its node is
      walkable. */
  /** Only cells inside the grid are walkable. */
  ghost predicate WalkableInView(v: GridView)
  {
    forall c :: c in v.walkable ==> InView(v, c)
  }

  ghost predicate Matches(v: GridView, m: GridMap)
    reads m, m.nodes
    requires m.Valid()
  {
    v.sizeX == m.SizeX && v.sizeY == m.SizeY && SameFrame(v, m) && WalkableInView(v) &&
    forall x, y {:trigger m.nodes[x, y]} :: 0 <= x < m.SizeX && 0 <= y < m.SizeY ==>
      (Cell(x, y) in v.walkable <==> m.nodes[x, y].Walkable)
  }

  lemma ViewMatches(m: GridMap)
    requires m.Valid()
    ensures Matches(ViewOf(m), m)
  {
    forall c | c in ViewOf(m).walkable ensures InView(ViewOf(m), c) {
      ViewAgrees(m, c);
    }
    forall x, y | 0 <= x < m.SizeX && 0 <= y < m.SizeY
      ensures Cell(x, y) in ViewOf(m).walkable <==> m.nodes[x, y].Walkable
    {
      ViewAgrees(m, Cell(x, y));
    }
  }

  /** What one search knows besides the grid: the unit oracle, the searching
      unit's own position (to skip its own collider), and the start and
      target cells. */
  datatype Query = Query(units: UnitQuery, self: Vec3, start: Cell, target: Cell)

  /** The search's scratch: the open list (the pathfinder's `open` list;
      its `openSet` mirrors the list's membership), the closed set, and the G,
      H and Parent of every cell the search has touched. */
  datatype Scratch = Scratch(open: seq<Cell>, closed: set<Cell>,
                             g: map<Cell, int>, h: map<Cell, int>, parent: map<Cell, Cell>)

  /** The pathfinder's settings that the search rules read. */
  datatype Settings = Settings(allowDiagonals: bool, blockRadius: real, influenceRadius: real, penalty: nat)

  /** A corner cell blocks a diagonal move when it is in the grid and not
      walkable; a corner outside the grid does not block. */
  predicate BlocksCorner(v: GridView, c: Cell)
  {
    InView(v, c) && c !in v.walkable
  }

  /** A move the search may take from `a` to `b`: one of the enabled
      neighbour offsets, onto a walkable cell, not squeezing past a blocked
      corner on a diagonal, and not onto a cell another unit occupies. */
  predicate Legal(cfg: Settings, v: GridView, q: Query, a: Cell, b: Cell)
    ensures Legal(cfg, v, q, a, b) ==> KingMove(a, b) && b in v.walkable
  {
    var d := Dir(b.x - a.x, b.y - a.y);
    d in Neighbours(cfg.allowDiagonals) &&
    b in v.walkable &&
    (cfg.allowDiagonals && d.dx != 0 && d.dy != 0 ==>
       !BlocksCorner(v, Cell(a.x + d.dx, a.y)) && !BlocksCorner(v, Cell(a.x, a.y + d.dy))) &&
    !Occupied(q.units, CenterOf(v, b), cfg.blockRadius, q.self)
  }

  /** What a move costs: the base cost plus the unit penalty around the cell entered. */
  function MoveCost(cfg: Settings, v: GridView, q: Query, a: Cell, b: Cell): int
    requires 0.0 < cfg.influenceRadius
  {
    BaseCost(a, b) + UnitPenalty(q.units, CenterOf(v, b), q.self, cfg.influenceRadius, cfg.penalty)
  }

  /** A route out of the start, every step of it legal. */
  ghost predicate LegalRoute(cfg: Settings, v: GridView, q: Query, route: seq<Cell>)
  {
    |route| > 0 && Legal(cfg, v, q, q.start, route[0]) &&
    forall i :: 0 < i < |route| ==> Legal(cfg, v, q, route[i - 1], route[i])
  }

  /** The summed move costs of a route out of `from`. */
  function RouteCost(cfg: Settings, v: GridView, q: Query, from: Cell, route: seq<Cell>): int
    requires 0.0 < cfg.influenceRadius
    decreases |route|
  {
    if route == [] then 0
    else MoveCost(cfg, v, q, from, route[0]) + RouteCost(cfg, v, q, route[0], route[1..])
  }

  /** The world centres of a list of cells. */
  function Centers(m: GridMap, cs: seq<Cell>): (ps: seq<Vec3>)
    reads m
    ensures |ps| == |cs|
    ensures forall i :: 0 <= i < |cs| ==> ps[i] == m.CellToWorldCenter(cs[i].x, cs[i].y)
  {
    if cs == [] then [] else [m.CellToWorldCenter(cs[0].x, cs[0].y)] + Centers(m, cs[1..])
  }

  // ---------------------------------------------------------------------
  // The search invariant, in pieces.

  /** The open list holds each cell once, inside the grid, not closed, with
      a G and an H; only open and closed cells have a G. */
  ghost predicate OpenOk(v: GridView, s: Scratch)
  {
    (forall i, j :: 0 <= i < j < |s.open| ==> s.open[i] != s.open[j]) &&
    (forall c :: c in s.open ==> InView(v, c) && c !in s.closed && c in s.g && c in s.h) &&
    forall c :: c in s.g ==> c in s.open || c in s.closed
  }

  /** Closed cells are inside the grid, have a G, and are numbered in the
      order they were closed. */
  ghost predicate ClosedOk(v: GridView, s: Scratch, rank: map<Cell, nat>)
  {
    forall c :: c in s.closed ==> InView(v, c) && c in s.g && c in rank && rank[c] < |s.closed|
  }

  /** The start has G 0 and no parent; every other cell the search has
      reached has a parent; H is the heuristic to the target (the start's
      H is 0 instead). */
  ghost predicate RootOk(q: Query, s: Scratch)
  {
    q.start in s.g && s.g[q.start] == 0 && q.start !in s.parent &&
    (forall c :: (c in s.open || c in s.closed) && c != q.start ==> c in s.parent) &&
    (forall c :: c in s.h && c != q.start ==> s.h[c] == Heuristic(c, q.target))
  }

  /** One parent link: the parent is closed (and closed earlier, if the
      child is closed too), the move from parent to child is legal, and
      the child's G is the parent's G plus the move's cost. */
  ghost predicate LinkOk(cfg: Settings, v: GridView, q: Query, s: Scratch, rank: map<Cell, nat>, c: Cell)
  {
    0.0 < cfg.influenceRadius &&
    c in s.parent && c in s.g && (c in s.open || c in s.closed) &&
    var p := s.parent[c];
    p in s.closed && p in s.g && p in rank &&
    Legal(cfg, v, q, p, c) &&
    s.g[c] == s.g[p] + MoveCost(cfg, v, q, p, c) &&
    (c in s.closed ==> c in rank && rank[p] < rank[c])
  }

  ghost predicate LinksOk(cfg: Settings, v: GridView, q: Query, s: Scratch, rank: map<Cell, nat>)
  {
    forall c {:trigger LinkOk(cfg, v, q, s, rank, c)} :: c in s.parent ==> LinkOk(cfg, v, q, s, rank, c)
  }

  /** The search invariant; `rank` numbers the closed cells in the order
      they were closed. */
  ghost predicate Inv(cfg: Settings, v: GridView, q: Query, s: Scratch, rank: map<Cell, nat>)
  {
    0.0 < cfg.influenceRadius &&
    OpenOk(v, s) && ClosedOk(v, s, rank) && RootOk(q, s) && LinksOk(cfg, v, q, s, rank)
  }

  /** The search starts with only the start cell open, at G 0 and H 0. */
  lemma InitKeepsInv(cfg: Settings, v: GridView, q: Query)
    requires 0.0 < cfg.influenceRadius && InView(v, q.start)
    ensures Inv(cfg, v, q, Scratch([q.start], {}, map[q.start := 0], map[q.start := 0], map[]), map[])
  {
  }

  /** Removing the element at `k` from a list without repeats leaves exactly
      the other elements, still without repeats. */
  lemma RemoveAt(open: seq<Cell>, k: nat)
    requires k < |open| && forall i, j :: 0 <= i < j < |open| ==> open[i] != open[j]
    ensures var rest := open[..k] + open[k + 1..];
            (forall i, j :: 0 <= i < j < |rest| ==> rest[i] != rest[j]) &&
            forall c :: c in rest <==> c in open && c != open[k]
  {
    var rest := open[..k] + open[k + 1..];
    assert forall i :: 0 <= i < |rest| ==> rest[i] == open[if i < k then i else i + 1];
    forall c | c in open && c != open[k] ensures c in rest {
      var i :| 0 <= i < |open| && open[i] == c;
      assert rest[if i < k then i else i - 1] == c;
    }
  }

  /** Closing the open cell at index `k` keeps the invariant, numbering it
      after every closed cell. */
  lemma CloseKeepsInv(cfg: Settings, v: GridView, q: Query, s: Scratch, rank: map<Cell, nat>, k: nat)
    requires Inv(cfg, v, q, s, rank) && k < |s.open|
    ensures var cur := s.open[k];
            Inv(cfg, v, q, s.(open := s.open[..k] + s.open[k + 1..], closed := s.closed + {cur}),
                rank[cur := |s.closed|])
  {
    var cur := s.open[k];
    var s' := s.(open := s.open[..k] + s.open[k + 1..], closed := s.closed + {cur});
    var rank' := rank[cur := |s.closed|];
    RemoveAt(s.open, k);
    assert OpenOk(v, s');
    assert cur !in s.closed && |s'.closed| == |s.closed| + 1;
    assert ClosedOk(v, s', rank');
    assert RootOk(q, s');
    forall c | c in s'.parent ensures LinkOk(cfg, v, q, s', rank', c) {
      assert LinkOk(cfg, v, q, s, rank, c);
      assert s.parent[c] != cur;
    }
  }

  /** Sets a cell's parent to `current`, its G to `cost` and its H to the
      heuristic, and appends it to the open list unless it is there already. */
  function Relax(s: Scratch, current: Cell, c: Cell, cost: int, target: Cell): Scratch
  {
    s.(parent := s.parent[c := current], g := s.g[c := cost], h := s.h[c := Heuristic(c, target)],
       open := if c in s.open then s.open else s.open + [c])
  }

  /** How expanding `current` may change the scratch: the closed set stays,
      the open list only grows, G only falls, and every parent that changes
      becomes `current`. */
  ghost predicate Progress(s: Scratch, s': Scratch, current: Cell)
  {
    s'.closed == s.closed &&
    (forall c :: c in s.open ==> c in s'.open) &&
    (forall c :: c in s.g ==> c in s'.g && s'.g[c] <= s.g[c]) &&
    forall c :: c in s'.parent && (c !in s.parent || s'.parent[c] != s.parent[c]) ==> s'.parent[c] == current
  }

  lemma ProgressChains(s: Scratch, s1: Scratch, s2: Scratch, current: Cell)
    requires Progress(s, s1, current) && Progress(s1, s2, current)
    ensures Progress(s, s2, current)
  {
  }

  /** Relaxing a cell through the closed `current` — when the cell is new to
      the open list or the new G is lower — keeps the invariant and is
      progress in the sense above. */
  lemma RelaxKeepsInv(cfg: Settings, v: GridView, q: Query, s: Scratch, rank: map<Cell, nat>,
                      current: Cell, c: Cell, cost: int)
    requires Inv(cfg, v, q, s, rank) && q.start in s.closed && current in s.closed
    requires c !in s.closed && InView(v, c) && Legal(cfg, v, q, current, c)
    requires cost == s.g[current] + MoveCost(cfg, v, q, current, c)
    requires c !in s.open || cost < s.g[c]
    ensures Inv(cfg, v, q, Relax(s, current, c, cost, q.target), rank)
    ensures Progress(s, Relax(s, current, c, cost, q.target), current)
  {
    var s' := Relax(s, current, c, cost, q.target);
    RelaxKeepsOpen(v, s, current, c, cost, q.target);
    assert ClosedOk(v, s', rank);
    assert RootOk(q, s');
    RelaxKeepsLinks(cfg, v, q, s, rank, current, c, cost);
  }

  lemma RelaxKeepsOpen(v: GridView, s: Scratch, current: Cell, c: Cell, cost: int, target: Cell)
    requires OpenOk(v, s) && c !in s.closed && InView(v, c)
    ensures OpenOk(v, Relax(s, current, c, cost, target))
  {
    var s' := Relax(s, current, c, cost, target);
    assert forall c' :: c' in s'.open <==> c' in s.open || c' == c;
  }

  lemma RelaxKeepsLinks(cfg: Settings, v: GridView, q: Query, s: Scratch, rank: map<Cell, nat>,
                        current: Cell, c: Cell, cost: int)
    requires LinksOk(cfg, v, q, s, rank) && 0.0 < cfg.influenceRadius
    requires current in s.closed && current in s.g && current in rank && c !in s.closed
    requires Legal(cfg, v, q, current, c) && cost == s.g[current] + MoveCost(cfg, v, q, current, c)
    requires c != current
    ensures LinksOk(cfg, v, q, Relax(s, current, c, cost, q.target), rank)
  {
    var s' := Relax(s, current, c, cost, q.target);
    forall c' | c' in s'.parent ensures LinkOk(cfg, v, q, s', rank, c') {
      if c' != c {
        assert LinkOk(cfg, v, q, s, rank, c');
      }
    }
  }

  /** The current cell has a G and so does every open cell: what one pass
      of the neighbour loop needs to read the costs it compares. */
  ghost predicate Expandable(s: Scratch, current: Cell)
  {
    current in s.g && forall c :: c in s.open ==> c in s.g
  }

  /** One pass of the neighbour loop on the scratch: the neighbour at
      offset `d` is relaxed through `current` when it is not closed, the
      move to it is legal, and it is new to the open list or cheaper
      through `current`; otherwise nothing changes. */
  ghost function Visit(cfg: Settings, v: GridView, q: Query, s: Scratch, current: Cell, d: Dir): (r: Scratch)
    requires 0.0 < cfg.influenceRadius && Expandable(s, current)
    ensures Expandable(r, current)
  {
    var c := Cell(current.x + d.dx, current.y + d.dy);
    if c in s.closed || !Legal(cfg, v, q, current, c) then s
    else
      var cost := s.g[current] + MoveCost(cfg, v, q, current, c);
      if c !in s.open || cost < s.g[c] then Relax(s, current, c, cost, q.target) else s
  }

  /** The two outcomes of `Visit`, split on whether the neighbour may be entered. */
  lemma VisitCases(cfg: Settings, v: GridView, q: Query, s: Scratch, current: Cell, d: Dir, enter: bool, cost: int)
    requires 0.0 < cfg.influenceRadius && Expandable(s, current)
    requires var c := Cell(current.x + d.dx, current.y + d.dy);
             enter == (c !in s.closed && Legal(cfg, v, q, current, c))
    requires enter ==> cost == s.g[current] + MoveCost(cfg, v, q, current, Cell(current.x + d.dx, current.y + d.dy))
    ensures var c := Cell(current.x + d.dx, current.y + d.dy);
            Visit(cfg, v, q, s, current, d) ==
              if enter && (c !in s.open || cost < s.g[c]) then Relax(s, current, c, cost, q.target) else s
  {
  }

  /** A pass of the neighbour loop keeps the search invariant and is progress. */
  lemma VisitKeepsInv(cfg: Settings, v: GridView, q: Query, s: Scratch, rank: map<Cell, nat>, current: Cell, d: Dir)
    requires Inv(cfg, v, q, s, rank) && WalkableInView(v) && q.start in s.closed && current in s.closed
    ensures Expandable(s, current)
    ensures Inv(cfg, v, q, Visit(cfg, v, q, s, current, d), rank)
    ensures Progress(s, Visit(cfg, v, q, s, current, d), current)
  {
    assert Expandable(s, current);
    var c := Cell(current.x + d.dx, current.y + d.dy);
    var enter := c !in s.closed && Legal(cfg, v, q, current, c);
    var cost := if enter then s.g[current] + MoveCost(cfg, v, q, current, c) else 0;
    VisitCases(cfg, v, q, s, current, d, enter, cost);
    if enter && (c !in s.open || cost < s.g[c]) {
      RelaxKeepsInv(cfg, v, q, s, rank, current, c, cost);
    } else {
      assert Visit(cfg, v, q, s, current, d) == s;
    }
  }

  /** The neighbour loop's first `n` passes, over the offsets `ds` in order. */
  ghost function VisitAll(cfg: Settings, v: GridView, q: Query, s: Scratch, current: Cell,
                          ds: seq<Dir>, n: nat): (r: Scratch)
    requires 0.0 < cfg.influenceRadius && Expandable(s, current) && n <= |ds|
    ensures Expandable(r, current)
  {
    if n == 0 then s else Visit(cfg, v, q, VisitAll(cfg, v, q, s, current, ds, n - 1), current, ds[n - 1])
  }

  /** The whole neighbour loop keeps the search invariant and is progress. */
  lemma {:induction false} VisitAllKeepsInv(cfg: Settings, v: GridView, q: Query, s: Scratch, rank: map<Cell, nat>,
                                            current: Cell, ds: seq<Dir>, n: nat)
    requires Inv(cfg, v, q, s, rank) && WalkableInView(v) && q.start in s.closed && current in s.closed
    requires n <= |ds|
    ensures Expandable(s, current)
    ensures Inv(cfg, v, q, VisitAll(cfg, v, q, s, current, ds, n), rank)
    ensures Progress(s, VisitAll(cfg, v, q, s, current, ds, n), current)
  {
    assert Expandable(s, current);
    if n > 0 {
      VisitAllKeepsInv(cfg, v, q, s, rank, current, ds, n - 1);
      var s1 := VisitAll(cfg, v, q, s, current, ds, n - 1);
      VisitKeepsInv(cfg, v, q, s1, rank, current, ds[n - 1]);
      ProgressChains(s, s1, VisitAll(cfg, v, q, s, current, ds, n), current);
    }
  }

  /** A cell is covered once the search has seen it: open or closed. */
  ghost predicate Covered(s: Scratch, c: Cell)
  {
    c in s.open || c in s.closed
  }

  /** Every legal move out of a closed cell other than the target leads to a
      covered cell: each closed cell but the target has had its neighbours
      relaxed. */
  ghost predicate Closure(cfg: Settings, v: GridView, q: Query, s: Scratch)
  {
    forall a, b :: a in s.closed && a != q.target && Legal(cfg, v, q, a, b) ==> Covered(s, b)
  }

  /** Some legal route out of the start ends at the target. */
  ghost predicate Reachable(cfg: Settings, v: GridView, q: Query)
  {
    exists route :: LegalRoute(cfg, v, q, route) && route[|route| - 1] == q.target
  }

  /** The first `n` passes of the neighbour loop keep the closed set, only
      add to the open list, and cover every neighbour among the first `n`
      offsets that `current` may legally move to. */
  lemma {:induction false} VisitAllCovers(cfg: Settings, v: GridView, q: Query, s: Scratch, current: Cell,
                                          ds: seq<Dir>, n: nat)
    requires 0.0 < cfg.influenceRadius && Expandable(s, current) && n <= |ds|
    ensures var r := VisitAll(cfg, v, q, s, current, ds, n);
            r.closed == s.closed && (forall c :: c in s.open ==> c in r.open) &&
            forall i :: 0 <= i < n && Legal(cfg, v, q, current, Cell(current.x + ds[i].dx, current.y + ds[i].dy)) ==>
              Covered(r, Cell(current.x + ds[i].dx, current.y + ds[i].dy))
  {
    if n > 0 {
      VisitAllCovers(cfg, v, q, s, current, ds, n - 1);
      var s1 := VisitAll(cfg, v, q, s, current, ds, n - 1);
      var r := Visit(cfg, v, q, s1, current, ds[n - 1]);
      assert r == VisitAll(cfg, v, q, s, current, ds, n);
      assert r.closed == s1.closed && forall c :: c in s1.open ==> c in r.open;
    }
  }

  /** The whole neighbour loop covers every cell `current` may legally move to. */
  lemma NeighbourLoopCovers(cfg: Settings, v: GridView, q: Query, s: Scratch, current: Cell)
    requires 0.0 < cfg.influenceRadius && Expandable(s, current)
    ensures var ds := Neighbours(cfg.allowDiagonals);
            var r := VisitAll(cfg, v, q, s, current, ds, |ds|);
            r.closed == s.closed && (forall c :: c in s.open ==> c in r.open) &&
            forall b :: Legal(cfg, v, q, current, b) ==> Covered(r, b)
  {
    var ds := Neighbours(cfg.allowDiagonals);
    VisitAllCovers(cfg, v, q, s, current, ds, |ds|);
    forall b | Legal(cfg, v, q, current, b)
      ensures Covered(VisitAll(cfg, v, q, s, current, ds, |ds|), b)
    {
      var d := Dir(b.x - current.x, b.y - current.y);
      var i :| 0 <= i < |ds| && ds[i] == d;
      assert Cell(current.x + ds[i].dx, current.y + ds[i].dy) == b;
    }
  }

  /** One pass of the main loop keeps the closure: `current` leaves the open
      list for the closed set and, unless it is the target, has all its
      neighbours relaxed. */
  lemma RoundKeepsClosure(cfg: Settings, v: GridView, q: Query, s: Scratch, closedOne: Scratch,
                          s': Scratch, current: Cell)
    requires Closure(cfg, v, q, s) && 0.0 < cfg.influenceRadius && Expandable(closedOne, current)
    requires closedOne.closed == s.closed + {current}
    requires forall c :: c in s.open && c != current ==> c in closedOne.open
    requires s' == if current == q.target then closedOne
                   else VisitAll(cfg, v, q, closedOne, current, Neighbours(cfg.allowDiagonals),
                                 |Neighbours(cfg.allowDiagonals)|)
    ensures Closure(cfg, v, q, s') && s'.closed == s.closed + {current}
  {
    if current != q.target {
      NeighbourLoopCovers(cfg, v, q, closedOne, current);
    }
  }

  /** Every cell of a legal route stays inside a closed set that has the
      closure, holds the start and not the target, and has nothing left
      open. */
  lemma {:induction false} RouteStaysClosed(cfg: Settings, v: GridView, q: Query, s: Scratch,
                                            route: seq<Cell>, n: nat)
    requires Closure(cfg, v, q, s) && s.open == [] && q.start in s.closed && q.target !in s.closed
    requires LegalRoute(cfg, v, q, route) && n < |route|
    ensures route[n] in s.closed
  {
    if n == 0 {
      assert Legal(cfg, v, q, q.start, route[0]);
    } else {
      RouteStaysClosed(cfg, v, q, s, route, n - 1);
      assert Legal(cfg, v, q, route[n - 1], route[n]);
    }
  }

  /** A search that runs out of open cells without closing the target
      proves that no legal route reaches the target. */
  lemma ExhaustedUnreachable(cfg: Settings, v: GridView, q: Query, s: Scratch)
    requires Closure(cfg, v, q, s) && s.open == [] && q.start in s.closed && q.target !in s.closed
    ensures !Reachable(cfg, v, q)
  {
    forall route | LegalRoute(cfg, v, q, route) && route[|route| - 1] == q.target
      ensures false
    {
      RouteStaysClosed(cfg, v, q, s, route, |route| - 1);
    }
  }

  /** `ParentTree` needs only part of the invariant. */
  lemma InvGivesTree(cfg: Settings, v: GridView, q: Query, s: Scratch, rank: map<Cell, nat>)
    requires Inv(cfg, v, q, s, rank)
    ensures ParentTree(q.start, s.parent, s.closed, rank)
  {
    forall c | c in s.closed && c != q.start
      ensures c in s.parent && s.parent[c] in s.closed && rank[s.parent[c]] < rank[c]
    {
      assert LinkOk(cfg, v, q, s, rank, c);
    }
  }

  /** A chain of parent links out of the start is a legal route. */
  lemma LinkedRouteIsLegal(cfg: Settings, v: GridView, q: Query, s: Scratch,
                           rank: map<Cell, nat>, route: seq<Cell>)
    requires Inv(cfg, v, q, s, rank) && LinkedFrom(q.start, route, s.parent)
    ensures LegalRoute(cfg, v, q, route)
  {
    assert LinkOk(cfg, v, q, s, rank, route[0]);
    forall i | 0 < i < |route| ensures Legal(cfg, v, q, route[i - 1], route[i]) {
      assert LinkOk(cfg, v, q, s, rank, route[i]);
    }
  }

  /** The G-part of one parent link: the child's G is the parent's G plus the move's cost. */
  ghost predicate CostLink(cfg: Settings, v: GridView, q: Query, s: Scratch, c: Cell)
  {
    0.0 < cfg.influenceRadius && c in s.parent && c in s.g && s.parent[c] in s.g &&
    s.g[c] == s.g[s.parent[c]] + MoveCost(cfg, v, q, s.parent[c], c)
  }

  lemma InvGivesCostLinks(cfg: Settings, v: GridView, q: Query, s: Scratch, rank: map<Cell, nat>)
    requires Inv(cfg, v, q, s, rank)
    ensures forall c :: c in s.parent ==> CostLink(cfg, v, q, s, c)
  {
    forall c | c in s.parent ensures CostLink(cfg, v, q, s, c) {
      assert LinkOk(cfg, v, q, s, rank, c);
    }
  }

  /** Along a chain of parent links out of the start, G is the summed move
      cost of the chain so far. */
  lemma {:induction false} LinkedRouteCost(cfg: Settings, v: GridView, q: Query, s: Scratch,
                                          route: seq<Cell>, n: nat)
    requires 0.0 < cfg.influenceRadius && q.start in s.g && s.g[q.start] == 0
    requires LinkedFrom(q.start, route, s.parent) && 0 < n <= |route|
    requires forall i :: 0 <= i < |route| ==> CostLink(cfg, v, q, s, route[i])
    ensures route[n - 1] in s.g && s.g[route[n - 1]] == RouteCost(cfg, v, q, q.start, route[..n])
  {
    var c := route[n - 1];
    assert CostLink(cfg, v, q, s, c);
    if n == 1 {
      assert route[..1] == [c];
      assert RouteCost(cfg, v, q, c, []) == 0;
      assert RouteCost(cfg, v, q, q.start, [c]) == MoveCost(cfg, v, q, q.start, c) + RouteCost(cfg, v, q, c, []);
    } else {
      LinkedRouteCost(cfg, v, q, s, route, n - 1);
      assert route[..n] == route[..n - 1] + [c];
      RouteCostSnoc(cfg, v, q, q.start, route[..n - 1], c);
    }
  }

  /** The cost of a route with one more move at the end. */
  lemma {:induction false} RouteCostSnoc(cfg: Settings, v: GridView, q: Query, from: Cell, route: seq<Cell>, c: Cell)
    requires 0.0 < cfg.influenceRadius && |route| > 0
    ensures RouteCost(cfg, v, q, from, route + [c])
            == RouteCost(cfg, v, q, from, route) + MoveCost(cfg, v, q, route[|route| - 1], c)
    decreases |route|
  {
    assert (route + [c])[0] == route[0];
    assert (route + [c])[1..] == route[1..] + [c];
    if |route| > 1 {
      RouteCostSnoc(cfg, v, q, route[0], route[1..], c);
    } else {
      assert route[1..] + [c] == [c] && [c][1..] == [];
      assert RouteCost(cfg, v, q, route[0], [c]) == MoveCost(cfg, v, q, route[0], c) + RouteCost(cfg, v, q, c, []);
    }
  }

  /** Every legal move is a king move, so a legal route is a king walk. */
  lemma LegalRouteIsKingWalk(cfg: Settings, v: GridView, q: Query, route: seq<Cell>)
    requires LegalRoute(cfg, v, q, route)
    ensures KingWalk(q.start, route)
  {
    forall i | 0 < i < |route| ensures KingMove(route[i - 1], route[i]) {
      assert Legal(cfg, v, q, route[i - 1], route[i]);
    }
  }

  /** Unit penalties only add to the base cost, so a route costs at least its king-walk cost. */
  lemma {:induction false} RouteCostCoversWalk(cfg: Settings, v: GridView, q: Query, from: Cell, route: seq<Cell>)
    requires 0.0 < cfg.influenceRadius
    ensures WalkCost(from, route) <= RouteCost(cfg, v, q, from, route)
    decreases |route|
  {
    if route != [] {
      UnitPenaltyBounds(q.units, CenterOf(v, route[0]), q.self, cfg.influenceRadius, cfg.penalty);
      RouteCostCoversWalk(cfg, v, q, route[0], route[1..]);
    }
  }

  /** The heuristic never overestimates: the octile distance from the start
      to the end of a legal route is at most the route's cost. */
  lemma HeuristicBelowRouteCost(cfg: Settings, v: GridView, q: Query, route: seq<Cell>)
    requires 0.0 < cfg.influenceRadius && LegalRoute(cfg, v, q, route)
    ensures Heuristic(q.start, route[|route| - 1]) <= RouteCost(cfg, v, q, q.start, route)
  {
    LegalRouteIsKingWalk(cfg, v, q, route);
    HeuristicAdmissible(q.start, route);
    RouteCostCoversWalk(cfg, v, q, q.start, route);
  }

  lemma ShrinkRemaining(all: set<Cell>, closed: set<Cell>, c: Cell)
    requires c in all && c !in closed
    ensures |all - (closed + {c})| < |all - closed|
  {
    assert all - (closed + {c}) == (all - closed) - {c};
  }

  /** Closing an open cell brings the search one cell nearer to having
      closed the whole grid, and never past it. */
  lemma ClosingCounts(v: GridView, s: Scratch, rank: map<Cell, nat>, current: Cell)
    requires OpenOk(v, s) && ClosedOk(v, s, rank) && current in s.open && 0 <= v.sizeX && 0 <= v.sizeY
    ensures current !in s.closed
    ensures |ViewCells(v) - (s.closed + {current})| < |ViewCells(v) - s.closed|
    ensures |s.closed + {current}| == |s.closed| + 1 <= v.sizeX * v.sizeY
  {
    var closed' := s.closed + {current};
    assert closed' <= ViewCells(v) by {
      forall c | c in closed' ensures c in ViewCells(v) {
        assert Cell(c.x, c.y) == c;
      }
    }
    ShrinkRemaining(ViewCells(v), s.closed, current);
    WithinView(v, closed');
  }

  /** A set of the grid's cells has at most `sizeX * sizeY` members. */
  lemma WithinView(v: GridView, cs: set<Cell>)
    requires 0 <= v.sizeX && 0 <= v.sizeY && cs <= ViewCells(v)
    ensures |cs| <= v.sizeX * v.sizeY
  {
    CellCount(v.sizeX, v.sizeY);
    assert ViewCells(v) == cs + (ViewCells(v) - cs);
  }

  /** `F = G + H` of a cell, ordered first by F and then by H. */
  predicate Ahead(g: map<Cell, int>, h: map<Cell, int>, a: Cell, b: Cell)
    requires a in g && a in h && b in g && b in h
  {
    g[a] + h[a] < g[b] + h[b] || (g[a] + h[a] == g[b] + h[b] && h[a] < h[b])
  }

  /** The scan over the open list: the index of a cell that no other open
      cell is ahead of, and the first such index (every earlier cell is
      strictly behind it). */
  method SelectBest(open: seq<Cell>, g: map<Cell, int>, h: map<Cell, int>) returns (k: nat)
    requires |open| > 0 && forall c :: c in open ==> c in g && c in h
    ensures k < |open|
    ensures forall i :: 0 <= i < |open| ==> !Ahead(g, h, open[i], open[k])
    ensures forall i :: 0 <= i < k ==> Ahead(g, h, open[k], open[i])
  {
    k := 0;
    for i := 1 to |open|
      invariant k < i
      invariant forall j :: 0 <= j < i ==> !Ahead(g, h, open[j], open[k])
      invariant forall j :: 0 <= j < k ==> Ahead(g, h, open[k], open[j])
    {
      var n := open[i];
      var cur := open[k];
      if g[n] + h[n] < g[cur] + h[cur] || (g[n] + h[n] == g[cur] + h[cur] && h[n] < h[cur]) {
        k := i;
      }
    }
  }

  function CellOf(r: CellQuery): Cell
  {
    Cell(r.x, r.y)
  }

  /** A query the search refuses outright: an endpoint outside the grid, or
      a target cell that is not walkable. */
  ghost predicate Rejected(m: GridMap, sq: CellQuery, tq: CellQuery)
    reads m, m.nodes
    requires m.Valid()
  {
    !sq.ok || !tq.ok || CellOf(tq) !in ViewOf(m).walkable
  }

  /** What a successful search delivers: a legal route out of the start
      that ends at the target, visits no cell twice and never returns to the
      start, its cost, and as waypoints the centres of the cells the
      simplifier keeps, ending at the target's centre. */
  ghost predicate FoundRoute(cfg: Settings, v: GridView, q: Query, route: seq<Cell>, cost: int,
                       waypoints: seq<Vec3>)
  {
    0.0 < cfg.influenceRadius && RouteTo(cfg, v, q, route, cost) && WaypointsOf(v, q, route, waypoints)
  }

  /** `route` is a legal, duplicate-free route from the start to the target
      that avoids the start cell and costs `cost`. */
  ghost predicate RouteTo(cfg: Settings, v: GridView, q: Query, route: seq<Cell>, cost: int)
    requires 0.0 < cfg.influenceRadius
  {
    LegalRoute(cfg, v, q, route) && route[|route| - 1] == q.target &&
    q.start !in route && (forall i, j :: 0 <= i < j < |route| ==> route[i] != route[j]) &&
    cost == RouteCost(cfg, v, q, q.start, route)
  }

  /** `waypoints` are the centres of the cells the simplifier keeps from
      `route`, ending at the target's centre. */
  ghost predicate WaypointsOf(v: GridView, q: Query, route: seq<Cell>, waypoints: seq<Vec3>)
  {
    |waypoints| == |Kept(route, |route|)| &&
    (forall i :: 0 <= i < |waypoints| ==> waypoints[i] == CenterOf(v, Kept(route, |route|)[i])) &&
    |waypoints| > 0 && waypoints[|waypoints| - 1] == CenterOf(v, q.target)
  }

  /** The route read back from the parent links, once the target is closed,
      is a found route whose cost is the target's G. */
  lemma RetracedRouteFound(cfg: Settings, v: GridView, q: Query, s: Scratch, rank: map<Cell, nat>,
                           route: seq<Cell>, waypoints: seq<Vec3>)
    requires Inv(cfg, v, q, s, rank) && q.target in s.g
    requires LinkedFrom(q.start, route, s.parent) && route[|route| - 1] == q.target
    requires q.start !in route && forall i, j :: 0 <= i < j < |route| ==> route[i] != route[j]
    requires |waypoints| == |Kept(route, |route|)| > 0
    requires forall i :: 0 <= i < |waypoints| ==> waypoints[i] == CenterOf(v, Kept(route, |route|)[i])
    requires waypoints[|waypoints| - 1] == CenterOf(v, q.target)
    ensures FoundRoute(cfg, v, q, route, s.g[q.target], waypoints)
  {
    LinkedRouteIsLegal(cfg, v, q, s, rank, route);
    InvGivesCostLinks(cfg, v, q, s, rank);
    LinkedRouteCost(cfg, v, q, s, route, |route|);
    assert route[..|route|] == route;
  }

  /** The centres the grid computes are the view's centres. */
  lemma CentersInView(m: GridMap, v: GridView, cs: seq<Cell>, target: Cell)
    requires SameFrame(v, m)
    ensures forall i :: 0 <= i < |cs| ==> Centers(m, cs)[i] == CenterOf(v, cs[i])
    ensures m.CellToWorldCenter(target.x, target.y) == CenterOf(v, target)
  {
    CenterAgrees(v, m, target);
    forall i | 0 <= i < |cs| ensures Centers(m, cs)[i] == CenterOf(v, cs[i]) {
      CenterAgrees(v, m, cs[i]);
    }
  }

  /** The pathfinder component: its grid and its settings. */
  class Pathfinder {
    const grid: GridMap?
    const allowDiagonals: bool
    const unitBlockRadius: real
    const unitInfluenceRadius: real
    const unitPenalty: nat

    constructor (grid: GridMap?, allowDiagonals: bool, unitBlockRadius: real,
                 unitInfluenceRadius: real, unitPenalty: nat)
      ensures this.grid == grid && this.allowDiagonals == allowDiagonals
      ensures this.unitBlockRadius == unitBlockRadius && this.unitInfluenceRadius == unitInfluenceRadius
      ensures this.unitPenalty == unitPenalty
    {
      this.grid := grid;
      this.allowDiagonals := allowDiagonals;
      this.unitBlockRadius := unitBlockRadius;
      this.unitInfluenceRadius := unitInfluenceRadius;
      this.unitPenalty := unitPenalty;
    }

    /** The inspector defaults: diagonals on, block radius 0.35, influence
        radius 1.2, penalty 60. */
    constructor WithDefaults(grid: GridMap?)
      ensures this.grid == grid && allowDiagonals
      ensures unitBlockRadius == 0.35 && unitInfluenceRadius == 1.2 && unitPenalty == 60
    {
      this.grid := grid;
      allowDiagonals := true;
      unitBlockRadius := 0.35;
      unitInfluenceRadius := 1.2;
      unitPenalty := 60;
    }

    function Config(): Settings
    {
      Settings(allowDiagonals, unitBlockRadius, unitInfluenceRadius, unitPenalty)
    }

    /** Whether a unit other than the searching one stands within the block
        radius of a cell centre. */
    method IsCellOccupiedByUnit(units: UnitQuery, cellWorld: Vec3, selfWorld: Vec3) returns (occupied: bool)
      ensures occupied <==> Occupied(units, cellWorld, unitBlockRadius, selfWorld)
    {
      var hs := Hits(units, cellWorld, unitBlockRadius);
      for i := 0 to |hs|
        invariant forall j :: 0 <= j < i ==> IsSelf(hs[j], selfWorld)
      {
        if IsSelf(hs[i], selfWorld) {
          continue;
        }
        return true;
      }
      return false;
    }

    /** The penalty other units within the influence radius put on a cell. */
    method UnitPenaltyAround(units: UnitQuery, cellWorld: Vec3, selfWorld: Vec3) returns (penalty: int)
      requires 0.0 < unitInfluenceRadius
      ensures penalty == UnitPenalty(units, cellWorld, selfWorld, unitInfluenceRadius, unitPenalty)
      ensures 0 <= penalty <= HitBufferSize * unitPenalty
    {
      UnitPenaltyBounds(units, cellWorld, selfWorld, unitInfluenceRadius, unitPenalty);
      var hs := Hits(units, cellWorld, unitInfluenceRadius);
      if |hs| == 0 {
        return 0;
      }
      penalty := 0;
      var r := unitInfluenceRadius;
      for i := 0 to |hs|
        invariant penalty == PenaltyPrefix(units, hs, i, cellWorld, selfWorld, r, unitPenalty)
      {
        if IsSelf(hs[i], selfWorld) {
          continue;
        }
        var d := units.distance(cellWorld, hs[i]);
        var t := Clamp01(1.0 - d / r);
        assert t == Falloff(d, r);
        penalty := penalty + RoundToInt(Weight(unitPenalty, t));
      }
    }

    /** The cost of moving between two neighbouring nodes. */
    method StepCost(units: UnitQuery, from: Node, to: Node, selfWorld: Vec3) returns (cost: int)
      requires 0.0 < unitInfluenceRadius
      ensures cost == BaseCost(Cell(from.X, from.Y), Cell(to.X, to.Y))
                      + UnitPenalty(units, to.WorldPos, selfWorld, unitInfluenceRadius, unitPenalty)
      ensures BaseCost(Cell(from.X, from.Y), Cell(to.X, to.Y)) <= cost
    {
      var diagonal := from.X != to.X && from.Y != to.Y;
      var baseCost := if diagonal then 14 else 10;
      var penalty := UnitPenaltyAround(units, to.WorldPos, selfWorld);
      cost := baseCost + penalty;
    }

    /** Walks the parent links back from the target and keeps the nodes
        where the direction changes, as world positions. */
    method RetraceAndSimplify(m: GridMap, start: Cell, target: Cell, parent: map<Cell, Cell>,
                              ghost closed: set<Cell>, ghost rank: map<Cell, nat>)
      returns (waypoints: seq<Vec3>, nodes: seq<Cell>)
      requires target in closed && ParentTree(start, parent, closed, rank)
      ensures target == start <==> waypoints == []
      ensures target != start ==> LinkedFrom(start, nodes, parent) && nodes[|nodes| - 1] == target
      ensures start !in nodes && forall i, j :: 0 <= i < j < |nodes| ==> nodes[i] != nodes[j]
      ensures waypoints == Centers(m, Kept(nodes, |nodes|))
      ensures waypoints != [] ==> waypoints[|waypoints| - 1] == m.CellToWorldCenter(target.x, target.y)
    {
      nodes := Retrace(start, target, parent, closed, rank);
      var kept := Simplify(nodes);
      if nodes != [] {
        KeptEnds(nodes);
      }
      waypoints := Centers(m, kept);
    }

    /** The A* search from the cell under `startWorld` to the cell under
        `targetWorld`. On success `waypoints` are the world centres of the
        simplified route; `route` is the route before simplification and
        `cost` its summed move costs. */
    method TryFindPath(units: UnitQuery, startWorld: Vec3, targetWorld: Vec3)
      returns (found: bool, waypoints: seq<Vec3>, ghost route: seq<Cell>, ghost cost: int,
               ghost iterations: nat)
      requires grid != null ==> grid.Valid()
      requires 0.0 < unitInfluenceRadius
      ensures !found ==> waypoints == []
      ensures grid == null ==> !found
      ensures grid != null ==>
                var sq := grid.WorldToCell(startWorld);
                var tq := grid.WorldToCell(targetWorld);
                (Rejected(grid, sq, tq) ==> !found && iterations == 0) &&
                (CellOf(sq) == CellOf(tq) ==> !found)
      ensures grid != null ==>
                var sq := grid.WorldToCell(startWorld);
                var tq := grid.WorldToCell(targetWorld);
                !Rejected(grid, sq, tq) && CellOf(sq) != CellOf(tq) &&
                Reachable(Config(), ViewOf(grid), Query(units, startWorld, CellOf(sq), CellOf(tq)))
                ==> found
      ensures found ==> (grid != null &&
                FoundRoute(Config(), ViewOf(grid),
                           Query(units, startWorld, CellOf(grid.WorldToCell(startWorld)),
                                 CellOf(grid.WorldToCell(targetWorld))), route, cost, waypoints))
      ensures grid != null ==> iterations <= grid.SizeX * grid.SizeY
    {
      found, waypoints, route, cost, iterations := false, [], [], 0, 0;
      var m := grid;
      if m == null {
        return;
      }
      var sq := m.WorldToCell(startWorld);
      if !sq.ok {
        return;
      }
      var tq := m.WorldToCell(targetWorld);
      if !tq.ok {
        return;
      }
      var startNode := m.GetNode(sq.x, sq.y);
      var targetNode := m.GetNode(tq.x, tq.y);
      ViewAgrees(m, CellOf(sq));
      ViewAgrees(m, CellOf(tq));
      if startNode == null || targetNode == null || !targetNode.Walkable {
        return;
      }
      ViewMatches(m);
      found, waypoints, route, cost, iterations :=
        Search(m, ViewOf(m), Query(units, startWorld, CellOf(sq), CellOf(tq)));
    }

    /** The main loop of the search: take the open cell with the least F
        (then least H), close it, stop with the retraced route if it is the
        target, otherwise relax its neighbours. */
    method Search(m: GridMap, ghost v: GridView, q: Query)
      returns (found: bool, waypoints: seq<Vec3>, ghost route: seq<Cell>, ghost cost: int,
               ghost iterations: nat)
      requires m == grid && m.Valid() && Matches(v, m) && 0.0 < unitInfluenceRadius
      requires InView(v, q.start)
      ensures !found ==> waypoints == []
      ensures found <==> q.start != q.target && Reachable(Config(), v, q)
      ensures found ==> FoundRoute(Config(), v, q, route, cost, waypoints)
      ensures iterations <= v.sizeX * v.sizeY
    {
      found, waypoints, route, cost := false, [], [], 0;
      var reached, s;
      ghost var rank;
      reached, s, rank, iterations := Explore(m, v, q);
      if reached {
        found, waypoints, route, cost := Finish(m, v, q, s, rank);
        if found {
          assert LegalRoute(Config(), v, q, route) && route[|route| - 1] == q.target;
        }
      } else {
        ExhaustedUnreachable(Config(), v, q, s);
      }
    }

    /** The loop of the search, up to closing the target or running out of
        open cells; `iterations` counts its passes. */
    method Explore(m: GridMap, ghost v: GridView, q: Query)
      returns (reached: bool, s: Scratch, ghost rank: map<Cell, nat>, ghost iterations: nat)
      requires m == grid && m.Valid() && Matches(v, m) && 0.0 < unitInfluenceRadius
      requires InView(v, q.start)
      ensures Inv(Config(), v, q, s, rank)
      ensures reached <==> q.target in s.closed
      ensures !reached ==> s.open == [] && q.start in s.closed && Closure(Config(), v, q, s)
      ensures iterations <= v.sizeX * v.sizeY
    {
      s := Scratch([q.start], {}, map[q.start := 0], map[q.start := 0], map[]);
      rank := map[];
      iterations := 0;
      InitKeepsInv(Config(), v, q);
      WithinView(v, {});
      reached := false;
      while !reached && |s.open| > 0
        invariant Inv(Config(), v, q, s, rank)
        invariant q.start in s.closed || s.open == [q.start]
        invariant reached <==> q.target in s.closed
        invariant Closure(Config(), v, q, s)
        invariant iterations == |s.closed| <= v.sizeX * v.sizeY
        decreases |ViewCells(v) - s.closed|, !reached
      {
        var current;
        current, s, rank := Round(m, v, q, s, rank);
        iterations := iterations + 1;
        reached := current == q.target;
      }
    }

    /** One pass of the main loop: close the best open cell and, unless it
        is the target, relax its neighbours. */
    method Round(m: GridMap, ghost v: GridView, q: Query, s: Scratch, ghost rank: map<Cell, nat>)
      returns (current: Cell, s': Scratch, ghost rank': map<Cell, nat>)
      requires m == grid && m.Valid() && Matches(v, m) && Inv(Config(), v, q, s, rank) && |s.open| > 0
      requires q.start in s.closed || s.open == [q.start]
      requires Closure(Config(), v, q, s)
      ensures current in s.open && forall c :: c in s.open ==> !Ahead(s.g, s.h, c, current)
      ensures exists k :: 0 <= k < |s.open| && s.open[k] == current &&
                          forall i :: 0 <= i < k ==> Ahead(s.g, s.h, current, s.open[i])
      ensures Inv(Config(), v, q, s', rank') && q.start in s'.closed && current in s'.closed
      ensures s'.closed == s.closed + {current} && Closure(Config(), v, q, s')
      ensures |ViewCells(v) - s'.closed| < |ViewCells(v) - s.closed|
      ensures |s'.closed| == |s.closed| + 1 <= v.sizeX * v.sizeY
    {
      current, s', rank' := CloseBest(v, q, s, rank);
      ghost var closedOne := s';
      if current != q.target {
        s' := Expand(m, v, q, current, s');
        VisitAllKeepsInv(Config(), v, q, closedOne, rank', current, Neighbours(allowDiagonals), |Neighbours(allowDiagonals)|);
        assert s'.closed == closedOne.closed;
      }
      RoundKeepsClosure(Config(), v, q, s, closedOne, s', current);
    }

    /** Picks the open cell no other open cell is ahead of (the first such
        in the list), moves it from the open list to the closed set and
        numbers it after every closed cell. */
    method CloseBest(ghost v: GridView, q: Query, s: Scratch, ghost rank: map<Cell, nat>)
      returns (current: Cell, s': Scratch, ghost rank': map<Cell, nat>)
      requires Inv(Config(), v, q, s, rank) && |s.open| > 0 && 0 <= v.sizeX && 0 <= v.sizeY
      requires q.start in s.closed || s.open == [q.start]
      ensures current in s.open && current !in s.closed
      ensures forall c :: c in s.open ==> !Ahead(s.g, s.h, c, current)
      ensures s' == s.(open := s'.open, closed := s.closed + {current})
      ensures exists k :: 0 <= k < |s.open| && s.open[k] == current && s'.open == s.open[..k] + s.open[k + 1..] &&
                          forall i :: 0 <= i < k ==> Ahead(s.g, s.h, current, s.open[i])
      ensures forall c :: c in s'.open <==> c in s.open && c != current
      ensures Inv(Config(), v, q, s', rank') && q.start in s'.closed
      ensures |ViewCells(v) - s'.closed| < |ViewCells(v) - s.closed|
      ensures |s'.closed| == |s.closed| + 1 <= v.sizeX * v.sizeY
    {
      var k := SelectBest(s.open, s.g, s.h);
      current := s.open[k];
      CloseKeepsInv(Config(), v, q, s, rank, k);
      RemoveAt(s.open, k);
      ClosingCounts(v, s, rank, current);
      rank' := rank[current := |s.closed|];
      s' := s.(open := s.open[..k] + s.open[k + 1..], closed := s.closed + {current});
    }

    /** The search has just closed the target: read the route back from the
        parent links and simplify it. An empty route (the start is the
        target) counts as not found. */
    method Finish(m: GridMap, ghost v: GridView, q: Query, s: Scratch, ghost rank: map<Cell, nat>)
      returns (found: bool, waypoints: seq<Vec3>, ghost route: seq<Cell>, ghost cost: int)
      requires SameFrame(v, m) && Inv(Config(), v, q, s, rank) && q.target in s.closed
      ensures !found ==> waypoints == []
      ensures found <==> q.start != q.target
      ensures found ==> FoundRoute(Config(), v, q, route, cost, waypoints)
    {
      InvGivesTree(Config(), v, q, s, rank);
      var nodes;
      waypoints, nodes := RetraceAndSimplify(m, q.start, q.target, s.parent, s.closed, rank);
      found := |waypoints| > 0;
      route := nodes;
      cost := 0;
      if found {
        cost := s.g[q.target];
        CentersInView(m, v, Kept(route, |route|), q.target);
        RetracedRouteFound(Config(), v, q, s, rank, route, waypoints);
      }
    }

    /** Relaxes every neighbour of the just-closed `current`. */
    method Expand(m: GridMap, ghost v: GridView, q: Query, current: Cell, s: Scratch) returns (s': Scratch)
      requires m == grid && m.Valid() && Matches(v, m) && 0.0 < unitInfluenceRadius
      requires InView(v, current) && Expandable(s, current)
      ensures s' == VisitAll(Config(), v, q, s, current, Neighbours(allowDiagonals), |Neighbours(allowDiagonals)|)
    {
      var curNode := m.GetNode(current.x, current.y);
      var neigh := Neighbours(allowDiagonals);
      s' := s;
      for i := 0 to |neigh|
        invariant s' == VisitAll(Config(), v, q, s, current, neigh, i)
      {
        s' := VisitNeighbour(m, v, q, current, curNode, neigh[i], s');
      }
    }

    /** One pass of the neighbour loop: relax the neighbour through
        `current` when it may be entered and is new to the open list or
        cheaper through `current`. */
    method VisitNeighbour(m: GridMap, ghost v: GridView, q: Query, current: Cell, curNode: Node, d: Dir,
                          s: Scratch) returns (s': Scratch)
      requires m == grid && m.Valid() && Matches(v, m) && 0.0 < unitInfluenceRadius
      requires d in Neighbours(allowDiagonals) && Expandable(s, current)
      requires curNode.X == current.x && curNode.Y == current.y
      ensures s' == Visit(Config(), v, q, s, current, d)
    {
      s' := s;
      var c := Cell(current.x + d.dx, current.y + d.dy);
      var nb := CheckNeighbour(m, v, q, s.closed, current, d);
      if nb == null {
        VisitCases(Config(), v, q, s, current, d, false, 0);
        return;
      }
      var step := StepCost(q.units, curNode, nb, q.self);
      assert Cell(curNode.X, curNode.Y) == current && Cell(nb.X, nb.Y) == c;
      assert step == MoveCost(Config(), v, q, current, c);
      var moveCost := s.g[current] + step;
      VisitCases(Config(), v, q, s, current, d, true, moveCost);
      var inOpen := c in s.open;
      if !inOpen || moveCost < s.g[c] {
        s' := Relax(s, current, c, moveCost, q.target);
      }
    }

    /** The skip tests of the neighbour loop: the neighbour's node when it is
        not closed and the move to it is legal, null otherwise. */
    method CheckNeighbour(m: GridMap, ghost v: GridView, q: Query, closed: set<Cell>, current: Cell, d: Dir)
      returns (nb: Node?)
      requires m == grid && m.Valid() && Matches(v, m) && d in Neighbours(allowDiagonals)
      ensures var c := Cell(current.x + d.dx, current.y + d.dy);
              (nb != null <==> c !in closed && Legal(Config(), v, q, current, c)) &&
              (nb != null ==> InView(v, c) && nb.X == c.x && nb.Y == c.y && nb.WorldPos == CenterOf(v, c))
    {
      var c := Cell(current.x + d.dx, current.y + d.dy);
      var ca, cb := Cell(current.x + d.dx, current.y), Cell(current.x, current.y + d.dy);
      CenterAgrees(v, m, c);
      nb := m.GetNode(c.x, c.y);
      if nb == null || !nb.Walkable || c in closed {
        return null;
      }
      if allowDiagonals && d.dx != 0 && d.dy != 0 {
        var a := m.GetNode(ca.x, ca.y);
        var b := m.GetNode(cb.x, cb.y);
        if (a != null && !a.Walkable) || (b != null && !b.Walkable) {
          return null;
        }
      }
      var occupied := IsCellOccupiedByUnit(q.units, nb.WorldPos, q.self);
      if occupied {
        return null;
      }
    }
  }
}
