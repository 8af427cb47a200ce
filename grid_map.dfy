/** The walkability grid: a rectangle of cells laid over the world's
    horizontal (x, z) plane, built once from an obstacle test and then
    queried by cell coordinates or by world position. */
module Grid {
  import opened Geometry

  /** Integer cell coordinates; `y` indexes the world's z axis. */
  datatype Cell = Cell(x: int, y: int)

  /** The answer of `WorldToCell`: the cell coordinates it computed and
      whether they lie inside the grid. */
  datatype CellQuery = CellQuery(ok: bool, x: int, y: int)

  /** One grid cell. Its coordinates, centre and walkability are fixed when
      the grid is built; G, H and Parent are search scratch. */
  class Node {
    const X: int
    const Y: int
    const WorldPos: Vec3
    const Walkable: bool

    var G: int
    var H: int
    var Parent: Node?

    constructor (x: int, y: int, pos: Vec3, walkable: bool)
      ensures X == x && Y == y && WorldPos == pos && Walkable == walkable
      ensures G == 0 && H == 0 && Parent == null
    {
      X, Y, WorldPos, Walkable := x, y, pos, walkable;
      G, H, Parent := 0, 0, null;
    }

    /** The A* priority: cost so far plus the estimate to the target. */
    function F(): int
      reads this
    {
      G + H
    }

    /** Clears the search scratch; coordinates, centre and walkability are
        constants and so stay as they are. */
    method ResetPath()
      modifies this
      ensures G == 0 && H == 0 && Parent == null
      ensures F() == 0
    {
      G, H, Parent := 0, 0, null;
    }
  }

  /** The grid. `nodes` is the `Node[SizeX, SizeY]` array; before the first
      build it is empty and both dimensions are 0. */
  class GridMap {
    var WorldSize: Vec2
    const CellSize: real
    var Origin: Vec3
    var SizeX: int
    var SizeY: int
    var nodes: array2<Node?>

    /** Every in-range entry holds the node for its own coordinates, centred
        where `CellToWorldCenter` says. */
    ghost predicate Valid()
      reads this, nodes
    {
      0.0 < CellSize &&
      nodes.Length0 == SizeX && nodes.Length1 == SizeY &&
      forall x, y :: 0 <= x < SizeX && 0 <= y < SizeY ==> HoldsCell(nodes[x, y], x, y)
    }

    ghost predicate HoldsCell(n: Node?, x: int, y: int)
      reads this
    {
      n != null && n.X == x && n.Y == y && n.WorldPos == CellToWorldCenter(x, y)
    }

    predicate InBounds(x: int, y: int)
      reads this
    {
      0 <= x < SizeX && 0 <= y < SizeY
    }

    /** All the cells of the grid. */
    function Cells(): set<Cell>
      reads this
    {
      set x, y | 0 <= x < SizeX && 0 <= y < SizeY :: Cell(x, y)
    }

    constructor (worldSize: Vec2, cellSize: real)
      requires 0.0 < cellSize
      ensures Valid()
      ensures WorldSize == worldSize && CellSize == cellSize
      ensures SizeX == 0 && SizeY == 0
    {
      WorldSize := worldSize;
      CellSize := cellSize;
      Origin := Vec3(0.0, 0.0, 0.0);
      SizeX, SizeY := 0, 0;
      nodes := new Node?[0, 0];
    }

    /** Half-extents of the box the obstacle test probes at each cell centre:
        0.45 of a cell horizontally, so that geometry flush with a cell
        boundary does not block both neighbours. */
    function ProbeHalfExtents(): Vec3
    {
      Vec3(CellSize * 0.45, 0.5, CellSize * 0.45)
    }

    /** The node stored for a cell, with the walkability the obstacle test gave it. */
    ghost predicate BuiltCell(n: Node?, x: int, y: int, blocked: (Vec3, Vec3) -> bool)
      reads this
    {
      HoldsCell(n, x, y) && n.Walkable == !blocked(CellToWorldCenter(x, y), ProbeHalfExtents())
    }

    /** Rebuilds the whole grid around `position`. `blocked` is the physics
        box-overlap test against the obstacle layers, given a centre and
        half-extents. */
    method Build(position: Vec3, blocked: (Vec3, Vec3) -> bool)
      requires 0.0 < CellSize
      requires RoundToInt(WorldSize.x / CellSize) >= 0 && RoundToInt(WorldSize.y / CellSize) >= 0
      modifies this
      ensures Valid() && fresh(nodes)
      ensures WorldSize == old(WorldSize)
      ensures SizeX == RoundToInt(WorldSize.x / CellSize)
      ensures SizeY == RoundToInt(WorldSize.y / CellSize)
      ensures Origin == Vec3(position.x - WorldSize.x * 0.5, position.y, position.z - WorldSize.y * 0.5)
      ensures forall x, y :: 0 <= x < SizeX && 0 <= y < SizeY ==> BuiltCell(nodes[x, y], x, y, blocked)
    {
      SizeX := RoundToInt(WorldSize.x / CellSize);
      SizeY := RoundToInt(WorldSize.y / CellSize);
      Origin := Sub(position, Vec3(WorldSize.x * 0.5, 0.0, WorldSize.y * 0.5));
      var a := new Node?[SizeX, SizeY];
      nodes := a;
      for x := 0 to SizeX
        modifies a
        invariant forall i, j :: 0 <= i < x && 0 <= j < SizeY ==> BuiltCell(a[i, j], i, j, blocked)
      {
        for y := 0 to SizeY
          modifies a
          invariant forall i, j :: 0 <= i < x && 0 <= j < SizeY ==> BuiltCell(a[i, j], i, j, blocked)
          invariant forall j :: 0 <= j < y ==> BuiltCell(a[x, j], x, j, blocked)
        {
          var p := CellToWorldCenter(x, y);
          var isBlocked := blocked(p, ProbeHalfExtents());
          a[x, y] := new Node(x, y, p, !isBlocked);
        }
      }
    }

    /** The node at (x, y), or null outside the grid; never fails. */
    function GetNode(x: int, y: int): (n: Node?)
      reads this, nodes
      requires Valid()
      ensures n == null <==> !InBounds(x, y)
      ensures n != null ==> n == nodes[x, y] && n.X == x && n.Y == y
      ensures n != null ==> n.WorldPos == CellToWorldCenter(x, y)
    {
      if x < 0 || y < 0 || x >= SizeX || y >= SizeY then null else nodes[x, y]
    }

    /** The cell whose square contains `world` on the horizontal plane, and
        whether that cell is inside the grid. */
    function WorldToCell(world: Vec3): (q: CellQuery)
      reads this
      requires 0.0 < CellSize
      ensures q.ok <==> InBounds(q.x, q.y)
      ensures Origin.x + q.x as real * CellSize <= world.x < Origin.x + (q.x + 1) as real * CellSize
      ensures Origin.z + q.y as real * CellSize <= world.z < Origin.z + (q.y + 1) as real * CellSize
    {
      var local := Sub(world, Origin);
      var x := (local.x / CellSize).Floor;
      var y := (local.z / CellSize).Floor;
      FloorScales(local.x, CellSize);
      FloorScales(local.z, CellSize);
      CellQuery(x >= 0 && y >= 0 && x < SizeX && y < SizeY, x, y)
    }

    /** The world position of the centre of cell (x, y), at the origin's height. */
    function CellToWorldCenter(x: int, y: int): (p: Vec3)
      reads this
      ensures p.y == Origin.y
      ensures 0.0 < CellSize ==> Origin.x + x as real * CellSize < p.x < Origin.x + (x + 1) as real * CellSize
      ensures 0.0 < CellSize ==> Origin.z + y as real * CellSize < p.z < Origin.z + (y + 1) as real * CellSize
    {
      CellCenter(Origin, CellSize, x, y)
    }
  }

  /** The centre of cell (x, y) of a grid with the given origin and cell size. */
  function CellCenter(origin: Vec3, size: real, x: int, y: int): Vec3
  {
    Add(origin, Vec3((x as real + 0.5) * size, 0.0, (y as real + 0.5) * size))
  }

  /** Flooring a quotient by a positive divisor picks the multiple of the
      divisor just at or below the dividend. */
  lemma FloorScales(d: real, s: real)
    requires 0.0 < s
    ensures (d / s).Floor as real * s <= d < ((d / s).Floor + 1) as real * s
  {
    var q := d / s;
    var k := q.Floor;
    assert k as real <= q < k as real + 1.0;
    assert q * s == d;
    ScaleMonotone(k as real, q, s);
    ScaleStrict(q, k as real + 1.0, s);
    assert (k + 1) as real == k as real + 1.0;
    assert k as real * s <= d;
    assert d < (k as real + 1.0) * s;
  }

  lemma ScaleMonotone(a: real, b: real, s: real)
    requires a <= b && 0.0 < s
    ensures a * s <= b * s
  {
    assert b * s - a * s == (b - a) * s;
  }

  lemma ScaleStrict(a: real, b: real, s: real)
    requires a < b && 0.0 < s
    ensures a * s < b * s
  {
    assert b * s - a * s == (b - a) * s;
  }

  /** Dividing a multiple of a positive size by that size undoes the product. */
  lemma DivideScaled(a: real, s: real, p: real)
    requires 0.0 < s && p == a * s
    ensures p / s == a
  {
    var q := p / s;
    assert q * s == p;
    assert q * s - a * s == (q - a) * s;
  }

  /** Round trip: the centre of a cell maps back to that same cell, and is
      reported valid exactly when the cell is inside the grid. */
  lemma WorldToCellOfCenter(m: GridMap, x: int, y: int)
    requires 0.0 < m.CellSize
    ensures m.WorldToCell(m.CellToWorldCenter(x, y)) == CellQuery(m.InBounds(x, y), x, y)
  {
    var c := m.CellToWorldCenter(x, y);
    var s := m.CellSize;
    var dx, dy := (x as real + 0.5) * s, (y as real + 0.5) * s;
    assert c.x - m.Origin.x == dx && c.z - m.Origin.z == dy;
    DivideScaled(x as real + 0.5, s, dx);
    DivideScaled(y as real + 0.5, s, dy);
    var local := Sub(c, m.Origin);
    assert local.x == dx && local.z == dy;
    assert local.x / s == dx / s && local.z / s == dy / s;
    HalfFloor(x);
    HalfFloor(y);
    assert dx / s == x as real + 0.5;
    assert (dx / s).Floor == x;
    assert (local.x / s).Floor == x && (local.z / s).Floor == y;
    var q := m.WorldToCell(c);
    assert q.x == (local.x / s).Floor && q.y == (local.z / s).Floor;
  }

  lemma HalfFloor(x: int)
    ensures (x as real + 0.5).Floor == x
  {
  }

  /** Every cell of the grid counted once: a w by h grid has w*h cells. */
  lemma {:induction false} CellCount(w: nat, h: nat)
    ensures |set x, y | 0 <= x < w && 0 <= y < h :: Cell(x, y)| == w * h
  {
    if w > 0 {
      var rest := set x, y | 0 <= x < w - 1 && 0 <= y < h :: Cell(x, y);
      var last := w - 1;
      var column := set y | 0 <= y < h :: Cell(last, y);
      var all := set x, y | 0 <= x < w && 0 <= y < h :: Cell(x, y);
      assert all == rest + column;
      assert rest * column == {};
      CellCount(w - 1, h);
      ColumnCount(w - 1, h);
      assert |all| == |rest| + |column|;
      assert (w - 1) * h + h == w * h;
    }
  }

  lemma {:induction false} ColumnCount(x: int, h: nat)
    ensures |set y | 0 <= y < h :: Cell(x, y)| == h
  {
    if h > 0 {
      var rest := set y | 0 <= y < h - 1 :: Cell(x, y);
      assert (set y | 0 <= y < h :: Cell(x, y)) == rest + {Cell(x, h - 1)};
      ColumnCount(x, h - 1);
    }
  }
}
