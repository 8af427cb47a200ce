/** The integer cost model of the search: the octile heuristic, the base
    cost of one move, and the penalty other units add around a cell. The
    physics queries behind the penalty are an oracle (`UnitQuery`). */
module Costs {
  import opened Geometry
  import opened Grid

  function Abs(n: int): nat { if n < 0 then -n else n }
  function Min(a: int, b: int): int { if a <= b then a else b }
  function Max(a: int, b: int): int { if a <= b then b else a }

  /** Octile distance between two cells in cost units: 14 per diagonal
      step, 10 per straight step. */
  function Heuristic(a: Cell, b: Cell): (h: nat)
    ensures h == 10 * Max(Abs(a.x - b.x), Abs(a.y - b.y)) + 4 * Min(Abs(a.x - b.x), Abs(a.y - b.y))
  {
    var dx := Abs(a.x - b.x);
    var dy := Abs(a.y - b.y);
    var diag := Min(dx, dy);
    var straight := Abs(dx - dy);
    diag * 14 + straight * 10
  }

  lemma HeuristicSymmetric(a: Cell, b: Cell)
    ensures Heuristic(a, b) == Heuristic(b, a)
  {
  }

  lemma HeuristicZeroIff(a: Cell, b: Cell)
    ensures Heuristic(a, b) == 0 <==> a == b
  {
  }

  /** One king move: each coordinate changes by at most one, and not both by zero. */
  predicate KingMove(a: Cell, b: Cell)
  {
    Abs(b.x - a.x) <= 1 && Abs(b.y - a.y) <= 1 && a != b
  }

  /** The cost of a move before unit penalties: 14 when both coordinates
      change, 10 otherwise. */
  function BaseCost(from: Cell, to: Cell): (c: nat)
    ensures c == 10 || c == 14
    ensures c == 14 <==> from.x != to.x && from.y != to.y
  {
    if from.x != to.x && from.y != to.y then 14 else 10
  }

  /** The heuristic is consistent: one move changes it by no more than the
      move's base cost. */
  lemma HeuristicConsistent(a: Cell, b: Cell, t: Cell)
    requires KingMove(a, b)
    ensures Heuristic(a, t) <= BaseCost(a, b) + Heuristic(b, t)
  {
    GapShift(a.x, b.x, t.x);
    GapShift(a.y, b.y, t.y);
    OctileStep(Heuristic(a, t), Heuristic(b, t), BaseCost(a, b),
               Abs(a.x - t.x), Abs(a.y - t.y), Abs(b.x - t.x), Abs(b.y - t.y), Abs(b.x - a.x), Abs(b.y - a.y));
  }

  /** Moving one end of a gap changes its length by at most the move. */
  lemma GapShift(u: int, v: int, w: int)
    ensures Abs(Abs(u - w) - Abs(v - w)) <= Abs(v - u)
  {
  }

  /** The octile distance `h` over axis gaps (p, q) exceeds the one `h2`
      over (p2, q2) by at most the cost `step` of a move that changes the
      gaps by at most sx and sy. */
  lemma OctileStep(h: int, h2: int, step: int, p: nat, q: nat, p2: nat, q2: nat, sx: nat, sy: nat)
    requires sx <= 1 && sy <= 1 && Abs(p - p2) <= sx && Abs(q - q2) <= sy
    requires h == 10 * Max(p, q) + 4 * Min(p, q) && h2 == 10 * Max(p2, q2) + 4 * Min(p2, q2)
    requires step == if sx == 1 && sy == 1 then 14 else 10
    ensures h <= step + h2
  {
  }

  /** A walk of king moves starting at `from`. */
  predicate KingWalk(from: Cell, walk: seq<Cell>)
  {
    (|walk| > 0 ==> KingMove(from, walk[0])) &&
    forall i :: 0 < i < |walk| ==> KingMove(walk[i - 1], walk[i])
  }

  /** The summed base costs of a walk. */
  function WalkCost(from: Cell, walk: seq<Cell>): nat
    decreases |walk|
  {
    if walk == [] then 0 else BaseCost(from, walk[0]) + WalkCost(walk[0], walk[1..])
  }

  /** The heuristic is admissible: it never exceeds the base cost of any
      walk to the target, so it never exceeds the cost of any search route
      (penalties only add to the base costs). */
  lemma {:induction false} HeuristicAdmissible(from: Cell, walk: seq<Cell>)
    requires |walk| > 0 && KingWalk(from, walk)
    ensures Heuristic(from, walk[|walk| - 1]) <= WalkCost(from, walk)
    decreases |walk|
  {
    var t := walk[|walk| - 1];
    HeuristicConsistent(from, walk[0], t);
    if |walk| > 1 {
      var rest := walk[1..];
      assert KingWalk(walk[0], rest) by {
        forall i | 0 < i < |rest| ensures KingMove(rest[i - 1], rest[i]) {
          assert KingMove(walk[i], walk[i + 1]);
        }
      }
      HeuristicAdmissible(walk[0], rest);
      assert rest[|rest| - 1] == t;
    } else {
      HeuristicZeroIff(walk[0], t);
    }
  }

  /** The physics queries about other units. `overlap(center, radius)`
      lists the positions of the unit colliders within `radius` of
      `center`; `distance` is `Vector3.Distance`. */
  datatype UnitQuery = UnitQuery(overlap: (Vec3, real) -> seq<Vec3>, distance: (Vec3, Vec3) -> real)

  /** The non-allocating overlap query writes into a shared buffer of 32
      colliders, so it reports at most the first 32. */
  const HitBufferSize: nat := 32

  function Hits(q: UnitQuery, center: Vec3, radius: real): (hs: seq<Vec3>)
    ensures |hs| <= HitBufferSize && |hs| <= |q.overlap(center, radius)|
    ensures hs == q.overlap(center, radius)[..|hs|]
    ensures |hs| < HitBufferSize ==> hs == q.overlap(center, radius)
  {
    var all := q.overlap(center, radius);
    if |all| <= HitBufferSize then all else all[..HitBufferSize]
  }

  /** A collider counts as the searching unit itself when it sits (almost)
      exactly at the search's start position. */
  predicate IsSelf(unit: Vec3, self: Vec3)
  {
    SqrMagnitude(Sub(unit, self)) < 0.0001
  }

  /** Some other unit is within `blockRadius` of the cell centre. */
  predicate Occupied(q: UnitQuery, cellWorld: Vec3, blockRadius: real, self: Vec3)
  {
    var hs := Hits(q, cellWorld, blockRadius);
    exists i :: 0 <= i < |hs| && !IsSelf(hs[i], self)
  }

  /** How strongly a unit at distance `d` weighs: `clamp01(1 - d / radius)`. */
  function Falloff(d: real, radius: real): (t: real)
    requires 0.0 < radius
    ensures 0.0 <= t <= 1.0
  {
    Clamp01(1.0 - d / radius)
  }

  /** What one other unit at distance `d` adds: `penaltyMax * t * t`
      rounded to the nearest integer, with `t` the falloff. */
  function Weight(m: nat, t: real): real
  {
    m as real * t * t
  }

  function Contribution(penaltyMax: nat, d: real, radius: real): (p: int)
    requires 0.0 < radius
    ensures 0 <= p <= penaltyMax
    ensures d >= radius ==> p == 0
  {
    var t := Falloff(d, radius);
    WeightWithin(penaltyMax, t);
    RoundToIntWithin(Weight(penaltyMax, t), penaltyMax);
    if d >= radius then
      FalloffVanishes(d, radius);
      RoundToInt(Weight(penaltyMax, t))
    else
      RoundToInt(Weight(penaltyMax, t))
  }

  lemma MulMonotoneNat(a: nat, b: nat, m: nat)
    requires a <= b
    ensures a * m <= b * m
  {
    assert b * m - a * m == (b - a) * m;
  }

  lemma MulNonneg(a: real, b: real)
    requires 0.0 <= a && 0.0 <= b
    ensures 0.0 <= a * b
  {
  }

  lemma WeightWithin(m: nat, t: real)
    requires 0.0 <= t <= 1.0
    ensures 0.0 <= Weight(m, t) <= m as real
  {
    var r := m as real;
    MulNonneg(r, t);
    MulNonneg(r * t, t);
    MulNonneg(r, 1.0 - t);
    assert r * (1.0 - t) == r - r * t;
    MulNonneg(r * t, 1.0 - t);
    assert (r * t) * (1.0 - t) == r * t - r * t * t;
  }

  /** Dividing both sides of `b * s <= a * s` by a positive `s`. */
  lemma CancelPositive(a: real, b: real, s: real)
    requires 0.0 < s && b * s <= a * s
    ensures b <= a
  {
    assert a * s - b * s == (a - b) * s;
  }

  /** A unit at or beyond the influence radius has no weight. */
  lemma FalloffVanishes(d: real, radius: real)
    requires 0.0 < radius <= d
    ensures Falloff(d, radius) == 0.0
  {
    var q := d / radius;
    assert q * radius == d;
    assert 1.0 * radius == radius;
    CancelPositive(q, 1.0, radius);
  }

  lemma FalloffAntitone(d1: real, d2: real, radius: real)
    requires 0.0 < radius && d1 <= d2
    ensures Falloff(d2, radius) <= Falloff(d1, radius)
  {
    var q1, q2 := d1 / radius, d2 / radius;
    assert q1 * radius == d1 && q2 * radius == d2;
    CancelPositive(q2, q1, radius);
  }

  lemma WeightMonotone(m: nat, a: real, b: real)
    requires 0.0 <= a <= b
    ensures Weight(m, a) <= Weight(m, b)
  {
    var r := m as real;
    MulNonneg(r, b - a);
    assert r * (b - a) == r * b - r * a;
    MulNonneg(r, a);
    MulNonneg(r * b - r * a, a);
    assert (r * b - r * a) * a == r * b * a - r * a * a;
    MulNonneg(r, b);
    MulNonneg(r * b, b - a);
    assert (r * b) * (b - a) == r * b * b - r * b * a;
  }

  /** A nearer unit never contributes less than a farther one. */
  lemma ContributionAntitone(penaltyMax: nat, d1: real, d2: real, radius: real)
    requires 0.0 < radius && d1 <= d2
    ensures Contribution(penaltyMax, d2, radius) <= Contribution(penaltyMax, d1, radius)
  {
    var t1, t2 := Falloff(d1, radius), Falloff(d2, radius);
    FalloffAntitone(d1, d2, radius);
    WeightMonotone(penaltyMax, t2, t1);
    RoundToIntMonotone(Weight(penaltyMax, t2), Weight(penaltyMax, t1));
  }

  /** The penalty summed over the first `n` hits, skipping the searching
      unit itself. */
  function PenaltyPrefix(q: UnitQuery, hs: seq<Vec3>, n: nat, cellWorld: Vec3, self: Vec3,
                         radius: real, penaltyMax: nat): int
    requires 0.0 < radius && n <= |hs|
  {
    if n == 0 then 0
    else if IsSelf(hs[n - 1], self) then PenaltyPrefix(q, hs, n - 1, cellWorld, self, radius, penaltyMax)
    else PenaltyPrefix(q, hs, n - 1, cellWorld, self, radius, penaltyMax)
         + Contribution(penaltyMax, q.distance(cellWorld, hs[n - 1]), radius)
  }

  /** The unit penalty of a cell: every other unit within the influence
      radius adds its contribution. */
  function UnitPenalty(q: UnitQuery, cellWorld: Vec3, self: Vec3, radius: real, penaltyMax: nat): int
    requires 0.0 < radius
  {
    var hs := Hits(q, cellWorld, radius);
    PenaltyPrefix(q, hs, |hs|, cellWorld, self, radius, penaltyMax)
  }

  /** Each hit adds between 0 and `penaltyMax`. */
  lemma {:induction false} PenaltyPrefixBounds(q: UnitQuery, hs: seq<Vec3>, n: nat, cellWorld: Vec3,
                                              self: Vec3, radius: real, penaltyMax: nat)
    requires 0.0 < radius && n <= |hs|
    ensures 0 <= PenaltyPrefix(q, hs, n, cellWorld, self, radius, penaltyMax) <= n * penaltyMax
  {
    if n > 0 {
      PenaltyPrefixBounds(q, hs, n - 1, cellWorld, self, radius, penaltyMax);
      assert (n - 1) * penaltyMax + penaltyMax == n * penaltyMax;
    }
  }

  /** The penalty of a cell is never negative and at most 32 full
      contributions. */
  lemma UnitPenaltyBounds(q: UnitQuery, cellWorld: Vec3, self: Vec3, radius: real, penaltyMax: nat)
    requires 0.0 < radius
    ensures 0 <= UnitPenalty(q, cellWorld, self, radius, penaltyMax) <= HitBufferSize * penaltyMax
  {
    var hs := Hits(q, cellWorld, radius);
    PenaltyPrefixBounds(q, hs, |hs|, cellWorld, self, radius, penaltyMax);
    MulMonotoneNat(|hs|, HitBufferSize, penaltyMax);
  }

  /** With no other unit in range the penalty is zero. */
  lemma UnitPenaltyAlone(q: UnitQuery, cellWorld: Vec3, self: Vec3, radius: real, penaltyMax: nat)
    requires 0.0 < radius
    requires forall u :: u in Hits(q, cellWorld, radius) ==> IsSelf(u, self)
    ensures UnitPenalty(q, cellWorld, self, radius, penaltyMax) == 0
  {
    var hs := Hits(q, cellWorld, radius);
    OnlySelfAddsNothing(q, hs, |hs|, cellWorld, self, radius, penaltyMax);
  }

  lemma {:induction false} OnlySelfAddsNothing(q: UnitQuery, hs: seq<Vec3>, n: nat, cellWorld: Vec3,
                                              self: Vec3, radius: real, penaltyMax: nat)
    requires 0.0 < radius && n <= |hs|
    requires forall u :: u in hs ==> IsSelf(u, self)
    ensures PenaltyPrefix(q, hs, n, cellWorld, self, radius, penaltyMax) == 0
  {
    if n > 0 {
      OnlySelfAddsNothing(q, hs, n - 1, cellWorld, self, radius, penaltyMax);
    }
  }
}
