/** Value types shared by the grid, the search and the agents: Unity's
    vectors over the reals, its rounding to the nearest integer, and the
    magnitude comparisons the agents make. */
module Geometry {

  datatype Option<T> = None | Some(value: T)

  /** Unity's Vector2 and Vector3, with real components. */
  datatype Vec2 = Vec2(x: real, y: real)
  datatype Vec3 = Vec3(x: real, y: real, z: real)

  function Add(a: Vec3, b: Vec3): Vec3 { Vec3(a.x + b.x, a.y + b.y, a.z + b.z) }
  function Sub(a: Vec3, b: Vec3): Vec3 { Vec3(a.x - b.x, a.y - b.y, a.z - b.z) }
  function SqrMagnitude(v: Vec3): real { v.x * v.x + v.y * v.y + v.z * v.z }

  /** The vector with its vertical component zeroed (`to.y = 0f`). */
  function Planar(v: Vec3): Vec3 { Vec3(v.x, 0.0, v.z) }

  /** `v.magnitude <= r`, decided without a square root: the magnitude is
      the non-negative root of the squared magnitude. */
  predicate MagnitudeAtMost(v: Vec3, r: real) { 0.0 <= r && SqrMagnitude(v) <= r * r }

  /** `v.magnitude < r`, decided the same way. */
  predicate MagnitudeBelow(v: Vec3, r: real) { 0.0 < r && SqrMagnitude(v) < r * r }

  /** `Mathf.RoundToInt`: the nearest integer, and on a tie the even one
      (it rounds through `Math.Round`, which rounds half to even). */
  function RoundToInt(r: real): (n: int)
    ensures -0.5 <= r - n as real <= 0.5
    ensures (r - n as real == 0.5 || n as real - r == 0.5) ==> n % 2 == 0
  {
    var f := r.Floor;
    var frac := r - f as real;
    if frac < 0.5 then f
    else if frac > 0.5 then f + 1
    else if f % 2 == 0 then f
    else f + 1
  }

  /** Rounding never reverses an order. */
  lemma RoundToIntMonotone(a: real, b: real)
    requires a <= b
    ensures RoundToInt(a) <= RoundToInt(b)
  {
  }

  /** A value between 0 and an integer bound rounds to an integer between them. */
  lemma RoundToIntWithin(r: real, bound: int)
    requires 0.0 <= r <= bound as real
    ensures 0 <= RoundToInt(r) <= bound
  {
  }

  /** `Mathf.Clamp01`. */
  function Clamp01(t: real): (c: real)
    ensures 0.0 <= c <= 1.0
    ensures 0.0 <= t <= 1.0 ==> c == t
  {
    if t < 0.0 then 0.0 else if t > 1.0 then 1.0 else t
  }
}
