/**
 Plane and space vectors over the reals, the half-plane rows of an
 H-representation polytope, and the scalar helpers (absolute value,
 maximum, minimum, rounding) that the polytope routines share.
 All arithmetic of the original is double precision; here it is exact.
 */
module Geometry {

  datatype Vec2 = Vec2(x: real, y: real)

  datatype Vec3 = Vec3(x: real, y: real, z: real)

  function Dot2(a: Vec2, b: Vec2): real
  {
    a.x * b.x + a.y * b.y
  }

  function Add2(a: Vec2, b: Vec2): Vec2
  {
    Vec2(a.x + b.x, a.y + b.y)
  }

  function Dot3(a: Vec3, b: Vec3): real
  {
    a.x * b.x + a.y * b.y + a.z * b.z
  }

  /** One row (nx, ny, d) of an H-polytope: the closed half-plane nx*x + ny*y + d <= 0. */
  datatype HalfPlane = HalfPlane(nx: real, ny: real, d: real)

  /** The left-hand side nx*x + ny*y + d of a row at point p. */
  function Value(h: HalfPlane, p: Vec2): real
  {
    h.nx * p.x + h.ny * p.y + h.d
  }

  predicate Holds(h: HalfPlane, p: Vec2)
  {
    Value(h, p) <= 0.0
  }

  /** p satisfies every row of the polytope. */
  predicate Inside(hPoly: seq<HalfPlane>, p: Vec2)
  {
    forall i :: 0 <= i < |hPoly| ==> Holds(hPoly[i], p)
  }

  /** p satisfies every row of the polytope with room to spare. */
  predicate StrictlyInside(hPoly: seq<HalfPlane>, p: Vec2)
  {
    forall i :: 0 <= i < |hPoly| ==> Value(hPoly[i], p) < 0.0
  }

  /** n is the Euclidean length of the row's normal (nx, ny), and it is not zero. */
  predicate IsNorm(h: HalfPlane, n: real)
  {
    n > 0.0 && n * n == h.nx * h.nx + h.ny * h.ny
  }

  /** hNorm holds the normal length of each row of hPoly, in row order. */
  predicate RowNorms(hPoly: seq<HalfPlane>, hNorm: seq<real>)
  {
    |hNorm| == |hPoly| && forall i :: 0 <= i < |hPoly| ==> IsNorm(hPoly[i], hNorm[i])
  }

  function Abs(x: real): (r: real)
    ensures r >= 0.0 && (r == x || r == -x)
  {
    if x < 0.0 then -x else x
  }

  function Max(a: real, b: real): (r: real)
    ensures r >= a && r >= b && (r == a || r == b)
  {
    if a < b then b else a
  }

  function Min(a: real, b: real): (r: real)
    ensures r <= a && r <= b && (r == a || r == b)
  {
    if b < a then b else a
  }

  /**
   Rounding to the nearest integer with halfway cases away from zero
   (std::round). The result is the unique integer in the half-open
   interval of width one around x that is closed on the side away from zero.
   */
  function Round(x: real): (n: int)
    ensures x >= 0.0 ==> x - 0.5 < n as real <= x + 0.5
    ensures x < 0.0 ==> x - 0.5 <= n as real < x + 0.5
  {
    if x >= 0.0 then (x + 0.5).Floor else -((-x + 0.5).Floor)
  }
}
