/**
 return_pos, return_vel, return_acc: evaluate a cubic trajectory piece and
 its first two derivatives at a time t. The piece is a 3 x 4 coefficient
 matrix, one row per axis; column 3 holds the constant term, column 2 the
 linear, column 1 the quadratic and column 0 the cubic coefficient.
 */
module PieceEval {

  /** One row of the coefficient matrix: columns 0 to 3. */
  datatype CoeffRow = CoeffRow(c0: real, c1: real, c2: real, c3: real)

  /** A polynomial given by its coefficients in ascending powers, evaluated by Horner's rule. */
  function Eval(p: seq<real>, t: real): real
  {
    if p == [] then 0.0 else p[0] + t * Eval(p[1..], t)
  }

  /** The formal derivative: coefficient i of p' is (i + 1) times coefficient i + 1 of p. */
  function Derivative(p: seq<real>): (dp: seq<real>)
    ensures |dp| == if p == [] then 0 else |p| - 1
    ensures forall i :: 0 <= i < |dp| ==> dp[i] == (i + 1) as real * p[i + 1]
  {
    if p == [] then [] else seq(|p| - 1, i requires 0 <= i < |p| - 1 => (i + 1) as real * p[i + 1])
  }

  /** The row read as a polynomial in ascending powers: column 3 first, column 0 last. */
  function Ascending(row: CoeffRow): seq<real>
  {
    [row.c3, row.c2, row.c1, row.c0]
  }

  /** One Horner step: a polynomial with constant term a and higher terms p. */
  lemma EvalCons(a: real, p: seq<real>, t: real)
    ensures Eval([a] + p, t) == a + t * Eval(p, t)
  {
    assert ([a] + p)[1..] == p;
  }

  /** Horner's rule on at most four coefficients, written out. */
  lemma EvalCubic(a: real, b: real, c: real, d: real, t: real)
    ensures Eval([a, b, c, d], t) == a + t * b + t * t * c + t * t * t * d
    ensures Eval([a, b, c], t) == a + t * b + t * t * c
    ensures Eval([a, b], t) == a + t * b
  {
    EvalCons(d, [], t);
    EvalCons(c, [d], t);
    EvalCons(b, [c, d], t);
    EvalCons(a, [b, c, d], t);
    EvalCons(c, [], t);
    EvalCons(b, [c], t);
    EvalCons(a, [b, c], t);
    EvalCons(b, [], t);
    EvalCons(a, [b], t);
    assert [d] == [d] + [] && [c, d] == [c] + [d] && [b, c, d] == [b] + [c, d] && [a, b, c, d] == [a] + [b, c, d];
    assert [c] == [c] + [] && [b, c] == [b] + [c] && [a, b, c] == [a] + [b, c];
    assert [b] == [b] + [] && [a, b] == [a] + [b];
    HornerExpand(a, b, c, d, t);
  }

  /** The nested Horner form equals the sum of powers. */
  lemma HornerExpand(a: real, b: real, c: real, d: real, t: real)
    ensures a + t * (b + t * (c + t * d)) == a + t * b + t * t * c + t * t * t * d
    ensures a + t * (b + t * c) == a + t * b + t * t * c
  {
    assert t * (c + t * d) == t * c + t * t * d;
    assert t * (t * c + t * t * d) == t * t * c + t * t * t * d;
  }

  /** The derivatives of a cubic and of a quadratic, coefficient by coefficient. */
  lemma DerivativeOfCubic(a: real, b: real, c: real, d: real)
    ensures Derivative([a, b, c, d]) == [b, 2.0 * c, 3.0 * d]
    ensures Derivative([b, 2.0 * c, 3.0 * d]) == [2.0 * c, 6.0 * d]
  {
    var p, q := Derivative([a, b, c, d]), Derivative([b, 2.0 * c, 3.0 * d]);
    assert p[0] == b && p[1] == 2.0 * c && p[2] == 3.0 * d;
    assert q[0] == 2.0 * c && q[1] == 6.0 * d;
  }

  /** Component i of return_pos: the cubic of the row at t. */
  function PosOf(t: real, row: CoeffRow): (x: real)
    ensures x == Eval(Ascending(row), t)
  {
    EvalCubic(row.c3, row.c2, row.c1, row.c0, t);
    row.c3 + t * row.c2 + t * t * row.c1 + t * t * t * row.c0
  }

  /** Component i of return_vel: the derivative of the row's cubic at t. */
  function VelOf(t: real, row: CoeffRow): (v: real)
    ensures v == Eval(Derivative(Ascending(row)), t)
  {
    DerivativeOfCubic(row.c3, row.c2, row.c1, row.c0);
    EvalCubic(row.c2, 2.0 * row.c1, 3.0 * row.c0, 0.0, t);
    row.c2 + 2.0 * t * row.c1 + 3.0 * t * t * row.c0
  }

  /** Component i of return_acc: the second derivative of the row's cubic at t. */
  function AccOf(t: real, row: CoeffRow): (a: real)
    ensures a == Eval(Derivative(Derivative(Ascending(row))), t)
  {
    DerivativeOfCubic(row.c3, row.c2, row.c1, row.c0);
    EvalCubic(2.0 * row.c1, 6.0 * row.c0, 0.0, 0.0, t);
    2.0 * row.c1 + 6.0 * t * row.c0
  }

  /** return_pos: a fresh three-element buffer holding the position of each axis at t. */
  method ReturnPos(t: real, m: seq<CoeffRow>) returns (pos: array<real>)
    requires |m| == 3
    ensures fresh(pos) && pos.Length == 3
    ensures forall i :: 0 <= i < 3 ==> pos[i] == Eval(Ascending(m[i]), t)
  {
    pos := new real[3];
    for i := 0 to 3
      invariant forall k :: 0 <= k < i ==> pos[k] == Eval(Ascending(m[k]), t)
    {
      pos[i] := m[i].c3 + t * m[i].c2 + t * t * m[i].c1 + t * t * t * m[i].c0;
      assert pos[i] == PosOf(t, m[i]);
    }
  }

  /** return_vel: a fresh three-element buffer holding the velocity of each axis at t. */
  method ReturnVel(t: real, m: seq<CoeffRow>) returns (vel: array<real>)
    requires |m| == 3
    ensures fresh(vel) && vel.Length == 3
    ensures forall i :: 0 <= i < 3 ==> vel[i] == Eval(Derivative(Ascending(m[i])), t)
  {
    vel := new real[3];
    for i := 0 to 3
      invariant forall k :: 0 <= k < i ==> vel[k] == Eval(Derivative(Ascending(m[k])), t)
    {
      vel[i] := m[i].c2 + 2.0 * t * m[i].c1 + 3.0 * t * t * m[i].c0;
      assert vel[i] == VelOf(t, m[i]);
    }
  }

  /** return_acc: a fresh three-element buffer holding the acceleration of each axis at t. */
  method ReturnAcc(t: real, m: seq<CoeffRow>) returns (acc: array<real>)
    requires |m| == 3
    ensures fresh(acc) && acc.Length == 3
    ensures forall i :: 0 <= i < 3 ==> acc[i] == Eval(Derivative(Derivative(Ascending(m[i]))), t)
  {
    acc := new real[3];
    for i := 0 to 3
      invariant forall k :: 0 <= k < i ==> acc[k] == Eval(Derivative(Derivative(Ascending(m[k]))), t)
    {
      acc[i] := 2.0 * m[i].c1 + 6.0 * t * m[i].c0;
      assert acc[i] == AccOf(t, m[i]);
    }
  }

  /** At t = 0 the position is column 3, the velocity column 2 and the acceleration twice column 1. */
  lemma AtTimeZero(row: CoeffRow)
    ensures Eval(Ascending(row), 0.0) == row.c3
    ensures Eval(Derivative(Ascending(row)), 0.0) == row.c2
    ensures Eval(Derivative(Derivative(Ascending(row))), 0.0) == 2.0 * row.c1
  {
    assert PosOf(0.0, row) == row.c3;
    assert VelOf(0.0, row) == row.c2;
    assert AccOf(0.0, row) == 2.0 * row.c1;
  }

  /**
   A constant-position piece (only column 3 non-zero): the position is
   column 3 at every time, and velocity and acceleration are zero.
   */
  lemma ConstantPiece(row: CoeffRow, t: real)
    requires row.c0 == 0.0 && row.c1 == 0.0 && row.c2 == 0.0
    ensures Eval(Ascending(row), t) == row.c3
    ensures Eval(Derivative(Ascending(row)), t) == 0.0
    ensures Eval(Derivative(Derivative(Ascending(row))), t) == 0.0
  {
    assert PosOf(t, row) == row.c3;
    assert VelOf(t, row) == 0.0;
    assert AccOf(t, row) == 0.0;
  }

  /**
   The velocity is the rate of change of the position: the divided
   difference of the cubic between t and t + e is the velocity at t plus a
   term in e, (p(t + e) - p(t)) == e * (v(t) + e * (c1 + 3 t c0) + e^2 * c0).
   */
  lemma VelocityIsRateOfChange(row: CoeffRow, t: real, e: real)
    ensures PosOf(t + e, row) - PosOf(t, row) == e * (VelOf(t, row) + e * (row.c1 + 3.0 * t * row.c0) + e * e * row.c0)
  {
    var c0, c1, c2 := row.c0, row.c1, row.c2;
    assert (t + e) * (t + e) == t * t + 2.0 * t * e + e * e;
    assert (t + e) * (t + e) * (t + e) == t * t * t + 3.0 * t * t * e + 3.0 * t * e * e + e * e * e;
  }

  /** Likewise the acceleration is the rate of change of the velocity. */
  lemma AccelerationIsRateOfChange(row: CoeffRow, t: real, e: real)
    ensures VelOf(t + e, row) - VelOf(t, row) == e * (AccOf(t, row) + 3.0 * e * row.c0)
  {
    assert (t + e) * (t + e) == t * t + 2.0 * t * e + e * e;
  }
}
