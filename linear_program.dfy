/**
 The small-dimension linear-program solver (sdlp::linprog) that the
 interior-point search and the overlap test call. Its source is not part
 of this model: a solve is a function parameter of type Lp -> LpSolution,
 and what the callers rely on is stated as the predicates Sound and Optimal.
 */
module LinearProgram {
  import opened Geometry

  /** One constraint a . v <= b over the variables v = (x, y, r). */
  datatype Constraint = Constraint(a: Vec3, b: real)

  /** Minimise c . v subject to every row. */
  datatype Lp = Lp(c: Vec3, rows: seq<Constraint>)

  /** The solver's return value: a finite optimum, or an infinity (infeasible or unbounded). */
  datatype LpValue = Finite(value: real) | Infinite

  /** The returned value together with the point the solver writes to its out-parameter. */
  datatype LpSolution = LpSolution(value: LpValue, v: Vec3)

  /** The objective (0, 0, -1): minimising it maximises the margin variable r. */
  const MaxMargin: Vec3 := Vec3(0.0, 0.0, -1.0)

  predicate Satisfies(row: Constraint, v: Vec3)
  {
    Dot3(row.a, v) <= row.b
  }

  predicate Feasible(lp: Lp, v: Vec3)
  {
    forall i :: 0 <= i < |lp.rows| ==> Satisfies(lp.rows[i], v)
  }

  /** A finite answer comes with a feasible point at which the objective takes that value. */
  predicate Sound(lp: Lp, sol: LpSolution)
  {
    sol.value.Finite? ==> Feasible(lp, sol.v) && sol.value.value == Dot3(lp.c, sol.v)
  }

  /** A finite answer is no larger than the objective at any feasible point. */
  ghost predicate Optimal(lp: Lp, sol: LpSolution)
  {
    sol.value.Finite? ==> forall v :: Feasible(lp, v) ==> sol.value.value <= Dot3(lp.c, v)
  }
}
