/**
 findInterior: the Chebyshev-centre search. Every row of the polytope is
 divided by the length of its normal, so that a row measures Euclidean
 distance, and the linear program "maximise r subject to
 n_i . (x, y) / |n_i| + r <= -d_i / |n_i|" is handed to the solver. The
 search succeeds when the solver's value is finite and negative, that is
 when the largest margin r is positive.
 */
module InteriorPoint {
  import opened Geometry
  import opened LinearProgram

  /** The signed Euclidean distance of p from the row's boundary line, positive inside. */
  function Margin(h: HalfPlane, n: real, p: Vec2): real
    requires n > 0.0
  {
    -Value(h, p) / n
  }

  /** The row normalised by its normal length, with coefficient 1 on the margin variable. */
  function NormalizedRow(h: HalfPlane, n: real): Constraint
    requires n > 0.0
  {
    Constraint(Vec3(h.nx / n, h.ny / n, 1.0), -h.d / n)
  }

  /** The linear program findInterior assembles. */
  function InteriorLp(hPoly: seq<HalfPlane>, hNorm: seq<real>): (lp: Lp)
    requires RowNorms(hPoly, hNorm)
    ensures lp.c == MaxMargin && |lp.rows| == |hPoly|
    ensures forall i :: 0 <= i < |hPoly| ==> lp.rows[i] == NormalizedRow(hPoly[i], hNorm[i])
  {
    Lp(MaxMargin, seq(|hPoly|, i requires 0 <= i < |hPoly| => NormalizedRow(hPoly[i], hNorm[i])))
  }

  /**
   A normalised row holds at (p, r) exactly when the unnormalised row,
   shifted by r times the normal length, holds at p, and exactly when the
   margin of p is at least r.
   */
  lemma NormalizedRowMeaning(h: HalfPlane, n: real, p: Vec2, r: real)
    requires n > 0.0
    ensures Satisfies(NormalizedRow(h, n), Vec3(p.x, p.y, r)) <==> Value(h, p) + r * n <= 0.0
    ensures Satisfies(NormalizedRow(h, n), Vec3(p.x, p.y, r)) <==> r <= Margin(h, n, p)
  {
    var lhs := Dot3(NormalizedRow(h, n).a, Vec3(p.x, p.y, r));
    assert lhs == (h.nx * p.x + h.ny * p.y) / n + r;
    var v := Value(h, p);
    assert lhs - (-h.d / n) == (v + r * n) / n;
    assert Margin(h, n, p) - r == -(v + r * n) / n;
  }

  /** The outcome of findInterior: the success flag and the point written to `interior`. */
  datatype Interior = Interior(ok: bool, point: Vec2)

  /**
   findInterior. The point is the solver's (x, y) whether or not the search
   succeeds. When it succeeds and the solver's answer is sound, the point
   lies strictly inside every row.
   */
  function FindInterior(hPoly: seq<HalfPlane>, hNorm: seq<real>, solve: Lp -> LpSolution): (r: Interior)
    requires RowNorms(hPoly, hNorm)
    ensures r.ok <==> solve(InteriorLp(hPoly, hNorm)).value.Finite? && solve(InteriorLp(hPoly, hNorm)).value.value < 0.0
    ensures r.point == Vec2(solve(InteriorLp(hPoly, hNorm)).v.x, solve(InteriorLp(hPoly, hNorm)).v.y)
    ensures r.ok && Sound(InteriorLp(hPoly, hNorm), solve(InteriorLp(hPoly, hNorm)))
            ==> StrictlyInside(hPoly, r.point)
  {
    var sol := solve(InteriorLp(hPoly, hNorm));
    var ok := sol.value.Finite? && sol.value.value < 0.0;
    if ok && Sound(InteriorLp(hPoly, hNorm), sol) then
      InteriorCertified(hPoly, hNorm, sol);
      Interior(ok, Vec2(sol.v.x, sol.v.y))
    else
      Interior(ok, Vec2(sol.v.x, sol.v.y))
  }

  /**
   A sound, finite, negative answer certifies its point: every row's margin
   there is at least minus the value, which is positive.
   */
  lemma InteriorCertified(hPoly: seq<HalfPlane>, hNorm: seq<real>, sol: LpSolution)
    requires RowNorms(hPoly, hNorm)
    requires Sound(InteriorLp(hPoly, hNorm), sol) && sol.value.Finite? && sol.value.value < 0.0
    ensures forall i :: 0 <= i < |hPoly| ==>
              Margin(hPoly[i], hNorm[i], Vec2(sol.v.x, sol.v.y)) >= -sol.value.value
    ensures StrictlyInside(hPoly, Vec2(sol.v.x, sol.v.y))
  {
    var p := Vec2(sol.v.x, sol.v.y);
    var lp := InteriorLp(hPoly, hNorm);
    assert sol.v == Vec3(p.x, p.y, sol.v.z);
    assert sol.value.value == -sol.v.z;
    forall i | 0 <= i < |hPoly|
      ensures Margin(hPoly[i], hNorm[i], p) >= -sol.value.value
      ensures Value(hPoly[i], p) < 0.0
    {
      assert Satisfies(lp.rows[i], sol.v);
      NormalizedRowMeaning(hPoly[i], hNorm[i], p, sol.v.z);
      assert Value(hPoly[i], p) <= -sol.v.z * hNorm[i];
      assert sol.v.z * hNorm[i] > 0.0;
    }
  }

  /** The smallest margin of p over the rows k.. of the polytope. */
  function MinMarginFrom(hPoly: seq<HalfPlane>, hNorm: seq<real>, p: Vec2, k: nat): (m: real)
    requires RowNorms(hPoly, hNorm) && k < |hPoly|
    ensures forall i :: k <= i < |hPoly| ==> m <= Margin(hPoly[i], hNorm[i], p)
    ensures exists i :: k <= i < |hPoly| && m == Margin(hPoly[i], hNorm[i], p)
    decreases |hPoly| - k
  {
    if k == |hPoly| - 1 then Margin(hPoly[k], hNorm[k], p)
    else Min(Margin(hPoly[k], hNorm[k], p), MinMarginFrom(hPoly, hNorm, p, k + 1))
  }

  /**
   Maximality: on a sound and optimal answer, the point findInterior
   reports has a smallest margin at least as large as any other point's,
   so it is a Chebyshev centre of the polytope.
   */
  lemma FindInteriorMaximal(hPoly: seq<HalfPlane>, hNorm: seq<real>, solve: Lp -> LpSolution, p: Vec2)
    requires RowNorms(hPoly, hNorm) && |hPoly| > 0
    requires FindInterior(hPoly, hNorm, solve).ok
    requires Sound(InteriorLp(hPoly, hNorm), solve(InteriorLp(hPoly, hNorm)))
    requires Optimal(InteriorLp(hPoly, hNorm), solve(InteriorLp(hPoly, hNorm)))
    ensures MinMarginFrom(hPoly, hNorm, p, 0) <= MinMarginFrom(hPoly, hNorm, FindInterior(hPoly, hNorm, solve).point, 0)
  {
    var lp := InteriorLp(hPoly, hNorm);
    var sol := solve(lp);
    var m := MinMarginFrom(hPoly, hNorm, p, 0);
    var v := Vec3(p.x, p.y, m);
    forall i | 0 <= i < |lp.rows|
      ensures Satisfies(lp.rows[i], v)
    {
      NormalizedRowMeaning(hPoly[i], hNorm[i], p, m);
    }
    assert Feasible(lp, v);
    assert Dot3(lp.c, v) == -m;
    InteriorCertified(hPoly, hNorm, sol);
    var q := FindInterior(hPoly, hNorm, solve).point;
    var j :| 0 <= j < |hPoly| && MinMarginFrom(hPoly, hNorm, q, 0) == Margin(hPoly[j], hNorm[j], q);
  }

  /** A point strictly inside a row has a positive margin to it. */
  lemma MarginPositive(h: HalfPlane, n: real, p: Vec2)
    requires n > 0.0 && Value(h, p) < 0.0
    ensures Margin(h, n, p) > 0.0
  {
    assert -Value(h, p) > 0.0;
  }

  /**
   Completeness: when some point lies strictly inside every row and the
   solver returns a finite optimum, findInterior succeeds. (An infinite
   answer, which the solver gives for an unbounded region, fails even
   though interior points exist.)
   */
  lemma FindInteriorComplete(hPoly: seq<HalfPlane>, hNorm: seq<real>, solve: Lp -> LpSolution, p: Vec2)
    requires RowNorms(hPoly, hNorm)
    requires StrictlyInside(hPoly, p)
    requires solve(InteriorLp(hPoly, hNorm)).value.Finite?
    requires Optimal(InteriorLp(hPoly, hNorm), solve(InteriorLp(hPoly, hNorm)))
    ensures FindInterior(hPoly, hNorm, solve).ok
  {
    var lp := InteriorLp(hPoly, hNorm);
    var r0: real;
    if |hPoly| == 0 {
      r0 := 1.0;
    } else {
      r0 := MinMarginFrom(hPoly, hNorm, p, 0);
      var j :| 0 <= j < |hPoly| && r0 == Margin(hPoly[j], hNorm[j], p);
      MarginPositive(hPoly[j], hNorm[j], p);
    }
    assert r0 > 0.0;
    var v := Vec3(p.x, p.y, r0);
    forall i | 0 <= i < |lp.rows|
      ensures Satisfies(lp.rows[i], v)
    {
      NormalizedRowMeaning(hPoly[i], hNorm[i], p, r0);
    }
    assert Feasible(lp, v);
    assert Dot3(lp.c, v) == -r0;
  }
}
