/**
 overlap: whether two polytopes share a point with margin larger than eps.
 The rows of both polytopes are stacked, unnormalised, into one linear
 program "maximise r subject to n . (x, y) + r <= -d"; the test succeeds
 when the solver's value is finite and below -eps. Because the rows are not
 normalised, the margin r is measured in units of each row's normal length.
 */
module Overlap {
  import opened Geometry
  import opened LinearProgram

  /** A row taken as it is, with coefficient 1 on the margin variable and bound -d. */
  function RawRow(h: HalfPlane): Constraint
  {
    Constraint(Vec3(h.nx, h.ny, 1.0), -h.d)
  }

  function RawRows(hPoly: seq<HalfPlane>): (rows: seq<Constraint>)
    ensures |rows| == |hPoly|
    ensures forall i :: 0 <= i < |hPoly| ==> rows[i] == RawRow(hPoly[i])
  {
    seq(|hPoly|, i requires 0 <= i < |hPoly| => RawRow(hPoly[i]))
  }

  /**
   The stacked program: m + n rows, the first m from hPoly0 and the last n
   from hPoly1, in their own order.
   */
  function OverlapLp(hPoly0: seq<HalfPlane>, hPoly1: seq<HalfPlane>): (lp: Lp)
    ensures lp.c == MaxMargin
    ensures |lp.rows| == |hPoly0| + |hPoly1|
    ensures forall i :: 0 <= i < |hPoly0| ==> lp.rows[i] == RawRow(hPoly0[i])
    ensures forall j :: 0 <= j < |hPoly1| ==> lp.rows[|hPoly0| + j] == RawRow(hPoly1[j])
  {
    Lp(MaxMargin, RawRows(hPoly0) + RawRows(hPoly1))
  }

  /** Every row of the polytope holds at p with slack at least r. */
  predicate InsideBy(hPoly: seq<HalfPlane>, p: Vec2, r: real)
  {
    forall i :: 0 <= i < |hPoly| ==> Value(hPoly[i], p) + r <= 0.0
  }

  /** A raw row holds at (p, r) exactly when the row, shifted by r, holds at p. */
  lemma RawRowMeaning(h: HalfPlane, p: Vec2, r: real)
    ensures Satisfies(RawRow(h), Vec3(p.x, p.y, r)) <==> Value(h, p) + r <= 0.0
  {
    assert Dot3(RawRow(h).a, Vec3(p.x, p.y, r)) == Value(h, p) - h.d + r;
  }

  /** (p, r) is feasible for the stacked program exactly when p is inside both polytopes with slack r. */
  lemma OverlapLpMeaning(hPoly0: seq<HalfPlane>, hPoly1: seq<HalfPlane>, p: Vec2, r: real)
    ensures Feasible(OverlapLp(hPoly0, hPoly1), Vec3(p.x, p.y, r))
            <==> InsideBy(hPoly0, p, r) && InsideBy(hPoly1, p, r)
  {
    if Feasible(OverlapLp(hPoly0, hPoly1), Vec3(p.x, p.y, r)) {
      FeasibleInsideBoth(hPoly0, hPoly1, p, r);
    }
    if InsideBy(hPoly0, p, r) && InsideBy(hPoly1, p, r) {
      InsideBothFeasible(hPoly0, hPoly1, p, r);
    }
  }

  lemma FeasibleInsideBoth(hPoly0: seq<HalfPlane>, hPoly1: seq<HalfPlane>, p: Vec2, r: real)
    requires Feasible(OverlapLp(hPoly0, hPoly1), Vec3(p.x, p.y, r))
    ensures InsideBy(hPoly0, p, r) && InsideBy(hPoly1, p, r)
  {
    var rows := OverlapLp(hPoly0, hPoly1).rows;
    var v := Vec3(p.x, p.y, r);
    var m := |hPoly0|;
    forall i | 0 <= i < m ensures Value(hPoly0[i], p) + r <= 0.0 {
      assert Satisfies(rows[i], v);
      RawRowMeaning(hPoly0[i], p, r);
    }
    forall j | 0 <= j < |hPoly1| ensures Value(hPoly1[j], p) + r <= 0.0 {
      assert Satisfies(rows[m + j], v);
      RawRowMeaning(hPoly1[j], p, r);
    }
  }

  lemma InsideBothFeasible(hPoly0: seq<HalfPlane>, hPoly1: seq<HalfPlane>, p: Vec2, r: real)
    requires InsideBy(hPoly0, p, r) && InsideBy(hPoly1, p, r)
    ensures Feasible(OverlapLp(hPoly0, hPoly1), Vec3(p.x, p.y, r))
  {
    var rows := OverlapLp(hPoly0, hPoly1).rows;
    var v := Vec3(p.x, p.y, r);
    var m := |hPoly0|;
    forall i | 0 <= i < |rows| ensures Satisfies(rows[i], v) {
      if i >= m {
        assert rows[m + (i - m)] == RawRow(hPoly1[i - m]);
        RawRowMeaning(hPoly1[i - m], p, r);
      } else {
        RawRowMeaning(hPoly0[i], p, r);
      }
    }
  }

  /**
   overlap. When it answers true and the solver's answer is sound, the
   solver's point lies in both polytopes with slack larger than eps at
   every row. The tolerance defaults to 1.0e-6, as in the source.
   */
  function Overlap(hPoly0: seq<HalfPlane>, hPoly1: seq<HalfPlane>, solve: Lp -> LpSolution, eps: real := 0.000001): (r: bool)
    ensures r <==> solve(OverlapLp(hPoly0, hPoly1)).value.Finite? && solve(OverlapLp(hPoly0, hPoly1)).value.value < -eps
    ensures r && Sound(OverlapLp(hPoly0, hPoly1), solve(OverlapLp(hPoly0, hPoly1)))
            ==> var v := solve(OverlapLp(hPoly0, hPoly1)).v;
                exists s :: s > eps && InsideBy(hPoly0, Vec2(v.x, v.y), s) && InsideBy(hPoly1, Vec2(v.x, v.y), s)
  {
    var sol := solve(OverlapLp(hPoly0, hPoly1));
    var ok := sol.value.Finite? && sol.value.value < -eps;
    if ok && Sound(OverlapLp(hPoly0, hPoly1), sol) then
      OverlapLpMeaning(hPoly0, hPoly1, Vec2(sol.v.x, sol.v.y), sol.v.z);
      assert sol.v == Vec3(sol.v.x, sol.v.y, sol.v.z);
      ok
    else
      ok
  }

  /** A true answer at eps stays true at every smaller eps. */
  lemma OverlapMonotone(hPoly0: seq<HalfPlane>, hPoly1: seq<HalfPlane>, eps: real, eps2: real, solve: Lp -> LpSolution)
    requires eps2 <= eps && Overlap(hPoly0, hPoly1, solve, eps)
    ensures Overlap(hPoly0, hPoly1, solve, eps2)
  {
  }

  /**
   Completeness: when some point lies in both polytopes with slack s larger
   than eps at every row and the solver returns a finite optimum, overlap
   answers true.
   */
  lemma OverlapComplete(hPoly0: seq<HalfPlane>, hPoly1: seq<HalfPlane>, eps: real, solve: Lp -> LpSolution, p: Vec2, s: real)
    requires s > eps && InsideBy(hPoly0, p, s) && InsideBy(hPoly1, p, s)
    requires solve(OverlapLp(hPoly0, hPoly1)).value.Finite?
    requires Optimal(OverlapLp(hPoly0, hPoly1), solve(OverlapLp(hPoly0, hPoly1)))
    ensures Overlap(hPoly0, hPoly1, solve, eps)
  {
    var lp := OverlapLp(hPoly0, hPoly1);
    var v := Vec3(p.x, p.y, s);
    OverlapLpMeaning(hPoly0, hPoly1, p, s);
    assert Feasible(lp, v);
    assert Dot3(lp.c, v) == -s;
  }
}
