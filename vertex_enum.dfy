/**
 enumerateVs: from half-planes to boundary points. Relative to an
 interior point `inner`, row i has slack b_i = -d_i - n_i . inner (the
 room left at inner, in units of the normal) and dual point
 u_i = n_i / b_i. The hull routine (quickhull's 3-D getConvexHull, handed
 the 2-row dual points; not part of this model, a function parameter that
 returns an index buffer) selects dual points; the selected points are
 gathered in buffer order, passed through filterVs and translated by inner.
 */
module VertexEnum {
  import opened Geometry
  import opened LinearProgram
  import opened InteriorPoint
  import opened VertexFilter

  /** b = -d - n . inner. */
  function Slack(h: HalfPlane, inner: Vec2): (b: real)
    ensures b == -Value(h, inner)
  {
    -h.d - (h.nx * inner.x + h.ny * inner.y)
  }

  /** No row's boundary line passes through inner (the division by b is defined). */
  predicate SlacksNonZero(hPoly: seq<HalfPlane>, inner: Vec2)
  {
    forall i :: 0 <= i < |hPoly| ==> Slack(hPoly[i], inner) != 0.0
  }

  /** The columns of A: u_i = n_i / b_i, so that b_i * u_i == n_i. */
  function DualPoints(hPoly: seq<HalfPlane>, inner: Vec2): (A: seq<Vec2>)
    requires SlacksNonZero(hPoly, inner)
    ensures |A| == |hPoly|
    ensures forall i :: 0 <= i < |A| ==>
              Slack(hPoly[i], inner) * A[i].x == hPoly[i].nx && Slack(hPoly[i], inner) * A[i].y == hPoly[i].ny
  {
    seq(|hPoly|, i requires 0 <= i < |hPoly| =>
      Vec2(hPoly[i].nx / Slack(hPoly[i], inner), hPoly[i].ny / Slack(hPoly[i], inner)))
  }

  /** For b > 0: X / b <= 1 exactly when X <= b. */
  lemma DivAtMostOne(x: real, b: real)
    requires b > 0.0
    ensures x / b <= 1.0 <==> x <= b
  {
    var q := x / b;
    assert q * b == x;
    assert b - x == (1.0 - q) * b;
    if q <= 1.0 {
      assert (1.0 - q) * b >= 0.0;
    } else {
      assert (q - 1.0) * b > 0.0;
    }
  }

  /**
   Polar duality at inner: when row i has positive slack, inner + q
   satisfies the row exactly when u_i . q <= 1.
   */
  lemma DualityAt(hPoly: seq<HalfPlane>, inner: Vec2, i: nat, q: Vec2)
    requires SlacksNonZero(hPoly, inner) && i < |hPoly| && Slack(hPoly[i], inner) > 0.0
    ensures Holds(hPoly[i], Add2(inner, q)) <==> Dot2(DualPoints(hPoly, inner)[i], q) <= 1.0
  {
    var h, b, u := hPoly[i], Slack(hPoly[i], inner), DualPoints(hPoly, inner)[i];
    var nq := h.nx * q.x + h.ny * q.y;
    assert Value(h, Add2(inner, q)) == nq - b;
    assert Dot2(u, q) == nq / b;
    DivAtMostOne(nq, b);
  }

  /** The columns idBuffer selects, in buffer order. */
  function Gather(A: seq<Vec2>, ids: seq<nat>): (rV: seq<Vec2>)
    requires forall k :: 0 <= k < |ids| ==> ids[k] < |A|
    ensures |rV| == |ids| && forall k :: 0 <= k < |ids| ==> rV[k] == A[ids[k]]
  {
    seq(|ids|, k requires 0 <= k < |ids| => A[ids[k]])
  }

  /** Every point shifted by inner. */
  function Translate(s: seq<Vec2>, inner: Vec2): (t: seq<Vec2>)
    ensures |t| == |s| && forall k :: 0 <= k < |s| ==> t[k] == Add2(s[k], inner)
  {
    seq(|s|, k requires 0 <= k < |s| => Add2(s[k], inner))
  }

  /**
   The index buffer the hull routine returns for the dual points at
   tolerance min(epsilon, its default): the requested epsilon when it is
   the smaller, otherwise the hull's own default.
   */
  function HullIds(hPoly: seq<HalfPlane>, inner: Vec2, epsilon: real,
                   hull: (seq<Vec2>, real) -> seq<nat>, hullDefaultEps: real): (ids: seq<nat>)
    requires SlacksNonZero(hPoly, inner)
    ensures epsilon <= hullDefaultEps ==> ids == hull(DualPoints(hPoly, inner), epsilon)
    ensures hullDefaultEps <= epsilon ==> ids == hull(DualPoints(hPoly, inner), hullDefaultEps)
  {
    hull(DualPoints(hPoly, inner), Min(epsilon, hullDefaultEps))
  }

  /**
   What enumerateVs needs and does not check: every slack non-zero, the
   hull's indices in range, and a gathered matrix that is not empty and not
   all zero (filterVs divides by its largest magnitude).
   */
  predicate EnumerableAt(hPoly: seq<HalfPlane>, inner: Vec2, epsilon: real,
                         hull: (seq<Vec2>, real) -> seq<nat>, hullDefaultEps: real)
  {
    && SlacksNonZero(hPoly, inner)
    && var ids := HullIds(hPoly, inner, epsilon, hull, hullDefaultEps);
    && (forall k :: 0 <= k < |ids| ==> ids[k] < |hPoly|)
    && |ids| > 0
    && Mag(Gather(DualPoints(hPoly, inner), ids)) > 0.0
  }

  /** The gathered dual points, filtered and translated by inner: enumerateVs's output. */
  function EnumeratedAt(hPoly: seq<HalfPlane>, inner: Vec2, epsilon: real,
                        hull: (seq<Vec2>, real) -> seq<nat>, hullDefaultEps: real): (out: seq<Vec2>)
    requires EnumerableAt(hPoly, inner, epsilon, hull, hullDefaultEps)
    ensures |out| <= |HullIds(hPoly, inner, epsilon, hull, hullDefaultEps)|
  {
    var rV := Gather(DualPoints(hPoly, inner), HullIds(hPoly, inner, epsilon, hull, hullDefaultEps));
    Translate(Dedup(rV, Resolution(rV, epsilon)), inner)
  }

  /**
   Each output point is inner plus a dual point the hull selected, and the
   outputs appear in buffer order: their buffer positions strictly increase.
   */
  lemma EnumeratedAtOutputs(hPoly: seq<HalfPlane>, inner: Vec2, epsilon: real,
                            hull: (seq<Vec2>, real) -> seq<nat>, hullDefaultEps: real) returns (pos: seq<nat>)
    requires EnumerableAt(hPoly, inner, epsilon, hull, hullDefaultEps)
    ensures var ids := HullIds(hPoly, inner, epsilon, hull, hullDefaultEps);
            var out := EnumeratedAt(hPoly, inner, epsilon, hull, hullDefaultEps);
            && |pos| == |out| <= |ids|
            && (forall k :: 0 <= k < |out| ==>
                  pos[k] < |ids| && out[k] == Add2(DualPoints(hPoly, inner)[ids[pos[k]]], inner))
            && (forall k, l :: 0 <= k < l < |pos| ==> pos[k] < pos[l])
  {
    var ids := HullIds(hPoly, inner, epsilon, hull, hullDefaultEps);
    var rV := Gather(DualPoints(hPoly, inner), ids);
    pos := DedupSubsequence(rV, Resolution(rV, epsilon));
  }

  /** The gather loop: a fresh 2 x hNum buffer whose column i is A at idBuffer[i]. */
  method GatherColumns(A: seq<Vec2>, idBuffer: seq<nat>) returns (rV: array<Vec2>)
    requires forall k :: 0 <= k < |idBuffer| ==> idBuffer[k] < |A|
    ensures fresh(rV) && rV[..] == Gather(A, idBuffer)
  {
    var hNum := |idBuffer|;
    rV := new Vec2[hNum];
    for i := 0 to hNum
      invariant forall k :: 0 <= k < i ==> rV[k] == A[idBuffer[k]]
    {
      rV[i] := A[idBuffer[i]];
    }
  }

  /**
   enumerateVs with a given interior point. The dual points are computed
   row-wise, the hull is asked for an index buffer at tolerance
   min(epsilon, its default), and the selected columns are copied into a
   fresh buffer one by one before filtering and translation. The tolerance
   defaults to 1.0e-6, as in the source.
   */
  method EnumerateVsAt(hPoly: seq<HalfPlane>, inner: Vec2, hull: (seq<Vec2>, real) -> seq<nat>,
                       hullDefaultEps: real, epsilon: real := 0.000001) returns (vPoly: seq<Vec2>)
    requires EnumerableAt(hPoly, inner, epsilon, hull, hullDefaultEps)
    ensures vPoly == EnumeratedAt(hPoly, inner, epsilon, hull, hullDefaultEps)
    ensures |vPoly| <= |HullIds(hPoly, inner, epsilon, hull, hullDefaultEps)|
  {
    var A := DualPoints(hPoly, inner);
    var qhullEps := Min(epsilon, hullDefaultEps);
    var idBuffer := hull(A, qhullEps);
    var rV := GatherColumns(A, idBuffer);
    var fV := FilterVs(rV[..], epsilon);
    vPoly := Translate(fV, inner);
  }

  /**
   enumerateVs without an interior point: findInterior first. On failure
   the answer is false and vPoly is left as it was; on success vPoly is
   what enumerateVs produces at the point found. The tolerance defaults to
   1.0e-6, as in the source.
   */
  method EnumerateVs(hPoly: seq<HalfPlane>, hNorm: seq<real>, vPolyIn: seq<Vec2>, solve: Lp -> LpSolution,
                     hull: (seq<Vec2>, real) -> seq<nat>, hullDefaultEps: real, epsilon: real := 0.000001)
    returns (ok: bool, vPoly: seq<Vec2>)
    requires RowNorms(hPoly, hNorm)
    requires FindInterior(hPoly, hNorm, solve).ok ==>
               EnumerableAt(hPoly, FindInterior(hPoly, hNorm, solve).point, epsilon, hull, hullDefaultEps)
    ensures ok == FindInterior(hPoly, hNorm, solve).ok
    ensures !ok ==> vPoly == vPolyIn
    ensures ok ==> vPoly == EnumeratedAt(hPoly, FindInterior(hPoly, hNorm, solve).point, epsilon, hull, hullDefaultEps)
  {
    var found := FindInterior(hPoly, hNorm, solve);
    var inner := found.point;
    if found.ok {
      vPoly := EnumerateVsAt(hPoly, inner, hull, hullDefaultEps, epsilon);
      ok := true;
    } else {
      vPoly := vPolyIn;
      ok := false;
    }
  }

  /**
   When findInterior succeeds on a sound solver answer, every slack at the
   point found is positive, so the duality of DualityAt holds for every row.
   */
  lemma InteriorSlacksPositive(hPoly: seq<HalfPlane>, hNorm: seq<real>, solve: Lp -> LpSolution)
    requires RowNorms(hPoly, hNorm)
    requires FindInterior(hPoly, hNorm, solve).ok
    requires Sound(InteriorLp(hPoly, hNorm), solve(InteriorLp(hPoly, hNorm)))
    ensures forall i :: 0 <= i < |hPoly| ==> Slack(hPoly[i], FindInterior(hPoly, hNorm, solve).point) > 0.0
  {
  }
}
