/**
 What the two-dimensional enumerateVs returns, and what it evidently means
 to return. In the plane, a hull vertex u_i of the dual points stands for
 a boundary LINE of the polygon (row i), not for a corner: the corner
 between consecutive boundary lines j and k is inner + q with
 u_j . q == 1 and u_k . q == 1, the point dual to the hull edge from u_j
 to u_k. enumerateVs emits inner + u_i instead.
 */
module PrimalVertices {
  import opened Geometry
  import opened VertexEnum
  import opened VertexFilter

  /**
   A point enumerateVs emits for row i satisfies that very row only when
   the normal is no longer than the slack: |n_i|^2 <= b_i^2.
   */
  lemma DualOutputHoldsIff(hPoly: seq<HalfPlane>, inner: Vec2, i: nat)
    requires SlacksNonZero(hPoly, inner) && i < |hPoly| && Slack(hPoly[i], inner) > 0.0
    ensures Holds(hPoly[i], Add2(inner, DualPoints(hPoly, inner)[i]))
            <==> hPoly[i].nx * hPoly[i].nx + hPoly[i].ny * hPoly[i].ny
                 <= Slack(hPoly[i], inner) * Slack(hPoly[i], inner)
  {
    var h, b, u := hPoly[i], Slack(hPoly[i], inner), DualPoints(hPoly, inner)[i];
    var n := Vec2(h.nx, h.ny);
    DualityAt(hPoly, inner, i, u);
    assert u == Vec2(n.x / b, n.y / b);
    DotScaled(u, n, b);
    DotScaled(n, n, b);
    assert Dot2(u, n) == Dot2(n, u);
    assert Dot2(u, u) == (Dot2(n, n) / b) / b;
    DivAtMostOne(Dot2(n, n) / b, b);
    DivAtMostOne(Dot2(n, n), b);
    assert Dot2(n, n) / b <= b <==> Dot2(n, n) <= b * b by {
      var m := Dot2(n, n);
      assert m / b * b == m;
      assert b * b - m == (b - m / b) * b;
      if m / b <= b {
        assert (b - m / b) * b >= 0.0;
      } else {
        assert (m / b - b) * b > 0.0;
      }
    }
  }

  /** Dividing one factor of a dot product: a . (b / c) == (a . b) / c. */
  lemma DotScaled(a: Vec2, b: Vec2, c: real)
    requires c != 0.0
    ensures Dot2(a, Vec2(b.x / c, b.y / c)) == Dot2(a, b) / c
  {
    var qx, qy := b.x / c, b.y / c;
    assert qx * c == b.x && qy * c == b.y;
    assert (a.x * qx + a.y * qy) * c == a.x * b.x + a.y * b.y;
  }

  /** The unit square -x <= 0, x - 1 <= 0, -y <= 0, y - 1 <= 0. */
  function UnitSquare(): seq<HalfPlane>
  {
    [HalfPlane(-1.0, 0.0, 0.0), HalfPlane(1.0, 0.0, -1.0), HalfPlane(0.0, -1.0, 0.0), HalfPlane(0.0, 1.0, -1.0)]
  }

  /** Row i of the unit square and its slack 0.5 at the centre. */
  lemma UnitSquareRow(i: nat)
    requires i < 4
    ensures UnitSquare()[i] == [HalfPlane(-1.0, 0.0, 0.0), HalfPlane(1.0, 0.0, -1.0),
                                HalfPlane(0.0, -1.0, 0.0), HalfPlane(0.0, 1.0, -1.0)][i]
    ensures Slack(UnitSquare()[i], Vec2(0.5, 0.5)) == 0.5
  {
  }

  /** The dual point of a row whose slack is the non-zero b. */
  lemma DualPointOf(hPoly: seq<HalfPlane>, inner: Vec2, i: nat, b: real)
    requires SlacksNonZero(hPoly, inner) && i < |hPoly| && Slack(hPoly[i], inner) == b
    ensures DualPoints(hPoly, inner)[i] == Vec2(hPoly[i].nx / b, hPoly[i].ny / b)
  {
  }

  /** The unit square's dual points at its centre. */
  lemma UnitSquareDuals()
    ensures SlacksNonZero(UnitSquare(), Vec2(0.5, 0.5))
    ensures DualPoints(UnitSquare(), Vec2(0.5, 0.5))
            == [Vec2(-2.0, 0.0), Vec2(2.0, 0.0), Vec2(0.0, -2.0), Vec2(0.0, 2.0)]
  {
    var sq, c := UnitSquare(), Vec2(0.5, 0.5);
    forall i | 0 <= i < |sq| ensures Slack(sq[i], c) == 0.5 {
      UnitSquareRow(i);
    }
    UnitSquareRow(0);
    UnitSquareRow(1);
    UnitSquareRow(2);
    UnitSquareRow(3);
    DualPointOf(sq, c, 0, 0.5);
    DualPointOf(sq, c, 1, 0.5);
    DualPointOf(sq, c, 2, 0.5);
    DualPointOf(sq, c, 3, 0.5);
  }

  /**
   enumerateVs as written, on the unit square with its centre as the
   interior point: whatever index buffer the hull routine returns, no
   point of the output lies in the square, let alone at a corner.
   */
  lemma EnumerateVsAtMissesUnitSquare(epsilon: real, hull: (seq<Vec2>, real) -> seq<nat>, hullDefaultEps: real)
    requires EnumerableAt(UnitSquare(), Vec2(0.5, 0.5), epsilon, hull, hullDefaultEps)
    ensures var out := EnumeratedAt(UnitSquare(), Vec2(0.5, 0.5), epsilon, hull, hullDefaultEps);
            forall k :: 0 <= k < |out| ==> !Inside(UnitSquare(), out[k])
  {
    var sq, c := UnitSquare(), Vec2(0.5, 0.5);
    var out := EnumeratedAt(sq, c, epsilon, hull, hullDefaultEps);
    var ids := HullIds(sq, c, epsilon, hull, hullDefaultEps);
    var pos := EnumeratedAtOutputs(sq, c, epsilon, hull, hullDefaultEps);
    UnitSquareDuals();
    forall k | 0 <= k < |out| ensures !Inside(sq, out[k]) {
      TranslatedDualOutside(ids[pos[k]], out[k]);
    }
  }

  /**
   The finding above is not vacuous: a hull that answers the buffer
   1, 3, 0, 2 (all four dual points, counter-clockwise) for the unit
   square's dual points meets its precondition.
   */
  lemma UnitSquareEnumerable(epsilon: real, hull: (seq<Vec2>, real) -> seq<nat>, hullDefaultEps: real)
    requires hull([Vec2(-2.0, 0.0), Vec2(2.0, 0.0), Vec2(0.0, -2.0), Vec2(0.0, 2.0)], Min(epsilon, hullDefaultEps)) == [1, 3, 0, 2]
    ensures EnumerableAt(UnitSquare(), Vec2(0.5, 0.5), epsilon, hull, hullDefaultEps)
  {
    var sq, c := UnitSquare(), Vec2(0.5, 0.5);
    UnitSquareDuals();
    var A := DualPoints(sq, c);
    var ids := HullIds(sq, c, epsilon, hull, hullDefaultEps);
    assert ids == [1, 3, 0, 2];
    MagGatherPositive(A, ids, 0);
    EnumerableFrom(sq, c, epsilon, hull, hullDefaultEps, ids);
  }

  /** EnumerableAt, conjunct by conjunct, for a known index buffer. */
  lemma EnumerableFrom(hPoly: seq<HalfPlane>, inner: Vec2, epsilon: real,
                       hull: (seq<Vec2>, real) -> seq<nat>, hullDefaultEps: real, ids: seq<nat>)
    requires SlacksNonZero(hPoly, inner)
    requires HullIds(hPoly, inner, epsilon, hull, hullDefaultEps) == ids
    requires (forall k :: 0 <= k < |ids| ==> ids[k] < |hPoly|) && |ids| > 0
    requires Mag(Gather(DualPoints(hPoly, inner), ids)) > 0.0
    ensures EnumerableAt(hPoly, inner, epsilon, hull, hullDefaultEps)
  {
  }

  /** A gathered matrix whose k-th column has a non-zero x has a positive mag. */
  lemma MagGatherPositive(A: seq<Vec2>, ids: seq<nat>, k: nat)
    requires forall j :: 0 <= j < |ids| ==> ids[j] < |A|
    requires k < |ids| && A[ids[k]].x != 0.0
    ensures Mag(Gather(A, ids)) > 0.0
  {
    MagPositiveAt(Gather(A, ids), k);
  }

  /** A matrix with a non-zero coordinate has a positive mag. */
  lemma MagPositiveAt(g: seq<Vec2>, i: nat)
    requires i < |g| && g[i].x != 0.0
    ensures Mag(g) > 0.0
  {
    MagIsLargestMagnitude(g);
  }

  /** inner + u_m lies outside the unit square: it violates row m. */
  lemma TranslatedDualOutside(m: nat, p: Vec2)
    requires m < 4
    requires p == Add2([Vec2(-2.0, 0.0), Vec2(2.0, 0.0), Vec2(0.0, -2.0), Vec2(0.0, 2.0)][m], Vec2(0.5, 0.5))
    ensures !Inside(UnitSquare(), p)
  {
    var sq := UnitSquare();
    if m == 0 {
      assert p == Vec2(-1.5, 0.5) && sq[0] == HalfPlane(-1.0, 0.0, 0.0);
      assert !Holds(sq[0], p);
    } else if m == 1 {
      assert p == Vec2(2.5, 0.5) && sq[1] == HalfPlane(1.0, 0.0, -1.0);
      assert !Holds(sq[1], p);
    } else if m == 2 {
      assert p == Vec2(0.5, -1.5) && sq[2] == HalfPlane(0.0, -1.0, 0.0);
      assert !Holds(sq[2], p);
    } else {
      assert p == Vec2(0.5, 2.5) && sq[3] == HalfPlane(0.0, 1.0, -1.0);
      assert !Holds(sq[3], p);
    }
  }

  function Cross(u: Vec2, w: Vec2): real
  {
    u.x * w.y - u.y * w.x
  }

  /** The point q with u . q == 1 and w . q == 1, dual to the line through u and w. */
  function EdgeDual(u: Vec2, w: Vec2): (q: Vec2)
    requires Cross(u, w) != 0.0
    ensures Dot2(u, q) == 1.0 && Dot2(w, q) == 1.0
  {
    var cr := Cross(u, w);
    var t := Vec2(w.y - u.y, u.x - w.x);
    var q := Vec2(t.x / cr, t.y / cr);
    DotScaled(u, t, cr);
    DotScaled(w, t, cr);
    assert Dot2(u, t) == cr && Dot2(w, t) == cr;
    q
  }

  /** A point at which b * (u . q) == b makes the row tight. */
  lemma TightAt(hPoly: seq<HalfPlane>, inner: Vec2, i: nat, q: Vec2)
    requires SlacksNonZero(hPoly, inner) && i < |hPoly|
    requires Dot2(DualPoints(hPoly, inner)[i], q) == 1.0
    ensures Value(hPoly[i], Add2(inner, q)) == 0.0
  {
    var h, b, u := hPoly[i], Slack(hPoly[i], inner), DualPoints(hPoly, inner)[i];
    assert b * u.x == h.nx && b * u.y == h.ny;
    assert h.nx * q.x + h.ny * q.y == b * Dot2(u, q);
    assert Value(h, Add2(inner, q)) == (h.nx * q.x + h.ny * q.y) - b;
  }

  /**
   When every slack is positive and the hull edge from u_j to u_k supports
   all dual points (no u_i beyond its line), the corner inner + q of that
   edge lies in the polygon, on the boundary lines of rows j and k.
   */
  lemma CornerInside(hPoly: seq<HalfPlane>, inner: Vec2, j: nat, k: nat)
    requires SlacksNonZero(hPoly, inner) && j < |hPoly| && k < |hPoly|
    requires Cross(DualPoints(hPoly, inner)[j], DualPoints(hPoly, inner)[k]) != 0.0
    requires forall i :: 0 <= i < |hPoly| ==> Slack(hPoly[i], inner) > 0.0
    requires forall i :: 0 <= i < |hPoly| ==>
               Dot2(DualPoints(hPoly, inner)[i], EdgeDual(DualPoints(hPoly, inner)[j], DualPoints(hPoly, inner)[k])) <= 1.0
    ensures var v := Add2(inner, EdgeDual(DualPoints(hPoly, inner)[j], DualPoints(hPoly, inner)[k]));
            Inside(hPoly, v) && Value(hPoly[j], v) == 0.0 && Value(hPoly[k], v) == 0.0
  {
    var A := DualPoints(hPoly, inner);
    var q := EdgeDual(A[j], A[k]);
    TightAt(hPoly, inner, j, q);
    TightAt(hPoly, inner, k, q);
    forall i | 0 <= i < |hPoly| ensures Holds(hPoly[i], Add2(inner, q)) {
      DualityAt(hPoly, inner, i, q);
    }
  }

  /** The index after k in a cyclic buffer of length n. */
  function Next(k: nat, n: nat): nat
    requires k < n
  {
    if k + 1 == n then 0 else k + 1
  }

  /** The hull vertex at buffer position k and the next one are dual points and not parallel. */
  predicate EdgeDefinedAt(A: seq<Vec2>, ids: seq<nat>, k: nat)
    requires k < |ids|
  {
    ids[k] < |A| && ids[Next(k, |ids|)] < |A| && Cross(A[ids[k]], A[ids[Next(k, |ids|)]]) != 0.0
  }

  predicate CornersDefined(A: seq<Vec2>, ids: seq<nat>)
  {
    forall k :: 0 <= k < |ids| ==> EdgeDefinedAt(A, ids, k)
  }

  /**
   The corrected gather: for each hull vertex u in buffer order and the
   next one w, the corner inner + q with u . q == 1 and w . q == 1.
   */
  function CornersAt(A: seq<Vec2>, inner: Vec2, ids: seq<nat>): (vs: seq<Vec2>)
    requires CornersDefined(A, ids)
    ensures |vs| == |ids|
    ensures forall k {:trigger vs[k]} :: 0 <= k < |ids| ==>
              && EdgeDefinedAt(A, ids, k)
              && Dot2(A[ids[k]], Vec2(vs[k].x - inner.x, vs[k].y - inner.y)) == 1.0
              && Dot2(A[ids[Next(k, |ids|)]], Vec2(vs[k].x - inner.x, vs[k].y - inner.y)) == 1.0
  {
    seq(|ids|, k requires 0 <= k < |ids| && EdgeDefinedAt(A, ids, k) =>
      var q := EdgeDual(A[ids[k]], A[ids[Next(k, |ids|)]]);
      assert Vec2(Add2(inner, q).x - inner.x, Add2(inner, q).y - inner.y) == q;
      Add2(inner, q))
  }

  /**
   The corrected output lies on the polygon's boundary: corner k is on the
   boundary lines of rows ids[k] and ids[k + 1] (cyclically).
   */
  lemma CornersOnBoundary(hPoly: seq<HalfPlane>, inner: Vec2, ids: seq<nat>)
    requires SlacksNonZero(hPoly, inner) && CornersDefined(DualPoints(hPoly, inner), ids)
    ensures var vs := CornersAt(DualPoints(hPoly, inner), inner, ids);
            forall k :: 0 <= k < |ids| ==>
              && ids[k] < |hPoly| && ids[Next(k, |ids|)] < |hPoly|
              && Value(hPoly[ids[k]], vs[k]) == 0.0
              && Value(hPoly[ids[Next(k, |ids|)]], vs[k]) == 0.0
  {
    var A := DualPoints(hPoly, inner);
    var vs := CornersAt(A, inner, ids);
    forall k | 0 <= k < |ids|
      ensures EdgeDefinedAt(A, ids, k)
      ensures Value(hPoly[ids[k]], vs[k]) == 0.0 && Value(hPoly[ids[Next(k, |ids|)]], vs[k]) == 0.0
    {
      var q := Vec2(vs[k].x - inner.x, vs[k].y - inner.y);
      assert vs[k] == Add2(inner, q);
      TightAt(hPoly, inner, ids[k], q);
      TightAt(hPoly, inner, ids[Next(k, |ids|)], q);
    }
  }

  /** Every edge of the buffer supports all dual points: no u_i lies beyond its line. */
  predicate SupportingEdges(A: seq<Vec2>, ids: seq<nat>)
    requires CornersDefined(A, ids)
  {
    forall k :: 0 <= k < |ids| ==>
      EdgeDefinedAt(A, ids, k) &&
      forall i :: 0 <= i < |A| ==> Dot2(A[i], EdgeDual(A[ids[k]], A[ids[Next(k, |ids|)]])) <= 1.0
  }

  /**
   The corrected output lies in the polygon: with positive slacks and a
   buffer whose every edge supports the dual points, each corner is inside.
   */
  lemma CornersInside(hPoly: seq<HalfPlane>, inner: Vec2, ids: seq<nat>)
    requires SlacksNonZero(hPoly, inner) && CornersDefined(DualPoints(hPoly, inner), ids)
    requires forall i :: 0 <= i < |hPoly| ==> Slack(hPoly[i], inner) > 0.0
    requires SupportingEdges(DualPoints(hPoly, inner), ids)
    ensures var vs := CornersAt(DualPoints(hPoly, inner), inner, ids);
            forall k :: 0 <= k < |vs| ==> Inside(hPoly, vs[k])
  {
    var A := DualPoints(hPoly, inner);
    var vs := CornersAt(A, inner, ids);
    forall k | 0 <= k < |vs| ensures Inside(hPoly, vs[k]) {
      assert EdgeDefinedAt(A, ids, k);
      var j, l := ids[k], ids[Next(k, |ids|)];
      assert vs[k] == Add2(inner, EdgeDual(A[j], A[l]));
      CornerInside(hPoly, inner, j, l);
    }
  }

  /**
   On the unit square, with the hull's counter-clockwise buffer
   u_1, u_3, u_0, u_2 of its dual points (UnitSquareDuals), the corrected
   gather yields exactly the four corners.
   */
  lemma CornersAtUnitSquare()
    ensures var A, ids := [Vec2(-2.0, 0.0), Vec2(2.0, 0.0), Vec2(0.0, -2.0), Vec2(0.0, 2.0)], [1, 3, 0, 2];
            CornersDefined(A, ids)
            && CornersAt(A, Vec2(0.5, 0.5), ids)
               == [Vec2(1.0, 1.0), Vec2(0.0, 1.0), Vec2(0.0, 0.0), Vec2(1.0, 0.0)]
  {
    var u0, u1, u2, u3 := Vec2(-2.0, 0.0), Vec2(2.0, 0.0), Vec2(0.0, -2.0), Vec2(0.0, 2.0);
    var A, ids := [u0, u1, u2, u3], [1, 3, 0, 2];
    assert Cross(u1, u3) == 4.0 && Cross(u3, u0) == 4.0 && Cross(u0, u2) == 4.0 && Cross(u2, u1) == 4.0;
    forall k | 0 <= k < |ids| ensures EdgeDefinedAt(A, ids, k) {
    }
    assert EdgeDual(u1, u3) == Vec2(0.5, 0.5);
    assert EdgeDual(u3, u0) == Vec2(-0.5, 0.5);
    assert EdgeDual(u0, u2) == Vec2(-0.5, -0.5);
    assert EdgeDual(u2, u1) == Vec2(0.5, -0.5);
  }
}
