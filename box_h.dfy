/**
 boxToH: the six half-spaces of an axis-aligned box, as rows [nx, ny, nz, d]
 meaning nx*x + ny*y + nz*z + d <= 0. Rows 2k and 2k + 1 bound axis k from
 above and from below.
 */
module BoxH {
  import opened Geometry

  /** One row [nx, ny, nz, d] of the 6 x 4 matrix. */
  datatype Row4 = Row4(n: Vec3, d: real)

  /** Coordinate k (0, 1 or 2) of a vector. */
  function Coord(v: Vec3, k: nat): real
    requires k < 3
  {
    if k == 0 then v.x else if k == 1 then v.y else v.z
  }

  /** The opposite vector. */
  function Neg(v: Vec3): Vec3
  {
    Vec3(-v.x, -v.y, -v.z)
  }

  predicate RowHolds(r: Row4, p: Vec3)
  {
    Dot3(r.n, p) + r.d <= 0.0
  }

  /**
   boxToH. Row 2k has normal +e_k and offset -(c_k + h_k) (p_k <= c_k + h_k);
   row 2k + 1 has normal -e_k and offset c_k - h_k (p_k >= c_k - h_k).
   */
  function BoxToH(center: Vec3, half: Vec3): (H: seq<Row4>)
    ensures |H| == 6
  {
    [ Row4(Vec3(1.0, 0.0, 0.0), -(center.x + half.x)),
      Row4(Vec3(-1.0, 0.0, 0.0), center.x - half.x),
      Row4(Vec3(0.0, 1.0, 0.0), -(center.y + half.y)),
      Row4(Vec3(0.0, -1.0, 0.0), center.y - half.y),
      Row4(Vec3(0.0, 0.0, 1.0), -(center.z + half.z)),
      Row4(Vec3(0.0, 0.0, -1.0), center.z - half.z) ]
  }

  /** p satisfies every row of H. */
  predicate InH(H: seq<Row4>, p: Vec3)
  {
    forall i :: 0 <= i < |H| ==> RowHolds(H[i], p)
  }

  /** p lies in the closed box: c_k - h_k <= p_k <= c_k + h_k on every axis. */
  predicate InBox(center: Vec3, half: Vec3, p: Vec3)
  {
    forall k :: 0 <= k < 3 ==>
      Coord(center, k) - Coord(half, k) <= Coord(p, k) <= Coord(center, k) + Coord(half, k)
  }

  /** Row 2k holds at p iff p_k <= c_k + h_k; row 2k + 1 iff p_k >= c_k - h_k. */
  lemma BoxRowMeaning(center: Vec3, half: Vec3, p: Vec3, k: nat)
    requires k < 3
    ensures RowHolds(BoxToH(center, half)[2 * k], p) <==> Coord(p, k) <= Coord(center, k) + Coord(half, k)
    ensures RowHolds(BoxToH(center, half)[2 * k + 1], p) <==> Coord(center, k) - Coord(half, k) <= Coord(p, k)
  {
    var H := BoxToH(center, half);
    if k == 0 {
      assert Dot3(H[0].n, p) == p.x && Dot3(H[1].n, p) == -p.x;
    } else if k == 1 {
      assert Dot3(H[2].n, p) == p.y && Dot3(H[3].n, p) == -p.y;
    } else {
      assert Dot3(H[4].n, p) == p.z && Dot3(H[5].n, p) == -p.z;
    }
  }

  /** A point satisfies all six rows exactly when it lies in the box. */
  lemma BoxToHContains(center: Vec3, half: Vec3, p: Vec3)
    ensures InH(BoxToH(center, half), p) <==> InBox(center, half, p)
  {
    var H := BoxToH(center, half);
    BoxRowMeaning(center, half, p, 0);
    BoxRowMeaning(center, half, p, 1);
    BoxRowMeaning(center, half, p, 2);
    if InH(H, p) {
      assert RowHolds(H[0], p) && RowHolds(H[1], p) && RowHolds(H[2], p);
      assert RowHolds(H[3], p) && RowHolds(H[4], p) && RowHolds(H[5], p);
    }
    if InBox(center, half, p) {
      forall i | 0 <= i < 6 ensures RowHolds(H[i], p) {
        var k := i / 2;
        assert Coord(center, k) - Coord(half, k) <= Coord(p, k) <= Coord(center, k) + Coord(half, k);
        assert i == 2 * k || i == 2 * k + 1;
      }
    }
  }

  /**
   At the centre every row has slack exactly the half-extent of its axis,
   so with positive half-extents the centre satisfies every row strictly.
   */
  lemma BoxCenterSlack(center: Vec3, half: Vec3, k: nat)
    requires k < 3
    ensures Dot3(BoxToH(center, half)[2 * k].n, center) + BoxToH(center, half)[2 * k].d == -Coord(half, k)
    ensures Dot3(BoxToH(center, half)[2 * k + 1].n, center) + BoxToH(center, half)[2 * k + 1].d == -Coord(half, k)
    ensures Coord(half, k) > 0.0 ==>
              Dot3(BoxToH(center, half)[2 * k].n, center) + BoxToH(center, half)[2 * k].d < 0.0 &&
              Dot3(BoxToH(center, half)[2 * k + 1].n, center) + BoxToH(center, half)[2 * k + 1].d < 0.0
  {
    var H := BoxToH(center, half);
    if k == 0 {
      assert Dot3(H[0].n, center) == center.x && Dot3(H[1].n, center) == -center.x;
    } else if k == 1 {
      assert Dot3(H[2].n, center) == center.y && Dot3(H[3].n, center) == -center.y;
    } else {
      assert Dot3(H[4].n, center) == center.z && Dot3(H[5].n, center) == -center.z;
    }
  }

  /**
   The rows are already normalised: every normal has unit length, the
   upper row of axis k has +1 in coordinate k, the lower row points the
   opposite way, and neither depends on the box.
   */
  lemma BoxNormals(center: Vec3, half: Vec3, center2: Vec3, half2: Vec3, k: nat)
    requires k < 3
    ensures Dot3(BoxToH(center, half)[2 * k].n, BoxToH(center, half)[2 * k].n) == 1.0
    ensures Coord(BoxToH(center, half)[2 * k].n, k) == 1.0
    ensures BoxToH(center, half)[2 * k + 1].n == Neg(BoxToH(center, half)[2 * k].n)
    ensures BoxToH(center, half)[2 * k].n == BoxToH(center2, half2)[2 * k].n
  {
    var H := BoxToH(center, half);
    if k == 0 {
      assert H[0].n == Vec3(1.0, 0.0, 0.0);
    } else if k == 1 {
      assert H[2].n == Vec3(0.0, 1.0, 0.0);
    } else {
      assert H[4].n == Vec3(0.0, 0.0, 1.0);
    }
  }
}
