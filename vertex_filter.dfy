/**
 filterVs: scale-aware removal of near-duplicate points. Each point is
 mapped to an integer key by dividing its coordinates by a resolution and
 rounding; a point is kept, with its original coordinates, only when its
 key has not been seen before. Seen keys live in an ordered set whose
 order is filterLess.
 */
module VertexFilter {
  import opened Geometry

  /** A quantised point: the rounded coordinates. */
  datatype Key = Key(k0: int, k1: int)

  /**
   filterLess: lexicographic strict order on keys. It never relates a key
   to itself, and the first coordinate decides whenever the two differ.
   */
  predicate FilterLess(l: Key, r: Key): (b: bool)
    ensures b ==> l != r
    ensures l.k0 < r.k0 ==> b
    ensures r.k0 < l.k0 ==> !b
  {
    l.k0 < r.k0 || (l.k0 == r.k0 && l.k1 < r.k1)
  }

  /**
   filterLess is a strict total order, so the ordered set's notion of
   "equivalent" (neither is less than the other) is exact key equality,
   and a lookup in the set is plain membership.
   */
  lemma FilterLessStrictTotalOrder(a: Key, b: Key, c: Key)
    ensures !FilterLess(a, a)
    ensures FilterLess(a, b) && FilterLess(b, c) ==> FilterLess(a, c)
    ensures a != b ==> FilterLess(a, b) || FilterLess(b, a)
    ensures (!FilterLess(a, b) && !FilterLess(b, a)) <==> a == b
  {
  }

  /** DBL_EPSILON, the gap between 1.0 and the next double: 2^-52. */
  const DblEpsilon: real := 1.0 / 4503599627370496.0

  /** The largest coordinate of all points (Eigen's maxCoeff over the 2 x N matrix). */
  function MaxCoeff(s: seq<Vec2>): (m: real)
    requires |s| > 0
    ensures forall i :: 0 <= i < |s| ==> s[i].x <= m && s[i].y <= m
    ensures exists i :: 0 <= i < |s| && (m == s[i].x || m == s[i].y)
  {
    if |s| == 1 then Max(s[0].x, s[0].y)
    else
      var rest := MaxCoeff(s[1..]);
      assert forall i :: 1 <= i < |s| ==> s[i] == s[1..][i - 1];
      Max(Max(s[0].x, s[0].y), rest)
  }

  /** The smallest coordinate of all points (Eigen's minCoeff). */
  function MinCoeff(s: seq<Vec2>): (m: real)
    requires |s| > 0
    ensures forall i :: 0 <= i < |s| ==> m <= s[i].x && m <= s[i].y
    ensures exists i :: 0 <= i < |s| && (m == s[i].x || m == s[i].y)
  {
    if |s| == 1 then Min(s[0].x, s[0].y)
    else
      var rest := MinCoeff(s[1..]);
      assert forall i :: 1 <= i < |s| ==> s[i] == s[1..][i - 1];
      Min(Min(s[0].x, s[0].y), rest)
  }

  /** mag = max(|maxCoeff|, |minCoeff|): every coordinate of s lies in [-mag, mag]. */
  function Mag(s: seq<Vec2>): (m: real)
    requires |s| > 0
    ensures m >= 0.0 && -m <= MinCoeff(s) && MaxCoeff(s) <= m
  {
    Max(Abs(MaxCoeff(s)), Abs(MinCoeff(s)))
  }

  /**
   mag is the largest absolute coordinate: it bounds every coordinate's
   magnitude and is attained by one. Hence it is positive exactly when
   some coordinate is not zero.
   */
  lemma MagIsLargestMagnitude(s: seq<Vec2>)
    requires |s| > 0
    ensures forall i :: 0 <= i < |s| ==> Abs(s[i].x) <= Mag(s) && Abs(s[i].y) <= Mag(s)
    ensures exists i :: 0 <= i < |s| && (Mag(s) == Abs(s[i].x) || Mag(s) == Abs(s[i].y))
    ensures Mag(s) > 0.0 <==> exists i :: 0 <= i < |s| && (s[i].x != 0.0 || s[i].y != 0.0)
  {
    var hi, lo := MaxCoeff(s), MinCoeff(s);
    forall i | 0 <= i < |s|
      ensures Abs(s[i].x) <= Mag(s) && Abs(s[i].y) <= Mag(s)
    {
      assert lo <= s[i].x <= hi && lo <= s[i].y <= hi;
    }
    var j :| 0 <= j < |s| && (hi == s[j].x || hi == s[j].y);
    var k :| 0 <= k < |s| && (lo == s[k].x || lo == s[k].y);
    if Mag(s) == Abs(hi) {
      assert Mag(s) == Abs(s[j].x) || Mag(s) == Abs(s[j].y);
    } else {
      assert Mag(s) == Abs(s[k].x) || Mag(s) == Abs(s[k].y);
    }
  }

  /** Scaling a maximum by a positive factor: mag * max(a / mag, e) == max(a, mag * e). */
  lemma ScaledMax(mag: real, a: real, e: real)
    requires mag > 0.0
    ensures mag * Max(a / mag, e) == Max(a, mag * e)
  {
    var q := a / mag;
    assert mag * q == a;
    assert mag * e - mag * q == mag * (e - q);
    if q < e {
      assert mag * (e - q) > 0.0;
    } else {
      assert mag * (q - e) >= 0.0;
    }
  }

  /**
   res = mag * max(|epsilon| / mag, DBL_EPSILON). For a positive mag this is
   max(|epsilon|, mag * DBL_EPSILON): at least the requested tolerance, never
   below the data's own precision, and positive.
   */
  function ScaledResolution(mag: real, epsilon: real): (res: real)
    requires mag > 0.0
    ensures res == Max(Abs(epsilon), mag * DblEpsilon)
    ensures res > 0.0
  {
    ScaledMax(mag, Abs(epsilon), DblEpsilon);
    assert mag * DblEpsilon > 0.0;
    mag * Max(Abs(epsilon) / mag, DblEpsilon)
  }

  /** The resolution filterVs quantises the points of rV with. */
  function Resolution(rV: seq<Vec2>, epsilon: real): (res: real)
    requires |rV| > 0 && Mag(rV) > 0.0
    ensures res > 0.0 && res >= Abs(epsilon) && res >= Mag(rV) * DblEpsilon
  {
    ScaledResolution(Mag(rV), epsilon)
  }

  /** The key of a point: its coordinates over res, each rounded to within half a step. */
  function Quantize(p: Vec2, res: real): (k: Key)
    requires res > 0.0
    ensures Abs(k.k0 as real - p.x / res) <= 0.5 && Abs(k.k1 as real - p.y / res) <= 0.5
  {
    Key(Round(p.x / res), Round(p.y / res))
  }

  /** The keys of all points of s. */
  function KeysOf(s: seq<Vec2>, res: real): set<Key>
    requires res > 0.0
  {
    set i | 0 <= i < |s| :: Quantize(s[i], res)
  }

  lemma KeysOfAppend(s: seq<Vec2>, p: Vec2, res: real)
    requires res > 0.0
    ensures KeysOf(s + [p], res) == KeysOf(s, res) + {Quantize(p, res)}
  {
    var t := s + [p];
    forall k | k in KeysOf(t, res) ensures k in KeysOf(s, res) + {Quantize(p, res)} {
      var i :| 0 <= i < |t| && k == Quantize(t[i], res);
      if i < |s| {
        assert t[i] == s[i];
      }
    }
    forall k | k in KeysOf(s, res) ensures k in KeysOf(t, res) {
      var i :| 0 <= i < |s| && k == Quantize(s[i], res);
      assert t[i] == s[i];
    }
    assert t[|s|] == p;
  }

  /**
   The points filterVs keeps, in input order: a point survives when no
   earlier survivor has its key.
   */
  function Dedup(s: seq<Vec2>, res: real): (r: seq<Vec2>)
    requires res > 0.0
    ensures |r| <= |s|
  {
    if s == [] then []
    else
      var kept := Dedup(s[..|s| - 1], res);
      if Quantize(s[|s| - 1], res) in KeysOf(kept, res) then kept else kept + [s[|s| - 1]]
  }

  /** No two survivors share a key, and every input key is the key of a survivor. */
  lemma {:induction false} DedupKeys(s: seq<Vec2>, res: real)
    requires res > 0.0
    ensures forall a, b :: 0 <= a < b < |Dedup(s, res)| ==> Quantize(Dedup(s, res)[a], res) != Quantize(Dedup(s, res)[b], res)
    ensures KeysOf(Dedup(s, res), res) == KeysOf(s, res)
  {
    if s != [] {
      var init, last := s[..|s| - 1], s[|s| - 1];
      assert s == init + [last];
      DedupKeys(init, res);
      var kept := Dedup(init, res);
      KeysOfAppend(init, last, res);
      if Quantize(last, res) !in KeysOf(kept, res) {
        KeysOfAppend(kept, last, res);
        assert forall a :: 0 <= a < |kept| ==> Quantize(kept[a], res) in KeysOf(kept, res);
      }
    }
  }

  /** Index j holds the first point of s with its key. */
  predicate FirstOccurrence(s: seq<Vec2>, j: nat, res: real)
    requires res > 0.0 && j < |s|
  {
    forall i :: 0 <= i < j ==> Quantize(s[i], res) != Quantize(s[j], res)
  }

  /**
   Dedup keeps exactly the first occurrence of each key, unchanged and in
   input order: the survivors are s at strictly increasing indices idx,
   each a first occurrence, and every first occurrence is among them.
   */
  lemma {:induction false} DedupSubsequence(s: seq<Vec2>, res: real) returns (idx: seq<nat>)
    requires res > 0.0
    ensures |idx| == |Dedup(s, res)|
    ensures forall k :: 0 <= k < |idx| ==> idx[k] < |s| && Dedup(s, res)[k] == s[idx[k]]
    ensures forall k, l :: 0 <= k < l < |idx| ==> idx[k] < idx[l]
    ensures forall k :: 0 <= k < |idx| ==> FirstOccurrence(s, idx[k], res)
    ensures forall j :: 0 <= j < |s| && FirstOccurrence(s, j, res) ==> j in idx
  {
    if s == [] {
      idx := [];
    } else {
      var prev := DedupSubsequence(s[..|s| - 1], res);
      idx := DedupSubsequenceStep(s, prev, res);
    }
  }

  /** The step of DedupSubsequence: from the indices for all but the last point to those for s. */
  lemma DedupSubsequenceStep(s: seq<Vec2>, prev: seq<nat>, res: real) returns (idx: seq<nat>)
    requires res > 0.0 && |s| > 0
    requires var init := s[..|s| - 1];
             && |prev| == |Dedup(init, res)|
             && (forall k :: 0 <= k < |prev| ==> prev[k] < |init| && Dedup(init, res)[k] == init[prev[k]])
             && (forall k, l :: 0 <= k < l < |prev| ==> prev[k] < prev[l])
             && (forall k :: 0 <= k < |prev| ==> FirstOccurrence(init, prev[k], res))
             && (forall j :: 0 <= j < |init| && FirstOccurrence(init, j, res) ==> j in prev)
    ensures |idx| == |Dedup(s, res)|
    ensures forall k :: 0 <= k < |idx| ==> idx[k] < |s| && Dedup(s, res)[k] == s[idx[k]]
    ensures forall k, l :: 0 <= k < l < |idx| ==> idx[k] < idx[l]
    ensures forall k :: 0 <= k < |idx| ==> FirstOccurrence(s, idx[k], res)
    ensures forall j :: 0 <= j < |s| && FirstOccurrence(s, j, res) ==> j in idx
  {
    var n := |s| - 1;
    var init := s[..n];
    FirstOccurrencePrefix(s, n, res);
    DedupGrows(s, res);
    var out := Dedup(s, res);
    if FirstOccurrence(s, n, res) {
      idx := prev + [n];
      forall k | 0 <= k < |idx| ensures idx[k] < |s| && out[k] == s[idx[k]] && FirstOccurrence(s, idx[k], res) {
        if k < |prev| {
          assert init[prev[k]] == s[prev[k]];
        }
      }
      forall j | 0 <= j < |s| && FirstOccurrence(s, j, res) ensures j in idx {
        if j < n {
          assert FirstOccurrence(init, j, res);
          assert j in prev;
        }
      }
    } else {
      idx := prev;
      forall k | 0 <= k < |idx| ensures idx[k] < |s| && out[k] == s[idx[k]] && FirstOccurrence(s, idx[k], res) {
        assert init[prev[k]] == s[prev[k]];
      }
      forall j | 0 <= j < |s| && FirstOccurrence(s, j, res) ensures j in idx {
        assert j != n;
        assert FirstOccurrence(init, j, res);
      }
    }
  }

  /** Dedup grows by the last point exactly when that point is the first with its key. */
  lemma DedupGrows(s: seq<Vec2>, res: real)
    requires res > 0.0 && |s| > 0
    ensures Dedup(s, res) == if FirstOccurrence(s, |s| - 1, res) then Dedup(s[..|s| - 1], res) + [s[|s| - 1]]
                             else Dedup(s[..|s| - 1], res)
  {
    DedupKeys(s[..|s| - 1], res);
    LastFirstOccurrence(s, res);
  }

  /** Below n, being a first occurrence in s is the same as in its prefix of length n. */
  lemma FirstOccurrencePrefix(s: seq<Vec2>, n: nat, res: real)
    requires res > 0.0 && n <= |s|
    ensures forall j :: 0 <= j < n ==> (FirstOccurrence(s, j, res) <==> FirstOccurrence(s[..n], j, res))
  {
  }

  /** The last point is a first occurrence exactly when its key is new to the points before it. */
  lemma LastFirstOccurrence(s: seq<Vec2>, res: real)
    requires res > 0.0 && |s| > 0
    ensures FirstOccurrence(s, |s| - 1, res) <==> Quantize(s[|s| - 1], res) !in KeysOf(s[..|s| - 1], res)
  {
    var n := |s| - 1;
    if Quantize(s[n], res) in KeysOf(s[..n], res) {
      var i :| 0 <= i < n && Quantize(s[..n][i], res) == Quantize(s[n], res);
      assert s[..n][i] == s[i];
    } else {
      forall i | 0 <= i < n ensures Quantize(s[i], res) != Quantize(s[n], res) {
        assert s[..n][i] == s[i];
        assert Quantize(s[..n][i], res) in KeysOf(s[..n], res);
      }
    }
  }

  /** One more point: Dedup of a prefix grows by that point exactly when its key is new. */
  lemma DedupStep(s: seq<Vec2>, i: nat, res: real)
    requires res > 0.0 && i < |s|
    ensures Dedup(s[..i + 1], res) ==
              if Quantize(s[i], res) in KeysOf(Dedup(s[..i], res), res) then Dedup(s[..i], res)
              else Dedup(s[..i], res) + [s[i]]
  {
    assert s[..i + 1][..i] == s[..i];
  }

  /**
   filterVs. The seen-key set starts empty; each point's key is looked up
   and, when absent, inserted while the point is written at the offset
   cursor, which never passes the read cursor. The result is the first
   `offset` columns of the buffer.
   */
  method FilterVs(rV: seq<Vec2>, epsilon: real) returns (fV: seq<Vec2>)
    requires |rV| > 0 && Mag(rV) > 0.0
    ensures fV == Dedup(rV, Resolution(rV, epsilon))
    ensures |fV| <= |rV|
  {
    var mag := Max(Abs(MaxCoeff(rV)), Abs(MinCoeff(rV)));
    assert mag == Mag(rV);
    var res := ScaledResolution(mag, epsilon);
    assert res == Resolution(rV, epsilon);
    var filter: set<Key> := {};
    var buf := new Vec2[|rV|](i requires 0 <= i < |rV| => rV[i]);
    var offset := 0;
    for i := 0 to |rV|
      invariant offset <= i
      invariant buf[..offset] == Dedup(rV[..i], res)
      invariant filter == KeysOf(Dedup(rV[..i], res), res)
    {
      ghost var kept := Dedup(rV[..i], res);
      DedupStep(rV, i, res);
      var quanti := Quantize(rV[i], res);
      if quanti !in filter {
        KeysOfAppend(kept, rV[i], res);
        filter := filter + {quanti};
        buf[offset] := rV[i];
        assert buf[..offset + 1] == kept + [rV[i]];
        offset := offset + 1;
      }
    }
    assert rV[..|rV|] == rV;
    fV := buf[..offset];
  }
}
