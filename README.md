# Polytope helpers of a MINCO trajectory planner, in Dafny

This project models the small geometry layer a swarm trajectory planner
uses around its corridor optimiser, together with three arithmetic helpers
of its driver program:

- `geo_utils.hpp`, the 2-D H-polytope utilities:
  - `findInterior`: a Chebyshev-centre search through a 3-variable linear program.
  - `overlap`: a margin test on two stacked polytopes.
  - `filterLess` and `filterVs`: scale-aware de-duplication of points.
  - Both overloads of `enumerateVs`: the polar-dual / convex-hull vertex enumeration.
- `main.cpp`:
  - `boxToH`: the six half-spaces of an axis-aligned box.
  - `return_pos`, `return_vel`, `return_acc`: a cubic trajectory piece and its first two derivatives.

All `double` arithmetic is modelled exactly over `real`. The linear-program
solver and the hull routine are parameters:

- `solve: Lp -> LpSolution`. Its guarantees are the predicates `Sound` and `Optimal`.
- `hull: (seq<Vec2>, real) -> seq<nat>`, which returns an index buffer.

The Euclidean row norms enter as a sequence `hNorm` with `n > 0` and
`n * n == nx^2 + ny^2`. `std::round` is modelled exactly: halfway cases
round away from zero.

The modules follow the source:

- `Geometry`: vectors, rows, `Round`.
- `LinearProgram`: the solver interface.
- `InteriorPoint`, `Overlap`, `VertexFilter`, `VertexEnum`: `geo_utils.hpp`.
- `PrimalVertices`: what `enumerateVs` returns and what it evidently means to return.
- `BoxH` and `PieceEval`: `main.cpp`.

## Model

| member | source | states |
|---|---|---|
| Geometry.Round | geo_utils.hpp:106 | the key coordinate is the integer within 1/2 of x, with ties going away from zero |
| InteriorPoint.InteriorLp | geo_utils.hpp:48-56 | objective (0,0,-1); one row per polytope row, each divided by its normal length, with margin coefficient 1 and bound -d/n |
| InteriorPoint.NormalizedRowMeaning | geo_utils.hpp:51-54 | a normalised LP row holds at (x,y,r) iff n.(x,y) + d + r*n <= 0, iff r is at most the Euclidean margin of (x,y) |
| InteriorPoint.FindInterior | geo_utils.hpp:43-62 | success iff the LP value is finite and negative; the point is the solver's (x,y) even on failure; on success with a sound solver, the point is strictly inside every row |
| InteriorPoint.InteriorCertified | geo_utils.hpp:58-61 | a sound, finite, negative value -r certifies margin >= r > 0 at every row |
| InteriorPoint.FindInteriorComplete | geo_utils.hpp:43-62 | if some point is strictly inside and the solver returns a finite optimum, findInterior succeeds |
| InteriorPoint.FindInteriorMaximal | geo_utils.hpp:43-62 | on a sound, optimal success, no point has a larger smallest margin than the point found: it is a Chebyshev centre |
| Overlap.OverlapLp | geo_utils.hpp:69-80 | m + n rows: the first m from hPoly0 and the last n from hPoly1, unnormalised, margin coefficient 1, bound -d |
| Overlap.RawRowMeaning | geo_utils.hpp:74-78 | a stacked row holds at (x,y,r) iff n.(x,y) + d + r <= 0 |
| Overlap.OverlapLpMeaning | geo_utils.hpp:71-80 | (x,y,r) is feasible iff (x,y) lies in both polytopes with slack r at every row |
| Overlap.Overlap | geo_utils.hpp:64-85 | eps defaults to 1.0e-6; true iff the LP value is finite and < -eps; on a true, sound answer the solver's point is in both polytopes with slack > eps |
| Overlap.OverlapMonotone | geo_utils.hpp:84 | true at eps stays true at every smaller eps |
| Overlap.OverlapComplete | geo_utils.hpp:64-85 | a common point with slack s > eps plus a finite optimum gives true |
| VertexFilter.FilterLessStrictTotalOrder | geo_utils.hpp:87-92 | filterLess is irreflexive, transitive and total on distinct keys, so set equivalence is key equality |
| VertexFilter.FilterLess | geo_utils.hpp:87-92 | never relates a key to itself; the first coordinate decides whenever the two differ |
| VertexFilter.MaxCoeff | geo_utils.hpp:98 | bounds every coordinate from above and is attained |
| VertexFilter.MinCoeff | geo_utils.hpp:98 | bounds every coordinate from below and is attained |
| VertexFilter.MagIsLargestMagnitude | geo_utils.hpp:98 | mag bounds every coordinate's magnitude, is attained, and is positive iff some coordinate is non-zero |
| VertexFilter.ScaledResolution | geo_utils.hpp:99 | for mag > 0, res == max(abs(epsilon), mag * DBL_EPSILON) and res > 0 |
| VertexFilter.Mag | geo_utils.hpp:98 | mag >= 0 and [-mag, mag] contains minCoeff and maxCoeff, so every coordinate |
| VertexFilter.Resolution | geo_utils.hpp:99 | res > 0, res >= abs(epsilon) and res >= mag * DBL_EPSILON |
| VertexFilter.Quantize | geo_utils.hpp:106 | each key coordinate is within 1/2 of the point's coordinate over res |
| VertexFilter.Dedup | geo_utils.hpp:100-114 | the survivors are never more than the input points |
| VertexFilter.DedupKeys | geo_utils.hpp:104-113 | no two survivors share a key, and the survivors' keys are exactly the input's keys |
| VertexFilter.DedupSubsequence | geo_utils.hpp:104-113 | survivors are input points, unchanged, at strictly increasing indices; each is the first with its key, and every first occurrence survives |
| VertexFilter.FilterVs | geo_utils.hpp:94-116 | the buffer loop returns exactly Dedup of the input at the computed resolution; offset <= i holds throughout |
| VertexEnum.Slack | geo_utils.hpp:126 | b_i is minus the row's value at inner |
| VertexEnum.DualPoints | geo_utils.hpp:127-128 | b_i * u_i == n_i for every row |
| VertexEnum.HullIds | geo_utils.hpp:130-133 | the hull is asked at tolerance epsilon when epsilon is at most `hullDefaultEps` (which stands for `quickhull::defaultEps<double>()`), otherwise at `hullDefaultEps` |
| VertexEnum.DualityAt | geo_utils.hpp:126-128 | when b_i > 0, inner + q satisfies row i iff u_i . q <= 1 |
| VertexEnum.Gather | geo_utils.hpp:135-138 | column k of rV is A at idBuffer[k] |
| VertexEnum.GatherColumns | geo_utils.hpp:135-138 | the copy loop fills a fresh buffer with exactly the gathered columns |
| VertexEnum.Translate | geo_utils.hpp:141 | every point is shifted by inner |
| VertexEnum.EnumeratedAtOutputs | geo_utils.hpp:130-141 | each output is inner plus the dual point at some idBuffer position; positions strictly increase; there are at most as many outputs as buffer entries |
| VertexEnum.EnumeratedAt | geo_utils.hpp:121-142 | the 3-argument enumerateVs's result: the gathered dual points de-duplicated at the source's resolution and shifted by inner, never more of them than buffer entries |
| VertexEnum.EnumerateVsAt | geo_utils.hpp:121-142 | epsilon defaults to 1.0e-6; the gather loop, filterVs and translation produce EnumeratedAt |
| VertexEnum.EnumerateVs | geo_utils.hpp:147-161 | epsilon defaults to 1.0e-6; returns findInterior's flag; on failure vPoly is untouched; on success vPoly is enumerateVs at the point found |
| VertexEnum.InteriorSlacksPositive | geo_utils.hpp:152-154 | after a sound success every slack at the interior point is positive |
| PrimalVertices.DualOutputHoldsIff | geo_utils.hpp:126-141 | the point emitted for row i satisfies row i iff n_i . n_i <= b_i^2 |
| PrimalVertices.EnumerateVsAtMissesUnitSquare | geo_utils.hpp:121-142 | on the unit square at its centre, no output point lies in the square, whatever the hull returns |
| PrimalVertices.UnitSquareEnumerable | geo_utils.hpp:121-142 | a hull that returns the buffer 1, 3, 0, 2 for the unit square's dual points meets every precondition of enumerateVs at the square's centre, so the miss above does happen |
| PrimalVertices.EdgeDual | geo_utils.hpp:130-141 | the point q with u . q == 1 and w . q == 1 for non-parallel u, w |
| PrimalVertices.CornerInside | geo_utils.hpp:130-141 | with positive slacks and a supporting hull edge (u_j, u_k), inner + q lies in the polygon on rows j and k |
| PrimalVertices.CornersAt | geo_utils.hpp:130-141 | corrected gather: corner k satisfies u . q == 1 for buffer vertex k and for the next one |
| PrimalVertices.CornersOnBoundary | geo_utils.hpp:130-141 | each corrected output is on the boundary lines of rows ids[k] and ids[k+1] |
| PrimalVertices.CornersInside | geo_utils.hpp:130-141 | with positive slacks and every consecutive buffer pair a supporting hull edge, every corrected output lies in the polygon |
| PrimalVertices.CornersAtUnitSquare | geo_utils.hpp:130-141 | on the unit square the corrected gather yields exactly its four corners |
| BoxH.BoxToH | main.cpp:56-75 | six rows, two per axis; their meaning is stated by the lemmas below |
| BoxH.BoxRowMeaning | main.cpp:58-72 | row 2k holds iff p_k <= c_k + h_k; row 2k+1 holds iff p_k >= c_k - h_k |
| BoxH.BoxToHContains | main.cpp:56-75 | p satisfies all six rows iff c_k - h_k <= p_k <= c_k + h_k on every axis |
| BoxH.BoxCenterSlack | main.cpp:58-72 | at the centre both rows of axis k have value -h_k, strictly negative when h_k > 0 |
| BoxH.BoxNormals | main.cpp:58-72 | row 2k has unit normal +e_k, row 2k+1 has its opposite, and the normals do not depend on the box |
| PieceEval.PosOf | main.cpp:81-84 | the component equals the Horner value of the row's cubic, column 3 constant and column 0 cubic |
| PieceEval.VelOf | main.cpp:93-95 | the component equals the formal derivative of that cubic, evaluated at t |
| PieceEval.AccOf | main.cpp:104-105 | the component equals the second formal derivative, evaluated at t |
| PieceEval.ReturnPos | main.cpp:77-87 | a fresh 3-element buffer whose axis i holds the cubic of row i at t |
| PieceEval.ReturnVel | main.cpp:89-98 | a fresh 3-element buffer whose axis i holds the derivative of row i at t |
| PieceEval.ReturnAcc | main.cpp:100-108 | a fresh 3-element buffer whose axis i holds the second derivative of row i at t |
| PieceEval.AtTimeZero | main.cpp:81-105 | at t = 0: position is column 3, velocity column 2, acceleration 2 * column 1 |
| PieceEval.ConstantPiece | main.cpp:182-183 | with only column 3 non-zero, position is column 3 at all t and velocity and acceleration are 0 |
| PieceEval.VelocityIsRateOfChange | main.cpp:81-96 | p(t+e) - p(t) == e * (v(t) + O(e)), with the remainder written out |
| PieceEval.AccelerationIsRateOfChange | main.cpp:92-105 | v(t+e) - v(t) == e * (a(t) + 3 e c0) |

## Left out

- `sdlp::linprog` and `quickhull::QuickHull` are not part of this model. They are function parameters; what the callers rely on is stated as `Sound`/`Optimal` and as preconditions on the index buffer.
- IEEE-754 effects are not modelled: rounding of `double` operations, NaN, and `std::isinf` other than the solver's infinite answer (`LpValue.Infinite`). `DBL_EPSILON` is the exact constant 2^-52.
- The zero row norm and the zero slack are unguarded in the source (they divide by zero). Here they are preconditions: `RowNorms` for findInterior, and `SlacksNonZero` inside `EnumerableAt` for enumerateVs.
- VertexFilter.FilterVs: requires a non-empty input with some non-zero coordinate. The source handles neither failing case, and the model follows neither:
  - Zero columns: geo_utils.hpp:98 calls `maxCoeff` and `minCoeff` on a 2 x 0 matrix, which Eigen does not allow, so no division is reached. The 3-argument enumerateVs gets there whenever the hull returns an empty index buffer (geo_utils.hpp:135-140).
  - An all-zero input: mag == 0, so res is 0 * inf, a NaN. Every key is then NaN, filterLess holds between no two keys, and only the first column survives.
- VertexFilter.FilterLessStrictTotalOrder: stated on integer keys. The source compares rounded doubles, which hold integers in range here.
- The 2-D enumerateVs hands 2-row dual points to a 3-D hull interface (`getConvexHull` on `A.data()` with `A.cols()` points). How that hull reads the memory is not part of this model: the index buffer is a parameter.
- VertexEnum.EnumerateVsAt: requires the hull's indices in range, a non-empty buffer and a non-zero gathered matrix. The source checks none of these.
- InteriorPoint.FindInteriorComplete: needs a finite optimum. An unbounded region, where the solver answers infinity, makes findInterior fail although interior points exist.
- Overlap.Overlap: its margin is in units of each row's normal length, because overlap does not normalise rows. It is stated as such, not as a Euclidean distance.
- The `boxToH` 6 x 4 matrix and the `MatrixX3d` polytopes of `geo_utils.hpp` are kept apart, each with its own row layout. The hand-off between them happens in optimiser code that is not part of this model.
- `readTrajectoryCSVPositions` is file input and `main()` drives the external optimiser, CSV output and clocks. Neither is part of this model.
- PieceEval.ReturnPos, PieceEval.ReturnVel, PieceEval.ReturnAcc: the malloc'd buffers are fresh arrays here. Their leaking by the caller is not modelled.
- The comments at main.cpp:80 and main.cpp:92 number the coefficients the other way round from the code. The model follows the code: column 3 is the constant term and column 0 the cubic term.

## Findings

| source | as written | input that shows it | evidently intended | confidence | as-written member | corrected member |
|---|---|---|---|---|---|---|
| geo_utils.hpp:130-141 | the 2-D `enumerateVs` outputs inner + n_i / b_i, the dual point of each hull vertex, translated back | unit square 0 <= x, y <= 1 with inner (0.5, 0.5): the dual points are (+-2, 0), (0, +-2), so every output is at distance 2 from the centre, outside the square | the polygon corners: for consecutive hull vertices u, w, the corner inner + q with u . q == w . q == 1 | not executed | PrimalVertices.EnumerateVsAtMissesUnitSquare | PrimalVertices.CornersOnBoundary |
