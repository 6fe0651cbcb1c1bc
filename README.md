# Thin plate spline warp engine

This project models the thin plate spline (TPS) engine of a map
georeferencing application. The engine lives in `src/TPS.js`. Given n
source control points and n target control points, it fits the spline

  f(q) = c[n] + c[n+1]·qx + c[n+2]·qy + Σᵢ c[i]·U(r²(q, srcᵢ)),  where U(r²) = r²·log(r² + 10⁻¹⁰),

one coefficient vector per output axis. It does so by building the saddle-point
system L = [[K, P], [Pᵀ, 0]] and solving L·c = V with Gaussian elimination
with partial pivoting. It then evaluates f at query points.

Numbers are exact `real`s. The logarithm is a parameter `ln: real -> real`,
and nothing is assumed about it. Every definition and result therefore holds
for any logarithm. The only fact about the kernel that is used is that
U(0) = 0, which follows from the r² factor.

Modules:

- `Sums` (`sums.dfy`): partial dot products Σ_{lo≤k<hi} u[k]·x[k] and the
  algebra of them.
- `ThinPlate` (`thinplate.dfy`): the mathematics as values. It defines the
  kernel, the system matrix the builders fill, the right-hand sides and the
  transform a coefficient vector defines. It also proves exact interpolation
  and the affine side conditions.
- `Builders` (`builders.dfy`): `createKMatrix`, `createPMatrix` and
  `createLMatrix`. Each is modelled as a method that fills a freshly
  allocated `array2<real>` with the source's nested loops.
- `Elimination` (`elimination.dfy`): the states the solver's working matrix
  goes through, described as values. These are the pivot choice, the row
  exchange, the elimination below a pivot, a whole pass and all the passes.
  It proves that the passes keep the solution set and end upper triangular.
- `Solver` (`solver.dfy`): `solveSystem` as imperative code. The working
  matrix is an array of row arrays, so a row exchange swaps two references,
  as the JavaScript destructuring does. A ghost value follows the working
  matrix through the states of `Elimination`.
- `Warp` (`warp.dfy`): `computeTPSCoefficients` and `applyTPSTransformation`.

## Model

| member | source | states |
|---|---|---|
| Builders.CreateKMatrix | src/TPS.js:2-14 | K is n×n. Entry (i, j) is U(r²) of the squared distance between points i and j. The diagonal is exactly 0, and K is symmetric. |
| Builders.CreatePMatrix | src/TPS.js:16-24 | P is n×3, and row i is exactly [1, xᵢ, yᵢ]. |
| Builders.CreateLMatrix | src/TPS.js:26-52 | L is (n+3)×(n+3). K is its top-left block, P its top-right block and Pᵀ its bottom-left block. The bottom-right 3×3 block is zero. If K is symmetric, so is L. |
| ThinPlate.Radial | src/TPS.js:9 | The kernel r²·log(r² + 10⁻¹⁰) is 0 at r² = 0, whatever the logarithm. |
| ThinPlate.SquaredDistance | src/TPS.js:8 | The squared distance, computed the same way at src/TPS.js:106, is never negative and is 0 from a point to itself. |
| ThinPlate.KernelEntry | src/TPS.js:7-10 | The entry the loop stores for (i, j) equals the kernel of the distance between points i and j on the diagonal too, where the loop skips the store and the entry stays at 0. |
| ThinPlate.SystemEntry | src/TPS.js:26-52 | Every diagonal entry of L is 0, since K's diagonal and the bottom-right block are zero. The top-right block is P and the bottom-left block is Pᵀ. |
| ThinPlate.SystemMatrix | src/TPS.js:26-52 | L is (n+3)×(n+3), and entry (i, j) is the block entry of [[K, P], [Pᵀ, 0]]. |
| ThinPlate.SystemMatrixSymmetric | src/TPS.js:30-49 | The system matrix of any source points is symmetric. |
| ThinPlate.Rhs | src/TPS.js:89-90 | V has length n+3: the target coordinates on one axis, followed by three zeros. |
| ThinPlate.AffinePart | src/TPS.js:102-103 | The starting value of each coordinate is the affine basis row [1, qx, qy] of the query point times the three affine coefficients. |
| ThinPlate.KernelTerm | src/TPS.js:106-109 | The term added for source point i is zero when its weight is zero, and zero when the query point is that source point. |
| ThinPlate.KernelSum | src/TPS.js:105-110 | The kernel part accumulated over the first k source points is zero when their weights are zero. |
| ThinPlate.Transform | src/TPS.js:98-113 | The warped coordinate is the affine part plus the kernel part. With every kernel weight zero it is purely affine. |
| ThinPlate.TransformAtSource | src/TPS.js:98-113 | Evaluating the transform at source point j gives row j of L·c. |
| ThinPlate.ExactInterpolation | src/TPS.js:84-96 | Coefficients that solve L·c = V map every source point exactly onto its target on that axis. |
| ThinPlate.AffineSideConditions | src/TPS.js:44-49 | The last three equations of L·c = V say that the kernel weights sum to zero and have zero moments against the x and y coordinates of the sources. |
| ThinPlate.KernelRowSum | src/TPS.js:102-110 | The first k terms of row j of K, times c, are the first k kernel terms of the transform at source point j. |
| ThinPlate.ConstraintRowSum | src/TPS.js:44-49 | The first k terms of row n+col of L, times c, are the moment of the kernel weights against column col of P. |
| ThinPlate.Accumulated | src/TPS.js:105-110 | One pass of the accumulation loop adds the next kernel term: affine part plus the first i terms becomes affine part plus the first i+1 terms. |
| ThinPlate.Fitted | src/TPS.js:92-93 | A vector whose products with the rows of L are V solves the system and interpolates the targets. |
| ThinPlate.MinimalCase | src/TPS.js:84-96 | With three control points not on one line, every solution of L·c = V has all three kernel weights zero. So the fitted transform is the affine part at every point. |
| ThinPlate.AffineOnly | src/TPS.js:98-113 | The coefficients of a purely affine warp have length n+3: n zero kernel weights, then a0, a1, a2. |
| Sums.SumZeroVector | src/TPS.js:105-110 | A sum against a vector that is zero on its range is zero. |
| ThinPlate.RowTimesAffine | src/TPS.js:92-93 | A row of L times affine-only coefficients is the combination of the row's last three entries with a0, a1, a2. |
| ThinPlate.AffineSolves | src/TPS.js:84-96 | Suppose every target is the image of its source under one affine map. Then that map's affine-only coefficients solve L·c = V. |
| ThinPlate.AffineTransform | src/TPS.js:98-113 | With affine-only coefficients the transform equals a0 + a1·qx + a2·qy at every point q. |
| ThinPlate.Square | src/TPS.js:84-96 | The four corners (0,0), (10,0), (0,10) and (10,10) of a square of side 10. |
| ThinPlate.Scaled | src/TPS.js:84-96 | The same four corners scaled by 10. |
| ThinPlate.ScaledIsAffine | src/TPS.js:84-96 | Each scaled corner is its corner under x ↦ 10x and y ↦ 10y. |
| Elimination.Augment | src/TPS.js:56 | The augmented copy has n rows of n+1 entries. It holds L's coefficients, with V[r] in the last column. |
| Elimination.PivotScan | src/TPS.js:58-63 | The scan compares rows k, k+1, … in order against the best row so far and replaces it only on a strictly larger magnitude. It ends at a row between the starting best and n−1. |
| Elimination.PivotScanBest | src/TPS.js:58-63 | Suppose the scan starts from a row that is largest, and first among equals, in rows i..k-1. Then it ends at a row that is largest in column i among rows i..n-1, and every earlier row in that range is strictly smaller, because the comparison is strict. |
| Elimination.PivotRow | src/TPS.js:58-63 | The pivot row lies in [i, n) and has the largest magnitude in column i. On ties the lowest index wins. |
| Elimination.SwapRows | src/TPS.js:64 | Rows i and p are exchanged and every other row is unchanged. |
| Elimination.EliminateRow | src/TPS.js:66-70 | Entries before column i are unchanged. Entry i becomes 0. Entry c ≥ i becomes row[c] − (row[i]/pivot[i])·pivot[c]. |
| Elimination.EliminateBelow | src/TPS.js:66-71 | Rows up to i are unchanged, and every row below i is eliminated against row i. |
| Elimination.Step | src/TPS.js:57-72 | One outer pass leaves rows 0..i−1 unchanged and puts the pivot row at row i. Column i is 0 below row i. |
| Elimination.PivotsOk | src/TPS.js:57-72 | Every pivot met from pass i on is nonzero, so the divisions at src/TPS.js:67 and src/TPS.js:76 are defined. Then column i has a nonzero entry at or below row i. |
| Elimination.Forward | src/TPS.js:57-72 | The passes i..n−1 leave rows 0..i−1 unchanged. |
| Elimination.SwapSolutions | src/TPS.js:64 | Exchanging two equations does not change the solution set, in either direction. |
| Sums.Combine | src/TPS.js:69 | Entry c of a row minus f times another row is row[c] − f·other[c]. |
| Elimination.EliminatedRowEntries | src/TPS.js:66-70 | If the pivot row is zero before column i, each eliminated row is the old row minus (row[i]/pivot[i]) times the pivot row, in every column. |
| Elimination.CombinedEquation | src/TPS.js:67-69 | Suppose x satisfies the pivot equation. Then a row minus f times the pivot row has the same residual at x as the row itself. |
| Elimination.EliminateSolutions | src/TPS.js:66-71 | Eliminating below pivot i does not change the solution set, in either direction. |
| Elimination.StepReduces | src/TPS.js:57-72 | Pass i leaves columns 0..i eliminated below the diagonal with nonzero pivots, and keeps the solution set. |
| Elimination.ForwardReduces | src/TPS.js:57-72 | With nonzero pivots, forward elimination ends with every entry below the diagonal 0. It has the same solutions as the original system. |
| Elimination.PivotScanSame | src/TPS.js:58-63 | The pivot scan reads only the coefficient columns. |
| Elimination.EliminateRowSame | src/TPS.js:66-70 | Eliminating one row only combines coefficient columns with coefficient columns. |
| Elimination.EliminateSame | src/TPS.js:66-71 | Elimination below a pivot keeps two systems with the same coefficients alike in their coefficients. |
| Elimination.StepSame | src/TPS.js:57-72 | A pass keeps two systems with the same coefficients alike in their coefficients and meets the same pivot. |
| Elimination.PivotsOkSame | src/TPS.js:57-72 | Whether every pivot is nonzero depends only on the coefficients. |
| Elimination.PivotsIgnoreRhs | src/TPS.js:57-72 | Whether every pivot is nonzero does not depend on the right-hand side V. |
| Elimination.AugmentedSolution | src/TPS.js:56 | A solution of the augmented system has n entries and solves L·x = V. |
| Elimination.AugmentedSatisfies | src/TPS.js:56 | A solution of L·x = V solves the augmented system. |
| Elimination.RowFixesUnknown | src/TPS.js:76 | Take an equation that is zero before column r and has a nonzero entry at r. Two solutions of it that agree after r also agree at r. |
| Elimination.TriangularAgree | src/TPS.js:74-80 | Two solutions of an upper triangular system with a nonzero diagonal agree from row r on. |
| Elimination.SolutionUnique | src/TPS.js:54-82 | With every pivot nonzero, L·x = V has at most one solution. So the vector solveSystem returns is the only one. |
| Solver.AugmentedCopy | src/TPS.js:56 | The copy has n fresh, distinct rows, each holding L's row with V[r] appended. |
| Solver.FindPivot | src/TPS.js:58-63 | The loop returns exactly the pivot row of column i (see Elimination.PivotRow). |
| Solver.ExchangeRows | src/TPS.js:64 | The two row references are exchanged and nothing else changes. |
| Solver.EliminateInRow | src/TPS.js:67-70 | The row array ends up as the eliminated row of its old contents. |
| Solver.EliminateColumn | src/TPS.js:66-71 | The working matrix ends up as the elimination below pivot i of the matrix it held. |
| Solver.EliminationPass | src/TPS.js:57-72 | One outer pass takes the working matrix from state S to Step(S, i). |
| Solver.ForwardEliminate | src/TPS.js:57-72 | The working matrix ends up holding the forward elimination of the augmented system. |
| Solver.Triangulate | src/TPS.js:56-72 | Copying and then eliminating leaves Forward(augmented system) in fresh rows. |
| Solver.SolvedRow | src/TPS.js:76 | x[i] = (rhs − known terms)/U[i][i] satisfies equation i of an upper triangular system. |
| Solver.ShareTaken | src/TPS.js:78 | Subtracting a[k][i]·x[i] from a right-hand side removes term i from what is still missing. |
| Solver.HeldRhs | src/TPS.js:74 | Before back substitution, the rows hold U with U's own right-hand sides. |
| Solver.SetRhs | src/TPS.js:78 | Writing a[k][n] sets row k's right-hand side and nothing else. |
| Solver.PendingStep | src/TPS.js:77-79 | One step of the inner loop moves row k from pending to done. |
| Solver.TakeShareFromRow | src/TPS.js:78 | a[k][n] -= a[k][i]·x[i] moves row k from pending to done. Rows from i on keep their right-hand sides. |
| Solver.TakeOffShare | src/TPS.js:77-79 | The inner loop leaves every row above i missing only the terms after i. Rows from i on are untouched. |
| Solver.SolveUnknown | src/TPS.js:76 | Setting x[i] solves equation i and keeps the bookkeeping of the other rows. |
| Solver.NothingReduced | src/TPS.js:74 | Before any unknown is computed, nothing is missing from the right-hand sides. |
| Solver.TriangularSolved | src/TPS.js:74-80 | When every equation holds from its diagonal on, an upper triangular system holds. |
| Solver.BackSubstitutionPass | src/TPS.js:76-79 | One back-substitution pass solves equation i and keeps the loop invariant. |
| Solver.BackSubstitute | src/TPS.js:74-80 | Back substitution on an upper triangular system returns a solution of it. |
| Solver.SolveSystem | src/TPS.js:54-82 | With every pivot nonzero, the result has length n and satisfies L·x = V row by row. The method has no modifies clause, so L is left unchanged. |
| Warp.AssembleSystem | src/TPS.js:85-87 | Building K and P and assembling L gives exactly the system matrix of the sources. |
| Warp.ComputeTPSCoefficients | src/TPS.js:84-96 | cx solves L·c = Vx and cy solves L·c = Vy. The fitted transform maps every source point exactly onto its target on both axes. Every other solution of either system equals the returned vector. |
| Warp.CoefficientsUnique | src/TPS.js:84-96 | With every pivot of L nonzero, each axis has exactly one coefficient vector solving L·c = V. The fit is determined by the control points. |
| Warp.AffineReproduction | src/TPS.js:84-113 | Suppose the targets are the image of the sources under one affine map, and the pivots of L are nonzero. Then the fitted coefficients are exactly that map, with every kernel weight zero. The warp equals the map at every point, between the control points too. |
| Warp.ScaledSquareCentre | src/TPS.js:84-113 | The square of side 10 is fitted onto the same square scaled by 10, with the pivots of L nonzero. Then the centre (5, 5) is warped to (50, 50). |
| Warp.ApplyTPSTransformation | src/TPS.js:98-113 | The result is, on each axis, c[n] + c[n+1]·qx + c[n+2]·qy plus Σ c[i]·U(r²(q, srcᵢ)), which is Transform of the coefficients. |

## Left out

- `src/App.jsx` is not part of this model. It is user-interface and I/O glue: React state, the OpenLayers map and layers, proj4 registration, asynchronous image loading and remote tiles. It also holds the identity reverse transform and the hard-coded control points, which are configuration.
- IEEE-754 arithmetic is not modelled: rounding, overflow, `Infinity` and `NaN`. Numbers are exact reals. The numerical-stability purpose of partial pivoting cannot be stated over the reals, so only the selection rule is modelled.
- `Math.log` is not modelled: it is the parameter `ln`, and its values are never used. `Math.pow(d, 2)` is written d·d.
- Singular systems are out of scope. The code has no singularity check: it divides by whatever pivot it meets (src/TPS.js:67, src/TPS.js:76). So the model requires every pivot to be nonzero, rather than modelling an error. The code raises no singular-system error and does not reject fewer than three control points.
- Solver.SolveSystem requires nonzero pivots (`PivotsOk`). With a zero pivot, the JavaScript returns non-finite numbers, which have no counterpart over the reals.
- Warp.ComputeTPSCoefficients requires as many targets as sources. The code does not check this. With fewer targets, `V[i]` is `undefined` for some rows. With more, the target coordinates land in the three zero rows.
- Warp.ComputeTPSCoefficients requires nonzero pivots of L. This amounts to the same condition for both axes, by Elimination.PivotsIgnoreRhs.
- Warp.ApplyTPSTransformation requires at least n+3 coefficients per axis. The code reads `coeffs[n + 2]` without checking.
- K, P and L are two-dimensional arrays (`array2`), not arrays of row arrays. The builders never share or exchange their rows, so nothing observable depends on this.
- Solver.BackSubstitute keeps `x` in a local sequence, updated with `x[i := …]`, rather than an array. The array is local to `solveSystem` and never aliased, so the difference is not observable.
- The loop bodies of `solveSystem` are split into helper methods: FindPivot, ExchangeRows, EliminateInRow, EliminateColumn, TakeShareFromRow, TakeOffShare and BackSubstitutionPass. Each runs the same loop on the same state as the code it names.
