# la-stack in Dafny

This project models the core of la-stack. la-stack is a Rust library of small linear algebra
over a fixed dimension D, stored on the stack. The model covers:

- LU decomposition with partial pivoting (`Lu::factor`, `solve_vec`, `det`);
- the unpivoted LDLᵀ factorization for symmetric positive (semi)definite matrices
  (`Ldlt::factor`, `solve_vec`, `det`);
- the two-variant error type `LaError`, its `Display` text and `DEFAULT_PIVOT_TOL`;
- the `Matrix` and `Vector` containers;
- the helpers of the benchmark comparison: the cycle-counting permutation sign, the input
  generators and a reference infinity norm;
- the pure parts of the plotting script: `d<N>` directory names, README table splicing,
  gnuplot quoting and output-path resolution.

Floating-point numbers are modelled as exact reals with one extra value that stands for
every non-finite double: `Scalar = Fin(v: real) | NonFin`. Arithmetic on `NonFin` gives
`NonFin`. Dividing by zero gives `NonFin`. A comparison with `NonFin` is false, as one with
NaN is. `mul_add(a, b, c)` is the exact `a·b + c`. With this model, every branch that
reports `NonFinite` stays reachable from bad input, and the exact-arithmetic theorems can be
stated: P·A = L·U, A = L·D·Lᵀ, and A·x = b for the solves.

The engines follow the source's form.

- They run on an `array` of rows, updated in place by nested loops with early returns. A row
  exchange is one parallel assignment.
- Each engine method is proved equal to a recursive specification function:
  `LuEngine.FactorSpec`, `LuEngine.SolveSpec`, `LdltEngine.FactorSpec` and so on.
- The lemmas in `lu_proofs.dfy` and `ldlt_proofs.dfy` prove the properties of those
  functions: error precedence, which cells are written, the permutation invariants and the
  reconstruction theorems.
- `Matrix` is a class over an `array2`, because `set` mutates one cell through `&mut self`.
  `Vector` is a value.
- The script's list-building helpers are functions. `_discover_dims` is a method with a
  loop, as in the source.

Files:

| file | contents |
|---|---|
| scalars.dfy | `Scalar`, its arithmetic, and square-grid helpers (`Storage`) |
| real_sums.dfy | finite sums over reals; matrix products over `seq<seq<real>>` |
| la_error.dfy | decimal text of naturals; `LaError`, `Display`, `DEFAULT_PIVOT_TOL`, `Option`, `Result` |
| permutations.dfy | permutations, swaps and the inversion-parity sign |
| substitution.dfy | the multiply-add accumulations, forward substitution, diagonal products |
| lu_engine.dfy / lu_proofs.dfy / lu_special.dfy / lu_examples.dfy | LU: engine, theorems, diagonal and identity inputs, the unit tests |
| ldlt_engine.dfy / ldlt_proofs.dfy / ldlt_special.dfy / ldlt_examples.dfy | LDLᵀ: the same four parts |
| vector.dfy / inf_norm.dfy / matrix.dfy | the containers |
| perm_sign.dfy / bench_inputs.dfy | the benchmark helpers |
| dim_dirs.dfy / readme_table.dfy / gp_quote.dfy / output_paths.dfy | the plotting script |

## Model

| member | source | states |
|---|---|---|
| LaErrors.Display | src/lib.rs:37-51 | Singular{n} is the phrase "singular matrix at pivot column " followed by n in decimal; NonFinite{n} is "non-finite value encountered at pivot column " followed by n |
| LaErrors.DisplayRoundTrip | src/lib.rs:37-51 | parsing the displayed text gives the error back, variant and column |
| LaErrors.DisplayInjective | src/lib.rs:23-51 | two errors display the same text exactly when they are equal (same variant, same pivot column) |
| LaErrors.DefaultPivotTolNonNegative | src/lib.rs:17-20 | the default tolerance 1e-12 lies strictly between 0 and 1, so it meets the engines' `tol >= 0` |
| Decimal.DigitsOfNat | src/lib.rs:41-47 | the decimal text of a column reads back as that number |
| Decimal.NatToStringInjective | src/lib.rs:41-47 | different columns give different decimal texts |
| Permutations.IdentityIsPermutation | src/lu.rs:22-25 | the initial `piv` (entry i is i) is a permutation of 0..D-1 |
| Permutations.SwapPreservesPermutation | src/lu.rs:52-56 | exchanging two entries of a permutation gives a permutation |
| Permutations.SwapNegatesSign | src/lu.rs:52-56 | exchanging two distinct entries negates the inversion-parity sign |
| Permutations.IdentitySign | src/lu.rs:22-27 | the identity has sign +1, matching the initial `piv_sign` |
| LuEngine.ScanFrom | src/lu.rs:37-46 | the pivot search over the remaining rows returns a row in k..D-1, or NonFinite{k} |
| LuEngine.Step | src/lu.rs:29-74 | one step keeps the state well formed (square rows, piv and sign of the same size); its only errors are NonFinite{k} and Singular{k} |
| LuEngine.FactorSpec | src/lu.rs:19-83 | a success is well formed, of the input's size and keeps tol; an error names a column below D |
| LuEngine.FactorKeepsPermutation | src/lu.rs:22-56 | `piv` stays a permutation through all steps |
| LuEngine.ChoosePivot | src/lu.rs:30-46 | the in-place pivot search returns exactly the specification's scan |
| LuEngine.EliminateRow | src/lu.rs:64-73 | only row r changes; it becomes the eliminated row (multiplier at column k, multiply-adds to the right) |
| LuEngine.EliminateBelow | src/lu.rs:63-74 | succeeds exactly when the specification's elimination does, and then leaves its rows |
| LuEngine.StepInPlace | src/lu.rs:29-74 | the in-place step returns the specification step's error, or leaves its rows, permutation and sign |
| LuEngine.Factor | src/lu.rs:19-83 | the in-place factorization returns exactly `FactorSpec(a, tol)` |
| LuEngine.SolveSpec | src/lu.rs:91-131 | a success has D entries; an error names a column below D |
| LuEngine.SolveVec | src/lu.rs:91-131 | the in-place permute, forward and back passes return exactly `SolveSpec(lu, b)` |
| Substitution.ForwardInPlace | src/lu.rs:97-108 | the forward pass over the array either leaves in it the forward-substitution result or reports the error of the first non-finite row sum, as `ForwardFrom` says; the LDLT solve (src/ldlt.rs:127-138) runs the same pass |
| LuEngine.BackInPlace | src/lu.rs:110-128 | the back pass over the array either leaves in it the back-substitution result or reports its first non-finite or singular row, as `LuBackFrom` says |
| LuSpecial.UnitDiagonalBackFrom | src/lu.rs:110-128 | back substitution with a unit diagonal matrix and tol below 1 returns a finite vector unchanged |
| LuEngine.Det | src/lu.rs:136-142 | the loop returns the sign times the diagonal of U, multiplied left to right (`DetSpec`) |
| LuProofs.ScanFacts | src/lu.rs:31-46 | the scan fails exactly when some entry of column k in rows k..D-1 is non-finite; otherwise the chosen row has the largest absolute value, and every earlier row is strictly smaller, so a tie keeps the first |
| LuProofs.StepErrors | src/lu.rs:32-50 | a non-finite entry in column k (rows k..D-1) gives NonFinite{k} before the tolerance test; Singular{k} comes exactly when all those entries are finite with absolute value at most tol |
| LuProofs.EliminateFromShape | src/lu.rs:64-74 | the elimination succeeds exactly when every multiplier is finite, and then writes each lower row as the eliminated row |
| LuProofs.StepKeepsFinishedRows | src/lu.rs:29-74 | step k leaves rows 0..k-1 unchanged |
| LuProofs.FinishedRowsStay | src/lu.rs:29-75 | after step k, row k is never written again |
| LuProofs.StepKeepsInv | src/lu.rs:29-74 | on finite input each step keeps the invariant: finite rows, `piv` a permutation, the sign equal to its parity sign, the finished pivots above tol, and P·A reconstructed from the rows; with tol >= 0 its only error is Singular{k} |
| LuProofs.FactorFromKeepsInv | src/lu.rs:29-75 | the invariant holds after the last step |
| LuProofs.LuFactorizes | src/lu.rs:19-83 | on finite input, a success has `piv` a permutation, `piv_sign` equal to its parity sign, finite factors, every \|U[k][k]\| > tol, and L·U = P·A with L the unit lower and U the upper part; with tol >= 0 every error is Singular |
| LuProofs.LowerSolves | src/lu.rs:97-108 | forward substitution on finite data succeeds and solves L·y = x |
| LuProofs.UpperSolves | src/lu.rs:110-128 | back substitution succeeds when every diagonal entry is above tol, and solves U·z = y |
| LuProofs.UnpermuteSolution | src/lu.rs:92-95 | solving the permuted system P·A·z = P·b solves A·z = b |
| LuProofs.LuSolves | src/lu.rs:91-131 | for a successful factorization of finite A and finite b with tol >= 0, the solve succeeds, is finite and satisfies A·x = b |
| LuSpecial.DiagonalFactor | src/lu.rs:19-83 | a diagonal matrix whose pivots are finite and above tol factors into itself with the identity permutation and sign +1; its determinant is the product of the diagonal |
| LuSpecial.DiagonalSolve | src/lu.rs:91-131 | for such a matrix the LU solve is elementwise division b[i] / a[i][i] |
| LuSpecial.DiagonalBack | src/lu.rs:110-128 | back substitution with such a matrix divides each entry by its diagonal entry |
| LuSpecial.IdentityFactorSolve | src/matrix.rs:30-36 | for 0 <= tol < 1 the identity factors into itself, its determinant is 1 and the solve returns b |
| LuSpecial.NonFiniteFirstColumn | src/lu.rs:32-41 | a non-finite entry anywhere in column 0 makes the factorization fail with NonFinite{0} |
| LuSpecial.PivotRecheckUnreachable | src/lu.rs:58-61 | after a successful scan and the exchange, the pivot is finite, so the second finiteness check cannot fire |
| LuExamples.SingularDetected | src/lu.rs:175-179 | [[1,2],[2,4]] with the default tolerance gives Singular{1} |
| LuExamples.PivotingFactor | src/lu.rs:165-167 | [[0,1],[1,0]] factors with one exchange: L = U = I, piv = [1,0], sign -1 |
| LuExamples.PivotingDet | src/lu.rs:136-142 | that factorization has determinant -1 |
| LuExamples.PivotingSolve | src/lu.rs:168-171 | solving it with b = [1,2] gives [2,1], for every tol in [0, 1) |
| LuExamples.BasicFactor | src/lu.rs:155-157 | [[1,2],[3,4]] factors with rows exchanged into the exact factors, sign -1 |
| LuExamples.BasicDet | src/lu.rs:136-142 | that factorization has determinant -2 |
| LuExamples.BasicSolve | src/lu.rs:158-161 | solving it with b = [5,11] gives [1,2] |
| LdltEngine.MultipliersFrom | src/ldlt.rs:48-55 | the multiplier pass keeps the grid square and its only error is NonFinite{j} |
| LdltEngine.UpdateFrom | src/ldlt.rs:57-70 | the trailing update keeps the grid square and its only error is NonFinite{j} |
| LdltEngine.Step | src/ldlt.rs:39-71 | one step keeps the grid square; its errors name column j |
| LdltEngine.FactorSpec | src/ldlt.rs:30-74 | a success is well formed, of the input's size and keeps tol; an error names a column below D |
| LdltEngine.ComputeMultipliers | src/ldlt.rs:48-55 | the in-place loop succeeds exactly when the specification does, and then leaves its rows |
| LdltEngine.UpdateRow | src/ldlt.rs:58-69 | the same for the update of one row i over columns j+1..i |
| LdltEngine.UpdateTrailing | src/ldlt.rs:57-70 | the same for the whole trailing update |
| LdltEngine.StepInPlace | src/ldlt.rs:39-71 | the in-place step returns the specification step's error or leaves its rows |
| LdltEngine.Factor | src/ldlt.rs:30-74 | for tol >= 0 and symmetric input, the in-place factorization returns exactly `FactorSpec(a, tol)` |
| LdltEngine.Column | src/ldlt.rs:157-163 | entry j of column i is factors[j][i], the entry of Lᵀ that the back pass reads |
| LdltEngine.SolveSpec | src/ldlt.rs:124-171 | a success has D entries; an error names a column below D |
| LdltEngine.SolveVec | src/ldlt.rs:124-171 | the three in-place passes return exactly `SolveSpec(l, b)` |
| LdltEngine.DiagInPlace | src/ldlt.rs:140-155 | the diagonal pass over the array either leaves in it the quotients or reports the first non-finite or too small diagonal entry or non-finite quotient, as `DiagFrom` says |
| LdltEngine.BackInPlace | src/ldlt.rs:157-168 | the back pass with Lᵀ over the array either leaves in it the result or reports the first non-finite row sum, as `BackFrom` says |
| LdltEngine.Det | src/ldlt.rs:92-98 | the loop returns the product of the diagonal, left to right (`DetSpec`) |
| LdltProofs.MultipliersShape | src/ldlt.rs:49-55 | the multiplier pass succeeds exactly when every f[i][j] / d is finite, and then writes just those cells |
| LdltProofs.UpdateRowShape | src/ldlt.rs:58-69 | the update of row i succeeds exactly when every new value is finite, and then writes only cells (i, k) with j < k <= i |
| LdltProofs.UpdateShape | src/ldlt.rs:57-70 | the trailing update succeeds exactly when every new lower-triangle value is finite, and then writes only them |
| LdltProofs.StepShape | src/ldlt.rs:39-71 | a step succeeds exactly when d is finite and above tol and every multiplier and update is finite; it writes only the lower triangle |
| LdltProofs.StepErrors | src/ldlt.rs:40-46 | a non-finite d gives NonFinite{j}; Singular{j} comes exactly when d is finite and d <= tol (signed test), so a negative pivot is Singular |
| LdltProofs.FactorShape | src/ldlt.rs:30-74 | on success the strict upper triangle equals the input's and every diagonal entry is finite and above tol |
| LdltProofs.DetPositive | src/ldlt.rs:76-98 | with tol >= 0 the determinant of a factorization is the product of D's diagonal, which is positive |
| LdltProofs.SolveNeverSingular | src/ldlt.rs:140-148 | for a factor-produced `Ldlt` the solve never reports Singular, only NonFinite |
| LdltProofs.StepKeepsInv | src/ldlt.rs:39-71 | each step keeps the invariant that the finished columns and the updated trailing block reconstruct the input's lower triangle |
| LdltProofs.LdltFactorizes | src/ldlt.rs:11-74 | on finite input with tol >= 0 every error is Singular; a success has L·D·Lᵀ equal to the input on and below the diagonal, and equal to all of it when the input is symmetric |
| LdltProofs.FiniteFactorErrors | src/ldlt.rs:39-71 | on finite input every step stays finite, so the errors are Singular only |
| LdltProofs.DiagSolves | src/ldlt.rs:140-155 | the diagonal pass succeeds when every pivot is above tol, and solves D·z = y |
| LdltProofs.TransSolves | src/ldlt.rs:157-168 | the back pass, reading factors[j][i] for j > i, succeeds on finite data and solves Lᵀ·x = z |
| LdltProofs.LdltSolves | src/ldlt.rs:124-171 | for a successful factorization of a finite symmetric A and finite b, the solve succeeds, is finite and satisfies A·x = b |
| LdltSpecial.DiagonalFactor | src/ldlt.rs:239-264 | a diagonal matrix whose entries are finite and above tol factors into itself; its determinant is the product of the diagonal |
| LdltSpecial.DiagonalSolve | src/ldlt.rs:266-280 | for such a matrix the solve is elementwise division b[i] / d[i] |
| LdltSpecial.IdentityFactorSolve | src/ldlt.rs:205-225 | for 0 <= tol < 1 the identity factors into itself, its determinant is 1 and the solve returns b |
| LdltExamples.Spd2Factor | src/ldlt.rs:292-294 | [[4,2],[2,3]] factors into d = 4, l = 0.5, d = 2 for every tol in [0, 2) |
| LdltExamples.Spd2Det | src/ldlt.rs:85-98 | that factorization has determinant 8 |
| LdltExamples.Spd2Solve | src/ldlt.rs:296-300 | solving it with b = [1,2] gives [-0.125, 0.75], for every tol in [0, 2) |
| LdltExamples.SingularDetected | src/ldlt.rs:323-328 | [[1,1],[1,1]] gives Singular{1} for every tol in [0, 1) |
| LdltExamples.NonFiniteDetected | src/ldlt.rs:331-335 | a NaN at (0,0) gives NonFinite{0} |
| LdltExamples.Tridiagonal3Factor | src/ldlt.rs:305-311 | the 3×3 tridiagonal (2, -1) matrix factors into the exact L and D for every tol in [0, 4/3) |
| LdltExamples.Tridiagonal3Solve | src/ldlt.rs:313-319 | solving it with b = [1,0,1] gives [1,1,1] |
| Vectors.New | src/vector.rs:13-15 | wraps the array; its meaning is carried by `NewRoundTrip` |
| Vectors.AsArray | src/vector.rs:26-28 | the borrowed array; `NewRoundTrip` shows it is the array `New` was given |
| Vectors.IntoArray | src/vector.rs:33-35 | the returned array; `NewRoundTrip` shows it undoes `New` |
| Vectors.NewRoundTrip | src/vector.rs:13-35 | `into_array(new(a)) == a` and `as_array(new(a)) == a` |
| Vectors.Zero | src/vector.rs:19-21 | every entry is 0 |
| Vectors.Default | src/vector.rs:56-60 | every entry is 0 |
| Vectors.Dot | src/vector.rs:40-46 | the loop returns the left-to-right multiply-add fold; on finite data it is the exact Σ aᵢbᵢ |
| Vectors.DotCommutative | src/vector.rs:40-46 | a·b = b·a |
| Vectors.DotWithZero | src/vector.rs:40-46 | the dot product with the zero vector is 0 on finite data and non-finite otherwise |
| Vectors.Norm2Sq | src/vector.rs:51-53 | `norm2_sq(a)` is `dot(a, a)` and is finite and >= 0 on finite data |
| Vectors.DotExample | src/vector.rs:73-75 | [1,2,3]·[-2,0.5,4] = 11 |
| InfNorms.InfNormNonNegative | src/matrix.rs:65-77 | the model's infinity norm is finite and >= 0 for any entries; the program agrees unless an entry is infinite, when it returns +inf |
| InfNorms.InfNormIsMaxRowSum | src/matrix.rs:65-77 | on finite data it bounds every absolute row sum and equals one of them (0 for no rows) |
| InfNorms.InfNormExample | src/matrix.rs:126-129 | [[1,-2],[3,4]] has norm 7 |
| Matrices.Matrix.Rows | src/matrix.rs:9-13 | the D×D cells read as rows |
| Matrices.Matrix.FromRows | src/matrix.rs:16-18 | the new matrix holds exactly the given rows |
| Matrices.Matrix.Zero | src/matrix.rs:22-26 | every cell is 0 |
| Matrices.Matrix.Identity | src/matrix.rs:30-36 | 1 on the diagonal, 0 elsewhere |
| Matrices.Matrix.Default | src/matrix.rs:99-104 | a fresh all-zero matrix |
| Matrices.Matrix.Get | src/matrix.rs:41-47 | `Some(rows[r][c])` exactly when r < D and c < D, `None` otherwise |
| Matrices.Matrix.Set | src/matrix.rs:53-60 | in bounds: writes only that cell, returns true, and a following `get` gives the value; out of bounds: returns false and changes nothing |
| Matrices.Matrix.InfNorm | src/matrix.rs:65-77 | the nested loops return the maximum absolute row sum (`InfNormSpec`), which in the model is finite and >= 0; the program returns +inf when an entry is infinite |
| Matrices.Matrix.Lu | src/matrix.rs:85-87 | returns the LU factorization of the current rows |
| Matrices.Matrix.Det | src/matrix.rs:94-96 | an LU error is returned unchanged; otherwise the LU determinant |
| Matrices.GetSetBoundsChecked | src/matrix.rs:116-123 | set(0,0,1) then get(0,0) gives Some(1); set(2,0,1) is refused and get(2,0) is None |
| Matrices.DetIdentityIsOne | src/matrix.rs:132-135 | the 3×3 identity has determinant 1 |
| CycleSign.ParitySign | benches/vs_linalg.rs:39-43 | the sign (-1)^(n - cycles) is +1 or -1 |
| CycleSign.MarkCycle | benches/vs_linalg.rs:29-35 | from a start that no earlier walk reached, the inner walk marks its cycle, so afterwards exactly the cycles of the starts 0..start are marked |
| CycleSign.FaerPermSign | benches/vs_linalg.rs:16-44 | for a permutation, the loop counts the disjoint cycles (at most n of them) and returns (-1)^(n - cycles), which is +1 or -1 |
| BenchInputs.MatrixEntry | benches/vs_linalg.rs:58-66 | every entry is positive; the diagonal is at least D + 1; off-diagonal entries are at most 0.1 |
| BenchInputs.EntrySymmetric | benches/vs_linalg.rs:58-66 | entry (r, c) equals entry (c, r) |
| BenchInputs.DiagonallyDominant | benches/vs_linalg.rs:56-57 | in every row the diagonal exceeds the sum of the other entries' absolute values |
| BenchInputs.MakeMatrixRows | benches/vs_linalg.rs:69-83 | every cell (r, c) holds `matrix_entry(r, c)` |
| BenchInputs.MatrixRowsSymmetric | benches/vs_linalg.rs:69-83 | the generated matrix is finite and symmetric |
| BenchInputs.VectorEntry | benches/vs_linalg.rs:87-89 | entry i is i + 1 + offset (non-finite when the offset is) |
| BenchInputs.MakeVectorArray | benches/vs_linalg.rs:92-102 | every entry i holds `vector_entry(i, offset)` |
| BenchInputs.NalgebraInfNorm | benches/vs_linalg.rs:105-124 | the loops return the maximum absolute row sum (`InfNormSpec`), which in the model is finite and >= 0; the program returns +inf when an entry is infinite |
| DimDirs.DimFromGroupDir | scripts/criterion_dim_plot.py:121-125 | a number exactly when the whole name is 'd' followed by one or more digits |
| DimDirs.DimNameRoundTrip | scripts/criterion_dim_plot.py:121-125 | "d" followed by the decimal text of n reads back as n |
| DimDirs.DimNameRejects | scripts/criterion_dim_plot.py:121-125 | a name not starting with 'd', too short, or with a non-digit after the 'd' gives None |
| DimDirs.DimNameExamples | scripts/tests/test_criterion_dim_plot.py:299-303 | the test's "d2" is 2, "d10" is 10, "dx" and "2" are None; added: "d007" is 7 and "d" is None |
| DimDirs.ListedDimsMembers | scripts/criterion_dim_plot.py:130-136 | a dimension is collected exactly when some directory entry names it; files and other names are dropped |
| DimDirs.SortedUnique | scripts/criterion_dim_plot.py:137 | two sorted sequences with the same elements are equal, so the result does not depend on the listing order |
| DimDirs.DiscoverDims | scripts/criterion_dim_plot.py:128-137 | the loop returns the collected dimensions, sorted and with the same elements |
| DimDirs.DiscoverDimsExample | scripts/tests/test_criterion_dim_plot.py:305-309 | the test's directories d10, not_a_dim and d2, plus an added plain file d5, give [2, 10] |
| ReadmeTables.ReadmeTableMarkers | scripts/criterion_dim_plot.py:187-189 | the two markers differ and are their own strip |
| ReadmeTables.MarkersExample | scripts/tests/test_criterion_dim_plot.py:59-62 | for lu_solve, median and new the markers are exactly "<!-- BENCH_TABLE:lu_solve:median:new:BEGIN -->" and "<!-- BENCH_TABLE:lu_solve:median:new:END -->" |
| ReadmeTables.MarkerIndices | scripts/criterion_dim_plot.py:195-196 | exactly the indices of the lines whose strip equals the marker, in increasing order |
| ReadmeTables.SingleMarker | scripts/criterion_dim_plot.py:198 | one index exactly when one line holds the marker |
| ReadmeTables.TableLines | scripts/criterion_dim_plot.py:207 | every table line ends with a newline |
| ReadmeTables.TableLinesText | scripts/criterion_dim_plot.py:207 | the table lines joined together are the table without its outer newlines, plus one newline |
| ReadmeTables.UpdateReadmeTable | scripts/criterion_dim_plot.py:195-216 | the marker search, its two errors and the splice; its meaning is carried by `UpdateFailsUnlessUnique`, `UpdateFailsOutOfOrder`, `UpdateSplices` and `UpdateIdempotent` |
| ReadmeTables.UpdateReadmeText | scripts/criterion_dim_plot.py:192-218 | the whole update from the README's text; its meaning is carried by `UpdateTextWritten` and `UpdateTextUnchanged` |
| ReadmeTables.UpdateFailsUnlessUnique | scripts/criterion_dim_plot.py:195-199 | the not-found-or-not-unique error comes exactly when a marker is missing or repeated |
| ReadmeTables.UpdateFailsOutOfOrder | scripts/criterion_dim_plot.py:201-205 | with both markers unique, the update fails exactly when begin's line is not before end's, and the error is the order error |
| ReadmeTables.UpdateSplices | scripts/criterion_dim_plot.py:207-218 | on success the new lines are the lines through begin, the table lines, then the lines from end; the changed flag is true exactly when the old body differs from the table |
| ReadmeTables.SpliceKeepsMarkers | scripts/criterion_dim_plot.py:208-212 | when no table line is a marker, each marker is still on exactly one line after the splice: begin where it was, end right after the table |
| ReadmeTables.UpdateIdempotent | scripts/criterion_dim_plot.py:214-218 | repeating a successful update with the same table gives the same lines and reports no change |
| ReadmeTables.TableLinesExample | scripts/tests/test_criterion_dim_plot.py:156-186 | the test table splits into its three rows, each with a newline |
| ReadmeTables.UpdateExample | scripts/tests/test_criterion_dim_plot.py:156-190 | the test README gets the old body replaced by the table, reports a change, and a second run reports none |
| ReadmeTables.UpdateErrorExamples | scripts/tests/test_criterion_dim_plot.py:193-233 | missing markers and a repeated begin give the not-found-or-not-unique error; end before begin gives the order error |
| PyStrings.StripWithShape | scripts/criterion_dim_plot.py:195-196 | `strip` returns a contiguous piece whose ends are kept characters, with only dropped characters around it |
| PyStrings.StripPadded | scripts/criterion_dim_plot.py:195-196 | stripping removes exactly the dropped padding around a piece with kept ends |
| PyStrings.SplitLines | scripts/criterion_dim_plot.py:193 | no resulting line contains a line break |
| PyStrings.SplitLinesKeepEnds | scripts/criterion_dim_plot.py:193 | every piece is non-empty; `KeepEndsConcat` and `KeepEndsLines` tie the pieces to the text and to `SplitLines` |
| PyStrings.KeepEndsConcat | scripts/criterion_dim_plot.py:193 | joining the lines of `splitlines(keepends=True)` gives the text back |
| PyStrings.KeepEndsLines | scripts/criterion_dim_plot.py:193 | the kept-end lines are the `splitlines()` lines one for one, each followed by nothing, one break character or "\r\n", and only the last one can lack a break |
| ReadmeTables.UpdateTextUnchanged | scripts/criterion_dim_plot.py:193-218 | when the update from the README's text reports no change, its lines join back into that text, so skipping the write loses nothing |
| ReadmeTables.UpdateTextWritten | scripts/criterion_dim_plot.py:193-218 | on success the written text is the old text through the begin marker's line, the table lines, and the old text from the end marker's line, and those old pieces with the old body make up the old text |
| PyStrings.SplitJoin | scripts/criterion_dim_plot.py:193 | for text with only '\n' breaks not ending in one, the lines joined with newlines give the text plus a newline |
| GnuplotQuoting.GpQuote | scripts/criterion_dim_plot.py:221-223 | the two replacements between single quotes; its meaning is carried by `GpQuoteRoundTrip`, `GpQuoteInjective` and `GpQuoteMisreadByGnuplot` |
| GnuplotQuoting.GpQuoteEscapesOnce | scripts/criterion_dim_plot.py:221-223 | because backslashes are replaced first, the two replacements escape each character once: the backslash added before a quote is not doubled |
| GnuplotQuoting.GpQuoteRoundTrip | scripts/criterion_dim_plot.py:221-223 | removing the quotes and undoing the escapes gives the input back |
| GnuplotQuoting.GpQuoteInjective | scripts/criterion_dim_plot.py:221-223 | two different strings never get the same quoted form |
| GnuplotQuoting.GpQuotePlain | scripts/tests/test_criterion_dim_plot.py:122-126 | a text without backslashes or quotes, such as "plain", is only put between single quotes |
| GnuplotQuoting.GpQuoteEscapes | scripts/tests/test_criterion_dim_plot.py:122-126 | for any characters a and b that are neither a backslash nor a quote, a'b becomes 'a\\'b' and a\\b becomes 'a\\\\b' |
| GnuplotQuoting.GpQuoteBackslashQuote | scripts/criterion_dim_plot.py:221-223 | for any such a and b, in a\\'b both the backslash and the quote are escaped, each once |
| GnuplotQuoting.GpQuoteMisreadByGnuplot | scripts/criterion_dim_plot.py:221-223 | for any such a and b, under gnuplot's own single-quote rules the quoted form of a'b is not one string, and that of a\\b reads back with the backslash doubled |
| GnuplotQuoting.GnuplotQuoteRoundTrip | scripts/criterion_dim_plot.py:222 | quoting by doubling single quotes reads back in gnuplot as exactly the input |
| OutputPaths.FormatRoundTrip | scripts/criterion_dim_plot.py:331-333 | parsing the printed form of a path gives the path back |
| OutputPaths.ResolveUnderRoot | scripts/criterion_dim_plot.py:331-333 | an absolute root gives an absolute result; well-formed components stay well formed |
| OutputPaths.ResolveUnderRootShape | scripts/criterion_dim_plot.py:331-333 | an absolute argument is taken as it is; a relative one keeps the root's rootedness, starts with the root's components and ends with its own |
| OutputPaths.ResolveIdempotent | scripts/criterion_dim_plot.py:331-333 | under an absolute root, resolving the printed result again changes nothing |
| OutputPaths.ResolveOutputPaths | scripts/criterion_dim_plot.py:336-345 | a given path is resolved under the root; with an absolute root both results are absolute |
| OutputPaths.DefaultOutputs | scripts/criterion_dim_plot.py:337-338 | with neither path given, both files are root/docs/assets/bench/vs_linalg_{metric}_{stat} with extensions .svg and .csv, and the two differ |
| OutputPaths.ResolveUnderRootExample | scripts/tests/test_criterion_dim_plot.py:400-403 | "foo/bar.csv" resolves to the root's components followed by foo and bar.csv |

## Left out

- IEEE-754 behaviour: rounding (of `mul_add` too), overflow to infinity, subnormals and signed
  zero. NaN and the infinities are one value, `NonFin`. A finite computation that would
  overflow in doubles stays finite here. The tests' 1e-12 and 1e-9 tolerances become exact
  equalities.
- The LU trailing update (src/lu.rs:71-73) has no finiteness check, and none is modelled. On
  finite input it stays finite in exact arithmetic. An infinity it could produce in doubles
  does not exist in the model.
- src/lib.rs declares no `ldlt` module and no `DEFAULT_SINGULAR_TOL`, and src/matrix.rs has
  no `ldlt` method, although the LDLᵀ tests call both. `Ldlt::factor` is modelled directly
  with a `tol >= 0` parameter. The LDLᵀ examples are stated for a range of tolerances
  instead of one constant.
- LdltEngine.Factor: `debug_assert_symmetric` (src/ldlt.rs:174-188) is a debug-only check
  against a float tolerance. It becomes the precondition of exact symmetry, and
  `debug_assert!(tol >= 0.0)` becomes `tol >= 0`.
- The LU determinant is modelled by its product formula only. That it equals the
  determinant of A is not proved. The 5×5 J−I example (examples/det_5x5.rs) is not modelled.
- CycleSign.FaerPermSign: the result is tied to the cycle count, (-1)^(n - cycles). It is not
  proved equal to the inversion-parity sign that `piv_sign` is proved to track, because its
  only caller, `faer_det_from_partial_piv_lu`, is left out: the benchmark uses the sign only
  to compare against faer's own determinant, and no modelled operation needs the two signs
  to agree.
- InfNorms.InfNormIsMaxRowSum: stated for finite entries only. With a non-finite entry the
  model's comparison is false, as it is for NaN. Doubles would carry +inf through the `>`
  test, which the model does not distinguish.
- InfNorms.InfNormNonNegative: the norm is finite only in the model, whose `Gt` treats
  every non-finite value like NaN. In doubles an infinite entry gives a +inf row sum, which
  compares greater, so `inf_norm` returns +inf (src/matrix.rs:72-73). Only a NaN row sum is
  skipped.
- Matrices.Matrix.InfNorm: finite in the model only; an infinite entry makes the program
  return +inf, as under InfNorms.InfNormNonNegative.
- BenchInputs.NalgebraInfNorm: finite in the model only; an infinite entry makes the
  benchmark return +inf (benches/vs_linalg.rs:117-118), as under InfNorms.InfNormNonNegative.
- `faer_det_from_partial_piv_lu`, the Criterion harness, `black_box`, and every call into
  nalgebra and faer. benches/vs_nalgebra.rs is also left out.
- The property tests under tests/ are not modelled as random tests. Their properties appear
  as the all-input lemmas above.
- Python I/O and process plumbing:
  - argparse, reading and writing files, JSON and CSV;
  - the gnuplot subprocess, printing and `main`;
  - `_read_estimate`, `_collect_rows`, `_maybe_update_readme`, `_maybe_render_plot` and
    `_render_svg_with_gnuplot`;
  - `_markdown_table` and `_pct_reduction`, for their float formatting.
- `_update_readme_table` is modelled on the README's text, given as a parameter
  (ReadmeTables.UpdateReadmeText). The text is split with its line ends kept
  (PyStrings.SplitLinesKeepEnds) and spliced. The function returns the new lines, and the
  text to write is their join (PyStrings.Concat). Reading and writing the file is left out.
- `_discover_dims` takes the directory listing as a list of entries with their names and
  `is_dir` flags. The listing order, symlinks and a missing directory are left out.
- DimDirs.DimFromGroupDir: the model's digits are the ASCII digits 0-9. Python's `\d`
  also accepts other Unicode decimal digits.
- PyStrings.IsSpace and PyStrings.IsLineBreak list the whitespace and line-break
  characters of Python's `str`. There is no further Unicode database.
- ReadmeTables.UpdateIdempotent requires that no line of the new table is itself a marker
  line. A table containing a marker would make the second run fail.
- OutputPaths.ParsePath: POSIX pure paths only. The special leading "//" root, Windows drive
  letters and symlink resolution are left out. ".." is kept as a component, as `pathlib`
  does.
- A default output example with literal metric names is not written out.
  OutputPaths.DefaultOutputs states the same thing for every metric and statistic without
  a slash.

## Findings

| source | as written | input that shows it | evidently intended | confidence | as-written member | corrected member |
|---|---|---|---|---|---|---|
| scripts/criterion_dim_plot.py:221-223 | escapes a single quote as \\' and doubles backslashes inside a gnuplot single-quoted string | a'b (also a\\b) | a string that gnuplot reads back unchanged; in gnuplot a quote inside single quotes is written '' and a backslash is an ordinary character | not executed; medium | GnuplotQuoting.GpQuoteMisreadByGnuplot | GnuplotQuoting.GnuplotQuoteRoundTrip |
