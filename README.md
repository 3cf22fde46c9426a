# MPI demo kernels: Gaussian elimination, block matrix multiply, scatter sum

This project models the sequential logic inside three MPI demo programs and
proves properties of it:

- `solve_gaussian_elimination` (mpi5.py) is a row-cyclic Gaussian elimination
  solver. Row `i` belongs to rank `i % size`. In forward step `i`, the owner of
  row `i` computes `pivot_row = A[i] / A[i, i]` and `pivot_val = b[i] / A[i, i]`
  and broadcasts both. Every rank then eliminates column `i` from the rows
  below `i` that it owns. Back substitution runs from `n-1` down to `0`: the
  owner computes `x[i]`, broadcasts it, and every rank updates `b[j]` for the
  rows `j < i` that it owns.
- `matrix_multiply` (mpi4.py) splits the rows of `A` into `size` contiguous
  blocks, the first `A_rows % size` of them one row longer. Each rank
  multiplies its block by `B`. The root gathers the blocks into `C`, at offsets
  it recomputes with a second formula.
- The parallel sum in `main` of mpi2.py splits `arange(n)` into `counts` and
  `displacements`. `Scatterv` hands each rank its chunk, each rank sums its
  chunk, and `reduce` adds the partial sums.

Message passing is simulated sequentially:

- A broadcast is the owner's value handed to every simulated rank.
- The per-rank work of one step is a loop over `rank := 0 to size`.
- Gaussian elimination keeps one copy of `A` and `b`. Row `j` holds the replica
  of rank `j % size`, the only rank that ever writes it.
- The gather is the root writing each rank's block, computed before the gather
  starts.

Modules:

| file | module | flavour |
|---|---|---|
| row_ownership.dfy | `RowOwnership` | ownership map `i % size` |
| linear_algebra.dfy | `LinearAlgebra` | vectors, matrices, dot product and its algebra over `real` |
| gaussian_spec.dfy | `GaussianSpec` | the solver stated on values, its properties, and the finding below |
| gaussian_solver.dfy | `GaussianSolver` | the solver in place on `array2<real>` / `array<real>`, proved against `GaussianSpec` |
| block_partition.dfy | `BlockPartition` | the block partition arithmetic of mpi4.py (pure) |
| matrix_multiply.dfy | `MatrixMultiply` | shape checks and the root's gather into `C` (in place) |
| scatter_sum.dfy | `ScatterSum` | counts, displacements, chunks, partial sums and reduce (pure) |

## Model

| member | source | states |
|---|---|---|
| RowOwnership.Owner | mpi5.py:14 | the owner `i % size` of row `i` is a rank in `[0, size)` |
| RowOwnership.IsOwner | mpi5.py:14 | the test `i % size == rank` a rank applies to row `i` holds exactly when `rank` is the owner of row `i`, and only for a rank in `[0, size)` |
| RowOwnership.OwnershipIsTotal | mpi5.py:14 | every row has exactly one owner, `i % size`, and it lies in `[0, size)` |
| GaussianSpec.PivotRow | mpi5.py:15 | the broadcast pivot row has length `n` and a 1 at position `i` |
| GaussianSpec.PivotVal | mpi5.py:16 | the broadcast `pivot_val = b[i] / A[i, i]` satisfies `pivot_val * A[i, i] == b[i]` |
| GaussianSpec.EliminatedRow | mpi5.py:23 | `A[j] -= pivot_row * A[j, i]` keeps the row length |
| GaussianSpec.EliminatedRhs | mpi5.py:24 | `b[j] -= pivot_val * A[j, i]`, reading `A[j, i]` after line 23 has updated row `j`; since `pivot_row[i] == 1`, that entry is zero and `b[j]` keeps its value |
| GaussianSpec.EliminateBelow | mpi5.py:21-23 | forward step `i` on `A` keeps `A` `n x n` |
| GaussianSpec.ForwardStep | mpi5.py:12-35 | one forward step, as written, keeps the system `n x n` |
| GaussianSpec.Forward | mpi5.py:12-35 | steps `0 .. k-1` keep the system `n x n` |
| GaussianSpec.BackStep | mpi5.py:39-46 | one back-substitution step keeps the lengths of `b` and `x` |
| GaussianSpec.BackFrom | mpi5.py:38-47 | back substitution from `x` all zero keeps the lengths of `b` and `x` |
| GaussianSpec.FinalState | mpi5.py:6-48 | `b` and `x` at return have length `n` |
| GaussianSpec.Solution | mpi5.py:6-48 | the returned `x` has length `n` |
| GaussianSpec.ForwardStepAt | mpi5.py:21-24 | step `i` rewrites row `j` and `b[j]` exactly when `j > i` and leaves rows `j <= i` as they were |
| GaussianSpec.ForwardStepZeroesColumn | mpi5.py:15-23 | after step `i`, `A[j, i] == 0` for every `j > i`, and rows `j <= i` are unchanged |
| GaussianSpec.ForwardStepKeepsRhs | mpi5.py:23-24 | a forward step leaves `b` unchanged, because `b[j]` reads the already zeroed `A[j, i]` |
| GaussianSpec.ForwardKeepsRhs | mpi5.py:12-35 | the whole forward loop leaves `b` unchanged |
| GaussianSpec.ForwardRowsSettled | mpi5.py:12-35 | after steps `0 .. k-1`, the later steps never change rows `0 .. k` |
| GaussianSpec.StepExtendsZeros | mpi5.py:21-24 | step `i` keeps the zeros below the diagonal in columns `< i` and adds column `i` |
| GaussianSpec.ForwardZeroesBelow | mpi5.py:12-35 | after steps `0 .. k-1`, columns `0 .. k-1` are zero below the diagonal |
| GaussianSpec.ForwardDiagonalNonzero | mpi5.py:12-35 | with nonzero pivots, `A` is upper triangular after the forward loop, and its diagonal entry `i` is nonzero and equal to the pivot `Forward(s, i).A[i][i]` that step `i` divided by |
| GaussianSpec.PivotNonzeroAt | mpi5.py:15 | the final diagonal entry `i` equals the pivot `Forward(s, i).A[i][i]` that step `i` divided by, which is nonzero |
| GaussianSpec.ForwardNext | mpi5.py:12-18 | step `i`'s pivot is nonzero, and the step takes the system after `i` steps to the system after `i + 1` |
| GaussianSpec.PivotsNonzeroPrefix | mpi5.py:12-16 | nonzero pivots for the first `m` steps imply nonzero pivots for any fewer steps |
| GaussianSpec.UpperTriangularStepIsFixed | mpi5.py:21-24 | a forward step leaves an upper-triangular system with nonzero diagonal unchanged |
| GaussianSpec.UpperTriangularIsFixed | mpi5.py:12-35 | an upper-triangular system with nonzero diagonal passes the forward loop unchanged, and every pivot is nonzero |
| GaussianSpec.BackStepKeepsSubstituted | mpi5.py:39-46 | one back step keeps the invariant: `x[k] == 0` below `i`, `b[j]` below `i` already has the known terms of `x` moved over, rows from `i` on are solved |
| GaussianSpec.BackFromInvariant | mpi5.py:38-47 | the invariant above holds after steps `n-1` down to `i` |
| GaussianSpec.BackSubstitutionExact | mpi5.py:38-48 | for upper-triangular `A` with nonzero diagonal, back substitution returns `x` with `A x = b` |
| GaussianSpec.SolutionExactForUpperTriangular | mpi5.py:6-48 | the solver returns an exact solution for every upper-triangular `A` with nonzero diagonal |
| GaussianSpec.DiagonalSolution | mpi5.py:6-48 | for a diagonal `A` with nonzero diagonal, `x[i] == b[i] / A[i, i]`; for the identity, `x == b` |
| GaussianSpec.DiagonalRowSolved | mpi5.py:41 | in a solved system, a row whose only nonzero entry is on the diagonal fixes `x[i] == b[i] / A[i, i]` |
| GaussianSpec.SolutionSolvesEliminatedMatrix | mpi5.py:6-48 | for every system with nonzero pivots, `x` solves the eliminated upper-triangular matrix against the original `b` |
| GaussianSpec.AsWrittenSolutionCounterexample | mpi5.py:23-24 | for `A = [[1,0],[1,1]]` and `b = [1,1]`, all pivots are nonzero, the solver returns `[1,1]`, and `A x != b` |
| GaussianSpec.CorrectedStep | mpi5.py:21-24 | the corrected forward step keeps the system `n x n` |
| GaussianSpec.CorrectedForward | mpi5.py:12-35 | with the corrected `b` update, `A` evolves exactly as in the source |
| GaussianSpec.CorrectedSolution | mpi5.py:6-48 | the corrected solver returns a vector of length `n` |
| GaussianSpec.CorrectedStepAt | mpi5.py:23-24 | the corrected step reads `A[j, i]` before row `j` changes, for both `A[j]` and `b[j]` |
| GaussianSpec.CorrectedRowResidual | mpi5.py:23-24 | if `x` satisfies row `i`, a corrected step keeps the residual of every row below `i` |
| GaussianSpec.CorrectedStepKeepsSolutions | mpi5.py:21-24 | a corrected step has exactly the same solutions as the system before it (both directions) |
| GaussianSpec.CorrectedForwardKeepsSolutions | mpi5.py:12-35 | corrected steps `0 .. k-1` keep exactly the same solutions (both directions) |
| GaussianSpec.CorrectedSolutionExact | mpi5.py:6-48 | with the corrected order, `A x = b` holds exactly for every system whose pivots are nonzero |
| GaussianSolver.NormalizePivotRow | mpi5.py:14-16 | the owner computes `pivot_row == A[i] / A[i, i]` and `pivot_val == b[i] / A[i, i]` |
| GaussianSolver.SubtractScaledRow | mpi5.py:23 | `A[j] -= pivot_row * f` changes row `j` exactly so, and no other row |
| GaussianSolver.EliminateRow | mpi5.py:23-24 | row `j` and `b[j]` get the two updates in source order, with `b[j]` reading the new `A[j, i]`; nothing else changes |
| GaussianSolver.EliminateOwnedRows | mpi5.py:21-24 | one rank changes exactly the rows `j > i` with `j % size == rank`; rows `<= i` and other ranks' rows are untouched |
| GaussianSolver.ForwardStepAllRanks | mpi5.py:12-35 | after every rank has done step `i`, `A` and `b` are `ForwardStep` of the old system |
| GaussianSolver.ForwardElimination | mpi5.py:12-35 | after the forward loop, `A` and `b` are `Forward` of the old system, which had nonzero pivots |
| GaussianSolver.SubstituteOwnedRows | mpi5.py:44-46 | one rank changes exactly `b[j]` for `j < i` with `j % size == rank`; `A` is only read |
| GaussianSolver.BackStepAllRanks | mpi5.py:40-46 | back step `i` sets `x[i] = b[i] / A[i, i]` and updates `b` as `BackStep` does |
| GaussianSolver.BackSubstitution | mpi5.py:38-47 | `x` starts all zero, and `x` and `b` end as `BackFrom(A, b, 0)`; `x[k] == 0` for `k < i` when step `i` starts |
| GaussianSolver.Solve | mpi5.py:6-48 | returns `Solution` of the input system, whatever the group size, and leaves `A` eliminated and `b` as back substitution leaves it |
| BlockPartition.RankBlock | mpi4.py:20-27 | the block `start_row .. end_row` a rank computes for itself has `rows_per_process` rows, plus one exactly when `rank < extra_rows` |
| BlockPartition.RankBlockShape | mpi4.py:20-27 | rank `r`'s block starts at `r * rows_per_process + min(r, extra_rows)` and has `rows_per_process` rows, plus one exactly when `r < extra_rows` |
| BlockPartition.GatherBlock | mpi4.py:39-43 | the block the root computes for rank `i` from `proc_start_row` and `proc_rows` is exactly the block rank `i` computed for itself (`start_row`, `end_row - start_row`) |
| BlockPartition.GatherStep | mpi4.py:38-44 | the block the root writes for rank `i` is rank `i`'s block, lies within `A`, and ends where block `i + 1` starts |
| BlockPartition.BlockSizesBalanced | mpi4.py:20-27 | any two blocks differ in size by at most one row |
| BlockPartition.BlocksAreContiguous | mpi4.py:22-27 | block 0 starts at row 0, and each block ends where the next one starts |
| BlockPartition.LastBlockEndsAtRows | mpi4.py:20-27 | the block of rank `size - 1` ends at `A_rows` |
| BlockPartition.BlockEndsMonotone | mpi4.py:22-27 | a lower rank's block ends no later than a higher rank's block starts |
| BlockPartition.BlockWithinRows | mpi4.py:22-27 | `0 <= start_row <= end_row <= A_rows` for every rank |
| BlockPartition.OwningRank | mpi4.py:22-27 | for every row of `A`, some rank's block contains it |
| BlockPartition.EachRowInExactlyOneBlock | mpi4.py:22-27 | every row of `A` lies in exactly one rank's block |
| MatrixMultiply.ProductWithUnitColumn | mpi4.py:33 | for `ProductEntry`, the exact dot product of row `i` of `A` with column `j` of `B` that stands in for `np.matmul`: when column `j` of `B` is the `j`-th unit vector (as in the identity), entry `(i, j)` of `A·B` is `A[i, j]` |
| MatrixMultiply.LocalProduct | mpi4.py:30-33 | `np.matmul(A[start:end, :], B)` has `end - start` rows of `B_cols` entries |
| MatrixMultiply.RankProduct | mpi4.py:20-33 | `local_C` of a rank has its block's shape, and entry `(k, j)` is entry `(start_row + k, j)` of `A·B` |
| MatrixMultiply.LocalProductsAreBlocksOfProduct | mpi4.py:30-33 | each rank's `local_C` is exactly its block of rows of `A·B` |
| MatrixMultiply.WriteRows | mpi4.py:37 | `C[start:start+rows, :] = block` changes exactly those rows of `C` |
| MatrixMultiply.ReceiveBlock | mpi4.py:44 | writing a rank's block puts the rows of `A·B` at that block's offsets, and only there |
| MatrixMultiply.GatherAtRoot | mpi4.py:36-44 | after the root's own block and the blocks of ranks `1 .. size-1`, every row of `C` holds `A·B` |
| MatrixMultiply.MatrixMultiplyAtRoot | mpi4.py:6-46 | fails with `WrongSizes` unless `A_cols == B_rows`, then with `ResultWrongSize` unless `C` is `A_rows x B_cols`, leaving `C` untouched; otherwise `C == A·B` over exact arithmetic |
| ScatterSum.SumAppend | mpi2.py:36-38 | for `Sum`, Python `sum` / `np.sum` as a left fold over the list: the sum of a concatenation is the sum of the sums |
| ScatterSum.SumOfPrefix | mpi2.py:20 | `sum(counts[:i])` equals the prefix sum of the first `i` counts |
| ScatterSum.Counts | mpi2.py:19 | `counts` has one entry per rank |
| ScatterSum.Displacements | mpi2.py:20 | `displacements` has one entry per count |
| ScatterSum.CountIsBlockLength | mpi2.py:19 | count `i` is the length of block `i` of the mpi4.py row partition |
| ScatterSum.CountsPrefixSum | mpi2.py:19-20 | the first `k` counts add up to the start of block `k` of that partition |
| ScatterSum.CountsSplitEvenly | mpi2.py:19 | `counts` has length `size`; `counts[i]` is `n // size` plus 1 exactly when `i < n % size`; counts never increase and differ by at most one; they sum to `n` |
| ScatterSum.SameSplitAsBlockPartition | mpi2.py:19-20 | displacement `i` and count `i` are the start and length of block `i` of the mpi4.py partition |
| ScatterSum.DisplacementsAreOffsets | mpi2.py:20 | `displacements[0] == 0`, `displacements[i+1] == displacements[i] + counts[i]`, `displacements[i] == i * (n // size) + min(i, n % size)`, and `displacements[i] + counts[i] <= n` |
| ScatterSum.ChunkBetweenPrefixSums | mpi2.py:20 | chunk `r` runs from the sum of the counts before `r` to the sum of the counts up to `r` |
| ScatterSum.ChunkWithinData | mpi2.py:19-20 | every chunk lies within the data |
| ScatterSum.PrefixWithinTotal | mpi2.py:19 | no prefix of `counts` adds up to more than `n` |
| ScatterSum.Chunk | mpi2.py:31-34 | rank `r` receives `counts[r]` elements |
| ScatterSum.ChunkIsSlice | mpi2.py:31-34 | rank `r`'s chunk is `data[displacements[r] : displacements[r] + counts[r]]` |
| ScatterSum.ChunksArePrefix | mpi2.py:19-34 | the chunks of ranks `0 .. k-1`, laid end to end, are the first elements of the data, up to the sum of the first `k` counts |
| ScatterSum.ChunksCoverData | mpi2.py:19-34 | the chunks are disjoint and contiguous, and together they are exactly the data |
| ScatterSum.LocalSums | mpi2.py:36 | there is one `local_sum` per rank |
| ScatterSum.PartialSumsAddUp | mpi2.py:36-38 | the partial sums of ranks `0 .. k-1` add up to the sum of their chunks |
| ScatterSum.TotalSum | mpi2.py:31-38 | the reduced `total_sum` (the sum of the local sums) equals the sum of all the data, for every group size |
| ScatterSum.Arange | mpi2.py:18 | `arange(n)` has `n` elements |
| ScatterSum.SumArange | mpi2.py:18 | `2 * sum(arange(n)) == n * (n - 1)` |
| ScatterSum.ParallelSumOfArange | mpi2.py:18-38 | the total the root prints for `n` elements is `n * (n - 1) / 2` |

## Left out

- Message passing is not modelled. `Bcast`, `bcast`, `Scatterv`, `reduce`, `send`, `recv`, `Barrier` and the communicator are replaced by the sequential simulation described above. Deadlock, ordering between ranks and transport failures are outside the model.
- Gaussian elimination keeps one merged copy of `A` and `b`: row `j` is the replica held by its owner. The stale copies of non-owned rows on other ranks are not modelled. Every read a rank makes is of a row it owns, or of the broadcast `pivot_row`, `pivot_val` and `x[i]`, so no stale copy is ever read.
- Floating point is not modelled. All arithmetic is exact over `real`, so rounding is left out.
- GaussianSolver.Solve: requires every pivot to be nonzero when it is used. With a zero pivot, the source divides by zero and spreads inf/NaN through `x`; the model does not represent non-finite values.
- GaussianSolver.Solve: requires `A` to be `n x n` with `n = len(b)`. The source checks no shapes and raises no dimension-mismatch error, so the model has no error path for one either.
- MatrixMultiply.MatrixMultiplyAtRoot: models the root only, which is rank 0. The `root` parameter is only the destination of `send`, while the receiving side is hard-coded to rank 0, so the model takes `root = 0`. On the other ranks, `matrix_multiply` only sends `local_C` and leaves their `C` untouched.
- MatrixMultiply.MatrixMultiplyAtRoot: assumes that every rank calls `matrix_multiply` with the same `A` and `B` as the root, so that block `i` of `C` is block `i` of the root's `A·B`. The source never sends `A` or `B` to the other ranks. Each rank multiplies its own arrays, and `main` in mpi4.py draws `A` and `B` separately on every rank with an unseeded `np.random.rand`, so the program as written does not arrange this. With different inputs per rank, block `i` of `C` is block `i` of rank `i`'s own product, which the model does not state.
- `np.matmul` is specified by `ProductEntry`: the dot product of a row of `A` with a column of `B`, over exact reals. `local_A` is not built as a separate matrix: `LocalProduct` reads rows `start_row .. end_row-1` of `A` directly.
- In numpy, a slice assignment whose shapes do not broadcast raises `ValueError`. `WriteRows` instead requires the shapes to agree exactly. `GatherBlock` proves that they always do.
- Integer overflow in mpi2.py (`int64` data, `np.sum`) is not modelled; integers are unbounded.
- In mpi2.py, the model takes each chunk directly from the root's data. The non-root `None` placeholders and the `np.zeros` receive buffer are left out.
- The `main` functions are not modelled. They cover random input, problem-size sweeps, `time.time()` timing and `print`.

## Findings

| source | as written | input that shows it | evidently intended | confidence | as-written member | corrected member |
|---|---|---|---|---|---|---|
| mpi5.py:23-24 | `b[j] -= pivot_val * A[j, i]` runs after `A[j] -= pivot_row * A[j, i]` has set `A[j, i]` to 0, so `b` never changes during forward elimination (the same holds at mpi5.py:34-35) | `A = [[1,0],[1,1]]`, `b = [1,1]`: both pivots are 1, the solver returns `x = [1,1]`, and `A x = [1,2] != b` | read `A[j, i]` before updating row `j`, i.e. `b[j] -= pivot_val * A_old[j, i]`; then `A x = b` for every system with nonzero pivots | high (proved; not executed) | GaussianSpec.AsWrittenSolutionCounterexample | GaussianSpec.CorrectedSolutionExact |

The imperative solver (`GaussianSolver`) keeps the statement order as written,
because that is what the program does. Its result is `GaussianSpec.Solution`, and
`GaussianSpec.SolutionSolvesEliminatedMatrix` states what that result satisfies.
The corrected order is stated on values by `GaussianSpec.CorrectedStep` and
proved exact by `GaussianSpec.CorrectedSolutionExact`.
