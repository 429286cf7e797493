# Distributed matrix multiplication: the sequential core

`lab_6.java` is a Java MPI program. It multiplies two integer matrices in
three ways:

- a single-process triple loop (the "ribbon" scheme);
- two ring engines that the program calls Fox and Cannon.

Each engine stage on every rank does four things:

1. combines its A block and B block into a local result block;
2. shifts the A block in place;
3. shifts the B block in place;
4. exchanges both blocks with its ring neighbours.

Before that, `distributeMatrix` splits a matrix into row blocks, one per rank.
The split comes with element counts and displacements for a scatter.

This project models those pieces in Dafny and proves what they compute. The
program's `int[][]` matrices are `array2<Int32>`, where `Int32` is Java's
32-bit `int`. Every `+` and `*` on matrix elements wraps exactly as Java's
does (`JavaInt.Wrap`, `JavaInt.MulAdd`). What an array holds is read as a
`Grid` (a sequence of rows) through `Matrices.Contents`. Every top-level
in-place method (`InitializeMatrix`, `Multiply`, `Distribute`, `Combine`,
`ShiftRowsUp`, `ShiftColumnsLeft`, `RunEngine`) is proved equal to a function
on grids; the helper loops are stated element by element. The properties are
proved about those functions.

Modules, in dependency order:

- `JavaInt`: the 32-bit wrap of Java `int` arithmetic.
- `Matrices`: grids, array contents, inner products, zero blocks, transposes,
  array copies.
- `Sequential`: `initializeMatrix` and `sequentialAlgorithm` (the reference
  multiplication), plus the result on the program's own 4 by 4 inputs.
- `Distribution`: per-rank row counts, send counts, displacements, the row
  blocks and the scatter's effect on one rank.
- `LocalCombine`: the combine loop `localResult[i][j] += A[i][k] * B[j][k]`.
- `Shifts`: the "rows up" and "columns left" shifts, exactly as written,
  compared with true rotations.
- `Ring`: successor and predecessor ranks, tours of the ring, and the
  exchange of every rank's block with its neighbours.
- `Engine`: one stage of either engine on all ranks, as values. It includes
  the closed form of the state after `s` stages.
- `RankBlocks`, `RingStage`, `RingEngine`: the engines run in place on the
  arrays of every rank. They are proved to end in that closed form.

## Behaviour of the code worth knowing

- Neither block shift is a rotation. The comments at lines 135, 142, 187 and
  194 call them a shift of the block up by one row and a shift left by one
  column. The loops do this:
  - "rows up" (lines 136-140) moves rows `1 .. n-1` up by one. The last row
    keeps its own elements, except `[n-1][0]`, which takes the old `[0][0]`.
  - "columns left" (lines 143-147) moves the elements of rows `0 .. n-2` left
    by one, and each of those rows keeps its old last element at the end.
    Row `n-1` is not touched. `[0][n-1]` takes the old `[0][0]`.

  `Shifts.RowsUpVersusRotation`, `Shifts.ColumnsLeftVersusRotation` and
  `Shifts.ShiftsAreNotRotations` compare them with true rotations.
- The combine at lines 130 and 182 reads B by row: `B[j][k]`, not `B[k][j]`.
  One combine into a zero block is therefore A times the transpose of B
  (`LocalCombine.CombineIsProductWithTranspose`), not A times B
  (`LocalCombine.CombineIsNotProduct`). Result columns from `blockSize` on
  are never written.
- `distributeMatrix` never checks `size > rows`. Ranks from `rows % size` on
  get blocks of `rows / size` rows, which may be zero (lines 78-88).
  `Distribution.Distribute` allows this case.
- The code never checks that the operands' shapes fit. An out-of-range index
  throws in Java, and the model turns each such throw into a precondition.

## Model

| member | source | states |
|---|---|---|
| `JavaInt.Wrap` | lab_6.java:67 | the value an `int` holds after a computation is in the 32-bit range, and equals the exact value when that is in range |
| `JavaInt.MulAdd` | lab_6.java:67 | Java's `acc += x * y` on ints leaves the exact `acc + x * y` wrapped once to 32 bits (also lines 130 and 182) |
| `JavaInt.WrapAdd` | lab_6.java:67 | wrapping after every `+` and `*` gives the same `int` as wrapping the exact sum once, so Java accumulation is the wrapped exact sum |
| `Matrices.Zeros` | lab_6.java:63 | a fresh `new int[rows][cols]` has the given shape and every element is zero |
| `Matrices.RowDotSymmetric` | lab_6.java:66-68 | the inner product `sum over k of x[k] * y[k]` computed by the `k` loops (also lines 129-131 and 181-183) does not depend on the order of its two operands |
| `Matrices.WrappedDotStep` | lab_6.java:66-68 | one more `acc += x[k] * y[k]` in Java ints turns the wrapped partial inner product over `k` terms into the one over `k + 1` terms |
| `Matrices.Copy` | lab_6.java:150 | after the copy the destination holds exactly the source's contents (the buffer of a send-and-replace) |
| `Sequential.InitialGrid` | lab_6.java:52-59 | the test data has the array's shape |
| `Sequential.InitializeMatrix` | lab_6.java:52-59 | every element `(i, j)` of the array ends holding `i + j` (as a Java int) |
| `Sequential.Product` | lab_6.java:61-72 | the reference value of the multiplication: a `rows` by `cols` matrix whose element `(i, j)` is the Java-int inner product of row `i` of A with column `j` of B over the first `inner` terms |
| `Sequential.AccumulateEntry` | lab_6.java:66-68 | the innermost loop leaves in `result[i][j]` its old value plus the inner product of row `i` of A and column `j` of B, wrapped as Java ints, and changes no other element |
| `Sequential.Multiply` | lab_6.java:61-72 | returns a fresh `A.length` by `B[0].length` matrix whose every element `(i, j)` is the Java-int sum of `A[i][k] * B[k][j]` over `k < A[0].length`; A and B are not modified |
| `Sequential.ScenarioEntry` | lab_6.java:61-72 | element `(i, j)` of the square of the 4 by 4 test matrix is `4ij + 6(i + j) + 14` |
| `Sequential.ScenarioRow` | lab_6.java:61-72 | each row of the square of the 4 by 4 test matrix, written out |
| `Sequential.FourByFourScenario` | lab_6.java:12-22 | the program's own inputs (4 by 4, `m[i][j] = i + j`) give the product `[[14,20,26,32],[20,30,40,50],[26,40,54,68],[32,50,68,86]]` |
| `Distribution.RowCount` | lab_6.java:78-88 | a rank gets `rows / size` rows or one more, and one more exactly when its rank is below `rows % size` |
| `Distribution.FirstRow` | lab_6.java:95-98 | rank `i`'s block, which starts where the blocks of ranks `0 .. i-1` laid end to end stop, starts at row `i * rowsPerProcess + min(i, extraRows)`, the displacement expression in rows |
| `Distribution.FirstRowMonotone` | lab_6.java:95 | a later rank's block never starts before an earlier rank's |
| `Distribution.AllRowsDistributed` | lab_6.java:78-79 | the blocks of all ranks together hold exactly `rows` rows |
| `Distribution.DisplacementsChain` | lab_6.java:93-96 | `displacements[0] == 0` and `displacements[i + 1] == displacements[i] + sendcounts[i]` |
| `Distribution.SendCounts` | lab_6.java:94 | the send counts of the first `n` ranks form a sequence of length `n` |
| `Distribution.SendCountsPrefixSum` | lab_6.java:93-96 | the send counts of the first `n` ranks add up to `displacements[n]` |
| `Distribution.SendCountsSum` | lab_6.java:94 | the send counts of all ranks add up to `rows * cols`, every element of the matrix |
| `Distribution.DisplacementMonotone` | lab_6.java:95 | displacements never decrease with the rank |
| `Distribution.SentToSomeRank` | lab_6.java:93-96 | every element offset below `displacements[n]` is sent to one of the first `n` ranks |
| `Distribution.ElementRangesTile` | lab_6.java:93-96 | an element offset is sent to some rank if and only if it lies in `[0, rows * cols)`, and then to exactly one rank: the ranges tile the matrix with no gap or overlap |
| `Distribution.SendCount` | lab_6.java:94 | the row-block count times `cols` equals the program's `sendcounts[i]`: `(rowsPerProcess + 1) * cols` for the first `rows % size` ranks, `rowsPerProcess * cols` for the rest |
| `Distribution.Displacement` | lab_6.java:95 | the element offset of rank `i`'s block in row-major layout equals the program's `displacements[i] = i * rowsPerProcess * cols + min(i, extraRows) * cols` |
| `Distribution.LocalRowsFromCount` | lab_6.java:83-94 | the block allocated for a rank has exactly `sendcounts[rank] / cols` rows |
| `Distribution.ComputeCounts` | lab_6.java:90-96 | the loop fills `sendcounts` and `displacements` with each rank's element count and element offset |
| `Distribution.Block` | lab_6.java:83-88 | a rank's block has `rows / size` rows, plus one for the first `rows % size` ranks |
| `Distribution.BlockRow` | lab_6.java:98 | row `i` of a rank's block is row `FirstRow(rank) + i` of the matrix, which exists |
| `Distribution.BlockFits` | lab_6.java:83-98 | a rank's rows lie inside the matrix |
| `Distribution.StackedPrefix` | lab_6.java:93-98 | the blocks of the first `n` ranks, stacked in rank order, are the first rows of the matrix up to rank `n`'s first row |
| `Distribution.Stacked` | lab_6.java:93-98 | the blocks of ranks `0 .. n-1` concatenated in rank order hold as many rows as precede rank `n`'s block |
| `Distribution.BlocksReassemble` | lab_6.java:93-98 | stacking the blocks of all ranks in rank order gives back the matrix: no row is dropped or duplicated |
| `Distribution.ScatterBlock` | lab_6.java:98 | with counts and displacement in whole rows, the scatter fills the local block with rows `firstRow ..` of the matrix |
| `Distribution.ScatteredIsBlock` | lab_6.java:98 | a local block filled with a rank's rows holds that rank's block |
| `Distribution.Distribute` | lab_6.java:74-101 | returns a fresh block of the rank's row count and the matrix's width, holding exactly that rank's rows of the matrix |
| `LocalCombine.AccumulateRowProduct` | lab_6.java:129-131 | the innermost loop adds the Java-int inner product of row `i` of A and row `j` of B to `localResult[i][j]` and changes no other element |
| `LocalCombine.CombineRow` | lab_6.java:128-132 | one pass of the middle loop updates the elements `(i, j)` with `j < blockSize` of row `i` and nothing else |
| `LocalCombine.Combine` | lab_6.java:127-133 | one combine pass (the same loop at lines 179-185) leaves the result block equal to `Combined` of its old contents: elements `(i, j)` with `j < blockSize` gain the inner product of A's row `i` with B's row `j`, and the other columns are unchanged |
| `LocalCombine.Combined` | lab_6.java:127-133 | a combine keeps the block's shape |
| `LocalCombine.CombineIsProductWithTranspose` | lab_6.java:130 | on the leading square, a combine into a zero block is the reference product of A with the transpose of B |
| `LocalCombine.CombineExample` | lab_6.java:130 | one combine of `[[0,1],[0,0]]` with itself gives `[[1,0],[0,0]]` |
| `LocalCombine.ProductExample` | lab_6.java:67 | the reference product of `[[0,1],[0,0]]` with itself is zero |
| `LocalCombine.CombineIsNotProduct` | lab_6.java:130 | there is a block on which a combine differs from the product A times B |
| `Shifts.ArrayCopy` | lab_6.java:138 | `System.arraycopy` within one matrix writes `len` elements of the source row to the destination row as if through a temporary buffer (overlap is safe) and changes no other element |
| `Shifts.RowsUp` | lab_6.java:136-140 | the "rows up" shift keeps the block's shape |
| `Shifts.ShiftRowsUp` | lab_6.java:136-140 | in place (also lines 195-199): each row `i < n - 1` becomes the old row `i + 1`, and the last row keeps its elements except `[n-1][0]`, which takes the old `[0][0]` |
| `Shifts.ColumnsLeft` | lab_6.java:143-147 | the "columns left" shift keeps the block's shape |
| `Shifts.ShiftColumnsLeft` | lab_6.java:143-147 | in place (also lines 188-192): each row `i < n - 1` becomes its old elements `1 .. cols-1` followed by its old last element, the last row is untouched, and `[0][n-1]` takes the old `[0][0]` |
| `Shifts.ColumnsLeftAt` | lab_6.java:143-147 | each element after "columns left": the old corner at `[0][n-1]`, the right neighbour in rows `r < n - 1` except in the last column, and the old element elsewhere |
| `Shifts.SingleRowUnchanged` | lab_6.java:136-147 | with a block of one row both shifts leave it unchanged |
| `Shifts.RotateRowsUp` | lab_6.java:136-140 | the true cyclic rotation of the rows, the reference the "rows up" shift is compared with: row `i` takes row `i + 1`, the last row takes row 0 |
| `Shifts.RowsUpVersusRotation` | lab_6.java:136-140 | "rows up" agrees with the true rotation on every row but the last and on the last row's first element, and equals it if and only if the first and last rows agree from the second element on |
| `Shifts.RotateColumnsLeft` | lab_6.java:143-147 | the true rotation of every row left by one place keeps the shape |
| `Shifts.ColumnsLeftVersusRotation` | lab_6.java:143-147 | "columns left" agrees with the true rotation in rows `i < n - 1` except in the last column and at `[0][n-1]`; in the last column it keeps the old element, and the last row is not rotated |
| `Shifts.ShiftsAreNotRotations` | lab_6.java:136-147 | on `[[1,2],[3,4]]`, "rows up" gives `[[3,4],[1,4]]` instead of `[[3,4],[1,2]]` and "columns left" gives `[[2,1],[3,4]]` instead of `[[2,1],[4,3]]` |
| `Ring.Successor` | lab_6.java:150 | the destination rank is a valid rank |
| `Ring.Predecessor` | lab_6.java:150 | the source rank is a valid rank |
| `Ring.NeighbourFormulas` | lab_6.java:150-151 | the neighbours equal the program's `(rank + 1) % size` and `(rank - 1 + size) % size` |
| `Ring.NeighboursInverse` | lab_6.java:150-151 | successor and predecessor are mutual inverses, so every send has a matching receive |
| `Ring.SuccessorN` | lab_6.java:125 | any number of successor moves stays within the ranks |
| `Ring.SuccessorNWindow` | lab_6.java:150 | within one trip round the ring, `s` successor moves add `s` and wrap once |
| `Ring.Tour` | lab_6.java:125 | the ranks visited over the `size` stages form a sequence of length `size` |
| `Ring.RingCycle` | lab_6.java:125 | `size` successor moves from any rank return to it, and the tour visits every rank exactly once |
| `Ring.Exchange` | lab_6.java:150-151 | one send-and-replace on every rank keeps one block per rank |
| `Ring.ExchangeDelivers` | lab_6.java:150-151 | what rank `k` sends is what its successor holds after the exchange |
| `Ring.ExchangeIsRotation` | lab_6.java:150-151 | an exchange rotates the rank-ordered blocks by one place |
| `Ring.ExchangeN` | lab_6.java:125 | any number of exchanges keeps one block per rank |
| `Ring.Origin` | lab_6.java:125 | the rank whose block a rank holds after `s` stages is a valid rank |
| `Ring.OriginReaches` | lab_6.java:150 | the origin's block reaches the rank after `s` successor moves |
| `Ring.Sources` | lab_6.java:125 | the origins of a rank's blocks over the stages form a sequence of length `size` |
| `Ring.SourcesCoverRing` | lab_6.java:125 | over the `size` stages a rank holds the block of every rank exactly once |
| `Ring.ExchangeNAt` | lab_6.java:150-151 | after `s` exchanges rank `k` holds the block that started on `Origin(k, s)` |
| `Ring.ExchangeFullCycle` | lab_6.java:125 | after `size` exchanges every block is back on the rank it started on |
| `Engine.ShiftA` | lab_6.java:136-140 | the A shift of either engine (Fox: rows up; Cannon: columns left, lines 188-192) keeps the shape |
| `Engine.ShiftB` | lab_6.java:143-147 | the B shift of either engine (Fox: columns left; Cannon: rows up, lines 195-199) keeps the shape |
| `Engine.VariantsSwapShifts` | lab_6.java:34-41 | the two engines the `switch` selects (`foxAlgorithm`, `cannonAlgorithm`) differ only in which operand gets which shift: Fox shifts A rows up and B columns left (lines 136-147), Cannon the reverse (lines 188-199) |
| `Engine.ShiftAN` | lab_6.java:125 | a block A-shifted any number of times keeps its shape |
| `Engine.ShiftBN` | lab_6.java:125 | a block B-shifted any number of times keeps its shape |
| `Engine.ShiftedAs` | lab_6.java:136-140 | every rank's A block shifted once keeps one well-shaped block per rank |
| `Engine.ShiftedBs` | lab_6.java:143-147 | every rank's B block shifted once keeps one well-shaped block per rank |
| `Engine.CombinedAll` | lab_6.java:127-133 | every rank's result block after its combine keeps one well-shaped block per rank |
| `Engine.LocalPart` | lab_6.java:127-147 | the local part of a stage on all ranks keeps a valid state |
| `Engine.Stage` | lab_6.java:125-152 | a whole stage on all ranks keeps a valid state |
| `Engine.RankStage` | lab_6.java:127-147 | one rank's local part in place (Cannon: lines 179-199): the result block is combined from the old blocks, then A and B are shifted as the engine prescribes |
| `Engine.Accumulated` | lab_6.java:125-133 | a rank's result block after `s` stages keeps its shape |
| `Engine.HeldAs` | lab_6.java:150 | the A blocks held after `s` stages are one well-shaped block per rank |
| `Engine.HeldBs` | lab_6.java:151 | the B blocks held after `s` stages are one well-shaped block per rank |
| `Engine.ResultsAfter` | lab_6.java:125-133 | the result blocks after `s` stages are one well-shaped block per rank |
| `Engine.AfterStages` | lab_6.java:125-152 | the state after `s` stages is a valid state |
| `Engine.ZeroBlocks` | lab_6.java:109 | every rank's fresh result block is all zeros |
| `Engine.InitialState` | lab_6.java:109-123 | before the first stage every rank holds its own blocks and a zero result |
| `Engine.HeldAsStep` | lab_6.java:136-150 | shifting every held A block and passing it on gives the A blocks held one stage later |
| `Engine.HeldBsStep` | lab_6.java:143-151 | likewise for the B blocks |
| `Engine.StageStep` | lab_6.java:125-152 | one more stage on the state after `s` stages gives the state after `s + 1`: at stage `t` every rank combines the blocks of rank `Origin(r, t)`, each shifted `t` times |
| `Engine.StageFrom` | lab_6.java:125-152 | `StageStep` for a state known to be the one after `s` stages |
| `Engine.BlocksReturnHome` | lab_6.java:125-152 | after all `size` stages each rank holds its own blocks again, each shifted `size` times |
| `Engine.SingleRank` | lab_6.java:125-152 | with one rank the result is one combine: the product of A with the transpose of B on the leading square, zeros elsewhere |
| `RankBlocks.AllContents` | lab_6.java:150 | the contents of every rank's array, one per rank |
| `RankBlocks.ArraysShaped` | lab_6.java:109-111 | the arrays of all ranks hold one `n` by `cols` block each |
| `RankBlocks.ExchangeParts` | lab_6.java:150 | a state in which rank 0 holds the last rank's block and every other rank its predecessor's is the exchange |
| `RankBlocks.LocalParts` | lab_6.java:127-147 | every rank having done its local part is the local part on all ranks |
| `RankBlocks.PassUp` | lab_6.java:150 | every rank but the first takes its predecessor's block, and the first is untouched |
| `RankBlocks.RankStep` | lab_6.java:127-147 | rank `k`'s local part in place, with every other rank's arrays untouched |
| `RankBlocks.NewResults` | lab_6.java:109 | fresh, distinct, all-zero result arrays, one per rank |
| `RingStage.ExchangeInPlace` | lab_6.java:150 | the send-and-replace on every rank's array at once leaves the exchange of the old contents |
| `RingStage.ExchangeBoth` | lab_6.java:150-151 | the two exchanges of a stage: A and B blocks rotate round the ring, results stay |
| `RingStage.LocalStages` | lab_6.java:127-147 | the local part on every rank in turn leaves `LocalPart` of the old state |
| `RingStage.StageInPlace` | lab_6.java:125-152 | one stage in place on all ranks leaves `Stage` of the old state |
| `RingEngine.NextStage` | lab_6.java:125-152 | one iteration of the stage loop takes the arrays from the state after `s` stages to the state after `s + 1` |
| `RingEngine.RunStages` | lab_6.java:125-152 | the stage loop (Cannon: lines 177-204) leaves the arrays in the state after `size` stages |
| `RingEngine.RunEngine` | lab_6.java:103-152 | a run of either engine on all ranks: every rank's result block is the accumulation over the ring, and its A and B arrays end holding its own blocks shifted `size` times |

## Left out

- MPI itself is left out. That covers `MPI.Init` and `Finalize` (lines 6 and 49), and the communicator's `Rank` and `Size` (lines 8-9, 104, 163), which become parameters.
- `Scatterv` (line 98) is modelled by its effect on one rank (`Distribution.ScatterBlock`), not as a collective among processes.
- `Sendrecv_replace` (lines 150-151 and 202-203) is modelled as a rotation of all ranks' arrays through one temporary array. Message tags, blocking and matching between processes are not modelled.
- The engines' own `Scatter` (lines 114-115 and 173-174) is left out: each rank's initial A and B blocks are inputs. So is the final `Gather` (lines 156 and 208).
- The dispatch in `main` (lines 29-44) runs each engine on a single rank, where the collective calls could never complete. The model runs an engine on every rank at once, which is the run the exchanges presuppose.
- `gatherAndPrintResult` and `printMatrix` (lines 214-240) are left out. They are a collective plus console output.
- The shallow `System.arraycopy` of row references at lines 122-123 is left out. Fox's working blocks are modelled as the rank's own arrays, since the originals are never read again.
- Distribution.ComputeCounts: the counts and displacements are unbounded integers. The Java `int` products `(rowsPerProcess + 1) * cols` and `i * rowsPerProcess * cols` would wrap only for matrices of more than 2^31 elements.
- Distribution.Distribute: requires a matrix with at least one row, because `matrix[0].length` throws on an empty one.
- Engine.RankStage: requires `1 <= blockSize <= cols`. With `blockSize == 0` the shifts read `[0][0]` of an empty array, and with `blockSize > cols` the combine writes past a row's end. Both throw in Java.
- Sequential.Multiply: states the contents only when the result has at least one row and one column. An empty result has no elements to state.
