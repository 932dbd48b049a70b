# SMURFF / Macau core, modelled in Dafny

This project models the computational core of the SMURFF matrix and tensor
factorisation library, together with the helpers of its Macau/BPMF
predecessor. It covers four source files:

- **`SparseModeNew`** stores a sparse tensor with one mode fixed. Its
  constructor takes an `nnz x nmodes` coordinate matrix and a value vector. It
  counts the entries per coordinate of the fixed mode, turns the counts into
  row pointers, and scatters the values and the remaining coordinates into
  grouped order. Files: `sparse_mode.dfy` holds the class and its loops;
  `grouping.dfy` holds the mathematics of this stable counting sort.
- **The `bpmfutils.h` helpers** (`bpmf_utils.dfy`):
  - `clamp` and `square`;
  - `getMinMax` over a compressed sparse matrix;
  - `split_work_mpi`, which divides the latent dimensions among compute nodes;
  - the ranking and the cumulative label counts that `auc` builds.
- **The latent `Model`** (`latent_model.dfy`): one factor matrix `U(d)` per
  mode, with:
  - `init` with zero or random initialisation, `U`, `col`, `nmodes` and `nsamples`;
  - `predict`, the sum over latent rows of the product of the selected factor columns;
  - factor file names, and `save`/`restore` through an abstract file store;
  - the column windows of `SubModel::U`.
- **The linear operators of `linop.h`** (`kernels.dfy`, `block_cg.dfy`):
  - the sparse kernels `A_mul_Bx<N>` and `AtA_mul_Bx<N>`;
  - both `AtA_mul_B_switch` overloads;
  - `At_mul_Bt`, `add_Acol_mul_bt`, and the 64-column tiling of `A_mul_B_omp`;
  - the outer loop of `solve_blockcg`, which splits the right-hand sides into
    blocks and hands each block to the inner block-CG solver.

Supporting modules:

- `errors.dfy`: `Option`/`Result`/`Outcome`. A C++ `throw` becomes an error
  value that carries the message.
- `compressed.dfy`: Eigen's compressed sparse storage, made of outer pointers,
  inner indices and values.

Modelling conventions:

- A `double` is a `real`, so there is no rounding. Signed and unsigned machine
  integers are unbounded, except where the source's width shows:
  - `getNModes` on an empty row-pointer vector, which wraps in 64 bits;
  - `Model::col`'s conversion to `uint32_t`.
- Eigen's column-major raw-pointer arithmetic is written as the entry it
  addresses. For example, `Y[row * N + j]` is `out[j, row]`.
- The assertion macro's message text comes from a header that is not part of
  this model. Failed size checks therefore carry a message naming the failed
  condition, such as `"N == out.rows()"`.
- Messages that the source spells out are kept verbatim:
  - `"idx.rows() must equal vals.size()"`;
  - `"SparseMode: mode value larger than mode_size"`;
  - `"Invalid model init type"`;
  - `"BlockCG only available for up to 40 RHSs."`;
  - `"B.cols() must equal K.cols()"`.
- The numerics of the inner block-CG solver are opaque. For each block and
  iteration `iter` they say whether the iteration goes on, passes the
  convergence test, or fails a Cholesky factorisation (and what `X` then
  holds), and what the unnormalised `X` is when the loop stops. The loop
  itself (`for (iter = 0; iter < 1000; iter++)`) is modelled, so the
  iteration bound is derived, not assumed. The only requirement on the
  numerics (`Solver.Fits`) is that their matrices have the block's shape.
- `Model::nmodes` is `|samples|` (`Model.NModes`). `Model::nsamples` is a left
  fold of the column counts (`Model.NSamples`). Their meaning is stated by
  `NSamplesIsSumOfDims`.

## Model

| member | source | states |
|---|---|---|
| `Grouping.Slot` | lib/smurff-cpp/SmurffCpp/SparseModeNew.cpp:51-67 | the position the scatter gives entry `i` lies among the positions reserved for its key: after every entry with a smaller key, before every entry with a larger one |
| `Grouping.BelowStep` | lib/smurff-cpp/SmurffCpp/SparseModeNew.cpp:41-47 | the running prefix sum grows by the count of each key: entries below `k + 1` are those below `k` plus those equal to `k` |
| `Grouping.BelowAll` | lib/smurff-cpp/SmurffCpp/SparseModeNew.cpp:48 | when every key is below `mode_size`, the prefix sum at `mode_size` is `nnz` |
| `Grouping.SlotStable` | lib/smurff-cpp/SmurffCpp/SparseModeNew.cpp:51-67 | of two entries with the same key, the one earlier in the input is stored first |
| `Grouping.SlotOrdered` | lib/smurff-cpp/SmurffCpp/SparseModeNew.cpp:51-67 | an entry with a smaller key is stored before one with a larger key |
| `Grouping.SlotInjective` | lib/smurff-cpp/SmurffCpp/SparseModeNew.cpp:51-67 | no two entries are written to the same position |
| `Grouping.SlotOnto` | lib/smurff-cpp/SmurffCpp/SparseModeNew.cpp:51-67 | every position below `nnz` receives some entry, so nothing in the output is left unwritten |
| `Grouping.SelectAtRank` | lib/smurff-cpp/SmurffCpp/SparseModeNew.cpp:53-66 | entry `i` is the element of its key's group at its rank among the earlier entries with that key |
| `Grouping.GroupByAtSlot` | lib/smurff-cpp/SmurffCpp/SparseModeNew.cpp:51-67 | entry `i` of the input appears at its slot in the stable grouping |
| `Grouping.GroupBySegment` | lib/smurff-cpp/SmurffCpp/SparseModeNew.cpp:41-67 | the group of key `k` occupies exactly positions `Below(k) .. Below(k + 1)` and holds that key's entries in input order |
| `Grouping.GroupByUnique` | lib/smurff-cpp/SmurffCpp/SparseModeNew.cpp:51-67 | any sequence that holds every entry at its slot is the stable grouping |
| `Grouping.GroupByPermutation` | lib/smurff-cpp/SmurffCpp/SparseModeNew.cpp:51-67 | the grouping is a permutation of the input when all keys are below `mode_size` |
| `SparseMode.DropColumn` | lib/smurff-cpp/SmurffCpp/SparseModeNew.cpp:56-63 | a coordinate row without the fixed mode: columns before the mode unchanged, columns after it moved one place left |
| `SparseMode.SparseModeNew.constructor` | lib/smurff-cpp/SmurffCpp/SparseModeNew.cpp:9-12 | the default object: no entries, mode 0, empty containers, and valid |
| `SparseMode.SparseModeNew.FromLayout` | lib/smurff-cpp/SmurffCpp/SparseModeNew.cpp:23-28 | the fields the constructor fills in: `nnz` is the number of values, the mode as given, and the grouped row pointers, values and coordinates |
| `SparseMode.SparseModeNew.GetNNZ` | lib/smurff-cpp/SmurffCpp/SparseModeNew.cpp:78-81 | of a valid object, the number of stored values and coordinate rows |
| `SparseMode.SparseModeNew.GetNModes` | lib/smurff-cpp/SmurffCpp/SparseModeNew.cpp:83-86 | one less than the length of the row pointers; `2^64 - 1` for the default object, whose row-pointer vector is empty |
| `SparseMode.SparseModeNew.BeginMode` | lib/smurff-cpp/SmurffCpp/SparseModeNew.cpp:103-106 | the first stored position of coordinate `n`, at most `nnz` |
| `SparseMode.SparseModeNew.EndMode` | lib/smurff-cpp/SmurffCpp/SparseModeNew.cpp:108-111 | one past the last stored position of coordinate `n`, between `beginMode(n)` and `nnz` |
| `SparseMode.CountPerMode` | lib/smurff-cpp/SmurffCpp/SparseModeNew.cpp:34-39 | succeeds exactly when every fixed-mode coordinate is below `mode_size`, and then holds the number of entries per coordinate |
| `SparseMode.ExclusivePrefixSum` | lib/smurff-cpp/SmurffCpp/SparseModeNew.cpp:41-48 | turns the counts into the number of entries below each coordinate, with `nnz` in the last slot |
| `SparseMode.CopyOtherCoordinates` | lib/smurff-cpp/SmurffCpp/SparseModeNew.cpp:56-63 | row `dest` of the output receives the entry's coordinates without the fixed mode; no other row changes |
| `SparseMode.PlaceEntry` | lib/smurff-cpp/SmurffCpp/SparseModeNew.cpp:53-66 | entry `i` is written at `dest`, and the entries placed before it stay where they were |
| `SparseMode.Scatter` | lib/smurff-cpp/SmurffCpp/SparseModeNew.cpp:51-67 | every entry's value and remaining coordinates land at its stable slot, and each row pointer advances to the end of its group |
| `SparseMode.ShiftBack` | lib/smurff-cpp/SmurffCpp/SparseModeNew.cpp:69-75 | shifting the advanced pointers one place up restores the start of every group |
| `SparseMode.Layout` | lib/smurff-cpp/SmurffCpp/SparseModeNew.cpp:41-75 | after the last three loops, the row pointers, values and coordinates are the grouped layout of the input |
| `SparseMode.Build` | lib/smurff-cpp/SmurffCpp/SparseModeNew.cpp:18-76 | fails exactly when the row and value counts differ or a coordinate is out of range, with the source's message for each; otherwise yields a valid object holding the grouped layout |
| `SparseMode.SlotLayoutIsGrouped` | lib/smurff-cpp/SmurffCpp/SparseModeNew.cpp:51-75 | writing each entry at its stable slot produces the grouped layout |
| `SparseMode.GroupedLayout` | lib/smurff-cpp/SmurffCpp/SparseModeNew.cpp:41-75 | in the grouped layout, the row pointers run nondecreasing from 0 to `nnz`; segment `k` has as many entries as coordinate `k` and holds exactly their values in input order; the values are a permutation of the input |
| `SparseMode.EntryStoredInItsSegment` | lib/smurff-cpp/SmurffCpp/SparseModeNew.cpp:51-67 | every input entry is stored inside the segment of its coordinate, with its value and its other coordinates |
| `SparseMode.SameCoordinateKeepsOrder` | lib/smurff-cpp/SmurffCpp/SparseModeNew.cpp:51-67 | entries with the same coordinate keep their input order |
| `BpmfUtils.Clamp` | lib/macau-cpp/bpmfutils.h:15-17 | `min` below the range, `max` above it, `x` inside; for `min <= max`, the result lies in the range and is the point of the range closest to `x` |
| `BpmfUtils.Square` | lib/macau-cpp/bpmfutils.h:64 | the square is never negative |
| `BpmfUtils.GetMinMax` | lib/macau-cpp/bpmfutils.h:19-30 | the least and greatest stored value; `+INFINITY` and `-INFINITY` for a matrix with no stored values |
| `BpmfUtils.ExtremaExtend` | lib/macau-cpp/bpmfutils.h:24-26 | one more value replaces the minimum when below it and the maximum when above it, which keeps both extremes exact |
| `BpmfUtils.WorkUnit` | lib/macau-cpp/bpmfutils.h:33-36 | the chunk size is 2 exactly when the average work per node is at least 2, and 1 otherwise |
| `BpmfUtils.MinWork` | lib/macau-cpp/bpmfutils.h:38 | the largest multiple of the unit that every node can be given |
| `BpmfUtils.Leftover` | lib/macau-cpp/bpmfutils.h:39-44 | after the minimum round, what is left is less than one unit per node |
| `BpmfUtils.GiveMinWork` | lib/macau-cpp/bpmfutils.h:41-44 | every node gets the minimum, and what is left is `num_latent` minus what was given |
| `BpmfUtils.HandOutLeftover` | lib/macau-cpp/bpmfutils.h:45-51 | the round-robin pass gives node `i` its extra share and touches nothing beyond the nodes |
| `BpmfUtils.SplitWorkMpi` | lib/macau-cpp/bpmfutils.h:32-52 | `work[0 .. num_nodes]` becomes the split, and the rest of the buffer is unchanged |
| `BpmfUtils.SplitSum` | lib/macau-cpp/bpmfutils.h:32-52 | the shares add up to exactly `num_latent` |
| `BpmfUtils.SplitBounds` | lib/macau-cpp/bpmfutils.h:32-52 | each node gets between the minimum and the minimum plus one unit, and no node gets more than an earlier one |
| `BpmfUtils.Iota` | lib/macau-cpp/bpmfutils.h:130-133 | the identity permutation `0 .. n - 1` |
| `BpmfUtils.SortedPermutation` | lib/macau-cpp/bpmfutils.h:130-134 | a permutation of the indices, in ascending order of prediction |
| `BpmfUtils.InsertLast` | lib/macau-cpp/bpmfutils.h:134 | one insertion step keeps the ranking a permutation and extends its sorted prefix by one |
| `BpmfUtils.CumulativeCounts` | lib/macau-cpp/bpmfutils.h:136-144 | `stack_x[i]` is the label sum of the `i + 1` lowest-ranked items, and `stack_x[i] + stack_y[i] = i + 1`; for 0/1 labels these are the counts of positives and negatives |
| `BpmfUtils.LabelSumCountsPositives` | lib/macau-cpp/bpmfutils.h:136-144 | for 0/1 labels, the running label sum is the number of positives seen, and never more than the items seen |
| `LatentModel.Snapshot` | lib/smurff-cpp/SmurffCpp/Model.cpp:144 | the value a written factor file holds: the matrix entry for entry |
| `LatentModel.ZeroFactorPredictsZero` | lib/smurff-cpp/SmurffCpp/Model.cpp:67-74 | a model with an all-zero factor predicts 0 at every position |
| `LatentModel.NoModesPredictsLatentCount` | lib/smurff-cpp/SmurffCpp/Model.cpp:67-74 | without modes, `P` stays all ones, so the prediction is the number of latent rows |
| `LatentModel.ColumnCountIsSumDims` | lib/smurff-cpp/SmurffCpp/Model.cpp:121-125 | the accumulated column counts of factors shaped after `dims` are the sum of `dims` |
| `LatentModel.ParseDigitsOfDigits` | lib/smurff-cpp/SmurffCpp/Model.cpp:177 | the decimal digits `to_string` prints read back as the number |
| `LatentModel.ToStringInjective` | lib/smurff-cpp/SmurffCpp/Model.cpp:177 | two integers print the same exactly when they are equal |
| `LatentModel.ModelFileNameInjective` | lib/smurff-cpp/SmurffCpp/Model.cpp:175-178 | two factor file names with the same prefix and extension coincide exactly when their indices do |
| `LatentModel.SavedNames` | lib/smurff-cpp/SmurffCpp/Model.cpp:140-145 | the `i`-th saved path is the file name of factor `i` |
| `LatentModel.Model.constructor` | lib/smurff-cpp/SmurffCpp/Model.cpp:30-33 | a new model has `num_latent = -1` and no factors |
| `LatentModel.Model.Init` | lib/smurff-cpp/SmurffCpp/Model.cpp:38-65 | records the sizes; an unknown init type with at least one mode throws before any factor is added; otherwise appends one fresh `num_latent x dims[i]` factor per mode, all zero under zero initialisation, and an empty model becomes valid |
| `LatentModel.Model.U` | lib/smurff-cpp/SmurffCpp/Model.cpp:76-84 | the factor of mode `f`, or `out_of_range` exactly when `f` is not a mode |
| `LatentModel.Model.Col` | lib/smurff-cpp/SmurffCpp/Model.cpp:106-109 | column `i` of factor `f`, the signed mode index taken modulo `2^32`; `out_of_range` exactly when that is not a mode |
| `LatentModel.Model.Predict` | lib/smurff-cpp/SmurffCpp/Model.cpp:67-74 | `out_of_range` exactly when the position has fewer coordinates than the model has modes; otherwise the sum over latent rows of the product of the selected factor entries |
| `LatentModel.Model.Save` | lib/smurff-cpp/SmurffCpp/Model.cpp:138-147 | appends the file name of every factor to `paths` in mode order; each such file then holds its factor, and every other file is unchanged |
| `LatentModel.Model.Restore` | lib/smurff-cpp/SmurffCpp/Model.cpp:149-156 | every factor is read back from the file named for its index |
| `LatentModel.Model.SaveThenRestore` | lib/smurff-cpp/SmurffCpp/Model.cpp:138-156 | restoring what was just saved under the same prefix and extension leaves every factor as it was |
| `LatentModel.ReadMatrix` | lib/smurff-cpp/SmurffCpp/Model.cpp:154 | the matrix afterwards holds exactly the stored rows |
| `LatentModel.SubModel.U` | lib/smurff-cpp/SmurffCpp/Model.cpp:181-190 | `out_of_range` exactly when `f` is not a mode of the model or of the view's offsets and sizes; otherwise the `num_latent x dims[f]` block of factor `f` starting at column `off[f]` |
| `LatentModel.NSamplesIsSumOfDims` | lib/smurff-cpp/SmurffCpp/Model.cpp:121-125 | after `init`, `nsamples` is the sum of the mode sizes |
| `LatentModel.FullViewIsWholeFactor` | lib/smurff-cpp/SmurffCpp/Model.cpp:181-190 | a view with offset 0 spanning all columns shows the whole factor |
| `LatentModel.ZeroInitPredictsZero` | lib/smurff-cpp/SmurffCpp/Model.cpp:38-74 | a model initialised with zeros and at least one mode predicts 0 everywhere |
| `Kernels.SparseRowIsDense` | lib/smurff-cpp/SmurffCpp/Utils/linop.h:287-299 | walking the stored entries of a compressed row gives the dot product of the dense row with a row of `B` |
| `Kernels.AccumulateRow` | lib/smurff-cpp/SmurffCpp/Utils/linop.h:289-299 | `tmp[j]` is row `row` of `A` times row `j` of `B`, for every `j < N` |
| `Kernels.AddScaledColumn` | lib/smurff-cpp/SmurffCpp/Utils/linop.h:293-298 | each `tmp[j]` gains `X(j, col) * val` |
| `Kernels.SetColumn` | lib/smurff-cpp/SmurffCpp/Utils/linop.h:300-304 | column `row` of `out` receives `tmp`, and every other column is kept |
| `Kernels.AMulBx` | lib/smurff-cpp/SmurffCpp/Utils/linop.h:273-306 | the first failing size check, with `out` untouched; otherwise `out = (A * B')'` |
| `Kernels.AddTransposedProduct` | lib/smurff-cpp/SmurffCpp/Utils/linop.h:388-414 | column `c` of `out` becomes row `c` of the transposed storage times the rows of `inner`, plus `reg` times column `c` of `B` |
| `Kernels.AtAMulBx` | lib/smurff-cpp/SmurffCpp/Utils/linop.h:375-415 | the first failing size check, including the first check of the inner `A_mul_Bx`; otherwise `inner = (A * B')'` and `out = (A' * inner')' + reg * B` |
| `Kernels.AtAIsGram` | lib/smurff-cpp/SmurffCpp/Utils/linop.h:375-415 | when the transposed storage holds `A'`, each entry of `out` is the normal-equations operator `(A' * A + reg * I)` applied to the matching row of `B`, the same value the dense overload computes |
| `Kernels.SparseGramEntry` | lib/smurff-cpp/SmurffCpp/Utils/linop.h:386-408 | a column of `A` dotted with a row of `inner`, walked through the transposed storage, is the dense Gram entry |
| `Kernels.AtAMulBSwitch` | lib/smurff-cpp/SmurffCpp/Utils/linop.h:308-364 | for 1 to 40 right-hand sides, exactly `AtA_mul_Bx<N>`; for any other count, the 40-RHS error with nothing written |
| `Kernels.AtAMulBDense` | lib/smurff-cpp/SmurffCpp/Utils/linop.h:366-373 | whatever `out` held, the assignment gives it the shape of `B`, and each entry is `(A' * (A * B[j]'))' + reg * B[j]` |
| `Kernels.FillRows` | lib/smurff-cpp/SmurffCpp/Utils/linop.h:372 | every row `j` of `out` becomes `(A' * (A * v'))' + reg * v` for row `v = B[j]` |
| `Kernels.AtMulBt` | lib/smurff-cpp/SmurffCpp/Utils/linop.h:67-75 | `Y(row)` is column `col` of `X` dotted with row `row` of `B`, and the rest of `Y` is zero |
| `Kernels.AddAcolMulBt` | lib/smurff-cpp/SmurffCpp/Utils/linop.h:77-85 | row `row < b.size()` of `Z` gains `b(row)` times column `col` of `A`, and the other rows are kept |
| `Kernels.TilesPartitionColumns` | lib/smurff-cpp/SmurffCpp/Utils/linop.h:427-434 | the 64-column tiles are non-empty and hold every column exactly once |
| `Kernels.UpdateTile` | lib/smurff-cpp/SmurffCpp/Utils/linop.h:433-435 | the tile's columns become `alpha * out + beta * A * B`, and every other column is kept |
| `Kernels.AMulBOmp` | lib/smurff-cpp/SmurffCpp/Utils/linop.h:417-437 | fails exactly when `out` and `B` differ in column count, with `out` untouched; otherwise every entry of `out` becomes `alpha * out + beta * (A * B)` |
| `BlockCG.Solver.StopAt` | lib/smurff-cpp/SmurffCpp/Utils/linop.h:184-224 | the value of `iter` when the inner loop stops: at most 1000, every earlier iteration went on, and below 1000 the iteration at it did not go on |
| `BlockCG.Solver.Run` | lib/smurff-cpp/SmurffCpp/Utils/linop.h:133-137 | the inner solver rejects a `B` whose column count differs from `K`'s with its message |
| `BlockCG.RunStopsAt` | lib/smurff-cpp/SmurffCpp/Utils/linop.h:184-230 | the inner loop ends where `StopAt` says: with the error of that iteration's failed factorisation, or with that `iter` and the solution there |
| `BlockCG.RunMeaning` | lib/smurff-cpp/SmurffCpp/Utils/linop.h:184-230 | a successful inner solve returns at most 1000 iterations, all of which went on, ending in convergence or at the bound, with the solution at that point; a failure after the size check is the first iteration that threw, with its message |
| `BlockCG.Iterations` | lib/smurff-cpp/SmurffCpp/Utils/linop.h:184-230 | the loop over `iter` stops at `StopAt`, and reports a throw exactly when that iteration failed a factorisation |
| `BlockCG.InPlaceStop` | lib/smurff-cpp/SmurffCpp/Utils/linop.h:184-230 | once the size check has passed, the inner solver's result and final `X` are read off the iteration at which the loop stops |
| `BlockCG.InnerSolve` | lib/smurff-cpp/SmurffCpp/Utils/linop.h:130-271 | the inner `solve_blockcg` on `X`: the size error with `X` untouched, a factorisation error with `X` as that iteration left it, or the count with the solution in `X` |
| `BlockCG.Fill` | lib/smurff-cpp/SmurffCpp/Utils/linop.h:156-267 | every entry of `X` is replaced by the given matrix |
| `BlockCG.BlocksFrom` | lib/smurff-cpp/SmurffCpp/Utils/linop.h:106-118 | every block the loop visits is non-empty, starts at or after `i` and lies inside the rows of `B` |
| `BlockCG.BlocksFromStrided` | lib/smurff-cpp/SmurffCpp/Utils/linop.h:106-110 | block `q` starts at `i + q * blocksize` and has `blocksize` rows, or all remaining rows when it reaches within `excess` of the end; the last block ends at the last row, and the strides pass it |
| `BlockCG.Blocks` | lib/smurff-cpp/SmurffCpp/Utils/linop.h:100-118 | every block lies inside the rows of `B` |
| `BlockCG.BlocksStrided` | lib/smurff-cpp/SmurffCpp/Utils/linop.h:100-110 | at most `excess + blocksize` rows are one block of all rows; more rows give at least two blocks laid out with stride `blocksize` from row 0 |
| `BlockCG.BlocksCoverRows` | lib/smurff-cpp/SmurffCpp/Utils/linop.h:100-118 | every row of `X` is solved by at least one block |
| `BlockCG.BlocksRevisitRows` | lib/smurff-cpp/SmurffCpp/Utils/linop.h:106-118 | as written, 10 right-hand sides with blocks of 4 and excess 2 give blocks at rows 0, 4 (six rows) and 8, so rows 8 and 9 are solved twice |
| `BlockCG.IntendedBlocksPartition` | lib/smurff-cpp/SmurffCpp/Utils/linop.h:106-118 | the corrected split lays its blocks end to end and solves every row exactly once |
| `BlockCG.MaxIters` | lib/smurff-cpp/SmurffCpp/Utils/linop.h:105-116 | `max_iter` is at least every block's iteration count and equals one of them; 0 when there are no blocks |
| `BlockCG.MaxItersBounded` | lib/smurff-cpp/SmurffCpp/Utils/linop.h:105-116 | the reported count never exceeds the inner loop's 1000 iterations, derived from the modelled loop over `iter` |
| `BlockCG.WriteBlock` | lib/smurff-cpp/SmurffCpp/Utils/linop.h:117 | the block's rows of `X` receive the block solution, and the other rows are kept |
| `BlockCG.SolveBlock` | lib/smurff-cpp/SmurffCpp/Utils/linop.h:111-117 | one inner solve into a fresh `Xblock`: its result, with the solution copied into the block's rows only when there is one |
| `BlockCG.SolveSeqHead` | lib/smurff-cpp/SmurffCpp/Utils/linop.h:106-118 | the block-by-block solve either stops at a failing first block or continues with the rest from the updated `X` and `max_iter` |
| `BlockCG.SolveFirst` | lib/smurff-cpp/SmurffCpp/Utils/linop.h:111-117 | one turn of the outer loop advances the block-by-block solve by its first block |
| `BlockCG.SolveSeqInOrder` | lib/smurff-cpp/SmurffCpp/Utils/linop.h:104-120 | the block-by-block loop either solves every block, returning the largest iteration count with every solution in place, or stops at the first failing block, with its error and the solutions of the blocks before it |
| `BlockCG.WholeInOrder` | lib/smurff-cpp/SmurffCpp/Utils/linop.h:100-101 | a successful solve of a small system as one block has the same outcome as the block-by-block solve over that one block |
| `BlockCG.SolveInBlocks` | lib/smurff-cpp/SmurffCpp/Utils/linop.h:104-120 | the loop's result and final `X` are the block-by-block solve over the blocks as written |
| `BlockCG.SolveBlockcg` | lib/smurff-cpp/SmurffCpp/Utils/linop.h:98-121 | a small system: exactly the inner solver on `X`, so a failure leaves `X` as the inner solver left it; otherwise, and whenever it succeeds: all blocks solved with the largest count and every solution copied in, or the first error with the solutions before it |
| `BlockCG.SolveBlockcgIntended` | lib/smurff-cpp/SmurffCpp/Utils/linop.h:98-121 | the same, over the corrected split, which solves every row once |

## Left out

- I/O: `write_matrix` and `read_matrix` are a map from file name to rows.
  - `Model.Restore` requires each file to exist and to have the factor's shape.
    The source would resize the factor, or the I/O layer would throw.
- Random initialisation (`bmrandn`): the values of a randomly initialised factor
  are left unspecified.
- `Pcache`, the per-thread buffer of `predict`: `predict` is modelled on its value.
- `info` and `status` are not modelled: they only write text.
- `nlatent`, `getDims`, `full` and the iterator factories (`Vbegin`, `Vend`,
  `CVbegin`, `CVend`) are plain getters or iterator plumbing.
- The numerics of the inner `solve_blockcg`: the Cholesky factorisations, the
  convergence test and the normalisation. These are floating-point work,
  represented by an opaque solver, whose per-iteration outcome and final
  solution are parameters. The warning printed after 1000 iterations goes to
  `std::cerr` and is not modelled.
- OpenMP parallelism: every `parallel for` is a sequential loop. The iterations
  write disjoint columns, so the result does not depend on the order.
- The BLAS helpers, `compute_uhat`, `makeSymmetric`, `Asym_mul_B_*`,
  `row_mean_var`, `tick`, `writeToCSVfile`, `to_string_with_precision` and
  `sparseFromIJV` are not part of this model.
- `SparseMode.Build` requires `mode_size + 1 < 2^64`: with
  `mode_size = 2^64 - 1`, the source's `resize(mode_size + 1)` wraps to 0, and
  the loops then write out of bounds.
- `SparseMode.Build` requires `mode < idx.cols()` once the row and value counts
  agree (a mismatch is still the modelled error). The source does not check
  `mode`: `idx.col(mode)` and the column copies are Eigen debug assertions,
  and out of range they read outside the coordinate matrix.
- `LatentModel.Model.Init` requires `num_latent >= 0`. A negative count fails
  Eigen's size assertions in `new MatrixXd(num_latent, dims[i])` and
  `ArrayXd::Ones(num_latent)`, which this model does not represent.
- `BlockCG.SolveBlockcg` (and `BlockCG.SolveBlockcgIntended`) requires
  `blocksize >= 1` and takes `excess` as a natural number. The source's
  `const int` parameters accept more. With `blocksize == 0` and
  `B.rows() > excess`, `i += blocksize` never advances and the loop never
  ends; a negative `blocksize` walks `i` below 0. With a negative `excess`,
  a block that is not the last may run past the end of `B`: for example,
  6 rows, `blocksize = 4` and `excess = -3` give a block at row 4 with 4 rows
  when only 2 remain, an out-of-range `B.block`. These inputs are outside
  what the model promises.
- `BpmfUtils.Square`: only states that the result is never negative, because
  the square of a `real` has no simpler characterisation than its body.
- `BpmfUtils.CumulativeCounts`: models `stack_x` and `stack_y` but not the final
  `auc` sum. That sum divides by `NP * NN` in floating point, which is NaN or
  infinite when one class is absent. The method requires at least one
  prediction; the source writes `stack_x[0]` even for an empty vector.
- `BpmfUtils.SortedPermutation` is an insertion sort, not `std::sort`. The
  ranking is sorted and a permutation, but the order among equal predictions
  may differ.
- `BpmfUtils.SplitWorkMpi` is modelled on integers. The `double` quotient
  `num_latent / (double) num_nodes` is rounded, but for 32-bit operands its
  floor (and the floor of its half, when the unit is 2) equals integer floor
  division, and `2 <= avg_work` agrees with `2 * num_nodes <= num_latent`;
  the model uses these integer forms. Its work buffer is an `array<int>`, not a
  raw pointer.
- `LatentModel.Model.NSamples`: no 32-bit `int` overflow of the accumulated count.
- `SparseMode.SparseModeNew.GetNNZ`: `m_nnz` and the loop counters are 64-bit
  in the source and unbounded here.
- `Kernels.AMulBOmp` requires `A` to be square of size `out.rows()`, and at
  least that many rows of `B`. These are the sizes for which Eigen's product
  and block assignment are defined.
- Aliasing: the kernels require their output to be distinct from their inputs.
  Aliased calls are undefined with raw pointers and `noalias()`.
- Size checks that Eigen performs only as debug assertions are preconditions:
  `predict`'s column indices, `SubModel::U`'s block bounds, and
  `At_mul_Bt`/`add_Acol_mul_bt`'s shapes.

## Findings

| source | as written | input that shows it | evidently intended | confidence | as-written member | corrected member |
|---|---|---|---|---|---|---|
| lib/smurff-cpp/SmurffCpp/Utils/linop.h:106-118 | once a block takes all remaining rows (`i + blocksize + excess >= B.rows()`), the loop still advances by `blocksize` and solves the tail rows again as further blocks | `B.rows() = 10`, `blocksize = 4`, `excess = 2`: blocks (0, 4 rows), (4, 6 rows), (8, 2 rows), so rows 8 and 9 are solved twice; with the recommended 32/8, 70 right-hand sides re-solve rows 64-69 | stop after the block that takes the remaining rows, so that the blocks partition the rows (`SolveBlockcgIntended` solves over this split) | medium; not executed | `BlockCG.BlocksRevisitRows` | `BlockCG.IntendedBlocksPartition` |
