# Fixed-radius neighbour search: host-side operations

This project models the host half of the two operations a fixed-radius
neighbour search library exposes to Python: `BuildSpatialHashTable` and
`FixedRadiusSearch`, as written in `src/FixedRadiusSearchOps.cpp`, and the
second copy of `FixedRadiusSearch` in
`fixedneighborsearch/src/FixedRadiusSearchOps.cpp`.

The host code does not search. It checks the argument tensors. For the hash
table, it also sizes one hash table per batch of points. It lays these tables
out in a `uint32_t` prefix-sum vector (`hash_table_splits`), allocates the
output tensors and then hands over to a CUDA kernel. The model covers that
logic:

- `Tensors`: a tensor is reduced to its element type, device kind and shape.
  The integer contents that the host reads (the points' row splits) are
  passed alongside it as a sequence. The module also holds the error
  reasons, one per `TORCH_CHECK`.
- `Metrics`: the `"L1"` / `"L2"` / `"Linf"` tag decoder.
- `HashTableSizing`: the per-batch table size
  `min(max(trunc(factor * n), 1), max_hash_table_size)`. It also holds the
  prefix sums modulo 2^32, the `uint32_t` to `int32_t` reinterpretation and
  the cell-splits length `back() + 1` in `uint32_t` arithmetic. The lemmas
  relate these to exact sums: the step property, the sums with and without
  wrap-around, strict increase, bounds, and the int32 view being exact.
- `FixedRadiusSearchOps`: `BuildSpatialHashTable` is an imperative method.
  Its split-filling loop runs over a zero-initialised array and is proved
  against `HashTableSplits`. Its copy loop writes every entry of the returned
  int32 array. `FixedRadiusSearch` (the `src/` copy) is a function.
- `SearchArguments`: the argument checks shared by both copies of
  `FixedRadiusSearch`. The two copies are identical up to the backend choice.
  The checks run in source order and report the first failure.
- `PackageFixedRadiusSearchOps`: the `fixedneighborsearch/` copy. For
  non-CUDA points, or non-float CUDA points in a CUDA build, it returns its
  outputs unfilled: `neighbors_index` and
  `neighbors_distance` undefined, `neighbors_row_splits` allocated but never
  written. Its final "does not support" failure is unreachable. A lemma shows
  that the two copies differ exactly where the `src/` copy fails with that
  error.

Modelling choices:

- The double `hash_table_size_factor * num_points_i` is the exact rational
  product. Conversion to `int64_t` truncates toward zero.
- `hash_table_splits[i + 1] = hash_table_splits[i] + size` is computed on
  unbounded integers and reduced modulo 2^32, as the `uint32_t` store does.
  The intermediate sum is an `int64_t`; the model assumes it does not
  overflow (see "## Left out").
- Copying into the `int32_t` tensor keeps the low 32 bits, read as two's
  complement.
- `CHECK_SHAPE` is read as follows. The rank must match. A constant
  dimension must be equal. An unbound `Dim` is bound to the size, minus the
  constant for `Dim + k`, with no check that the result is non-negative. A
  bound `Dim` is compared. So an empty row-splits tensor binds
  `batch_size = -1`.
- A device is CPU, CUDA or another device kind named by a string, so points
  and queries on two different non-CUDA kinds are told apart as the device
  type check does.
- Running on CUDA, compiling with CUDA and the dtype test
  `CompareTorchDtype<float>` (element type `Float32`) are parameters of the
  model, not conditional compilation.

## Model

| member | source | states |
|---|---|---|
| Metrics.ParseMetric | src/FixedRadiusSearchOps.cpp:57-74 | decoding succeeds exactly when the string is the tag of some metric, and yields the metric whose tag it is; any other string fails with UnknownMetric carrying the string |
| Metrics.ParseTag | fixedneighborsearch/src/FixedRadiusSearchOps.cpp:51-68 | decoding the tag of each metric (L1, L2, Linf) gives that metric back; both copies of FixedRadiusSearch decode through this same ParseMetric, by way of CheckSearchArgs |
| HashTableSizing.TruncToInt | src/FixedRadiusSearchOps.cpp:193-194 | the double-to-int64 conversion truncates toward zero: the result has the sign of the input and lies within one of it, on the side of zero |
| HashTableSizing.TableSize | src/FixedRadiusSearchOps.cpp:193-195 | a batch's table size never exceeds max_hash_table_size, and when that is at least 1 the size is at least 1 |
| HashTableSizing.TableSizeCases | src/FixedRadiusSearchOps.cpp:193-195 | the size is trunc(factor*n) when that lies in [1, max], 1 when it is below 1 (and max >= 1), and max when it exceeds max or max < 1 |
| HashTableSizing.EmptyBatchTableSize | src/FixedRadiusSearchOps.cpp:190-195 | a batch with no points gets a table of size 1 when max >= 1 |
| HashTableSizing.BatchTableSizes | src/FixedRadiusSearchOps.cpp:188-195 | one size per batch (batch_size entries), entry i computed from row_splits[i+1] - row_splits[i]; each lies in [1, max] when max >= 1 |
| HashTableSizing.PrefixSumsU32 | src/FixedRadiusSearchOps.cpp:187-197 | the split vector has one more entry than there are batches and starts at 0 |
| HashTableSizing.HashTableSplits | src/FixedRadiusSearchOps.cpp:187-197 | hash_table_splits of a row-splits vector: one entry per row split (batch_size+1), starting at 0; its contents are given by HashTableSplitsStep and the no-wrap lemmas |
| HashTableSizing.PrefixSumsStep | src/FixedRadiusSearchOps.cpp:196 | each split is the previous split plus the size between them, modulo 2^32 |
| HashTableSizing.PrefixSumsInRange | src/FixedRadiusSearchOps.cpp:187 | every split is a uint32_t value |
| HashTableSizing.HashTableSplitsStep | src/FixedRadiusSearchOps.cpp:187-197 | hash_table_splits has length batch_size+1, entry 0 is 0, every entry is a uint32_t, and splits[i+1] = (splits[i] + table size of batch i) mod 2^32 |
| HashTableSizing.PrefixSumsAreWrappedSums | src/FixedRadiusSearchOps.cpp:187-197 | whatever the sizes (even negative ones when max < 1), split k is the exact sum of the first k sizes modulo 2^32 |
| HashTableSizing.SumBounds | src/FixedRadiusSearchOps.cpp:193-196 | when every size lies in [1, max], the total of k sizes lies in [k, k*max] |
| HashTableSizing.NoWrapPrefixSums | src/FixedRadiusSearchOps.cpp:187-197 | with positive sizes whose total fits in 32 bits, each split is the exact partial sum, consecutive splits differ by exactly the size, splits strictly increase and the last is the total |
| HashTableSizing.TotalTableSizeBounds | src/FixedRadiusSearchOps.cpp:188-196 | with max >= 1, the total size of all tables lies between batch_size and batch_size*max |
| HashTableSizing.HashTableSplitsNoWrap | src/FixedRadiusSearchOps.cpp:187-197 | with max >= 1 and a total table size below 2^32: splits[0] = 0, splits[i+1] - splits[i] equals batch i's table size, the splits strictly increase, and splits.back() is the total table size |
| HashTableSizing.HashTableSplitsNoWrapWorstCase | src/FixedRadiusSearchOps.cpp:187-197 | with max >= 1 and batch_size*max < 2^32, whatever the row splits: the same strict increase and last entry equal to the total |
| HashTableSizing.ToInt32 | src/FixedRadiusSearchOps.cpp:214 | the stored int32 value is in int32 range, congruent to the uint32 split modulo 2^32, and equal to it below 2^31 |
| HashTableSizing.Int32SplitsAreExactSums | src/FixedRadiusSearchOps.cpp:210-215 | with max >= 1 and a total table size below 2^31, every returned int32 split is the exact sum of the table sizes of the batches before it |
| HashTableSizing.CellSplitsLength | src/FixedRadiusSearchOps.cpp:206-208 | hash_table_cell_splits has splits.back()+1 entries in uint32_t arithmetic: exactly back()+1 below 2^32, and 0 when back() is 2^32-1 |
| HashTableSizing.CellSplitsCountCells | src/FixedRadiusSearchOps.cpp:196-208 | with max >= 1 and a total table size below 2^32 - 1, hash_table_cell_splits has one entry per cell of all tables together, plus one |
| HashTableSizing.Int32SplitsExactWorstCase | src/FixedRadiusSearchOps.cpp:196-215 | with max >= 1 and batch_size*max < 2^31, whatever the row splits: the int32 splits are the exact partial sums and the cell-splits length is the total plus one |
| FixedRadiusSearchOps.ComputeHashTableSplits | src/FixedRadiusSearchOps.cpp:187-197 | the loop over a zero-initialised vector of batch_size+1 entries leaves exactly HashTableSplits of the row splits |
| FixedRadiusSearchOps.CopyHashTableSplits | src/FixedRadiusSearchOps.cpp:210-215 | every entry of the int32 output is the int32 reinterpretation of the same entry of hash_table_splits, and only the output array is written |
| FixedRadiusSearchOps.BuildSpatialHashTable | src/FixedRadiusSearchOps.cpp:164-242 | a non-int64 row-splits tensor fails first, then a points tensor not of shape [n,3]; success exactly for well-shaped float32 CUDA points in a CUDA build, else NotCompiledWithCuda or UnsupportedPoints; on success the index has one int32 slot per point, the cell splits have CellSplitsLength(splits) entries, and the returned splits have batch_size+1 entries equal to ToInt32 of HashTableSplits |
| SearchArguments.CheckSearchArgs | src/FixedRadiusSearchOps.cpp:57-108 | the checks pass exactly when the metric tag is known, the splits and index tensors have their required int types, points and queries agree in dtype and device, index_dtype is int32 or int64, points/queries are [n,3], hash_table_index has num_points entries and the three splits arrays share one length batch_size+1; an unknown metric is reported before any other check, type failures before shape failures |
| SearchArguments.NeighborsRowSplits | src/FixedRadiusSearchOps.cpp:116-118 | neighbors_row_splits is a one-dimensional int64 tensor on the points' device with one entry per query plus one |
| SearchArguments.KernelFor | src/FixedRadiusSearchOps.cpp:133-140 | index_dtype selects the kernel instantiation: int32 indices for Int32, int64 for Int64, and always one of the two |
| FixedRadiusSearchOps.FixedRadiusSearch | src/FixedRadiusSearchOps.cpp:43-152 | returns exactly for admissible float32 CUDA points in a CUDA build, with the kernel instantiated for index_dtype and neighbors_row_splits of num_queries+1 int64 entries; admissible CUDA points without CUDA support fail NotCompiledWithCuda, and admissible non-CUDA points, or non-float CUDA points in a CUDA build, fail UnsupportedPoints |
| PackageFixedRadiusSearchOps.FixedRadiusSearch | fixedneighborsearch/src/FixedRadiusSearchOps.cpp:37-148 | returns exactly for admissible arguments unless the points are on CUDA without CUDA support; neighbors_row_splits always has num_queries+1 int64 entries on the points' device; the kernel runs exactly for float32 CUDA points, instantiated for index_dtype; an unknown metric fails first; it never fails with UnsupportedPoints |
| PackageFixedRadiusSearchOps.CopiesDifferOnlyOnUnsupportedPoints | fixedneighborsearch/src/FixedRadiusSearchOps.cpp:121-147 | whenever the src/ copy returns, this copy returns the same; the two differ exactly when the src/ copy fails with UnsupportedPoints, and there this copy returns unfilled outputs |

## Left out

- The CUDA kernels `BuildSpatialHashTableCUDA` and `FixedRadiusSearchCUDA`
  (grid hashing, the 27-cell traversal, distance filtering and filling the
  neighbour arrays) are not part of this model; their sources are not among
  the modelled files. The model records only whether the kernel runs, the
  index type it is instantiated for, and which outputs it is given.
- The contents of `hash_table_index`, `hash_table_cell_splits` and of the
  search outputs are written by those kernels. They are modelled by their
  shapes only.
- Torch plumbing is left out because it changes no modelled value:
  `.to(kCPU)`, `.contiguous()`, `torch::empty`, the device index and
  `ToTorchDtype`. The error message texts are reduced to `Error`
  constructors.
- The shape-checking helpers (`Helper.h`) and `NeighborSearchCommon.h` are
  not part of this model. The `CHECK_SHAPE` reading above and the metric
  enumeration are taken as stated.
- IEEE-754 rounding of `factor * n` is not modelled, and neither is the
  undefined conversion of a double outside the `int64_t` range. The product
  is exact and then truncated.
- Overflow of `int64_t` is not modelled, in `row_splits[i+1] - row_splits[i]`
  or in `hash_table_splits[i] + hash_table_size`. Both are undefined
  behaviour in C++. The second is reachable once `max_hash_table_size` and
  the scaled point count exceed 2^63 - 2^32.
  Neither is the `int` loop counter of the split loop, so more than 2^31
  batches are not covered.
- BuildSpatialHashTable: requires a non-empty row-splits tensor once the type
  and `points` checks pass. An empty one binds `batch_size = -1`, and the
  source then reads `back()` of an empty vector, which is undefined
  behaviour.
- `radius`, `ignore_query_point` and `return_distances` are passed only to
  the kernels. They have no effect in the model.
- The pybind11 module registration, the Python `FixedRadiusSearch` module
  wrapper (its defaults and `index_dtype` assertion), the build scripts and
  `Macro.h` are left out. They are glue around the modelled functions.
