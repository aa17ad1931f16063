/** The host side of the two operations in src/FixedRadiusSearchOps.cpp:
    BuildSpatialHashTable (argument checks, per-batch table sizing, output
    allocation, backend choice) and FixedRadiusSearch (argument checks and
    backend choice). The CUDA kernels they hand over to are not modelled. */
module FixedRadiusSearchOps {
  import opened Tensors
  import opened HashTableSizing
  import opened Metrics
  import opened SearchArguments

  /** The three tensors BuildSpatialHashTable returns. The contents of index
      and cellSplits are written by the CUDA kernel; those of the returned
      splits (a CPU int32 tensor) are splitsValues. */
  datatype HashTable = HashTable(index: Tensor, cellSplits: Tensor, splits: Tensor, splitsValues: seq<int>)

  /** The loop filling hash_table_splits: a zero-initialised vector of
      batch_size + 1 entries, each entry the previous one plus the batch's
      table size, in uint32_t arithmetic. */
  method ComputeHashTableSplits(rowSplits: seq<int>, factor: real, maxSize: int) returns (splits: seq<int>)
    requires |rowSplits| >= 1
    ensures splits == HashTableSplits(rowSplits, factor, maxSize)
  {
    var batchSize := |rowSplits| - 1;
    ghost var sizes := BatchTableSizes(rowSplits, factor, maxSize);
    ghost var spec := PrefixSumsU32(sizes);
    // the vector starts as zeros; every entry but the first is overwritten below
    var table := new int[batchSize + 1];
    table[0] := 0;
    var i := 0;
    while i < batchSize
      invariant 0 <= i <= batchSize
      invariant forall k :: 0 <= k <= i ==> table[k] == spec[k]
    {
      var numPoints := rowSplits[i + 1] - rowSplits[i];
      var size := TableSize(numPoints, factor, maxSize);
      PrefixSumsStep(sizes, i);
      table[i + 1] := (table[i] + size) % U32;
      i := i + 1;
    }
    splits := table[..];
    assert splits == spec;
  }

  /** The loop copying hash_table_splits element-wise into the int32 tensor
      that is returned; every entry is written and nothing else. */
  method CopyHashTableSplits(splits: seq<int>, out: array<int>)
    requires out.Length == |splits|
    requires forall k :: 0 <= k < |splits| ==> 0 <= splits[k] < U32
    modifies out
    ensures forall k :: 0 <= k < out.Length ==> out[k] == ToInt32(splits[k])
  {
    for i := 0 to |splits|
      invariant forall k :: 0 <= k < i ==> out[k] == ToInt32(splits[k])
    {
      out[i] := ToInt32(splits[i]);
    }
  }

  /** BuildSpatialHashTable: checks the row-splits type and the shapes, sizes
      the tables, allocates the outputs and hands over to the CUDA builder,
      which exists only for float32 points on a CUDA device in a CUDA build. */
  method BuildSpatialHashTable(points: Tensor, radius: real, pointsRowSplits: Tensor, rowSplitsValues: seq<int>,
                               factor: real, maxSize: int, cudaBuilt: bool)
    returns (r: Result<HashTable>)
    // the tensor's contents match its shape
    requires |pointsRowSplits.shape| == 1 ==> |rowSplitsValues| == pointsRowSplits.shape[0]
    // an empty row-splits tensor passes the checks and then reads the last
    // element of an empty vector, which is undefined behaviour
    requires pointsRowSplits.dtype == Int64 && IsPointMatrix(points) ==> pointsRowSplits.shape != [0]
    ensures pointsRowSplits.dtype != Int64 ==> r == Err(WrongDtype("points_row_splits", Int64, pointsRowSplits.dtype))
    ensures pointsRowSplits.dtype == Int64 && !IsPointMatrix(points) ==> r == Err(ShapeMismatch("points"))
    ensures r.Ok? <==> && pointsRowSplits.dtype == Int64 && IsPointMatrix(points) && |pointsRowSplits.shape| == 1
                       && points.device == CUDA && cudaBuilt && points.dtype == Float32
    ensures r.Err? && points.device == CUDA && !cudaBuilt && pointsRowSplits.dtype == Int64 && IsPointMatrix(points)
              && |pointsRowSplits.shape| == 1
            ==> r.error == NotCompiledWithCuda("BuildSpatialHashTable")
    ensures r.Err? && pointsRowSplits.dtype == Int64 && IsPointMatrix(points) && |pointsRowSplits.shape| == 1
              && (points.device != CUDA || cudaBuilt)
            ==> r.error == UnsupportedPoints("BuildSpatialHashTable", points)
    ensures r.Ok? ==>
      var splits := HashTableSplits(rowSplitsValues, factor, maxSize);
      && r.value.index == Tensor(Int32, points.device, [points.shape[0]])
      && r.value.cellSplits == Tensor(Int32, points.device, [CellSplitsLength(splits)])
      && r.value.splits == Tensor(Int32, CPU, [|rowSplitsValues|])
      && |r.value.splitsValues| == |rowSplitsValues|
      && forall k :: 0 <= k < |rowSplitsValues| ==> r.value.splitsValues[k] == ToInt32(splits[k])
  {
    if pointsRowSplits.dtype != Int64 {
      return Err(WrongDtype("points_row_splits", Int64, pointsRowSplits.dtype));
    }
    if !IsPointMatrix(points) {
      return Err(ShapeMismatch("points"));
    }
    if |pointsRowSplits.shape| != 1 {
      return Err(ShapeMismatch("points_row_splits"));
    }
    var splits := ComputeHashTableSplits(rowSplitsValues, factor, maxSize);
    HashTableSplitsStep(rowSplitsValues, factor, maxSize);
    var index := Tensor(Int32, points.device, [points.shape[0]]);
    var cellSplits := Tensor(Int32, points.device, [CellSplitsLength(splits)]);
    var out := new int[|splits|];
    CopyHashTableSplits(splits, out);
    if points.device == CUDA {
      if !cudaBuilt {
        return Err(NotCompiledWithCuda("BuildSpatialHashTable"));
      }
      if points.dtype == Float32 {
        return Ok(HashTable(index, cellSplits, Tensor(Int32, CPU, [|splits|]), out[..]));
      }
    }
    return Err(UnsupportedPoints("BuildSpatialHashTable", points));
  }

  /** FixedRadiusSearch: after the argument checks, only float32 points on a
      CUDA device in a CUDA build reach the search kernel; every other input
      ends in an error. */
  function FixedRadiusSearch(a: SearchArgs, cudaBuilt: bool): (r: Result<SearchOutputs>)
    ensures r.Ok? <==> Admissible(a) && a.points.device == CUDA && cudaBuilt && a.points.dtype == Float32
    ensures r.Ok? ==> r.value.kernel == Ran(a.indexDtype)
                      && r.value.neighborsRowSplits == Tensor(Int64, CUDA, [a.queries.shape[0] + 1])
    ensures !IsMetricTag(a.metric) ==> r == Err(UnknownMetric(a.metric))
    ensures Admissible(a) && a.points.device == CUDA && !cudaBuilt ==> r == Err(NotCompiledWithCuda("FixedRadiusSearch"))
    ensures Admissible(a) && (a.points.device != CUDA || (cudaBuilt && a.points.dtype != Float32))
            ==> r == Err(UnsupportedPoints("FixedRadiusSearch", a.points))
  {
    match CheckSearchArgs(a)
    case Err(e) => Err(e)
    case Ok(c) =>
      var rowSplits := NeighborsRowSplits(a.points, c.numQueries);
      if a.points.device == CUDA && !cudaBuilt then Err(NotCompiledWithCuda("FixedRadiusSearch"))
      else if a.points.device == CUDA && a.points.dtype == Float32 then Ok(SearchOutputs(KernelFor(a.indexDtype), rowSplits))
      else Err(UnsupportedPoints("FixedRadiusSearch", a.points))
  }
}
