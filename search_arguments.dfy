/** The argument checks that both copies of FixedRadiusSearch perform, in the
    order they perform them, before choosing a backend. */
module SearchArguments {
  import opened Tensors
  import opened Metrics

  datatype SearchArgs = SearchArgs(
    points: Tensor,
    queries: Tensor,
    radius: real,
    pointsRowSplits: Tensor,
    queriesRowSplits: Tensor,
    hashTableSplits: Tensor,
    hashTableIndex: Tensor,
    hashTableCellSplits: Tensor,
    indexDtype: ScalarType,
    metric: string,
    ignoreQueryPoint: bool,
    returnDistances: bool)

  /** What the checks establish: the decoded metric and the bound dimensions.
      batchSize and numCells are the row-splits lengths minus one. */
  datatype Checked = Checked(metric: Metric, numPoints: nat, numQueries: nat, batchSize: int, numCells: int)

  /** The element-type and device requirements on the arguments. */
  predicate TypesAdmissible(a: SearchArgs)
  {
    && a.pointsRowSplits.dtype == Int64
    && a.queriesRowSplits.dtype == Int64
    && a.hashTableSplits.dtype == Int32
    && a.hashTableIndex.dtype == Int32
    && a.hashTableCellSplits.dtype == Int32
    && a.points.dtype == a.queries.dtype
    && a.points.device == a.queries.device
    && (a.indexDtype == Int32 || a.indexDtype == Int64)
  }

  /** The shape requirements: points and queries have three columns, the
      hash table index has one entry per point, the three splits arrays share
      one length batch_size + 1, and the cell splits are one-dimensional. */
  predicate ShapesAdmissible(a: SearchArgs)
  {
    && IsPointMatrix(a.points)
    && a.hashTableIndex.shape == [a.points.shape[0]]
    && IsPointMatrix(a.queries)
    && |a.pointsRowSplits.shape| == 1
    && a.queriesRowSplits.shape == a.pointsRowSplits.shape
    && a.hashTableSplits.shape == a.pointsRowSplits.shape
    && |a.hashTableCellSplits.shape| == 1
  }

  predicate Admissible(a: SearchArgs)
  {
    IsMetricTag(a.metric) && TypesAdmissible(a) && ShapesAdmissible(a)
  }

  /** The checks, each reporting the first requirement that fails. */
  function CheckSearchArgs(a: SearchArgs): (r: Result<Checked>)
    ensures r.Ok? <==> Admissible(a)
    ensures r.Ok? ==> && Tag(r.value.metric) == a.metric
                      && r.value.numPoints == a.points.shape[0]
                      && r.value.numQueries == a.queries.shape[0]
                      && r.value.batchSize + 1 == a.pointsRowSplits.shape[0]
                      && r.value.numCells + 1 == a.hashTableCellSplits.shape[0]
    // an unknown metric is reported before anything else is looked at
    ensures !IsMetricTag(a.metric) ==> r == Err(UnknownMetric(a.metric))
    // type checks come before shape checks
    ensures r.Err? && r.error.ShapeMismatch? ==> IsMetricTag(a.metric) && TypesAdmissible(a)
    ensures IsMetricTag(a.metric) && a.indexDtype != Int32 && a.indexDtype != Int64 ==> r.Err?
  {
    match ParseMetric(a.metric)
    case Err(e) => Err(e)
    case Ok(metric) =>
      if a.pointsRowSplits.dtype != Int64 then Err(WrongDtype("points_row_splits", Int64, a.pointsRowSplits.dtype))
      else if a.queriesRowSplits.dtype != Int64 then Err(WrongDtype("queries_row_splits", Int64, a.queriesRowSplits.dtype))
      else if a.hashTableSplits.dtype != Int32 then Err(WrongDtype("hash_table_splits", Int32, a.hashTableSplits.dtype))
      else if a.hashTableIndex.dtype != Int32 then Err(WrongDtype("hash_table_index", Int32, a.hashTableIndex.dtype))
      else if a.hashTableCellSplits.dtype != Int32 then Err(WrongDtype("hash_table_cell_splits", Int32, a.hashTableCellSplits.dtype))
      else if a.points.dtype != a.queries.dtype then Err(DtypeMismatch("points", "queries"))
      else if a.points.device != a.queries.device then Err(DeviceMismatch("points", "queries"))
      else if a.indexDtype != Int32 && a.indexDtype != Int64 then Err(UnsupportedIndexDtype(a.indexDtype))
      else if !IsPointMatrix(a.points) then Err(ShapeMismatch("points"))
      else
        var numPoints := a.points.shape[0];
        if a.hashTableIndex.shape != [numPoints] then Err(ShapeMismatch("hash_table_index"))
        else if !IsPointMatrix(a.queries) then Err(ShapeMismatch("queries"))
        else
          var numQueries := a.queries.shape[0];
          if |a.pointsRowSplits.shape| != 1 then Err(ShapeMismatch("points_row_splits"))
          else
            var batchSize := a.pointsRowSplits.shape[0] as int - 1;
            if a.queriesRowSplits.shape != [batchSize + 1] then Err(ShapeMismatch("queries_row_splits"))
            else if a.hashTableSplits.shape != [batchSize + 1] then Err(ShapeMismatch("hash_table_splits"))
            else if |a.hashTableCellSplits.shape| != 1 then Err(ShapeMismatch("hash_table_cell_splits"))
            else Ok(Checked(metric, numPoints, numQueries, batchSize, a.hashTableCellSplits.shape[0] as int - 1))
  }

  /** Whether the search kernel ran, and if so the index type of the
      instantiation that ran (int32_t or int64_t indices). */
  datatype KernelCall = NotRun | Ran(indexDtype: ScalarType)

  /** What a search returns. When the kernel did not run, neighbors_index and
      neighbors_distance are undefined tensors and neighborsRowSplits is
      allocated but never written. */
  datatype SearchOutputs = SearchOutputs(kernel: KernelCall, neighborsRowSplits: Tensor)

  /** The kernel instantiation chosen by index_dtype: int32_t indices for
      Int32, int64_t indices otherwise. */
  function KernelFor(indexDtype: ScalarType): (k: KernelCall)
    ensures k.Ran?
    ensures indexDtype == Int32 || indexDtype == Int64 ==> k.indexDtype == indexDtype
    ensures k.indexDtype == Int32 || k.indexDtype == Int64
  {
    if indexDtype == Int32 then Ran(Int32) else Ran(Int64)
  }

  /** neighbors_row_splits: one int64 entry per query plus one, on the
      points' device. */
  function NeighborsRowSplits(points: Tensor, numQueries: nat): (t: Tensor)
    ensures t.dtype == Int64 && t.device == points.device
    ensures t.shape == [numQueries + 1]
  {
    Tensor(Int64, points.device, [numQueries + 1])
  }
}
