/** FixedRadiusSearch as written in fixedneighborsearch/src/FixedRadiusSearchOps.cpp.
    Its checks are those of the other copy; it differs once no kernel
    applies: it then returns its outputs unfilled instead of failing, and its
    final "does not support" failure is never reached. */
module PackageFixedRadiusSearchOps {
  import opened Tensors
  import opened Metrics
  import opened SearchArguments
  import Ops = FixedRadiusSearchOps

  function FixedRadiusSearch(a: SearchArgs, cudaBuilt: bool): (r: Result<SearchOutputs>)
    ensures r.Ok? <==> Admissible(a) && (a.points.device == CUDA ==> cudaBuilt)
    ensures r.Ok? ==> && (r.value.kernel.Ran? <==> a.points.device == CUDA && a.points.dtype == Float32)
                      && (r.value.kernel.Ran? ==> r.value.kernel.indexDtype == a.indexDtype)
                      && r.value.neighborsRowSplits == Tensor(Int64, a.points.device, [a.queries.shape[0] + 1])
    ensures !IsMetricTag(a.metric) ==> r == Err(UnknownMetric(a.metric))
    ensures Admissible(a) && a.points.device == CUDA && !cudaBuilt ==> r == Err(NotCompiledWithCuda("FixedRadiusSearch"))
    // the unsupported-points failure is unreachable
    ensures r.Err? ==> !r.error.UnsupportedPoints?
  {
    match CheckSearchArgs(a)
    case Err(e) => Err(e)
    case Ok(c) =>
      var rowSplits := NeighborsRowSplits(a.points, c.numQueries);
      if a.points.device == CUDA && !cudaBuilt then Err(NotCompiledWithCuda("FixedRadiusSearch"))
      else if a.points.device == CUDA && a.points.dtype == Float32 then Ok(SearchOutputs(KernelFor(a.indexDtype), rowSplits))
      else Ok(SearchOutputs(NotRun, rowSplits))
  }

  /** The two copies agree except where the other one reports unsupported
      points: there this one returns its outputs with no kernel run. */
  lemma CopiesDifferOnlyOnUnsupportedPoints(a: SearchArgs, cudaBuilt: bool)
    ensures Ops.FixedRadiusSearch(a, cudaBuilt).Ok? ==> FixedRadiusSearch(a, cudaBuilt) == Ops.FixedRadiusSearch(a, cudaBuilt)
    ensures FixedRadiusSearch(a, cudaBuilt) != Ops.FixedRadiusSearch(a, cudaBuilt) <==>
      Ops.FixedRadiusSearch(a, cudaBuilt) == Err(UnsupportedPoints("FixedRadiusSearch", a.points))
    ensures Ops.FixedRadiusSearch(a, cudaBuilt) == Err(UnsupportedPoints("FixedRadiusSearch", a.points)) ==>
      FixedRadiusSearch(a, cudaBuilt).Ok? && FixedRadiusSearch(a, cudaBuilt).value.kernel == NotRun
  {
  }
}
