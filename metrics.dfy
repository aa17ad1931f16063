/** The distance metric selector and the decoder of its textual tag. */
module Metrics {
  import opened Tensors

  datatype Metric = L1 | L2 | Linf

  /** The literal tag a caller passes to select each metric. */
  function Tag(m: Metric): string
  {
    match m
    case L1 => "L1"
    case L2 => "L2"
    case Linf => "Linf"
  }

  /** Decodes a metric tag; only the three literal tags are accepted. */
  function ParseMetric(s: string): (r: Result<Metric>)
    ensures r.Ok? ==> Tag(r.value) == s
    ensures r.Err? ==> r.error == UnknownMetric(s)
    ensures r.Err? <==> forall m: Metric :: Tag(m) != s
  {
    if s == "L1" then Ok(L1)
    else if s == "L2" then Ok(L2)
    else if s == "Linf" then Ok(Linf)
    else Err(UnknownMetric(s))
  }

  /** The strings that select a metric. */
  predicate IsMetricTag(s: string)
  {
    ParseMetric(s).Ok?
  }

  /** Decoding the tag of a metric gives that metric back. */
  lemma ParseTag(m: Metric)
    ensures ParseMetric(Tag(m)) == Ok(m)
  {
  }
}
