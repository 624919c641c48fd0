/** The wire messages and machine integers shared by the agent and the aggregator. */
module Types {
  const INT64_MIN: int := -0x8000_0000_0000_0000
  const INT64_MAX: int := 0x7FFF_FFFF_FFFF_FFFF
  const TWO_32: int := 0x1_0000_0000
  const TWO_64: int := 0x1_0000_0000_0000_0000

  type Int64 = x: int | INT64_MIN <= x <= INT64_MAX
  type UInt32 = x: int | 0 <= x < TWO_32
  type UInt64 = x: int | 0 <= x < TWO_64

  datatype Option<+T> = None | Some(value: T)
  datatype Result<+T, +E> = Ok(value: T) | Err(error: E)

  /** A C++ `double`: only finiteness and, when finite, the real value matter here. */
  datatype Double = Finite(r: real) | NonFinite

  datatype Metric = Metric(
    name: string, value: Double, tags: map<string, string>, timestampMs: Int64, sourceClientId: string)

  datatype MetricBatch = MetricBatch(clientId: string, batchId: string, metrics: seq<Metric>)

  /** The per-metric check made both by the agent's builder and by the store. */
  predicate ValidMetric(m: Metric) {
    m.name != "" && m.value.Finite?
  }

  predicate ValidBatch(b: MetricBatch) {
    && b.clientId != ""
    && b.batchId != ""
    && b.metrics != []
    && forall i :: 0 <= i < |b.metrics| ==> ValidMetric(b.metrics[i])
  }
}
