/** The builder object: `BuilderModel` carried out in place. */
module BatchBuilding {
  import opened Types
  import opened Numerals
  import opened BuilderModel

  /** `built` is every batch made so far; together with the counter it fixes all identifiers. */
  class BatchBuilder {
    const clientId: string
    const sessionNonce: UInt64
    var nextSequence: UInt64
    ghost var built: seq<MetricBatch>

    function State(): Builder
      reads this
    {
      Builder(clientId, sessionNonce, nextSequence)
    }

    ghost predicate Valid()
      reads this
    {
      && nextSequence == SequenceOf(|built|)
      && forall i :: 0 <= i < |built| ==>
           ValidBatch(built[i]) && built[i].clientId == clientId
           && built[i].batchId == BatchId(clientId, sessionNonce, SequenceOf(i))
    }

    constructor (clientId: string, sessionNonce: UInt64)
      ensures Valid() && built == []
      ensures State() == Builder(clientId, sessionNonce, 1)
    {
      this.clientId, this.sessionNonce, nextSequence, built := clientId, sessionNonce, 1, [];
    }

    method NextBatchId() returns (id: string)
      modifies this`nextSequence
      ensures id == BatchId(clientId, sessionNonce, old(nextSequence))
      ensures nextSequence == (old(nextSequence) + 1) % TWO_64
    {
      var sequence := nextSequence;
      nextSequence := (nextSequence + 1) % TWO_64;
      id := clientId + "-" + Hex16(sessionNonce) + "-" + Numeral(sequence, 10);
    }

    method Build(metrics: seq<Metric>) returns (r: Result<MetricBatch, BuildError>)
      requires Valid()
      modifies this
      ensures Valid()
      ensures (State(), r) == BuilderModel.Build(old(State()), metrics)
      ensures built == if r.Ok? then old(built) + [r.value] else old(built)
    {
      hide Numeral, Hex16;
      BuildMeaning(State(), metrics);
      if clientId == "" {
        return Err(EmptyClientId);
      }
      if metrics == [] {
        return Err(EmptyMetrics);
      }
      for i := 0 to |metrics|
        invariant unchanged(this)
        invariant forall k :: 0 <= k < i ==> ValidMetric(metrics[k])
      {
        if !ValidMetric(metrics[i]) {
          return Err(InvalidMetric);
        }
      }
      var id := NextBatchId();
      var batch := MetricBatch(clientId, id, []);
      for i := 0 to |metrics|
        invariant batch == MetricBatch(clientId, id, metrics[..i])
      {
        batch := batch.(metrics := batch.metrics + [metrics[i]]);
      }
      assert metrics[..|metrics|] == metrics;
      built := built + [batch];
      return Ok(batch);
    }
  }
}
