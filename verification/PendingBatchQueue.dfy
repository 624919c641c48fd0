/** The queue object itself: each locked method is one step of `QueueModel`. */
module PendingBatches {
  import opened Types
  import opened QueueModel

  class PendingBatchQueue {
    const capacity: nat
    var batches: seq<PendingBatch>
    var droppedBatches: UInt64

    function State(): Queue
      reads this
    {
      Queue(capacity, batches, droppedBatches)
    }

    ghost predicate Valid()
      reads this
    {
      QueueInv(State())
    }

    constructor (requested: nat)
      ensures Valid() && batches == [] && droppedBatches == 0
      ensures capacity == if requested == 0 then 256 else requested
    {
      capacity := if requested == 0 then DEFAULT_CAPACITY else requested;
      batches, droppedBatches := [], 0;
    }

    method Enqueue(batch: MetricBatch) returns (result: EnqueueResult)
      requires Valid()
      modifies this
      ensures Valid() && (State(), result) == QueueModel.Enqueue(old(State()), batch)
    {
      EnqueueKeepsInv(State(), batch);
      if batch.clientId == "" || batch.batchId == "" || batch.metrics == [] {
        return InvalidBatch;
      }
      if FindId(batches, batch.batchId) != |batches| {
        return DuplicateBatch;
      }
      result := Enqueued;
      if |batches| == capacity {
        var oldestPending := FirstPending(batches);
        if oldestPending == |batches| {
          droppedBatches := (droppedBatches + 1) % TWO_64;
          return RejectedAllInFlight;
        }
        batches := RemoveAt(batches, oldestPending);
        droppedBatches := (droppedBatches + 1) % TWO_64;
        result := DroppedOldest;
      }
      batches := batches + [PendingBatch(batch, false)];
    }

    method MarkNextInFlight() returns (next: Option<MetricBatch>)
      requires Valid()
      modifies this
      ensures Valid() && (State(), next) == QueueModel.MarkNextInFlight(old(State()))
    {
      MarkKeepsInv(State());
      var nextPending := FirstPending(batches);
      if nextPending == |batches| {
        return None;
      }
      batches := batches[nextPending := batches[nextPending].(inFlight := true)];
      return Some(batches[nextPending].batch);
    }

    method Acknowledge(batchId: string) returns (removed: bool)
      requires Valid()
      modifies this
      ensures Valid() && (State(), removed) == QueueModel.Acknowledge(old(State()), batchId)
    {
      AcknowledgeKeepsInv(State(), batchId);
      var acknowledged := FindId(batches, batchId);
      if acknowledged == |batches| {
        return false;
      }
      batches := RemoveAt(batches, acknowledged);
      return true;
    }

    method ResetInFlight()
      requires Valid()
      modifies this
      ensures Valid() && State() == QueueModel.ResetInFlight(old(State()))
    {
      ResetKeepsInv(State());
      for i := 0 to |batches|
        invariant |batches| == old(|batches|) && droppedBatches == old(droppedBatches)
        invariant forall k :: 0 <= k < i ==> batches[k] == old(batches)[k].(inFlight := false)
        invariant forall k :: i <= k < |batches| ==> batches[k] == old(batches)[k]
      {
        batches := batches[i := batches[i].(inFlight := false)];
      }
    }

    method Size() returns (size: nat)
      requires Valid()
      ensures size == |batches| <= capacity
    {
      size := |batches|;
    }
  }
}
