/**
 What a caller of the queue gets, told from the entries alone: for each operation the answer in every case,
 the entries afterwards and the drop counter; and over runs, that nothing is given up while there is room.
 */
module QueueOutcomes {
  import opened Types
  import opened QueueModel

  ghost predicate HasId(entries: seq<PendingBatch>, id: string) {
    exists k :: 0 <= k < |entries| && entries[k].batch.batchId == id
  }

  ghost predicate Malformed(b: MetricBatch) {
    b.clientId == "" || b.batchId == "" || b.metrics == []
  }

  /** Position `k` holds the oldest entry that is not in flight. */
  ghost predicate OldestPending(entries: seq<PendingBatch>, k: nat) {
    && k < |entries| && !entries[k].inFlight
    && forall j :: 0 <= j < k ==> entries[j].inFlight
  }

  ghost predicate AllInFlight(entries: seq<PendingBatch>) {
    forall j :: 0 <= j < |entries| ==> entries[j].inFlight
  }

  lemma HoldsIffHasId(q: Queue, id: string)
    ensures Holds(q, id) <==> HasId(q.entries, id)
  {
  }

  lemma FirstPendingIsOldest(entries: seq<PendingBatch>)
    ensures FirstPending(entries) == |entries| <==> AllInFlight(entries)
    ensures FirstPending(entries) < |entries| ==> OldestPending(entries, FirstPending(entries))
    ensures forall k: nat :: OldestPending(entries, k) ==> k == FirstPending(entries)
  {
  }

  /** Each answer of an enqueue, in both directions. */
  lemma EnqueueAnswer(q: Queue, b: MetricBatch)
    requires |q.entries| <= q.capacity
    ensures var r := Enqueue(q, b).1;
            var isNew := !Malformed(b) && !HasId(q.entries, b.batchId);
            && (r == InvalidBatch <==> Malformed(b))
            && (r == DuplicateBatch <==> !Malformed(b) && HasId(q.entries, b.batchId))
            && (r == Enqueued <==> isNew && |q.entries| < q.capacity)
            && (r == DroppedOldest <==> isNew && |q.entries| == q.capacity && !AllInFlight(q.entries))
            && (r == RejectedAllInFlight <==> isNew && |q.entries| == q.capacity && AllInFlight(q.entries))
  {
    HoldsIffHasId(q, b.batchId);
    FirstPendingIsOldest(q.entries);
    hide Holds, HasId, FirstPending, AllInFlight;
  }

  /** What each answer of an enqueue leaves behind. */
  lemma EnqueueEffect(q: Queue, b: MetricBatch)
    ensures var (next, r) := Enqueue(q, b);
            var added := [PendingBatch(b, false)];
            && next.capacity == q.capacity
            && (r == Enqueued ==> next.entries == q.entries + added && next.dropped == q.dropped)
            && (r == DroppedOldest ==>
                  exists k: nat :: OldestPending(q.entries, k) && next.entries == q.entries[..k] + q.entries[k + 1..] + added)
            && (r in {RejectedAllInFlight, InvalidBatch, DuplicateBatch} ==> next.entries == q.entries)
            && next.dropped ==
               (if r in {DroppedOldest, RejectedAllInFlight} then (q.dropped + 1) % 0x1_0000_0000_0000_0000 else q.dropped)
  {
    FirstPendingIsOldest(q.entries);
    hide FirstPending, OldestPending, AllInFlight, Holds;
    var r := Enqueue(q, b).1;
    if r == DroppedOldest {
      var k := FirstPending(q.entries);
      assert OldestPending(q.entries, k);
    }
  }

  /** What goes out next: the oldest pending batch, which is marked, and nothing when all are in flight. */
  lemma MarkAnswer(q: Queue)
    ensures var (next, sent) := MarkNextInFlight(q);
            && (sent == None <==> AllInFlight(q.entries))
            && (sent == None ==> next == q)
            && (sent.Some? ==>
                  exists k: nat :: OldestPending(q.entries, k) && sent.value == q.entries[k].batch
                           && next == q.(entries := q.entries[k := PendingBatch(q.entries[k].batch, true)]))
  {
    FirstPendingIsOldest(q.entries);
    hide FirstPending, OldestPending, AllInFlight;
    if FirstPending(q.entries) < |q.entries| {
      assert OldestPending(q.entries, FirstPending(q.entries));
    }
  }

  /** An acknowledgement removes the entry with the ID, wherever it stands and whether it is in flight or
      not, and nothing else; an unknown ID changes nothing. */
  lemma AcknowledgeAnswer(q: Queue, id: string)
    requires DistinctBatchIds(q.entries)
    ensures var (next, removed) := Acknowledge(q, id);
            && (removed <==> HasId(q.entries, id))
            && (!removed ==> next == q)
            && forall k :: 0 <= k < |q.entries| && q.entries[k].batch.batchId == id ==>
                 next == q.(entries := q.entries[..k] + q.entries[k + 1..])
  {
    HoldsIffHasId(q, id);
    forall k | 0 <= k < |q.entries| && q.entries[k].batch.batchId == id ensures k == FindId(q.entries, id) {
      FoundAt(q.entries, id, k);
    }
  }

  lemma AcknowledgeBatches(q: Queue, k: nat)
    requires DistinctBatchIds(q.entries) && k < |q.entries|
    ensures var (next, removed) := Acknowledge(q, q.entries[k].batch.batchId);
            var queued := Batches(q.entries);
            && removed && next.dropped == q.dropped
            && |queued| == |q.entries| && queued[k] == q.entries[k].batch
            && Batches(next.entries) == queued[..k] + queued[k + 1..]
  {
    hide Batches;
    FoundAt(q.entries, q.entries[k].batch.batchId, k);
    BatchesRemove(q.entries, k);
  }

  lemma FoundAt(entries: seq<PendingBatch>, id: string, k: nat)
    requires DistinctBatchIds(entries) && k < |entries| && entries[k].batch.batchId == id
    ensures FindId(entries, id) == k
  {
  }

  /** A reset clears every mark and keeps batches, order and counter. */
  lemma ResetAnswer(q: Queue)
    ensures var next := ResetInFlight(q);
            && next.capacity == q.capacity && next.dropped == q.dropped && |next.entries| == |q.entries|
            && forall k :: 0 <= k < |q.entries| ==> next.entries[k] == PendingBatch(q.entries[k].batch, false)
  {
  }

  /** An operation gives up a batch, the oldest pending one or the one offered, only on a full queue. */
  lemma GivesUpOnlyWhenFull(l: Ledger, op: Op)
    requires |l.queue.entries| <= l.queue.capacity
    requires |l.queue.entries| < l.queue.capacity || !op.EnqueueOp?
    ensures Apply(l, op).evicted == l.evicted && Apply(l, op).rejected == l.rejected
    ensures Apply(l, op).queue.dropped == l.queue.dropped
  {
    match op
    case EnqueueOp(b) => EnqueueAnswer(l.queue, b); EnqueueEffect(l.queue, b);
    case _ =>
  }

  /** The queue was full before operation `i` of the run. */
  ghost predicate FullBefore(capacity: nat, ops: seq<Op>, i: nat)
    requires i < |ops|
  {
    |Run(Queue(capacity, [], 0), ops[..i]).queue.entries| == capacity
  }

  /** So a run in which no batch is offered to a full queue gives up nothing, and the queue holds every
      batch it accepted and that has not been acknowledged. */
  lemma {:induction false} NothingGivenUpWithRoom(capacity: nat, ops: seq<Op>)
    requires capacity >= 1
    requires forall i :: 0 <= i < |ops| && ops[i].EnqueueOp? ==> !FullBefore(capacity, ops, i)
    ensures var l := Run(Queue(capacity, [], 0), ops);
            && l.evicted == [] && l.rejected == [] && l.queue.dropped == 0
            && multiset(l.accepted) == multiset(Batches(l.queue.entries)) + multiset(l.acknowledged)
  {
    hide FullBefore, Conserved, Counted;
    if ops != [] {
      var n := |ops| - 1;
      var init := ops[..n];
      forall i | 0 <= i < n && init[i].EnqueueOp? ensures !FullBefore(capacity, init, i) {
        SameBefore(capacity, ops, n, i);
      }
      NothingGivenUpWithRoom(capacity, init);
      QueueConserves(capacity, init);
      RunCapacity(Queue(capacity, [], 0), init);
      LastBefore(capacity, ops);
      hide QueueModel.Apply;
      GivesUpOnlyWhenFull(QueueModel.Run(Queue(capacity, [], 0), init), ops[n]);
    }
    QueueConserves(capacity, ops);
    NoneEvicted(Run(Queue(capacity, [], 0), ops));
  }

  lemma NoneEvicted(l: Ledger)
    requires Conserved(l) && l.evicted == []
    ensures multiset(l.accepted) == multiset(Batches(l.queue.entries)) + multiset(l.acknowledged)
  {
    hide Batches;
  }

  lemma SameBefore(capacity: nat, ops: seq<Op>, n: nat, i: nat)
    requires i < n <= |ops|
    ensures FullBefore(capacity, ops[..n], i) <==> FullBefore(capacity, ops, i)
  {
    assert ops[..n][..i] == ops[..i];
  }

  lemma LastBefore(capacity: nat, ops: seq<Op>)
    requires ops != []
    ensures FullBefore(capacity, ops, |ops| - 1) <==>
            |Run(Queue(capacity, [], 0), ops[..|ops| - 1]).queue.entries| == capacity
  {
  }

  lemma {:induction false} RunCapacity(q: Queue, ops: seq<Op>)
    ensures Run(q, ops).queue.capacity == q.capacity
  {
    hide FirstPending, Holds, FindId;
    if ops != [] {
      RunCapacity(q, ops[..|ops| - 1]);
    }
  }
}
