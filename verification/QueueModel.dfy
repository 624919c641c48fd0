/**
 The agent's bounded queue of unacknowledged batches: what each operation does, and what every run
 of operations keeps.
 */
module QueueModel {
  import opened Types
  import opened Sequences

  const DEFAULT_CAPACITY: nat := 256

  datatype PendingBatch = PendingBatch(batch: MetricBatch, inFlight: bool)
  datatype EnqueueResult = Enqueued | DroppedOldest | RejectedAllInFlight | InvalidBatch | DuplicateBatch
  datatype Queue = Queue(capacity: nat, entries: seq<PendingBatch>, dropped: UInt64)

  function RemoveAt<T>(s: seq<T>, i: nat): (r: seq<T>)
    requires i < |s|
    ensures |r| == |s| - 1
    ensures forall j :: 0 <= j < |r| ==> r[j] == if j < i then s[j] else s[j + 1]
  {
    s[..i] + s[i + 1..]
  }

  function FirstPendingFrom(entries: seq<PendingBatch>, from: nat): (k: nat)
    requires from <= |entries|
    ensures from <= k <= |entries|
    ensures forall j :: from <= j < k ==> entries[j].inFlight
    ensures k < |entries| ==> !entries[k].inFlight
    decreases |entries| - from
  {
    if from == |entries| || !entries[from].inFlight then from else FirstPendingFrom(entries, from + 1)
  }

  /** `std::ranges::find_if`: the first position that is not in flight, or the end. */
  function FirstPending(entries: seq<PendingBatch>): (k: nat)
    ensures k <= |entries|
  {
    FirstPendingFrom(entries, 0)
  }

  function FindIdFrom(entries: seq<PendingBatch>, id: string, from: nat): (k: nat)
    requires from <= |entries|
    ensures from <= k <= |entries|
    ensures forall j :: from <= j < k ==> entries[j].batch.batchId != id
    ensures k < |entries| ==> entries[k].batch.batchId == id
    decreases |entries| - from
  {
    if from == |entries| || entries[from].batch.batchId == id then from else FindIdFrom(entries, id, from + 1)
  }

  /** The first position holding the batch ID, or the end. */
  function FindId(entries: seq<PendingBatch>, id: string): (k: nat)
    ensures k <= |entries|
  {
    FindIdFrom(entries, id, 0)
  }

  predicate Queueable(b: MetricBatch) {
    b.clientId != "" && b.batchId != "" && b.metrics != []
  }

  predicate Holds(q: Queue, id: string) {
    FindId(q.entries, id) < |q.entries|
  }

  function CountDrop(dropped: UInt64): UInt64 {
    (dropped + 1) % TWO_64
  }

  function Enqueue(q: Queue, b: MetricBatch): (Queue, EnqueueResult) {
    if !Queueable(b) then (q, InvalidBatch)
    else if Holds(q, b.batchId) then (q, DuplicateBatch)
    else if |q.entries| == q.capacity then
      var oldest := FirstPending(q.entries);
      if oldest == |q.entries| then (q.(dropped := CountDrop(q.dropped)), RejectedAllInFlight)
      else
        (q.(entries := RemoveAt(q.entries, oldest) + [PendingBatch(b, false)], dropped := CountDrop(q.dropped)),
         DroppedOldest)
    else (q.(entries := q.entries + [PendingBatch(b, false)]), Enqueued)
  }

  function MarkNextInFlight(q: Queue): (Queue, Option<MetricBatch>) {
    var next := FirstPending(q.entries);
    if next == |q.entries| then (q, None)
    else (q.(entries := q.entries[next := q.entries[next].(inFlight := true)]), Some(q.entries[next].batch))
  }

  function Acknowledge(q: Queue, id: string): (Queue, bool) {
    var i := FindId(q.entries, id);
    if i == |q.entries| then (q, false) else (q.(entries := RemoveAt(q.entries, i)), true)
  }

  function AllPending(entries: seq<PendingBatch>): (r: seq<PendingBatch>)
    ensures |r| == |entries|
    ensures forall i :: 0 <= i < |r| ==> r[i] == entries[i].(inFlight := false)
  {
    if entries == [] then []
    else AllPending(entries[..|entries| - 1]) + [entries[|entries| - 1].(inFlight := false)]
  }

  function ResetInFlight(q: Queue): Queue {
    q.(entries := AllPending(q.entries))
  }

  // ----- the invariant the code never states

  ghost predicate DistinctBatchIds(entries: seq<PendingBatch>) {
    forall i, j :: 0 <= i < j < |entries| ==> entries[i].batch.batchId != entries[j].batch.batchId
  }

  /** In-flight entries are a prefix: what is behind the first pending entry is pending. */
  ghost predicate InFlightPrefix(entries: seq<PendingBatch>) {
    forall i :: FirstPending(entries) <= i < |entries| ==> !entries[i].inFlight
  }

  ghost predicate EntriesInv(entries: seq<PendingBatch>) {
    && InFlightPrefix(entries)
    && DistinctBatchIds(entries)
    && forall i :: 0 <= i < |entries| ==> Queueable(entries[i].batch)
  }

  ghost predicate QueueInv(q: Queue) {
    1 <= q.capacity && |q.entries| <= q.capacity && EntriesInv(q.entries)
  }

  lemma FirstPendingUnique(entries: seq<PendingBatch>, k: nat)
    requires k <= |entries|
    requires forall i :: 0 <= i < k ==> entries[i].inFlight
    requires k < |entries| ==> !entries[k].inFlight
    ensures FirstPending(entries) == k
  {
  }

  lemma RemoveKeepsInv(entries: seq<PendingBatch>, i: nat)
    requires EntriesInv(entries) && i < |entries|
    ensures EntriesInv(RemoveAt(entries, i))
    ensures var k := FirstPending(entries); FirstPending(RemoveAt(entries, i)) == if i < k then k - 1 else k
  {
    var k, r := FirstPending(entries), RemoveAt(entries, i);
    FirstPendingUnique(r, if i < k then k - 1 else k);
    forall x, y | 0 <= x < y < |r| ensures r[x].batch.batchId != r[y].batch.batchId {
      assert r[x] == entries[if x < i then x else x + 1] && r[y] == entries[if y < i then y else y + 1];
    }
  }

  lemma AppendKeepsInv(entries: seq<PendingBatch>, b: MetricBatch)
    requires EntriesInv(entries) && Queueable(b)
    requires forall i :: 0 <= i < |entries| ==> entries[i].batch.batchId != b.batchId
    ensures EntriesInv(entries + [PendingBatch(b, false)])
    ensures FirstPending(entries + [PendingBatch(b, false)]) == FirstPending(entries)
  {
    FirstPendingUnique(entries + [PendingBatch(b, false)], FirstPending(entries));
  }

  lemma EnqueueKeepsInv(q: Queue, b: MetricBatch)
    requires QueueInv(q)
    ensures QueueInv(Enqueue(q, b).0)
    ensures FirstPending(Enqueue(q, b).0.entries) == FirstPending(q.entries)
  {
    hide EntriesInv;
    if Queueable(b) && !Holds(q, b.batchId) {
      var oldest := FirstPending(q.entries);
      if |q.entries| < q.capacity {
        AppendKeepsInv(q.entries, b);
      } else if oldest < |q.entries| {
        RemoveKeepsInv(q.entries, oldest);
        AppendKeepsInv(RemoveAt(q.entries, oldest), b);
      }
    }
  }

  lemma MarkKeepsInv(q: Queue)
    requires QueueInv(q)
    ensures QueueInv(MarkNextInFlight(q).0)
    ensures var k := FirstPending(q.entries); k < |q.entries| ==> FirstPending(MarkNextInFlight(q).0.entries) == k + 1
  {
    var k := FirstPending(q.entries);
    if k < |q.entries| {
      FirstPendingUnique(MarkNextInFlight(q).0.entries, k + 1);
    }
  }

  lemma AcknowledgeKeepsInv(q: Queue, id: string)
    requires QueueInv(q)
    ensures QueueInv(Acknowledge(q, id).0)
  {
    if FindId(q.entries, id) < |q.entries| {
      RemoveKeepsInv(q.entries, FindId(q.entries, id));
    }
  }

  lemma ResetKeepsInv(q: Queue)
    requires QueueInv(q)
    ensures QueueInv(ResetInFlight(q)) && FirstPending(ResetInFlight(q).entries) == 0
  {
    FirstPendingUnique(ResetInFlight(q).entries, 0);
  }

  // ----- runs

  datatype Op = EnqueueOp(batch: MetricBatch) | MarkOp | AcknowledgeOp(id: string) | ResetOp

  /** A queue together with what happened to every batch offered to it. */
  datatype Ledger = Ledger(
    queue: Queue,
    attempts: nat,                  // enqueue calls with a well-formed batch not already queued
    accepted: seq<MetricBatch>,     // batches appended, in order
    rejected: seq<MetricBatch>,     // batches turned away because everything was in flight
    evicted: seq<MetricBatch>,      // batches dropped to make room
    acknowledged: seq<MetricBatch>, // batches removed by an acknowledgement
    sent: seq<MetricBatch>)         // batches handed out for sending, in order

  function Apply(l: Ledger, op: Op): Ledger {
    match op
    case EnqueueOp(b) =>
      var (q, r) := Enqueue(l.queue, b);
      (match r
       case Enqueued => l.(queue := q, attempts := l.attempts + 1, accepted := l.accepted + [b])
       case DroppedOldest =>
         l.(queue := q, attempts := l.attempts + 1, accepted := l.accepted + [b],
            evicted := l.evicted + [l.queue.entries[FirstPending(l.queue.entries)].batch])
       case RejectedAllInFlight => l.(queue := q, attempts := l.attempts + 1, rejected := l.rejected + [b])
       case _ => l)
    case MarkOp =>
      var (q, next) := MarkNextInFlight(l.queue);
      if next.Some? then l.(queue := q, sent := l.sent + [next.value]) else l
    case AcknowledgeOp(id) =>
      var (q, removed) := Acknowledge(l.queue, id);
      if removed then
        l.(queue := q, acknowledged := l.acknowledged + [l.queue.entries[FindId(l.queue.entries, id)].batch])
      else l
    case ResetOp => l.(queue := ResetInFlight(l.queue))
  }

  function Start(q: Queue): Ledger {
    Ledger(q, 0, [], [], [], [], [])
  }

  function Run(q: Queue, ops: seq<Op>): Ledger {
    if ops == [] then Start(q) else Apply(Run(q, ops[..|ops| - 1]), ops[|ops| - 1])
  }

  function Batches(entries: seq<PendingBatch>): seq<MetricBatch> {
    if entries == [] then [] else Batches(entries[..|entries| - 1]) + [entries[|entries| - 1].batch]
  }

  lemma {:induction false} BatchesConcat(a: seq<PendingBatch>, b: seq<PendingBatch>)
    ensures Batches(a + b) == Batches(a) + Batches(b)
  {
    if b == [] {
      assert a + b == a;
    } else {
      BatchesConcat(a, b[..|b| - 1]);
      assert (a + b)[..|a + b| - 1] == a + b[..|b| - 1];
    }
  }

  lemma {:induction false} BatchesLength(entries: seq<PendingBatch>)
    ensures |Batches(entries)| == |entries|
  {
    if entries != [] {
      BatchesLength(entries[..|entries| - 1]);
    }
  }

  lemma BatchesOne(e: PendingBatch)
    ensures Batches([e]) == [e.batch]
  {
    assert [e][..0] == [];
  }

  /** The batches of a list taken apart at position `i`. */
  lemma BatchesAround(entries: seq<PendingBatch>, i: nat)
    requires i < |entries|
    ensures var before, behind := Batches(entries[..i]), Batches(entries[i + 1..]);
            && |before| == i && |behind| == |entries| - i - 1
            && Batches(entries) == before + [entries[i].batch] + behind
            && Batches(RemoveAt(entries, i)) == before + behind
  {
    assert entries == entries[..i] + [entries[i]] + entries[i + 1..];
    BatchesConcat(entries[..i] + [entries[i]], entries[i + 1..]);
    BatchesConcat(entries[..i], [entries[i]]);
    BatchesConcat(entries[..i], entries[i + 1..]);
    BatchesOne(entries[i]);
    BatchesLength(entries[..i]);
    BatchesLength(entries[i + 1..]);
  }

  lemma BatchesRemove(entries: seq<PendingBatch>, i: nat)
    requires i < |entries|
    ensures |Batches(entries)| == |entries| && Batches(entries)[i] == entries[i].batch
    ensures Batches(RemoveAt(entries, i)) == RemoveAt(Batches(entries), i)
  {
    hide Batches;
    BatchesAround(entries, i);
    RemoveMiddle(Batches(entries[..i]), entries[i].batch, Batches(entries[i + 1..]));
  }

  lemma RemoveMiddle<T>(before: seq<T>, x: T, behind: seq<T>)
    ensures RemoveAt(before + [x] + behind, |before|) == before + behind
  {
  }

  lemma BatchesMark(entries: seq<PendingBatch>, i: nat, e: PendingBatch)
    requires i < |entries| && e.batch == entries[i].batch
    ensures Batches(entries[i := e]) == Batches(entries)
  {
    BatchesAround(entries, i);
    BatchesAround(entries[i := e], i);
    assert entries[i := e][..i] == entries[..i] && entries[i := e][i + 1..] == entries[i + 1..];
  }

  lemma {:induction false} BatchesReset(entries: seq<PendingBatch>)
    ensures Batches(AllPending(entries)) == Batches(entries)
  {
    if entries != [] {
      BatchesReset(entries[..|entries| - 1]);
      assert AllPending(entries)[..|entries| - 1] == AllPending(entries[..|entries| - 1]);
    }
  }

  lemma BatchesAppend(entries: seq<PendingBatch>, b: MetricBatch)
    ensures Batches(entries + [PendingBatch(b, false)]) == Batches(entries) + [b]
  {
    BatchesConcat(entries, [PendingBatch(b, false)]);
    BatchesOne(PendingBatch(b, false));
  }

  lemma RemoveMultiset<T>(s: seq<T>, i: nat)
    requires i < |s|
    ensures multiset(RemoveAt(s, i)) + multiset{s[i]} == multiset(s)
  {
    assert s == s[..i] + [s[i]] + s[i + 1..];
  }

  /** Nothing is lost or invented: every accepted batch is queued, acknowledged or evicted, and what
      is queued is in the order it was accepted, with unchanged payloads. */
  ghost predicate Conserved(l: Ledger) {
    && multiset(l.accepted) == multiset(Batches(l.queue.entries)) + multiset(l.acknowledged) + multiset(l.evicted)
    && Subsequence(Batches(l.queue.entries), l.accepted)
  }

  /** The counters are exact, up to the wrap of the 64-bit drop counter. */
  ghost predicate Counted(l: Ledger) {
    && l.attempts == |l.accepted| + |l.rejected|
    && l.queue.dropped == (|l.evicted| + |l.rejected|) % TWO_64
  }

  lemma DropCounted(n: nat)
    ensures CountDrop(n % TWO_64) == (n + 1) % TWO_64
  {
  }

  lemma OneMore<T>(s: seq<T>, x: T)
    ensures multiset(s + [x]) == multiset(s) + multiset{x} && |s + [x]| == |s| + 1
  {
  }

  /** An accepted batch takes its place in the balance. */
  lemma BalanceAccept<T>(accepted: multiset<T>, queued: multiset<T>, acked: multiset<T>, evicted: multiset<T>, b: T)
    requires accepted == queued + acked + evicted
    ensures accepted + multiset{b} == queued + multiset{b} + acked + evicted
  {
  }

  /** A batch that leaves the queue moves to the other side of the balance. */
  lemma BalanceLeave<T>(accepted: multiset<T>, queued: multiset<T>, rest: multiset<T>, acked: multiset<T>, evicted: multiset<T>, x: T)
    requires accepted == queued + acked + evicted && rest + multiset{x} == queued
    ensures accepted == rest + (acked + multiset{x}) + evicted
    ensures accepted == rest + acked + (evicted + multiset{x})
  {
  }

  lemma AppendConserves(l: Ledger, q: Queue, b: MetricBatch)
    requires Conserved(l) && q.entries == l.queue.entries + [PendingBatch(b, false)]
    ensures Conserved(l.(queue := q, accepted := l.accepted + [b]))
  {
    hide Subsequence;
    var before := Batches(l.queue.entries);
    BatchesAppend(l.queue.entries, b);
    OneMore(l.accepted, b);
    OneMore(before, b);
    BalanceAccept(multiset(l.accepted), multiset(before), multiset(l.acknowledged), multiset(l.evicted), b);
    SubsequenceSnoc(before, l.accepted, b);
  }

  lemma RemoveConserves(l: Ledger, q: Queue, i: nat)
    requires Conserved(l) && i < |l.queue.entries| && q.entries == RemoveAt(l.queue.entries, i)
    ensures var x := l.queue.entries[i].batch;
            && Conserved(l.(queue := q, acknowledged := l.acknowledged + [x]))
            && Conserved(l.(queue := q, evicted := l.evicted + [x]))
  {
    hide Subsequence;
    var x, before := l.queue.entries[i].batch, Batches(l.queue.entries);
    BatchesRemove(l.queue.entries, i);
    RemoveMultiset(before, i);
    OneMore(l.acknowledged, x);
    OneMore(l.evicted, x);
    BalanceLeave(multiset(l.accepted), multiset(before), multiset(RemoveAt(before, i)), multiset(l.acknowledged), multiset(l.evicted), x);
    SubsequenceDelete(before, l.accepted, i);
  }

  lemma EnqueueConserves(l: Ledger, b: MetricBatch)
    requires Conserved(l)
    ensures Conserved(Apply(l, EnqueueOp(b)))
  {
    hide Conserved;
    var (q, r) := Enqueue(l.queue, b);
    AttemptsIrrelevant(l, q, l.attempts + 1, l.rejected + [b]);
    if r == Enqueued {
      AppendConserves(l, q, b);
      AttemptsIrrelevant(l.(queue := q, accepted := l.accepted + [b]), q, l.attempts + 1, l.rejected);
    } else if r == DroppedOldest {
      var i := FirstPending(l.queue.entries);
      var mid := l.(queue := l.queue.(entries := RemoveAt(l.queue.entries, i)),
                    evicted := l.evicted + [l.queue.entries[i].batch]);
      RemoveConserves(l, mid.queue, i);
      AppendConserves(mid, q, b);
      AttemptsIrrelevant(mid.(queue := q, accepted := mid.accepted + [b]), q, l.attempts + 1, l.rejected);
    }
  }

  /** Conservation is about the entries and the lists of what happened to them. */
  lemma AttemptsIrrelevant(l: Ledger, q: Queue, attempts: nat, rejected: seq<MetricBatch>)
    requires Conserved(l)
    ensures q.entries == l.queue.entries ==> Conserved(l.(queue := q, attempts := attempts, rejected := rejected))
  {
  }

  lemma AcknowledgeConserves(l: Ledger, id: string)
    requires Conserved(l)
    ensures Conserved(Apply(l, AcknowledgeOp(id)))
  {
    hide Conserved;
    var i := FindId(l.queue.entries, id);
    if i < |l.queue.entries| {
      RemoveConserves(l, Acknowledge(l.queue, id).0, i);
    }
  }

  lemma OpConserves(l: Ledger, op: Op)
    requires Conserved(l)
    ensures Conserved(Apply(l, op))
  {
    match op {
      case EnqueueOp(b) => EnqueueConserves(l, b);
      case AcknowledgeOp(id) => AcknowledgeConserves(l, id);
      case ResetOp => BatchesReset(l.queue.entries);
      case MarkOp =>
        var k := FirstPending(l.queue.entries);
        if k < |l.queue.entries| {
          BatchesMark(l.queue.entries, k, l.queue.entries[k].(inFlight := true));
        }
    }
  }

  lemma OpKeepsInv(l: Ledger, op: Op)
    requires QueueInv(l.queue)
    ensures QueueInv(Apply(l, op).queue)
  {
    match op {
      case EnqueueOp(b) => EnqueueKeepsInv(l.queue, b);
      case MarkOp => MarkKeepsInv(l.queue);
      case AcknowledgeOp(id) => AcknowledgeKeepsInv(l.queue, id);
      case ResetOp => ResetKeepsInv(l.queue);
    }
  }

  /** A well-formed batch that is not queued yet is accepted or turned away. */
  lemma EnqueueDecides(l: Ledger, b: MetricBatch)
    requires Queueable(b) && !Holds(l.queue, b.batchId)
    ensures var next := Apply(l, EnqueueOp(b));
            || (next.accepted == l.accepted + [b] && next.rejected == l.rejected)
            || (next.accepted == l.accepted && next.rejected == l.rejected + [b])
  {
  }

  lemma OpCounts(l: Ledger, op: Op)
    requires Counted(l)
    ensures Counted(Apply(l, op))
  {
    hide FirstPending, Queueable, Holds, FindId;
    DropCounted(|l.evicted| + |l.rejected|);
  }

  /** Conservation over every run of a new queue: the invariant holds, and accounting is exact up to
      the wrap of the 64-bit drop counter. */
  lemma {:induction false} QueueConserves(capacity: nat, ops: seq<Op>)
    requires capacity >= 1
    ensures var l := Run(Queue(capacity, [], 0), ops);
            && QueueInv(l.queue) && Conserved(l) && Counted(l)
            && l.attempts == |l.queue.entries| + |l.acknowledged| + |l.evicted| + |l.rejected|
  {
    if ops != [] {
      var n := |ops| - 1;
      var l := Run(Queue(capacity, [], 0), ops[..n]);
      QueueConserves(capacity, ops[..n]);
      OpKeepsInv(l, ops[n]);
      OpConserves(l, ops[n]);
      OpCounts(l, ops[n]);
    }
    SizesAddUp(Run(Queue(capacity, [], 0), ops));
  }

  lemma SizesAddUp(l: Ledger)
    requires Conserved(l)
    ensures |l.accepted| == |l.queue.entries| + |l.acknowledged| + |l.evicted|
  {
    BatchesLength(l.queue.entries);
    assert |multiset(l.accepted)| == |l.accepted|;
    assert |multiset(Batches(l.queue.entries))| == |Batches(l.queue.entries)|;
    assert |multiset(l.acknowledged)| == |l.acknowledged| && |multiset(l.evicted)| == |l.evicted|;
  }

  // ----- overflow and sending order

  function Pending(q: Queue): seq<MetricBatch> {
    Batches(q.entries[FirstPending(q.entries)..])
  }

  /** The ways an operation other than a reset changes the list of batches still to be sent. */
  datatype Change =
    | Same
    | Lost(i: nat)                // acknowledged before it was sent again
    | Joined(b: MetricBatch)      // accepted
    | Displaced(b: MetricBatch)   // accepted, the oldest pending batch dropped
    | Sent                        // the oldest pending batch goes out

  ghost predicate Changes(l: Ledger, next: Ledger, c: Change) {
    var p, p' := Pending(l.queue), Pending(next.queue);
    && next.accepted == (if c.Joined? || c.Displaced? then l.accepted + [c.b] else l.accepted)
    && (c.Sent? || c.Displaced? ==> p != [])
    && (c.Lost? ==> c.i < |p|)
    && next.sent == (if c.Sent? then l.sent + [p[0]] else l.sent)
    && p' == match c
             case Same => p
             case Lost(i) => RemoveAt(p, i)
             case Joined(b) => p + [b]
             case Displaced(b) => p[1..] + [b]
             case Sent => p[1..]
  }

  lemma FirstOfPending(q: Queue)
    requires FirstPending(q.entries) < |q.entries|
    ensures var e, k := q.entries, FirstPending(q.entries);
            Pending(q) != [] && Pending(q)[0] == e[k].batch && Pending(q)[1..] == Batches(e[k + 1..])
  {
    var rest := q.entries[FirstPending(q.entries)..];
    BatchesAround(rest, 0);
    assert rest[..0] == [] && rest[1..] == q.entries[FirstPending(q.entries) + 1..];
  }

  lemma RemovedTail<T>(s: seq<T>, k: nat, i: nat)
    requires k <= |s| && i < |s|
    ensures i < k ==> RemoveAt(s, i)[k - 1..] == s[k..]
    ensures i >= k ==> RemoveAt(s, i)[k..] == RemoveAt(s[k..], i - k)
  {
  }

  lemma PendingAppended(q: Queue, next: Queue, b: MetricBatch)
    requires next.entries == q.entries + [PendingBatch(b, false)]
    requires FirstPending(next.entries) == FirstPending(q.entries)
    ensures Pending(next) == Pending(q) + [b]
  {
    var k := FirstPending(q.entries);
    assert next.entries[k..] == q.entries[k..] + [PendingBatch(b, false)];
    BatchesAppend(q.entries[k..], b);
  }

  lemma PendingDisplaced(q: Queue, next: Queue, b: MetricBatch)
    requires FirstPending(q.entries) < |q.entries|
    requires next.entries == RemoveAt(q.entries, FirstPending(q.entries)) + [PendingBatch(b, false)]
    requires FirstPending(next.entries) == FirstPending(q.entries)
    ensures Pending(q) != [] && Pending(next) == Pending(q)[1..] + [b]
  {
    var k := FirstPending(q.entries);
    assert next.entries[k..] == q.entries[k + 1..] + [PendingBatch(b, false)];
    BatchesAppend(q.entries[k + 1..], b);
    FirstOfPending(q);
  }

  lemma PendingAfterEnqueue(l: Ledger, b: MetricBatch) returns (c: Change)
    requires QueueInv(l.queue)
    ensures Changes(l, Apply(l, EnqueueOp(b)), c)
  {
    hide EntriesInv, Pending, FirstPending, Holds;
    var (q, r) := Enqueue(l.queue, b);
    EnqueueKeepsInv(l.queue, b);
    if r == Enqueued {
      PendingAppended(l.queue, q, b);
      return Joined(b);
    } else if r == DroppedOldest {
      PendingDisplaced(l.queue, q, b);
      return Displaced(b);
    }
    PendingUnchanged(l.queue, q);
    return Same;
  }

  lemma PendingUnchanged(q: Queue, next: Queue)
    ensures next.entries == q.entries ==> Pending(next) == Pending(q)
  {
  }

  lemma PendingMarked(q: Queue, next: Queue)
    requires var k := FirstPending(q.entries);
             k < |q.entries| && next.entries == q.entries[k := q.entries[k].(inFlight := true)]
             && FirstPending(next.entries) == k + 1
    ensures Pending(q) != [] && Pending(next) == Pending(q)[1..]
    ensures Pending(q)[0] == q.entries[FirstPending(q.entries)].batch
  {
    var k := FirstPending(q.entries);
    assert next.entries[k + 1..] == q.entries[k + 1..];
    FirstOfPending(q);
  }

  lemma PendingAfterMark(l: Ledger) returns (c: Change)
    requires QueueInv(l.queue)
    ensures Changes(l, Apply(l, MarkOp), c)
  {
    hide EntriesInv, Pending, FirstPending;
    MarkKeepsInv(l.queue);
    if FirstPending(l.queue.entries) < |l.queue.entries| {
      PendingMarked(l.queue, Apply(l, MarkOp).queue);
      return Sent;
    }
    return Same;
  }

  lemma PendingRemoved(q: Queue, next: Queue, i: nat)
    requires EntriesInv(q.entries) && i < |q.entries| && next.entries == RemoveAt(q.entries, i)
    ensures var k := FirstPending(q.entries);
            if i < k then Pending(next) == Pending(q)
            else i - k < |Pending(q)| && Pending(next) == RemoveAt(Pending(q), i - k)
  {
    var k := FirstPending(q.entries);
    RemoveKeepsInv(q.entries, i);
    hide EntriesInv;
    RemovedTail(q.entries, k, i);
    if i >= k {
      BatchesRemove(q.entries[k..], i - k);
    }
  }

  lemma PendingAfterAcknowledge(l: Ledger, id: string) returns (c: Change)
    requires QueueInv(l.queue)
    ensures Changes(l, Apply(l, AcknowledgeOp(id)), c)
  {
    hide EntriesInv, Pending, FirstPending;
    var i, k := FindId(l.queue.entries, id), FirstPending(l.queue.entries);
    var next := Apply(l, AcknowledgeOp(id)).queue;
    if i < |l.queue.entries| {
      PendingRemoved(l.queue, next, i);
      if i >= k {
        return Lost(i - k);
      }
    }
    return Same;
  }

  lemma RemoveFromLine(sent: seq<MetricBatch>, p: seq<MetricBatch>, i: nat)
    requires i < |p|
    ensures RemoveAt(sent + p, |sent| + i) == sent + RemoveAt(p, i)
  {
  }

  /** Overflow drops the oldest pending batch and nothing else; every in-flight entry stays where it
      is; and a batch is turned away only when the whole queue is in flight. */
  lemma OverflowSparesInFlight(q: Queue, b: MetricBatch)
    requires QueueInv(q)
    ensures var (next, r) := Enqueue(q, b);
            var k := FirstPending(q.entries);
            && FirstPending(next.entries) == k && next.entries[..k] == q.entries[..k]
            && (r == Enqueued ==> Pending(next) == Pending(q) + [b])
            && (r == DroppedOldest ==> Pending(q) != [] && Pending(next) == Pending(q)[1..] + [b])
            && (r == RejectedAllInFlight <==>
                  Queueable(b) && !Holds(q, b.batchId) && |q.entries| == q.capacity == k)
  {
    hide EntriesInv, Pending;
    EnqueueKeepsInv(q, b);
    var (next, r) := Enqueue(q, b);
    if r == Enqueued {
      PendingAppended(q, next, b);
    } else if r == DroppedOldest {
      PendingDisplaced(q, next, b);
    }
  }

  /** What goes out next is the oldest pending batch, and it stays queued, in flight. */
  lemma OldestGoesOut(q: Queue)
    requires QueueInv(q)
    ensures var (next, sent) := MarkNextInFlight(q);
            && sent == (if Pending(q) == [] then None else Some(Pending(q)[0]))
            && Batches(next.entries) == Batches(q.entries)
            && Pending(next) == (if Pending(q) == [] then [] else Pending(q)[1..])
  {
    var k := FirstPending(q.entries);
    var c := PendingAfterMark(Start(q));
    if k < |q.entries| {
      FirstOfPending(q);
      BatchesMark(q.entries, k, q.entries[k].(inFlight := true));
    } else {
      assert q.entries[k..] == [];
    }
  }

  /** After a reconnect every unacknowledged batch is up for an identical retry, in queue order. */
  lemma ResetRetriesAll(q: Queue)
    requires QueueInv(q)
    ensures Pending(ResetInFlight(q)) == Batches(q.entries) == Batches(ResetInFlight(q).entries)
  {
    ResetKeepsInv(q);
    BatchesReset(q.entries);
    assert ResetInFlight(q).entries[0..] == ResetInFlight(q).entries;
  }

  /** Between resets batches go out in the order they were queued: what has been sent, followed by
      what is still pending, is the pending list at the start followed by the batches accepted since,
      with some left out. */
  lemma {:induction false} SentInOrder(q: Queue, ops: seq<Op>)
    requires QueueInv(q) && forall i :: 0 <= i < |ops| ==> !ops[i].ResetOp?
    ensures var l := Run(q, ops);
            && QueueInv(l.queue)
            && Subsequence(l.sent + Pending(l.queue), Pending(q) + l.accepted)
  {
    if ops == [] {
      SubsequenceRefl(Pending(q));
      assert [] + Pending(q) == Pending(q) == Pending(q) + [];
    } else {
      var n := |ops| - 1;
      SentInOrder(q, ops[..n]);
      SentStep(Run(q, ops[..n]), ops[n], Pending(q));
    }
  }

  lemma SentStep(l: Ledger, op: Op, first: seq<MetricBatch>)
    requires QueueInv(l.queue) && !op.ResetOp?
    requires Subsequence(l.sent + Pending(l.queue), first + l.accepted)
    ensures QueueInv(Apply(l, op).queue)
    ensures Subsequence(Apply(l, op).sent + Pending(Apply(l, op).queue), first + Apply(l, op).accepted)
  {
    hide Subsequence, Changes, EntriesInv;
    OpKeepsInv(l, op);
    var c;
    match op {
      case EnqueueOp(b) => c := PendingAfterEnqueue(l, b);
      case MarkOp => c := PendingAfterMark(l);
      case AcknowledgeOp(id) => c := PendingAfterAcknowledge(l, id);
    }
    ChangeKeepsOrder(l, Apply(l, op), first, c);
  }

  lemma ChangeKeepsOrder(l: Ledger, next: Ledger, first: seq<MetricBatch>, c: Change)
    requires Changes(l, next, c)
    requires Subsequence(l.sent + Pending(l.queue), first + l.accepted)
    ensures Subsequence(next.sent + Pending(next.queue), first + next.accepted)
  {
    hide Subsequence, Pending;
    var p, all := Pending(l.queue), first + l.accepted;
    match c {
      case Same =>
      case Lost(i) => LineLoses(l.sent, p, i, all);
      case Joined(b) => LineGains(l.sent, p, first, l.accepted, b);
      case Displaced(b) =>
        LineLoses(l.sent, p, 0, all);
        assert RemoveAt(p, 0) == p[1..];
        LineGains(l.sent, p[1..], first, l.accepted, b);
      case Sent => assert l.sent + [p[0]] + p[1..] == l.sent + p;
    }
  }

  lemma LineLoses(sent: seq<MetricBatch>, p: seq<MetricBatch>, i: nat, all: seq<MetricBatch>)
    requires Subsequence(sent + p, all) && i < |p|
    ensures Subsequence(sent + RemoveAt(p, i), all)
  {
    hide Subsequence;
    RemoveFromLine(sent, p, i);
    SubsequenceDelete(sent + p, all, |sent| + i);
  }

  lemma LineGains(sent: seq<MetricBatch>, p: seq<MetricBatch>, first: seq<MetricBatch>, accepted: seq<MetricBatch>, b: MetricBatch)
    requires Subsequence(sent + p, first + accepted)
    ensures Subsequence(sent + (p + [b]), first + (accepted + [b]))
  {
    hide Subsequence;
    SubsequenceSnoc(sent + p, first + accepted, b);
    assert sent + (p + [b]) == sent + p + [b] && first + (accepted + [b]) == first + accepted + [b];
  }
}
