/**
 The steps of the delivery protocol, and recovery.  Whatever was lost, repeated or delayed before, an agent that
 reconnects can get rid of its whole queue: from every reachable state there is a continuation after
 which everything it held is committed and nothing more has been dropped.
 */
module Recovery {
  import opened Types
  import opened StoreModel
  import opened QueueModel
  import opened QueueOutcomes
  import opened BuilderModel
  import opened Delivery

  function Entries(s: System, i: nat): seq<PendingBatch>
    requires i < |s.agents|
  {
    s.agents[i].ledger.queue.entries
  }

  function Queued(s: System, i: nat): seq<MetricBatch>
    requires i < |s.agents|
  {
    Batches(Entries(s, i))
  }

  function TotalMetrics(batches: seq<MetricBatch>): nat {
    if batches == [] then 0 else |batches[0].metrics| + TotalMetrics(batches[1..])
  }

  /** From `s` to `t` only agent `i` has moved, without building or dropping anything, and no commit
      has been undone. */
  ghost predicate Retries(s: System, t: System, i: nat) {
    && |t.agents| == |s.agents| && i < |s.agents|
    && (forall j :: 0 <= j < |s.agents| && j != i ==> t.agents[j] == s.agents[j])
    && t.agents[i].built == s.agents[i].built
    && t.agents[i].ledger.queue.dropped == s.agents[i].ledger.queue.dropped
    && s.accepted <= t.accepted
  }

  lemma RetriesKeepsCounters(s: System, t: System, i: nat)
    requires Retries(s, t, i) && NotWrapped(s)
    ensures NotWrapped(t)
  {
    forall j | 0 <= j < |t.agents| ensures |t.agents[j].built| <= TWO_64 {
      assert t.agents[j].built == s.agents[j].built;
    }
  }

  // ----- the steps one by one

  lemma AgentProduces(a: Agent, metrics: seq<Metric>)
    requires AgentInv(a) && |a.built| < TWO_64
    requires a.builder.clientId != "" && metrics != []
    requires forall i :: 0 <= i < |metrics| ==> metrics[i].name != "" && metrics[i].value.Finite?
    requires |a.ledger.queue.entries| < a.ledger.queue.capacity
    ensures var queue, next := a.ledger.queue, ProduceStep(a, metrics);
            var b := MetricBatch(a.builder.clientId,
                                 BatchId(a.builder.clientId, a.builder.sessionNonce, a.builder.nextSequence), metrics);
            && next.built == a.built + [b] && next.ledger.queue.dropped == queue.dropped
            && Batches(next.ledger.queue.entries) == Batches(queue.entries) + [b]
  {
    BuildOutcome(a.builder, metrics);
    FreshIsNew(a, metrics);
    hide AgentInv, Build, BatchId, Batches, Enqueue, Holds;
    var b := Build(a.builder, metrics).1.value;
    HoldsIffHasId(a.ledger.queue, b.batchId);
    EnqueueAnswer(a.ledger.queue, b);
    EnqueueEffect(a.ledger.queue, b);
    BatchesAppend(a.ledger.queue.entries, b);
  }

  /** With room in the queue, acceptable metrics are queued behind everything else as one batch, and nothing
      is dropped. */
  lemma ProduceNext(s: System, i: nat, metrics: seq<Metric>)
    requires SystemInv(s) && NotWrapped(s) && i < |s.agents| && |s.agents[i].built| < TWO_64
    requires s.agents[i].builder.clientId != "" && metrics != []
    requires forall k :: 0 <= k < |metrics| ==> metrics[k].name != "" && metrics[k].value.Finite?
    requires |Entries(s, i)| < s.agents[i].ledger.queue.capacity
    ensures var t := Step(s, Produce(i, metrics));
            && |t.agents| == |s.agents| && Queued(t, i) != []
            && Queued(t, i)[..|Queued(t, i)| - 1] == Queued(s, i)
            && Queued(t, i)[|Queued(t, i)| - 1].metrics == metrics
            && Queued(t, i)[|Queued(t, i)| - 1].clientId == s.agents[i].builder.clientId
            && t.agents[i].ledger.queue.dropped == s.agents[i].ledger.queue.dropped
            && t == s.(agents := s.agents[i := t.agents[i]])
  {
    hide Acceptable, StateOf, ProduceStep, DeliverStep, AgentStep, Batches, BatchId, AgentInv;
    assert AgentAt(s, i);
    hide SystemInv;
    AgentProduces(s.agents[i], metrics);
  }

  lemma AgentResets(a: Agent)
    requires QueueInv(a.ledger.queue)
    ensures var queue, next := a.ledger.queue, AgentStep(a, ResetOp);
            && next.built == a.built && next.ledger.queue.dropped == queue.dropped
            && Batches(next.ledger.queue.entries) == Batches(queue.entries) == Pending(next.ledger.queue)
  {
    hide Batches, Pending, QueueInv;
    ResetRetriesAll(a.ledger.queue);
  }

  /** After a disconnect everything queued is pending again. */
  lemma Reconnect(s: System, i: nat)
    requires SystemInv(s) && NotWrapped(s) && i < |s.agents|
    ensures var t := Step(s, Disconnect(i));
            && SystemInv(t) && Retries(s, t, i)
            && Queued(t, i) == Queued(s, i) && Pending(t.agents[i].ledger.queue) == Queued(s, i)
            && t.accepted == s.accepted
  {
    hide SystemInv, NotWrapped, ProduceStep, DeliverStep, AgentStep, Batches, Pending, QueueInv;
    AgentQueueInv(s, i);
    AgentResets(s.agents[i]);
    DisconnectKeepsInv(s, i);
  }

  lemma AgentSends(a: Agent)
    requires QueueInv(a.ledger.queue) && Pending(a.ledger.queue) != []
    ensures var queue, next := a.ledger.queue, AgentStep(a, MarkOp);
            && next.built == a.built && next.ledger.queue.dropped == queue.dropped
            && Batches(next.ledger.queue.entries) == Batches(queue.entries)
            && Pending(next.ledger.queue) == Pending(queue)[1..]
            && MarkNextInFlight(queue).1 == Some(Pending(queue)[0])
  {
    hide Batches, FirstPending, EntriesInv;
    OldestGoesOut(a.ledger.queue);
  }

  lemma AgentQueueInv(s: System, i: nat)
    requires SystemInv(s) && i < |s.agents|
    ensures QueueInv(s.agents[i].ledger.queue)
  {
    hide Acceptable, StateOf;
    assert AgentAt(s, i);
  }

  /** A send puts the oldest pending batch on the network and takes it off the pending list; it stays
      queued. */
  lemma SendNext(s: System, i: nat)
    requires SystemInv(s) && NotWrapped(s) && i < |s.agents|
    requires Pending(s.agents[i].ledger.queue) != []
    ensures var t := Step(s, Send(i));
            && SystemInv(t) && Retries(s, t, i)
            && t.network == s.network + {Envelope(i, Pending(s.agents[i].ledger.queue)[0])}
            && Pending(t.agents[i].ledger.queue) == Pending(s.agents[i].ledger.queue)[1..]
            && Queued(t, i) == Queued(s, i) && t.accepted == s.accepted
  {
    hide SystemInv, NotWrapped, ProduceStep, DeliverStep, AgentStep, Batches, Pending, QueueInv;
    AgentQueueInv(s, i);
    AgentSends(s.agents[i]);
    SendKeepsInv(s, i);
  }

  lemma DeliverSent(s: System, e: Envelope)
    requires SystemInv(s) && NotWrapped(s) && e in s.network
    requires |LogOf(s.accepted)| + |e.batch.metrics| <= INT64_MAX
    ensures var t := Step(s, Deliver(e));
            && SystemInv(t) && t.agents == s.agents && s.accepted <= t.accepted
            && e.batch in t.accepted && Receipt(e.agent, e.batch.batchId) in t.receipts
            && |LogOf(t.accepted)| <= |LogOf(s.accepted)| + |e.batch.metrics|
  {
    hide SystemInv, NotWrapped, Commit, Acceptable, StateOf;
    CapacityPositive(s);
    DeliverKeepsInv(s, e);
    DeliveryOutcome(s, e);
    StampAt(e.batch, |LogOf(s.accepted)|, |e.batch.metrics|);
    assert (s.accepted + [e.batch])[..|s.accepted|] == s.accepted;
  }

  lemma QueuedIdsDiffer(s: System, i: nat)
    requires SystemInv(s) && i < |s.agents|
    ensures DistinctBatchIds(Entries(s, i))
  {
    hide SystemInv;
    AgentQueueInv(s, i);
  }

  lemma AgentAcknowledges(a: Agent, k: nat)
    requires var entries := a.ledger.queue.entries; DistinctBatchIds(entries) && k < |entries|
    ensures var queue := a.ledger.queue;
            var next := AgentStep(a, AcknowledgeOp(queue.entries[k].batch.batchId));
            var queued := Batches(queue.entries);
            && next.built == a.built && next.ledger.queue.dropped == queue.dropped
            && |queued| == |queue.entries| && queued[k] == queue.entries[k].batch
            && Batches(next.ledger.queue.entries) == queued[..k] + queued[k + 1..]
  {
    hide Batches, DistinctBatchIds, Acknowledge;
    AcknowledgeBatches(a.ledger.queue, k);
  }

  /** An acknowledgement that arrives removes its batch from the queue, wherever it stands; that batch is
      committed, and the others stay as they were. */
  lemma ConfirmQueued(s: System, i: nat, k: nat)
    requires SystemInv(s) && NotWrapped(s) && i < |s.agents| && k < |Queued(s, i)|
    requires Receipt(i, Queued(s, i)[k].batchId) in s.receipts
    ensures var t := Step(s, Confirm(Receipt(i, Queued(s, i)[k].batchId)));
            && SystemInv(t) && Retries(s, t, i)
            && Queued(t, i) == Queued(s, i)[..k] + Queued(s, i)[k + 1..] && t.accepted == s.accepted
            && Queued(s, i)[k] in s.accepted
  {
    hide SystemInv, NotWrapped, ProduceStep, DeliverStep, AgentStep, Batches, DistinctBatchIds;
    QueuedIdsDiffer(s, i);
    QueuedSize(s, i);
    AgentAcknowledges(s.agents[i], k);
    var id := Queued(s, i)[k].batchId;
    FoundAt(Entries(s, i), id, k);
    ConfirmKeepsInv(s, Receipt(i, id));
    AcknowledgedIsCommitted(s, Receipt(i, id));
  }

  lemma QueuedSize(s: System, i: nat)
    requires i < |s.agents|
    ensures |Queued(s, i)| == |Entries(s, i)|
    ensures Entries(s, i) != [] ==> Queued(s, i)[0] == Entries(s, i)[0].batch
  {
    BatchesLength(Entries(s, i));
    if Entries(s, i) != [] {
      BatchesRemove(Entries(s, i), 0);
    }
  }

  // ----- one retry

  function Retry(i: nat, b: MetricBatch): seq<Action> {
    [Disconnect(i), Send(i)] + [Deliver(Envelope(i, b)), Confirm(Receipt(i, b.batchId))]
  }

  lemma {:induction false} RunConcat(s: System, first: seq<Action>, second: seq<Action>)
    requires s.store.capacity >= 1
    ensures Delivery.Run(s, first + second) == Delivery.Run(Delivery.Run(s, first), second)
  {
    hide Step;
    if second == [] {
      assert first + second == first;
    } else {
      RunConcat(s, first, second[..|second| - 1]);
      assert (first + second)[..|first + second| - 1] == first + second[..|second| - 1];
    }
  }

  lemma RunSnoc(s: System, done: seq<Action>, next: Action)
    requires s.store.capacity >= 1
    ensures Delivery.Run(s, done + [next]) == Step(Delivery.Run(s, done), next)
  {
    hide Step;
    assert (done + [next])[..|done|] == done;
  }

  lemma RunTwo(s: System, a: Action, b: Action)
    requires s.store.capacity >= 1
    ensures Delivery.Run(s, [a, b]) == Step(Step(s, a), b)
  {
    hide Step, Delivery.Run;
    NoActions(s);
    RunSnoc(s, [], a);
    RunSnoc(s, [a], b);
    assert [] + [a] == [a] && [a] + [b] == [a, b];
  }

  lemma RunRetry(s: System, i: nat, b: MetricBatch)
    requires s.store.capacity >= 1
    ensures Delivery.Run(s, Retry(i, b)) ==
            Step(Step(Step(Step(s, Disconnect(i)), Send(i)), Deliver(Envelope(i, b))), Confirm(Receipt(i, b.batchId)))
  {
    hide Step, Delivery.Run;
    RunConcat(s, [Disconnect(i), Send(i)], [Deliver(Envelope(i, b)), Confirm(Receipt(i, b.batchId))]);
    RunTwo(s, Disconnect(i), Send(i));
    RunTwo(Step(Step(s, Disconnect(i)), Send(i)), Deliver(Envelope(i, b)), Confirm(Receipt(i, b.batchId)));
  }

  lemma CapacityPositive(s: System)
    requires SystemInv(s)
    ensures s.store.capacity >= 1
  {
  }

  /** A reconnect puts the oldest queued batch back on the network. */
  lemma ReconnectAndSend(s: System, i: nat)
    requires SystemInv(s) && NotWrapped(s) && i < |s.agents| && Queued(s, i) != []
    ensures var t := Step(Step(s, Disconnect(i)), Send(i));
            && SystemInv(t) && NotWrapped(t) && Retries(s, t, i) && i < |t.agents|
            && Envelope(i, Queued(s, i)[0]) in t.network
            && Queued(t, i) == Queued(s, i) && t.accepted == s.accepted
  {
    hide SystemInv, NotWrapped, Step, Batches, Pending;
    CapacityPositive(s);
    Reconnect(s, i);
    var t := Step(s, Disconnect(i));
    RetriesKeepsCounters(s, t, i);
    SendNext(t, i);
    RetriesKeepsCounters(t, Step(t, Send(i)), i);
  }

  /** From `s` to `t` agent `i` has got rid of its oldest batch `b`, which is committed. */
  ghost predicate Delivered(s: System, t: System, i: nat, b: MetricBatch) {
    && Retries(s, t, i)
    && Queued(s, i) != [] && Queued(t, i) == Queued(s, i)[1..]
    && b == Queued(s, i)[0] && b in t.accepted
    && |LogOf(t.accepted)| <= |LogOf(s.accepted)| + |b.metrics|
  }

  /** A batch on the network that gets through, and its acknowledgement. */
  lemma DeliverAndConfirm(s: System, i: nat)
    requires SystemInv(s) && NotWrapped(s) && i < |s.agents| && Queued(s, i) != []
    requires Envelope(i, Queued(s, i)[0]) in s.network
    requires |LogOf(s.accepted)| + |Queued(s, i)[0].metrics| <= INT64_MAX
    ensures var b := Queued(s, i)[0];
            s.store.capacity >= 1 &&
            var t := Step(Step(s, Deliver(Envelope(i, b))), Confirm(Receipt(i, b.batchId)));
            SystemInv(t) && Delivered(s, t, i, b)
  {
    hide SystemInv, NotWrapped, Step, LogOf, Batches, Delivered;
    CapacityPositive(s);
    var b := Queued(s, i)[0];
    DeliverSent(s, Envelope(i, b));
    var m := Step(s, Deliver(Envelope(i, b)));
    SameAgentsKeepCounters(s, m);
    SameAgentsQueue(s, m, i);
    ConfirmQueued(m, i, 0);
    HeadConfirmed(s, m, Step(m, Confirm(Receipt(i, b.batchId))), i);
  }

  lemma SameAgentsQueue(s: System, t: System, i: nat)
    requires i < |s.agents| && t.agents == s.agents
    ensures Queued(t, i) == Queued(s, i)
  {
  }

  lemma HeadConfirmed(s: System, m: System, t: System, i: nat)
    requires i < |s.agents| && m.agents == s.agents && s.accepted <= m.accepted && Queued(s, i) != []
    requires Queued(s, i)[0] in m.accepted
    requires |LogOf(m.accepted)| <= |LogOf(s.accepted)| + |Queued(s, i)[0].metrics|
    requires Retries(m, t, i) && Queued(t, i) == Queued(m, i)[..0] + Queued(m, i)[1..] && t.accepted == m.accepted
    ensures Delivered(s, t, i, Queued(s, i)[0])
  {
    hide LogOf, Batches;
  }

  lemma ResentThenDelivered(s: System, m: System, t: System, i: nat, b: MetricBatch)
    requires Retries(s, m, i) && Queued(m, i) == Queued(s, i) && m.accepted == s.accepted
    requires Delivered(m, t, i, b)
    ensures Delivered(s, t, i, b)
  {
    hide LogOf, Batches;
  }

  /** A reconnect, a retry that gets through, and its acknowledgement: the oldest queued batch is
      committed, if it was not before, and leaves the queue; everything behind it stays. */
  lemma RetryCompletes(s: System, i: nat)
    requires SystemInv(s) && NotWrapped(s) && i < |s.agents| && Queued(s, i) != []
    requires |LogOf(s.accepted)| + |Queued(s, i)[0].metrics| <= INT64_MAX
    ensures var b := Queued(s, i)[0];
            s.store.capacity >= 1 &&
            var t := Delivery.Run(s, Retry(i, b));
            SystemInv(t) && Delivered(s, t, i, b)
  {
    hide SystemInv, NotWrapped, Step, LogOf, Delivery.Run, Queued, Retry, Retries, Delivered;
    CapacityPositive(s);
    var b := Queued(s, i)[0];
    RunRetry(s, i, b);
    ReconnectAndSend(s, i);
    var m := Step(Step(s, Disconnect(i)), Send(i));
    DeliverAndConfirm(m, i);
    ResentThenDelivered(s, m, Delivery.Run(s, Retry(i, b)), i, b);
  }

  lemma SameAgentsKeepCounters(s: System, t: System)
    requires NotWrapped(s) && t.agents == s.agents
    ensures NotWrapped(t)
  {
  }

  // ----- the whole queue

  lemma RetriesTransitive(s: System, t: System, u: System, i: nat)
    requires Retries(s, t, i) && Retries(t, u, i)
    ensures Retries(s, u, i)
  {
  }

  /** As long as event IDs last, a queue can be emptied into the store from any state the invariant
      allows, whatever the other agents and the network are up to. */
  lemma {:induction false} QueueDrains(s: System, i: nat) returns (actions: seq<Action>)
    requires SystemInv(s) && NotWrapped(s) && i < |s.agents|
    requires |LogOf(s.accepted)| + TotalMetrics(Queued(s, i)) <= INT64_MAX
    ensures s.store.capacity >= 1 &&
            var t := Delivery.Run(s, actions);
            && Retries(s, t, i) && Queued(t, i) == []
            && forall b :: b in Queued(s, i) ==> b in t.accepted
    decreases |Queued(s, i)|
  {
    hide SystemInv, NotWrapped, Batches, LogOf, Delivery.Run;
    CapacityPositive(s);
    actions := [];
    assert Delivery.Run(s, []) == s by { NoActions(s); }
    var queued := Queued(s, i);
    if queued != [] {
      RetryCompletes(s, i);
      var t := Delivery.Run(s, Retry(i, queued[0]));
      RetriesKeepsCounters(s, t, i);
      var rest := QueueDrains(t, i);
      RunConcat(s, Retry(i, queued[0]), rest);
      RetriesTransitive(s, t, Delivery.Run(t, rest), i);
      actions := Retry(i, queued[0]) + rest;
      assert forall b :: b in queued ==> b == queued[0] || b in queued[1..];
    }
  }

  lemma NoActions(s: System)
    requires s.store.capacity >= 1
    ensures Delivery.Run(s, []) == s
  {
  }

  /** After any run there is such a continuation. */
  lemma EveryRunCanDrain(capacity: nat, configs: seq<Config>, actions: seq<Action>, i: nat) returns (more: seq<Action>)
    requires capacity >= 1 && DistinctConfigs(configs)
    requires var s := Delivery.Run(Init(capacity, configs), actions);
             && NotWrapped(s) && i < |s.agents|
             && |LogOf(s.accepted)| + TotalMetrics(Queued(s, i)) <= INT64_MAX
    ensures var s, t := Delivery.Run(Init(capacity, configs), actions), Delivery.Run(Init(capacity, configs), actions + more);
            && Retries(s, t, i) && Queued(t, i) == []
            && forall b :: b in Queued(s, i) ==> b in t.accepted
  {
    hide SystemInv, NotWrapped, Batches, LogOf, Delivery.Run;
    RunInv(capacity, configs, actions);
    more := QueueDrains(Delivery.Run(Init(capacity, configs), actions), i);
    RunConcat(Init(capacity, configs), actions, more);
  }
}
