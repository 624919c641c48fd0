/**
 The agents and the store as one protocol.  Every agent builds batches into its own queue, sends what
 is pending, and removes what is acknowledged; the store commits what arrives.  The network may lose,
 repeat, delay and reorder batches and acknowledgements: a message, once sent, may arrive any number
 of times, or never.  The theorems hold in every state reachable by any list of actions.
 */
module Delivery {
  import opened Types
  import opened Sequences
  import opened Samples
  import opened StoreModel
  import opened QueueModel
  import opened BuilderModel
  import CommitRuns

  datatype Agent = Agent(builder: Builder, ledger: Ledger, built: seq<MetricBatch>)
  datatype Envelope = Envelope(agent: nat, batch: MetricBatch)
  datatype Receipt = Receipt(agent: nat, batchId: string)

  /** `accepted` is the commit history of the store. */
  datatype System = System(
    agents: seq<Agent>, network: set<Envelope>, receipts: set<Receipt>, store: Store, accepted: seq<MetricBatch>)

  datatype Action =
    | Produce(agent: nat, metrics: seq<Metric>)
    | Send(agent: nat)
    | Deliver(envelope: Envelope)
    | Confirm(receipt: Receipt)
    | Disconnect(agent: nat)

  datatype Config = Config(clientId: string, nonce: UInt64, capacity: nat)

  // ----- the protocol

  function NewAgent(c: Config): Agent {
    var capacity := if c.capacity == 0 then QueueModel.DEFAULT_CAPACITY else c.capacity;
    Agent(Builder(c.clientId, c.nonce, 1), Start(Queue(capacity, [], 0)), [])
  }

  function NewAgents(configs: seq<Config>): (agents: seq<Agent>)
    ensures |agents| == |configs|
    ensures forall i :: 0 <= i < |agents| ==> agents[i] == NewAgent(configs[i])
  {
    if configs == [] then [] else NewAgents(configs[..|configs| - 1]) + [NewAgent(configs[|configs| - 1])]
  }

  function Init(capacity: nat, configs: seq<Config>): System {
    System(NewAgents(configs), {}, {}, CommitRuns.Empty(capacity), [])
  }

  /** Build a batch and put it in the queue. */
  function ProduceStep(a: Agent, metrics: seq<Metric>): Agent {
    var (builder, r) := Build(a.builder, metrics);
    if r.Err? then a.(builder := builder)
    else a.(builder := builder, ledger := Apply(a.ledger, EnqueueOp(r.value)), built := a.built + [r.value])
  }

  function AgentStep(a: Agent, op: Op): Agent {
    a.(ledger := Apply(a.ledger, op))
  }

  function DeliverStep(s: System, e: Envelope): System
    requires s.store.capacity >= 1
  {
    var (store, r) := Commit(s.store, e.batch);
    s.(store := store,
       accepted := if r == Ok(Committed) then s.accepted + [e.batch] else s.accepted,
       receipts := if r.Ok? then s.receipts + {Receipt(e.agent, e.batch.batchId)} else s.receipts)
  }

  function Step(s: System, action: Action): System
    requires s.store.capacity >= 1
    ensures Step(s, action).store.capacity == s.store.capacity
  {
    match action
    case Produce(i, metrics) =>
      if i < |s.agents| then s.(agents := s.agents[i := ProduceStep(s.agents[i], metrics)]) else s
    case Send(i) =>
      if i < |s.agents| then
        var next := MarkNextInFlight(s.agents[i].ledger.queue).1;
        s.(agents := s.agents[i := AgentStep(s.agents[i], MarkOp)],
           network := if next.Some? then s.network + {Envelope(i, next.value)} else s.network)
      else s
    case Deliver(e) => if e in s.network then DeliverStep(s, e) else s
    case Confirm(c) =>
      if c in s.receipts && c.agent < |s.agents| then
        s.(agents := s.agents[c.agent := AgentStep(s.agents[c.agent], AcknowledgeOp(c.batchId))])
      else s
    case Disconnect(i) =>
      if i < |s.agents| then s.(agents := s.agents[i := AgentStep(s.agents[i], ResetOp)]) else s
  }

  function Run(s: System, actions: seq<Action>): System
    requires s.store.capacity >= 1
    ensures Run(s, actions).store.capacity == s.store.capacity
  {
    if actions == [] then s else Step(Run(s, actions[..|actions| - 1]), actions[|actions| - 1])
  }

  // ----- agents

  /** The builder's counter and everything it has built. */
  ghost predicate BuiltAt(a: Agent, k: nat)
    requires k < |a.built|
  {
    && ValidBatch(a.built[k])
    && a.built[k].batchId == BatchId(a.builder.clientId, a.builder.sessionNonce, SequenceOf(k))
  }

  ghost predicate AgentInv(a: Agent) {
    && a.builder.nextSequence == SequenceOf(|a.built|)
    && (forall k :: 0 <= k < |a.built| ==> BuiltAt(a, k))
    && QueueInv(a.ledger.queue) && Conserved(a.ledger) && Counted(a.ledger)
    && (forall b :: b in a.ledger.accepted ==> b in a.built)
    && AllOffered(a)
  }

  /** Every batch built was offered to the queue once, and was accepted or turned away. */
  ghost predicate AllOffered(a: Agent) {
    multiset(a.built) == multiset(a.ledger.accepted) + multiset(a.ledger.rejected)
  }

  lemma OpKeepsAgent(a: Agent, op: Op)
    requires AgentInv(a) && !op.EnqueueOp?
    ensures AgentInv(AgentStep(a, op)) && AgentStep(a, op).ledger.accepted == a.ledger.accepted
  {
    hide QueueInv, Conserved;
    OpKeepsInv(a.ledger, op);
    OpConserves(a.ledger, op);
    OpCounts(a.ledger, op);
    forall k | 0 <= k < |a.built| ensures BuiltAt(AgentStep(a, op), k) {
      assert BuiltAt(a, k);
    }
  }

  lemma NextInSequence(n: nat)
    ensures (SequenceOf(n) + 1) % TWO_64 == SequenceOf(n + 1)
  {
  }

  lemma WereOffered(a: Agent)
    requires AgentInv(a)
    ensures AllOffered(a)
  {
  }

  lemma ProduceOffers(a: Agent, metrics: seq<Metric>)
    requires AgentInv(a) && (Build(a.builder, metrics).1.Ok? ==> |a.built| < TWO_64)
    ensures AllOffered(ProduceStep(a, metrics))
  {
    WereOffered(a);
    hide AgentInv, Holds, Queueable, Build, Apply;
    var r := Build(a.builder, metrics).1;
    if r.Ok? {
      FreshIsNew(a, metrics);
      EnqueueDecides(a.ledger, r.value);
      QueueModel.OneMore(a.built, r.value);
      QueueModel.OneMore(a.ledger.accepted, r.value);
      QueueModel.OneMore(a.ledger.rejected, r.value);
    }
  }

  lemma ProduceKeepsAgent(a: Agent, metrics: seq<Metric>)
    requires AgentInv(a) && (Build(a.builder, metrics).1.Ok? ==> |a.built| < TWO_64)
    ensures var next := ProduceStep(a, metrics);
            && AgentInv(next)
            && a.ledger.accepted <= next.ledger.accepted && a.built <= next.built
            && next.builder.clientId == a.builder.clientId && next.builder.sessionNonce == a.builder.sessionNonce
  {
    hide QueueInv, Conserved, BatchId, SequenceOf, AllOffered;
    var next, r := ProduceStep(a, metrics), Build(a.builder, metrics).1;
    BuildMeaning(a.builder, metrics);
    NextInSequence(|a.built|);
    forall k | 0 <= k < |next.built| ensures BuiltAt(next, k) {
      if k < |a.built| {
        assert BuiltAt(a, k);
      }
    }
    if r.Ok? {
      OpKeepsInv(a.ledger, EnqueueOp(r.value));
      OpConserves(a.ledger, EnqueueOp(r.value));
      OpCounts(a.ledger, EnqueueOp(r.value));
    }
    ProduceOffers(a, metrics);
  }

  // ----- identifiers across the system

  /** Sequence numbers have not wrapped: each agent has built at most 2^64 batches. */
  ghost predicate NotWrapped(s: System) {
    forall i :: 0 <= i < |s.agents| ==> |s.agents[i].built| <= TWO_64
  }

  ghost predicate SamePair(s: System, i: nat, j: nat)
    requires i < |s.agents| && j < |s.agents|
  {
    && s.agents[i].builder.clientId == s.agents[j].builder.clientId
    && s.agents[i].builder.sessionNonce == s.agents[j].builder.sessionNonce
  }

  ghost predicate AgentAt(s: System, i: nat)
    requires i < |s.agents|
  {
    AgentInv(s.agents[i])
  }

  ghost predicate AgentsInv(s: System) {
    && (forall i :: 0 <= i < |s.agents| ==> AgentAt(s, i))
    && (forall i, j :: 0 <= i < |s.agents| && 0 <= j < |s.agents| && SamePair(s, i, j) ==> i == j)
  }

  /** One identifier, one batch, one agent. */
  lemma SameIdSameBatch(s: System, i: nat, b: MetricBatch, j: nat, c: MetricBatch)
    requires AgentsInv(s) && NotWrapped(s)
    requires i < |s.agents| && b in s.agents[i].built
    requires j < |s.agents| && c in s.agents[j].built
    requires b.batchId == c.batchId
    ensures i == j && b == c
  {
    hide BatchId, SequenceOf, QueueInv, Conserved, Counted;
    var x, y := s.agents[i], s.agents[j];
    assert AgentAt(s, i) && AgentAt(s, j);
    var k :| 0 <= k < |x.built| && x.built[k] == b;
    var l :| 0 <= l < |y.built| && y.built[l] == c;
    assert BuiltAt(x, k) && BuiltAt(y, l);
    IdsCollideIff(x.builder.clientId, x.builder.sessionNonce, k, y.builder.clientId, y.builder.sessionNonce, l);
    assert SamePair(s, i, j);
    SmallRemainders(k, l);
  }

  lemma SmallRemainders(k: nat, l: nat)
    requires k < TWO_64 && l < TWO_64 && k % TWO_64 == l % TWO_64
    ensures k == l
  {
  }

  // ----- the invariant

  ghost predicate EnvelopeOk(s: System, e: Envelope) {
    e.agent < |s.agents| && e.batch in s.agents[e.agent].ledger.accepted
  }

  /** The receipt is for a batch of that agent, and that batch is committed. */
  ghost predicate ReceiptOk(s: System, c: Receipt) {
    exists b :: Envelope(c.agent, b) in s.network && b in s.accepted && b.batchId == c.batchId
  }

  ghost predicate CommitOk(s: System, b: MetricBatch) {
    exists i :: Envelope(i, b) in s.network
  }

  ghost predicate AcknowledgedOk(s: System, i: nat)
    requires i < |s.agents|
  {
    forall b :: b in s.agents[i].ledger.acknowledged ==> b in s.accepted
  }

  ghost predicate SystemInv(s: System) {
    && AgentsInv(s)
    && (forall e :: e in s.network ==> EnvelopeOk(s, e))
    && (forall c :: c in s.receipts ==> ReceiptOk(s, c))
    && (forall b :: b in s.accepted ==> CommitOk(s, b))
    && (forall i :: 0 <= i < |s.agents| ==> AcknowledgedOk(s, i))
    && s.store.capacity >= 1 && Acceptable(s.accepted) && s.store == StateOf(s.store.capacity, s.accepted)
  }

  /** Replacing one agent by a later state of itself. */
  ghost predicate AgentMoves(a: Agent, next: Agent) {
    && AgentInv(next)
    && a.ledger.accepted <= next.ledger.accepted && a.built <= next.built
    && next.builder.clientId == a.builder.clientId && next.builder.sessionNonce == a.builder.sessionNonce
  }

  lemma AgentMovesKeepsInv(s: System, i: nat, next: Agent)
    requires SystemInv(s) && i < |s.agents| && AgentMoves(s.agents[i], next)
    requires forall b :: b in next.ledger.acknowledged ==> b in s.accepted
    ensures SystemInv(s.(agents := s.agents[i := next]))
  {
    hide AgentInv, Acceptable, StateOf;
    var t := s.(agents := s.agents[i := next]);
    forall k | 0 <= k < |t.agents| ensures AgentAt(t, k) && AcknowledgedOk(t, k) {
      assert AgentAt(s, k) && AcknowledgedOk(s, k);
    }
    forall k, l | 0 <= k < |t.agents| && 0 <= l < |t.agents| && SamePair(t, k, l) ensures k == l {
      assert SamePair(s, k, l);
    }
    forall e | e in t.network ensures EnvelopeOk(t, e) {
      assert EnvelopeOk(s, e);
    }
    forall c | c in t.receipts ensures ReceiptOk(t, c) {
      assert ReceiptOk(s, c);
    }
    forall b | b in t.accepted ensures CommitOk(t, b) {
      assert CommitOk(s, b);
    }
  }

  lemma SendKeepsInv(s: System, i: nat)
    requires SystemInv(s) && i < |s.agents|
    ensures SystemInv(Step(s, Send(i)))
  {
    hide AgentInv, Acceptable, StateOf;
    var a, next := s.agents[i], MarkNextInFlight(s.agents[i].ledger.queue).1;
    assert AgentAt(s, i) && AcknowledgedOk(s, i);
    OpKeepsAgent(a, MarkOp);
    AgentMovesKeepsInv(s, i, AgentStep(a, MarkOp));
    if next.Some? {
      SentIsAccepted(a);
      AddEnvelope(s.(agents := s.agents[i := AgentStep(a, MarkOp)]), Envelope(i, next.value));
    }
  }

  lemma SentIsAccepted(a: Agent)
    requires AgentInv(a)
    ensures var next := MarkNextInFlight(a.ledger.queue).1; next.Some? ==> next.value in a.ledger.accepted
  {
    var e, k := a.ledger.queue.entries, FirstPending(a.ledger.queue.entries);
    if k < |e| {
      QueuedIsAccepted(a, k);
    }
  }

  lemma QueuedIsAccepted(a: Agent, k: nat)
    requires AgentInv(a) && k < |a.ledger.queue.entries|
    ensures a.ledger.queue.entries[k].batch in a.ledger.accepted
  {
    var queued := Batches(a.ledger.queue.entries);
    BatchesRemove(a.ledger.queue.entries, k);
    SubsequenceMember(queued, a.ledger.accepted, queued[k]);
  }

  lemma AddEnvelope(s: System, e: Envelope)
    requires SystemInv(s) && EnvelopeOk(s, e)
    ensures SystemInv(s.(network := s.network + {e}))
  {
    hide AgentInv, Acceptable, StateOf;
    var t := s.(network := s.network + {e});
    forall k | 0 <= k < |t.agents| ensures AgentAt(t, k) && AcknowledgedOk(t, k) {
      assert AgentAt(s, k) && AcknowledgedOk(s, k);
    }
    forall k, l | 0 <= k < |t.agents| && 0 <= l < |t.agents| && SamePair(t, k, l) ensures k == l {
      assert SamePair(s, k, l);
    }
    forall f | f in t.network ensures EnvelopeOk(t, f) {
      assert f == e || EnvelopeOk(s, f);
    }
    forall c | c in t.receipts ensures ReceiptOk(t, c) {
      assert ReceiptOk(s, c);
      var b :| Envelope(c.agent, b) in s.network && b in s.accepted && b.batchId == c.batchId;
      assert Envelope(c.agent, b) in t.network;
    }
    forall b | b in t.accepted ensures CommitOk(t, b) {
      assert CommitOk(s, b);
      var i :| Envelope(i, b) in s.network;
      assert Envelope(i, b) in t.network;
    }
  }

  /** The commit of a delivered batch, told from the history: new, repeated, or no event IDs left.
      A batch from the pipeline is never malformed, and a duplicate is the same batch. */
  lemma DeliveryOutcome(s: System, e: Envelope)
    requires SystemInv(s) && NotWrapped(s) && e in s.network
    ensures var (store, r) := Commit(s.store, e.batch);
            && (r == Ok(Committed) <==>
                  e.batch !in s.accepted && |LogOf(s.accepted)| + |e.batch.metrics| <= INT64_MAX)
            && (r == Ok(Duplicate) <==> e.batch in s.accepted)
            && (r.Err? ==> r.error == Constraint)
            && (r == Ok(Committed) ==> Acceptable(s.accepted + [e.batch]) && store == StateOf(s.store.capacity, s.accepted + [e.batch]))
            && (r != Ok(Committed) ==> store == s.store)
  {
    assert EnvelopeOk(s, e);
    DeliveredIsValid(s, e);
    CommitReaches(s.store.capacity, s.accepted, e.batch);
    AcceptableSnoc(s.accepted, e.batch);
    hide Acceptable, AgentInv, StateOf;
    if e.batch.batchId in IdsOf(s.accepted) {
      var k :| 0 <= k < |s.accepted| && s.accepted[k].batchId == e.batch.batchId;
      assert CommitOk(s, s.accepted[k]);
      var i :| Envelope(i, s.accepted[k]) in s.network;
      assert EnvelopeOk(s, Envelope(i, s.accepted[k]));
      AcceptedIsBuilt(s, i, s.accepted[k]);
      AcceptedIsBuilt(s, e.agent, e.batch);
      SameIdSameBatch(s, i, s.accepted[k], e.agent, e.batch);
    }
    if e.batch in s.accepted {
      var k :| 0 <= k < |s.accepted| && s.accepted[k] == e.batch;
      assert s.accepted[k].batchId in IdsOf(s.accepted);
    }
  }

  lemma AcceptedIsBuilt(s: System, i: nat, b: MetricBatch)
    requires AgentsInv(s) && i < |s.agents| && b in s.agents[i].ledger.accepted
    ensures b in s.agents[i].built
  {
    assert AgentAt(s, i);
  }

  lemma DeliveredIsValid(s: System, e: Envelope)
    requires AgentsInv(s) && EnvelopeOk(s, e)
    ensures ValidBatch(e.batch)
  {
    AcceptedIsBuilt(s, e.agent, e.batch);
    var a := s.agents[e.agent];
    assert AgentAt(s, e.agent);
    var k :| 0 <= k < |a.built| && a.built[k] == e.batch;
    assert BuiltAt(a, k);
  }

  lemma DeliverKeepsInv(s: System, e: Envelope)
    requires SystemInv(s) && NotWrapped(s) && e in s.network
    ensures SystemInv(DeliverStep(s, e))
  {
    DeliveryOutcome(s, e);
    hide AgentInv, Acceptable, StateOf, Commit;
    var t := DeliverStep(s, e);
    forall k | 0 <= k < |t.agents| ensures AgentAt(t, k) && AcknowledgedOk(t, k) {
      assert AgentAt(s, k) && AcknowledgedOk(s, k);
    }
    forall k, l | 0 <= k < |t.agents| && 0 <= l < |t.agents| && SamePair(t, k, l) ensures k == l {
      assert SamePair(s, k, l);
    }
    forall f | f in t.network ensures EnvelopeOk(t, f) {
      assert EnvelopeOk(s, f);
    }
    DeliverKeepsReceipts(s, e);
  }

  lemma DeliverKeepsReceipts(s: System, e: Envelope)
    requires SystemInv(s) && NotWrapped(s) && e in s.network
    ensures var t := DeliverStep(s, e);
            (forall c :: c in t.receipts ==> ReceiptOk(t, c)) && (forall b :: b in t.accepted ==> CommitOk(t, b))
  {
    DeliveryOutcome(s, e);
    hide AgentInv, AgentsInv, NotWrapped, Acceptable, StateOf, Commit;
    var t := DeliverStep(s, e);
    forall c | c in t.receipts ensures ReceiptOk(t, c) {
      if c in s.receipts {
        assert ReceiptOk(s, c);
        var b :| Envelope(c.agent, b) in s.network && b in s.accepted && b.batchId == c.batchId;
        assert b in t.accepted;
      } else {
        assert Envelope(c.agent, e.batch) == e && e.batch in t.accepted;
      }
    }
    forall b | b in t.accepted ensures CommitOk(t, b) {
      if b in s.accepted {
        assert CommitOk(s, b);
      } else {
        assert Envelope(e.agent, b) == e;
      }
    }
  }

  lemma ConfirmKeepsInv(s: System, c: Receipt)
    requires SystemInv(s) && NotWrapped(s) && c in s.receipts && c.agent < |s.agents|
    ensures SystemInv(Step(s, Confirm(c)))
  {
    hide Acceptable, StateOf, BatchId;
    var a := s.agents[c.agent];
    var next := AgentStep(a, AcknowledgeOp(c.batchId));
    assert AgentAt(s, c.agent) && AcknowledgedOk(s, c.agent);
    OpKeepsAgent(a, AcknowledgeOp(c.batchId));
    AcknowledgedIsCommitted(s, c);
    hide AgentInv;
    AgentMovesKeepsInv(s, c.agent, next);
  }

  /** What an acknowledgement removes from the queue is committed. */
  lemma AcknowledgedIsCommitted(s: System, c: Receipt)
    requires SystemInv(s) && NotWrapped(s) && c in s.receipts && c.agent < |s.agents|
    ensures var e := s.agents[c.agent].ledger.queue.entries;
            var i := FindId(e, c.batchId);
            i < |e| ==> e[i].batch in s.accepted
  {
    hide Acceptable, StateOf, BatchId;
    var a := s.agents[c.agent];
    var e, i := a.ledger.queue.entries, FindId(a.ledger.queue.entries, c.batchId);
    assert AgentAt(s, c.agent) && ReceiptOk(s, c);
    if i < |e| {
      var b :| Envelope(c.agent, b) in s.network && b in s.accepted && b.batchId == c.batchId;
      assert EnvelopeOk(s, Envelope(c.agent, b));
      QueuedIsAccepted(a, i);
      AcceptedIsBuilt(s, c.agent, b);
      AcceptedIsBuilt(s, c.agent, e[i].batch);
      SameIdSameBatch(s, c.agent, b, c.agent, e[i].batch);
    }
  }

  lemma DisconnectKeepsInv(s: System, i: nat)
    requires SystemInv(s) && i < |s.agents|
    ensures SystemInv(Step(s, Disconnect(i)))
  {
    hide AgentInv, Acceptable, StateOf, AgentStep;
    assert AgentAt(s, i) && AcknowledgedOk(s, i);
    OpKeepsAgent(s.agents[i], ResetOp);
    ResetAcknowledgesNothing(s.agents[i]);
    AgentMovesKeepsInv(s, i, AgentStep(s.agents[i], ResetOp));
  }

  lemma ProduceKeepsInv(s: System, i: nat, metrics: seq<Metric>)
    requires SystemInv(s) && NotWrapped(Step(s, Produce(i, metrics))) && i < |s.agents|
    ensures SystemInv(Step(s, Produce(i, metrics)))
  {
    hide AgentInv, Acceptable, StateOf, Build, Apply;
    var next := Step(s, Produce(i, metrics)).agents[i];
    assert |next.built| <= TWO_64;
    assert AgentAt(s, i) && AcknowledgedOk(s, i);
    ProduceKeepsAgent(s.agents[i], metrics);
    ProduceAcknowledgesNothing(s.agents[i], metrics);
    AgentMovesKeepsInv(s, i, ProduceStep(s.agents[i], metrics));
  }

  lemma StepKeepsInv(s: System, action: Action)
    requires SystemInv(s) && NotWrapped(s) && NotWrapped(Step(s, action))
    ensures SystemInv(Step(s, action))
  {
    hide SystemInv, NotWrapped, DeliverStep, ProduceStep, AgentStep;
    match action {
      case Produce(i, metrics) =>
        if i < |s.agents| {
          ProduceKeepsInv(s, i, metrics);
        }
      case Send(i) =>
        if i < |s.agents| {
          SendKeepsInv(s, i);
        }
      case Deliver(e) =>
        if e in s.network {
          DeliverKeepsInv(s, e);
        }
      case Confirm(c) =>
        if c in s.receipts && c.agent < |s.agents| {
          ConfirmKeepsInv(s, c);
        }
      case Disconnect(i) =>
        if i < |s.agents| {
          DisconnectKeepsInv(s, i);
        }
    }
  }

  lemma ProduceAcknowledgesNothing(a: Agent, metrics: seq<Metric>)
    ensures ProduceStep(a, metrics).ledger.acknowledged == a.ledger.acknowledged
  {
  }

  lemma ResetAcknowledgesNothing(a: Agent)
    ensures AgentStep(a, ResetOp).ledger.acknowledged == a.ledger.acknowledged
    ensures AgentStep(a, ResetOp).built == a.built && AgentStep(a, ResetOp).builder == a.builder
  {
  }

  // ----- runs

  /** No two agents share both client ID and session nonce. */
  ghost predicate DistinctConfigs(configs: seq<Config>) {
    forall i, j :: 0 <= i < j < |configs| ==>
      configs[i].clientId != configs[j].clientId || configs[i].nonce != configs[j].nonce
  }

  lemma InitInv(capacity: nat, configs: seq<Config>)
    requires capacity >= 1 && DistinctConfigs(configs)
    ensures SystemInv(Init(capacity, configs))
  {
    CommitRuns.EmptyIsReachable(capacity);
    var s := Init(capacity, configs);
    forall i | 0 <= i < |s.agents| ensures AgentAt(s, i) && AcknowledgedOk(s, i) {
      assert s.agents[i] == NewAgent(configs[i]);
      NewAgentInv(configs[i]);
    }
    forall i, j | 0 <= i < |s.agents| && 0 <= j < |s.agents| && SamePair(s, i, j) ensures i == j {
      assert s.agents[i] == NewAgent(configs[i]) && s.agents[j] == NewAgent(configs[j]);
    }
  }

  lemma NewAgentInv(c: Config)
    ensures AgentInv(NewAgent(c)) && NewAgent(c).ledger.acknowledged == []
  {
  }

  /** Histories only grow, so a run that ends before any counter wraps never saw one wrap. */
  lemma NotWrappedBefore(s: System, action: Action)
    requires s.store.capacity >= 1 && NotWrapped(Step(s, action))
    ensures NotWrapped(s)
  {
    var t := Step(s, action);
    forall i | 0 <= i < |s.agents| ensures |s.agents[i].built| <= TWO_64 {
      assert |t.agents[i].built| <= TWO_64;
      assert |s.agents[i].built| <= |t.agents[i].built|;
    }
  }

  lemma {:induction false} RunInv(capacity: nat, configs: seq<Config>, actions: seq<Action>)
    requires capacity >= 1 && DistinctConfigs(configs)
    requires NotWrapped(Run(Init(capacity, configs), actions))
    ensures SystemInv(Run(Init(capacity, configs), actions))
  {
    hide SystemInv, Step, NotWrapped;
    if actions == [] {
      InitInv(capacity, configs);
    } else {
      var n := |actions| - 1;
      var s := Run(Init(capacity, configs), actions[..n]);
      NotWrappedBefore(s, actions[n]);
      RunInv(capacity, configs, actions[..n]);
      StepKeepsInv(s, actions[n]);
    }
  }

  // ----- the theorems

  lemma LeftTheQueue(l: Ledger, b: MetricBatch)
    requires Conserved(l) && b in l.accepted
    ensures b in Batches(l.queue.entries) || b in l.acknowledged || b in l.evicted
  {
    hide Subsequence;
    assert b in multiset(l.accepted);
  }

  lemma WasOffered(a: Agent, b: MetricBatch)
    requires AllOffered(a) && b in a.built
    ensures b in a.ledger.accepted || b in a.ledger.rejected
  {
    assert b in multiset(a.built);
  }

  lemma OfferedAddUp(a: Agent)
    requires AllOffered(a)
    ensures |a.built| == |a.ledger.accepted| + |a.ledger.rejected|
  {
    assert |multiset(a.built)| == |a.built|;
    assert |multiset(a.ledger.accepted)| == |a.ledger.accepted| && |multiset(a.ledger.rejected)| == |a.ledger.rejected|;
  }

  /** What has become of a built batch, and how many of them were dropped. */
  ghost predicate Accounted(s: System, i: nat, b: MetricBatch)
    requires i < |s.agents|
  {
    var l := s.agents[i].ledger;
    && (b in Batches(l.queue.entries) || b in s.accepted || b in l.evicted || b in l.rejected)
    && |s.agents[i].built| == |l.queue.entries| + |l.acknowledged| + |l.evicted| + |l.rejected|
    && l.queue.dropped == (|l.evicted| + |l.rejected|) % TWO_64
  }

  /** No silent loss: in every run, a batch an agent built is still queued, or committed, or one of
      those evicted or turned away, which the drop counter has counted. */
  lemma NoSilentLoss(capacity: nat, configs: seq<Config>, actions: seq<Action>, i: nat, b: MetricBatch)
    requires capacity >= 1 && DistinctConfigs(configs)
    requires var s := Run(Init(capacity, configs), actions);
             NotWrapped(s) && i < |s.agents| && b in s.agents[i].built
    ensures Accounted(Run(Init(capacity, configs), actions), i, b)
  {
    hide SystemInv, NotWrapped, Step, Accounted;
    RunInv(capacity, configs, actions);
    BuiltIsAccounted(Run(Init(capacity, configs), actions), i, b);
  }

  lemma BuiltIsAccounted(s: System, i: nat, b: MetricBatch)
    requires SystemInv(s) && i < |s.agents| && b in s.agents[i].built
    ensures Accounted(s, i, b)
  {
    hide Acceptable, StateOf, BatchId, Subsequence, AllOffered;
    assert AgentAt(s, i) && AcknowledgedOk(s, i);
    WasOffered(s.agents[i], b);
    OfferedAddUp(s.agents[i]);
    if b in s.agents[i].ledger.accepted {
      LeftTheQueue(s.agents[i].ledger, b);
    }
    SizesAddUp(s.agents[i].ledger);
  }

  /** Acknowledged means committed: a batch leaves a queue by acknowledgement only once the store
      has it, with the payload that was built. */
  lemma AcknowledgedMeansCommitted(capacity: nat, configs: seq<Config>, actions: seq<Action>, i: nat, b: MetricBatch)
    requires capacity >= 1 && DistinctConfigs(configs)
    requires var s := Run(Init(capacity, configs), actions);
             NotWrapped(s) && i < |s.agents| && b in s.agents[i].ledger.acknowledged
    ensures b in Run(Init(capacity, configs), actions).accepted
  {
    RunInv(capacity, configs, actions);
    assert AcknowledgedOk(Run(Init(capacity, configs), actions), i);
  }

  lemma CommittedIsBuilt(s: System, b: MetricBatch)
    requires SystemInv(s) && b in s.accepted
    ensures exists i :: 0 <= i < |s.agents| && b in s.agents[i].built
  {
    hide Acceptable, StateOf, AgentInv;
    assert CommitOk(s, b);
    var i :| Envelope(i, b) in s.network;
    assert EnvelopeOk(s, Envelope(i, b));
    AcceptedIsBuilt(s, i, b);
  }

  lemma CommittedIdIsUnique(accepted: seq<MetricBatch>, k: nat)
    requires Acceptable(accepted) && k < |accepted|
    ensures forall j :: 0 <= j < |accepted| && j != k ==> accepted[j].batchId != accepted[k].batchId
  {
    forall j | 0 <= j < |accepted| && j != k ensures accepted[j].batchId != accepted[k].batchId {
      assert if j < k then IdsDifferAt(accepted, j, k) else IdsDifferAt(accepted, k, j);
    }
  }

  lemma StoreHoldsAccepted(s: System)
    requires SystemInv(s)
    ensures Acceptable(s.accepted) && s.store == StateOf(s.store.capacity, s.accepted)
  {
  }

  /** Effectively once: however often batches were sent, each committed batch was built by an agent,
      was committed once, and owns one block of the log, which holds its metrics in order. */
  lemma EffectivelyOnce(capacity: nat, configs: seq<Config>, actions: seq<Action>, k: nat)
    requires capacity >= 1 && DistinctConfigs(configs)
    requires var s := Run(Init(capacity, configs), actions); NotWrapped(s) && k < |s.accepted|
    ensures var s := Run(Init(capacity, configs), actions);
            var b, base, log := s.accepted[k], |LogOf(s.accepted[..k])|, LogOf(s.accepted);
            && (exists i :: 0 <= i < |s.agents| && b in s.agents[i].built)
            && (forall j :: 0 <= j < |s.accepted| && j != k ==> s.accepted[j].batchId != b.batchId)
            && base + |b.metrics| <= |log|
            && (forall m :: 0 <= m < |b.metrics| ==>
                  log[base + m] == Stored(b.metrics[m].(sourceClientId := b.clientId), base + m + 1))
            && s.store == StateOf(capacity, s.accepted)
  {
    hide SystemInv, NotWrapped, Acceptable, LogOf, StateOf, Step;
    RunInv(capacity, configs, actions);
    var s := Run(Init(capacity, configs), actions);
    StoreHoldsAccepted(s);
    CommittedIsBuilt(s, s.accepted[k]);
    CommittedIdIsUnique(s.accepted, k);
    CommitRuns.BatchOccupiesBlock(s.accepted, k);
  }

  /** What arrives at the store is always well formed: the only commit failure is that event IDs run
      out, and a duplicate is the very batch committed before. */
  lemma OnlyExhaustionFails(capacity: nat, configs: seq<Config>, actions: seq<Action>, e: Envelope)
    requires capacity >= 1 && DistinctConfigs(configs)
    requires var s := Run(Init(capacity, configs), actions); NotWrapped(s) && e in s.network
    ensures var s := Run(Init(capacity, configs), actions);
            Commit(s.store, e.batch).1 ==
            if e.batch in s.accepted then Ok(Duplicate)
            else if |LogOf(s.accepted)| + |e.batch.metrics| > INT64_MAX then Err(Constraint)
            else Ok(Committed)
  {
    RunInv(capacity, configs, actions);
    DeliveryOutcome(Run(Init(capacity, configs), actions), e);
  }

  /** What an agent builds is always well formed and new to its queue. */
  lemma BuiltIsQueueable(capacity: nat, configs: seq<Config>, actions: seq<Action>, i: nat, metrics: seq<Metric>)
    requires capacity >= 1 && DistinctConfigs(configs)
    requires var s := Run(Init(capacity, configs), actions);
             && NotWrapped(s) && i < |s.agents| && |s.agents[i].built| < TWO_64
             && Build(s.agents[i].builder, metrics).1.Ok?
    ensures var a := Run(Init(capacity, configs), actions).agents[i];
            Enqueue(a.ledger.queue, Build(a.builder, metrics).1.value).1 in {Enqueued, DroppedOldest, RejectedAllInFlight}
  {
    RunInv(capacity, configs, actions);
    var s := Run(Init(capacity, configs), actions);
    assert AgentAt(s, i);
    FreshIsNew(s.agents[i], metrics);
  }

  /** The limit on batches per session is exact: the batch built 2^64 calls after a committed one is
      answered as its duplicate, whatever it holds. */
  lemma WrappedIdIsTakenForDuplicate(capacity: nat, accepted: seq<MetricBatch>, k: nat, clientId: string, nonce: UInt64, i: nat, metrics: seq<Metric>)
    requires capacity >= 1 && Acceptable(accepted) && k < |accepted|
    requires accepted[k].batchId == BatchId(clientId, nonce, SequenceOf(i))
    requires clientId != "" && metrics != [] && AllValid(metrics)
    ensures var b := Build(Builder(clientId, nonce, SequenceOf(i + TWO_64)), metrics).1.value;
            Commit(StateOf(capacity, accepted), b).1 == Ok(Duplicate)
  {
    var builder := Builder(clientId, nonce, SequenceOf(i + TWO_64));
    BuildMeaning(builder, metrics);
    WrappedSequence(i);
    hide BatchId, Acceptable, ApplyAll;
    assert accepted[k].batchId in IdsOf(accepted);
  }

  lemma WrappedSequence(i: nat)
    ensures SequenceOf(i + TWO_64) == SequenceOf(i)
  {
  }

  lemma FreshIsNew(a: Agent, metrics: seq<Metric>)
    requires AgentInv(a) && |a.built| < TWO_64 && Build(a.builder, metrics).1.Ok?
    ensures var b := Build(a.builder, metrics).1.value; Queueable(b) && !Holds(a.ledger.queue, b.batchId)
  {
    var b, e := Build(a.builder, metrics).1.value, a.ledger.queue.entries;
    BuildMeaning(a.builder, metrics);
    var i := FindId(e, b.batchId);
    if i < |e| {
      QueuedIsAccepted(a, i);
      hide BatchId, SequenceOf, Conserved, QueueInv;
      var k :| 0 <= k < |a.built| && a.built[k] == e[i].batch;
      assert BuiltAt(a, k);
      IdsCollideIff(a.builder.clientId, a.builder.sessionNonce, k, a.builder.clientId, a.builder.sessionNonce, |a.built|);
      SmallRemainders(k, |a.built|);
    }
  }
}
