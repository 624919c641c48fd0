/** Whole runs of `commit_batch`: what a store that has seen any list of calls looks like. */
module CommitRuns {
  import opened Types
  import opened Sequences
  import opened Samples
  import opened Retention
  import opened StoreModel

  function Empty(cap: nat): Store {
    Store(cap, map[], {}, 0)
  }

  lemma EmptyIsReachable(cap: nat)
    ensures StateOf(cap, []) == Empty(cap) && Acceptable([])
  {
  }

  function Run(cap: nat, calls: seq<MetricBatch>): (Store, seq<Result<Outcome, StoreError>>)
    requires cap >= 1
    ensures Run(cap, calls).0.capacity == cap && |Run(cap, calls).1| == |calls|
  {
    if calls == [] then (Empty(cap), [])
    else
      var (st, outcomes) := Run(cap, calls[..|calls| - 1]);
      var (next, r) := Commit(st, calls[|calls| - 1]);
      (next, outcomes + [r])
  }

  /** The calls that were answered with "committed". */
  function CommittedCalls(calls: seq<MetricBatch>, outcomes: seq<Result<Outcome, StoreError>>): seq<MetricBatch>
    requires |calls| == |outcomes|
  {
    if calls == [] then []
    else
      var n := |calls| - 1;
      var before := CommittedCalls(calls[..n], outcomes[..n]);
      if outcomes[n] == Ok(Committed) then before + [calls[n]] else before
  }

  function Accepted(cap: nat, calls: seq<MetricBatch>): seq<MetricBatch>
    requires cap >= 1
  {
    CommittedCalls(calls, Run(cap, calls).1)
  }

  lemma RunSnoc(cap: nat, calls: seq<MetricBatch>)
    requires cap >= 1 && calls != []
    ensures var n := |calls| - 1;
            var r := Commit(Run(cap, calls[..n]).0, calls[n]).1;
            && Run(cap, calls).1 == Run(cap, calls[..n]).1 + [r]
            && Accepted(cap, calls) ==
               (if r == Ok(Committed) then Accepted(cap, calls[..n]) + [calls[n]] else Accepted(cap, calls[..n]))
  {
    var n := |calls| - 1;
    assert Run(cap, calls).1[..n] == Run(cap, calls[..n]).1;
  }

  /** Whatever was called, the state is determined by the committed calls alone. */
  lemma {:induction false} RunReaches(cap: nat, calls: seq<MetricBatch>)
    requires cap >= 1
    ensures Acceptable(Accepted(cap, calls))
    ensures Run(cap, calls).0 == StateOf(cap, Accepted(cap, calls))
  {
    EmptyIsReachable(cap);
    if calls != [] {
      var n := |calls| - 1;
      RunReaches(cap, calls[..n]);
      RunSnoc(cap, calls);
      CommitReaches(cap, Accepted(cap, calls[..n]), calls[n]);
    }
  }

  lemma AcceptableInit(accepted: seq<MetricBatch>)
    requires Acceptable(accepted) && accepted != []
    ensures Acceptable(accepted[..|accepted| - 1])
  {
    var init := accepted[..|accepted| - 1];
    forall i | 0 <= i < |init| ensures ValidAt(init, i) {
      assert ValidAt(accepted, i);
    }
    forall i, j | 0 <= i < j < |init| ensures IdsDifferAt(init, i, j) {
      assert IdsDifferAt(accepted, i, j);
    }
  }

  /** Replaying only acceptable batches commits every one of them. */
  lemma {:induction false} RunOfAccepted(cap: nat, accepted: seq<MetricBatch>)
    requires cap >= 1 && Acceptable(accepted)
    ensures Run(cap, accepted).0 == StateOf(cap, accepted)
    ensures forall i :: 0 <= i < |accepted| ==> Run(cap, accepted).1[i] == Ok(Committed)
  {
    EmptyIsReachable(cap);
    if accepted != [] {
      var n := |accepted| - 1;
      var init := accepted[..n];
      assert init + [accepted[n]] == accepted;
      AcceptableInit(accepted);
      assert ValidAt(accepted, n);
      RunOfAccepted(cap, init);
      CommitReaches(cap, init, accepted[n]);
      RunSnoc(cap, accepted);
      assert Run(cap, accepted).0 == Commit(Run(cap, init).0, accepted[n]).0;
    }
  }

  /** Retries, rejections and their order leave no trace. */
  lemma DuplicatesLeaveNoTrace(cap: nat, calls: seq<MetricBatch>)
    requires cap >= 1
    ensures Run(cap, calls).0 == Run(cap, Accepted(cap, calls)).0
    ensures forall r :: r in Run(cap, Accepted(cap, calls)).1 ==> r == Ok(Committed)
  {
    RunReaches(cap, calls);
    RunOfAccepted(cap, Accepted(cap, calls));
  }

  /** Event IDs: 1 to the counter, each assigned once, in commit order, within 64 bits. */
  lemma EventIdsAreExact(cap: nat, calls: seq<MetricBatch>)
    requires cap >= 1
    ensures var log, last := LogOf(Accepted(cap, calls)), Run(cap, calls).0.currentEventId;
            && 0 <= last == |log| <= INT64_MAX
            && forall i :: 0 <= i < |log| ==> log[i].eventId == i + 1
  {
    RunReaches(cap, calls);
    LogWellFormed(Accepted(cap, calls));
  }

  lemma {:induction false} OutcomeOf(cap: nat, calls: seq<MetricBatch>, i: nat)
    requires cap >= 1 && i < |calls|
    ensures Run(cap, calls).1[i] == Commit(Run(cap, calls[..i]).0, calls[i]).1
  {
    var n := |calls| - 1;
    RunSnoc(cap, calls);
    if i < n {
      OutcomeOf(cap, calls[..n], i);
      assert calls[..n][..i] == calls[..i];
    }
  }

  lemma {:induction false} AcceptedGrows(cap: nat, calls: seq<MetricBatch>, i: nat)
    requires cap >= 1 && i <= |calls|
    ensures Accepted(cap, calls[..i]) <= Accepted(cap, calls)
  {
    if i == |calls| {
      assert calls[..i] == calls;
    } else {
      var n := |calls| - 1;
      AcceptedGrows(cap, calls[..n], i);
      assert calls[..n][..i] == calls[..i];
      RunSnoc(cap, calls);
    }
  }

  lemma CommittedIdStays(cap: nat, calls: seq<MetricBatch>, i: nat)
    requires cap >= 1 && i < |calls| && Run(cap, calls).1[i] == Ok(Committed)
    ensures calls[i].batchId in IdsOf(Accepted(cap, calls))
  {
    hide Commit, StateOf;
    var upToI, accepted := calls[..i + 1], Accepted(cap, calls);
    OutcomeOf(cap, calls, i);
    assert upToI[..i] == calls[..i];
    RunSnoc(cap, upToI);
    var k := |Accepted(cap, calls[..i])|;
    AcceptedGrows(cap, calls, i + 1);
    assert accepted[k] == calls[i];
  }

  /** Once a batch ID is committed, every later call with that ID is a duplicate or is malformed. */
  lemma CommittedAtMostOnce(cap: nat, calls: seq<MetricBatch>, i: nat, j: nat)
    requires cap >= 1 && i < j < |calls|
    requires calls[i].batchId == calls[j].batchId
    requires Run(cap, calls).1[i] == Ok(Committed)
    ensures Run(cap, calls).1[j] == if ValidBatch(calls[j]) then Ok(Duplicate) else Err(InvalidArgument)
  {
    OutcomeOf(cap, calls, i);
    OutcomeOf(cap, calls, j);
    var before := calls[..j];
    assert before[..i] == calls[..i];
    OutcomeOf(cap, before, i);
    CommittedIdStays(cap, before, i);
    RunReaches(cap, before);
    CommitReaches(cap, Accepted(cap, before), calls[j]);
  }

  /** After any run of commits, in any arrival order, each buffer is the newest `cap` entries of
      everything committed under its name. */
  lemma BuffersAreNewest(cap: nat, calls: seq<MetricBatch>, name: string, sorted: seq<Stored>)
    requires cap >= 1 && Sorted(sorted)
    requires forall s :: s in sorted <==> s in LogOf(Accepted(cap, calls)) && s.metric.name == name
    ensures BufferOf(Run(cap, calls).0.buffers, name) == Last(sorted, cap)
  {
    var accepted := Accepted(cap, calls);
    RunReaches(cap, calls);
    LogWellFormed(accepted);
    BufferIsRetained(LogOf(accepted), name, cap);
    RetainedIsSortAndTruncate(LogOf(accepted), name, cap, sorted);
  }

  lemma {:induction false} BlockIsStamped(accepted: seq<MetricBatch>, k: nat)
    requires k < |accepted|
    ensures var base := |LogOf(accepted[..k])|;
            && base + |accepted[k].metrics| <= |LogOf(accepted)|
            && LogOf(accepted)[base..base + |accepted[k].metrics|] == Stamp(accepted[k], base)
  {
    var n := |accepted| - 1;
    StampAt(accepted[n], |LogOf(accepted[..n])|, |accepted[n].metrics|);
    if k < n {
      BlockIsStamped(accepted[..n], k);
      assert accepted[..n][..k] == accepted[..k];
    }
  }

  lemma BlockLength(accepted: seq<MetricBatch>, k: nat)
    requires k < |accepted|
    ensures |LogOf(accepted[..k + 1])| == |LogOf(accepted[..k])| + |accepted[k].metrics|
  {
    assert accepted[..k + 1][..k] == accepted[..k];
    StampAt(accepted[k], |LogOf(accepted[..k])|, |accepted[k].metrics|);
  }

  /** Each committed batch occupies one block of the log: its metrics in order under consecutive event
      IDs, unchanged but for the source, which is the committing client; the next block follows at once. */
  lemma BatchOccupiesBlock(accepted: seq<MetricBatch>, k: nat)
    requires k < |accepted|
    ensures var base, b := |LogOf(accepted[..k])|, accepted[k];
            && |LogOf(accepted[..k + 1])| == base + |b.metrics| <= |LogOf(accepted)|
            && forall i :: 0 <= i < |b.metrics| ==>
                 LogOf(accepted)[base + i] == Stored(b.metrics[i].(sourceClientId := b.clientId), base + i + 1)
  {
    hide LogOf;
    var base, b := |LogOf(accepted[..k])|, accepted[k];
    BlockIsStamped(accepted, k);
    BlockLength(accepted, k);
    StampAt(b, base, |b.metrics|);
    var block := LogOf(accepted)[base..base + |b.metrics|];
    forall i | 0 <= i < |b.metrics|
      ensures LogOf(accepted)[base + i] == Stored(b.metrics[i].(sourceClientId := b.clientId), base + i + 1)
    {
      assert block[i] == StampOne(b.metrics[i], b.clientId, base + i + 1);
    }
  }
}
