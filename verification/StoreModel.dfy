/**
 What each operation of the time-series store means: `Commit` one sample at a time into the live
 buffers, queries as filters over a whole buffer.  The state after any run of commits is `StateOf`
 the batches that were accepted, so every reachable store is a function of its commit history.
 */
module StoreModel {
  import opened Types
  import opened Sequences
  import opened Samples
  import opened Retention
  import opened PageToken

  const DEFAULT_PAGE_SIZE: UInt32 := 1000
  const MAXIMUM_PAGE_SIZE: UInt32 := 10000
  const DEFAULT_CAPACITY_PER_METRIC: nat := 10000

  datatype Outcome = Committed | Duplicate
  datatype StoreError = InvalidArgument | Constraint

  datatype RangeRequest = RangeRequest(
    filters: Filters, fromMs: Int64, toMs: Int64, pageSize: UInt32, pageToken: string)
  datatype AggregateStats = AggregateStats(avg: real, max: real, min: real)
  datatype RangeResponse = RangeResponse(metrics: seq<Metric>, stats: AggregateStats, nextPageToken: string)
  datatype RangePlan = RangePlan(cursor: Option<Cursor>, pageSize: UInt32)
  datatype MetricEvent = MetricEvent(metric: Metric, eventId: int)

  datatype Store = Store(
    capacity: nat, buffers: map<string, seq<Stored>>, committedIds: set<string>, currentEventId: int)

  // ----- commits

  function BufferOf(buffers: map<string, seq<Stored>>, name: string): seq<Stored> {
    if name in buffers then buffers[name] else []
  }

  function ApplyOne(buffers: map<string, seq<Stored>>, s: Stored, cap: nat): map<string, seq<Stored>>
    requires cap >= 1
  {
    buffers[s.metric.name := InsertBounded(BufferOf(buffers, s.metric.name), s, cap)]
  }

  function ApplyAll(buffers: map<string, seq<Stored>>, samples: seq<Stored>, cap: nat): map<string, seq<Stored>>
    requires cap >= 1
  {
    if samples == [] then buffers
    else ApplyOne(ApplyAll(buffers, samples[..|samples| - 1], cap), samples[|samples| - 1], cap)
  }

  /** The sample the store keeps for a metric: its source is the committing client. */
  function StampOne(m: Metric, clientId: string, eventId: int): Stored {
    Stored(m.(sourceClientId := clientId), eventId)
  }

  /** The first `n` metrics of a batch, stamped with the event IDs after `base`. */
  function StampFirst(batch: MetricBatch, base: int, n: nat): seq<Stored>
    requires n <= |batch.metrics|
  {
    if n == 0 then []
    else StampFirst(batch, base, n - 1) + [StampOne(batch.metrics[n - 1], batch.clientId, base + n)]
  }

  function Stamp(batch: MetricBatch, base: int): seq<Stored> {
    StampFirst(batch, base, |batch.metrics|)
  }

  function Commit(st: Store, batch: MetricBatch): (Store, Result<Outcome, StoreError>)
    requires st.capacity >= 1
  {
    if !ValidBatch(batch) then (st, Err(InvalidArgument))
    else if batch.batchId in st.committedIds then (st, Ok(Duplicate))
    else if |batch.metrics| > INT64_MAX - st.currentEventId then (st, Err(Constraint))
    else
      var samples := Stamp(batch, st.currentEventId);
      (st.(buffers := ApplyAll(st.buffers, samples, st.capacity),
           committedIds := st.committedIds + {batch.batchId},
           currentEventId := st.currentEventId + |batch.metrics|),
       Ok(Committed))
  }

  // ----- the state as a function of the accepted batches

  function LogOf(accepted: seq<MetricBatch>): seq<Stored> {
    if accepted == [] then []
    else
      var log := LogOf(accepted[..|accepted| - 1]);
      log + Stamp(accepted[|accepted| - 1], |log|)
  }

  function IdsOf(accepted: seq<MetricBatch>): set<string> {
    set i | 0 <= i < |accepted| :: accepted[i].batchId
  }

  ghost predicate ValidAt(accepted: seq<MetricBatch>, i: nat)
    requires i < |accepted|
  {
    ValidBatch(accepted[i])
  }

  ghost predicate IdsDifferAt(accepted: seq<MetricBatch>, i: nat, j: nat)
    requires i < j < |accepted|
  {
    accepted[i].batchId != accepted[j].batchId
  }

  /** What the accepted batches of every reachable store satisfy. */
  ghost predicate Acceptable(accepted: seq<MetricBatch>) {
    && (forall i :: 0 <= i < |accepted| ==> ValidAt(accepted, i))
    && (forall i, j :: 0 <= i < j < |accepted| ==> IdsDifferAt(accepted, i, j))
    && |LogOf(accepted)| <= INT64_MAX
  }

  function NamesOf(log: seq<Stored>): set<string> {
    set i | 0 <= i < |log| :: log[i].metric.name
  }

  function BuffersOf(log: seq<Stored>, cap: nat): map<string, seq<Stored>> {
    map name | name in NamesOf(log) :: Retained(log, name, cap)
  }

  function StateOf(cap: nat, accepted: seq<MetricBatch>): Store {
    var log := LogOf(accepted);
    Store(cap, BuffersOf(log, cap), IdsOf(accepted), |log|)
  }

  predicate ValidFilters(f: Filters) {
    f.metricName != "" && f.clientId != Some("")
  }

  /** The samples of a buffer that a range query is about, at a given snapshot. */
  function View(buffer: seq<Stored>, req: RangeRequest, snapshot: int): seq<Stored> {
    Filter(buffer, InView(req.filters, req.fromMs, req.toMs, snapshot))
  }

  // ----- range queries

  function Sum(v: seq<real>): real {
    if v == [] then 0.0 else Sum(v[..|v| - 1]) + v[|v| - 1]
  }

  function Max(v: seq<real>): real
    requires v != []
  {
    var x := v[|v| - 1];
    if |v| == 1 then x else var m := Max(v[..|v| - 1]); if m < x then x else m
  }

  function Min(v: seq<real>): real
    requires v != []
  {
    var x := v[|v| - 1];
    if |v| == 1 then x else var m := Min(v[..|v| - 1]); if x < m then x else m
  }

  function Mean(v: seq<real>): real
    requires v != []
  {
    Sum(v) / (|v| as real)
  }

  function StatsOf(v: seq<real>): AggregateStats {
    if v == [] then AggregateStats(0.0, 0.0, 0.0)
    else AggregateStats(Mean(v), Max(v), Min(v))
  }

  function RangePlanOf(req: RangeRequest): Result<RangePlan, StoreError> {
    if !ValidFilters(req.filters) || req.fromMs > req.toMs || req.pageSize > MAXIMUM_PAGE_SIZE then
      Err(InvalidArgument)
    else if req.pageToken != "" && Decode(req.pageToken).None? then Err(InvalidArgument)
    else
      Ok(RangePlan(if req.pageToken == "" then None else Decode(req.pageToken),
                   if req.pageSize == 0 then DEFAULT_PAGE_SIZE else req.pageSize))
  }

  function Remaining(view: seq<Stored>, cursor: Option<Cursor>): seq<Stored> {
    if cursor.None? then view else Filter(view, AfterCursor(cursor.value))
  }

  function CursorAt(snapshot: int, s: Stored): Cursor {
    Cursor(snapshot, s.metric.timestampMs, s.eventId)
  }

  function PageOfView(view: seq<Stored>, plan: RangePlan, snapshot: int): RangeResponse
    requires plan.pageSize >= 1
  {
    var rest := Remaining(view, plan.cursor);
    var page := Take(rest, plan.pageSize);
    RangeResponse(
      Metrics(page),
      StatsOf(Values(view)),
      if |rest| > plan.pageSize then Encode(CursorAt(snapshot, page[|page| - 1])) else "")
  }

  /** A page over the whole filtered buffer, with aggregates of all of it. */
  function RangePage(buffer: seq<Stored>, req: RangeRequest, plan: RangePlan, snapshot: int): RangeResponse
    requires plan.pageSize >= 1
  {
    PageOfView(View(buffer, req, snapshot), plan, snapshot)
  }

  const EMPTY_RESPONSE := RangeResponse([], AggregateStats(0.0, 0.0, 0.0), "")

  function SnapshotFor(st: Store, plan: RangePlan): int {
    if plan.cursor.Some? then plan.cursor.value.snapshotEventId else st.currentEventId
  }

  function QueryRange(st: Store, req: RangeRequest): Result<RangeResponse, StoreError> {
    var plan := RangePlanOf(req);
    if plan.Err? then Err(plan.error)
    else
      var snapshot := SnapshotFor(st, plan.value);
      if snapshot > st.currentEventId then Err(InvalidArgument)
      else if req.filters.metricName !in st.buffers then Ok(EMPTY_RESPONSE)
      else Ok(RangePage(st.buffers[req.filters.metricName], req, plan.value, snapshot))
  }

  // ----- latest sample and event replay

  function LatestIn(buffer: seq<Stored>, f: Filters): Option<Metric> {
    var m := Filter(buffer, Matching(f));
    if m == [] then None else Some(m[|m| - 1].metric)
  }

  function QueryLatest(st: Store, f: Filters): Result<Option<Metric>, StoreError> {
    if !ValidFilters(f) then Err(InvalidArgument)
    else Ok(LatestIn(BufferOf(st.buffers, f.metricName), f))
  }

  function InsertById(s: seq<Stored>, x: Stored): seq<Stored>
    decreases |s|
  {
    if s == [] || s[|s| - 1].eventId <= x.eventId then s + [x]
    else InsertById(s[..|s| - 1], x) + [s[|s| - 1]]
  }

  function SortById(s: seq<Stored>): seq<Stored> {
    if s == [] then [] else InsertById(SortById(s[..|s| - 1]), s[|s| - 1])
  }

  function Events(s: seq<Stored>): seq<MetricEvent> {
    if s == [] then [] else Events(s[..|s| - 1]) + [MetricEvent(s[|s| - 1].metric, s[|s| - 1].eventId)]
  }

  function MatchingEvents(st: Store, f: Filters, after: int): seq<Stored> {
    SortById(Filter(BufferOf(st.buffers, f.metricName), EventAfter(f, after)))
  }

  function QueryEventsAfter(st: Store, f: Filters, after: int, limit: nat): Result<seq<MetricEvent>, StoreError> {
    if !ValidFilters(f) || after < 0 || limit == 0 || limit > MAXIMUM_PAGE_SIZE then Err(InvalidArgument)
    else Ok(Events(Take(MatchingEvents(st, f, after), limit)))
  }

  // ----- reachable stores

  lemma {:induction false} StampAt(batch: MetricBatch, base: int, n: nat)
    requires n <= |batch.metrics|
    ensures |StampFirst(batch, base, n)| == n
    ensures forall i :: 0 <= i < n ==>
              StampFirst(batch, base, n)[i] == StampOne(batch.metrics[i], batch.clientId, base + i + 1)
  {
    if n > 0 {
      StampAt(batch, base, n - 1);
    }
  }

  lemma {:induction false} LogWellFormed(accepted: seq<MetricBatch>)
    requires forall i :: 0 <= i < |accepted| ==> ValidAt(accepted, i)
    ensures WellFormedLog(LogOf(accepted))
  {
    if accepted != [] {
      var n := |accepted| - 1;
      var init, b := accepted[..n], accepted[n];
      assert ValidAt(accepted, n);
      forall i | 0 <= i < n ensures ValidAt(init, i) {
        assert ValidAt(accepted, i);
      }
      LogWellFormed(init);
      StampAt(b, |LogOf(init)|, |b.metrics|);
    }
  }

  lemma AcceptableSnoc(accepted: seq<MetricBatch>, batch: MetricBatch)
    requires Acceptable(accepted)
    ensures Acceptable(accepted + [batch]) <==>
            ValidBatch(batch) && batch.batchId !in IdsOf(accepted) && |LogOf(accepted)| + |batch.metrics| <= INT64_MAX
  {
    var next, n := accepted + [batch], |accepted|;
    assert next[..n] == accepted;
    StampAt(batch, |LogOf(accepted)|, |batch.metrics|);
    forall i | 0 <= i < n ensures ValidAt(next, i) {
      assert ValidAt(accepted, i);
    }
    forall i, j | 0 <= i < j < n ensures IdsDifferAt(next, i, j) {
      assert IdsDifferAt(accepted, i, j);
    }
    if Acceptable(next) {
      assert ValidAt(next, n);
      forall i | 0 <= i < n ensures accepted[i].batchId != batch.batchId {
        assert IdsDifferAt(next, i, n);
      }
    }
    if ValidBatch(batch) && batch.batchId !in IdsOf(accepted) {
      assert ValidAt(next, n);
      assert forall i :: 0 <= i < n ==> accepted[i].batchId in IdsOf(accepted);
      assert forall i :: 0 <= i < n ==> IdsDifferAt(next, i, n);
    }
  }

  lemma IdsSnoc(accepted: seq<MetricBatch>, batch: MetricBatch)
    ensures IdsOf(accepted + [batch]) == IdsOf(accepted) + {batch.batchId}
  {
    var next := accepted + [batch];
    assert next[|accepted|] == batch;
    forall id | id in IdsOf(accepted) ensures id in IdsOf(next) {
      var i :| 0 <= i < |accepted| && accepted[i].batchId == id;
      assert next[i].batchId == id;
    }
  }

  /** Inserting samples straight into the live buffers is retention of the longer log. */
  lemma {:induction false} ApplyAllRetains(log: seq<Stored>, samples: seq<Stored>, cap: nat)
    requires cap >= 1
    ensures ApplyAll(BuffersOf(log, cap), samples, cap) == BuffersOf(log + samples, cap)
  {
    if samples == [] {
      assert log + samples == log;
    } else {
      var init, x := samples[..|samples| - 1], samples[|samples| - 1];
      ApplyAllRetains(log, init, cap);
      var mid := log + init;
      assert log + samples == mid + [x];
      ApplyOneRetains(mid, x, cap);
    }
  }

  lemma ApplyOneRetains(log: seq<Stored>, x: Stored, cap: nat)
    requires cap >= 1
    ensures ApplyOne(BuffersOf(log, cap), x, cap) == BuffersOf(log + [x], cap)
  {
    NamesSnoc(log, x);
    forall name ensures Retained(log + [x], name, cap) ==
            if x.metric.name == name then InsertBounded(Retained(log, name, cap), x, cap)
            else Retained(log, name, cap)
    {
      RetainedStep(log, x, name, cap);
    }
    BufferIsRetained(log, x.metric.name, cap);
  }

  lemma NamesSnoc(log: seq<Stored>, x: Stored)
    ensures NamesOf(log + [x]) == NamesOf(log) + {x.metric.name}
  {
    var t := log + [x];
    assert t[|log|] == x;
    forall n | n in NamesOf(log) ensures n in NamesOf(t) {
      var i :| 0 <= i < |log| && log[i].metric.name == n;
      assert t[i].metric.name == n;
    }
  }

  lemma BufferIsRetained(log: seq<Stored>, name: string, cap: nat)
    ensures BufferOf(BuffersOf(log, cap), name) == Retained(log, name, cap)
  {
    if name !in NamesOf(log) {
      NeverCommitted(log, name);
    }
  }

  lemma {:induction false} NeverCommitted(log: seq<Stored>, name: string)
    requires name !in NamesOf(log)
    ensures History(log, name) == []
  {
    if log != [] {
      var init := log[..|log| - 1];
      assert log == init + [log[|log| - 1]];
      NamesSnoc(init, log[|log| - 1]);
      NeverCommitted(init, name);
    }
  }

  /** One commit moves a reachable store to the next reachable store, or leaves it as it is; the
      outcome is decided by the batch, the accepted IDs and the remaining event IDs. */
  lemma CommitReaches(cap: nat, accepted: seq<MetricBatch>, batch: MetricBatch)
    requires cap >= 1 && Acceptable(accepted)
    ensures var (st, r) := Commit(StateOf(cap, accepted), batch);
            && (r == Err(InvalidArgument) <==> !ValidBatch(batch))
            && (r == Ok(Duplicate) <==> ValidBatch(batch) && batch.batchId in IdsOf(accepted))
            && (r == Ok(Committed) <==> ValidBatch(batch) && Acceptable(accepted + [batch]))
            && st == StateOf(cap, if r == Ok(Committed) then accepted + [batch] else accepted)
  {
    var log, next := LogOf(accepted), accepted + [batch];
    assert next[..|accepted|] == accepted;
    assert LogOf(next) == log + Stamp(batch, |log|);
    ApplyAllRetains(log, Stamp(batch, |log|), cap);
    StampAt(batch, |log|, |batch.metrics|);
    IdsSnoc(accepted, batch);
    AcceptableSnoc(accepted, batch);
  }

  /** The same in the fields of the batch: what makes it malformed, repeated, or too long for the event IDs
      that are left. */
  lemma CommitOutcome(cap: nat, accepted: seq<MetricBatch>, batch: MetricBatch)
    requires cap >= 1 && Acceptable(accepted)
    ensures var r := Commit(StateOf(cap, accepted), batch).1;
            var malformed := || batch.clientId == "" || batch.batchId == "" || batch.metrics == []
                             || exists i :: 0 <= i < |batch.metrics| &&
                                  (batch.metrics[i].name == "" || batch.metrics[i].value.NonFinite?);
            var repeated := exists i :: 0 <= i < |accepted| && accepted[i].batchId == batch.batchId;
            var fits := |LogOf(accepted)| + |batch.metrics| <= 0x7FFF_FFFF_FFFF_FFFF;
            && (r == Err(InvalidArgument) <==> malformed)
            && (r == Ok(Duplicate) <==> !malformed && repeated)
            && (r == Err(Constraint) <==> !malformed && !repeated && !fits)
            && (r == Ok(Committed) <==> !malformed && !repeated && fits)
  {
    hide LogOf, ApplyAll, Stamp, BuffersOf, Acceptable;
  }

  lemma {:induction false} LogMonotone(accepted: seq<MetricBatch>, later: seq<MetricBatch>)
    requires accepted <= later
    ensures LogOf(accepted) <= LogOf(later)
    decreases |later|
  {
    if accepted != later {
      LogMonotone(accepted, later[..|later| - 1]);
    }
  }

  // ----- aggregates

  lemma {:induction false} SumBounded(v: seq<real>, lo: real, hi: real)
    requires forall i :: 0 <= i < |v| ==> lo <= v[i] <= hi
    ensures (|v| as real) * lo <= Sum(v) <= (|v| as real) * hi
  {
    if v != [] {
      SumBounded(v[..|v| - 1], lo, hi);
      OneMore((|v| - 1) as real, Sum(v[..|v| - 1]), v[|v| - 1], lo, hi);
      assert (|v| - 1) as real + 1.0 == |v| as real;
    }
  }

  lemma OneMore(n: real, total: real, next: real, lo: real, hi: real)
    requires n * lo <= total <= n * hi && lo <= next <= hi
    ensures (n + 1.0) * lo <= total + next <= (n + 1.0) * hi
  {
    assert (n + 1.0) * lo == n * lo + lo && (n + 1.0) * hi == n * hi + hi;
  }

  lemma QuotientBetween(n: real, lo: real, total: real, hi: real)
    requires n > 0.0 && n * lo <= total <= n * hi
    ensures lo <= total / n <= hi && total / n * n == total
  {
    var q := total / n;
    assert q * n == total;
    PositiveFactor(n, q - lo);
    PositiveFactor(n, hi - q);
  }

  lemma PositiveFactor(n: real, d: real)
    requires n > 0.0
    ensures n * d >= 0.0 ==> d >= 0.0
  {
  }

  lemma {:induction false} ExtremesAttained(v: seq<real>)
    requires v != []
    ensures Max(v) in v && (forall i :: 0 <= i < |v| ==> v[i] <= Max(v))
    ensures Min(v) in v && (forall i :: 0 <= i < |v| ==> Min(v) <= v[i])
  {
    if |v| > 1 {
      ExtremesAttained(v[..|v| - 1]);
      assert v == v[..|v| - 1] + [v[|v| - 1]];
    }
  }

  lemma MeanBetween(v: seq<real>, lo: real, hi: real)
    requires v != [] && forall i :: 0 <= i < |v| ==> lo <= v[i] <= hi
    ensures lo <= Mean(v) <= hi
    ensures Mean(v) * (|v| as real) == Sum(v)
  {
    hide Sum;
    SumBounded(v, lo, hi);
    QuotientBetween(|v| as real, lo, Sum(v), hi);
  }

  /** The aggregates are the mean, the attained maximum and the attained minimum of the values. */
  lemma StatsMeaning(v: seq<real>)
    requires v != []
    ensures var s := StatsOf(v);
            && s.avg == Mean(v)
            && s.max in v && (forall i :: 0 <= i < |v| ==> v[i] <= s.max)
            && s.min in v && (forall i :: 0 <= i < |v| ==> s.min <= v[i])
            && s.min <= s.avg <= s.max
  {
    ExtremesAttained(v);
    MeanBetween(v, Min(v), Max(v));
  }
}
