/**
 The in-memory store itself: the algorithms of the source (append fast path and binary search,
 staging and publishing, seek and early stop, scan and sort), each proved against its meaning in
 `StoreModel`.  The ghost field `accepted` lists the batches committed so far; `Valid` says that
 the whole state is determined by it.
 */
module TimeSeriesStore {
  import opened Types
  import opened Sequences
  import opened Samples
  import opened Retention
  import opened PageToken
  import opened StoreModel

  // ----- the algorithms in the unnamed namespace

  /** `std::ranges::upper_bound`: the first position whose key exceeds that of `x`. */
  method UpperBound(buffer: seq<Stored>, x: Stored) returns (i: nat)
    requires Sorted(buffer)
    ensures SplitsAt(buffer, x, i)
  {
    i := 0;
    var end := |buffer|;
    while i < end
      invariant 0 <= i <= end <= |buffer|
      invariant forall k :: 0 <= k < i ==> !KeyLess(x, buffer[k])
      invariant forall k :: end <= k < |buffer| ==> KeyLess(x, buffer[k])
    {
      var mid := (i + end) / 2;
      if KeyLess(x, buffer[mid]) {
        end := mid;
      } else {
        i := mid + 1;
      }
    }
  }

  /** `std::ranges::lower_bound` on timestamps. */
  method LowerBound(buffer: seq<Stored>, fromMs: Int64) returns (i: nat)
    requires Sorted(buffer)
    ensures i <= |buffer|
    ensures forall k :: 0 <= k < i ==> buffer[k].metric.timestampMs < fromMs
    ensures forall k :: i <= k < |buffer| ==> fromMs <= buffer[k].metric.timestampMs
  {
    i := 0;
    var end := |buffer|;
    while i < end
      invariant 0 <= i <= end <= |buffer|
      invariant forall k :: 0 <= k < i ==> buffer[k].metric.timestampMs < fromMs
      invariant forall k :: end <= k < |buffer| ==> fromMs <= buffer[k].metric.timestampMs
    {
      var mid := (i + end) / 2;
      if buffer[mid].metric.timestampMs < fromMs {
        i := mid + 1;
      } else {
        end := mid;
      }
    }
  }

  method InsertBoundedMetric(buffer: seq<Stored>, stored: Stored, capacity: nat) returns (updated: seq<Stored>)
    requires Sorted(buffer) && capacity >= 1
    ensures updated == InsertBounded(buffer, stored, capacity)
  {
    if buffer == [] || !KeyLess(stored, buffer[|buffer| - 1]) {
      updated := buffer + [stored];
    } else {
      var at := UpperBound(buffer, stored);
      InsertAt(buffer, stored, at);
      updated := buffer[..at] + [stored] + buffer[at..];
    }
    if |updated| > capacity {
      updated := updated[1..];
    }
  }

  method ComputeStats(values: seq<real>) returns (stats: AggregateStats)
    ensures stats == StatsOf(values)
  {
    stats := AggregateStats(0.0, 0.0, 0.0);
    if values == [] {
      return;
    }
    var sum := 0.0;
    stats := stats.(max := values[0], min := values[0]);
    for i := 0 to |values|
      invariant sum == Sum(values[..i])
      invariant i == 0 ==> stats.max == stats.min == values[0]
      invariant i > 0 ==> stats.max == Max(values[..i]) && stats.min == Min(values[..i])
    {
      assert values[..i + 1][..i] == values[..i];
      sum := sum + values[i];
      stats := stats.(max := if stats.max < values[i] then values[i] else stats.max,
                      min := if values[i] < stats.min then values[i] else stats.min);
    }
    assert values[..|values|] == values;
    stats := stats.(avg := sum / (|values| as real));
  }

  method MakeRangeQueryPlan(req: RangeRequest) returns (r: Result<RangePlan, StoreError>)
    ensures r == RangePlanOf(req)
  {
    if !ValidFilters(req.filters) {
      return Err(InvalidArgument);
    }
    if req.fromMs > req.toMs {
      return Err(InvalidArgument);
    }
    if req.pageSize > MAXIMUM_PAGE_SIZE {
      return Err(InvalidArgument);
    }
    var cursor: Option<Cursor> := None;
    if req.pageToken != "" {
      cursor := DecodePageToken(req.pageToken);
      if cursor.None? {
        return Err(InvalidArgument);
      }
    }
    return Ok(RangePlan(cursor, if req.pageSize == 0 then DEFAULT_PAGE_SIZE else req.pageSize));
  }

  /** The locals of the page loop. */
  datatype PageDraft = PageDraft(metrics: seq<Metric>, values: seq<real>, lastReturned: Option<Cursor>, hasMore: bool)

  /** The draft is the page, aggregates and continuation for the samples seen so far in view. */
  ghost predicate Drafts(d: PageDraft, view: seq<Stored>, plan: RangePlan, snapshot: int) {
    var rest := Remaining(view, plan.cursor);
    var page := Take(rest, plan.pageSize);
    && d.values == Values(view)
    && d.metrics == Metrics(page)
    && (d.hasMore <==> |rest| > plan.pageSize)
    && d.lastReturned == if page == [] then None else Some(CursorAt(snapshot, page[|page| - 1]))
  }

  /** One matching sample: always aggregated, copied when after the cursor and the page has room. */
  method DraftSample(d: PageDraft, stored: Stored, plan: RangePlan, snapshot: int, ghost view: seq<Stored>)
    returns (next: PageDraft)
    requires plan.pageSize >= 1 && Drafts(d, view, plan, snapshot)
    ensures Drafts(next, view + [stored], plan, snapshot)
  {
    ViewStep(view, stored, plan);
    MetricsSnoc(Take(Remaining(view, plan.cursor), plan.pageSize), stored);
    MetricsLength(Take(Remaining(view, plan.cursor), plan.pageSize));
    next := d.(values := d.values + [ValueOf(stored)]);
    if plan.cursor.Some? && !Selects(AfterCursor(plan.cursor.value), stored) {
      return;
    }
    if |next.metrics| == plan.pageSize {
      next := next.(hasMore := true);
      return;
    }
    next := next.(metrics := next.metrics + [stored.metric], lastReturned := Some(CursorAt(snapshot, stored)));
  }

  /** Seek to the first timestamp in range, stop after the last, and copy at most one page. */
  method BuildRangePage(buffer: seq<Stored>, req: RangeRequest, plan: RangePlan, snapshot: int)
    returns (response: RangeResponse)
    requires Sorted(buffer) && plan.pageSize >= 1
    ensures response == RangePage(buffer, req, plan, snapshot)
  {
    hide Drafts, Matches, Sorted, PageOfView, Filter;
    ghost var p := InView(req.filters, req.fromMs, req.toMs, snapshot);
    var start := LowerBound(buffer, req.fromMs);
    FilterNone(buffer[..start], p);
    NothingDrafted(plan, snapshot);
    var draft := PageDraft([], [], None, false);
    ghost var seen: seq<Stored> := [];
    var i := start;
    while i < |buffer| && buffer[i].metric.timestampMs <= req.toMs
      invariant start <= i <= |buffer|
      invariant seen == Filter(buffer[..i], p)
      invariant Drafts(draft, seen, plan, snapshot)
    {
      FilterExtend(buffer, i, p);
      if buffer[i].eventId <= snapshot && Matches(buffer[i].metric, req.filters) {
        draft := DraftSample(draft, buffer[i], plan, snapshot, seen);
        seen := seen + [buffer[i]];
      }
      i := i + 1;
    }
    WholeView(buffer, i, req, snapshot);
    response := FinishPage(draft, plan, snapshot, seen);
  }

  lemma NothingDrafted(plan: RangePlan, snapshot: int)
    ensures Drafts(PageDraft([], [], None, false), [], plan, snapshot)
  {
  }

  /** Aggregates, and a continuation only when another matching sample exists. */
  method FinishPage(d: PageDraft, plan: RangePlan, snapshot: int, ghost view: seq<Stored>) returns (response: RangeResponse)
    requires plan.pageSize >= 1 && Drafts(d, view, plan, snapshot)
    ensures response == PageOfView(view, plan, snapshot)
  {
    var stats := ComputeStats(d.values);
    var token := "";
    if d.hasMore && d.lastReturned.Some? {
      token := Encode(d.lastReturned.value);
    }
    response := RangeResponse(d.metrics, stats, token);
  }

  /** How one more sample in view changes the values, the remainder and the page. */
  lemma ViewStep(view: seq<Stored>, s: Stored, plan: RangePlan)
    ensures Values(view + [s]) == Values(view) + [ValueOf(s)]
    ensures var rest := Remaining(view, plan.cursor);
            var admitted := plan.cursor.None? || Selects(AfterCursor(plan.cursor.value), s);
            && Remaining(view + [s], plan.cursor) == (if admitted then rest + [s] else rest)
            && Take(rest + [s], plan.pageSize) ==
               (if |rest| < plan.pageSize then Take(rest, plan.pageSize) + [s] else Take(rest, plan.pageSize))
  {
    MetricsSnoc(view, s);
    TakeSnoc(Remaining(view, plan.cursor), s, plan.pageSize);
    if plan.cursor.Some? {
      FilterSnoc(view, s, AfterCursor(plan.cursor.value));
    }
  }

  /** Nothing past the first timestamp beyond the range is in view. */
  lemma WholeView(buffer: seq<Stored>, i: nat, req: RangeRequest, snapshot: int)
    requires Sorted(buffer) && i <= |buffer|
    requires i < |buffer| ==> buffer[i].metric.timestampMs > req.toMs
    ensures Filter(buffer, InView(req.filters, req.fromMs, req.toMs, snapshot)) == Filter(buffer[..i], InView(req.filters, req.fromMs, req.toMs, snapshot))
  {
    var p, rest := InView(req.filters, req.fromMs, req.toMs, snapshot), buffer[i..];
    BeyondRange(buffer, i, req.toMs);
    hide Sorted, Filter, Matches;
    FilterNone(rest, p);
    assert buffer == buffer[..i] + rest;
    FilterConcat(buffer[..i], rest, p);
  }

  lemma BeyondRange(buffer: seq<Stored>, i: nat, toMs: Int64)
    requires Sorted(buffer) && i <= |buffer|
    requires i < |buffer| ==> buffer[i].metric.timestampMs > toMs
    ensures forall s :: s in buffer[i..] ==> s.metric.timestampMs > toMs
  {
    assert forall k :: i < k < |buffer| ==> KeyLess(buffer[i], buffer[k]);
  }

  method ScanBuffer(buffer: seq<Stored>, f: Filters, after: int) returns (matches: seq<Stored>)
    ensures matches == Filter(buffer, EventAfter(f, after))
  {
    matches := [];
    for i := 0 to |buffer|
      invariant matches == Filter(buffer[..i], EventAfter(f, after))
    {
      FilterExtend(buffer, i, EventAfter(f, after));
      if buffer[i].eventId > after && Matches(buffer[i].metric, f) {
        matches := matches + [buffer[i]];
      }
    }
    assert buffer[..|buffer|] == buffer;
  }

  method Materialize(matches: seq<Stored>) returns (events: seq<MetricEvent>)
    ensures events == Events(matches)
  {
    events := [];
    for i := 0 to |matches|
      invariant events == Events(matches[..i])
    {
      assert matches[..i + 1][..i] == matches[..i];
      events := events + [MetricEvent(matches[i].metric, matches[i].eventId)];
    }
    assert matches[..|matches|] == matches;
  }

  lemma Overlay<V>(live: map<string, V>, staged: map<string, V>, name: string, v: V)
    ensures live + staged[name := v] == (live + staged)[name := v]
  {
  }

  lemma ApplyNext(buffers: map<string, seq<Stored>>, batch: MetricBatch, base: int, i: nat, cap: nat)
    requires cap >= 1 && i < |batch.metrics|
    ensures ApplyAll(buffers, StampFirst(batch, base, i + 1), cap) ==
            ApplyOne(ApplyAll(buffers, StampFirst(batch, base, i), cap), StampOne(batch.metrics[i], batch.clientId, base + i + 1), cap)
  {
    var next := StampFirst(batch, base, i + 1);
    assert next[..|next| - 1] == StampFirst(batch, base, i);
  }

  class InMemoryTimeSeriesStore {
    const capacityPerMetric: nat
    var metricBuffers: map<string, seq<Stored>>
    var committedBatchIds: set<string>
    var currentEventId: Int64
    ghost var accepted: seq<MetricBatch>

    function State(): Store
      reads this
    {
      Store(capacityPerMetric, metricBuffers, committedBatchIds, currentEventId)
    }

    ghost predicate Valid()
      reads this
    {
      capacityPerMetric >= 1 && Acceptable(accepted) && State() == StateOf(capacityPerMetric, accepted)
    }

    constructor (capacity: nat)
      ensures Valid() && accepted == []
      ensures capacityPerMetric == if capacity == 0 then 10000 else capacity
    {
      capacityPerMetric := if capacity == 0 then DEFAULT_CAPACITY_PER_METRIC else capacity;
      metricBuffers, committedBatchIds, currentEventId, accepted := map[], {}, 0, [];
    }

    lemma BuffersSorted(name: string)
      requires Valid()
      ensures Sorted(BufferOf(metricBuffers, name))
      ensures forall s :: s in BufferOf(metricBuffers, name) ==> s.metric.name == name && s.eventId <= currentEventId
    {
      var log := LogOf(accepted);
      LogWellFormed(accepted);
      BufferIsRetained(log, name, capacityPerMetric);
      RetainedSorted(log, name, capacityPerMetric);
      forall s | s in Retained(log, name, capacityPerMetric)
        ensures s.metric.name == name && s.eventId <= currentEventId
      {
        RetainedIds(log, name, capacityPerMetric, s);
      }
    }

    /** Swap prepared buffers into existing names and move the others in as new entries. */
    method PublishStagedBuffers(staged: map<string, seq<Stored>>)
      modifies this`metricBuffers
      ensures metricBuffers == old(metricBuffers) + staged
    {
      var source := staged;
      ghost var done: map<string, seq<Stored>> := map[];
      assert metricBuffers + done == metricBuffers;
      var todo := staged.Keys;
      while todo != {}
        invariant todo <= staged.Keys && done.Keys == staged.Keys - todo
        invariant forall n :: n in done ==> done[n] == staged[n]
        invariant todo <= source.Keys && forall n :: n in todo ==> source[n] == staged[n]
        invariant metricBuffers == old(metricBuffers) + done
        decreases |todo|
      {
        var name :| name in todo;
        todo := todo - {name};
        Overlay(old(metricBuffers), done, name, source[name]);
        done := done[name := source[name]];
        if name in metricBuffers {
          var live := metricBuffers[name];
          metricBuffers := metricBuffers[name := source[name]];
          source := source[name := live];
        } else {
          metricBuffers := metricBuffers[name := source[name]];
          source := source - {name};
        }
      }
      assert done == staged;
    }

    /** Copies a buffer when its name is first touched, then inserts into the copy only. */
    method StageMetric(staged: map<string, seq<Stored>>, stored: Stored) returns (next: map<string, seq<Stored>>)
      requires capacityPerMetric >= 1 && Sorted(BufferOf(metricBuffers + staged, stored.metric.name))
      ensures metricBuffers + next == ApplyOne(metricBuffers + staged, stored, capacityPerMetric)
    {
      var name := stored.metric.name;
      next := staged;
      if name !in next {
        next := next[name := BufferOf(metricBuffers, name)];
      }
      assert next[name] == BufferOf(metricBuffers + staged, name);
      var updated := InsertBoundedMetric(next[name], stored, capacityPerMetric);
      next := next[name := updated];
      assert next == staged[name := updated];
      Overlay(metricBuffers, staged, name, updated);
    }

    method StageBatch(batch: MetricBatch) returns (staged: map<string, seq<Stored>>, nextEventId: Int64)
      requires Valid() && ValidBatch(batch) && |batch.metrics| <= INT64_MAX - currentEventId
      ensures nextEventId == currentEventId + |batch.metrics|
      ensures metricBuffers + staged == ApplyAll(metricBuffers, Stamp(batch, currentEventId), capacityPerMetric)
    {
      hide StateOf, ApplyOne, InsertBounded, Sorted, BufferOf;
      staged, nextEventId := map[], currentEventId;
      assert metricBuffers + staged == metricBuffers;
      for i := 0 to |batch.metrics|
        invariant nextEventId == currentEventId + i
        invariant metricBuffers + staged == ApplyAll(metricBuffers, StampFirst(batch, currentEventId, i), capacityPerMetric)
      {
        StagedBufferSorted(batch, i, batch.metrics[i].name);
        ApplyNext(metricBuffers, batch, currentEventId, i, capacityPerMetric);
        nextEventId := nextEventId + 1;
        staged := StageMetric(staged, StampOne(batch.metrics[i], batch.clientId, nextEventId));
      }
    }

    /** The staged, all-or-nothing commit has the outcome and the effect of `Commit`: each metric
        inserted directly into the live buffers, in batch order. */
    method CommitBatch(batch: MetricBatch) returns (r: Result<Outcome, StoreError>)
      requires Valid()
      modifies this
      ensures Valid()
      ensures (State(), r) == Commit(old(State()), batch)
      ensures accepted == if r == Ok(Committed) then old(accepted) + [batch] else old(accepted)
    {
      CommitReaches(capacityPerMetric, accepted, batch);
      if !ValidBatch(batch) {
        return Err(InvalidArgument);
      }
      if batch.batchId in committedBatchIds {
        return Ok(Duplicate);
      }
      if |batch.metrics| > INT64_MAX - currentEventId {
        return Err(Constraint);
      }

      var staged, nextEventId := StageBatch(batch);
      committedBatchIds := committedBatchIds + {batch.batchId};
      PublishStagedBuffers(staged);
      currentEventId := nextEventId;
      accepted := accepted + [batch];
      return Ok(Committed);
    }

    lemma StagedBufferSorted(batch: MetricBatch, i: nat, name: string)
      requires Valid() && ValidBatch(batch) && i <= |batch.metrics|
      ensures Sorted(BufferOf(ApplyAll(metricBuffers, StampFirst(batch, currentEventId, i), capacityPerMetric), name))
    {
      var log, samples := LogOf(accepted), StampFirst(batch, currentEventId, i);
      LogWellFormed(accepted);
      StampAt(batch, currentEventId, i);
      ApplyAllRetains(log, samples, capacityPerMetric);
      BufferIsRetained(log + samples, name, capacityPerMetric);
      RetainedSorted(log + samples, name, capacityPerMetric);
    }

    method QueryRange(req: RangeRequest) returns (r: Result<RangeResponse, StoreError>)
      requires Valid()
      ensures r == StoreModel.QueryRange(State(), req)
    {
      var plan := MakeRangeQueryPlan(req);
      if plan.Err? {
        return Err(plan.error);
      }
      var snapshot := if plan.value.cursor.Some? then plan.value.cursor.value.snapshotEventId else currentEventId;
      if snapshot > currentEventId {
        return Err(InvalidArgument);
      }
      if req.filters.metricName !in metricBuffers {
        return Ok(EMPTY_RESPONSE);
      }
      BuffersSorted(req.filters.metricName);
      var response := BuildRangePage(metricBuffers[req.filters.metricName], req, plan.value, snapshot);
      return Ok(response);
    }

    method QueryLatest(f: Filters) returns (r: Result<Option<Metric>, StoreError>)
      requires Valid()
      ensures r == StoreModel.QueryLatest(State(), f)
    {
      if !ValidFilters(f) {
        return Err(InvalidArgument);
      }
      if f.metricName !in metricBuffers {
        return Ok(None);
      }
      var buffer := metricBuffers[f.metricName];
      var i := |buffer|;
      assert buffer[..i] == buffer;
      while i > 0
        invariant 0 <= i <= |buffer|
        invariant Filter(buffer, Matching(f)) == Filter(buffer[..i], Matching(f))
      {
        i := i - 1;
        FilterExtend(buffer, i, Matching(f));
        if Matches(buffer[i].metric, f) {
          return Ok(Some(buffer[i].metric));
        }
      }
      return Ok(None);
    }

    method CurrentEventId() returns (id: Int64)
      requires Valid()
      ensures id == |LogOf(accepted)|
    {
      id := currentEventId;
    }

    lemma OtherNamesNeverMatch(name: string, f: Filters, after: int)
      requires Valid() && name != f.metricName
      ensures Filter(BufferOf(metricBuffers, name), EventAfter(f, after)) == []
    {
      BuffersSorted(name);
      FilterNone(BufferOf(metricBuffers, name), EventAfter(f, after));
    }

    /** Scans every buffer, in whatever order the hash map yields them. */
    method CollectMatches(f: Filters, after: int) returns (matches: seq<Stored>)
      requires Valid()
      ensures matches == Filter(BufferOf(metricBuffers, f.metricName), EventAfter(f, after))
    {
      matches := [];
      var todo := metricBuffers.Keys;
      while todo != {}
        invariant todo <= metricBuffers.Keys
        invariant matches ==
                  if f.metricName in todo then [] else Filter(BufferOf(metricBuffers, f.metricName), EventAfter(f, after))
        decreases |todo|
      {
        var name :| name in todo;
        todo := todo - {name};
        var found := ScanBuffer(metricBuffers[name], f, after);
        matches := matches + found;
        if name != f.metricName {
          OtherNamesNeverMatch(name, f, after);
        }
      }
    }

    method QueryEventsAfter(f: Filters, after: Int64, fetchLimit: UInt32) returns (r: Result<seq<MetricEvent>, StoreError>)
      requires Valid()
      ensures r == StoreModel.QueryEventsAfter(State(), f, after, fetchLimit)
    {
      if !ValidFilters(f) {
        return Err(InvalidArgument);
      }
      if after < 0 {
        return Err(InvalidArgument);
      }
      if fetchLimit == 0 || fetchLimit > MAXIMUM_PAGE_SIZE {
        return Err(InvalidArgument);
      }
      var matches := CollectMatches(f, after);
      matches := SortById(matches);
      if |matches| > fetchLimit {
        matches := matches[..fetchLimit];
      }
      var events := Materialize(matches);
      return Ok(events);
    }
  }
}
