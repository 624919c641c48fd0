/**
 What a client reads off an answer.  Each query of a reachable store is described in terms of the request's
 fields, the samples committed and retained, and their own fields: when it is refused, which samples it
 holds, in which order, and what its aggregates say about them.
 */
module Answers {
  import opened Types
  import opened Sequences
  import opened Samples
  import opened Retention
  import opened PageToken
  import opened StoreModel
  import opened PageWalk
  import opened Pagination
  import opened Eviction
  import opened Replay

  // ----- what is asked for

  /** The sample has the name asked for, and the client and the tags as far as they are asked for. */
  ghost predicate Asked(m: Metric, f: Filters) {
    && m.name == f.metricName
    && (f.clientId.Some? ==> m.sourceClientId == f.clientId.value)
    && forall k :: k in f.tags ==> k in m.tags && m.tags[k] == f.tags[k]
  }

  lemma MatchesIffAsked(m: Metric, f: Filters)
    ensures Matches(m, f) <==> Asked(m, f)
  {
  }

  ghost predicate FiltersRefused(f: Filters) {
    f.metricName == "" || f.clientId == Some("")
  }

  /** Latest-value queries are refused for a missing name or an empty client only. */
  lemma LatestRefusedIff(st: Store, f: Filters)
    ensures QueryLatest(st, f).Err? <==> FiltersRefused(f)
    ensures FiltersRefused(f) ==> QueryLatest(st, f) == Err(InvalidArgument)
  {
  }

  /** Event queries moreover for a negative cursor and for a limit outside 1 to 10000. */
  lemma EventsRefusedIff(st: Store, f: Filters, after: int, limit: nat)
    ensures var refused := FiltersRefused(f) || after < 0 || limit == 0 || limit > 10000;
            && (QueryEventsAfter(st, f, after, limit).Err? <==> refused)
            && (refused ==> QueryEventsAfter(st, f, after, limit) == Err(InvalidArgument))
  {
  }

  // ----- aggregates

  ghost predicate AllFinite(view: seq<Stored>) {
    forall i :: 0 <= i < |view| ==> view[i].metric.value.Finite?
  }

  function SumOfValues(view: seq<Stored>): real
    requires AllFinite(view)
  {
    if view == [] then 0.0 else SumOfValues(view[..|view| - 1]) + view[|view| - 1].metric.value.r
  }

  ghost predicate Attained(view: seq<Stored>, x: real) {
    exists i :: 0 <= i < |view| && view[i].metric.value == Finite(x)
  }

  /** Neutral for no samples; otherwise the average times the count is the sum of the samples' values, and
      maximum and minimum are values of samples and bound all of them. */
  ghost predicate Summarises(stats: AggregateStats, view: seq<Stored>) {
    && AllFinite(view)
    && if view == [] then stats == AggregateStats(0.0, 0.0, 0.0)
       else
         && stats.avg * (|view| as real) == SumOfValues(view)
         && Attained(view, stats.max) && Attained(view, stats.min)
         && forall i :: 0 <= i < |view| ==> stats.min <= view[i].metric.value.r <= stats.max
  }

  lemma {:induction false} ValuesAreOwn(view: seq<Stored>)
    requires AllFinite(view)
    ensures |Values(view)| == |view| && Sum(Values(view)) == SumOfValues(view)
    ensures forall i :: 0 <= i < |view| ==> Values(view)[i] == view[i].metric.value.r
  {
    if view != [] {
      var init := view[..|view| - 1];
      ValuesAreOwn(init);
      assert Values(view)[..|view| - 1] == Values(init);
    }
  }

  lemma ValueAttained(view: seq<Stored>, x: real)
    requires AllFinite(view) && x in Values(view)
    ensures Attained(view, x)
  {
    ValuesAreOwn(view);
    hide Values;
    var i :| 0 <= i < |Values(view)| && Values(view)[i] == x;
    assert view[i].metric.value == Finite(x);
  }

  lemma StatsSummarise(view: seq<Stored>)
    requires AllFinite(view)
    ensures Summarises(StatsOf(Values(view)), view)
  {
    hide Mean, Max, Min, Sum, Values, Attained, SumOfValues;
    ValuesAreOwn(view);
    if view != [] {
      var v := Values(view);
      ExtremesAttained(v);
      MeanBetween(v, Min(v), Max(v));
      ValueAttained(view, Max(v));
      ValueAttained(view, Min(v));
    }
  }

  lemma ViewIsFinite(cap: nat, req: RangeRequest, accepted: seq<MetricBatch>, snapshot: int)
    requires Acceptable(accepted)
    ensures AllFinite(ViewOf(cap, req, accepted, snapshot))
  {
    var view := ViewOf(cap, req, accepted, snapshot);
    LogWellFormed(accepted);
    forall i | 0 <= i < |view| ensures view[i].metric.value.Finite? {
      ViewMember(cap, req, accepted, snapshot, view[i]);
    }
  }

  /** On every page of a session the aggregates summarise the samples in view. */
  lemma PageSummarisesView(cap: nat, req: RangeRequest, hist: seq<seq<MetricBatch>>,
                           rs: seq<Result<RangeResponse, StoreError>>, i: nat)
    requires Session(cap, req, hist, rs) && i < |rs|
    ensures rs[i].Ok? && Summarises(rs[i].value.stats, ViewOf(cap, req, hist[i], Snapshot(hist)))
  {
    EveryPage(cap, req, hist, rs, i);
    assert AcceptableAt(hist, i);
    ViewIsFinite(cap, req, hist[i], Snapshot(hist));
    StatsSummarise(ViewOf(cap, req, hist[i], Snapshot(hist)));
  }

  // ----- range queries

  /** Behind the cursor in (timestamp, event ID) order. */
  ghost predicate Behind(c: Cursor, s: Stored) {
    || s.metric.timestampMs > c.timestampMs
    || (s.metric.timestampMs == c.timestampMs && s.eventId > c.eventId)
  }

  ghost predicate InRange(s: Stored, req: RangeRequest, snapshot: int) {
    s.eventId <= snapshot && req.fromMs <= s.metric.timestampMs <= req.toMs && Asked(s.metric, req.filters)
  }

  /** The samples behind a cursor are the end of a key-ordered list. */
  lemma {:induction false} BehindIsSuffix(view: seq<Stored>, c: Cursor) returns (start: nat)
    requires Sorted(view)
    ensures start <= |view| && Filter(view, AfterCursor(c)) == view[start..]
    ensures forall i :: 0 <= i < |view| ==> (start <= i <==> Behind(c, view[i]))
  {
    if view == [] {
      return 0;
    }
    var n := |view| - 1;
    if Behind(c, view[n]) {
      start := BehindIsSuffix(view[..n], c);
      assert view[start..] == view[..n][start..] + [view[n]];
    } else {
      start := |view|;
      forall x | x in view ensures !Selects(AfterCursor(c), x) {
        var i :| 0 <= i < |view| && view[i] == x;
      }
      FilterNone(view, AfterCursor(c));
    }
  }

  /** The page holds the first `size` samples of the view from position `start` on, in order; when there
      are more, and only then, the continuation denotes the last one returned. */
  ghost predicate PageFrom(r: RangeResponse, view: seq<Stored>, start: nat, size: nat, snapshot: int) {
    var n := |r.metrics|;
    && 1 <= size && start <= |view|
    && n == (if |view| - start < size then |view| - start else size)
    && (forall i :: 0 <= i < n ==> r.metrics[i] == view[start + i].metric)
    && (|view| - start <= size ==> r.nextPageToken == "")
    && (|view| - start > size ==>
          var last := view[start + size - 1];
          Denotes(r.nextPageToken, Cursor(snapshot, last.metric.timestampMs, last.eventId)))
  }

  lemma PageIsFrom(view: seq<Stored>, start: nat, plan: RangePlan, snapshot: int)
    requires plan.pageSize >= 1 && start <= |view| && Remaining(view, plan.cursor) == view[start..]
    requires snapshot <= INT64_MAX && forall s :: s in view ==> 1 <= s.eventId <= snapshot
    ensures PageFrom(PageOfView(view, plan, snapshot), view, start, plan.pageSize, snapshot)
    ensures PageOfView(view, plan, snapshot).stats == StatsOf(Values(view))
  {
    hide StatsOf, Values, Metrics, Encode, Decode, Denotes;
    var rest := view[start..];
    var page := Take(rest, plan.pageSize);
    MetricsLength(page);
    forall i | 0 <= i < |page| ensures Metrics(page)[i] == view[start + i].metric {
      MetricsAt(page, i);
    }
    if |rest| > plan.pageSize {
      var c := CursorAt(snapshot, rest[plan.pageSize - 1]);
      assert rest[plan.pageSize - 1] in view;
      TokenRoundTrip(c);
      DecodeExact(Encode(c), c);
    }
  }

  lemma ViewInFields(cap: nat, req: RangeRequest, accepted: seq<MetricBatch>, snapshot: int)
    requires Acceptable(accepted)
    ensures forall s :: s in ViewOf(cap, req, accepted, snapshot) <==>
              s in Retained(LogOf(accepted), req.filters.metricName, cap) && InRange(s, req, snapshot)
  {
    forall s ensures s in ViewOf(cap, req, accepted, snapshot) <==>
              s in Retained(LogOf(accepted), req.filters.metricName, cap) && InRange(s, req, snapshot)
    {
      ViewMember(cap, req, accepted, snapshot, s);
      MatchesIffAsked(s.metric, req.filters);
    }
  }

  /** Every range query that is not refused: `view` is the key-ordered list of the retained samples asked
      for, in range and of the snapshot; the aggregates summarise all of it; the page is taken from behind
      the cursor, with 1000 samples when no size is asked for. */
  lemma RangeAnswer(cap: nat, accepted: seq<MetricBatch>, req: RangeRequest)
    returns (snapshot: int, view: seq<Stored>, start: nat)
    requires Acceptable(accepted) && QueryRange(StateOf(cap, accepted), req).Ok?
    ensures var r := QueryRange(StateOf(cap, accepted), req).value;
            && PageFrom(r, view, start, if req.pageSize == 0 then 1000 else req.pageSize, snapshot)
            && Summarises(r.stats, view)
    ensures Sorted(view)
    ensures forall s :: s in view <==>
              s in Retained(LogOf(accepted), req.filters.metricName, cap) && InRange(s, req, snapshot)
    ensures req.pageToken == "" ==> snapshot == |LogOf(accepted)| && start == 0
    ensures req.pageToken != "" ==>
              exists c :: Denotes(req.pageToken, c) && c.snapshotEventId == snapshot
                       && forall i :: 0 <= i < |view| ==> (start <= i <==> Behind(c, view[i]))
  {
    hide Acceptable, Decode, Denotes, PageFrom, Summarises, PageOfView, Filter, BuffersOf, ViewOf, LogOf, Behind, InRange, Sorted;
    var plan := RangePlanOf(req).value;
    snapshot := SnapshotFor(StateOf(cap, accepted), plan);
    view := ViewOf(cap, req, accepted, snapshot);
    QueryIsPageOfView(cap, req, accepted);
    ViewInSnapshot(cap, req, accepted, snapshot);
    ViewInFields(cap, req, accepted, snapshot);
    ViewIsFinite(cap, req, accepted, snapshot);
    StatsSummarise(view);
    LogFits(accepted);
    start := 0;
    assert view[0..] == view;
    if plan.cursor.Some? {
      start := BehindIsSuffix(view, plan.cursor.value);
      DecodeExact(req.pageToken, plan.cursor.value);
    }
    PageIsFrom(view, start, plan, snapshot);
  }

  // ----- latest sample

  /** Every latest-value query that is not refused: the newest of all committed samples asked for, or none
      when none of them is retained. */
  lemma LatestAnswer(cap: nat, accepted: seq<MetricBatch>, f: Filters)
    requires cap >= 1 && Acceptable(accepted) && !FiltersRefused(f)
    ensures var r, log := QueryLatest(StateOf(cap, accepted), f), LogOf(accepted);
            && r.Ok?
            && (r.value.Some? ==>
                  exists s :: s in log && Asked(s.metric, f) && s.metric == r.value.value
                           && forall t :: t in log && Asked(t.metric, f) ==>
                                t == s || t.metric.timestampMs < s.metric.timestampMs
                                || (t.metric.timestampMs == s.metric.timestampMs && t.eventId < s.eventId))
            && (r.value.None? <==>
                  forall s :: s in Retained(log, f.metricName, cap) ==> !Asked(s.metric, f))
  {
    var log := LogOf(accepted);
    LatestIsNewest(cap, accepted, f);
    LatestNoneIff(cap, accepted, f);
    hide Acceptable, QueryLatest, LogOf, Asked, Matches;
    var r := QueryLatest(StateOf(cap, accepted), f);
    forall m ensures Matches(m, f) <==> Asked(m, f) {
      MatchesIffAsked(m, f);
    }
    if r.value.Some? {
      var s :| NewestMatch(log, f, s) && s.metric == r.value.value;
      assert Asked(s.metric, f);
      forall t | t in log && Asked(t.metric, f)
        ensures t == s || t.metric.timestampMs < s.metric.timestampMs
                || (t.metric.timestampMs == s.metric.timestampMs && t.eventId < s.eventId)
      {
        assert Matches(t.metric, f);
      }
    }
  }

  lemma LatestNoneIff(cap: nat, accepted: seq<MetricBatch>, f: Filters)
    requires cap >= 1 && Acceptable(accepted) && !FiltersRefused(f)
    ensures QueryLatest(StateOf(cap, accepted), f) == Ok(None) <==>
            forall s :: s in Retained(LogOf(accepted), f.metricName, cap) ==> !Asked(s.metric, f)
  {
    var buffer, p := Retained(LogOf(accepted), f.metricName, cap), Matching(f);
    BufferIsRetained(LogOf(accepted), f.metricName, cap);
    hide Acceptable, LogOf, Asked, Matches, Retained;
    forall s ensures s in Filter(buffer, p) <==> s in buffer && Asked(s.metric, f) {
      FilterMember(buffer, p, s);
      MatchesIffAsked(s.metric, f);
    }
    if Filter(buffer, p) != [] {
      assert Filter(buffer, p)[0] in Filter(buffer, p);
    }
  }

  // ----- event replay

  /** Every event query that is not refused: `all` lists, in commit order, the retained samples asked for
      behind the cursor; the answer is the first `limit` of them with their event IDs. */
  lemma EventsAnswer(cap: nat, accepted: seq<MetricBatch>, f: Filters, after: int, limit: nat) returns (all: seq<Stored>)
    requires Acceptable(accepted) && QueryEventsAfter(StateOf(cap, accepted), f, after, limit).Ok?
    ensures var events := QueryEventsAfter(StateOf(cap, accepted), f, after, limit).value;
            && |events| == (if |all| < limit then |all| else limit)
            && forall i :: 0 <= i < |events| ==> events[i] == MetricEvent(all[i].metric, all[i].eventId)
    ensures forall i, j :: 0 <= i < j < |all| ==> all[i].eventId < all[j].eventId
    ensures forall s :: s in all <==>
              s in Retained(LogOf(accepted), f.metricName, cap) && s.eventId > after && Asked(s.metric, f)
  {
    hide Acceptable, SortById, Filter, Matches, Asked, Events, Retained, LogOf;
    all := MatchingEvents(StateOf(cap, accepted), f, after);
    EventsAt(Take(all, limit));
    hide QueryEventsAfter, MatchingEvents, StateOf;
    MatchingEventsExact(cap, accepted, f, after);
    forall s ensures s in all <==>
              s in Retained(LogOf(accepted), f.metricName, cap) && s.eventId > after && Asked(s.metric, f)
    {
      MatchesIffAsked(s.metric, f);
      RetainedIsCommitted(cap, accepted, f.metricName, s);
    }
  }

  lemma RetainedIsCommitted(cap: nat, accepted: seq<MetricBatch>, name: string, s: Stored)
    ensures s in Retained(LogOf(accepted), name, cap) ==> s in LogOf(accepted)
  {
    HistoryMember(LogOf(accepted), name, s);
  }
}
