/**
 What bounded retention costs, exactly.  A sample is retained as long as fewer than `capacity`
 samples of its name with a larger key have been committed; from this follow the exact conditions
 under which queries on the bounded buffers answer for the whole history, and under which the
 aggregates stay the same from page to page.
 */
module Eviction {
  import opened Types
  import opened Sequences
  import opened Samples
  import opened Retention
  import opened PageToken
  import opened StoreModel
  import opened Aggregates
  import opened PageWalk
  import opened Pagination

  /** How many samples of the same name with a larger key were committed. */
  function NewerCount(log: seq<Stored>, s: Stored): nat {
    |Filter(log, NewerThan(s))|
  }

  lemma {:induction false} FilterInsertLength(h: seq<Stored>, x: Stored, p: Selector)
    ensures |Filter(Insert(h, x), p)| == |Filter(h, p)| + if Selects(p, x) then 1 else 0
    decreases |h|
  {
    if h == [] || !KeyLess(x, h[|h| - 1]) {
      FilterSnoc(h, x, p);
    } else {
      FilterInsertLength(h[..|h| - 1], x, p);
      FilterSnoc(Insert(h[..|h| - 1], x), h[|h| - 1], p);
    }
  }

  lemma {:induction false} NewerInHistory(log: seq<Stored>, s: Stored)
    ensures |Filter(History(log, s.metric.name), NewerThan(s))| == NewerCount(log, s)
  {
    if log != [] {
      var init, x := log[..|log| - 1], log[|log| - 1];
      NewerInHistory(init, s);
      FilterInsertLength(History(init, s.metric.name), x, NewerThan(s));
    }
  }

  lemma NewerAreBehind(h: seq<Stored>, i: nat)
    requires Sorted(h) && i < |h| && forall s :: s in h ==> s.metric.name == h[i].metric.name
    ensures |Filter(h, NewerThan(h[i]))| == |h| - 1 - i
  {
    var p, a, b := NewerThan(h[i]), h[..i + 1], h[i + 1..];
    assert h == a + b;
    FilterConcat(a, b, p);
    FilterNone(a, p);
    FilterAll(b, p);
  }

  /** Retention in terms of the committed samples alone: arrival order does not matter. */
  lemma RetainedIffFewNewer(log: seq<Stored>, cap: nat, s: Stored)
    requires WellFormedLog(log) && s in log
    ensures s in Retained(log, s.metric.name, cap) <==> NewerCount(log, s) < cap
  {
    var h := History(log, s.metric.name);
    HistoryMember(log, s.metric.name, s);
    HistorySorted(log, s.metric.name);
    NewerInHistory(log, s);
    var i :| 0 <= i < |h| && h[i] == s;
    forall t | t in h ensures t.metric.name == s.metric.name {
      HistoryMember(log, s.metric.name, t);
    }
    NewerAreBehind(h, i);
    assert s in Last(h, cap) <==> i >= |h| - cap;
  }

  // ----- filtering a suffix

  lemma FirstOfFilter(s: seq<Stored>, p: Selector)
    requires Filter(s, p) != []
    ensures Filter(s, p)[0] in s && Selects(p, Filter(s, p)[0])
  {
    FilterMember(s, p, Filter(s, p)[0]);
  }

  /** In a key-ordered list no sample of the front part occurs in the rest. */
  lemma FrontNotInRest(a: seq<Stored>, t: seq<Stored>, x: Stored)
    requires Sorted(a + t) && x in a
    ensures x !in t
  {
    var i :| 0 <= i < |a| && a[i] == x;
    assert forall k :: 0 <= k < |t| ==> t[k] == (a + t)[|a| + k] && KeyLess((a + t)[i], (a + t)[|a| + k]);
  }

  /** A suffix gives the same filtered list exactly when the first match lies in it. */
  lemma FirstMatchDecides(t: seq<Stored>, s: seq<Stored>, p: Selector)
    requires Sorted(s) && IsSuffix(t, s)
    ensures Filter(t, p) == Filter(s, p) <==> Filter(s, p) == [] || Filter(s, p)[0] in t
  {
    hide Filter, Sorted, Selects;
    var a := s[..|s| - |t|];
    assert s == a + t;
    FilterConcat(a, t, p);
    if Filter(a, p) != [] {
      FirstOfFilter(a, p);
      FrontNotInRest(a, t, Filter(a, p)[0]);
    } else if Filter(t, p) != [] {
      FirstOfFilter(t, p);
    }
  }

  lemma SuffixWithFirst(t: seq<Stored>, s: seq<Stored>)
    requires Sorted(s) && IsSuffix(t, s)
    ensures t == s <==> s == [] || s[0] in t
  {
    if s != [] && s[0] in t {
      var k :| 0 <= k < |t| && t[k] == s[0];
      assert s[|s| - |t| + k] == s[0];
    }
  }

  // ----- aggregates from page to page

  /** Nothing has left the view of a snapshot exactly when its first sample has not been evicted: fewer
      than `capacity` samples of the name with a larger key were committed by then. */
  lemma SameSamplesIff(cap: nat, req: RangeRequest, accepted: seq<MetricBatch>, later: seq<MetricBatch>, snapshot: int)
    requires cap >= 1 && Acceptable(accepted) && Acceptable(later) && accepted <= later
    requires snapshot <= |LogOf(accepted)|
    ensures var view := ViewOf(cap, req, accepted, snapshot);
            ViewOf(cap, req, later, snapshot) == view <==>
            view == [] || NewerCount(LogOf(later), view[0]) < cap
  {
    var view, after := ViewOf(cap, req, accepted, snapshot), ViewOf(cap, req, later, snapshot);
    LogWellFormed(accepted);
    LogWellFormed(later);
    SnapshotViewShrinks(cap, req, accepted, later, snapshot);
    ViewInSnapshot(cap, req, accepted, snapshot);
    SuffixWithFirst(after, view);
    if view != [] {
      ViewMember(cap, req, accepted, snapshot, view[0]);
      ViewMember(cap, req, later, snapshot, view[0]);
      LogMonotone(accepted, later);
      RetainedIffFewNewer(LogOf(later), cap, view[0]);
    }
  }

  /** Hence pages agree on average, maximum and minimum while the first matching sample survives. */
  lemma AggregatesStable(cap: nat, req: RangeRequest, hist: seq<seq<MetricBatch>>,
                         rs: seq<Result<RangeResponse, StoreError>>, i: nat)
    requires Session(cap, req, hist, rs) && i < |rs|
    requires var view := ViewOf(cap, req, hist[0], Snapshot(hist));
             view == [] || NewerCount(LogOf(hist[i]), view[0]) < cap
    ensures rs[i].Ok? && rs[i].value.stats == rs[0].value.stats
  {
    EveryPage(cap, req, hist, rs, 0);
    EveryPage(cap, req, hist, rs, i);
    assert AcceptableAt(hist, 0) && AcceptableAt(hist, i) && GrowsAt(hist, 0, i);
    SameSamplesIff(cap, req, hist[0], hist[i], Snapshot(hist));
  }

  /** What a suffix lacks. */
  function Lost(before: seq<Stored>, after: seq<Stored>): (lost: seq<Stored>)
    requires |after| <= |before|
    ensures IsSuffix(after, before) ==> before == lost + after
  {
    before[..|before| - |after|]
  }

  lemma SuffixStats(after: seq<Stored>, before: seq<Stored>)
    requires IsSuffix(after, before)
    ensures StatsOf(Values(after)) == StatsOf(Values(before)) <==> Expendable(Values(Lost(before, after)), Values(after))
  {
    hide StatsOf, Expendable, Values;
    ValuesConcat(Lost(before, after), after);
    StatsKeptIff(Values(Lost(before, after)), Values(after));
  }

  /** What a later page no longer has in view are exactly the samples of the first page's view that have
      been evicted since: those with at least `capacity` newer samples of the name. */
  lemma LostIffEvicted(cap: nat, req: RangeRequest, accepted: seq<MetricBatch>, later: seq<MetricBatch>, snapshot: int, s: Stored)
    requires cap >= 1 && Acceptable(accepted) && Acceptable(later) && accepted <= later
    requires snapshot <= |LogOf(accepted)| && s in ViewOf(cap, req, accepted, snapshot)
    ensures var view, after := ViewOf(cap, req, accepted, snapshot), ViewOf(cap, req, later, snapshot);
            && IsSuffix(after, view)
            && (s in Lost(view, after) <==> NewerCount(LogOf(later), s) >= cap)
  {
    hide Filter, Acceptable, LogOf, NewerCount, Sorted;
    var view, after := ViewOf(cap, req, accepted, snapshot), ViewOf(cap, req, later, snapshot);
    SnapshotViewShrinks(cap, req, accepted, later, snapshot);
    ViewInSnapshot(cap, req, accepted, snapshot);
    InFrontIff(Lost(view, after), after, s);
    StillInViewIff(cap, req, accepted, later, snapshot, s);
  }

  lemma InFrontIff(a: seq<Stored>, t: seq<Stored>, x: Stored)
    requires Sorted(a + t) && x in a + t
    ensures x in a <==> x !in t
  {
    if x in a {
      FrontNotInRest(a, t, x);
    }
  }

  lemma StillInViewIff(cap: nat, req: RangeRequest, accepted: seq<MetricBatch>, later: seq<MetricBatch>, snapshot: int, s: Stored)
    requires Acceptable(accepted) && Acceptable(later) && accepted <= later
    requires s in ViewOf(cap, req, accepted, snapshot)
    ensures s in ViewOf(cap, req, later, snapshot) <==> NewerCount(LogOf(later), s) < cap
  {
    LogWellFormed(later);
    LogMonotone(accepted, later);
    ViewMember(cap, req, accepted, snapshot, s);
    ViewMember(cap, req, later, snapshot, s);
    RetainedIffFewNewer(LogOf(later), cap, s);
  }

  /** The contract says the aggregates stay identical on every page of a query.  Exactly when a page does
      repeat the aggregates of the first page: nothing in view has been evicted
      since; or only zeros, and nothing is left; or values of the same mean as those left and within
      their range. */
  lemma AggregatesIdenticalIff(cap: nat, req: RangeRequest, hist: seq<seq<MetricBatch>>,
                               rs: seq<Result<RangeResponse, StoreError>>, i: nat)
    requires Session(cap, req, hist, rs) && i < |rs|
    ensures var first, now := ViewOf(cap, req, hist[0], Snapshot(hist)), ViewOf(cap, req, hist[i], Snapshot(hist));
            && rs[0].Ok? && rs[i].Ok? && |now| <= |first|
            && (rs[i].value.stats == rs[0].value.stats <==> Expendable(Values(Lost(first, now)), Values(now)))
  {
    EveryPage(cap, req, hist, rs, 0);
    EveryPage(cap, req, hist, rs, i);
    assert AcceptableAt(hist, 0) && AcceptableAt(hist, i) && GrowsAt(hist, 0, i);
    hide Acceptable, StatsOf, Expendable, Values, Encode, Decode;
    SnapshotViewShrinks(cap, req, hist[0], hist[i], Snapshot(hist));
    SuffixStats(ViewOf(cap, req, hist[i], Snapshot(hist)), ViewOf(cap, req, hist[0], Snapshot(hist)));
  }

  // ----- a two-page query whose aggregates change

  function Sample(name: string, v: real): Metric {
    Metric(name, Finite(v), map[], 0, "agent")
  }

  function ThreeSamples(name: string): seq<Stored> {
    [Stored(Sample(name, 10.0), 1), Stored(Sample(name, 20.0), 2), Stored(Sample(name, 30.0), 3)]
  }

  function TwoBatches(name: string): seq<MetricBatch> {
    [MetricBatch("agent", "a", [Sample(name, 10.0), Sample(name, 20.0)]),
     MetricBatch("agent", "b", [Sample(name, 30.0)])]
  }

  lemma TwoBatchesLog(name: string)
    ensures LogOf(TwoBatches(name)[..1]) == ThreeSamples(name)[..2] && LogOf(TwoBatches(name)) == ThreeSamples(name)
  {
    var b, log := TwoBatches(name), ThreeSamples(name);
    assert b[..1][..0] == [] && b[..1] == [b[0]];
    StampAt(b[0], 0, 2);
    StampAt(b[1], 2, 1);
    assert Stamp(b[0], 0) == log[..2];
    assert LogOf(b[..1]) == log[..2];
    assert Stamp(b[1], 2) == [log[2]];
    assert b[..|b| - 1] == b[..1];
  }

  lemma ThreeSamplesHistory(name: string)
    ensures var log := ThreeSamples(name);
            History(log[..2], name) == log[..2] && History(log, name) == log
  {
    var log := ThreeSamples(name);
    assert log[..1][..0] == [] && log[..2][..1] == log[..1] && log[..|log| - 1] == log[..2];
    assert History(log[..1], name) == log[..1];
  }

  function OneByOne(name: string): RangeRequest {
    RangeRequest(Filters(name, None, map[]), 0, 0, 1, "")
  }

  lemma ThreeSamplesViews(name: string)
    ensures var log := ThreeSamples(name);
            && ViewOf(2, OneByOne(name), TwoBatches(name)[..1], 2) == log[..2]
            && ViewOf(2, OneByOne(name), TwoBatches(name), 2) == [log[1]]
  {
    var log, p := ThreeSamples(name), InView(OneByOne(name).filters, 0, 0, 2);
    TwoBatchesLog(name);
    ThreeSamplesHistory(name);
    FilterAll(log[..2], p);
    assert Retained(log, name, 2) == [log[1]] + [log[2]];
    FilterSnoc([log[1]], log[2], p);
    FilterAll([log[1]], p);
  }

  lemma TwoBatchesAcceptable(name: string)
    requires name != ""
    ensures Acceptable(TwoBatches(name)[..1]) && Acceptable(TwoBatches(name))
  {
    TwoBatchesLog(name);
  }

  lemma ExampleValues(name: string)
    ensures var log := ThreeSamples(name);
            Values(log[..2]) == [10.0, 20.0] && Values([log[1]]) == [20.0]
  {
    hide Sum, StatsOf;
    var log := ThreeSamples(name);
    assert log[..2][..1] == [log[0]] && [log[0]][..0] == [] && [log[1]][..0] == [];
    assert Values([log[0]]) == [10.0];
  }

  lemma ExampleMeans(name: string)
    ensures var log := ThreeSamples(name);
            StatsOf(Values(log[..2])).avg == 15.0 && StatsOf(Values([log[1]])).avg == 20.0
  {
    hide Values, ThreeSamples;
    ExampleValues(name);
    assert [10.0, 20.0][..1] == [10.0] && [10.0][..0] == [] && [20.0][..0] == [];
    assert Sum([10.0]) == 10.0 && Sum([10.0, 20.0]) == 30.0 && Sum([20.0]) == 20.0;
  }

  lemma ExampleFirstPage(name: string)
    requires name != ""
    ensures var r := QueryRange(StateOf(2, TwoBatches(name)[..1]), OneByOne(name));
            r.Ok? && r.value.nextPageToken != ""
  {
    var b := TwoBatches(name);
    TwoBatchesLog(name);
    TwoBatchesAcceptable(name);
    ThreeSamplesViews(name);
    QueryIsPageOfView(2, OneByOne(name), b[..1]);
    PageContinues([], ThreeSamples(name)[..2], 1, 2);
  }

  function ExampleReplies(name: string): seq<Result<RangeResponse, StoreError>> {
    var b := TwoBatches(name);
    var first := QueryRange(StateOf(2, b[..1]), OneByOne(name));
    if first.Err? then [first]
    else [first, QueryRange(StateOf(2, b), OneByOne(name).(pageToken := first.value.nextPageToken))]
  }

  lemma ExampleSession(name: string)
    requires name != ""
    ensures Session(2, OneByOne(name), [TwoBatches(name)[..1], TwoBatches(name)], ExampleReplies(name))
    ensures |ExampleReplies(name)| == 2
  {
    hide Decode, Encode, Acceptable, RangePlanOf, StateOf, QueryRange;
    var hist, rs := [TwoBatches(name)[..1], TwoBatches(name)], ExampleReplies(name);
    ExampleFirstPage(name);
    TwoBatchesAcceptable(name);
    assert Growing(hist);
    assert ContinuesAt(2, OneByOne(name), hist, rs, 1);
  }

  /** The contract's unconditional claim fails: capacity two, page size one, one later commit. */
  lemma AggregatesCanChange(name: string)
    returns (req: RangeRequest, hist: seq<seq<MetricBatch>>, rs: seq<Result<RangeResponse, StoreError>>)
    requires name != ""
    ensures Session(2, req, hist, rs) && |rs| == 2
    ensures rs[0].Ok? && rs[0].value.stats.avg == 15.0
    ensures rs[1].Ok? && rs[1].value.stats.avg == 20.0
  {
    req, hist, rs := OneByOne(name), [TwoBatches(name)[..1], TwoBatches(name)], ExampleReplies(name);
    ExampleSession(name);
    TwoBatchesLog(name);
    ThreeSamplesViews(name);
    EveryPage(2, req, hist, rs, 0);
    EveryPage(2, req, hist, rs, 1);
    ExampleMeans(name);
  }

  // ----- answers for the whole history

  /** The same page computed from everything ever committed under the name. */
  function UnboundedView(log: seq<Stored>, req: RangeRequest, snapshot: int): seq<Stored> {
    View(History(log, req.filters.metricName), req, snapshot)
  }

  /** A range query sees what an unbounded store would show exactly when the oldest matching sample
      ever committed is still retained. */
  lemma RangeExactIff(cap: nat, req: RangeRequest, accepted: seq<MetricBatch>, snapshot: int)
    requires Acceptable(accepted)
    ensures var whole := UnboundedView(LogOf(accepted), req, snapshot);
            ViewOf(cap, req, accepted, snapshot) == whole <==>
            whole == [] || NewerCount(LogOf(accepted), whole[0]) < cap
  {
    var log, name := LogOf(accepted), req.filters.metricName;
    var p := InView(req.filters, req.fromMs, req.toMs, snapshot);
    var whole := UnboundedView(log, req, snapshot);
    LogWellFormed(accepted);
    HistorySorted(log, name);
    FirstMatchDecides(Retained(log, name, cap), History(log, name), p);
    if whole != [] {
      FirstOfFilter(History(log, name), p);
      HistoryMember(log, name, whole[0]);
      RetainedIffFewNewer(log, cap, whole[0]);
    }
  }

  /** The condition a caller can see: a range that starts after the oldest retained sample, or a
      buffer that has never been full, loses nothing to eviction. */
  lemma RangeExactAboveOldest(cap: nat, req: RangeRequest, accepted: seq<MetricBatch>, snapshot: int)
    requires Acceptable(accepted)
    requires var buffer := Retained(LogOf(accepted), req.filters.metricName, cap);
             |buffer| < cap || (buffer != [] && req.fromMs > buffer[0].metric.timestampMs)
    ensures ViewOf(cap, req, accepted, snapshot) == UnboundedView(LogOf(accepted), req, snapshot)
  {
    hide Filter, History, Matches;
    var log, name := LogOf(accepted), req.filters.metricName;
    var p := InView(req.filters, req.fromMs, req.toMs, snapshot);
    var h, buffer := History(log, name), Retained(log, name, cap);
    LogWellFormed(accepted);
    HistorySorted(log, name);
    FirstMatchDecides(buffer, h, p);
    if Filter(h, p) != [] {
      FirstOfFilter(h, p);
      var at := |h| - |buffer|;
      assert buffer == h[at..];
      assert forall k :: 0 <= k < at ==> h[k].metric.timestampMs <= buffer[0].metric.timestampMs;
      var i :| 0 <= i < |h| && h[i] == Filter(h, p)[0];
      assert buffer[i - at] == h[i];
    }
  }

  lemma {:induction false} HistoryLength(log: seq<Stored>, name: string)
    ensures |History(log, name)| <= |log|
  {
    if log != [] {
      HistoryLength(log[..|log| - 1], name);
      InsertLength(History(log[..|log| - 1], name), log[|log| - 1]);
    }
  }

  /** Under that condition the whole answer (page, aggregates, continuation or refusal) is the one a
      store that never evicts would give. */
  lemma RangeAnswersForHistory(cap: nat, unbounded: nat, req: RangeRequest, accepted: seq<MetricBatch>)
    requires Acceptable(accepted) && |LogOf(accepted)| <= unbounded
    requires var buffer := Retained(LogOf(accepted), req.filters.metricName, cap);
             |buffer| < cap || (buffer != [] && req.fromMs > buffer[0].metric.timestampMs)
    ensures QueryRange(StateOf(cap, accepted), req) == QueryRange(StateOf(unbounded, accepted), req)
  {
    hide Acceptable, PageOfView, Filter, History, Encode, Decode;
    HistoryLength(LogOf(accepted), req.filters.metricName);
    if RangePlanOf(req).Ok? {
      var snapshot := SnapshotFor(StateOf(cap, accepted), RangePlanOf(req).value);
      QueryIsPageOfView(cap, req, accepted);
      QueryIsPageOfView(unbounded, req, accepted);
      RangeExactAboveOldest(cap, req, accepted, snapshot);
    }
  }

  // ----- whole answers

  lemma TokensDiffer(snapshot: int, s: Stored, t: Stored)
    requires 1 <= s.eventId <= snapshot <= INT64_MAX && 1 <= t.eventId <= snapshot && KeyLess(s, t)
    ensures Encode(CursorAt(snapshot, s)) != Encode(CursorAt(snapshot, t))
  {
    TokenRoundTrip(CursorAt(snapshot, s));
    TokenRoundTrip(CursorAt(snapshot, t));
  }

  function Continuation(rest: seq<Stored>, size: nat, snapshot: int): string
    requires size >= 1
  {
    if |rest| > size then Encode(CursorAt(snapshot, rest[size - 1])) else ""
  }

  /** One page and its continuation tell two remainders apart, when one is a suffix of the other. */
  lemma PageTellsRemainder(after: seq<Stored>, before: seq<Stored>, size: nat, snapshot: int)
    requires size >= 1 && Sorted(before) && IsSuffix(after, before) && snapshot <= INT64_MAX
    requires forall s :: s in before ==> 1 <= s.eventId <= snapshot
    ensures after == before <==>
            && Metrics(Take(after, size)) == Metrics(Take(before, size))
            && Continuation(after, size, snapshot) == Continuation(before, size, snapshot)
  {
    hide Encode;
    if |after| < |before| {
      MetricsLength(Take(after, size));
      MetricsLength(Take(before, size));
      if |before| > size {
        var s := before[size - 1];
        assert s in before;
        TokenIsNotEmpty(CursorAt(snapshot, s));
        if |after| > size {
          var t := after[size - 1];
          assert t == before[|before| - |after| + size - 1] && t in before;
          TokensDiffer(snapshot, s, t);
        }
      }
    }
  }

  /** What a request leaves to be returned behind its cursor, from the whole history. */
  function WholeRemainder(log: seq<Stored>, req: RangeRequest, plan: RangePlan, snapshot: int): seq<Stored> {
    Remaining(UnboundedView(log, req, snapshot), plan.cursor)
  }

  lemma RemainingSuffix(after: seq<Stored>, before: seq<Stored>, cursor: Option<Cursor>)
    requires Sorted(before) && IsSuffix(after, before)
    ensures Sorted(Remaining(before, cursor)) && IsSuffix(Remaining(after, cursor), Remaining(before, cursor))
    ensures forall s :: s in Remaining(before, cursor) ==> s in before && (s in Remaining(after, cursor) <==> s in after)
  {
    if cursor.Some? {
      var p := AfterCursor(cursor.value);
      FilterSorted(before, p);
      FilterSuffix(after, before, p);
      forall s | s in Filter(before, p) ensures s in before && (s in Filter(after, p) <==> s in after) {
        FilterMember(before, p, s);
        FilterMember(after, p, s);
      }
    }
  }

  /** Two pages of views, one a suffix of the other, are the same answer exactly when the aggregates agree
      and the first sample still to be returned lies in both. */
  lemma SamePageIff(after: seq<Stored>, before: seq<Stored>, plan: RangePlan, snapshot: int)
    requires plan.pageSize >= 1 && Sorted(before) && IsSuffix(after, before) && snapshot <= INT64_MAX
    requires forall s :: s in before ==> 1 <= s.eventId <= snapshot
    ensures var rest := Remaining(before, plan.cursor);
            PageOfView(after, plan, snapshot) == PageOfView(before, plan, snapshot) <==>
            Expendable(Values(Lost(before, after)), Values(after)) && (rest == [] || rest[0] in after)
  {
    hide Expendable, StatsOf, Encode, Values, Metrics, Remaining, KeyLess;
    var rest, left := Remaining(before, plan.cursor), Remaining(after, plan.cursor);
    SuffixStats(after, before);
    RemainingSuffix(after, before, plan.cursor);
    PageTellsRemainder(left, rest, plan.pageSize, snapshot);
    SuffixWithFirst(left, rest);
    if rest != [] {
      assert rest[0] in rest;
    }
    PageParts(after, plan, snapshot);
    PageParts(before, plan, snapshot);
  }

  lemma PageParts(view: seq<Stored>, plan: RangePlan, snapshot: int)
    requires plan.pageSize >= 1
    ensures var rest := Remaining(view, plan.cursor);
            PageOfView(view, plan, snapshot) ==
            RangeResponse(Metrics(Take(rest, plan.pageSize)), StatsOf(Values(view)), Continuation(rest, plan.pageSize, snapshot))
  {
    hide Encode, StatsOf, Values, Metrics, Filter;
  }

  /** A view of the whole history and the bounded view of it. */
  lemma BoundedViewIsSuffix(cap: nat, req: RangeRequest, accepted: seq<MetricBatch>, snapshot: int)
    requires Acceptable(accepted)
    ensures var whole := UnboundedView(LogOf(accepted), req, snapshot);
            && Sorted(whole) && IsSuffix(ViewOf(cap, req, accepted, snapshot), whole)
            && forall s :: s in whole ==>
                 && 1 <= s.eventId <= snapshot
                 && (s in ViewOf(cap, req, accepted, snapshot) <==> NewerCount(LogOf(accepted), s) < cap)
  {
    var log, name := LogOf(accepted), req.filters.metricName;
    var p := InView(req.filters, req.fromMs, req.toMs, snapshot);
    var whole := UnboundedView(log, req, snapshot);
    LogWellFormed(accepted);
    HistorySorted(log, name);
    FilterSorted(History(log, name), p);
    FilterSuffix(Retained(log, name, cap), History(log, name), p);
    hide Acceptable, NewerCount, Sorted, LogOf;
    forall s | s in whole
      ensures 1 <= s.eventId <= snapshot && (s in ViewOf(cap, req, accepted, snapshot) <==> NewerCount(log, s) < cap)
    {
      FilterMember(History(log, name), p, s);
      HistoryMember(log, name, s);
      HistoryIds(log, name, s);
      RetainedIffFewNewer(log, cap, s);
      ViewMember(cap, req, accepted, snapshot, s);
    }
  }

  lemma WholeViewFromUnbounded(unbounded: nat, req: RangeRequest, accepted: seq<MetricBatch>, snapshot: int)
    requires |LogOf(accepted)| <= unbounded
    ensures ViewOf(unbounded, req, accepted, snapshot) == UnboundedView(LogOf(accepted), req, snapshot)
  {
    HistoryLength(LogOf(accepted), req.filters.metricName);
  }

  /** Exactly when a range query is answered as by a store that never evicts, page, aggregates and
      continuation: it is refused; or the evicted samples of the range can be spared from the aggregates,
      and the first sample still to be returned is retained. */
  lemma RangeAnswerExactIff(cap: nat, unbounded: nat, req: RangeRequest, accepted: seq<MetricBatch>)
    requires Acceptable(accepted) && |LogOf(accepted)| <= unbounded
    ensures var answer := QueryRange(StateOf(cap, accepted), req);
            answer == QueryRange(StateOf(unbounded, accepted), req) <==>
            answer.Err? ||
            var plan := RangePlanOf(req).value;
            var snapshot := SnapshotFor(StateOf(cap, accepted), plan);
            var whole, kept := UnboundedView(LogOf(accepted), req, snapshot), ViewOf(cap, req, accepted, snapshot);
            var rest := WholeRemainder(LogOf(accepted), req, plan, snapshot);
            && |kept| <= |whole|
            && Expendable(Values(Lost(whole, kept)), Values(kept))
            && (rest == [] || NewerCount(LogOf(accepted), rest[0]) < cap)
  {
    hide Acceptable, PageOfView, Filter, History, Encode, Decode, Expendable, Values, NewerCount, Sorted;
    if RangePlanOf(req).Ok? {
      var plan := RangePlanOf(req).value;
      var snapshot := SnapshotFor(StateOf(cap, accepted), plan);
      QueryIsPageOfView(cap, req, accepted);
      QueryIsPageOfView(unbounded, req, accepted);
      if snapshot <= |LogOf(accepted)| {
        var whole, kept := UnboundedView(LogOf(accepted), req, snapshot), ViewOf(cap, req, accepted, snapshot);
        WholeViewFromUnbounded(unbounded, req, accepted, snapshot);
        BoundedViewIsSuffix(cap, req, accepted, snapshot);
        LogFits(accepted);
        SamePageIff(kept, whole, plan, snapshot);
        RemainingSuffix(kept, whole, plan.cursor);
      }
    }
  }

  // ----- a range starting at the oldest retained timestamp

  lemma TwoSampleHistory(a: Stored, b: Stored)
    requires a.metric.name == b.metric.name && KeyLess(a, b)
    ensures History([a, b], a.metric.name) == [a, b]
  {
    var log := [a, b];
    assert log[..1] == [a] && [a][..0] == [];
    assert History(log[..1], a.metric.name) == [a];
  }

  function SameTwice(m: Metric, clientId: string, batchId: string): seq<MetricBatch> {
    [MetricBatch(clientId, batchId, [m, m])]
  }

  lemma SameTwiceLog(m: Metric, clientId: string, batchId: string)
    requires ValidMetric(m) && clientId != "" && batchId != ""
    ensures Acceptable(SameTwice(m, clientId, batchId))
    ensures LogOf(SameTwice(m, clientId, batchId)) == [StampOne(m, clientId, 1), StampOne(m, clientId, 2)]
  {
    var accepted := SameTwice(m, clientId, batchId);
    assert accepted[..0] == [];
    StampAt(accepted[0], 0, 2);
    assert LogOf(accepted) == Stamp(accepted[0], 0);
  }

  function AtInstant(name: string, timestampMs: Int64): RangeRequest {
    RangeRequest(Filters(name, None, map[]), timestampMs, timestampMs, 0, "")
  }

  lemma SameTwiceViews(m: Metric, clientId: string, batchId: string)
    requires ValidMetric(m) && clientId != "" && batchId != ""
    ensures var accepted, req := SameTwice(m, clientId, batchId), AtInstant(m.name, m.timestampMs);
            var a, b := StampOne(m, clientId, 1), StampOne(m, clientId, 2);
            && Retained(LogOf(accepted), m.name, 1) == [b]
            && ViewOf(1, req, accepted, 2) == [b] && ViewOf(2, req, accepted, 2) == [a, b]
  {
    var a, b := StampOne(m, clientId, 1), StampOne(m, clientId, 2);
    var p := InView(AtInstant(m.name, m.timestampMs).filters, m.timestampMs, m.timestampMs, 2);
    SameTwiceLog(m, clientId, batchId);
    TwoSampleHistory(a, b);
    FilterAll([a, b], p);
    FilterAll([b], p);
  }

  /** The bound is strict: a store of capacity one that was sent one sample twice answers a query from its
      oldest retained timestamp with one sample, a larger store with both. */
  lemma RangeInexactAtOldest(m: Metric, clientId: string, batchId: string)
    requires ValidMetric(m) && clientId != "" && batchId != ""
    ensures var accepted, req := SameTwice(m, clientId, batchId), AtInstant(m.name, m.timestampMs);
            var buffer := Retained(LogOf(accepted), m.name, 1);
            && Acceptable(accepted)
            && buffer != [] && req.fromMs == buffer[0].metric.timestampMs
            && QueryRange(StateOf(1, accepted), req) != QueryRange(StateOf(2, accepted), req)
  {
    var accepted, req := SameTwice(m, clientId, batchId), AtInstant(m.name, m.timestampMs);
    SameTwiceLog(m, clientId, batchId);
    SameTwiceViews(m, clientId, batchId);
    hide Acceptable, ViewOf, StatsOf, LogOf, Metrics, Values, Retained;
    QueryIsPageOfView(1, req, accepted);
    QueryIsPageOfView(2, req, accepted);
    MetricsLength(ViewOf(1, req, accepted, 2));
    MetricsLength(ViewOf(2, req, accepted, 2));
  }

  lemma LastOfFilter(s: seq<Stored>, p: Selector, i: nat)
    requires Sorted(s) && i < |s| && Selects(p, s[i])
    ensures var f := Filter(s, p); f != [] && !KeyLess(f[|f| - 1], s[i])
  {
    var f := Filter(s, p);
    FilterMember(s, p, s[i]);
    FilterSorted(s, p);
    if f[|f| - 1] != s[i] {
      LastIsGreatest(f, s[i]);
    }
  }

  /** `s` is the newest sample ever committed that matches. */
  ghost predicate NewestMatch(log: seq<Stored>, f: Filters, s: Stored) {
    && s in log && Matches(s.metric, f)
    && forall t :: t in log && Matches(t.metric, f) ==> t == s || KeyLess(t, s)
  }

  lemma LastMatchIsNewest(log: seq<Stored>, cap: nat, f: Filters)
    requires WellFormedLog(log)
    requires Filter(Retained(log, f.metricName, cap), Matching(f)) != []
    ensures var m := Filter(Retained(log, f.metricName, cap), Matching(f)); NewestMatch(log, f, m[|m| - 1])
  {
    hide Filter, History, KeyLess;
    var name, p := f.metricName, Matching(f);
    var h, b := History(log, name), Retained(log, name, cap);
    var m := Filter(b, p);
    var s := m[|m| - 1];
    FilterMember(b, p, s);
    HistoryMember(log, name, s);
    HistorySorted(log, name);
    FilterSuffix(b, h, p);
    forall t | t in log && Matches(t.metric, f) ensures t == s || KeyLess(t, s) {
      HistoryMember(log, name, t);
      var i :| 0 <= i < |h| && h[i] == t;
      LastOfFilter(h, p, i);
      KeysDiffer(h, s, t);
    }
  }

  /** A latest sample, when returned, is the newest match among everything ever committed. */
  lemma LatestIsNewest(cap: nat, accepted: seq<MetricBatch>, f: Filters)
    requires cap >= 1 && Acceptable(accepted) && ValidFilters(f)
    ensures var r := QueryLatest(StateOf(cap, accepted), f);
            && r.Ok?
            && (r.value.Some? ==> exists s :: NewestMatch(LogOf(accepted), f, s) && s.metric == r.value.value)
  {
    hide Filter, Matches, WellFormedLog, NewestMatch, History;
    LogWellFormed(accepted);
    BufferIsRetained(LogOf(accepted), f.metricName, cap);
    if Filter(Retained(LogOf(accepted), f.metricName, cap), Matching(f)) != [] {
      LastMatchIsNewest(LogOf(accepted), cap, f);
    }
  }

  lemma KeysDiffer(h: seq<Stored>, s: Stored, t: Stored)
    requires Sorted(h) && s in h && t in h && !KeyLess(s, t)
    ensures t == s || KeyLess(t, s)
  {
    var i :| 0 <= i < |h| && h[i] == s;
    var j :| 0 <= j < |h| && h[j] == t;
  }

  /** No answer means no match is retained: every match ever committed has at least `capacity`
      newer samples of the name. */
  lemma LatestMissesIff(cap: nat, accepted: seq<MetricBatch>, f: Filters)
    requires cap >= 1 && Acceptable(accepted) && ValidFilters(f)
    ensures QueryLatest(StateOf(cap, accepted), f) == Ok(None) <==>
            forall s :: s in LogOf(accepted) && Matches(s.metric, f) ==> NewerCount(LogOf(accepted), s) >= cap
  {
    var log, name := LogOf(accepted), f.metricName;
    var b, p := Retained(log, name, cap), Matching(f);
    LogWellFormed(accepted);
    BufferIsRetained(log, name, cap);
    if Filter(b, p) != [] {
      var s := Filter(b, p)[0];
      FirstOfFilter(b, p);
      RetainedIds(log, name, cap, s);
      RetainedIffFewNewer(log, cap, s);
    } else {
      forall s | s in log && Matches(s.metric, f) ensures NewerCount(log, s) >= cap {
        RetainedIffFewNewer(log, cap, s);
        FilterMember(b, p, s);
      }
    }
  }

  /** Without tag and client filters the latest sample of a name is never lost. */
  lemma UnfilteredLatestIsNeverLost(cap: nat, accepted: seq<MetricBatch>, name: string)
    requires cap >= 1 && Acceptable(accepted) && name != ""
    ensures QueryLatest(StateOf(cap, accepted), Filters(name, None, map[])) == Ok(None) <==>
            name !in NamesOf(LogOf(accepted))
  {
    var log, f := LogOf(accepted), Filters(name, None, map[]);
    LogWellFormed(accepted);
    BufferIsRetained(log, name, cap);
    if name in NamesOf(log) {
      var i :| 0 <= i < |log| && log[i].metric.name == name;
      HistoryMember(log, name, log[i]);
      var b := Retained(log, name, cap);
      RetainedIds(log, name, cap, b[|b| - 1]);
      FilterMember(b, Matching(f), b[|b| - 1]);
    } else {
      NeverCommitted(log, name);
    }
  }
}
