/**
 Keyset pagination under concurrent commits.  A session follows `next_page_token` from page to page
 while any batches may be committed between two pages; the theorems hold for every session.
 */
module Pagination {
  import opened Types
  import opened Sequences
  import opened Samples
  import opened Retention
  import opened PageToken
  import opened StoreModel
  import opened PageWalk

  // ----- sessions

  ghost predicate AcceptableAt(hist: seq<seq<MetricBatch>>, i: nat)
    requires i < |hist|
  {
    Acceptable(hist[i])
  }

  ghost predicate GrowsAt(hist: seq<seq<MetricBatch>>, i: nat, j: nat)
    requires i <= j < |hist|
  {
    hist[i] <= hist[j]
  }

  /** The batches accepted at the time of each page: later pages see at least the earlier ones. */
  ghost predicate Growing(hist: seq<seq<MetricBatch>>) {
    && hist != []
    && (forall i :: 0 <= i < |hist| ==> AcceptableAt(hist, i))
    && (forall i, j :: 0 <= i <= j < |hist| ==> GrowsAt(hist, i, j))
  }

  /** Page `i` was asked for with the token page `i - 1` returned. */
  ghost predicate ContinuesAt(cap: nat, req: RangeRequest, hist: seq<seq<MetricBatch>>,
                              rs: seq<Result<RangeResponse, StoreError>>, i: nat)
    requires 1 <= i < |hist| == |rs|
  {
    && rs[i - 1].Ok? && rs[i - 1].value.nextPageToken != ""
    && rs[i] == QueryRange(StateOf(cap, hist[i]), req.(pageToken := rs[i - 1].value.nextPageToken))
  }

  ghost predicate StartsAt(cap: nat, req: RangeRequest, accepted: seq<MetricBatch>, r: Result<RangeResponse, StoreError>) {
    req.pageToken == "" && r.Ok? && r == QueryRange(StateOf(cap, accepted), req)
  }

  ghost predicate Session(cap: nat, req: RangeRequest, hist: seq<seq<MetricBatch>>,
                          rs: seq<Result<RangeResponse, StoreError>>) {
    && cap >= 1 && Growing(hist) && |rs| == |hist|
    && StartsAt(cap, req, hist[0], rs[0])
    && forall i :: 1 <= i < |rs| ==> ContinuesAt(cap, req, hist, rs, i)
  }

  function Snapshot(hist: seq<seq<MetricBatch>>): int
    requires hist != []
  {
    |LogOf(hist[0])|
  }

  function PageSize(req: RangeRequest): UInt32 {
    if req.pageSize == 0 then DEFAULT_PAGE_SIZE else req.pageSize
  }

  function ViewOf(cap: nat, req: RangeRequest, accepted: seq<MetricBatch>, snapshot: int): seq<Stored> {
    View(Retained(LogOf(accepted), req.filters.metricName, cap), req, snapshot)
  }

  /** What each page of a session has in view. */
  function Views(cap: nat, req: RangeRequest, hist: seq<seq<MetricBatch>>, snapshot: int): (views: seq<seq<Stored>>)
    ensures |views| == |hist|
  {
    if hist == [] then []
    else Views(cap, req, hist[..|hist| - 1], snapshot) + [ViewOf(cap, req, hist[|hist| - 1], snapshot)]
  }

  lemma {:induction false} ViewsAt(cap: nat, req: RangeRequest, hist: seq<seq<MetricBatch>>, snapshot: int, i: nat)
    requires i < |hist|
    ensures Views(cap, req, hist, snapshot)[i] == ViewOf(cap, req, hist[i], snapshot)
  {
    if i < |hist| - 1 {
      ViewsAt(cap, req, hist[..|hist| - 1], snapshot, i);
    }
  }

  /** The samples the first `n` pages of a session return. */
  function SessionSamples(cap: nat, req: RangeRequest, hist: seq<seq<MetricBatch>>, n: nat): seq<Stored>
    requires hist != [] && n <= |hist|
  {
    Emitted(Views(cap, req, hist, Snapshot(hist)), n, PageSize(req), Snapshot(hist))
  }

  /** The samples returned on each page. */
  function PagesOf(rs: seq<Result<RangeResponse, StoreError>>): (pages: seq<seq<Metric>>)
    ensures |pages| == |rs|
  {
    if rs == [] then []
    else PagesOf(rs[..|rs| - 1]) + [if rs[|rs| - 1].Ok? then rs[|rs| - 1].value.metrics else []]
  }

  lemma {:induction false} PagesAt(rs: seq<Result<RangeResponse, StoreError>>, i: nat)
    requires i < |rs| && rs[i].Ok?
    ensures PagesOf(rs)[i] == rs[i].value.metrics
  {
    if i < |rs| - 1 {
      PagesAt(rs[..|rs| - 1], i);
    }
  }

  lemma ViewMember(cap: nat, req: RangeRequest, accepted: seq<MetricBatch>, snapshot: int, s: Stored)
    requires Acceptable(accepted)
    ensures s in ViewOf(cap, req, accepted, snapshot) <==>
            && s in Retained(LogOf(accepted), req.filters.metricName, cap)
            && Selects(InView(req.filters, req.fromMs, req.toMs, snapshot), s)
    ensures s in ViewOf(cap, req, accepted, snapshot) ==> 1 <= s.eventId && s in LogOf(accepted)
  {
    var log := LogOf(accepted);
    LogWellFormed(accepted);
    FilterMember(Retained(log, req.filters.metricName, cap), InView(req.filters, req.fromMs, req.toMs, snapshot), s);
    if s in Retained(log, req.filters.metricName, cap) {
      RetainedIds(log, req.filters.metricName, cap, s);
    }
  }

  /** For a fixed snapshot, later commits only take samples away, and only from the old end. */
  lemma SnapshotViewShrinks(cap: nat, req: RangeRequest, accepted: seq<MetricBatch>, later: seq<MetricBatch>, snapshot: int)
    requires cap >= 1 && Acceptable(accepted) && Acceptable(later) && accepted <= later
    requires snapshot <= |LogOf(accepted)|
    ensures IsSuffix(ViewOf(cap, req, later, snapshot), ViewOf(cap, req, accepted, snapshot))
  {
    LogMonotone(accepted, later);
    LogWellFormed(later);
    ViewShrinks(LogOf(accepted), LogOf(later), req.filters.metricName, cap,
                InView(req.filters, req.fromMs, req.toMs, snapshot));
  }

  lemma SessionViewsShrink(cap: nat, req: RangeRequest, hist: seq<seq<MetricBatch>>)
    requires cap >= 1 && Growing(hist)
    ensures Shrinking(Views(cap, req, hist, Snapshot(hist)))
  {
    var views := Views(cap, req, hist, Snapshot(hist));
    forall i | 0 <= i < |views| ensures SortedAt(views, i) {
      assert AcceptableAt(hist, i);
      ViewsAt(cap, req, hist, Snapshot(hist), i);
      ViewInSnapshot(cap, req, hist[i], Snapshot(hist));
    }
    forall i, j | 0 <= i <= j < |views| ensures SuffixAt(views, i, j) {
      assert AcceptableAt(hist, i) && AcceptableAt(hist, j) && GrowsAt(hist, 0, i) && GrowsAt(hist, i, j);
      LogMonotone(hist[0], hist[i]);
      ViewsAt(cap, req, hist, Snapshot(hist), i);
      ViewsAt(cap, req, hist, Snapshot(hist), j);
      SnapshotViewShrinks(cap, req, hist[i], hist[j], Snapshot(hist));
    }
  }

  // ----- from tokens to cursors

  lemma QueryIsPageOfView(cap: nat, req: RangeRequest, accepted: seq<MetricBatch>)
    requires Acceptable(accepted) && RangePlanOf(req).Ok?
    ensures var plan := RangePlanOf(req).value;
            var snapshot := SnapshotFor(StateOf(cap, accepted), plan);
            QueryRange(StateOf(cap, accepted), req) ==
            if snapshot > |LogOf(accepted)| then Err(InvalidArgument)
            else Ok(PageOfView(ViewOf(cap, req, accepted, snapshot), plan, snapshot))
  {
    var plan, name := RangePlanOf(req).value, req.filters.metricName;
    BufferIsRetained(LogOf(accepted), name, cap);
    if name !in StateOf(cap, accepted).buffers {
      EmptyPage(plan, SnapshotFor(StateOf(cap, accepted), plan));
    }
  }

  lemma DecodedIff(token: string, last: int)
    ensures Decode(token).Some? && Decode(token).value.snapshotEventId <= last <==>
            exists c :: Denotes(token, c) && c.snapshotEventId <= last
  {
    hide Decode, Denotes;
    if Decode(token).Some? {
      DecodeExact(token, Decode(token).value);
    }
    forall c | Denotes(token, c) ensures Decode(token) == Some(c) {
      DecodeExact(token, c);
    }
  }

  /** A range query is refused exactly for a missing name, an empty client filter, an inverted range, an
      oversized page, or a token that does not denote a cursor of a snapshot taken by now. */
  lemma RangeRefusedIff(st: Store, req: RangeRequest)
    requires st.currentEventId >= 0
    ensures QueryRange(st, req).Err? <==>
            || req.filters.metricName == "" || req.filters.clientId == Some("")
            || req.fromMs > req.toMs || req.pageSize > 10000
            || (req.pageToken != "" && !exists c :: Denotes(req.pageToken, c) && c.snapshotEventId <= st.currentEventId)
    ensures QueryRange(st, req).Err? ==> QueryRange(st, req).error == InvalidArgument
  {
    hide Decode, Denotes, PageOfView;
    DecodedIff(req.pageToken, st.currentEventId);
  }

  /** A token issued for a sample of the view resumes exactly behind that sample. */
  lemma TokenResumes(req: RangeRequest, snapshot: int, s: Stored)
    requires RangePlanOf(req).Ok? && req.pageToken == "" && 1 <= s.eventId <= snapshot <= INT64_MAX
    ensures RangePlanOf(req.(pageToken := Encode(CursorAt(snapshot, s)))) ==
            Ok(RangePlan(Some(CursorAt(snapshot, s)), PageSize(req)))
  {
    TokenRoundTrip(CursorAt(snapshot, s));
    TokenIsNotEmpty(CursorAt(snapshot, s));
  }

  lemma TokenNamesSample(view: seq<Stored>, plan: RangePlan, snapshot: int) returns (s: Stored)
    requires plan.pageSize >= 1 && PageOfView(view, plan, snapshot).nextPageToken != ""
    ensures s in view && PageOfView(view, plan, snapshot).nextPageToken == Encode(CursorAt(snapshot, s))
  {
    var rest := Remaining(view, plan.cursor);
    s := rest[plan.pageSize - 1];
    assert s in rest;
    if plan.cursor.Some? {
      FilterMember(view, AfterCursor(plan.cursor.value), s);
    }
  }

  /** A token the store has issued, on whatever request, is never a reason for it to refuse a later
      one: the next request may even change its filters, range and page size. */
  lemma IssuedTokensStayValid(cap: nat, req: RangeRequest, accepted: seq<MetricBatch>, later: seq<MetricBatch>, next: RangeRequest)
    requires Acceptable(accepted) && Acceptable(later) && accepted <= later
    requires var r := QueryRange(StateOf(cap, accepted), req);
             r.Ok? && r.value.nextPageToken != "" && next.pageToken == r.value.nextPageToken
    ensures QueryRange(StateOf(cap, later), next).Err? <==>
            || next.filters.metricName == "" || next.filters.clientId == Some("")
            || next.fromMs > next.toMs || next.pageSize > 10000
  {
    hide Encode, Decode, PageOfView, Acceptable, BuffersOf;
    var plan := RangePlanOf(req).value;
    var snapshot := SnapshotFor(StateOf(cap, accepted), plan);
    QueryIsPageOfView(cap, req, accepted);
    var s := TokenNamesSample(ViewOf(cap, req, accepted, snapshot), plan, snapshot);
    ViewInSnapshot(cap, req, accepted, snapshot);
    LogMonotone(accepted, later);
    LogFits(later);
    TokenRoundTrip(CursorAt(snapshot, s));
    TokenIsNotEmpty(CursorAt(snapshot, s));
  }

  lemma LogFits(accepted: seq<MetricBatch>)
    requires Acceptable(accepted)
    ensures |LogOf(accepted)| <= INT64_MAX
  {
  }

  /** The page asked for with the token of the page before. */
  lemma NextPage(cap: nat, req: RangeRequest, accepted: seq<MetricBatch>, snapshot: int,
                 emitted: seq<Stored>, view: seq<Stored>, previous: RangeResponse)
    requires Acceptable(accepted) && RangePlanOf(req).Ok? && req.pageToken == "" && snapshot <= |LogOf(accepted)|
    requires Sorted(view) && forall s :: s in view ==> 1 <= s.eventId <= snapshot
    requires previous == PageOfView(view, RangePlan(CursorOf(emitted, snapshot), PageSize(req)), snapshot)
    requires previous.nextPageToken != ""
    ensures var e := emitted + PageAfter(emitted, view, PageSize(req), snapshot);
            QueryRange(StateOf(cap, accepted), req.(pageToken := previous.nextPageToken)) ==
            Ok(PageOfView(ViewOf(cap, req, accepted, snapshot), RangePlan(CursorOf(e, snapshot), PageSize(req)), snapshot))
  {
    TokenNamesLast(emitted, view, PageSize(req), snapshot);
    var last := PageAfter(emitted, view, PageSize(req), snapshot)[PageSize(req) - 1];
    TokenResumes(req, snapshot, last);
    QueryIsPageOfView(cap, req.(pageToken := previous.nextPageToken), accepted);
  }

  lemma ViewInSnapshot(cap: nat, req: RangeRequest, accepted: seq<MetricBatch>, snapshot: int)
    requires Acceptable(accepted)
    ensures Sorted(ViewOf(cap, req, accepted, snapshot))
    ensures forall s :: s in ViewOf(cap, req, accepted, snapshot) ==> 1 <= s.eventId <= snapshot
  {
    var name := req.filters.metricName;
    LogWellFormed(accepted);
    RetainedSorted(LogOf(accepted), name, cap);
    FilterSorted(Retained(LogOf(accepted), name, cap), InView(req.filters, req.fromMs, req.toMs, snapshot));
    forall s | s in ViewOf(cap, req, accepted, snapshot) ensures 1 <= s.eventId <= snapshot {
      ViewMember(cap, req, accepted, snapshot, s);
    }
  }

  /** Page `i` of a session, in terms of what the pages before it emitted. */
  ghost predicate ReplyAt(cap: nat, req: RangeRequest, hist: seq<seq<MetricBatch>>,
                          rs: seq<Result<RangeResponse, StoreError>>, i: nat)
    requires i < |hist| == |rs|
  {
    var snapshot, e := Snapshot(hist), SessionSamples(cap, req, hist, i);
    rs[i] == Ok(PageOfView(ViewOf(cap, req, hist[i], snapshot), RangePlan(CursorOf(e, snapshot), PageSize(req)), snapshot))
  }

  lemma FirstReply(cap: nat, req: RangeRequest, hist: seq<seq<MetricBatch>>, rs: seq<Result<RangeResponse, StoreError>>)
    requires Session(cap, req, hist, rs)
    ensures ReplyAt(cap, req, hist, rs, 0)
  {
    hide Decode, Encode;
    assert AcceptableAt(hist, 0);
    QueryIsPageOfView(cap, req, hist[0]);
  }

  /** What a session says about one of its continued pages. */
  lemma SessionStep(cap: nat, req: RangeRequest, hist: seq<seq<MetricBatch>>,
                    rs: seq<Result<RangeResponse, StoreError>>, i: nat)
    requires Session(cap, req, hist, rs) && 1 <= i < |rs|
    ensures Acceptable(hist[i - 1]) && Acceptable(hist[i]) && Snapshot(hist) <= |LogOf(hist[i])|
    ensures req.pageToken == "" && RangePlanOf(req).Ok?
    ensures ContinuesAt(cap, req, hist, rs, i)
  {
    hide Decode, Encode;
    assert AcceptableAt(hist, i) && AcceptableAt(hist, i - 1) && GrowsAt(hist, 0, i);
    assert ContinuesAt(cap, req, hist, rs, i);
    LogMonotone(hist[0], hist[i]);
  }

  lemma NextReply(cap: nat, req: RangeRequest, hist: seq<seq<MetricBatch>>,
                  rs: seq<Result<RangeResponse, StoreError>>, i: nat)
    requires Session(cap, req, hist, rs) && 1 <= i < |rs| && ReplyAt(cap, req, hist, rs, i - 1)
    ensures ReplyAt(cap, req, hist, rs, i)
  {
    hide QueryRange, RangePlanOf, Encode, Acceptable, StateOf, LogOf, PageOfView, Sorted, ViewOf, PageAfter;
    SessionStep(cap, req, hist, rs, i);
    var snapshot, e := Snapshot(hist), SessionSamples(cap, req, hist, i - 1);
    var view := ViewOf(cap, req, hist[i - 1], snapshot);
    ViewInSnapshot(cap, req, hist[i - 1], snapshot);
    ViewsAt(cap, req, hist, snapshot, i - 1);
    NextPage(cap, req, hist[i], snapshot, e, view, rs[i - 1].value);
    assert SessionSamples(cap, req, hist, i) == e + PageAfter(e, view, PageSize(req), snapshot);
  }

  lemma {:induction false} SessionReply(cap: nat, req: RangeRequest, hist: seq<seq<MetricBatch>>,
                                        rs: seq<Result<RangeResponse, StoreError>>, i: nat)
    requires Session(cap, req, hist, rs) && i < |rs|
    ensures ReplyAt(cap, req, hist, rs, i)
  {
    hide ReplyAt;
    if i == 0 {
      FirstReply(cap, req, hist, rs);
    } else {
      SessionReply(cap, req, hist, rs, i - 1);
      NextReply(cap, req, hist, rs, i);
    }
  }

  // ----- the theorems

  /** Every continuation the store issues is accepted by it ever after; on every page the aggregates
      describe all samples in view, not only the page; and a continuation is offered exactly when
      samples are left. */
  lemma EveryPage(cap: nat, req: RangeRequest, hist: seq<seq<MetricBatch>>,
                  rs: seq<Result<RangeResponse, StoreError>>, i: nat)
    requires Session(cap, req, hist, rs) && i < |rs|
    ensures rs[i].Ok?
    ensures rs[i].value.stats == StatsOf(Values(ViewOf(cap, req, hist[i], Snapshot(hist))))
    ensures PageAt(Views(cap, req, hist, Snapshot(hist)), PagesOf(rs), i, PageSize(req), Snapshot(hist))
    ensures rs[i].value.nextPageToken != "" <==> HasSuccessor(Views(cap, req, hist, Snapshot(hist)), i, PageSize(req), Snapshot(hist))
  {
    SessionReply(cap, req, hist, rs, i);
    assert AcceptableAt(hist, i);
    ViewsAt(cap, req, hist, Snapshot(hist), i);
    PagesAt(rs, i);
    ViewInSnapshot(cap, req, hist[i], Snapshot(hist));
    PageContinues(SessionSamples(cap, req, hist, i), ViewOf(cap, req, hist[i], Snapshot(hist)), PageSize(req), Snapshot(hist));
  }

  lemma {:induction false} SessionWalks(cap: nat, req: RangeRequest, hist: seq<seq<MetricBatch>>,
                                        rs: seq<Result<RangeResponse, StoreError>>, n: nat)
    requires Session(cap, req, hist, rs) && n <= |rs|
    ensures Walked(Views(cap, req, hist, Snapshot(hist)), PagesOf(rs), n, PageSize(req), Snapshot(hist))
  {
    hide Decode, Encode, Acceptable, StateOf, Emitted;
    if n > 0 {
      SessionWalks(cap, req, hist, rs, n - 1);
      EveryPage(cap, req, hist, rs, n - 1);
      if n > 1 {
        EveryPage(cap, req, hist, rs, n - 2);
        assert ContinuesAt(cap, req, hist, rs, n - 1);
      }
    }
  }

  /** What a session returns are samples of the first snapshot, each matching, in range and retained
      when the session began, in strictly increasing key order, hence no sample twice. */
  lemma PagesAreSnapshotSamples(cap: nat, req: RangeRequest, hist: seq<seq<MetricBatch>>,
                                rs: seq<Result<RangeResponse, StoreError>>)
    requires Session(cap, req, hist, rs)
    ensures var samples := SessionSamples(cap, req, hist, |hist|);
            && Concat(PagesOf(rs)) == Metrics(samples)
            && Sorted(samples)
            && forall s :: s in samples ==>
                 && s in LogOf(hist[0]) && s in Retained(LogOf(hist[0]), req.filters.metricName, cap)
                 && req.fromMs <= s.metric.timestampMs <= req.toMs && Matches(s.metric, req.filters)
  {
    var views, size, snapshot := Views(cap, req, hist, Snapshot(hist)), PageSize(req), Snapshot(hist);
    SessionViewsShrink(cap, req, hist);
    SessionWalks(cap, req, hist, rs, |rs|);
    WalkMetrics(views, PagesOf(rs), |rs|, size, snapshot);
    assert PagesOf(rs)[..|rs|] == PagesOf(rs);
    EmittedInvariant(views, |rs|, size, snapshot);
    assert AcceptableAt(hist, 0);
    ViewsAt(cap, req, hist, snapshot, 0);
    forall s | s in SessionSamples(cap, req, hist, |hist|) ensures s in LogOf(hist[0]) && s in Retained(LogOf(hist[0]), req.filters.metricName, cap) && Selects(InView(req.filters, req.fromMs, req.toMs, Snapshot(hist)), s) {
      ViewMember(cap, req, hist[0], Snapshot(hist), s);
    }
  }

  /** A session that runs to its end has returned every matching sample of the snapshot that is
      still retained when the last page is read, no matter what was committed in between. */
  lemma CompleteSessionMissesNothing(cap: nat, req: RangeRequest, hist: seq<seq<MetricBatch>>,
                                     rs: seq<Result<RangeResponse, StoreError>>, s: Stored)
    requires Session(cap, req, hist, rs)
    requires rs[|rs| - 1].Ok? && rs[|rs| - 1].value.nextPageToken == ""
    requires s in LogOf(hist[0]) && s in Retained(LogOf(hist[|hist| - 1]), req.filters.metricName, cap)
    requires req.fromMs <= s.metric.timestampMs <= req.toMs && Matches(s.metric, req.filters)
    ensures s in SessionSamples(cap, req, hist, |hist|)
  {
    hide Decode, Encode, Emitted, StatsOf;
    var n := |rs| - 1;
    assert AcceptableAt(hist, 0) && AcceptableAt(hist, n);
    LogWellFormed(hist[0]);
    ViewMember(cap, req, hist[n], Snapshot(hist), s);
    ViewsAt(cap, req, hist, Snapshot(hist), n);
    SessionViewsShrink(cap, req, hist);
    EveryPage(cap, req, hist, rs, n);
    LastPageCompletes(Views(cap, req, hist, Snapshot(hist)), n, PageSize(req), Snapshot(hist), s);
  }

  /** Sessions end: with every page but the last full, their number is bounded by the samples in
      view of the first page. */
  lemma SessionsAreFinite(cap: nat, req: RangeRequest, hist: seq<seq<MetricBatch>>,
                          rs: seq<Result<RangeResponse, StoreError>>)
    requires Session(cap, req, hist, rs)
    ensures |rs| > 1 ==> (|rs| - 1) * PageSize(req) < |ViewOf(cap, req, hist[0], Snapshot(hist))|
  {
    if |rs| > 1 {
      ViewsAt(cap, req, hist, Snapshot(hist), 0);
      SessionViewsShrink(cap, req, hist);
      SessionWalks(cap, req, hist, rs, |rs|);
      WalkIsFinite(Views(cap, req, hist, Snapshot(hist)), PagesOf(rs), |rs| - 1, PageSize(req), Snapshot(hist));
    }
  }
}
