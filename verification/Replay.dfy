/**
 Event replay.  A subscriber polls `query_events_after`, resuming each time behind the last event it
 was given, while batches are committed between polls.  Events are delivered in commit order, none
 twice, and none that is still retained is skipped.
 */
module Replay {
  import opened Types
  import opened Sequences
  import opened Samples
  import opened Retention
  import opened StoreModel

  ghost predicate OrderedById(s: seq<Stored>) {
    forall i, j :: 0 <= i < j < |s| ==> s[i].eventId < s[j].eventId
  }

  ghost predicate DistinctIds(s: seq<Stored>) {
    forall i, j :: 0 <= i < j < |s| ==> s[i].eventId != s[j].eventId
  }

  lemma {:induction false} InsertByIdMember(s: seq<Stored>, x: Stored, y: Stored)
    ensures y in InsertById(s, x) <==> y in s || y == x
    decreases |s|
  {
    if !(s == [] || s[|s| - 1].eventId <= x.eventId) {
      InsertByIdMember(s[..|s| - 1], x, y);
      assert s == s[..|s| - 1] + [s[|s| - 1]];
    }
  }

  lemma {:induction false} InsertByIdOrdered(s: seq<Stored>, x: Stored)
    requires OrderedById(s) && forall y :: y in s ==> y.eventId != x.eventId
    ensures OrderedById(InsertById(s, x))
    decreases |s|
  {
    if s != [] && s[|s| - 1].eventId > x.eventId {
      var s0, t := s[..|s| - 1], InsertById(s[..|s| - 1], x);
      InsertByIdOrdered(s0, x);
      forall i | 0 <= i < |t| ensures t[i].eventId < s[|s| - 1].eventId {
        InsertByIdMember(s0, x, t[i]);
      }
    }
  }

  lemma {:induction false} SortByIdMember(s: seq<Stored>, y: Stored)
    ensures y in SortById(s) <==> y in s
  {
    if s != [] {
      SortByIdMember(s[..|s| - 1], y);
      InsertByIdMember(SortById(s[..|s| - 1]), s[|s| - 1], y);
      assert s == s[..|s| - 1] + [s[|s| - 1]];
    }
  }

  lemma {:induction false} SortByIdOrdered(s: seq<Stored>)
    requires DistinctIds(s)
    ensures OrderedById(SortById(s))
  {
    if s != [] {
      var s0, x := s[..|s| - 1], s[|s| - 1];
      SortByIdOrdered(s0);
      forall y | y in SortById(s0) ensures y.eventId != x.eventId {
        SortByIdMember(s0, y);
      }
      InsertByIdOrdered(SortById(s0), x);
    }
  }

  lemma RetainedIdsDistinct(log: seq<Stored>, name: string, cap: nat, p: Selector)
    requires WellFormedLog(log)
    ensures DistinctIds(Filter(Retained(log, name, cap), p))
  {
    var b := Retained(log, name, cap);
    var m := Filter(b, p);
    RetainedSorted(log, name, cap);
    FilterSorted(b, p);
    forall i, j | 0 <= i < j < |m| ensures m[i].eventId != m[j].eventId {
      FilterMember(b, p, m[i]);
      FilterMember(b, p, m[j]);
      RetainedIds(log, name, cap, m[i]);
      RetainedIds(log, name, cap, m[j]);
      assert KeyLess(m[i], m[j]);
    }
  }

  /** An event query finds, in commit order, exactly the committed samples behind the cursor that
      match and are still retained. */
  lemma MatchingEventsExact(cap: nat, accepted: seq<MetricBatch>, f: Filters, after: int)
    requires Acceptable(accepted)
    ensures var events := MatchingEvents(StateOf(cap, accepted), f, after);
            && OrderedById(events)
            && forall s :: s in events <==>
                 s in LogOf(accepted) && s.eventId > after && Matches(s.metric, f) && s in Retained(LogOf(accepted), f.metricName, cap)
  {
    var log, p := LogOf(accepted), EventAfter(f, after);
    var b := Retained(log, f.metricName, cap);
    LogWellFormed(accepted);
    BufferIsRetained(log, f.metricName, cap);
    RetainedIdsDistinct(log, f.metricName, cap, p);
    SortByIdOrdered(Filter(b, p));
    forall s ensures s in SortById(Filter(b, p)) <==> s in log && s.eventId > after && Matches(s.metric, f) && s in b {
      SortByIdMember(Filter(b, p), s);
      FilterMember(b, p, s);
      if s in b {
        RetainedIds(log, f.metricName, cap, s);
      }
    }
  }

  // ----- one answer

  function EventOf(s: Stored): MetricEvent {
    MetricEvent(s.metric, s.eventId)
  }

  ghost predicate OrderedEvents(events: seq<MetricEvent>) {
    forall i, j :: 0 <= i < j < |events| ==> events[i].eventId < events[j].eventId
  }

  lemma {:induction false} EventsAt(s: seq<Stored>)
    ensures |Events(s)| == |s|
    ensures forall i :: 0 <= i < |s| ==> Events(s)[i] == EventOf(s[i])
  {
    if s != [] {
      EventsAt(s[..|s| - 1]);
    }
  }

  lemma EventsMember(s: seq<Stored>, x: Stored)
    ensures EventOf(x) in Events(s) <==> x in s
  {
    EventsAt(s);
    if x in s {
      var i :| 0 <= i < |s| && s[i] == x;
      assert Events(s)[i] == EventOf(x);
    }
    if EventOf(x) in Events(s) {
      var i :| 0 <= i < |s| && Events(s)[i] == EventOf(x);
      assert s[i] == x;
    }
  }

  function EventsIn(reply: Result<seq<MetricEvent>, StoreError>): seq<MetricEvent> {
    if reply.Ok? then reply.value else []
  }

  /** The event is a committed sample behind the cursor that matches. */
  ghost predicate Genuine(log: seq<Stored>, f: Filters, after: int, e: MetricEvent) {
    && after < e.eventId && 1 <= e.eventId <= |log|
    && e == EventOf(log[e.eventId - 1]) && Matches(e.metric, f)
  }

  /** The sample is committed, matches, and is still retained. */
  ghost predicate Available(cap: nat, log: seq<Stored>, f: Filters, s: Stored) {
    s in log && Matches(s.metric, f) && s in Retained(log, f.metricName, cap)
  }

  lemma TakeOrdered(all: seq<Stored>, n: nat, s: Stored)
    requires OrderedById(all) && n >= 1
    ensures var taken := Take(all, n);
            && OrderedById(taken)
            && (s in taken ==> s in all)
            && (s in all ==> taken != [] && (s in taken <==> s.eventId <= taken[|taken| - 1].eventId))
            && (s in all && |taken| < n ==> s in taken)
  {
    var taken := Take(all, n);
    if s in all {
      var k :| 0 <= k < |all| && all[k] == s;
      assert taken[|taken| - 1] == all[|taken| - 1];
      assert k < |taken| ==> taken[k] == s;
    }
  }

  lemma EventsOrdered(s: seq<Stored>)
    requires OrderedById(s)
    ensures OrderedEvents(Events(s))
  {
    EventsAt(s);
  }

  /** The samples behind a successful answer. */
  lemma AnswerSamples(cap: nat, accepted: seq<MetricBatch>, f: Filters, after: int, limit: nat) returns (taken: seq<Stored>)
    requires Acceptable(accepted) && QueryEventsAfter(StateOf(cap, accepted), f, after, limit).Ok?
    ensures QueryEventsAfter(StateOf(cap, accepted), f, after, limit).value == Events(taken)
    ensures limit >= 1 && taken == Take(MatchingEvents(StateOf(cap, accepted), f, after), limit)
  {
    taken := Take(MatchingEvents(StateOf(cap, accepted), f, after), limit);
  }

  /** An answer holds genuine events only, in increasing order. */
  lemma AnswerIsGenuine(cap: nat, accepted: seq<MetricBatch>, f: Filters, after: int, limit: nat)
    requires Acceptable(accepted)
    ensures var events := EventsIn(QueryEventsAfter(StateOf(cap, accepted), f, after, limit));
            OrderedEvents(events) && forall e :: e in events ==> Genuine(LogOf(accepted), f, after, e)
  {
    hide SortById, Filter, Matches, Acceptable, Events, OrderedEvents;
    var reply := QueryEventsAfter(StateOf(cap, accepted), f, after, limit);
    if reply.Ok? {
      var taken := AnswerSamples(cap, accepted, f, after, limit);
      var all := MatchingEvents(StateOf(cap, accepted), f, after);
      hide QueryEventsAfter, MatchingEvents, StateOf, LogOf;
      MatchingEventsExact(cap, accepted, f, after);
      AcceptedLog(accepted);
      TakenAreGenuine(LogOf(accepted), f, after, all, limit);
    } else {
      NothingOrdered();
    }
  }

  lemma TakenAreGenuine(log: seq<Stored>, f: Filters, after: int, all: seq<Stored>, n: nat)
    requires OrderedById(all)
    requires forall s :: s in all ==>
               1 <= s.eventId <= |log| && log[s.eventId - 1] == s && after < s.eventId && Matches(s.metric, f)
    ensures OrderedEvents(Events(Take(all, n)))
    ensures forall e :: e in Events(Take(all, n)) ==> Genuine(log, f, after, e)
  {
    hide Matches, Events;
    var taken := Take(all, n);
    EventsAt(taken);
    EventsOrdered(taken);
    forall e | e in Events(taken) ensures Genuine(log, f, after, e) {
      var i :| 0 <= i < |taken| && Events(taken)[i] == e;
      assert taken[i] == all[i] && all[i] in all;
    }
  }

  lemma NothingOrdered()
    ensures OrderedEvents([])
  {
  }

  lemma AcceptedLog(accepted: seq<MetricBatch>)
    requires Acceptable(accepted)
    ensures WellFormedLog(LogOf(accepted))
    ensures forall s :: s in LogOf(accepted) ==> 1 <= s.eventId <= |LogOf(accepted)| && LogOf(accepted)[s.eventId - 1] == s
  {
    LogWellFormed(accepted);
    hide LogOf, Acceptable;
    LogIds(LogOf(accepted));
  }

  lemma LogIds(log: seq<Stored>)
    requires WellFormedLog(log)
    ensures forall s :: s in log ==> 1 <= s.eventId <= |log| && log[s.eventId - 1] == s
  {
  }

  /** Of what is available behind the cursor an answer holds all up to its last event, and everything
      when it is shorter than asked for. */
  lemma AnswerIsPrefix(cap: nat, accepted: seq<MetricBatch>, f: Filters, after: int, limit: nat, s: Stored)
    requires Acceptable(accepted) && Available(cap, LogOf(accepted), f, s) && s.eventId > after
    requires QueryEventsAfter(StateOf(cap, accepted), f, after, limit).Ok?
    ensures var events := QueryEventsAfter(StateOf(cap, accepted), f, after, limit).value;
            && events != []
            && (EventOf(s) in events <==> s.eventId <= events[|events| - 1].eventId)
            && (|events| < limit ==> EventOf(s) in events)
  {
    hide SortById, Filter, Matches, Acceptable;
    var taken := AnswerSamples(cap, accepted, f, after, limit);
    var all := MatchingEvents(StateOf(cap, accepted), f, after);
    hide QueryEventsAfter, MatchingEvents, StateOf, Events;
    MatchingEventsExact(cap, accepted, f, after);
    TakeOrdered(all, limit, s);
    EventsAt(taken);
    EventsMember(taken, s);
  }

  // ----- polling

  /** One poll: what had been committed by then, how much was asked for, and the store's answer. */
  datatype Poll = Poll(accepted: seq<MetricBatch>, limit: nat, reply: Result<seq<MetricEvent>, StoreError>)

  /** Where a subscriber that started at `start` stands after the polls: at the last event received. */
  function CursorAfter(start: int, polls: seq<Poll>): int {
    if polls == [] then start
    else
      var events := EventsIn(polls[|polls| - 1].reply);
      if events == [] then CursorAfter(start, polls[..|polls| - 1]) else events[|events| - 1].eventId
  }

  function Received(polls: seq<Poll>): seq<MetricEvent> {
    if polls == [] then [] else Received(polls[..|polls| - 1]) + EventsIn(polls[|polls| - 1].reply)
  }

  /** Polls in the order they are made, each at a later time than the one before and answered by the
      store, refusals included, for the cursor reached by then; `now` is later than all. */
  ghost predicate Polling(cap: nat, f: Filters, start: int, polls: seq<Poll>, now: seq<MetricBatch>)
    decreases |polls|
  {
    && Acceptable(now)
    && (polls == [] ||
        var n := |polls| - 1;
        var last := polls[n];
        && last.accepted <= now
        && last.reply == QueryEventsAfter(StateOf(cap, last.accepted), f, CursorAfter(start, polls[..n]), last.limit)
        && Polling(cap, f, start, polls[..n], last.accepted))
  }

  lemma PollingParts(cap: nat, f: Filters, start: int, polls: seq<Poll>, now: seq<MetricBatch>)
    requires Polling(cap, f, start, polls, now) && polls != []
    ensures var n := |polls| - 1;
            var last := polls[n];
            && Acceptable(now) && Acceptable(last.accepted) && last.accepted <= now
            && LogOf(last.accepted) <= LogOf(now)
            && last.reply == QueryEventsAfter(StateOf(cap, last.accepted), f, CursorAfter(start, polls[..n]), last.limit)
            && Polling(cap, f, start, polls[..n], last.accepted)
  {
    LogMonotone(polls[|polls| - 1].accepted, now);
  }

  lemma {:induction false} CursorInLog(cap: nat, f: Filters, start: int, polls: seq<Poll>, now: seq<MetricBatch>)
    requires Polling(cap, f, start, polls, now)
    ensures var c := CursorAfter(start, polls); c == start || start < c <= |LogOf(now)|
  {
    hide Polling, QueryEventsAfter, StateOf, Acceptable, LogOf;
    if polls != [] {
      var n := |polls| - 1;
      PollingParts(cap, f, start, polls, now);
      CursorInLog(cap, f, start, polls[..n], polls[n].accepted);
      AnswerIsGenuine(cap, polls[n].accepted, f, CursorAfter(start, polls[..n]), polls[n].limit);
      var events := EventsIn(polls[n].reply);
      assert events != [] ==> events[|events| - 1] in events;
    }
  }

  /** What has been received is in strictly increasing event order, so nothing twice; it lies between the
      starting cursor and the current one; and every event is a committed sample that matches. */
  lemma {:induction false} DeliveredOnceInOrder(cap: nat, f: Filters, start: int, polls: seq<Poll>, now: seq<MetricBatch>)
    requires Polling(cap, f, start, polls, now)
    ensures OrderedEvents(Received(polls))
    ensures forall e :: e in Received(polls) ==>
              Genuine(LogOf(now), f, start, e) && e.eventId <= CursorAfter(start, polls)
  {
    hide Polling, QueryEventsAfter, StateOf, Acceptable, LogOf, Matches;
    if polls != [] {
      var n := |polls| - 1;
      var c, events := CursorAfter(start, polls[..n]), EventsIn(polls[n].reply);
      PollingParts(cap, f, start, polls, now);
      DeliveredOnceInOrder(cap, f, start, polls[..n], polls[n].accepted);
      CursorInLog(cap, f, start, polls[..n], polls[n].accepted);
      AnswerIsGenuine(cap, polls[n].accepted, f, c, polls[n].limit);
      AppendOrdered(Received(polls[..n]), events, c);
    }
  }

  lemma AppendOrdered(before: seq<MetricEvent>, events: seq<MetricEvent>, c: int)
    requires OrderedEvents(before) && OrderedEvents(events)
    requires forall e :: e in before ==> e.eventId <= c
    requires forall e :: e in events ==> c < e.eventId
    ensures OrderedEvents(before + events)
    ensures forall e :: e in events ==> e.eventId <= events[|events| - 1].eventId
    ensures events != [] ==> forall e :: e in before + events ==> e.eventId <= events[|events| - 1].eventId
  {
    forall i, j | 0 <= i < j < |before + events|
      ensures (before + events)[i].eventId < (before + events)[j].eventId
    {
      if i < |before| <= j {
        assert before[i] in before && events[j - |before|] in events;
      }
    }
    assert events != [] ==> events[|events| - 1] in events;
  }

  /** A sample available now was available at any earlier time by which it had been committed. */
  lemma WasAvailable(cap: nat, past: seq<MetricBatch>, now: seq<MetricBatch>, f: Filters, s: Stored)
    requires cap >= 1 && Acceptable(past) && Acceptable(now) && past <= now
    requires Available(cap, LogOf(now), f, s)
    ensures s.eventId <= |LogOf(past)| ==> Available(cap, LogOf(past), f, s)
  {
    if s.eventId <= |LogOf(past)| {
      AcceptedLog(now);
      LogMonotone(past, now);
      assert LogOf(past)[s.eventId - 1] == s;
      StaysEvicted(LogOf(past), LogOf(now), f.metricName, cap, s);
    }
  }

  lemma LastIsGenuine(log: seq<Stored>, f: Filters, after: int, events: seq<MetricEvent>)
    requires OrderedEvents(events) && forall e :: e in events ==> Genuine(log, f, after, e)
    ensures events != [] ==> after < events[|events| - 1].eventId <= |log|
    ensures forall e :: e in events ==> after < e.eventId <= |log|
  {
    assert events != [] ==> events[|events| - 1] in events;
  }

  /** One answer more: `before` has what was due up to cursor `c`, `events` follow it, and neither holds
      anything committed after the first `n` samples. */
  lemma ReplayStep(x: MetricEvent, before: seq<MetricEvent>, events: seq<MetricEvent>, c: int, n: int)
    requires forall e :: e in before ==> e.eventId <= n
    requires forall e :: e in events ==> c < e.eventId <= n
    requires events != [] ==> c < events[|events| - 1].eventId <= n
    requires x.eventId <= n ==> (x in before <==> x.eventId <= c)
    requires x.eventId <= n && x.eventId > c && events != [] ==> (x in events <==> x.eventId <= events[|events| - 1].eventId)
    requires x.eventId > n ==> x.eventId > c
    ensures x in before + events <==> x.eventId <= if events == [] then c else events[|events| - 1].eventId
  {
  }

  /** At any time, a matching event behind the starting cursor that is still retained has been
      received if and only if its ID is at most the current cursor. */
  lemma {:induction false} ReplayIsExact(cap: nat, f: Filters, start: int, polls: seq<Poll>, now: seq<MetricBatch>, s: Stored)
    requires cap >= 1 && Polling(cap, f, start, polls, now)
    requires Available(cap, LogOf(now), f, s) && s.eventId > start
    ensures EventOf(s) in Received(polls) <==> s.eventId <= CursorAfter(start, polls)
  {
    hide Polling, QueryEventsAfter, StateOf, Acceptable, LogOf, Available, Matches, OrderedEvents;
    if polls != [] {
      var n := |polls| - 1;
      var past, c, events := polls[n].accepted, CursorAfter(start, polls[..n]), EventsIn(polls[n].reply);
      PollingParts(cap, f, start, polls, now);
      WasAvailable(cap, past, now, f, s);
      CursorInLog(cap, f, start, polls[..n], past);
      DeliveredOnceInOrder(cap, f, start, polls[..n], past);
      AnswerIsGenuine(cap, past, f, c, polls[n].limit);
      LastIsGenuine(LogOf(past), f, c, events);
      if s.eventId <= |LogOf(past)| {
        ReplayIsExact(cap, f, start, polls[..n], past, s);
        if s.eventId > c && polls[n].reply.Ok? {
          AnswerIsPrefix(cap, past, f, c, polls[n].limit, s);
        }
      }
      ReplayStep(EventOf(s), Received(polls[..n]), events, c, |LogOf(past)|);
    }
  }

  /** The cursor catches up: after an answer shorter than asked for, every matching event committed by
      then and still retained has been received. */
  lemma ShortAnswerCatchesUp(cap: nat, f: Filters, start: int, polls: seq<Poll>, now: seq<MetricBatch>, s: Stored)
    requires cap >= 1 && Polling(cap, f, start, polls, now) && polls != []
    requires var last := polls[|polls| - 1];
             last.reply.Ok? && |last.reply.value| < last.limit && s.eventId <= |LogOf(last.accepted)|
    requires Available(cap, LogOf(now), f, s) && s.eventId > start
    ensures EventOf(s) in Received(polls)
  {
    hide Polling, QueryEventsAfter, StateOf, Acceptable, LogOf, Available, Matches;
    var n := |polls| - 1;
    var past, c := polls[n].accepted, CursorAfter(start, polls[..n]);
    PollingParts(cap, f, start, polls, now);
    WasAvailable(cap, past, now, f, s);
    if s.eventId > c {
      AnswerIsPrefix(cap, past, f, c, polls[n].limit, s);
    } else {
      ReplayIsExact(cap, f, start, polls[..n], past, s);
    }
  }
}
