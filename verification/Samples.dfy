/** Stored samples, the query filters, and the selections every query is made of. */
module Samples {
  import opened Types
  import opened Sequences
  import opened PageToken

  /** A committed sample and the global commit position the store gave it. */
  datatype Stored = Stored(metric: Metric, eventId: int)

  predicate KeyLess(a: Stored, b: Stored) {
    || a.metric.timestampMs < b.metric.timestampMs
    || (a.metric.timestampMs == b.metric.timestampMs && a.eventId < b.eventId)
  }

  ghost predicate Sorted(s: seq<Stored>) {
    forall i, j :: 0 <= i < j < |s| ==> KeyLess(s[i], s[j])
  }

  datatype Filters = Filters(metricName: string, clientId: Option<string>, tags: map<string, string>)

  predicate MatchesTags(m: Metric, tags: map<string, string>) {
    forall k | k in tags :: k in m.tags && m.tags[k] == tags[k]
  }

  predicate Matches(m: Metric, f: Filters) {
    && m.name == f.metricName
    && (f.clientId.None? || m.sourceClientId == f.clientId.value)
    && MatchesTags(m, f.tags)
  }

  /** The conditions the store's operations, and the theorems about them, select samples by. */
  datatype Selector =
    | Matching(filters: Filters)
    | InView(filters: Filters, fromMs: Int64, toMs: Int64, snapshot: int)
    | AfterCursor(cursor: Cursor)
    | EventAfter(filters: Filters, after: int)
    | UpTo(eventId: int)
    | NewerThan(sample: Stored)

  predicate Selects(p: Selector, s: Stored) {
    match p
    case Matching(f) => Matches(s.metric, f)
    case InView(f, fromMs, toMs, snapshot) =>
      fromMs <= s.metric.timestampMs <= toMs && s.eventId <= snapshot && Matches(s.metric, f)
    case AfterCursor(c) =>
      s.metric.timestampMs > c.timestampMs || (s.metric.timestampMs == c.timestampMs && s.eventId > c.eventId)
    case EventAfter(f, after) => s.eventId > after && Matches(s.metric, f)
    case UpTo(eventId) => s.eventId <= eventId
    case NewerThan(t) => s.metric.name == t.metric.name && KeyLess(t, s)
  }

  function Filter(s: seq<Stored>, p: Selector): seq<Stored> {
    if s == [] then []
    else
      var rest := Filter(s[..|s| - 1], p);
      if Selects(p, s[|s| - 1]) then rest + [s[|s| - 1]] else rest
  }

  function ValueOf(s: Stored): real {
    if s.metric.value.Finite? then s.metric.value.r else 0.0
  }

  function Values(s: seq<Stored>): seq<real> {
    if s == [] then [] else Values(s[..|s| - 1]) + [ValueOf(s[|s| - 1])]
  }

  function Metrics(s: seq<Stored>): seq<Metric> {
    if s == [] then [] else Metrics(s[..|s| - 1]) + [s[|s| - 1].metric]
  }

  // ----- laws of selection

  lemma {:induction false} FilterMember(s: seq<Stored>, p: Selector, x: Stored)
    ensures x in Filter(s, p) <==> x in s && Selects(p, x)
  {
    if s != [] {
      FilterMember(s[..|s| - 1], p, x);
      assert s == s[..|s| - 1] + [s[|s| - 1]];
    }
  }

  lemma {:induction false} FilterConcat(a: seq<Stored>, b: seq<Stored>, p: Selector)
    ensures Filter(a + b, p) == Filter(a, p) + Filter(b, p)
  {
    if b == [] {
      assert a + b == a;
    } else {
      FilterConcat(a, b[..|b| - 1], p);
      assert (a + b)[..|a + b| - 1] == a + b[..|b| - 1];
    }
  }

  lemma FilterSnoc(s: seq<Stored>, x: Stored, p: Selector)
    ensures Filter(s + [x], p) == if Selects(p, x) then Filter(s, p) + [x] else Filter(s, p)
  {
    assert (s + [x])[..|s|] == s;
  }

  lemma FilterExtend(s: seq<Stored>, i: nat, p: Selector)
    requires i < |s|
    ensures Filter(s[..i + 1], p) == if Selects(p, s[i]) then Filter(s[..i], p) + [s[i]] else Filter(s[..i], p)
  {
    assert s[..i + 1] == s[..i] + [s[i]];
    FilterSnoc(s[..i], s[i], p);
  }

  lemma {:induction false} FilterNone(s: seq<Stored>, p: Selector)
    requires forall x :: x in s ==> !Selects(p, x)
    ensures Filter(s, p) == []
  {
    if s != [] {
      FilterNone(s[..|s| - 1], p);
    }
  }

  lemma {:induction false} FilterAll(s: seq<Stored>, p: Selector)
    requires forall x :: x in s ==> Selects(p, x)
    ensures Filter(s, p) == s
  {
    if s != [] {
      FilterAll(s[..|s| - 1], p);
    }
  }

  lemma FilterSuffix(t: seq<Stored>, s: seq<Stored>, p: Selector)
    requires IsSuffix(t, s)
    ensures IsSuffix(Filter(t, p), Filter(s, p))
  {
    assert s == s[..|s| - |t|] + t;
    FilterConcat(s[..|s| - |t|], t, p);
  }

  lemma {:induction false} FilterSorted(s: seq<Stored>, p: Selector)
    requires Sorted(s)
    ensures Sorted(Filter(s, p))
  {
    if s != [] {
      var s0 := s[..|s| - 1];
      FilterSorted(s0, p);
      var f := Filter(s0, p);
      forall i | 0 <= i < |f| ensures KeyLess(f[i], s[|s| - 1]) {
        FilterMember(s0, p, f[i]);
      }
    }
  }

  lemma MetricsSnoc(s: seq<Stored>, x: Stored)
    ensures Metrics(s + [x]) == Metrics(s) + [x.metric]
    ensures Values(s + [x]) == Values(s) + [ValueOf(x)]
  {
    assert (s + [x])[..|s|] == s;
  }

  lemma {:induction false} MetricsConcat(a: seq<Stored>, b: seq<Stored>)
    ensures Metrics(a + b) == Metrics(a) + Metrics(b)
  {
    if b == [] {
      assert a + b == a;
    } else {
      MetricsConcat(a, b[..|b| - 1]);
      assert (a + b)[..|a + b| - 1] == a + b[..|b| - 1];
    }
  }

  lemma {:induction false} ValuesConcat(a: seq<Stored>, b: seq<Stored>)
    ensures Values(a + b) == Values(a) + Values(b)
  {
    if b == [] {
      assert a + b == a;
    } else {
      ValuesConcat(a, b[..|b| - 1]);
      assert (a + b)[..|a + b| - 1] == a + b[..|b| - 1];
    }
  }

  lemma {:induction false} MetricsAt(s: seq<Stored>, i: nat)
    requires i < |s|
    ensures |Metrics(s)| == |Values(s)| == |s|
    ensures Metrics(s)[i] == s[i].metric && Values(s)[i] == ValueOf(s[i])
  {
    MetricsLength(s[..|s| - 1]);
    if i < |s| - 1 {
      MetricsAt(s[..|s| - 1], i);
    }
  }

  lemma {:induction false} MetricsLength(s: seq<Stored>)
    ensures |Metrics(s)| == |Values(s)| == |s|
  {
    if s != [] {
      MetricsLength(s[..|s| - 1]);
    }
  }

  // ----- laws of key order

  lemma LastIsGreatest(s: seq<Stored>, x: Stored)
    requires Sorted(s) && x in s && x != s[|s| - 1]
    ensures KeyLess(x, s[|s| - 1])
  {
    var i :| 0 <= i < |s| && s[i] == x;
  }

  lemma SortedInit(s: seq<Stored>, x: Stored)
    requires Sorted(s) && s != []
    ensures Sorted(s[..|s| - 1])
    ensures x in s[..|s| - 1] <==> x in s && x != s[|s| - 1]
  {
    assert s == s[..|s| - 1] + [s[|s| - 1]];
  }

  /** A set of samples has one key-ordered arrangement. */
  lemma {:induction false} SortedUnique(a: seq<Stored>, b: seq<Stored>)
    requires Sorted(a) && Sorted(b)
    requires forall x :: x in a <==> x in b
    ensures a == b
    decreases |a|
  {
    assert b != [] ==> b[|b| - 1] in a;
    if a != [] {
      var x := a[|a| - 1];
      assert x in b;
      var y := b[|b| - 1];
      assert x == y by {
        assert y in a;
        if x != y {
          LastIsGreatest(a, y);
          LastIsGreatest(b, x);
        }
      }
      var a0, b0 := a[..|a| - 1], b[..|b| - 1];
      forall z ensures z in a0 <==> z in b0 {
        SortedInit(a, z);
        SortedInit(b, z);
      }
      SortedInit(a, x);
      SortedInit(b, x);
      SortedUnique(a0, b0);
      assert a == a0 + [x] && b == b0 + [x];
    }
  }
}
