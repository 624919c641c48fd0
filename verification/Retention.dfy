/**
 Per-metric retention.  A buffer is ordered by (timestamp, event ID) and bounded; the theorem of
 this module is that inserting with eviction, one sample at a time and in any arrival order, keeps
 exactly the newest `cap` samples of everything ever committed under that name.
 */
module Retention {
  import opened Types
  import opened Sequences
  import opened Samples

  /** Place `x` after every entry whose key does not exceed its own. */
  function Insert(s: seq<Stored>, x: Stored): seq<Stored>
    decreases |s|
  {
    if s == [] || !KeyLess(x, s[|s| - 1]) then s + [x]
    else Insert(s[..|s| - 1], x) + [s[|s| - 1]]
  }

  function InsertBounded(s: seq<Stored>, x: Stored, cap: nat): seq<Stored>
    requires cap >= 1
  {
    var t := Insert(s, x);
    if |t| > cap then t[1..] else t
  }

  /** The samples ever committed under `name`, in key order. */
  function History(log: seq<Stored>, name: string): seq<Stored> {
    if log == [] then []
    else
      var h := History(log[..|log| - 1], name);
      if log[|log| - 1].metric.name == name then Insert(h, log[|log| - 1]) else h
  }

  function Retained(log: seq<Stored>, name: string, cap: nat): seq<Stored> {
    Last(History(log, name), cap)
  }

  /** What every commit log satisfies: event IDs count 1, 2, ... in commit order. */
  ghost predicate WellFormedLog(log: seq<Stored>) {
    forall i :: 0 <= i < |log| ==> log[i].eventId == i + 1 && ValidMetric(log[i].metric)
  }

  // ----- insertion

  lemma {:induction false} InsertLength(s: seq<Stored>, x: Stored)
    ensures |Insert(s, x)| == |s| + 1
    decreases |s|
  {
    if !(s == [] || !KeyLess(x, s[|s| - 1])) {
      InsertLength(s[..|s| - 1], x);
    }
  }

  lemma {:induction false} InsertMember(s: seq<Stored>, x: Stored, y: Stored)
    ensures y in Insert(s, x) <==> y in s || y == x
    decreases |s|
  {
    if !(s == [] || !KeyLess(x, s[|s| - 1])) {
      InsertMember(s[..|s| - 1], x, y);
      assert s == s[..|s| - 1] + [s[|s| - 1]];
    }
  }

  lemma {:induction false} InsertSorted(s: seq<Stored>, x: Stored)
    requires Sorted(s)
    requires forall y :: y in s ==> y.eventId != x.eventId
    ensures Sorted(Insert(s, x))
    decreases |s|
  {
    if s != [] && KeyLess(x, s[|s| - 1]) {
      var s0, t := s[..|s| - 1], Insert(s[..|s| - 1], x);
      InsertSorted(s0, x);
      forall i | 0 <= i < |t| ensures KeyLess(t[i], s[|s| - 1]) {
        InsertMember(s0, x, t[i]);
      }
    }
  }

  /** Splitting a buffer anywhere, an insertion takes place on one side only. */
  lemma {:induction false} InsertConcat(a: seq<Stored>, b: seq<Stored>, x: Stored)
    ensures (exists y :: y in b && !KeyLess(x, y)) ==> Insert(a + b, x) == a + Insert(b, x)
    ensures (forall y :: y in b ==> KeyLess(x, y)) ==> Insert(a + b, x) == Insert(a, x) + b
    decreases |b|
  {
    if b == [] {
      assert a + b == a;
    } else {
      var b0, z := b[..|b| - 1], b[|b| - 1];
      assert (a + b)[..|a + b| - 1] == a + b0;
      assert forall y :: y in b <==> y in b0 || y == z;
      InsertConcat(a, b0, x);
    }
  }

  /** Position `i` splits the buffer into keys at most, and keys above, that of `x`. */
  ghost predicate SplitsAt(s: seq<Stored>, x: Stored, i: nat) {
    && i <= |s|
    && (forall k :: 0 <= k < i ==> !KeyLess(x, s[k]))
    && (forall k :: i <= k < |s| ==> KeyLess(x, s[k]))
  }

  lemma InsertAt(s: seq<Stored>, x: Stored, i: nat)
    requires SplitsAt(s, x, i)
    ensures Insert(s, x) == s[..i] + [x] + s[i..]
  {
    assert s == s[..i] + s[i..];
    InsertConcat(s[..i], s[i..], x);
    assert Insert(s[..i], x) == s[..i] + [x];
  }

  // ----- bounded retention

  lemma RetentionStepFull(a: seq<Stored>, b: seq<Stored>, x: Stored)
    requires b != []
    ensures InsertBounded(b, x, |b|) == Last(Insert(a + b, x), |b|)
  {
    hide Insert, KeyLess;
    InsertLength(b, x);
    InsertConcat(a, b, x);
    if forall y :: y in b ==> KeyLess(x, y) {
      OlderThanAll(b, x);
      InsertLength(a, x);
      assert ([x] + b)[1..] == b;
      assert Last(Insert(a, x) + b, |b|) == b;
    } else {
      assert Last(a + Insert(b, x), |b|) == Insert(b, x)[1..];
    }
  }

  /** Evicting after each insertion and truncating the full history once agree. */
  lemma RetentionStep(h: seq<Stored>, x: Stored, cap: nat)
    requires cap >= 1
    ensures InsertBounded(Last(h, cap), x, cap) == Last(Insert(h, x), cap)
  {
    hide Insert, KeyLess;
    InsertLength(h, x);
    if |h| < cap {
      assert Last(h, cap) == h;
    } else {
      var a, b := h[..|h| - cap], h[|h| - cap..];
      RetentionStepFull(a, b, x);
      assert a + b == h;
      assert Last(h, cap) == b && |b| == cap;
    }
  }

  lemma OlderThanAll(b: seq<Stored>, x: Stored)
    requires forall y :: y in b ==> KeyLess(x, y)
    ensures Insert(b, x) == [x] + b
  {
    InsertAt(b, x, 0);
  }

  lemma {:induction false} HistoryIds(log: seq<Stored>, name: string, s: Stored)
    requires WellFormedLog(log) && s in History(log, name)
    ensures s.metric.name == name
    ensures 1 <= s.eventId <= |log| && log[s.eventId - 1] == s
  {
    var n := |log| - 1;
    if log[n].metric.name == name {
      InsertMember(History(log[..n], name), log[n], s);
    }
    if s != log[n] || log[n].metric.name != name {
      HistoryIds(log[..n], name, s);
    }
  }

  lemma {:induction false} HistorySorted(log: seq<Stored>, name: string)
    requires WellFormedLog(log)
    ensures Sorted(History(log, name))
  {
    if log != [] {
      var n := |log| - 1;
      HistorySorted(log[..n], name);
      forall y | y in History(log[..n], name) ensures y.eventId != log[n].eventId {
        HistoryIds(log[..n], name, y);
      }
      if log[n].metric.name == name {
        InsertSorted(History(log[..n], name), log[n]);
      }
    }
  }

  lemma {:induction false} HistoryMember(log: seq<Stored>, name: string, s: Stored)
    ensures s in History(log, name) <==> s in log && s.metric.name == name
  {
    if log != [] {
      var n := |log| - 1;
      HistoryMember(log[..n], name, s);
      InsertMember(History(log[..n], name), log[n], s);
      assert log == log[..n] + [log[n]];
    }
  }

  /** `Retained` is what the header promises: the key-sorted arrangement of the samples committed
      under the name (there is only one) ends in exactly the retained buffer. */
  lemma RetainedIsSortAndTruncate(log: seq<Stored>, name: string, cap: nat, sorted: seq<Stored>)
    requires WellFormedLog(log) && Sorted(sorted)
    requires forall s :: s in sorted <==> s in log && s.metric.name == name
    ensures Retained(log, name, cap) == Last(sorted, cap)
  {
    HistorySorted(log, name);
    forall s ensures s in History(log, name) <==> s in sorted {
      HistoryMember(log, name, s);
    }
    SortedUnique(History(log, name), sorted);
  }

  lemma RetainedSorted(log: seq<Stored>, name: string, cap: nat)
    requires WellFormedLog(log)
    ensures Sorted(Retained(log, name, cap))
  {
    HistorySorted(log, name);
  }

  lemma RetainedIds(log: seq<Stored>, name: string, cap: nat, s: Stored)
    requires WellFormedLog(log) && s in Retained(log, name, cap)
    ensures s.metric.name == name && 1 <= s.eventId <= |log| && log[s.eventId - 1] == s
  {
    HistoryIds(log, name, s);
  }

  // ----- what later commits do to a buffer

  lemma {:induction false} FilterInsertRejected(s: seq<Stored>, x: Stored, p: Selector)
    requires !Selects(p, x)
    ensures Filter(Insert(s, x), p) == Filter(s, p)
    decreases |s|
  {
    if s == [] || !KeyLess(x, s[|s| - 1]) {
      FilterSnoc(s, x, p);
    } else {
      FilterInsertRejected(s[..|s| - 1], x, p);
      FilterSnoc(Insert(s[..|s| - 1], x), s[|s| - 1], p);
    }
  }

  lemma RetainedStep(log: seq<Stored>, x: Stored, name: string, cap: nat)
    requires cap >= 1
    ensures Retained(log + [x], name, cap) ==
            if x.metric.name == name then InsertBounded(Retained(log, name, cap), x, cap)
            else Retained(log, name, cap)
  {
    assert (log + [x])[..|log|] == log;
    RetentionStep(History(log, name), x, cap);
  }

  /** A view that admits none of the newly committed samples only loses entries, and only from
      its old end. */
  lemma {:induction false} ViewShrinks(log: seq<Stored>, later: seq<Stored>, name: string, cap: nat, p: Selector)
    requires cap >= 1 && log <= later
    requires forall i :: |log| <= i < |later| ==> !Selects(p, later[i])
    ensures IsSuffix(Filter(Retained(later, name, cap), p), Filter(Retained(log, name, cap), p))
    decreases |later|
  {
    if log != later {
      var mid, x := later[..|later| - 1], later[|later| - 1];
      ViewShrinks(log, mid, name, cap, p);
      assert later == mid + [x];
      ViewStep(mid, x, name, cap, p);
      SuffixTransitive(Filter(Retained(later, name, cap), p), Filter(Retained(mid, name, cap), p),
                       Filter(Retained(log, name, cap), p));
    }
  }

  lemma ViewStep(log: seq<Stored>, x: Stored, name: string, cap: nat, p: Selector)
    requires cap >= 1 && !Selects(p, x)
    ensures IsSuffix(Filter(Retained(log + [x], name, cap), p), Filter(Retained(log, name, cap), p))
  {
    RetainedStep(log, x, name, cap);
    if x.metric.name == name {
      var b := Retained(log, name, cap);
      FilterInsertRejected(b, x, p);
      FilterSuffix(InsertBounded(b, x, cap), Insert(b, x), p);
    }
  }

  /** Eviction is final. */
  lemma StaysEvicted(log: seq<Stored>, later: seq<Stored>, name: string, cap: nat, s: Stored)
    requires cap >= 1 && log <= later && WellFormedLog(later)
    requires s in Retained(later, name, cap) && s.eventId <= |log|
    ensures s in Retained(log, name, cap)
  {
    var p := UpTo(|log|);
    ViewShrinks(log, later, name, cap, p);
    FilterMember(Retained(later, name, cap), p, s);
    FilterMember(Retained(log, name, cap), p, s);
  }
}
