/**
 A cursor walking over views that shrink from the front while it walks: one page per view, each
 page resuming behind the last sample emitted.
 */
module PageWalk {
  import opened Types
  import opened Sequences
  import opened Samples
  import opened PageToken
  import opened StoreModel

  // ----- a cursor walking over shrinking views

  function CursorOf(emitted: seq<Stored>, snapshot: int): Option<Cursor> {
    if emitted == [] then None else Some(CursorAt(snapshot, emitted[|emitted| - 1]))
  }

  /** Everything emitted by the first `n` pages, one page per view, each page resuming after the
      last emitted sample. */
  function Emitted(views: seq<seq<Stored>>, n: nat, size: nat, snapshot: int): seq<Stored>
    requires n <= |views|
  {
    if n == 0 then []
    else
      var e := Emitted(views, n - 1, size, snapshot);
      e + PageAfter(e, views[n - 1], size, snapshot)
  }

  function PageAfter(emitted: seq<Stored>, view: seq<Stored>, size: nat, snapshot: int): seq<Stored> {
    Take(Remaining(view, CursorOf(emitted, snapshot)), size)
  }

  ghost predicate SuffixAt(views: seq<seq<Stored>>, i: nat, j: nat)
    requires i <= j < |views|
  {
    IsSuffix(views[j], views[i])
  }

  ghost predicate SortedAt(views: seq<seq<Stored>>, i: nat)
    requires i < |views|
  {
    Sorted(views[i])
  }

  /** Each view is sorted and a suffix of every earlier one. */
  ghost predicate Shrinking(views: seq<seq<Stored>>) {
    && (forall i :: 0 <= i < |views| ==> SortedAt(views, i))
    && (forall i, j :: 0 <= i <= j < |views| ==> SuffixAt(views, i, j))
  }

  lemma RemainingIsAfter(view: seq<Stored>, emitted: seq<Stored>, snapshot: int)
    requires Sorted(view)
    ensures Sorted(Remaining(view, CursorOf(emitted, snapshot)))
    ensures forall x :: x in Remaining(view, CursorOf(emitted, snapshot)) <==>
              x in view && (emitted == [] || KeyLess(emitted[|emitted| - 1], x))
  {
    if emitted != [] {
      var after := AfterCursor(CursorAt(snapshot, emitted[|emitted| - 1]));
      FilterSorted(view, after);
      forall x ensures x in Filter(view, after) <==> x in view && Selects(after, x) {
        FilterMember(view, after, x);
      }
    }
  }

  /** The part of a view at or before the cursor has been emitted, and nothing else of it has. */
  ghost predicate EmittedUpTo(emitted: seq<Stored>, view: seq<Stored>) {
    && Sorted(emitted)
    && forall x :: x in view ==> (x in emitted <==> emitted != [] && !KeyLess(emitted[|emitted| - 1], x))
  }

  lemma PageKeepsOrder(emitted: seq<Stored>, view: seq<Stored>, size: nat, snapshot: int)
    requires size >= 1 && Sorted(view) && EmittedUpTo(emitted, view)
    ensures EmittedUpTo(emitted + PageAfter(emitted, view, size, snapshot), view)
  {
    var rest := Remaining(view, CursorOf(emitted, snapshot));
    var page := PageAfter(emitted, view, size, snapshot);
    var e := emitted + page;
    RemainingIsAfter(view, emitted, snapshot);
    assert Sorted(e) by {
      forall i, j | 0 <= i < j < |e| ensures KeyLess(e[i], e[j]) {
        if i < |emitted| <= j {
          assert e[j] in rest;
        }
      }
    }
    forall x | x in view ensures x in e <==> e != [] && !KeyLess(e[|e| - 1], x) {
      if x in rest {
        var k :| 0 <= k < |rest| && rest[k] == x;
        assert x in page <==> k < |page|;
      }
    }
  }

  lemma {:induction false} EmittedInvariant(views: seq<seq<Stored>>, n: nat, size: nat, snapshot: int)
    requires size >= 1 && 1 <= n <= |views| && Shrinking(views)
    ensures EmittedUpTo(Emitted(views, n, size, snapshot), views[n - 1])
    ensures forall x :: x in Emitted(views, n, size, snapshot) ==> x in views[0]
  {
    var e := Emitted(views, n - 1, size, snapshot);
    assert SortedAt(views, n - 1) && SuffixAt(views, 0, n - 1);
    if n > 1 {
      EmittedInvariant(views, n - 1, size, snapshot);
      assert SuffixAt(views, n - 2, n - 1);
    }
    PageKeepsOrder(e, views[n - 1], size, snapshot);
    RemainingIsAfter(views[n - 1], e, snapshot);
    forall x | x in Emitted(views, n, size, snapshot) ensures x in views[0] {
      if x !in e {
        assert x in PageAfter(e, views[n - 1], size, snapshot);
        assert x in views[n - 1];
      }
    }
  }

  /** When a page takes all that remains, its whole view has been emitted. */
  lemma LastPageCompletes(views: seq<seq<Stored>>, n: nat, size: nat, snapshot: int, x: Stored)
    requires size >= 1 && n < |views| && Shrinking(views) && x in views[n]
    requires !HasSuccessor(views, n, size, snapshot)
    ensures x in Emitted(views, n + 1, size, snapshot)
  {
    var e := Emitted(views, n, size, snapshot);
    assert SortedAt(views, n);
    RemainingIsAfter(views[n], e, snapshot);
    if x !in Remaining(views[n], CursorOf(e, snapshot)) {
      EmittedInvariant(views, n, size, snapshot);
      assert SuffixAt(views, n - 1, n);
    }
  }

  lemma {:induction false} SortedSubsetIsShorter(a: seq<Stored>, b: seq<Stored>)
    requires Sorted(a) && Sorted(b) && forall x :: x in a ==> x in b
    ensures |a| <= |b|
  {
    if a != [] {
      var a0, z := a[..|a| - 1], a[|a| - 1];
      assert z in a && z in b;
      var k :| 0 <= k < |b| && b[k] == z;
      forall x | x in a0 ensures x in b[..k] {
        SortedInit(a, x);
        LastIsGreatest(a, x);
        var i :| 0 <= i < |b| && b[i] == x;
        assert i < k;
      }
      SortedInit(a, z);
      SortedSubsetIsShorter(a0, b[..k]);
    }
  }

  // ----- one page

  lemma EmptyPage(plan: RangePlan, snapshot: int)
    requires plan.pageSize >= 1
    ensures PageOfView([], plan, snapshot) == EMPTY_RESPONSE
  {
    assert Remaining([], plan.cursor) == [];
  }

  lemma TokenIsNotEmpty(c: Cursor)
    ensures Encode(c) != ""
  {
    assert |Encode(c)| >= |PREFIX|;
  }

  /** A continuation is offered exactly when a further sample is in view. */
  lemma PageContinues(emitted: seq<Stored>, view: seq<Stored>, size: UInt32, snapshot: int)
    requires size >= 1 && Sorted(view)
    ensures var rest := Remaining(view, CursorOf(emitted, snapshot));
            var r := PageOfView(view, RangePlan(CursorOf(emitted, snapshot), size), snapshot);
            && (r.nextPageToken == "" <==> |rest| <= size)
            && (|rest| <= size ==> PageAfter(emitted, view, size, snapshot) == rest)
  {
    var rest := Remaining(view, CursorOf(emitted, snapshot));
    if |rest| > size {
      TokenIsNotEmpty(CursorAt(snapshot, rest[size - 1]));
    }
  }

  /** The continuation names the last sample emitted. */
  lemma TokenNamesLast(emitted: seq<Stored>, view: seq<Stored>, size: UInt32, snapshot: int)
    requires size >= 1 && Sorted(view)
    requires PageOfView(view, RangePlan(CursorOf(emitted, snapshot), size), snapshot).nextPageToken != ""
    ensures var page := PageAfter(emitted, view, size, snapshot);
            var r := PageOfView(view, RangePlan(CursorOf(emitted, snapshot), size), snapshot);
            && |page| == size && page[size - 1] in view
            && CursorOf(emitted + page, snapshot) == Some(CursorAt(snapshot, page[size - 1]))
            && r.nextPageToken == Encode(CursorAt(snapshot, page[size - 1]))
  {
    hide StatsOf, Values, Metrics, Filter, Encode, KeyLess;
    var rest := Remaining(view, CursorOf(emitted, snapshot));
    RemainingIsAfter(view, emitted, snapshot);
    assert rest[size - 1] in rest;
  }

  // ----- a walk, page by page

  /** Page `k` leaves samples of its view for a further page. */
  ghost predicate HasSuccessor(views: seq<seq<Stored>>, k: nat, size: nat, snapshot: int)
    requires k < |views|
  {
    |Remaining(views[k], CursorOf(Emitted(views, k, size, snapshot), snapshot))| > size
  }

  ghost predicate PageAt(views: seq<seq<Stored>>, pages: seq<seq<Metric>>, k: nat, size: nat, snapshot: int)
    requires k < |views| == |pages|
  {
    pages[k] == Metrics(PageAfter(Emitted(views, k, size, snapshot), views[k], size, snapshot))
  }

  /** The first `n` pages of a walk: one page per view, every page but the last with a successor. */
  ghost predicate Walked(views: seq<seq<Stored>>, pages: seq<seq<Metric>>, n: nat, size: nat, snapshot: int)
    requires n <= |views| == |pages|
  {
    n == 0 ||
    (&& Walked(views, pages, n - 1, size, snapshot)
     && PageAt(views, pages, n - 1, size, snapshot)
     && (n > 1 ==> HasSuccessor(views, n - 2, size, snapshot)))
  }

  lemma ConcatExtend<T>(ss: seq<seq<T>>, n: nat)
    requires 1 <= n <= |ss|
    ensures Concat(ss[..n]) == Concat(ss[..n - 1]) + ss[n - 1]
  {
    assert ss[..n][..n - 1] == ss[..n - 1];
  }

  /** The pages, put together, are the emitted samples. */
  lemma {:induction false} WalkMetrics(views: seq<seq<Stored>>, pages: seq<seq<Metric>>, n: nat, size: nat, snapshot: int)
    requires n <= |views| == |pages| && Walked(views, pages, n, size, snapshot)
    ensures Concat(pages[..n]) == Metrics(Emitted(views, n, size, snapshot))
  {
    if n > 0 {
      WalkMetrics(views, pages, n - 1, size, snapshot);
      var e := Emitted(views, n - 1, size, snapshot);
      ConcatExtend(pages, n);
      MetricsConcat(e, PageAfter(e, views[n - 1], size, snapshot));
    }
  }

  // ----- walks end

  /** `n` full pages. */
  function FullPagesTotal(n: nat, size: nat): nat {
    if n == 0 then 0 else FullPagesTotal(n - 1, size) + size
  }

  lemma {:induction false} FullPagesProduct(n: nat, size: nat)
    ensures FullPagesTotal(n, size) == n * size
  {
    if n > 0 {
      FullPagesProduct(n - 1, size);
      assert n * size == (n - 1) * size + size;
    }
  }

  lemma {:induction false} FullPages(views: seq<seq<Stored>>, pages: seq<seq<Metric>>, n: nat, size: nat, snapshot: int)
    requires n < |views| == |pages| && Walked(views, pages, n + 1, size, snapshot)
    ensures |Emitted(views, n, size, snapshot)| == FullPagesTotal(n, size)
  {
    if n > 0 {
      FullPages(views, pages, n - 1, size, snapshot);
      FullPage(views, n, size, snapshot);
    }
  }

  /** All pages but the last are full, so the first view bounds their number. */
  lemma WalkIsFinite(views: seq<seq<Stored>>, pages: seq<seq<Metric>>, n: nat, size: nat, snapshot: int)
    requires size >= 1 && 1 <= n < |views| == |pages| && Shrinking(views)
    requires Walked(views, pages, n + 1, size, snapshot)
    ensures n * size < |views[0]|
  {
    FullPages(views, pages, n, size, snapshot);
    FullPagesProduct(n, size);
    EmittedInvariant(views, n, size, snapshot);
    assert SortedAt(views, 0) && SortedAt(views, n - 1) && SuffixAt(views, 0, n - 1);
    var before := Emitted(views, n - 1, size, snapshot);
    var rest := Remaining(views[n - 1], CursorOf(before, snapshot));
    RemainingIsAfter(views[n - 1], before, snapshot);
    OneMoreSample(before, rest, size, views[0], views[n - 1]);
  }

  lemma OneMoreSample(before: seq<Stored>, rest: seq<Stored>, size: nat, first: seq<Stored>, view: seq<Stored>)
    requires 1 <= size < |rest| && Sorted(rest) && Sorted(before + rest[..size]) && Sorted(first)
    requires IsSuffix(view, first) && forall x :: x in rest ==> x in view
    requires forall x :: x in before + rest[..size] ==> x in first
    ensures |before + rest[..size]| < |first|
  {
    var e, next := before + rest[..size], rest[size];
    forall i | 0 <= i < |e| ensures KeyLess(e[i], next) {
      assert i < |e| - 1 ==> KeyLess(e[i], e[|e| - 1]);
      assert KeyLess(rest[size - 1], next);
    }
    assert next in rest;
    SortedSubsetIsShorter(e + [next], first);
  }

  lemma FullPage(views: seq<seq<Stored>>, n: nat, size: nat, snapshot: int)
    requires 1 <= n <= |views| && HasSuccessor(views, n - 1, size, snapshot)
    ensures |Emitted(views, n, size, snapshot)| == |Emitted(views, n - 1, size, snapshot)| + size
  {
  }
}
