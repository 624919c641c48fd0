/** Prefixes, suffixes and subsequences, with the few laws the other modules need. */
module Sequences {

  function Take<T>(s: seq<T>, n: nat): seq<T> {
    if |s| <= n then s else s[..n]
  }

  /** The last `n` elements of `s`, or all of them when there are fewer. */
  function Last<T>(s: seq<T>, n: nat): seq<T> {
    if |s| <= n then s else s[|s| - n..]
  }

  function Concat<T>(ss: seq<seq<T>>): seq<T> {
    if ss == [] then [] else Concat(ss[..|ss| - 1]) + ss[|ss| - 1]
  }

  ghost predicate IsSuffix<T>(t: seq<T>, s: seq<T>) {
    |t| <= |s| && t == s[|s| - |t|..]
  }

  /** `a` arises from `b` by deleting elements. */
  ghost predicate Subsequence<T>(a: seq<T>, b: seq<T>) {
    || a == []
    || (b != [] &&
        (|| Subsequence(a, b[..|b| - 1])
         || (a[|a| - 1] == b[|b| - 1] && Subsequence(a[..|a| - 1], b[..|b| - 1]))))
  }

  lemma SuffixTransitive<T>(a: seq<T>, b: seq<T>, c: seq<T>)
    requires IsSuffix(a, b) && IsSuffix(b, c)
    ensures IsSuffix(a, c)
  {
  }

  lemma {:induction false} SubsequenceRefl<T>(a: seq<T>)
    ensures Subsequence(a, a)
  {
    if a != [] {
      SubsequenceRefl(a[..|a| - 1]);
    }
  }

  lemma SubsequenceSnoc<T>(a: seq<T>, b: seq<T>, x: T)
    requires Subsequence(a, b)
    ensures Subsequence(a + [x], b + [x])
  {
    assert (b + [x])[..|b|] == b && (a + [x])[..|a|] == a;
  }

  /** Deleting one more element keeps a subsequence a subsequence. */
  lemma {:induction false} SubsequenceDelete<T>(a: seq<T>, b: seq<T>, i: nat)
    requires Subsequence(a, b) && i < |a|
    ensures Subsequence(a[..i] + a[i + 1..], b)
    decreases |b|
  {
    var d := a[..i] + a[i + 1..];
    var b0 := b[..|b| - 1];
    if Subsequence(a, b0) {
      SubsequenceDelete(a, b0, i);
    } else if i == |a| - 1 {
      assert d == a[..|a| - 1];
    } else {
      SubsequenceDelete(a[..|a| - 1], b0, i);
      assert a[..|a| - 1][..i] + a[..|a| - 1][i + 1..] == d[..|d| - 1];
    }
  }

  lemma {:induction false} SubsequenceMember<T>(a: seq<T>, b: seq<T>, x: T)
    requires Subsequence(a, b) && x in a
    ensures x in b
    decreases |b|
  {
    if !Subsequence(a, b[..|b| - 1]) {
      if x != b[|b| - 1] {
        assert x in a[..|a| - 1];
        SubsequenceMember(a[..|a| - 1], b[..|b| - 1], x);
      }
    } else {
      SubsequenceMember(a, b[..|b| - 1], x);
    }
  }

  lemma TakeSnoc<T>(s: seq<T>, x: T, n: nat)
    ensures Take(s + [x], n) == if |s| < n then Take(s, n) + [x] else Take(s, n)
  {
  }
}
