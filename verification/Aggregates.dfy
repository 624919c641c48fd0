/**
 When dropping the oldest values leaves average, maximum and minimum as they were.
 */
module Aggregates {
  import opened StoreModel

  lemma {:induction false} SumConcat(a: seq<real>, b: seq<real>)
    ensures Sum(a + b) == Sum(a) + Sum(b)
  {
    if b == [] {
      assert a + b == a;
    } else {
      SumConcat(a, b[..|b| - 1]);
      assert (a + b)[..|a + b| - 1] == a + b[..|b| - 1];
    }
  }

  lemma {:induction false} ExtremesConcat(a: seq<real>, b: seq<real>)
    requires a != [] && b != []
    ensures Max(a + b) == if Max(a) < Max(b) then Max(b) else Max(a)
    ensures Min(a + b) == if Min(b) < Min(a) then Min(b) else Min(a)
  {
    assert (a + b)[..|a + b| - 1] == a + b[..|b| - 1];
    if |b| == 1 {
      assert a + b[..0] == a;
    } else {
      ExtremesConcat(a, b[..|b| - 1]);
    }
  }

  /** Joining two groups keeps the mean of the second exactly when the means agree. */
  lemma MeanConcat(a: seq<real>, b: seq<real>)
    requires a != [] && b != []
    ensures Mean(a + b) == Mean(b) <==> Mean(a) == Mean(b)
  {
    SumConcat(a, b);
    WeightedMeans(Sum(a), |a| as real, Sum(b), |b| as real);
    assert |a + b| as real == |a| as real + |b| as real;
  }

  lemma WeightedMeans(s: real, m: real, t: real, n: real)
    requires m > 0.0 && n > 0.0
    ensures (s + t) / (m + n) == t / n <==> s / m == t / n
  {
    Quotient(s, m);
    Quotient(t, n);
    Quotient(s + t, m + n);
    JointQuotient(s / m, m, t / n, n, (s + t) / (m + n));
  }

  lemma Quotient(a: real, b: real)
    requires b > 0.0
    ensures a / b * b == a
  {
  }

  lemma JointQuotient(p: real, m: real, q: real, n: real, w: real)
    requires m > 0.0 && n > 0.0 && w * (m + n) == p * m + q * n
    ensures w == q <==> p == q
  {
    Distributes(w, m, n);
    Distributes(q, m, n);
    if w == q {
      SameFactor(m, p, q);
    } else if p == q {
      SameFactor(m + n, w, q);
    }
  }

  lemma Distributes(x: real, m: real, n: real)
    ensures x * (m + n) == x * m + x * n
  {
  }

  lemma SameFactor(m: real, x: real, y: real)
    requires m > 0.0
    ensures x * m == y * m ==> x == y
  {
    if x * m == y * m {
      assert (x - y) * m == 0.0;
    }
  }

  lemma NeutralStats(v: seq<real>)
    requires v != []
    ensures StatsOf(v) == StatsOf([]) <==> forall i :: 0 <= i < |v| ==> v[i] == 0.0
  {
    ExtremesAttained(v);
    if forall i :: 0 <= i < |v| ==> v[i] == 0.0 {
      MeanBetween(v, 0.0, 0.0);
    }
  }

  /** Values that may be lost in front of others without changing the aggregates: none; or only zeros,
      with nothing left behind them; or values of the same mean, within the range of those left. */
  ghost predicate Expendable(lost: seq<real>, left: seq<real>) {
    || lost == []
    || (left == [] && forall i :: 0 <= i < |lost| ==> lost[i] == 0.0)
    || (left != [] && Mean(lost) == Mean(left) && Max(lost) <= Max(left) && Min(left) <= Min(lost))
  }

  lemma StatsKeptIff(lost: seq<real>, left: seq<real>)
    ensures StatsOf(lost + left) == StatsOf(left) <==> Expendable(lost, left)
  {
    if lost == [] {
      assert lost + left == left;
    } else if left == [] {
      assert lost + left == lost;
      NeutralStats(lost);
    } else {
      hide Mean, Max, Min;
      MeanConcat(lost, left);
      ExtremesConcat(lost, left);
    }
  }
}
