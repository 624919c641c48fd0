/** Batch construction: validation, and the stable identifier that makes retries recognisable. */
module BuilderModel {
  import opened Types
  import opened Numerals

  datatype BuildError = EmptyClientId | EmptyMetrics | InvalidMetric

  datatype Builder = Builder(clientId: string, sessionNonce: UInt64, nextSequence: UInt64)

  /** Client, 16 lower-case hexadecimal digits of the session nonce, decimal sequence number. */
  function BatchId(clientId: string, nonce: UInt64, sequence: UInt64): string {
    clientId + "-" + Hex16(nonce) + "-" + Numeral(sequence, 10)
  }

  predicate AllValid(metrics: seq<Metric>) {
    forall i :: 0 <= i < |metrics| ==> ValidMetric(metrics[i])
  }

  function Build(b: Builder, metrics: seq<Metric>): (Builder, Result<MetricBatch, BuildError>) {
    if b.clientId == "" then (b, Err(EmptyClientId))
    else if metrics == [] then (b, Err(EmptyMetrics))
    else if !AllValid(metrics) then (b, Err(InvalidMetric))
    else
      (b.(nextSequence := (b.nextSequence + 1) % TWO_64),
       Ok(MetricBatch(b.clientId, BatchId(b.clientId, b.sessionNonce, b.nextSequence), metrics)))
  }

  /** The sequence number of the `i`-th batch a builder makes: it starts at 1 and wraps. */
  function SequenceOf(i: nat): UInt64 {
    (i + 1) % TWO_64
  }

  // ----- identifiers

  /** Text without a dash after the last dash can be told from what is before it. */
  lemma SplitAtLastDash(a: string, d: string, a': string, d': string)
    requires '-' !in d && '-' !in d' && a + "-" + d == a' + "-" + d'
    ensures a == a' && d == d'
  {
    var s := a + "-" + d;
    LastDash(a, d);
    LastDash(a', d');
    assert s[|a|] == '-' && s[|a'|] == '-';
    assert s[..|a|] == a && s[|a| + 1..] == d;
    assert (a' + "-" + d')[..|a'|] == a' && (a' + "-" + d')[|a'| + 1..] == d';
  }

  lemma LastDash(a: string, d: string)
    requires '-' !in d
    ensures var s := a + "-" + d; s[|a|] == '-' && forall j :: |a| < j < |s| ==> s[j] != '-'
  {
    var s := a + "-" + d;
    forall j | |a| < j < |s| ensures s[j] != '-' {
      assert s[j] == d[j - |a| - 1];
    }
  }

  lemma NumeralInjective(m: nat, n: nat, base: Base)
    requires Numeral(m, base) == Numeral(n, base)
    ensures m == n
  {
    NumeralRoundTrip(m, base);
    NumeralRoundTrip(n, base);
  }

  /** Identifiers determine client, nonce and sequence, even when client IDs contain dashes. */
  lemma BatchIdInjective(c: string, n: UInt64, s: UInt64, c': string, n': UInt64, s': UInt64)
    ensures BatchId(c, n, s) == BatchId(c', n', s') <==> c == c' && n == n' && s == s'
  {
    if BatchId(c, n, s) == BatchId(c', n', s') {
      var d, d' := Numeral(s, 10), Numeral(s', 10);
      NumeralRoundTrip(s, 10);
      NumeralRoundTrip(s', 10);
      NoDash(d, 10);
      NoDash(d', 10);
      var a, a' := c + "-" + Hex16(n), c' + "-" + Hex16(n');
      SplitAtLastDash(a, d, a', d');
      NumeralInjective(s, s', 10);
      Hex16Fixed(n);
      Hex16Fixed(n');
      NoDash(Hex16(n), 16);
      NoDash(Hex16(n'), 16);
      SplitAtLastDash(c, Hex16(n), c', Hex16(n'));
    }
  }

  /** The identifier character by character: client, dash, sixteen lower-case hexadecimal digits of the
      nonce, dash, and the decimal digits of the sequence number. */
  lemma BatchIdLayout(c: string, n: UInt64, s: UInt64)
    ensures var id, tail := BatchId(c, n, s), |c| + 18;
            && |id| > tail && id[..|c|] == c && id[|c|] == '-' && id[|c| + 17] == '-'
            && (forall i :: 0 <= i < 16 ==> DropDigits(n, 16, i) % 16 >= 0 && id[|c| + 16 - i] == DIGITS[DropDigits(n, 16, i) % 16])
            && (forall i :: 0 <= i < |id| - tail ==>
                  DropDigits(s, 10, i) % 10 >= 0 && id[|id| - 1 - i] == DIGITS[DropDigits(s, 10, i) % 10])
            && DropDigits(s, 10, |id| - tail) == 0
  {
    hide Numeral, Hex16;
    var id, h, d := BatchId(c, n, s), Hex16(n), Numeral(s, 10);
    NumeralRoundTrip(s, 10);
    forall i | 0 <= i < 16 ensures |h| == 16 && DropDigits(n, 16, i) % 16 >= 0 && h[15 - i] == DIGITS[DropDigits(n, 16, i) % 16] {
      Hex16Places(n, i);
    }
    forall i | 0 <= i < |d| ensures DropDigits(s, 10, i) % 10 >= 0 && d[|d| - 1 - i] == DIGITS[DropDigits(s, 10, i) % 10] {
      NumeralPlaces(s, 10, i);
    }
    NoDigitsLeft(s, 10, |d|);
    assert |h| == 16 by { Hex16Places(n, 0); }
    PartsOf(c, h, d);
  }

  lemma PartsOf(c: string, h: string, d: string)
    requires |h| == 16
    ensures var id := c + "-" + h + "-" + d;
            && |id| == |c| + 18 + |d| && id[..|c|] == c && id[|c|] == '-' && id[|c| + 17] == '-'
            && id[|c| + 1..|c| + 17] == h && id[|c| + 18..] == d
  {
  }

  /** Two batches get the same identifier exactly when they come from the same client and nonce and
      are a multiple of 2^64 apart. */
  lemma IdsCollideIff(c: string, n: UInt64, i: nat, c': string, n': UInt64, j: nat)
    ensures BatchId(c, n, SequenceOf(i)) == BatchId(c', n', SequenceOf(j)) <==>
            c == c' && n == n' && i % TWO_64 == j % TWO_64
  {
    hide BatchId;
    BatchIdInjective(c, n, SequenceOf(i), c', n', SequenceOf(j));
    SameRemainder(i, j);
  }

  lemma SameRemainder(i: nat, j: nat)
    ensures (i + 1) % TWO_64 == (j + 1) % TWO_64 <==> i % TWO_64 == j % TWO_64
  {
  }

  /** Which error, told from the fields; no error means the caller's metrics, unchanged and in order, under
      the client and the identifier of the sequence number that is used up. */
  lemma BuildOutcome(b: Builder, metrics: seq<Metric>)
    ensures var (next, r) := Build(b, metrics);
            var bad := exists i :: 0 <= i < |metrics| && (metrics[i].name == "" || metrics[i].value.NonFinite?);
            && (r == Err(EmptyClientId) <==> b.clientId == "")
            && (r == Err(EmptyMetrics) <==> b.clientId != "" && metrics == [])
            && (r == Err(InvalidMetric) <==> b.clientId != "" && bad)
            && (r.Err? ==> next == b)
            && (r.Ok? ==> r.value == MetricBatch(b.clientId, BatchId(b.clientId, b.sessionNonce, b.nextSequence), metrics)
                          && next == Builder(b.clientId, b.sessionNonce, (b.nextSequence + 1) % 0x1_0000_0000_0000_0000))
  {
    hide BatchId;
  }

  /** What the builder hands out is fit for every queue and every store, unchanged. */
  lemma BuildMeaning(b: Builder, metrics: seq<Metric>)
    ensures var (next, r) := Build(b, metrics);
            && (r.Ok? <==> b.clientId != "" && metrics != [] && AllValid(metrics))
            && (r.Ok? ==> ValidBatch(r.value) && r.value.metrics == metrics && r.value.clientId == b.clientId)
            && (r.Err? ==> next == b)
            && next.clientId == b.clientId && next.sessionNonce == b.sessionNonce
  {
    if Build(b, metrics).1.Ok? {
      assert BatchId(b.clientId, b.sessionNonce, b.nextSequence)[|b.clientId|] == '-';
    }
  }
}
