/**
 What a call of the collector answers, told from the numbers and lines of the two sources: when a source is
 refused, which counters and samples it gives otherwise, and what a call makes of them.
 */
module CollectorAnswers {
  import opened Types
  import opened CollectorModel

  // ----- the CPU row

  /** The row starts with exactly `n` numbers that fit, looking at no more than eight. */
  ghost predicate Leading(tokens: seq<Token>, n: nat) {
    && n <= 8 && n <= |tokens|
    && (forall i :: 0 <= i < n ==> tokens[i].Value?)
    && (n < 8 && n < |tokens| ==> !tokens[n].Value?)
  }

  /** The number in column `i`, zero when the row does not get that far. */
  function Column(tokens: seq<Token>, n: nat, i: nat): nat
    requires Leading(tokens, n)
  {
    if i < n then tokens[i].v else 0
  }

  /** What the fifth column contributes to idle time: its number; or, when exactly four numbers could be
      read, what the failed fifth extraction left there, the 64-bit maximum for an oversized number. */
  function FifthColumn(tokens: seq<Token>, n: nat): nat
    requires Leading(tokens, n)
  {
    if n == 4 && |tokens| > 4 && tokens[4].TooLarge? then 0xFFFF_FFFF_FFFF_FFFF else Column(tokens, n, 4)
  }

  lemma {:induction false} FieldsLead(tokens: seq<Token>, limit: nat)
    ensures var fields := Fields(tokens, limit);
            && |fields| <= limit && |fields| <= |tokens|
            && (forall i :: 0 <= i < |fields| ==> tokens[i] == Value(fields[i]))
            && (|fields| < limit && |fields| < |tokens| ==> !tokens[|fields|].Value?)
  {
    if !(tokens == [] || limit == 0 || !tokens[0].Value?) {
      FieldsLead(tokens[1..], limit - 1);
    }
  }

  function Entry(fields: seq<UInt64>, i: nat): nat {
    if i < |fields| then fields[i] else 0
  }

  function UpTo(fields: seq<UInt64>, i: nat): seq<UInt64> {
    if i <= |fields| then fields[..i] else fields
  }

  lemma TotalUpTo(fields: seq<UInt64>, i: nat)
    ensures Total(UpTo(fields, i + 1)) == Total(UpTo(fields, i)) + Entry(fields, i)
  {
    if i < |fields| {
      assert fields[..i + 1][..i] == fields[..i];
    } else if i == |fields| {
      assert fields[..i] == fields;
    }
  }

  lemma Ends(fields: seq<UInt64>)
    requires |fields| <= 8
    ensures Total(UpTo(fields, 0)) == 0 && UpTo(fields, 8) == fields
  {
  }

  lemma EightColumns(fields: seq<UInt64>)
    requires |fields| <= 8
    ensures Total(fields) ==
            Entry(fields, 0) + Entry(fields, 1) + Entry(fields, 2) + Entry(fields, 3)
            + Entry(fields, 4) + Entry(fields, 5) + Entry(fields, 6) + Entry(fields, 7)
  {
    hide Total, UpTo, Entry;
    Ends(fields);
    TotalUpTo(fields, 0);
    TotalUpTo(fields, 1);
    TotalUpTo(fields, 2);
    TotalUpTo(fields, 3);
    TotalUpTo(fields, 4);
    TotalUpTo(fields, 5);
    TotalUpTo(fields, 6);
    TotalUpTo(fields, 7);
  }

  /** A row is accepted when it is the aggregate row, has at least four numbers, and neither the sum of its
      first eight nor idle time leaves 64 bits; total is that sum, idle the fourth and fifth columns. */
  lemma CpuRowAnswer(text: StatText) returns (n: nat)
    ensures Leading(text.tokens, n)
    ensures var total := Column(text.tokens, n, 0) + Column(text.tokens, n, 1) + Column(text.tokens, n, 2)
                         + Column(text.tokens, n, 3) + Column(text.tokens, n, 4) + Column(text.tokens, n, 5)
                         + Column(text.tokens, n, 6) + Column(text.tokens, n, 7);
            var idle := Column(text.tokens, n, 3) + FifthColumn(text.tokens, n);
            var accepted := text.cpuLabel == "cpu" && n >= 4 && total <= 0xFFFF_FFFF_FFFF_FFFF && idle <= 0xFFFF_FFFF_FFFF_FFFF;
            && (!accepted ==> ParseCpu(text) == Err(MalformedSource))
            && (accepted ==> ParseCpu(text).Ok? && ParseCpu(text).value.total == total && ParseCpu(text).value.idle == idle)
  {
    var fields := Fields(text.tokens, 8);
    FieldsLead(text.tokens, 8);
    EightColumns(fields);
    n := |fields|;
    hide Fields, Total;
    forall i: nat ensures Column(text.tokens, n, i) == Entry(fields, i) {
    }
  }

  // ----- memory

  /** The last line with the key stands at position `i`; there is none when `i` is the number of lines. */
  ghost predicate LastLine(lines: seq<MemoryLine>, key: string, i: nat) {
    && i <= |lines|
    && (i < |lines| ==> lines[i].key == key)
    && forall j :: i < j < |lines| || (i == |lines| && 0 <= j < i) ==> lines[j].key != key
  }

  lemma {:induction false} LastValueAt(lines: seq<MemoryLine>, key: string) returns (i: nat)
    ensures LastLine(lines, key, i)
    ensures LastValue(lines, key) == if i < |lines| then lines[i].value else None
  {
    if lines == [] {
      return 0;
    }
    var n := |lines| - 1;
    if lines[n].key == key {
      return n;
    }
    i := LastValueAt(lines[..n], key);
    if i == n {
      i := n + 1;
    }
  }

  /** A total or available line without a number, or not in kilobytes. */
  ghost predicate BadLine(line: MemoryLine) {
    && (line.key == "MemTotal:" || line.key == "MemAvailable:")
    && (line.value.None? || line.memoryUnit != "kB")
  }

  ghost predicate MemoryAccepted(lines: seq<MemoryLine>, t: nat, a: nat) {
    && (forall i :: 0 <= i < |lines| ==> !BadLine(lines[i]))
    && t < |lines| && a < |lines| && lines[t].value.Some? && lines[a].value.Some?
    && 0 < lines[t].value.value && lines[a].value.value <= lines[t].value.value
    && lines[t].value.value * 1024 <= 0xFFFF_FFFF_FFFF_FFFF
  }

  ghost predicate SampleIs(m: Metric, name: string, timestampMs: Int64) {
    m.name == name && m.value.Finite? && m.tags == map[] && m.timestampMs == timestampMs && m.sourceClientId == ""
  }

  /** Used and available bytes and the used share of the total, under their names, at the sampling time. */
  ghost predicate MemorySamples(m: seq<Metric>, totalKb: nat, availableKb: nat, timestampMs: Int64) {
    && |m| == 3
    && SampleIs(m[0], "memory_used_bytes", timestampMs)
    && SampleIs(m[1], "memory_available_bytes", timestampMs)
    && SampleIs(m[2], "memory_usage_percent", timestampMs)
    && m[0].value.r == (totalKb * 1024) as real - (availableKb * 1024) as real
    && m[1].value.r == (availableKb * 1024) as real
    && m[2].value.r * (totalKb as real) == 100.0 * (totalKb as real - availableKb as real)
  }

  lemma SameShare(x: real, a: real, b: real, k: real)
    requires k > 0.0 && x * (k * b) == 100.0 * (k * a)
    ensures x * b == 100.0 * a
  {
    assert k * (x * b - 100.0 * a) == 0.0;
  }

  /** The memory text is accepted when no relevant line is bad, both are there, and the last total is
      positive, not below the last available, and fits in 64 bits as bytes. */
  lemma MemoryAnswer(lines: seq<MemoryLine>, timestampMs: Int64) returns (t: nat, a: nat)
    ensures LastLine(lines, "MemTotal:", t) && LastLine(lines, "MemAvailable:", a)
    ensures !MemoryAccepted(lines, t, a) ==> ParseMemory(lines, timestampMs) == Err(MalformedSource)
    ensures MemoryAccepted(lines, t, a) ==>
              && ParseMemory(lines, timestampMs).Ok?
              && MemorySamples(ParseMemory(lines, timestampMs).value, lines[t].value.value, lines[a].value.value, timestampMs)
  {
    t := LastValueAt(lines, "MemTotal:");
    a := LastValueAt(lines, "MemAvailable:");
    forall i | 0 <= i < |lines| ensures BadLine(lines[i]) <==> Relevant(lines[i]) && !Readable(lines[i]) {
    }
    hide LastLine, LastValue;
    if MemoryAccepted(lines, t, a) {
      assert ParseMemory(lines, timestampMs) == Ok(MemoryMetrics(lines[t].value.value, lines[a].value.value, timestampMs));
      SamplesAre(lines[t].value.value, lines[a].value.value, timestampMs);
    }
  }

  lemma SamplesAre(totalKb: UInt64, availableKb: UInt64, timestampMs: Int64)
    requires 0 < totalKb && availableKb <= totalKb
    ensures MemorySamples(MemoryMetrics(totalKb, availableKb, timestampMs), totalKb, availableKb, timestampMs)
  {
    var used, total := (totalKb - availableKb) * 1024, totalKb * 1024;
    QuotientWithin(used as real, total as real);
    var x := 100.0 * (used as real) / (total as real);
    SameShare(x, (totalKb - availableKb) as real, totalKb as real, 1024.0);
  }

  // ----- a call

  /** Time has passed since the baseline, idle time has not gone back, and no more of it has passed than
      of time. */
  ghost predicate Plausible(before: CpuCounters, after: CpuCounters) {
    && after.total > before.total && after.idle >= before.idle
    && after.idle - before.idle <= after.total - before.total
  }

  /** A CPU percentage: the share, between 0 and 100, of time that was not idle. */
  ghost predicate CpuShare(m: Metric, before: CpuCounters, after: CpuCounters, timestampMs: Int64) {
    && SampleIs(m, "cpu_usage_percent", timestampMs)
    && 0.0 <= m.value.r <= 100.0
    && m.value.r * ((after.total - before.total) as real)
       == 100.0 * (((after.total - before.total) - (after.idle - before.idle)) as real)
  }

  /** A call fails with the first source that cannot be read, CPU before memory, then with the first that is
      malformed, and keeps the baseline; otherwise the counters become the baseline.  Without an earlier one
      the memory samples are answered; counters that are not plausible are an error; else the CPU percentage
      comes before the memory samples. */
  lemma CollectAnswer(baseline: Option<CpuCounters>, input: Input)
    ensures var (next, r) := Collect(baseline, input);
            if input.stat.Unreadable? then next == baseline && r == Err(input.stat.error)
            else if input.meminfo.Unreadable? then next == baseline && r == Err(input.meminfo.error)
            else
              var cpu, memory := ParseCpu(input.stat.text), ParseMemory(input.meminfo.text, input.timestampMs);
              if cpu.Err? || memory.Err? then next == baseline && r == Err(MalformedSource)
              else
                && next == Some(cpu.value)
                && match baseline
                   case None => r == memory
                   case Some(before) =>
                     if !Plausible(before, cpu.value) then r == Err(InvalidCounterDelta)
                     else
                       && r.Ok? && |r.value| >= 1
                       && CpuShare(r.value[0], before, cpu.value, input.timestampMs)
                       && r.value[1..] == memory.value
  {
    if input.stat.Contents? && input.meminfo.Contents? {
      var cpu, memory := ParseCpu(input.stat.text), ParseMemory(input.meminfo.text, input.timestampMs);
      OnlyMalformed(input.stat.text, input.meminfo.text, input.timestampMs);
      hide ParseCpu, ParseMemory, CpuShare, CpuPercent;
      if cpu.Ok? && memory.Ok? && baseline.Some? && Plausible(baseline.value, cpu.value) {
        ShareOf(baseline.value, cpu.value, input.timestampMs);
        assert ([Sample("cpu_usage_percent", CpuPercent(baseline.value, cpu.value), input.timestampMs)] + memory.value)[1..]
            == memory.value;
      }
    }
  }

  lemma OnlyMalformed(text: StatText, lines: seq<MemoryLine>, timestampMs: Int64)
    ensures ParseCpu(text).Ok? || ParseCpu(text) == Err(MalformedSource)
    ensures ParseMemory(lines, timestampMs).Ok? || ParseMemory(lines, timestampMs) == Err(MalformedSource)
  {
    hide Fields, Total, LastValue;
  }

  lemma ShareOf(before: CpuCounters, after: CpuCounters, timestampMs: Int64)
    requires Advances(before, after)
    ensures CpuShare(Sample("cpu_usage_percent", CpuPercent(before, after), timestampMs), before, after, timestampMs)
  {
    QuotientWithin(((after.total - before.total) - (after.idle - before.idle)) as real, (after.total - before.total) as real);
  }
}
