/**
 CPU and memory samples from the two Linux sources: what one call of the collector means, and what
 holds over runs of calls with the moving CPU baseline.
 */
module CollectorModel {
  import opened Types

  const UINT64_MAX: int := TWO_64 - 1
  const BYTES_PER_KILOBYTE: int := 1024

  datatype CollectionError = ReadFailed | MalformedSource | InvalidCounterDelta

  /** One numeric extraction from the CPU row: a value, a number too large for 64 bits (the stream
      then fails and stores the maximum), or text that is not a number (it stores zero). */
  datatype Token = Value(v: UInt64) | TooLarge | NotANumber

  datatype StatText = StatText(cpuLabel: string, tokens: seq<Token>)

  /** One line: its key, and the value and unit behind it when they can be extracted. */
  datatype MemoryLine = MemoryLine(key: string, value: Option<UInt64>, memoryUnit: string)

  datatype Source<+T> = Unreadable(error: CollectionError) | Contents(text: T)

  datatype CpuCounters = CpuCounters(total: UInt64, idle: UInt64)

  datatype Input = Input(stat: Source<StatText>, meminfo: Source<seq<MemoryLine>>, timestampMs: Int64)

  // ----- the CPU row

  /** The leading values, at most eight. */
  function Fields(tokens: seq<Token>, limit: nat): seq<UInt64> {
    if tokens == [] || limit == 0 || !tokens[0].Value? then []
    else [tokens[0].v] + Fields(tokens[1..], limit - 1)
  }

  function Total(fields: seq<UInt64>): nat {
    if fields == [] then 0 else Total(fields[..|fields| - 1]) + fields[|fields| - 1]
  }

  /** The I/O wait slot: the fifth field, or what a failed fifth extraction left there. */
  function IoWait(tokens: seq<Token>, fields: seq<UInt64>): UInt64 {
    if |fields| > 4 then fields[4]
    else if |fields| == 4 && |tokens| > 4 && tokens[4].TooLarge? then UINT64_MAX
    else 0
  }

  function ParseCpu(text: StatText): Result<CpuCounters, CollectionError> {
    var fields := Fields(text.tokens, 8);
    if text.cpuLabel != "cpu" || |fields| < 4 then Err(MalformedSource)
    else
      var idle := fields[3] + IoWait(text.tokens, fields);
      if Total(fields) > UINT64_MAX || idle > UINT64_MAX then Err(MalformedSource)
      else Ok(CpuCounters(Total(fields), idle))
  }

  // ----- memory

  predicate Relevant(line: MemoryLine) {
    line.key == "MemTotal:" || line.key == "MemAvailable:"
  }

  predicate Readable(line: MemoryLine) {
    line.value.Some? && line.memoryUnit == "kB"
  }

  /** The value on the last line with the key. */
  function LastValue(lines: seq<MemoryLine>, key: string): Option<UInt64> {
    if lines == [] then None
    else if lines[|lines| - 1].key == key then lines[|lines| - 1].value
    else LastValue(lines[..|lines| - 1], key)
  }

  function Sample(name: string, value: real, timestampMs: Int64): Metric {
    Metric(name, Finite(value), map[], timestampMs, "")
  }

  function MemoryMetrics(totalKb: UInt64, availableKb: UInt64, timestampMs: Int64): seq<Metric>
    requires totalKb > 0
  {
    var used, total := (totalKb - availableKb) * BYTES_PER_KILOBYTE, totalKb * BYTES_PER_KILOBYTE;
    [Sample("memory_used_bytes", used as real, timestampMs),
     Sample("memory_available_bytes", (availableKb * BYTES_PER_KILOBYTE) as real, timestampMs),
     Sample("memory_usage_percent", 100.0 * (used as real) / (total as real), timestampMs)]
  }

  function ParseMemory(lines: seq<MemoryLine>, timestampMs: Int64): Result<seq<Metric>, CollectionError> {
    var total, available := LastValue(lines, "MemTotal:"), LastValue(lines, "MemAvailable:");
    if exists i :: 0 <= i < |lines| && Relevant(lines[i]) && !Readable(lines[i]) then Err(MalformedSource)
    else if total.None? || available.None? then Err(MalformedSource)
    else if total.value == 0 || available.value > total.value || total.value > UINT64_MAX / BYTES_PER_KILOBYTE then
      Err(MalformedSource)
    else Ok(MemoryMetrics(total.value, available.value, timestampMs))
  }

  // ----- one call

  /** Counters that can follow a baseline: time has passed, and idle time is part of it. */
  predicate Advances(before: CpuCounters, after: CpuCounters) {
    before.total < after.total && before.idle <= after.idle && after.idle - before.idle <= after.total - before.total
  }

  function CpuPercent(before: CpuCounters, after: CpuCounters): real
    requires Advances(before, after)
  {
    100.0 * (((after.total - before.total) - (after.idle - before.idle)) as real) / ((after.total - before.total) as real)
  }

  /** Both sources read and parsed. */
  function Parsed(input: Input): Result<(CpuCounters, seq<Metric>), CollectionError> {
    if input.stat.Unreadable? then Err(input.stat.error)
    else if input.meminfo.Unreadable? then Err(input.meminfo.error)
    else
      match ParseCpu(input.stat.text)
      case Err(e) => Err(e)
      case Ok(cpu) =>
        match ParseMemory(input.meminfo.text, input.timestampMs)
        case Err(e) => Err(e)
        case Ok(memory) => Ok((cpu, memory))
  }

  function Collect(baseline: Option<CpuCounters>, input: Input): (Option<CpuCounters>, Result<seq<Metric>, CollectionError>) {
    match Parsed(input)
    case Err(e) => (baseline, Err(e))
    case Ok((cpu, memory)) =>
      (Some(cpu),
       if baseline.None? then Ok(memory)
       else if !Advances(baseline.value, cpu) then Err(InvalidCounterDelta)
       else Ok([Sample("cpu_usage_percent", CpuPercent(baseline.value, cpu), input.timestampMs)] + memory))
  }

  // ----- what a call promises

  lemma QuotientWithin(a: real, b: real)
    requires 0.0 <= a <= b && b > 0.0
    ensures 0.0 <= 100.0 * a / b <= 100.0
    ensures 100.0 * a / b * b == 100.0 * a
  {
    var q := a / b;
    assert q * b == a;
    assert 0.0 <= q <= 1.0 by {
      NonNegative(q, b);
      NonNegative(1.0 - q, b);
      assert (1.0 - q) * b == b - a;
    }
    assert 100.0 * a / b == 100.0 * q;
  }

  lemma NonNegative(x: real, b: real)
    requires b > 0.0
    ensures x * b >= 0.0 ==> x >= 0.0
  {
  }

  /** The CPU percentage is a percentage, and undoes the division by elapsed time. */
  lemma CpuPercentMeaning(before: CpuCounters, after: CpuCounters)
    requires Advances(before, after)
    ensures 0.0 <= CpuPercent(before, after) <= 100.0
    ensures CpuPercent(before, after) * Elapsed(before, after) == 100.0 * ((Active(after) - Active(before)) as real)
  {
    var elapsed, active := Elapsed(before, after), ((after.total - before.total) - (after.idle - before.idle)) as real;
    QuotientWithin(active, elapsed);
  }

  /** Used and available bytes make up the total, which fits in 64 bits, and the percentage is the used
      share of it. */
  lemma MemoryMeaning(lines: seq<MemoryLine>, timestampMs: Int64)
    requires ParseMemory(lines, timestampMs).Ok?
    ensures var m, total := ParseMemory(lines, timestampMs).value, LastValue(lines, "MemTotal:").value * BYTES_PER_KILOBYTE;
            && 0 < total <= UINT64_MAX
            && |m| == 3
            && m[0].value.r + m[1].value.r == total as real
            && m[1].value.r == (LastValue(lines, "MemAvailable:").value * BYTES_PER_KILOBYTE) as real
            && 0.0 <= m[2].value.r <= 100.0
            && m[2].value.r * (total as real) == 100.0 * m[0].value.r
            && forall i :: 0 <= i < 3 ==> ValidMetric(m[i]) && m[i].timestampMs == timestampMs
  {
    hide LastValue;
    var total, available := LastValue(lines, "MemTotal:").value, LastValue(lines, "MemAvailable:").value;
    QuotientWithin(((total - available) * BYTES_PER_KILOBYTE) as real, (total * BYTES_PER_KILOBYTE) as real);
  }

  /** The fifth number of the CPU row did not fit in 64 bits: the row counts as four fields, but the
      failed extraction has left the maximum in the I/O wait slot. */
  predicate LeftoverIoWait(text: StatText) {
    |Fields(text.tokens, 8)| == 4 && |text.tokens| > 4 && text.tokens[4].TooLarge?
  }

  lemma {:induction false} FieldBelowTotal(fields: seq<UInt64>, i: nat)
    requires i < |fields|
    ensures fields[i] <= Total(fields)
    ensures i + 1 < |fields| ==> fields[i] + fields[i + 1] <= Total(fields)
  {
    if i + 2 < |fields| {
      FieldBelowTotal(fields[..|fields| - 1], i);
    } else if i + 2 == |fields| {
      FieldBelowTotal(fields[..|fields| - 1], i);
      assert fields[..|fields| - 1][i] == fields[i];
    }
  }

  /** Parsed idle time is part of parsed total time, except exactly when an oversized fifth number was
      left in the I/O wait slot and the four numbers read add up to less than the 64-bit maximum. */
  lemma IdleWithinTotalIff(text: StatText)
    requires ParseCpu(text).Ok?
    ensures var cpu := ParseCpu(text).value;
            cpu.idle <= cpu.total <==> !LeftoverIoWait(text) || Total(Fields(text.tokens, 8)) == UINT64_MAX
  {
    FieldBelowTotal(Fields(text.tokens, 8), 3);
  }

  /** Such a row is accepted: one user tick, no idle ticks, and an I/O wait beyond 64 bits. */
  lemma IdleCanExceedTotal() returns (text: StatText)
    ensures ParseCpu(text) == Ok(CpuCounters(1, UINT64_MAX))
  {
    text := StatText("cpu", [Value(1), Value(0), Value(0), Value(0), TooLarge]);
    OneTick();
  }

  lemma OneTick()
    ensures Fields([Value(1), Value(0), Value(0), Value(0), TooLarge], 8) == [1, 0, 0, 0]
    ensures Total([1, 0, 0, 0]) == 1
  {
    var one, three: seq<UInt64>, fields: seq<UInt64> := [1], [1, 0, 0], [1, 0, 0, 0];
    assert Total([1, 0]) == 1 by { assert [1, 0][..1] == [1]; }
    assert three[..2] == [1, 0] && fields[..3] == three;
  }

  // ----- runs

  function BaselineAfter(start: Option<CpuCounters>, inputs: seq<Input>): (baseline: Option<CpuCounters>)
    ensures start.Some? ==> baseline.Some?
  {
    if inputs == [] then start
    else Collect(BaselineAfter(start, inputs[..|inputs| - 1]), inputs[|inputs| - 1]).0
  }

  /** Call `i` read and parsed both sources, giving these counters, and no later call did. */
  ghost predicate LastParsedAt(inputs: seq<Input>, i: nat, cpu: CpuCounters) {
    && i < |inputs| && Parsed(inputs[i]).Ok? && Parsed(inputs[i]).value.0 == cpu
    && forall j :: i < j < |inputs| ==> Parsed(inputs[j]).Err?
  }

  lemma BaselineMoves(baseline: Option<CpuCounters>, input: Input)
    ensures Collect(baseline, input).0 == if Parsed(input).Ok? then Some(Parsed(input).value.0) else baseline
  {
  }

  /** In every run the baseline is the counters of the last call whose sources were both read and
      parsed, whatever that call answered. */
  lemma {:induction false} BaselineIsLastParsed(inputs: seq<Input>)
    ensures var baseline := BaselineAfter(None, inputs);
            && (baseline.None? ==> forall i :: 0 <= i < |inputs| ==> Parsed(inputs[i]).Err?)
            && (baseline.Some? ==> exists i :: LastParsedAt(inputs, i, baseline.value))
  {
    hide Collect, Parsed;
    if inputs != [] {
      var n := |inputs| - 1;
      var init := inputs[..n];
      BaselineIsLastParsed(init);
      BaselineMoves(BaselineAfter(None, init), inputs[n]);
      assert forall j :: 0 <= j < n ==> init[j] == inputs[j];
      if Parsed(inputs[n]).Ok? {
        var cpu := Parsed(inputs[n]).value.0;
        assert BaselineAfter(None, inputs) == Some(cpu);
        assert LastParsedAt(inputs, n, cpu);
      } else if BaselineAfter(None, init).Some? {
        var i :| LastParsedAt(init, i, BaselineAfter(None, init).value);
        assert LastParsedAt(inputs, i, BaselineAfter(None, init).value);
      }
    }
  }

  /** Every call of the run succeeded. */
  ghost predicate Unbroken(start: CpuCounters, inputs: seq<Input>) {
    inputs == [] ||
    var n := |inputs| - 1;
    Unbroken(start, inputs[..n]) && Collect(BaselineAfter(Some(start), inputs[..n]), inputs[n]).1.Ok?
  }

  /** A successful call on a baseline: the counters advanced, and the CPU percentage comes first. */
  lemma SuccessMeans(before: CpuCounters, input: Input)
    requires Collect(Some(before), input).1.Ok?
    ensures Parsed(input).Ok? && Advances(before, Parsed(input).value.0)
    ensures var metrics := Collect(Some(before), input).1.value;
            && metrics != []
            && metrics[0] == Sample("cpu_usage_percent", CpuPercent(before, Parsed(input).value.0), input.timestampMs)
            && metrics[1..] == Parsed(input).value.1
  {
  }

  function Elapsed(before: CpuCounters, after: CpuCounters): real {
    (after.total - before.total) as real
  }

  /** The percentages emitted by an unbroken run, each weighted with the time it covers. */
  function WeightedSum(start: CpuCounters, inputs: seq<Input>): real
    requires Unbroken(start, inputs)
  {
    if inputs == [] then 0.0
    else
      var n := |inputs| - 1;
      var before := BaselineAfter(Some(start), inputs[..n]).value;
      SuccessMeans(before, inputs[n]);
      var metrics := Collect(Some(before), inputs[n]).1.value;
      WeightedSum(start, inputs[..n]) + metrics[0].value.r * Elapsed(before, Parsed(inputs[n]).value.0)
  }

  function Active(cpu: CpuCounters): int {
    cpu.total - cpu.idle
  }

  /** CPU accounting telescopes: the time-weighted sum of the emitted percentages is one hundred
      times the active time between the first and the last snapshot. */
  lemma {:induction false} PercentagesTelescope(start: CpuCounters, inputs: seq<Input>)
    requires Unbroken(start, inputs)
    ensures var last := BaselineAfter(Some(start), inputs).value;
            && start.total <= last.total && (inputs != [] ==> start.total < last.total)
            && WeightedSum(start, inputs) == 100.0 * ((Active(last) - Active(start)) as real)
  {
    hide CpuPercent, Parsed;
    if inputs != [] {
      var n := |inputs| - 1;
      var before := BaselineAfter(Some(start), inputs[..n]).value;
      PercentagesTelescope(start, inputs[..n]);
      SuccessMeans(before, inputs[n]);
      CpuPercentMeaning(before, Parsed(inputs[n]).value.0);
    }
  }

  /** So their weighted mean is the CPU percentage of the whole period. */
  lemma WeightedMeanIsOverall(start: CpuCounters, inputs: seq<Input>)
    requires Unbroken(start, inputs) && inputs != []
    ensures var last := BaselineAfter(Some(start), inputs).value;
            && start.total < last.total
            && WeightedSum(start, inputs) / Elapsed(start, last) ==
               100.0 * ((Active(last) - Active(start)) as real) / Elapsed(start, last)
  {
    hide WeightedSum, BaselineAfter, Unbroken;
    PercentagesTelescope(start, inputs);
  }
}
