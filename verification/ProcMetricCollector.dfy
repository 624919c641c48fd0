/** The collector object: `CollectorModel` carried out in place, with guarded 64-bit arithmetic. */
module ProcMetrics {
  import opened Types
  import opened CollectorModel

  /** At most eight leading values. */
  method ReadFields(tokens: seq<Token>) returns (fields: seq<UInt64>)
    ensures fields == Fields(tokens, 8)
  {
    hide Fields;
    fields := [];
    assert tokens[0..] == tokens && [] + Fields(tokens, 8) == Fields(tokens, 8);
    while |fields| < 8 && |fields| < |tokens| && tokens[|fields|].Value?
      invariant |fields| <= 8 && |fields| <= |tokens|
      invariant fields + Fields(tokens[|fields|..], 8 - |fields|) == Fields(tokens, 8)
    {
      FieldsFrom(tokens, |fields|, 8 - |fields|);
      fields := fields + [tokens[|fields|].v];
    }
    FieldsFrom(tokens, |fields|, 8 - |fields|);
    assert fields + [] == fields;
  }

  lemma FieldsFrom(tokens: seq<Token>, k: nat, limit: nat)
    requires k <= |tokens|
    ensures Fields(tokens[k..], limit) ==
            if k < |tokens| && limit > 0 && tokens[k].Value? then [tokens[k].v] + Fields(tokens[k + 1..], limit - 1) else []
  {
    if k < |tokens| {
      assert tokens[k..][1..] == tokens[k + 1..];
    }
  }

  /** Every addition is guarded, so none wraps; a sum that does not fit is reported. */
  method SumFields(fields: seq<UInt64>) returns (total: Option<UInt64>)
    ensures total == if Total(fields) > UINT64_MAX then None else Some(Total(fields))
  {
    var sum: UInt64 := 0;
    for i := 0 to |fields|
      invariant sum == Total(fields[..i])
    {
      assert fields[..i + 1][..i] == fields[..i];
      if fields[i] > UINT64_MAX - sum {
        TotalGrows(fields, i + 1);
        return None;
      }
      sum := sum + fields[i];
    }
    assert fields[..|fields|] == fields;
    return Some(sum);
  }

  method ParseCpuCounters(text: StatText) returns (r: Result<CpuCounters, CollectionError>)
    ensures r == ParseCpu(text)
  {
    if text.cpuLabel != "cpu" {
      return Err(MalformedSource);
    }
    var fields := ReadFields(text.tokens);
    if |fields| < 4 {
      return Err(MalformedSource);
    }
    var total := SumFields(fields);
    if total.None? {
      return Err(MalformedSource);
    }
    var wait := IoWait(text.tokens, fields);
    if wait > UINT64_MAX - fields[3] {
      return Err(MalformedSource);
    }
    return Ok(CpuCounters(total.value, fields[3] + wait));
  }

  lemma {:induction false} TotalGrows(fields: seq<UInt64>, i: nat)
    requires i <= |fields|
    ensures Total(fields[..i]) <= Total(fields)
  {
    if i == |fields| {
      assert fields[..i] == fields;
    } else {
      TotalGrows(fields[..|fields| - 1], i);
      assert fields[..|fields| - 1][..i] == fields[..i];
    }
  }

  method ParseMemoryMetrics(lines: seq<MemoryLine>, timestampMs: Int64) returns (r: Result<seq<Metric>, CollectionError>)
    ensures r == ParseMemory(lines, timestampMs)
  {
    var totalKb: Option<UInt64>, availableKb: Option<UInt64> := None, None;
    for i := 0 to |lines|
      invariant forall k :: 0 <= k < i && Relevant(lines[k]) ==> Readable(lines[k])
      invariant totalKb == LastValue(lines[..i], "MemTotal:")
      invariant availableKb == LastValue(lines[..i], "MemAvailable:")
    {
      assert lines[..i + 1][..i] == lines[..i];
      if !Relevant(lines[i]) {
        continue;
      }
      if !Readable(lines[i]) {
        return Err(MalformedSource);
      }
      if lines[i].key == "MemTotal:" {
        totalKb := lines[i].value;
      } else {
        availableKb := lines[i].value;
      }
    }
    assert lines[..|lines|] == lines;
    if totalKb.None? || availableKb.None? || totalKb.value == 0 || availableKb.value > totalKb.value
       || totalKb.value > UINT64_MAX / BYTES_PER_KILOBYTE {
      return Err(MalformedSource);
    }
    var totalBytes: UInt64 := totalKb.value * BYTES_PER_KILOBYTE;
    var availableBytes: UInt64 := availableKb.value * BYTES_PER_KILOBYTE;
    var usedBytes: UInt64 := totalBytes - availableBytes;
    var usagePercent := 100.0 * (usedBytes as real) / (totalBytes as real);
    return Ok([Sample("memory_used_bytes", usedBytes as real, timestampMs),
               Sample("memory_available_bytes", availableBytes as real, timestampMs),
               Sample("memory_usage_percent", usagePercent, timestampMs)]);
  }

  class ProcMetricCollector {
    var previousCpuCounters: Option<CpuCounters>

    constructor ()
      ensures previousCpuCounters == None
    {
      previousCpuCounters := None;
    }

    method Collect(input: Input) returns (r: Result<seq<Metric>, CollectionError>)
      modifies this
      ensures (previousCpuCounters, r) == CollectorModel.Collect(old(previousCpuCounters), input)
    {
      if input.stat.Unreadable? {
        return Err(input.stat.error);
      }
      if input.meminfo.Unreadable? {
        return Err(input.meminfo.error);
      }
      var currentCpu := ParseCpuCounters(input.stat.text);
      if currentCpu.Err? {
        return Err(currentCpu.error);
      }
      var metrics := ParseMemoryMetrics(input.meminfo.text, input.timestampMs);
      if metrics.Err? {
        return metrics;
      }
      if previousCpuCounters.None? {
        previousCpuCounters := Some(currentCpu.value);
        return metrics;
      }
      var previous, current := previousCpuCounters.value, currentCpu.value;
      previousCpuCounters := Some(current);
      if current.total <= previous.total || current.idle < previous.idle {
        return Err(InvalidCounterDelta);
      }
      var totalDelta: UInt64 := current.total - previous.total;
      var idleDelta: UInt64 := current.idle - previous.idle;
      if idleDelta > totalDelta {
        return Err(InvalidCounterDelta);
      }
      var activeDelta: UInt64 := totalDelta - idleDelta;
      var percent := 100.0 * (activeDelta as real) / (totalDelta as real);
      return Ok([Sample("cpu_usage_percent", percent, input.timestampMs)] + metrics.value);
    }
  }
}
