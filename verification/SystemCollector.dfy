/** The snapshot that the collector produces and the sampler publishes. */
module SystemMetricsModel {
  datatype SystemMetrics = SystemMetrics(
    cpuUsagePercent: real, memoryTotalBytes: nat, memoryAvailableBytes: nat, memoryUsedBytes: nat,
    loadAverage1m: real, loadAverage5m: real, loadAverage15m: real, uptimeSeconds: nat)

  const NO_METRICS := SystemMetrics(0.0, 0, 0, 0, 0.0, 0.0, 0.0, 0)

  /** What one `Collect` call returns. */
  datatype Collected = Sampled(metrics: SystemMetrics) | Failed(error: string)
}

/** `SystemCollector`: cpu usage from counter differences, and memory figures. */
module SystemCollector {
  import opened Basics
  import opened SystemMetricsModel
  import opened Text

  const KILOBYTE: nat := 1024

  // ----- cpu -----

  /** The counters of the first line of /proc/stat, each a 64-bit number. */
  datatype CpuTimes = CpuTimes(
    user: nat, nice: nat, system: nat, idle: nat, iowait: nat, irq: nat, softirq: nat, steal: nat)
  {
    function Exact(): nat {
      user + nice + system + idle + iowait + irq + softirq + steal
    }

    /** The sum wraps in 64 bits. */
    function Total(): nat {
      Exact() % WORD
    }

    function Idle(): nat {
      (idle + iowait) % WORD
    }
  }

  function Usage(previous: CpuTimes, current: CpuTimes): (percent: real)
    ensures 0.0 <= percent <= 100.0
  {
    if current.Total() < previous.Total() || current.Idle() < previous.Idle() then 0.0
    else
      var total, idle := current.Total() - previous.Total(), current.Idle() - previous.Idle();
      if total == 0 || idle > total then 0.0
      else
        Fraction(total - idle, total);
        (total - idle) as real / total as real * 100.0
  }

  lemma Fraction(part: nat, whole: nat)
    requires part <= whole && whole > 0
    ensures 0.0 <= part as real / whole as real * 100.0 <= 100.0
  {
    assert 0.0 <= part as real / whole as real <= 1.0;
  }

  /** For any two readings whose counters add up to less than 2^64: the percentage is the busy share of the ticks
      in between, and 0 when none passed or the counters cannot be compared. */
  lemma UsageIsBusyShare(before: CpuTimes, after: CpuTimes)
    requires before.Exact() < 0x1_0000_0000_0000_0000
    requires after.Exact() < 0x1_0000_0000_0000_0000
    ensures var elapsed := after.user + after.nice + after.system + after.idle + after.iowait + after.irq
        + after.softirq + after.steal - before.user - before.nice - before.system - before.idle - before.iowait - before.irq
        - before.softirq - before.steal;
      var idle := after.idle + after.iowait - before.idle - before.iowait;
      Usage(before, after) ==
        if 0 <= idle <= elapsed && elapsed > 0 then (elapsed - idle) as real / elapsed as real * 100.0 else 0.0
  {
    NothingWraps(before);
    NothingWraps(after);
    hide CpuTimes.Total, CpuTimes.Idle;
  }

  lemma NothingWraps(c: CpuTimes)
    requires c.Exact() < WORD
    ensures c.Total() == c.Exact() && c.Idle() == c.idle + c.iowait
  {
  }

  // ----- memory -----

  datatype MemInfo = MemInfo(total: Option<nat>, available: Option<nat>)

  /** One line of /proc/meminfo: a key, a number and the unit kB; any other line is skipped. */
  function MemInfoLine(info: MemInfo, line: string): MemInfo {
    match ExtractWord(line)
    case None => info
    case Some((key, afterKey)) =>
      match ExtractUnsigned(afterKey)
      case None => info
      case Some((value, afterValue)) =>
        match ExtractWord(afterValue)
        case None => info
        case Some((unit, _)) =>
          if unit != "kB" then info
          else if key == "MemTotal:" then info.(total := Some(value))
          else if key == "MemAvailable:" then info.(available := Some(value))
          else info
  }

  function MemInfoLines(info: MemInfo, lines: seq<string>): MemInfo
    decreases |lines|
  {
    if lines == [] then info else MemInfoLines(MemInfoLine(info, lines[0]), lines[1..])
  }

  /** Whether the figures can be turned into bytes without overflow and subtracted. */
  predicate Consistent(info: MemInfo) {
    && info.total.Some? && info.available.Some?
    && info.total.value <= (WORD - 1) / KILOBYTE
    && info.available.value <= info.total.value
  }

  /** The bytes of the total fit in 64 bits, and no more is available than there is. */
  lemma ConsistentExactlyWhen(info: MemInfo)
    ensures Consistent(info) <==>
      && info.total.Some? && info.available.Some?
      && info.total.value * 1024 < 0x1_0000_0000_0000_0000
      && info.available.value <= info.total.value
  {
  }

  method ReadMemoryMetrics(meminfo: Option<string>, metrics: SystemMetrics)
    returns (r: Option<SystemMetrics>, error: string)
    ensures r.Some? <==> meminfo.Some? && Consistent(MemInfoLines(MemInfo(None, None), Segments(meminfo.value, '\n')))
    ensures r.Some? ==>
      var info := MemInfoLines(MemInfo(None, None), Segments(meminfo.value, '\n'));
      && r.value.memoryTotalBytes == info.total.value * 1024 < WORD
      && r.value.memoryAvailableBytes == info.available.value * 1024
      && r.value.memoryUsedBytes + r.value.memoryAvailableBytes == r.value.memoryTotalBytes
      && r.value.cpuUsagePercent == metrics.cpuUsagePercent
    ensures r.None? ==>
      error == if meminfo.None? then "failed to open /proc/meminfo" else "invalid memory values in /proc/meminfo"
  {
    if meminfo.None? {
      return None, "failed to open /proc/meminfo";
    }
    var info := MemInfo(None, None);
    var lines := Segments(meminfo.value, '\n');
    ghost var all := MemInfoLines(info, lines);
    while lines != []
      invariant MemInfoLines(info, lines) == all
      decreases |lines|
    {
      info := MemInfoLine(info, lines[0]);
      lines := lines[1..];
    }
    if info.total.None? || info.available.None? || info.total.value > (WORD - 1) / KILOBYTE
       || info.available.value > info.total.value {
      return None, "invalid memory values in /proc/meminfo";
    }
    var total, available := info.total.value * KILOBYTE, info.available.value * KILOBYTE;
    return Some(metrics.(memoryTotalBytes := total, memoryAvailableBytes := available,
                         memoryUsedBytes := total - available)), "";
  }

  // ----- the class -----

  /** What the four files under /proc yield: the counters and the memory text as read, the load averages and
      the uptime as already accepted or refused by the floating-point parser. */
  datatype ProcFiles = ProcFiles(
    cpu: Option<CpuTimes>, meminfo: Option<string>, load: Option<(real, real, real)>, uptime: Option<nat>)

  class SystemCollector {
    var previousCpuTimes: CpuTimes
    var hasPreviousCpuTimes: bool

    constructor (cpu: Option<CpuTimes>)
      ensures hasPreviousCpuTimes == cpu.Some?
      ensures cpu.Some? ==> previousCpuTimes == cpu.value
    {
      previousCpuTimes := if cpu.Some? then cpu.value else CpuTimes(0, 0, 0, 0, 0, 0, 0, 0);
      hasPreviousCpuTimes := cpu.Some?;
    }

    method CollectCpuUsage(cpu: Option<CpuTimes>) returns (percent: Option<real>)
      modifies this
      ensures percent.Some? <==> cpu.Some?
      ensures cpu.None? ==> unchanged(this)
      ensures cpu.Some? ==>
        && hasPreviousCpuTimes && previousCpuTimes == cpu.value
        && percent.value == if old(hasPreviousCpuTimes) then Usage(old(previousCpuTimes), cpu.value) else 0.0
    {
      if cpu.None? {
        return None;
      }
      var current, usage := cpu.value, 0.0;
      if hasPreviousCpuTimes {
        usage := Usage(previousCpuTimes, current);
      }
      previousCpuTimes := current;
      hasPreviousCpuTimes := true;
      return Some(usage);
    }

    /** A snapshot of all sources, or the failure of the first bad one, which is always named: this is what
        makes the sampler's answers trustworthy. Counters once read are the new baseline even when a later
        source fails. */
    method Collect(files: ProcFiles) returns (outcome: Collected)
      modifies this
      ensures files.cpu.None? ==> unchanged(this)
      ensures files.cpu.Some? ==> hasPreviousCpuTimes && previousCpuTimes == files.cpu.value
      ensures outcome != Failed("")
      ensures files.cpu.None? ==> outcome == Failed("failed to parse /proc/stat")
      ensures files.cpu.Some? ==>
        var percent := if old(hasPreviousCpuTimes) then Usage(old(previousCpuTimes), files.cpu.value) else 0.0;
        var info := if files.meminfo.None? then MemInfo(None, None)
                    else MemInfoLines(MemInfo(None, None), Segments(files.meminfo.value, '\n'));
        if files.meminfo.None? then outcome == Failed("failed to open /proc/meminfo")
        else if !Consistent(info) then outcome == Failed("invalid memory values in /proc/meminfo")
        else if files.load.None? then outcome == Failed("failed to parse /proc/loadavg")
        else if files.uptime.None? then outcome == Failed("failed to parse /proc/uptime")
        else
          && outcome.Sampled?
          && outcome.metrics.cpuUsagePercent == percent
          && outcome.metrics.memoryTotalBytes == info.total.value * 1024 < WORD
          && outcome.metrics.memoryAvailableBytes == info.available.value * 1024
          && outcome.metrics.memoryUsedBytes + outcome.metrics.memoryAvailableBytes == outcome.metrics.memoryTotalBytes
          && (outcome.metrics.loadAverage1m, outcome.metrics.loadAverage5m, outcome.metrics.loadAverage15m)
               == files.load.value
          && outcome.metrics.uptimeSeconds == files.uptime.value
    {
      hide Usage, MemInfoLines, Segments;
      var percent := CollectCpuUsage(files.cpu);
      if percent.None? {
        return Failed("failed to parse /proc/stat");
      }
      var memory, error := ReadMemoryMetrics(files.meminfo, NO_METRICS.(cpuUsagePercent := percent.value));
      if memory.None? {
        return Failed(error);
      }
      if files.load.None? {
        return Failed("failed to parse /proc/loadavg");
      }
      if files.uptime.None? {
        return Failed("failed to parse /proc/uptime");
      }
      var (one, five, fifteen) := files.load.value;
      return Sampled(memory.value.(loadAverage1m := one, loadAverage5m := five, loadAverage15m := fifteen,
                                   uptimeSeconds := files.uptime.value));
    }
  }
}
