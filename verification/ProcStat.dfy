/** `ProcessCollector::ParseStatLine` and the proc_pid_stat(5) layout it reads. */
module ProcStat {
  import opened Basics
  import opened Digits
  import opened Text

  const INT32_MAX: nat := 0x7FFF_FFFF
  const UINT32_MAX: nat := 0xFFFF_FFFF

  datatype ProcessStat = ProcessStat(
    pid: nat, name: string, state: string, ppid: nat, threadCount: nat, startTimeTicks: nat, cpuTicks: nat)

  datatype StatError =
    | InvalidName
    | InvalidPid
    | InvalidStateOrParent
    | MissingFields
    | InvalidCpuFields
    | CpuOverflow
    | MissingSchedulerFields
    | InvalidThreadOrStart

  datatype Result = Success(stat: ProcessStat) | Failure(error: StatError)

  // ----- runs of numbers -----

  function SkipUnsigneds(s: string, n: nat): (r: Option<string>)
    decreases n
  {
    if n == 0 then Some(s)
    else match ExtractUnsigned(s)
      case None => None
      case Some((_, rest)) => SkipUnsigneds(rest, n - 1)
  }

  function SkipSigneds(s: string, n: nat): (r: Option<string>)
    decreases n
  {
    if n == 0 then Some(s)
    else match ExtractSigned(s)
      case None => None
      case Some((_, rest)) => SkipSigneds(rest, n - 1)
  }

  // ----- what the parser computes -----

  /** The fields after the process name, from the state on. */
  function ParseFields(fields: string, pid: nat, name: string): (r: Result) {
    match ExtractChar(fields)
    case None => Failure(InvalidStateOrParent)
    case Some((state, afterState)) =>
      match ExtractSigned(afterState)
      case None => Failure(InvalidStateOrParent)
      case Some((ppid, afterParent)) =>
        if ppid < 0 || ppid > INT32_MAX then Failure(InvalidStateOrParent)
        else match SkipUnsigneds(afterParent, 9)
          case None => Failure(MissingFields)
          case Some(cpu) => ParseCpu(cpu, ProcessStat(pid, name, [state], ppid, 0, 0, 0))
  }

  function ParseCpu(s: string, stat: ProcessStat): (r: Result) {
    match ExtractUnsigned(s)
    case None => Failure(InvalidCpuFields)
    case Some((user, afterUser)) =>
      match ExtractUnsigned(afterUser)
      case None => Failure(InvalidCpuFields)
      case Some((system, afterSystem)) =>
        if user > WORD - 1 - system then Failure(CpuOverflow)
        else match SkipSigneds(afterSystem, 4)
          case None => Failure(MissingSchedulerFields)
          case Some(rest) => ParseThreads(rest, stat.(cpuTicks := user + system))
  }

  function ParseThreads(s: string, stat: ProcessStat): (r: Result) {
    match ExtractUnsigned(s)
    case None => Failure(InvalidThreadOrStart)
    case Some((threads, afterThreads)) =>
      match ExtractSigned(afterThreads)
      case None => Failure(InvalidThreadOrStart)
      case Some((_, afterTimer)) =>
        match ExtractUnsigned(afterTimer)
        case None => Failure(InvalidThreadOrStart)
        case Some((start, _)) =>
          if threads > UINT32_MAX then Failure(InvalidThreadOrStart)
          else Success(stat.(threadCount := threads, startTimeTicks := start))
  }

  function Parsed(line: string): (r: Result) {
    var open, close := First(line, '('), PastLast(line, ')');
    if open == |line| || close == 0 || close - 1 <= open || close + 1 > |line| then Failure(InvalidName)
    else match ExtractSigned(line[..open])
      case None => Failure(InvalidPid)
      case Some((pid, _)) =>
        if pid <= 0 || pid > INT32_MAX then Failure(InvalidPid)
        else ParseFields(line[close..], pid, line[open + 1..close - 1])
  }

  // ----- the method -----

  method ParseStatLine(line: string) returns (r: Result)
    ensures r == Parsed(line)
  {
    hide ExtractSigned, ExtractUnsigned, ExtractChar;
    var open, close := First(line, '('), PastLast(line, ')');
    if open == |line| || close == 0 || close - 1 <= open || close + 1 > |line| {
      return Failure(InvalidName);
    }
    var parsedPid := ExtractSigned(line[..open]);
    if parsedPid.None? || parsedPid.value.0 <= 0 || parsedPid.value.0 > INT32_MAX {
      return Failure(InvalidPid);
    }
    var pid: nat := parsedPid.value.0;
    var name := line[open + 1..close - 1];

    var fields := line[close..];
    var state := ExtractChar(fields);
    if state.None? {
      return Failure(InvalidStateOrParent);
    }
    var parsedPpid := ExtractSigned(state.value.1);
    if parsedPpid.None? || parsedPpid.value.0 < 0 || parsedPpid.value.0 > INT32_MAX {
      return Failure(InvalidStateOrParent);
    }
    var ppid: nat := parsedPpid.value.0;
    var stat := ProcessStat(pid, name, [state.value.0], ppid, 0, 0, 0);

    fields := parsedPpid.value.1;
    ghost var expected := SkipUnsigneds(fields, 9);
    for field := 5 to 14
      invariant SkipUnsigneds(fields, 14 - field) == expected
    {
      var ignored := ExtractUnsigned(fields);
      if ignored.None? {
        return Failure(MissingFields);
      }
      fields := ignored.value.1;
    }

    r := ParseTimes(fields, stat);
  }

  /** The second half of the parser, from the cpu fields on. */
  method ParseTimes(cpu: string, stat: ProcessStat) returns (r: Result)
    ensures r == ParseCpu(cpu, stat)
  {
    hide ExtractSigned, ExtractUnsigned;
    var user := ExtractUnsigned(cpu);
    if user.None? {
      return Failure(InvalidCpuFields);
    }
    var system := ExtractUnsigned(user.value.1);
    if system.None? {
      return Failure(InvalidCpuFields);
    }
    var userTicks, systemTicks := user.value.0, system.value.0;
    if userTicks > WORD - 1 - systemTicks {
      return Failure(CpuOverflow);
    }
    var processCpuTicks := userTicks + systemTicks;
    var fields := system.value.1;
    ghost var expected := SkipSigneds(fields, 4);
    for field := 16 to 20
      invariant SkipSigneds(fields, 20 - field) == expected
    {
      var ignored := ExtractSigned(fields);
      if ignored.None? {
        return Failure(MissingSchedulerFields);
      }
      fields := ignored.value.1;
    }

    var threads := ExtractUnsigned(fields);
    if threads.None? {
      return Failure(InvalidThreadOrStart);
    }
    var timer := ExtractSigned(threads.value.1);
    if timer.None? {
      return Failure(InvalidThreadOrStart);
    }
    var start := ExtractUnsigned(timer.value.1);
    if start.None? || threads.value.0 > UINT32_MAX {
      return Failure(InvalidThreadOrStart);
    }
    return Success(stat.(cpuTicks := processCpuTicks, threadCount := threads.value.0,
                         startTimeTicks := start.value.0));
  }

  // ----- the layout the kernel prints -----

  function Fields(xs: seq<int>): (s: string) {
    if xs == [] then [] else " " + PrintInt(xs[0]) + Fields(xs[1..])
  }

  /** One line of /proc/[pid]/stat: `numbers` is whatever follows the parent, from field 5 on, and `blank` the
      white space at the end. */
  datatype StatLine = StatLine(pid: int, name: string, state: char, ppid: int, numbers: seq<int>, blank: string) {
    /** Each number fits the 64-bit type it is read into: fields 14, 15, 20 and 22 are never negative, and only
        the scheduler's and the timer's are signed. */
    ghost predicate Valid() {
      && -SIGNED_LIMIT <= pid < SIGNED_LIMIT && -SIGNED_LIMIT <= ppid < SIGNED_LIMIT
      && !Separates(state) && state != ')'
      && AllFit(numbers, 5)
      && IsBlank(blank)
    }

    function Rest(): string {
      " " + [state] + (Fields([ppid] + numbers) + blank)
    }

    function Print(): string {
      PrintInt(pid) + " (" + name + ")" + Rest()
    }
  }

  predicate Fits(field: nat, x: int) {
    if field <= 13 then -WORD < x < WORD
    else if field <= 15 || field == 20 || field == 22 then 0 <= x < WORD
    else if field <= 21 then -SIGNED_LIMIT <= x < SIGNED_LIMIT
    else true
  }

  /** The numbers from a field on. */
  predicate AllFit(xs: seq<int>, field: nat) {
    forall k :: 0 <= k < |xs| ==> Fits(k + field, xs[k])
  }
}
