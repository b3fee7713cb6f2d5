/** `AgentConfigLoader`: the agent's configuration file. */
module Config {
  import opened Basics
  import opened Digits
  import opened Text

  datatype AgentConfig = AgentConfig(
    listenAddress: string, sampleIntervalMs: nat, logFile: string, diagnosticDirectory: string,
    allowedServices: seq<string>)

  const DEFAULTS := AgentConfig(
    "127.0.0.1:50051", 1000, "/tmp/edgescope-agent.log", "/tmp/edgescope-diagnostics",
    ["ssh.service", "cron.service"])

  datatype ConfigError =
    | CannotOpen
    | InvalidLine(number: nat)
    | InvalidListenAddress(number: nat)
    | InvalidSampleInterval
    | InvalidLogFile
    | InvalidDirectory
    | InvalidServiceName
    | UnknownKey(number: nat, key: string)

  datatype Result = Success(config: AgentConfig) | Failure(error: ConfigError)

  // ----- text -----

  function TrimRight(s: string): (r: string)
    ensures r != [] ==> !IsSpace(r[|r| - 1])
  {
    if s != [] && IsSpace(s[|s| - 1]) then TrimRight(s[..|s| - 1]) else s
  }

  function Trim(s: string): string {
    TrimRight(SkipSpace(s))
  }

  /** `std::string::npos` */
  const NPOS: int := WORD - 1

  /** `std::string::find`, from index `from` on. */
  function FindFrom(s: string, pattern: string, from: nat): (i: int)
    requires from <= |s|
    ensures i == NPOS || from <= i
    decreases |s| - from
  {
    if OccursAt(pattern, s, from) then from
    else if from == |s| then NPOS
    else FindFrom(s, pattern, from + 1)
  }

  // ----- validators -----

  /** `std::stoul` consuming the whole text. */
  function WholeNumber(s: string): (r: Option<nat>) {
    match ExtractUnsigned(s)
    case None => None
    case Some((value, rest)) => if rest == [] then Some(value) else None
  }

  predicate IsValidAddress(address: string) {
    var past := PastLast(address, ':');
    && past > 1 && past < |address|
    && WholeNumber(address[past..]).Some?
    && 0 < WholeNumber(address[past..]).value <= 65535
  }

  const SUFFIX := ".service"

  predicate IsServiceCharacter(c: char) {
    || '0' <= c <= '9' || 'A' <= c <= 'Z' || 'a' <= c <= 'z'
    || c == '-' || c == '_' || c == '.' || c == '@'
  }

  /** The length is unsigned: below eight characters the subtraction wraps. */
  predicate IsValidServiceName(name: string) {
    && name != [] && |name| <= 128
    && FindFrom(name, SUFFIX, 0) == (|name| - |SUFFIX|) % WORD
    && forall k :: 0 <= k < |name| ==> IsServiceCharacter(name[k])
  }

  predicate IsAbsolute(path: string) {
    path != [] && path[0] == '/'
  }

  predicate IsValidInterval(value: string) {
    WholeNumber(value).Some? && 100 <= WholeNumber(value).value <= 60000
  }

  function TrimmedNonEmpty(segments: seq<string>): (r: seq<string>) {
    if segments == [] then []
    else (if Trim(segments[0]) == [] then [] else [Trim(segments[0])]) + TrimmedNonEmpty(segments[1..])
  }

  method SplitServices(value: string) returns (services: seq<string>)
    ensures services == TrimmedNonEmpty(Segments(value, ','))
  {
    hide Trim;
    services := [];
    var stream := Segments(value, ',');
    ghost var all := TrimmedNonEmpty(stream);
    while stream != []
      invariant all == services + TrimmedNonEmpty(stream)
      decreases |stream|
    {
      var service := Trim(stream[0]);
      ghost var rest := TrimmedNonEmpty(stream[1..]);
      assert services + [] + rest == services + ([] + rest);
      assert services + [service] + rest == services + ([service] + rest);
      if service != [] {
        services := services + [service];
      }
      stream := stream[1..];
    }
  }

  predicate AllValid(services: seq<string>) {
    forall k :: 0 <= k < |services| ==> IsValidServiceName(services[k])
  }

  // ----- one line -----

  function Assigned(parsed: AgentConfig, key: string, value: string, number: nat): (r: Result) {
    if key == "listen_address" then
      if IsValidAddress(value) then Success(parsed.(listenAddress := value)) else Failure(InvalidListenAddress(number))
    else if key == "sample_interval_ms" then
      if IsValidInterval(value) then Success(parsed.(sampleIntervalMs := WholeNumber(value).value))
      else Failure(InvalidSampleInterval)
    else if key == "log_file" then
      if IsAbsolute(value) then Success(parsed.(logFile := value)) else Failure(InvalidLogFile)
    else if key == "diagnostic_directory" then
      if IsAbsolute(value) then Success(parsed.(diagnosticDirectory := value)) else Failure(InvalidDirectory)
    else if key == "allowed_services" then
      var services := TrimmedNonEmpty(Segments(value, ','));
      if AllValid(services) then Success(parsed.(allowedServices := services)) else Failure(InvalidServiceName)
    else Failure(UnknownKey(number, key))
  }

  function LoadedLine(parsed: AgentConfig, raw: string, number: nat): (r: Result) {
    var line := Trim(raw);
    if line == [] || line[0] == '#' then Success(parsed)
    else
      var separator := First(line, '=');
      if separator == |line| then Failure(InvalidLine(number))
      else Assigned(parsed, Trim(line[..separator]), Trim(line[separator + 1..]), number)
  }

  function LoadedLines(parsed: AgentConfig, lines: seq<string>, number: nat): (r: Result)
    decreases |lines|
  {
    if lines == [] then Success(parsed)
    else match LoadedLine(parsed, lines[0], number)
      case Failure(error) => Failure(error)
      case Success(next) => LoadedLines(next, lines[1..], number + 1)
  }

  function Loaded(file: Option<string>): (r: Result) {
    match file
    case None => Failure(CannotOpen)
    case Some(contents) => LoadedLines(DEFAULTS, Segments(contents, '\n'), 1)
  }

  method Load(file: Option<string>) returns (r: Result)
    ensures r == Loaded(file)
  {
    hide Trim, Segments, IsValidAddress, WholeNumber, TrimmedNonEmpty, AllValid, First;
    if file.None? {
      return Failure(CannotOpen);
    }
    var parsed := DEFAULTS;
    var lineNumber := 0;
    var lines := Segments(file.value, '\n');
    while lines != []
      invariant Loaded(file) == LoadedLines(parsed, lines, lineNumber + 1)
      decreases |lines|
    {
      lineNumber := lineNumber + 1;
      var line := Trim(lines[0]);
      lines := lines[1..];
      if line == [] || line[0] == '#' {
        continue;
      }
      var separator := First(line, '=');
      if separator == |line| {
        return Failure(InvalidLine(lineNumber));
      }
      var key, value := Trim(line[..separator]), Trim(line[separator + 1..]);
      if key == "listen_address" {
        if !IsValidAddress(value) {
          return Failure(InvalidListenAddress(lineNumber));
        }
        parsed := parsed.(listenAddress := value);
      } else if key == "sample_interval_ms" {
        var interval := WholeNumber(value);
        if interval.None? || interval.value < 100 || interval.value > 60000 {
          return Failure(InvalidSampleInterval);
        }
        parsed := parsed.(sampleIntervalMs := interval.value);
      } else if key == "log_file" {
        if value == [] || value[0] != '/' {
          return Failure(InvalidLogFile);
        }
        parsed := parsed.(logFile := value);
      } else if key == "diagnostic_directory" {
        if value == [] || value[0] != '/' {
          return Failure(InvalidDirectory);
        }
        parsed := parsed.(diagnosticDirectory := value);
      } else if key == "allowed_services" {
        var services := SplitServices(value);
        if !AllValid(services) {
          return Failure(InvalidServiceName);
        }
        parsed := parsed.(allowedServices := services);
      } else {
        return Failure(UnknownKey(lineNumber, key));
      }
    }
    return Success(parsed);
  }
}
