/** What an accepted configuration file guarantees, and the file that yields a given configuration. */
module ConfigLaws {
  import opened Basics
  import opened Digits
  import opened Text
  import opened Config

  // ----- whatever the tests let through -----

  predicate Passes(c: AgentConfig) {
    && IsValidAddress(c.listenAddress)
    && 100 <= c.sampleIntervalMs <= 60000
    && IsAbsolute(c.logFile)
    && IsAbsolute(c.diagnosticDirectory)
    && AllValid(c.allowedServices)
  }

  lemma LineKeepsPassing(parsed: AgentConfig, raw: string, number: nat)
    requires Passes(parsed)
    ensures var r := LoadedLine(parsed, raw, number); r.Success? ==> Passes(r.config)
  {
    hide IsValidAddress, WholeNumber, AllValid, Trim, First;
  }

  lemma {:induction false} LinesKeepPassing(parsed: AgentConfig, lines: seq<string>, number: nat)
    requires Passes(parsed)
    ensures var r := LoadedLines(parsed, lines, number); r.Success? ==> Passes(r.config)
    decreases |lines|
  {
    hide LoadedLine, Passes;
    if lines != [] {
      LineKeepsPassing(parsed, lines[0], number);
      var r := LoadedLine(parsed, lines[0], number);
      if r.Success? {
        LinesKeepPassing(r.config, lines[1..], number + 1);
      }
    }
  }

  // ----- which values are accepted -----

  /** Optional white space, an optional sign and at least one digit. */
  predicate IsNumeral(blank: string, sign: string, digits: string) {
    && IsBlank(blank)
    && (sign == "" || sign == "+" || sign == "-")
    && digits != [] && AllDigits(digits, 10)
  }

  /** The number modulo 2^64. */
  function Wrapped(sign: string, magnitude: int): int {
    (if sign == "-" then -magnitude else magnitude) % WORD
  }

  /** `s` writes a number of magnitude below 2^64 that is `value` modulo 2^64. */
  ghost predicate Spells(s: string, value: nat) {
    exists blank, sign, digits :: SpelledAs(s, value, blank, sign, digits)
  }

  predicate SpelledAs(s: string, value: nat, blank: string, sign: string, digits: string) {
    && s == blank + sign + digits && IsNumeral(blank, sign, digits)
    && Value(digits, 10) < WORD && value == Wrapped(sign, Value(digits, 10))
  }

  lemma {:induction false} SkipSpaceDrops(s: string) returns (blank: string)
    ensures s == blank + SkipSpace(s) && IsBlank(blank)
  {
    blank := [];
    if s != [] && IsSpace(s[0]) {
      var rest := SkipSpaceDrops(s[1..]);
      blank := [s[0]] + rest;
    }
  }

  lemma NumeralIsRead(blank: string, sign: string, digits: string)
    requires IsNumeral(blank, sign, digits)
    ensures Number(SkipSpace(blank + sign + digits)) == Some((sign == "-", Value(digits, 10), []))
  {
    hide Value;
    var s := sign + digits;
    assert blank + sign + digits == blank + s;
    SkipBlank(blank, s);
    assert s[0] == if sign == "" then digits[0] else sign[0];
    assert SkipSpace(s) == s;
    DigitRunOfConcat(digits, [], 10);
    assert digits + [] == digits;
    assert digits[..|digits|] == digits;
    if sign == "" {
      assert s == digits && !HasSign(s);
    } else {
      assert s[1..] == digits;
    }
  }

  lemma NumeralOfNumber(s: string) returns (blank: string, sign: string, digits: string)
    requires Number(SkipSpace(s)).Some? && Number(SkipSpace(s)).value.2 == []
    ensures IsNumeral(blank, sign, digits) && s == blank + sign + digits
  {
    hide Value;
    blank := SkipSpaceDrops(s);
    var t := SkipSpace(s);
    sign := if HasSign(t) then t[..1] else "";
    digits := if HasSign(t) then t[1..] else t;
    var n := DigitRun(digits, 10);
    assert digits[n..] == [];
    assert digits[..n] == digits;
    assert t == sign + digits;
  }

  /** What `std::stoul` reads when it must consume the whole text. */
  lemma WholeNumberExactlyWhen(s: string, value: nat)
    ensures WholeNumber(s) == Some(value) <==> Spells(s, value)
  {
    hide Number, SkipSpace, IsNumeral, SpelledAs;
    if WholeNumber(s) == Some(value) {
      var blank, sign, digits := NumeralOfNumber(s);
      SpelledIsRead(s, value, blank, sign, digits);
    }
    if Spells(s, value) {
      var blank, sign, digits :| SpelledAs(s, value, blank, sign, digits);
      NumeralIsSpelled(s, value, blank, sign, digits);
      SpelledIsRead(s, value, blank, sign, digits);
    }
  }

  lemma NumeralIsSpelled(s: string, value: nat, blank: string, sign: string, digits: string)
    requires SpelledAs(s, value, blank, sign, digits)
    ensures IsNumeral(blank, sign, digits) && s == blank + sign + digits
  {
  }

  lemma WrapsOnce(sign: string, magnitude: nat)
    requires magnitude < WORD
    ensures Wrapped(sign, magnitude) == if sign == "-" then (WORD - magnitude) % WORD else magnitude
  {
  }

  lemma SpelledIsRead(s: string, value: nat, blank: string, sign: string, digits: string)
    requires IsNumeral(blank, sign, digits) && s == blank + sign + digits
    ensures WholeNumber(s) == Some(value) <==> SpelledAs(s, value, blank, sign, digits)
  {
    assert AllDigits(digits, 10);
    hide Value, Number, SkipSpace, IsNumeral, Wrapped, AllDigits;
    NumeralIsRead(blank, sign, digits);
    if Value(digits, 10) < WORD {
      WrapsOnce(sign, Value(digits, 10));
    }
  }

  /** A host, a colon, and text that spells a port. */
  ghost predicate HasHostAndPort(address: string) {
    exists host, text, port ::
      host != [] && address == host + ":" + text && ':' !in text && 1 <= port <= 65535 && Spells(text, port)
  }

  lemma AddressAcceptedExactlyWhen(address: string)
    ensures IsValidAddress(address) <==> HasHostAndPort(address)
  {
    hide WholeNumber, PastLast, Spells;
    if IsValidAddress(address) {
      var past := PastLast(address, ':');
      var host, text := address[..past - 1], address[past..];
      NothingPastLast(address, ':');
      WholeNumberExactlyWhen(text, WholeNumber(text).value);
      assert address == host + ":" + text;
    }
    if HasHostAndPort(address) {
      var host, text, port :|
        host != [] && address == host + ":" + text && ':' !in text && 1 <= port <= 65535 && Spells(text, port);
      PastLastOfConcat(host, ':', text);
      assert address[|host| + 1..] == text;
      WholeNumberExactlyWhen(text, port);
      NothingIsNoNumber();
    }
  }

  lemma NothingIsNoNumber()
    ensures WholeNumber([]) == None
  {
  }

  lemma IntervalAcceptedExactlyWhen(value: string)
    ensures IsValidInterval(value) <==> exists interval :: 100 <= interval <= 60000 && Spells(value, interval)
  {
    hide WholeNumber, Spells;
    if IsValidInterval(value) {
      WholeNumberExactlyWhen(value, WholeNumber(value).value);
    }
    if exists interval :: 100 <= interval <= 60000 && Spells(value, interval) {
      var interval :| 100 <= interval <= 60000 && Spells(value, interval);
      WholeNumberExactlyWhen(value, interval);
    }
  }

  lemma WholeDecimal(n: nat)
    requires n < WORD
    ensures WholeNumber(Decimal(n)) == Some(n)
  {
    hide Number, SkipSpace, Decimal;
    NumberOfPrinted(n, []);
    PrintedIsNoSpace(n);
    assert PrintInt(n) == Decimal(n);
    assert Decimal(n) + [] == Decimal(n);
    SpaceBefore(Decimal(n));
  }

  lemma {:induction false} FoundExactlyWhen(s: string, pattern: string, from: nat, at: int)
    requires from <= |s| < NPOS && pattern != []
    ensures FindFrom(s, pattern, from) == at <==>
      || (at == NPOS && forall i :: from <= i <= |s| ==> !OccursAt(pattern, s, i))
      || (from <= at <= |s| && OccursAt(pattern, s, at) && forall i :: from <= i < at ==> !OccursAt(pattern, s, i))
    decreases |s| - from
  {
    if !OccursAt(pattern, s, from) && from < |s| {
      FoundExactlyWhen(s, pattern, from + 1, at);
    }
  }

  /** By character code: digits, letters, and `-`, `.`, `@` and `_`. */
  predicate MayName(c: char) {
    var n := c as int;
    48 <= n <= 57 || 65 <= n <= 90 || 97 <= n <= 122 || n in {45, 46, 64, 95}
  }

  /** Names whose only `.service` is their ending, and every name of seven characters. */
  predicate EndsInServiceOrHasSeven(name: string) {
    && (forall k :: 0 <= k < |name| ==> MayName(name[k]))
    && (|| |name| == 7
        || (&& 8 <= |name| <= 128
            && name[|name| - 8..] == ".service"
            && forall i :: 0 <= i < |name| - 8 ==> !OccursAt(".service", name, i)))
  }

  lemma LongNameFound(name: string)
    requires 8 <= |name| <= 128
    ensures FindFrom(name, SUFFIX, 0) == |name| - 8 <==>
      name[|name| - 8..] == SUFFIX && forall i :: 0 <= i < |name| - 8 ==> !OccursAt(SUFFIX, name, i)
  {
    FoundExactlyWhen(name, SUFFIX, 0, |name| - 8);
    assert OccursAt(SUFFIX, name, |name| - 8) <==> name[|name| - 8..] == SUFFIX;
    hide FindFrom, OccursAt;
  }

  /** Nothing is found, and the length minus eight wraps to "nothing found" for seven characters. */
  lemma ShortNameFound(name: string)
    requires 0 < |name| < 8
    ensures FindFrom(name, SUFFIX, 0) == NPOS
    ensures (|name| - |SUFFIX|) % WORD == NPOS <==> |name| == 7
  {
    FoundExactlyWhen(name, SUFFIX, 0, NPOS);
    hide FindFrom;
  }

  /** Which service names are accepted: seven characters are, because the length is compared unsigned. */
  lemma ServiceNameAcceptedExactlyWhen(name: string)
    ensures IsValidServiceName(name) <==> EndsInServiceOrHasSeven(name)
  {
    assert forall k :: 0 <= k < |name| ==> (IsServiceCharacter(name[k]) <==> MayName(name[k]));
    hide FindFrom, OccursAt, IsServiceCharacter, MayName;
    if 8 <= |name| <= 128 {
      LongNameFound(name);
      assert (|name| - |SUFFIX|) % WORD == |name| - 8;
    } else if 0 < |name| < 8 {
      ShortNameFound(name);
    }
  }

  /** A unit name whose stem holds no dot. */
  lemma PlainServiceIsAccepted(stem: string)
    requires |stem| <= 120
    requires forall k :: 0 <= k < |stem| ==> IsServiceCharacter(stem[k]) && stem[k] != '.'
    ensures IsValidServiceName(stem + SUFFIX)
  {
    assert forall k :: 0 <= k < |SUFFIX| ==> IsServiceCharacter(SUFFIX[k]);
    hide IsValidServiceName;
    var name := stem + SUFFIX;
    ServiceNameAcceptedExactlyWhen(name);
    assert name[|name| - 8..] == SUFFIX;
    forall i | 0 <= i < |name| - 8 ensures !OccursAt(SUFFIX, name, i) {
      assert name[i] == stem[i] && name[i..i + 8][0] == name[i];
    }
  }

  lemma LocalAddressIsValid(host: string, port: nat)
    requires host != [] && 0 < port <= 65535
    ensures IsValidAddress(host + ":" + Decimal(port))
  {
    hide Decimal, WholeNumber, Spells, IsValidAddress;
    DecimalHasNo(port, ':');
    WholeDecimal(port);
    WholeNumberExactlyWhen(Decimal(port), port);
    assert HasHostAndPort(host + ":" + Decimal(port));
    AddressAcceptedExactlyWhen(host + ":" + Decimal(port));
  }

  lemma DecimalIsSome(n: nat)
    ensures Decimal(n) != [] && AllDigits(Decimal(n), 10) && Value(Decimal(n), 10) == n
  {
    ValueUndoesPrint(n, 10);
  }

  lemma DefaultsPass()
    ensures Passes(DEFAULTS)
  {
    hide IsValidAddress, IsValidServiceName, Decimal;
    FiveDigits();
    LocalAddressIsValid("127.0.0.1", 50051);
    assert "127.0.0.1" + ":" + "50051" == DEFAULTS.listenAddress;
    PlainServiceIsAccepted("ssh");
    PlainServiceIsAccepted("cron");
    assert "ssh" + SUFFIX == "ssh.service" && "cron" + SUFFIX == "cron.service";
  }

  lemma FiveDigits()
    ensures Decimal(50051) == "50051"
  {
    assert Print(5, 10) == "5";
    assert Print(50, 10) == "50";
    assert Print(500, 10) == "500";
    assert Print(5005, 10) == "5005";
  }

  /** What a configuration is good for, said without the loader's own tests. */
  ghost predicate Usable(c: AgentConfig) {
    && HasHostAndPort(c.listenAddress)
    && 100 <= c.sampleIntervalMs <= 60000
    && IsAbsolute(c.logFile)
    && IsAbsolute(c.diagnosticDirectory)
    && forall k :: 0 <= k < |c.allowedServices| ==> EndsInServiceOrHasSeven(c.allowedServices[k])
  }

  lemma UsableExactlyWhenPassing(c: AgentConfig)
    ensures Usable(c) <==> Passes(c)
  {
    hide IsValidAddress, HasHostAndPort, EndsInServiceOrHasSeven, IsValidServiceName;
    AddressAcceptedExactlyWhen(c.listenAddress);
    forall k | 0 <= k < |c.allowedServices|
      ensures IsValidServiceName(c.allowedServices[k]) <==> EndsInServiceOrHasSeven(c.allowedServices[k])
    {
      ServiceNameAcceptedExactlyWhen(c.allowedServices[k]);
    }
  }

  /** Every configuration that `Load` accepts has a sampling interval between 100 ms and 60 s, an address with
      a host and a port, absolute paths and accepted service names. */
  lemma LoadedIsUsable(file: Option<string>)
    ensures Loaded(file).Success? ==> Usable(Loaded(file).config)
  {
    hide LoadedLines, Passes, Usable;
    DefaultsPass();
    if file.Some? {
      LinesKeepPassing(DEFAULTS, Segments(file.value, '\n'), 1);
    }
    if Loaded(file).Success? {
      UsableExactlyWhenPassing(Loaded(file).config);
    }
  }

  /** The negative number `n` - 2^64 is read as `n`: as a port, and as an interval. */
  lemma NegativeNumbersAreAccepted(host: string, n: nat)
    requires host != []
    ensures 1 <= n <= 65535 ==> IsValidAddress(host + ":-" + Decimal(WORD - n))
    ensures 100 <= n <= 60000 ==>
      IsValidInterval("-" + Decimal(WORD - n)) && WholeNumber("-" + Decimal(WORD - n)) == Some(n)
  {
    hide Decimal, Value, WholeNumber, Spells;
    if 1 <= n <= 65535 {
      var magnitude: nat := WORD - n;
      var digits, text := Decimal(magnitude), "-" + Decimal(magnitude);
      NegativeIsSpelt(n);
      WholeNumberExactlyWhen(text, n);
      DecimalHasNo(magnitude, ':');
      assert host + ":-" + digits == host + ":" + text;
      assert HasHostAndPort(host + ":" + text);
      AddressAcceptedExactlyWhen(host + ":" + text);
    }
  }

  lemma NegativeIsSpelt(n: nat)
    requires 1 <= n <= 65535
    ensures Spells("-" + Decimal(WORD - n), n)
  {
    hide Decimal, Value;
    var magnitude: nat := WORD - n;
    DecimalIsSome(magnitude);
    var digits := Decimal(magnitude);
    assert "-" + digits == "" + "-" + digits;
    assert SpelledAs("-" + digits, n, "", "-", digits);
  }

  // ----- writing a configuration down -----

  function Line(key: string, value: string): string {
    key + "=" + value
  }

  function Joined(services: seq<string>): (s: string) {
    if services == [] then [] else if |services| == 1 then services[0] else services[0] + "," + Joined(services[1..])
  }

  function PrintedConfig(c: AgentConfig): string {
    Line("listen_address", c.listenAddress) + "\n"
    + Line("sample_interval_ms", Decimal(c.sampleIntervalMs)) + "\n"
    + Line("log_file", c.logFile) + "\n"
    + Line("diagnostic_directory", c.diagnosticDirectory) + "\n"
    + Line("allowed_services", Joined(c.allowedServices)) + "\n"
  }

  /** A value that survives on one line: no white space around it, no line break inside. */
  predicate Inline(value: string) {
    Trim(value) == value && '\n' !in value
  }

  lemma NotSpaced(s: string)
    requires s != [] ==> !IsSpace(s[0]) && !IsSpace(s[|s| - 1])
    ensures Trim(s) == s
  {
  }

  lemma SpacesAround(s: string)
    requires Trim(s) == s && s != []
    ensures !IsSpace(s[0]) && !IsSpace(s[|s| - 1])
  {
    SkipSpaceShortens(s);
  }

  lemma {:induction false} TrimRightShortens(s: string)
    ensures |TrimRight(s)| <= |s|
  {
    if s != [] {
      TrimRightShortens(s[..|s| - 1]);
    }
  }

  lemma SkipSpaceShortens(s: string)
    requires s != [] && Trim(s) == s
    ensures !IsSpace(s[0])
  {
    TrimRightShortens(SkipSpace(s));
  }

  /** A key is a non-empty word of lower-case letters and underscores. */
  predicate IsKey(key: string) {
    key != [] && forall k :: 0 <= k < |key| ==> 'a' <= key[k] <= 'z' || key[k] == '_'
  }

  lemma LineIsAssigned(parsed: AgentConfig, key: string, value: string, number: nat)
    requires IsKey(key) && Inline(value)
    ensures LoadedLine(parsed, Line(key, value), number) == Assigned(parsed, key, value, number)
    ensures '\n' !in Line(key, value)
  {
    hide First, Assigned, Trim;
    var line := Line(key, value);
    if value != [] {
      SpacesAround(value);
    }
    assert line[0] == key[0] && line[|line| - 1] == if value == [] then '=' else value[|value| - 1];
    NotSpaced(line);
    NotSpaced(key);
    assert line[..|key|] == key;
    FirstIs(line, '=', |key|);
    assert line[|key| + 1..] == value;
  }

  lemma SegmentsOfLine(line: string, separator: char, rest: string)
    requires separator !in line
    ensures Segments(line + [separator] + rest, separator) == [line] + Segments(rest, separator)
  {
    var s := line + [separator] + rest;
    assert s[..|line|] == line;
    FirstIs(s, separator, |line|);
    assert s[|line| + 1..] == rest;
  }

  lemma SegmentsOfLast(line: string, separator: char)
    requires separator !in line && line != []
    ensures Segments(line, separator) == [line]
  {
    assert line[..|line|] == line;
    FirstIs(line, separator, |line|);
  }

  predicate IsService(name: string) {
    name != [] && forall k :: 0 <= k < |name| ==> IsServiceCharacter(name[k])
  }

  lemma {:induction false} JoinedIsSplit(services: seq<string>)
    requires forall k :: 0 <= k < |services| ==> IsService(services[k])
    ensures TrimmedNonEmpty(Segments(Joined(services), ',')) == services
    ensures Inline(Joined(services))
    ensures services != [] ==> Joined(services) != [] && !IsSpace(Joined(services)[0])
    decreases |services|
  {
    hide Trim, Segments;
    if services == [] {
      NothingToSplit();
    } else {
      var first, rest := services[0], services[1..];
      assert IsService(first);
      NotSpaced(first);
      if rest == [] {
        SegmentsOfLast(first, ',');
        assert [first][1..] == [];
        assert services == [first];
      } else {
        assert forall k :: 0 <= k < |rest| ==> rest[k] == services[k + 1];
        JoinedIsSplit(rest);
        var others := Joined(rest);
        SpacesAround(others);
        var all := first + "," + others;
        assert Joined(services) == all == first + [','] + others;
        SegmentsOfLine(first, ',', others);
        assert ([first] + Segments(others, ','))[1..] == Segments(others, ',');
        assert services == [first] + rest;
        assert all[|all| - 1] == others[|others| - 1];
        NotSpaced(all);
      }
    }
  }

  lemma NothingToSplit()
    ensures Segments([], ',') == [] && Trim([]) == []
  {
  }

  lemma ServicesAreInline(services: seq<string>)
    requires AllValid(services)
    ensures forall k :: 0 <= k < |services| ==> IsService(services[k])
  {
  }

  /** One more line of the file, loaded. */
  lemma LoadStep(parsed: AgentConfig, key: string, value: string, rest: string, number: nat)
    requires IsKey(key) && Inline(value)
    ensures LoadedLines(parsed, Segments(Line(key, value) + "\n" + rest, '\n'), number) ==
      match Assigned(parsed, key, value, number) {
        case Failure(error) => Failure(error)
        case Success(next) => LoadedLines(next, Segments(rest, '\n'), number + 1)
      }
  {
    hide Assigned, LoadedLine, Line, Segments;
    LineIsAssigned(parsed, key, value, number);
    SegmentsOfLine(Line(key, value), '\n', rest);
    var others := Segments(rest, '\n');
    assert ([Line(key, value)] + others)[1..] == others;
  }

  lemma IntervalIsInline(n: nat)
    requires n < WORD
    ensures Inline(Decimal(n)) && WholeNumber(Decimal(n)) == Some(n)
  {
    WholeDecimal(n);
    ValueUndoesPrint(n, 10);
    DecimalHasNo(n, '\n');
    NotSpaced(Decimal(n));
  }

  lemma KeysAreKeys()
    ensures IsKey("listen_address") && IsKey("sample_interval_ms") && IsKey("log_file")
    ensures IsKey("diagnostic_directory") && IsKey("allowed_services")
  {
  }

  /** Every usable configuration whose values fit on a line can be written down, and loads back unchanged. */
  lemma LoadUndoesPrint(c: AgentConfig)
    requires Usable(c)
    requires Inline(c.listenAddress) && Inline(c.logFile) && Inline(c.diagnosticDirectory)
    ensures Loaded(Some(PrintedConfig(c))) == Success(c)
  {
    hide Segments, LoadedLine, LoadedLines, Line, Decimal, Joined, Inline, IsKey, IsValidAddress, WholeNumber,
      TrimmedNonEmpty, AllValid, Usable;
    UsableExactlyWhenPassing(c);
    KeysAreKeys();
    ServicesAreInline(c.allowedServices);
    JoinedIsSplit(c.allowedServices);
    IntervalIsInline(c.sampleIntervalMs);
    var r5 := Line("allowed_services", Joined(c.allowedServices)) + "\n" + "";
    var r4 := Line("diagnostic_directory", c.diagnosticDirectory) + "\n" + r5;
    var r3 := Line("log_file", c.logFile) + "\n" + r4;
    var r2 := Line("sample_interval_ms", Decimal(c.sampleIntervalMs)) + "\n" + r3;
    assert PrintedConfig(c) == Line("listen_address", c.listenAddress) + "\n" + r2;
    var p1 := DEFAULTS.(listenAddress := c.listenAddress);
    var p2 := p1.(sampleIntervalMs := c.sampleIntervalMs);
    var p3 := p2.(logFile := c.logFile);
    var p4 := p3.(diagnosticDirectory := c.diagnosticDirectory);
    LoadStep(DEFAULTS, "listen_address", c.listenAddress, r2, 1);
    LoadStep(p1, "sample_interval_ms", Decimal(c.sampleIntervalMs), r3, 2);
    LoadStep(p2, "log_file", c.logFile, r4, 3);
    LoadStep(p3, "diagnostic_directory", c.diagnosticDirectory, r5, 4);
    LoadStep(p4, "allowed_services", Joined(c.allowedServices), "", 5);
    NoLines(c);
  }

  lemma NoLines(c: AgentConfig)
    ensures LoadedLines(c, Segments("", '\n'), 6) == Success(c)
  {
  }
}
