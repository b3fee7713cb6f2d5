/** Parsing undoes printing for every process the kernel can describe. */
module ProcStatLaws {
  import opened Basics
  import opened Digits
  import opened Text
  import opened ProcStat

  // ----- one number after another -----

  lemma FieldsStep(xs: seq<int>, rest: string)
    requires xs != []
    ensures Fields(xs) + rest == " " + PrintInt(xs[0]) + (Fields(xs[1..]) + rest)
  {
    hide PrintInt;
  }

  lemma FieldsEndNumber(xs: seq<int>, blank: string)
    requires IsBlank(blank)
    ensures EndsNumber(Fields(xs) + blank)
  {
    hide PrintInt;
    if xs == [] {
      assert Fields(xs) + blank == blank;
      assert blank != [] ==> Separates(blank[0]);
    }
  }

  lemma NoFields(blank: string)
    requires IsBlank(blank)
    ensures Fields([]) + blank == blank
    ensures ExtractUnsigned(blank) == None && ExtractSigned(blank) == None
  {
    SkipBlank(blank, "");
    assert blank + "" == blank;
    assert Number("") == None;
  }

  /** Extraction takes the next number, or fails when there is none. */
  lemma UnsignedIsNext(xs: seq<int>, blank: string)
    requires IsBlank(blank) && (xs != [] ==> -WORD < xs[0] < WORD)
    ensures ExtractUnsigned(Fields(xs) + blank) ==
      if xs == [] then None
      else Some((if xs[0] < 0 then xs[0] + WORD else xs[0], Fields(xs[1..]) + blank))
  {
    hide ExtractUnsigned, PrintInt, EndsNumber, Fields;
    if xs == [] {
      NoFields(blank);
    } else {
      FieldsStep(xs, blank);
      FieldsEndNumber(xs[1..], blank);
      UnsignedOfPrinted(xs[0], Fields(xs[1..]) + blank);
    }
  }

  lemma SignedIsNext(xs: seq<int>, blank: string)
    requires IsBlank(blank) && (xs != [] ==> -SIGNED_LIMIT <= xs[0] < SIGNED_LIMIT)
    ensures ExtractSigned(Fields(xs) + blank) ==
      if xs == [] then None else Some((xs[0], Fields(xs[1..]) + blank))
  {
    hide ExtractSigned, PrintInt, EndsNumber, Fields;
    if xs == [] {
      NoFields(blank);
    } else {
      FieldsStep(xs, blank);
      FieldsEndNumber(xs[1..], blank);
      SignedOfPrinted(xs[0], Fields(xs[1..]) + blank);
    }
  }

  lemma {:induction false} UnsignedsAreSkipped(xs: seq<int>, n: nat, blank: string)
    requires IsBlank(blank) && forall k :: 0 <= k < |xs| && k < n ==> -WORD < xs[k] < WORD
    ensures SkipUnsigneds(Fields(xs) + blank, n) == if |xs| < n then None else Some(Fields(xs[n..]) + blank)
    decreases n
  {
    hide ExtractUnsigned, Fields, IsBlank;
    if n == 0 {
      assert xs[0..] == xs;
    } else {
      UnsignedIsNext(xs, blank);
      if xs != [] {
        UnsignedsAreSkipped(xs[1..], n - 1, blank);
      }
    }
  }

  lemma {:induction false} SignedsAreSkipped(xs: seq<int>, n: nat, blank: string)
    requires IsBlank(blank) && forall k :: 0 <= k < |xs| && k < n ==> -SIGNED_LIMIT <= xs[k] < SIGNED_LIMIT
    ensures SkipSigneds(Fields(xs) + blank, n) == if |xs| < n then None else Some(Fields(xs[n..]) + blank)
    decreases n
  {
    hide ExtractSigned, Fields, IsBlank;
    if n == 0 {
      assert xs[0..] == xs;
    } else {
      SignedIsNext(xs, blank);
      if xs != [] {
        SignedsAreSkipped(xs[1..], n - 1, blank);
      }
    }
  }

  lemma FitsAt(xs: seq<int>, field: nat, k: nat)
    requires AllFit(xs, field) && k < |xs|
    ensures var f, x := k + field, xs[k];
      && (f <= 13 ==> -WORD < x < WORD)
      && (f == 14 || f == 15 || f == 20 || f == 22 ==> 0 <= x < WORD)
      && (16 <= f <= 19 || f == 21 ==> -SIGNED_LIMIT <= x < SIGNED_LIMIT)
  {
    assert Fits(k + field, xs[k]);
  }

  lemma RestFits(xs: seq<int>, field: nat, n: nat)
    requires AllFit(xs, field) && n <= |xs|
    ensures AllFit(xs[n..], field + n)
  {
    hide Fits;
    forall k | 0 <= k < |xs| - n ensures Fits(k + (field + n), xs[n..][k]) {
      var j: nat := k + n;
      assert Fits(j + field, xs[j]);
    }
  }

  // ----- from the thread count on -----

  function ThreadsOf(xs: seq<int>, stat: ProcessStat): (r: Result)
    requires AllFit(xs, 20)
  {
    if |xs| < 3 then Failure(InvalidThreadOrStart)
    else
      FitsAt(xs, 20, 0);
      FitsAt(xs, 20, 2);
      if xs[0] > 0xFFFF_FFFF then Failure(InvalidThreadOrStart)
      else Success(stat.(threadCount := xs[0], startTimeTicks := xs[2]))
  }

  lemma ThreadsAreRead(xs: seq<int>, blank: string, stat: ProcessStat)
    requires IsBlank(blank) && AllFit(xs, 20)
    ensures ParseThreads(Fields(xs) + blank, stat) == ThreadsOf(xs, stat)
  {
    hide ExtractUnsigned, ExtractSigned, Fields, IsBlank, AllFit;
    if |xs| > 0 {
      FitsAt(xs, 20, 0);
      if |xs| > 1 {
        FitsAt(xs, 20, 1);
        if |xs| > 2 {
          FitsAt(xs, 20, 2);
        }
        assert xs[1..][1..] == xs[2..];
        UnsignedIsNext(xs[2..], blank);
      }
      SignedIsNext(xs[1..], blank);
    }
    UnsignedIsNext(xs, blank);
  }

  // ----- from the times on -----

  lemma SchedulerIsSkipped(xs: seq<int>, blank: string)
    requires IsBlank(blank) && AllFit(xs, 16)
    ensures SkipSigneds(Fields(xs) + blank, 4) == if |xs| < 4 then None else Some(Fields(xs[4..]) + blank)
  {
    hide AllFit, SkipSigneds, Fields;
    forall k | 0 <= k < |xs| && k < 4 ensures -SIGNED_LIMIT <= xs[k] < SIGNED_LIMIT {
      FitsAt(xs, 16, k);
    }
    SignedsAreSkipped(xs, 4, blank);
  }

  function TimesOf(xs: seq<int>, stat: ProcessStat): (r: Result)
    requires AllFit(xs, 14)
  {
    if |xs| < 2 then Failure(InvalidCpuFields)
    else
      FitsAt(xs, 14, 0);
      FitsAt(xs, 14, 1);
      if xs[0] + xs[1] >= 0x1_0000_0000_0000_0000 then Failure(CpuOverflow)
      else if |xs| < 6 then Failure(MissingSchedulerFields)
      else
        RestFits(xs, 14, 6);
        ThreadsOf(xs[6..], stat.(cpuTicks := xs[0] + xs[1]))
  }

  lemma TimesAreRead(xs: seq<int>, blank: string, stat: ProcessStat)
    requires IsBlank(blank) && AllFit(xs, 14)
    ensures ParseCpu(Fields(xs) + blank, stat) == TimesOf(xs, stat)
  {
    hide ExtractUnsigned, SkipSigneds, ParseThreads, Fields, IsBlank, AllFit, ThreadsOf;
    if |xs| > 0 {
      FitsAt(xs, 14, 0);
      if |xs| > 1 {
        FitsAt(xs, 14, 1);
      }
      UnsignedIsNext(xs[1..], blank);
    }
    UnsignedIsNext(xs, blank);
    if |xs| >= 2 {
      assert xs[1..][1..] == xs[2..];
      RestFits(xs, 14, 2);
      SchedulerIsSkipped(xs[2..], blank);
      if |xs| >= 6 {
        assert xs[2..][4..] == xs[6..];
        RestFits(xs, 14, 6);
        ThreadsAreRead(xs[6..], blank, stat.(cpuTicks := xs[0] + xs[1]));
      }
    }
  }

  // ----- from the state on -----

  lemma StateIsRead(state: char, rest: string)
    requires !Separates(state)
    ensures ExtractChar(" " + [state] + rest) == Some((state, rest))
  {
    SpaceSeparates(state);
    var s := " " + [state] + rest;
    assert s[1..] == [state] + rest;
    assert SkipSpace([state] + rest) == [state] + rest;
    assert ([state] + rest)[1..] == rest;
  }

  /** What each line of the layout is parsed into, or why it is refused. */
  function Expected(s: StatLine): (r: Result)
    requires s.Valid()
  {
    var n := s.numbers;
    if s.pid <= 0 || s.pid > 0x7FFF_FFFF then Failure(InvalidPid)
    else if s.ppid < 0 || s.ppid > 0x7FFF_FFFF then Failure(InvalidStateOrParent)
    else if |n| < 9 then Failure(MissingFields)
    else
      RestFits(n, 5, 9);
      TimesOf(n[9..], ProcessStat(s.pid, s.name, [s.state], s.ppid, 0, 0, 0))
  }

  lemma FieldsAreRead(s: StatLine, pid: nat)
    requires s.Valid() && s.pid == pid && 1 <= pid <= 0x7FFF_FFFF
    ensures ParseFields(s.Rest(), pid, s.name) == Expected(s)
  {
    hide ExtractSigned, ExtractChar, Fields, SkipUnsigneds, ParseCpu, IsBlank, AllFit, TimesOf;
    var n, all := s.numbers, [s.ppid] + s.numbers;
    StateIsRead(s.state, Fields(all) + s.blank);
    SignedIsNext(all, s.blank);
    assert all[1..] == n;
    forall k | 0 <= k < |n| && k < 9 ensures -WORD < n[k] < WORD {
      FitsAt(n, 5, k);
    }
    UnsignedsAreSkipped(n, 9, s.blank);
    if |n| >= 9 && 0 <= s.ppid <= 0x7FFF_FFFF {
      RestFits(n, 5, 9);
      TimesAreRead(n[9..], s.blank, ProcessStat(pid, s.name, [s.state], s.ppid, 0, 0, 0));
    }
  }

  // ----- where the name ends -----

  lemma {:induction false} FieldsHaveNoParenthesis(xs: seq<int>)
    ensures '(' !in Fields(xs) && ')' !in Fields(xs)
  {
    if xs != [] {
      DecimalHasNo(if xs[0] < 0 then -xs[0] else xs[0], '(');
      DecimalHasNo(if xs[0] < 0 then -xs[0] else xs[0], ')');
      hide Decimal;
      FieldsHaveNoParenthesis(xs[1..]);
    }
  }

  lemma RestHasNoParenthesis(s: StatLine)
    requires s.Valid()
    ensures ')' !in s.Rest() && s.Rest() != []
  {
    hide Fields;
    FieldsHaveNoParenthesis([s.ppid] + s.numbers);
    BlankHasNo(s.blank);
  }

  lemma BlankHasNo(blank: string)
    requires IsBlank(blank)
    ensures ')' !in blank
  {
  }

  lemma NameIsFound(front: string, name: string, rest: string)
    requires '(' !in front && ')' !in rest
    ensures var line := front + "(" + name + ")" + rest;
      var open, close := First(line, '('), PastLast(line, ')');
      && open == |front|
      && close == open + |name| + 2
      && line[..open] == front
      && line[open + 1..close - 1] == name
      && line[close..] == rest
  {
    hide First, PastLast;
    var line := front + "(" + name + ")" + rest;
    assert line[..|front|] == front;
    FirstIs(line, '(', |front|);
    assert line == (front + "(" + name) + [')'] + rest;
    PastLastOfConcat(front + "(" + name, ')', rest);
  }

  lemma PrintedHasNoParenthesis(x: int)
    ensures '(' !in PrintInt(x) + " "
  {
    DecimalHasNo(if x < 0 then -x else x, '(');
    hide Decimal;
  }

  /** Every line of the layout is decided, whatever spaces and parentheses the process name holds, whatever the
      signs, and wherever the line ends: it is read back, or refused for the first field that is wrong. */
  lemma ParseUndoesPrint(s: StatLine)
    requires s.Valid()
    ensures var n := s.numbers;
      var r := Parsed(s.Print());
      if !(1 <= s.pid <= 0x7FFF_FFFF) then r == Failure(InvalidPid)
      else if !(0 <= s.ppid <= 0x7FFF_FFFF) then r == Failure(InvalidStateOrParent)
      else if |n| < 9 then r == Failure(MissingFields)
      else if |n| < 11 then r == Failure(InvalidCpuFields)
      else if n[9] + n[10] >= 0x1_0000_0000_0000_0000 then r == Failure(CpuOverflow)
      else if |n| < 15 then r == Failure(MissingSchedulerFields)
      else if |n| < 18 || n[15] > 0xFFFF_FFFF then r == Failure(InvalidThreadOrStart)
      else
        && r.Success?
        && r.stat.pid == s.pid && r.stat.name == s.name && r.stat.state == [s.state] && r.stat.ppid == s.ppid
        && r.stat.cpuTicks == n[9] + n[10] && r.stat.threadCount == n[15] && r.stat.startTimeTicks == n[17]
  {
    hide Parsed, StatLine.Print, AllFit;
    ParsedIsExpected(s);
    var n := s.numbers;
    if |n| >= 9 {
      RestFits(n, 5, 9);
      if |n| >= 15 {
        RestFits(n[9..], 14, 6);
        assert n[9..][6..] == n[15..];
      }
    }
  }

  lemma ParsedIsExpected(s: StatLine)
    requires s.Valid()
    ensures Parsed(s.Print()) == Expected(s)
  {
    hide ParseFields, ExtractSigned, PrintInt, First, PastLast, StatLine.Rest, AllFit, TimesOf;
    var front := PrintInt(s.pid) + " ";
    assert s.Print() == front + "(" + s.name + ")" + s.Rest() by {
      assert " (" == " " + "(";
    }
    RestHasNoParenthesis(s);
    PrintedHasNoParenthesis(s.pid);
    NameIsFound(front, s.name, s.Rest());
    SignedOfPrinted(s.pid, " ");
    if 1 <= s.pid <= 0x7FFF_FFFF {
      FieldsAreRead(s, s.pid);
    }
  }

  ghost predicate HasName(line: string) {
    exists front, name, rest :: line == front + "(" + name + ")" + rest && '(' !in front && ')' !in rest && rest != ""
  }

  /** A name is missed exactly when no text in parentheses is followed by anything. */
  lemma NameMissedExactlyWhen(line: string)
    ensures Parsed(line) == Failure(InvalidName) <==> !HasName(line)
  {
    hide Parsed;
    if HasName(line) {
      var front, name, rest :|
        line == front + "(" + name + ")" + rest && '(' !in front && ')' !in rest && rest != "";
      NameIsSeen(front, name, rest);
    } else {
      NoNameIsSeen(line);
    }
  }

  lemma NameIsSeen(front: string, name: string, rest: string)
    requires '(' !in front && ')' !in rest && rest != ""
    ensures Parsed(front + "(" + name + ")" + rest) != Failure(InvalidName)
  {
    hide ParseFields, ExtractSigned, First, PastLast;
    NameIsFound(front, name, rest);
    FieldsNameNoName(rest, name);
  }

  lemma NoNameIsSeen(line: string)
    requires !HasName(line)
    ensures Parsed(line) == Failure(InvalidName)
  {
    hide ParseFields, ExtractSigned, First, PastLast;
    var open, close := First(line, '('), PastLast(line, ')');
    if open < |line| && close > 0 && close - 1 > open && close < |line| {
      FirstIs(line, '(', open);
      NothingPastLast(line, ')');
      PiecesOfLine(line, open, close - 1);
    }
  }

  lemma PiecesOfLine(line: string, open: nat, close: nat)
    requires open < close < |line| && line[open] == '(' && line[close] == ')'
    ensures line == line[..open] + "(" + line[open + 1..close] + ")" + line[close + 1..]
  {
    assert line[..close] == line[..open] + "(" + line[open + 1..close];
  }

  lemma FieldsNameNoName(fields: string, name: string)
    ensures forall pid: nat :: ParseFields(fields, pid, name) != Failure(InvalidName)
  {
    hide ExtractSigned, ExtractChar, ExtractUnsigned, SkipUnsigneds, SkipSigneds;
  }
}
