/** Over-long lines that arrive across a poll boundary: exactly when the boundary can be told from the message. */
module LogBoundaryLaws {
  import opened Basics
  import opened Lines
  import opened LogFollow
  import opened LogFollowLaws
  import opened Utf8
  import opened Utf8Laws
  import opened WindowLaws
  import LogTail

  // ----- what an over-long line is shown by -----

  /** The earliest boundary across which the line can arrive: the rest of it comes in one chunk. */
  function Earliest(line: seq<byte>): (k: nat)
    ensures k <= |line|
    ensures forall j: nat :: Reachable(line, j) <==> k <= j <= |line|
  {
    if |line| < STREAM_READ_SIZE then 0 else |line| - STREAM_READ_SIZE + 1
  }

  /** The part of the line that some boundary can bring into view. */
  function InReach(line: seq<byte>): (r: seq<byte>) {
    if Earliest(line) > MAXIMUM_LINE then line[Earliest(line) - MAXIMUM_LINE..] else line
  }

  predicate EndsInReturn(line: seq<byte>) {
    line != [] && line[|line| - 1] == CARRIAGE_RETURN
  }

  /** What is shown of a line that arrives across a boundary after `k` bytes, before it is sanitised. */
  function Part(line: seq<byte>, k: nat): (r: seq<byte>)
    requires k <= |line|
  {
    LogTail.Cut(LogTail.Strip(Arrived(line, k)))
  }

  lemma PartIs(line: seq<byte>, k: nat)
    requires k <= |line| && |line| > MAXIMUM_LINE
    ensures k <= MAXIMUM_LINE ==> Part(line, k) == Window(line, MAXIMUM_LINE)
    ensures MAXIMUM_LINE <= k < |line| || (k == |line| && !EndsInReturn(line)) ==> Part(line, k) == Window(line, k)
    ensures k == |line| && EndsInReturn(line) ==> Part(line, k) == Window(line, k - 1)[1..]
  {
    var arrived := Arrived(line, k);
    var kept := LogTail.Strip(arrived);
    assert arrived != [] && arrived[|arrived| - 1] == line[|line| - 1];
    assert kept == arrived[..|kept|];
  }

  /** Every boundary that a line can arrive across gives the same message, or none gives one. */
  ghost predicate BoundaryIndependent(line: seq<byte>, keyword: seq<byte>) {
    forall k :: Reachable(line, k) ==> Shown(Arrived(line, k), keyword) == Shown(Arrived(line, |line|), keyword)
  }

  lemma ShownIsPart(line: seq<byte>, k: nat, keyword: seq<byte>)
    requires k <= |line|
    ensures Shown(Arrived(line, k), keyword) ==
      if LogTail.Matches(Part(line, k), keyword) then [Sanitized(Part(line, k))] else []
  {
    hide Arrived, Sanitized, LogTail.Matches;
  }

  ghost predicate AlikeParts(line: seq<byte>) {
    forall k :: Reachable(line, k) ==> Sanitized(Part(line, k)) == Sanitized(Part(line, |line|))
  }

  /** An over-long line is longer than its first window in reach. */
  lemma ReachIsWide(line: seq<byte>)
    requires |line| > MAXIMUM_LINE
    ensures var from := |line| - |InReach(line)|;
      && 0 <= from < |line| - MAXIMUM_LINE
      && InReach(line) == line[from..]
      && (from > 0 ==> from + 65535 == |line| - MAXIMUM_LINE)
      && (forall k: nat :: from + MAXIMUM_LINE <= k <= |line| ==> Reachable(line, k))
  {
    assert line[0..] == line;
  }

  lemma NoReturnFollows(line: seq<byte>)
    requires |line| > MAXIMUM_LINE && AlikeParts(line)
    ensures !EndsInReturn(line)
  {
    hide Sanitized, Part, Arrived;
    var last: nat := |line| - 1;
    if EndsInReturn(line) {
      PartIs(line, last);
      PartIs(line, |line|);
      assert Reachable(line, last);
      FirstByteShows(Window(line, last));
    }
  }

  lemma AlikeInReach(line: seq<byte>, p: nat)
    requires |line| > MAXIMUM_LINE && |line| - |InReach(line)| <= p < |line| - MAXIMUM_LINE
    requires AlikeParts(line) && !EndsInReturn(line)
    ensures AlikeWindows(line[p..])
    ensures Sanitized(Window(line, p + MAXIMUM_LINE)) == Sanitized(Part(line, |line|))
  {
    hide Sanitized, Part, Window, Arrived, InReach;
    ReachIsWide(line);
    var m: nat, s := MAXIMUM_LINE, line[p..];
    forall k | p + m <= k <= |line| ensures Sanitized(Window(line, k)) == Sanitized(Part(line, |line|)) {
      PartIs(line, k);
      assert Reachable(line, k);
    }
    forall k | m <= k <= |s| ensures Sanitized(Window(s, k)) == Sanitized(Window(s, m)) {
      WindowOfSuffix(line, p, k);
      WindowOfSuffix(line, p, m);
    }
  }

  lemma WindowOfSuffix(line: seq<byte>, p: nat, k: nat)
    requires p <= |line| && MAXIMUM_LINE <= k <= |line| - p
    ensures Window(line[p..], k) == Window(line, p + k)
  {
  }

  lemma WindowStarts(line: seq<byte>, p: nat)
    requires p + MAXIMUM_LINE <= |line|
    ensures Window(line, p + MAXIMUM_LINE)[0] == line[p] == line[p..][0]
  {
  }

  /** Parts that are all shown alike are cut from one repeated letter, and no carriage return follows. */
  lemma AlikePartsRepeat(line: seq<byte>)
    requires WellFormed(line) && |line| > MAXIMUM_LINE && AlikeParts(line)
    ensures OneLetter(InReach(line)) && !EndsInReturn(line)
  {
    hide Sanitized, WellFormed, Part, AlikeWindows, AlikeParts, OneLetter, Arrived, Window, Tail, InReach, EndsInReturn;
    NoReturnFollows(line);
    ReachIsWide(line);
    var from: nat := |line| - |InReach(line)|;
    var p := 0;
    if from > 0 {
      p := NextCharacter(line, from);
    } else {
      assert line[0..] == line;
    }
    AlikeInReach(line, p);
    AlikeWindowsRepeat(line[p..]);
    if p > from {
      AlikeInReach(line, from);
      WindowStarts(line, from);
      WindowStarts(line, p);
      HeadOfSanitized(Window(line, from + MAXIMUM_LINE));
      HeadOfSanitized(Window(line, p + MAXIMUM_LINE));
      assert false;
    }
  }

  lemma MatchesInside(s: seq<byte>, a: nat, b: nat, keyword: seq<byte>)
    requires a <= b <= |s| && LogTail.Matches(s[a..b], keyword)
    ensures LogTail.Matches(s, keyword)
  {
    if keyword != [] {
      var i :| 0 <= i <= b - a && OccursAt(keyword, s[a..b], i);
      var j: nat := a + i;
      assert s[j..j + |keyword|] == s[a..b][i..i + |keyword|];
      assert OccursAt(keyword, s, j);
    }
  }

  lemma MatchesAround(s: seq<byte>, a: nat, b: nat, i: nat, keyword: seq<byte>)
    requires OccursAt(keyword, s, i) && a <= i && i + |keyword| <= b <= |s|
    ensures LogTail.Matches(s[a..b], keyword)
  {
    var j: nat := i - a;
    assert s[a..b][j..j + |keyword|] == s[i..i + |keyword|];
    assert OccursAt(keyword, s[a..b], j);
  }

  lemma StripOfReach(line: seq<byte>)
    requires |line| > MAXIMUM_LINE
    ensures var from, kept := |line| - |InReach(line)|, LogTail.Strip(InReach(line));
      0 <= from && kept == line[from..from + |kept|] && from + |kept| == |line| - if EndsInReturn(line) then 1 else 0
  {
    ReachIsWide(line);
    hide InReach;
    assert InReach(line)[|InReach(line)| - 1] == line[|line| - 1];
  }

  /** Each part is a piece of what is in reach. */
  lemma PartIsInReach(line: seq<byte>, k: nat)
    returns (a: nat, b: nat)
    requires |line| > MAXIMUM_LINE && Reachable(line, k)
    ensures var kept := LogTail.Strip(InReach(line)); a <= b <= |kept| && Part(line, k) == kept[a..b]
  {
    hide Part, LogTail.Strip;
    PartIs(line, k);
    StripOfReach(line);
    ReachIsWide(line);
    hide InReach, Reachable;
    var from := |line| - |InReach(line)|;
    var end := if k <= MAXIMUM_LINE then MAXIMUM_LINE else k;
    a := end - MAXIMUM_LINE - from;
    b := end - from - if k == |line| && EndsInReturn(line) then 1 else 0;
    assert Part(line, k) == line[from + a..from + b];
    SliceOfSlice(line, from, from + |LogTail.Strip(InReach(line))|, a, b);
  }

  lemma OccursInSlice(s: seq<byte>, from: nat, to: nat, i: nat, keyword: seq<byte>)
    requires from <= to <= |s| && OccursAt(keyword, s[from..to], i)
    ensures OccursAt(keyword, s, from + i) && from + i + |keyword| <= to
  {
    SliceOfSlice(s, from, to, i, i + |keyword|);
  }

  lemma OccursWithin(keyword: seq<byte>, s: seq<byte>, i: nat)
    requires OccursAt(keyword, s, i)
    ensures i + |keyword| <= |s|
  {
  }

  /** Bytes of the line in reach are in the window that ends after them, or in the first one. */
  lemma WindowAround(line: seq<byte>, at: nat, keyword: seq<byte>) returns (k: nat)
    requires |line| > MAXIMUM_LINE && |keyword| <= MAXIMUM_KEYWORD
    requires |line| - |InReach(line)| <= at && OccursAt(keyword, line, at)
    requires EndsInReturn(line) ==> at + |keyword| < |line|
    ensures Reachable(line, k) && LogTail.Matches(Part(line, k), keyword)
  {
    hide InReach, Part, EndsInReturn, Reachable, OccursAt, LogTail.Matches, Window, Arrived;
    OccursWithin(keyword, line, at);
    ReachIsWide(line);
    k := |line| - |InReach(line)| + MAXIMUM_LINE;
    if at + |keyword| > k {
      k := at + |keyword|;
    }
    PartIs(line, k);
    WindowIs(line, k);
    MatchesAround(line, k - MAXIMUM_LINE, k, at, keyword);
  }

  /** A match that is in reach is shown across some boundary. */
  lemma SomePartMatches(line: seq<byte>, keyword: seq<byte>) returns (k: nat)
    requires |line| > MAXIMUM_LINE && |keyword| <= MAXIMUM_KEYWORD
    requires LogTail.Matches(LogTail.Strip(InReach(line)), keyword)
    ensures Reachable(line, k) && LogTail.Matches(Part(line, k), keyword)
  {
    StripOfReach(line);
    var from, kept := |line| - |InReach(line)|, LogTail.Strip(InReach(line));
    hide InReach, LogTail.Strip, Part, OccursAt, EndsInReturn;
    if keyword == [] {
      k := |line|;
    } else {
      var i :| 0 <= i <= |kept| && OccursAt(keyword, kept, i);
      OccursInSlice(line, from, from + |kept|, i, keyword);
      k := WindowAround(line, from + i, keyword);
    }
  }

  lemma {:induction false} PartsOfOneLetter(line: seq<byte>, k: nat)
    requires |line| > MAXIMUM_LINE && Reachable(line, k)
    requires OneLetter(InReach(line)) && !EndsInReturn(line)
    ensures Part(line, k) == Part(line, |line|)
  {
    hide Part, OneLetter, EndsInReturn;
    var end := if k <= MAXIMUM_LINE then MAXIMUM_LINE else k;
    PartIs(line, k);
    PartIs(line, |line|);
    ReachIsWide(line);
    hide Reachable, InReach;
    var from, s := |line| - |InReach(line)|, InReach(line);
    forall i | 0 <= i < MAXIMUM_LINE ensures Window(line, end)[i] == Window(line, |line|)[i] {
      SameLetter(s, end - MAXIMUM_LINE - from + i);
      SameLetter(s, |line| - MAXIMUM_LINE - from + i);
    }
  }

  /** For any well-formed line of any length and any keyword the stream takes: the message does not depend on
      the boundary the line arrives across exactly when the line fits in 4096 bytes, nothing in reach matches,
      or what is in reach repeats one letter and no carriage return follows it. */
  lemma BoundaryIndependentExactlyWhen(line: seq<byte>, keyword: seq<byte>)
    requires WellFormed(line) && |keyword| <= MAXIMUM_KEYWORD
    ensures BoundaryIndependent(line, keyword) <==>
      || |line| <= MAXIMUM_LINE
      || !LogTail.Matches(LogTail.Strip(InReach(line)), keyword)
      || (OneLetter(InReach(line)) && !EndsInReturn(line))
  {
    hide Sanitized, WellFormed, Part, OneLetter, InReach, EndsInReturn, LogTail.Matches, LogTail.Strip, Arrived, Shown;
    if |line| <= MAXIMUM_LINE {
      return;
    }
    if !LogTail.Matches(LogTail.Strip(InReach(line)), keyword) {
      forall k | Reachable(line, k) ensures Shown(Arrived(line, k), keyword) == [] {
        ShownIsPart(line, k, keyword);
        var a, b := PartIsInReach(line, k);
        if LogTail.Matches(Part(line, k), keyword) {
          MatchesInside(LogTail.Strip(InReach(line)), a, b, keyword);
        }
      }
    } else if OneLetter(InReach(line)) && !EndsInReturn(line) {
      forall k | Reachable(line, k)
        ensures Shown(Arrived(line, k), keyword) == Shown(Arrived(line, |line|), keyword)
      {
        ShownIsPart(line, k, keyword);
        ShownIsPart(line, |line|, keyword);
        PartsOfOneLetter(line, k);
      }
    } else if BoundaryIndependent(line, keyword) {
      var some := SomePartMatches(line, keyword);
      ShownIsPart(line, some, keyword);
      ShownIsPart(line, |line|, keyword);
      forall k | Reachable(line, k) ensures Sanitized(Part(line, k)) == Sanitized(Part(line, |line|)) {
        ShownIsPart(line, k, keyword);
      }
      AlikePartsRepeat(line);
    }
  }

  // ----- which boundaries occur -----

  lemma StepAfterSent(f: Follower, a: seq<seq<byte>>, poll: Poll, keyword: seq<byte>)
    ensures var r := Step(f, poll, keyword);
      Step(f.(sent := a + f.sent), poll, keyword) == r.(sent := a + r.sent)
  {
    hide Emitted, Complete, Remainder, KeepLast;
    if poll.Seen? && poll.size > Restarted(f, poll).offset {
      var g := Restarted(f, poll);
      Associate(a, f.sent, Emitted(Complete(g.partial + Appended(f, poll)), keyword));
    }
  }

  /** What was sent before influences nothing. */
  lemma {:induction false} RunAfterSent(f: Follower, a: seq<seq<byte>>, polls: seq<Poll>, keyword: seq<byte>)
    ensures var r := Run(f, polls, keyword);
      Run(f.(sent := a + f.sent), polls, keyword) == r.(sent := a + r.sent)
    decreases |polls|
  {
    hide Step;
    if polls != [] {
      StepAfterSent(f, a, polls[0], keyword);
      RunAfterSent(Step(f, polls[0], keyword), a, polls[1..], keyword);
    }
  }

  /** The stream has read the log up to `before`, and `polls` see it grow by the line and read all of it. */
  ghost predicate Delivers(f: Follower, before: seq<byte>, line: seq<byte>, polls: seq<Poll>, keyword: seq<byte>) {
    && f.offset == |before| && f.partial == []
    && AppendOnly(polls, f.inode, |before|, before + line + [NEWLINE])
    && Run(f, polls, keyword).offset == |before| + |line| + 1
  }

  lemma OneLine(line: seq<byte>)
    requires NEWLINE !in line
    ensures Complete(line + [NEWLINE]) == [line] && Remainder(line + [NEWLINE]) == []
  {
    var text := line + [NEWLINE];
    assert text[..|line|] == line && text[|line| + 1..] == [];
    FirstNewlineIs(text, |line|);
    UnfinishedLine([]);
  }

  /** A stream that has read `before` and nothing of the next line, seen as a history. */
  lemma AtLineStart(f: Follower, before: seq<byte>, keyword: seq<byte>)
    requires f.offset == |before| && f.partial == [] && f.sent == []
    ensures InStep(History([], [], before, |before|), f, keyword)
  {
    assert History([], [], before, |before|).Text() == [];
  }

  /** Whatever schedule delivers the line, it arrives across one boundary. */
  lemma DeliveredAcross(f: Follower, before: seq<byte>, line: seq<byte>, polls: seq<Poll>, keyword: seq<byte>)
    returns (k: nat)
    requires NEWLINE !in line && Delivers(f, before, line, polls, keyword)
    ensures Reachable(line, k) && Run(f, polls, keyword).sent == f.sent + Shown(Arrived(line, k), keyword)
  {
    hide Run, AppendOnly, Shown, Arrived, Complete, Remainder, KeepLast;
    var log, silent := before + line + [NEWLINE], f.(sent := []);
    RunAfterSent(silent, f.sent, polls, keyword);
    assert f.sent + [] == f.sent;
    AtLineStart(silent, before, keyword);
    assert log[..|before|] == before;
    var cuts := AppendOnlyInStep(silent, |before|, [], polls, |before|, log, keyword);
    var g := Run(silent, polls, keyword);
    var h := History([], cuts, log[..g.offset], |before|);
    assert h.Text() == line + [NEWLINE];
    OneLine(line);
    assert h.Lines() == [line];
    k := cuts[0];
    ReceivedOfOne(line, k);
    assert cuts == [k];
    EmittedOfOne(Arrived(line, k), keyword);
  }

  function Repeated(poll: Poll, n: nat): (polls: seq<Poll>)
    ensures |polls| == n && forall k :: 0 <= k < n ==> polls[k] == poll
  {
    seq(n, _ => poll)
  }

  lemma {:induction false} RepeatedAppendOnly(inode: nat, seen: seq<byte>, n: nat, size: nat, last: seq<byte>)
    requires size <= |seen| && seen <= last
    ensures AppendOnly(Repeated(Quiet(inode, seen), n) + [Quiet(inode, last)], inode, size, last)
    ensures AppendOnly(Repeated(Quiet(inode, seen), n), inode, size, seen)
    decreases n
  {
    var polls := Repeated(Quiet(inode, seen), n);
    if n == 0 {
      assert polls + [Quiet(inode, last)] == [Quiet(inode, last)];
      assert [Quiet(inode, last)][1..] == [];
    } else {
      RepeatedAppendOnly(inode, seen, n - 1, |seen|, last);
      assert polls[1..] == Repeated(Quiet(inode, seen), n - 1);
      assert (polls + [Quiet(inode, last)])[1..] == polls[1..] + [Quiet(inode, last)];
    }
  }

  lemma AbsorbLineEnd(f: Follower, line: seq<byte>, keyword: seq<byte>)
    requires NEWLINE !in line && NEWLINE !in f.partial
    ensures Absorb(f, line + [NEWLINE], keyword).sent == f.sent + Shown(f.partial + line, keyword)
  {
    hide Shown, Complete, Remainder, KeepLast;
    Associate(f.partial, line, [NEWLINE]);
    OneLine(f.partial + line);
    EmittedOfOne(f.partial + line, keyword);
  }

  /** Polls that see `k` bytes of the line hold them back. */
  lemma HeldBack(f: Follower, before: seq<byte>, held: seq<byte>, keyword: seq<byte>) returns (polls: seq<Poll>)
    requires f.offset == |before| && f.partial == [] && NEWLINE !in held
    ensures polls == Repeated(Quiet(f.inode, before + held), |held|)
    ensures Run(f, polls, keyword) == Follower(f.inode, |before| + |held|, KeepLast(held), f.sent)
  {
    hide Run, AppendOnly, Emitted, Received, Complete, Remainder, KeepLast, Repeated;
    var seen, silent := before + held, f.(sent := []);
    polls := Repeated(Quiet(f.inode, seen), |held|);
    RunAfterSent(silent, f.sent, polls, keyword);
    assert f.sent + [] == f.sent;
    AtLineStart(silent, before, keyword);
    assert seen[..|before|] == before;
    RepeatedAppendOnly(f.inode, seen, |held|, |before|, seen);
    var cuts := AppendOnlyInStep(silent, |before|, [], polls, |before|, seen, keyword);
    CatchesUp(silent, polls, seen, keyword);
    var g := Run(silent, polls, keyword);
    var h := History([], cuts, seen, |before|);
    assert seen[..g.offset] == seen;
    assert h.Text() == held;
    UnfinishedLine(held);
    assert h.Lines() == [] && Received([], cuts) == [];
    EmittedNothing(keyword);
  }

  lemma LastChunk(before: seq<byte>, line: seq<byte>, k: nat)
    requires Reachable(line, k)
    ensures Chunk(before + line + [NEWLINE], |before| + k) == line[k..] + [NEWLINE]
  {
    var log := before + line + [NEWLINE];
    assert |log| - (|before| + k) <= STREAM_READ_SIZE;
    assert log[|before| + k..] == line[k..] + [NEWLINE];
  }

  /** The poll that reads the rest of a line of which `k` bytes are held. */
  lemma RestArrives(g: Follower, before: seq<byte>, line: seq<byte>, k: nat, keyword: seq<byte>)
    requires NEWLINE !in line && Reachable(line, k)
    requires g.offset == |before| + k && g.partial == KeepLast(line[..k])
    ensures var r := Step(g, Quiet(g.inode, before + line + [NEWLINE]), keyword);
      r.offset == |before| + |line| + 1 && r.sent == g.sent + Shown(Arrived(line, k), keyword)
  {
    hide Shown, Complete, Remainder, Emitted, KeepLast, Chunk;
    LastChunk(before, line, k);
    KeepLastOfNoNewline(line[..k]);
    AbsorbLineEnd(g, line[k..], keyword);
  }

  /** Each boundary from which one chunk reaches the newline does occur, from any state at a line's start. */
  lemma EveryBoundaryOccurs(f: Follower, before: seq<byte>, line: seq<byte>, k: nat, keyword: seq<byte>)
    returns (polls: seq<Poll>)
    requires f.offset == |before| && f.partial == [] && NEWLINE !in line && Reachable(line, k)
    ensures Delivers(f, before, line, polls, keyword)
    ensures Run(f, polls, keyword).sent == f.sent + Shown(Arrived(line, k), keyword)
  {
    hide Run, Step, AppendOnly, Shown, Repeated, KeepLast, Quiet, Arrived;
    var seen, log := before + line[..k], before + line + [NEWLINE];
    assert seen == log[..|seen|];
    var first := HeldBack(f, before, line[..k], keyword);
    var last := Quiet(f.inode, log);
    polls := first + [last];
    RunOfConcat(f, first, [last], keyword);
    RepeatedAppendOnly(f.inode, seen, k, |before|, log);
    var g := Follower(f.inode, |before| + k, KeepLast(line[..k]), f.sent);
    RunOne(g, last, keyword);
    RestArrives(g, before, line, k, keyword);
  }

  /** Any two schedules of polls that deliver the line send the same. */
  ghost predicate SchedulesAgree(f: Follower, before: seq<byte>, line: seq<byte>, keyword: seq<byte>) {
    forall a, b :: Delivers(f, before, line, a, keyword) && Delivers(f, before, line, b, keyword)
      ==> Run(f, a, keyword).sent == Run(f, b, keyword).sent
  }

  lemma SameEnd<T>(a: seq<T>, x: seq<T>, y: seq<T>)
    ensures a + x == a + y <==> x == y
  {
    if a + x == a + y {
      assert x == (a + x)[|a|..] && y == (a + y)[|a|..];
    }
  }

  lemma SchedulesAgreeLikeBoundaries(f: Follower, before: seq<byte>, line: seq<byte>, keyword: seq<byte>)
    requires f.offset == |before| && f.partial == [] && NEWLINE !in line
    ensures SchedulesAgree(f, before, line, keyword) <==> BoundaryIndependent(line, keyword)
  {
    hide Run, Shown, Arrived, Delivers;
    if SchedulesAgree(f, before, line, keyword) {
      var a := EveryBoundaryOccurs(f, before, line, |line|, keyword);
      forall k | Reachable(line, k)
        ensures Shown(Arrived(line, k), keyword) == Shown(Arrived(line, |line|), keyword)
      {
        var b := EveryBoundaryOccurs(f, before, line, k, keyword);
        SameEnd(f.sent, Shown(Arrived(line, k), keyword), Shown(Arrived(line, |line|), keyword));
      }
    }
    if BoundaryIndependent(line, keyword) {
      forall a, b | Delivers(f, before, line, a, keyword) && Delivers(f, before, line, b, keyword)
        ensures Run(f, a, keyword).sent == Run(f, b, keyword).sent
      {
        var j := DeliveredAcross(f, before, line, a, keyword);
        var k := DeliveredAcross(f, before, line, b, keyword);
      }
    }
  }

  /** From any state of the stream at the start of a line: what the line is shown as is the same for all
      schedules of appends and polls exactly under the condition above. */
  lemma SchedulesAgreeExactlyWhen(f: Follower, before: seq<byte>, line: seq<byte>, keyword: seq<byte>)
    requires f.offset == |before| && f.partial == []
    requires NEWLINE !in line && WellFormed(line) && |keyword| <= MAXIMUM_KEYWORD
    ensures SchedulesAgree(f, before, line, keyword) <==>
      || |line| <= MAXIMUM_LINE
      || !LogTail.Matches(LogTail.Strip(InReach(line)), keyword)
      || (OneLetter(InReach(line)) && !EndsInReturn(line))
  {
    hide SchedulesAgree, BoundaryIndependent, InReach, OneLetter, EndsInReturn, LogTail.Strip, LogTail.Matches;
    SchedulesAgreeLikeBoundaries(f, before, line, keyword);
    BoundaryIndependentExactlyWhen(line, keyword);
  }

  /** A line of bytes below 0x80 that one read can hold: the condition for all keywords at once. */
  lemma PlainLineIndependentExactlyWhen(line: seq<byte>)
    requires |line| < STREAM_READ_SIZE && forall k :: 0 <= k < |line| ==> line[k] < 0x80
    ensures (forall keyword :: |keyword| <= MAXIMUM_KEYWORD ==> BoundaryIndependent(line, keyword))
       <==> |line| <= MAXIMUM_LINE || (OneLetter(line) && line[0] != CARRIAGE_RETURN)
  {
    hide BoundaryIndependent, OneLetter, LogTail.Matches;
    PlainIsWellFormed(line);
    BoundaryIndependentExactlyWhen(line, []);
    LogTail.MatchesNothing(LogTail.Strip(line));
    if |line| > MAXIMUM_LINE && OneLetter(line) {
      SameLetter(line, |line| - 1);
    }
    if |line| <= MAXIMUM_LINE || (OneLetter(line) && line[0] != CARRIAGE_RETURN) {
      forall keyword: seq<byte> | |keyword| <= MAXIMUM_KEYWORD ensures BoundaryIndependent(line, keyword) {
        BoundaryIndependentExactlyWhen(line, keyword);
      }
    }
  }

  lemma {:induction false} PlainIsWellFormed(line: seq<byte>)
    requires forall k :: 0 <= k < |line| ==> line[k] < 0x80
    ensures WellFormed(line)
  {
    if line != [] {
      PlainIsWellFormed(line[1..]);
    }
  }

  const A: byte := 97

  /** 4096 letters and a carriage return fit in the limit once the return is dropped, and yet depend on where
      the boundary falls. */
  lemma ReturnCanCostALetter()
    ensures var line := Repeat([A], MAXIMUM_LINE) + [CARRIAGE_RETURN];
      !SchedulesAgree(Start(0, 0, true), [], line, [])
  {
    LettersOnly(MAXIMUM_LINE);
    var line := Repeat([A], MAXIMUM_LINE) + [CARRIAGE_RETURN];
    hide Repeat, LogTail.Matches, SchedulesAgree;
    PlainIsWellFormed(line);
    LogTail.MatchesNothing(LogTail.Strip(line));
    SchedulesAgreeExactlyWhen(Start(0, 0, true), [], line, []);
  }

  lemma {:induction false} LettersOnly(n: nat)
    ensures |Repeat([A], n)| == n && forall k :: 0 <= k < n ==> Repeat([A], n)[k] == A
  {
    if n > 0 {
      LettersOnly(n - 1);
    }
  }
}
