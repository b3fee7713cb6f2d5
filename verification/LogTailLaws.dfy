/** The bounded backward scan of `ReadLog` against a forward scan of the whole file. */
module LogTailLaws {
  import opened Basics
  import opened Lines
  import opened LogTail
  import Utf8
  import Utf8Laws

  // ----- the reference: read the whole file from the front -----

  function ForwardLines(contents: seq<byte>, maxLines: nat, keyword: seq<byte>): (lines: seq<seq<byte>>) {
    Last(Selected(Split(contents), keyword), maxLines)
  }

  predicate ForwardTruncated(contents: seq<byte>, maxLines: nat, keyword: seq<byte>) {
    |Selected(Split(contents), keyword)| > maxLines || AnyOverlong(Split(contents), keyword)
  }

  /** The scan of the log succeeded, stopped at offset `start`, and produced `r`. */
  ghost predicate Served(
    logs: map<string, LogFile>, id: string, maxLines: nat, keyword: seq<byte>, r: LogReadResult, start: nat)
  {
    && ReadOutcome(logs, id, maxLines, keyword) == Success(r)
    && id in logs
    && Scan(logs[id], maxLines, keyword) == Success(start)
  }

  lemma ServedTail(
    logs: map<string, LogFile>, id: string, maxLines: nat, keyword: seq<byte>, r: LogReadResult, start: nat)
    requires Served(logs, id, maxLines, keyword, r, start)
    ensures 1 <= maxLines <= MAXIMUM_LINES
    ensures logs[id].Opened? && start <= |logs[id].contents|
    ensures r == Tail(logs[id].contents[start..], start > 0, maxLines, keyword)
    ensures StopReason(logs[id].contents, start, maxLines, keyword)
  {
    hide Tail, StopReason;
    var file := logs[id];
    if file.Opened? {
      ScanStops(file.contents, file.readable, |file.contents|, maxLines, keyword);
    }
  }

  // ----- where the scan stops -----

  /** The start of the file, the newline count, or the cap: nothing else ends the scan. */
  predicate StopReason(contents: seq<byte>, start: nat, maxLines: nat, keyword: seq<byte>) {
    && start <= |contents|
    && |contents| - start <= MAXIMUM_SCAN_BYTES
    && (|| start == 0
        || (keyword == [] && Newlines(contents[start..]) > maxLines)
        || |contents| - start == MAXIMUM_SCAN_BYTES)
  }

  lemma {:induction false} ScanStops(
    contents: seq<byte>, readable: nat -> bool, position: nat, maxLines: nat, keyword: seq<byte>)
    requires position <= |contents|
    requires |contents| - position <= MAXIMUM_SCAN_BYTES && (|contents| - position) % READ_BLOCK_SIZE == 0
    ensures var r := ScanFrom(contents, readable, position, maxLines, keyword);
      r.Success? ==> StopReason(contents, r.value, maxLines, keyword)
    decreases position
  {
    hide Newlines;
    if position > 0 && |contents| - position < MAXIMUM_SCAN_BYTES && position >= READ_BLOCK_SIZE {
      ScanStops(contents, readable, position - READ_BLOCK_SIZE, maxLines, keyword);
    }
  }

  lemma StartBeforeEnd(contents: seq<byte>, start: nat, maxLines: nat, keyword: seq<byte>)
    requires StopReason(contents, start, maxLines, keyword) && start > 0
    ensures start < |contents|
  {
  }

  lemma {:induction false} ScanSucceeds(
    contents: seq<byte>, readable: nat -> bool, position: nat, maxLines: nat, keyword: seq<byte>)
    requires position <= |contents|
    requires forall p: nat :: readable(p)
    ensures ScanFrom(contents, readable, position, maxLines, keyword).Success?
    decreases position
  {
    hide Newlines;
    if position > 0 && |contents| - position < MAXIMUM_SCAN_BYTES {
      var next := position - if position < READ_BLOCK_SIZE then position else READ_BLOCK_SIZE;
      ScanSucceeds(contents, readable, next, maxLines, keyword);
    }
  }

  /** An offset at which the scan may stop: a whole number of blocks from the end, or the start. */
  predicate IsStop(contents: seq<byte>, p: nat) {
    p == 0 || (p <= |contents| && (|contents| - p) % 65536 == 0)
  }

  /** Enough has been read from `p` on. */
  predicate Enough(contents: seq<byte>, p: nat, maxLines: nat, keyword: seq<byte>)
    requires p <= |contents|
  {
    p == 0 || |contents| - p >= 8388608 || (keyword == [] && Newlines(contents[p..]) > maxLines)
  }

  /** `start` is the first stop with enough, and every block down to it can be read. */
  ghost predicate Reaches(
    contents: seq<byte>, readable: nat -> bool, position: nat, maxLines: nat, keyword: seq<byte>, start: nat)
    requires position <= |contents|
  {
    && start <= position && IsStop(contents, start) && Enough(contents, start, maxLines, keyword)
    && (forall p :: start < p <= position && IsStop(contents, p) ==> !Enough(contents, p, maxLines, keyword))
    && (forall p :: start <= p < position && IsStop(contents, p) ==> readable(p))
  }

  lemma {:induction false} ScanSucceedsExactlyWhen(
    contents: seq<byte>, readable: nat -> bool, position: nat, maxLines: nat, keyword: seq<byte>, start: nat)
    requires position <= |contents| && IsStop(contents, position)
    requires Enough(contents, position, maxLines, keyword) ==> position == 0 || |contents| - position >= 8388608
    ensures ScanFrom(contents, readable, position, maxLines, keyword) == Success(start) <==>
      Reaches(contents, readable, position, maxLines, keyword, start)
    decreases position
  {
    hide Newlines;
    if !Enough(contents, position, maxLines, keyword) {
      var next := position - if position < 65536 then position else 65536;
      NextStop(contents, position);
      ReachesNext(contents, readable, position, next, maxLines, keyword, start);
      ScanStep(contents, readable, position, maxLines, keyword);
      if keyword == [] && Newlines(contents[next..]) > maxLines {
        ReachesOnlyHere(contents, readable, next, maxLines, keyword, start);
      } else {
        ScanSucceedsExactlyWhen(contents, readable, next, maxLines, keyword, start);
      }
    } else {
      ReachesOnlyHere(contents, readable, position, maxLines, keyword, start);
      ScanStep(contents, readable, position, maxLines, keyword);
    }
  }

  /** There is no stop between one and the next. */
  lemma NextStop(contents: seq<byte>, position: nat)
    requires 0 < position <= |contents| && IsStop(contents, position)
    ensures var next := position - if position < 65536 then position else 65536;
      IsStop(contents, next) && forall p :: next < p < position ==> !IsStop(contents, p)
  {
  }

  lemma ReachesNext(
    contents: seq<byte>, readable: nat -> bool, position: nat, next: nat, maxLines: nat, keyword: seq<byte>, start: nat)
    requires next < position <= |contents| && IsStop(contents, next)
    requires forall p :: next < p < position ==> !IsStop(contents, p)
    requires !Enough(contents, position, maxLines, keyword)
    ensures Reaches(contents, readable, position, maxLines, keyword, start) <==>
      readable(next) && Reaches(contents, readable, next, maxLines, keyword, start)
  {
    hide IsStop, Enough;
  }

  lemma ReachesOnlyHere(
    contents: seq<byte>, readable: nat -> bool, position: nat, maxLines: nat, keyword: seq<byte>, start: nat)
    requires position <= |contents| && IsStop(contents, position) && Enough(contents, position, maxLines, keyword)
    ensures Reaches(contents, readable, position, maxLines, keyword, start) <==> start == position
  {
    hide IsStop, Enough;
  }

  // ----- the lines of a suffix and of the whole file -----

  lemma SelectedOfWhole(before: seq<byte>, suffix: seq<byte>, keyword: seq<byte>)
    requires suffix != []
    ensures Split(suffix) != []
    ensures Selected(Split(suffix), keyword) ==
      Shown(Split(suffix)[0], keyword) + Selected(Split(suffix)[1..], keyword)
    ensures Selected(Split(before + suffix), keyword) ==
      Selected(Complete(before) + [Remainder(before) + Split(suffix)[0]], keyword)
      + Selected(Split(suffix)[1..], keyword)
  {
    hide Split, Shown, Complete, Remainder;
    SplitOfSuffix(before, suffix);
    SelectedOfConcat(
      Complete(before) + [Remainder(before) + Split(suffix)[0]], Split(suffix)[1..], keyword);
  }

  lemma {:induction false} NothingFiltered(lines: seq<seq<byte>>)
    ensures |Selected(lines, [])| == |lines|
  {
    if lines != [] {
      NothingFiltered(lines[1..]);
    }
  }

  lemma SameWindow<T>(x: seq<T>, y: seq<T>, w: seq<T>, n: nat)
    ensures Last(x + w, n) == Last(y + w, n) <==> |w| >= n || Last(x, n - |w|) == Last(y, n - |w|)
  {
    LastOfConcat(x, w, n);
    LastOfConcat(y, w, n);
    if |w| < n {
      SameFront(Last(x, n - |w|), Last(y, n - |w|), w);
    }
  }

  lemma SameFront<T>(x: seq<T>, y: seq<T>, w: seq<T>)
    ensures x + w == y + w <==> x == y
  {
    if x + w == y + w {
      assert x == (x + w)[..|x|] && y == (y + w)[..|y|];
    }
  }

  lemma LastOfFew<T>(s: seq<T>, n: nat)
    requires |s| <= n
    ensures Last(s, n) == s
  {
  }

  /** No line matches. */
  predicate NoneMatches(lines: seq<seq<byte>>, keyword: seq<byte>) {
    forall k :: 0 <= k < |lines| ==> !Matches(Strip(lines[k]), keyword)
  }

  lemma {:induction false} NoneSelectedExactlyWhen(lines: seq<seq<byte>>, keyword: seq<byte>)
    ensures Selected(lines, keyword) == [] <==> NoneMatches(lines, keyword)
  {
    hide Matches, Strip, Cut, Utf8.Sanitized;
    if lines != [] {
      NoneSelectedExactlyWhen(lines[1..], keyword);
      assert forall k :: 1 <= k < |lines| ==> lines[k] == lines[1..][k - 1];
    }
  }

  /** A line whose end matches matches. */
  lemma EndMatches(front: seq<byte>, end: seq<byte>, keyword: seq<byte>)
    requires Matches(Strip(end), keyword)
    ensures Matches(Strip(front + end), keyword)
  {
    if keyword != [] {
      var i :| 0 <= i <= |Strip(end)| && OccursAt(keyword, Strip(end), i);
      assert end != [];
      assert Strip(front + end) == front + Strip(end);
      hide Strip;
      OccursLater(front, Strip(end), keyword, i);
      hide OccursAt;
      assert OccursAt(keyword, Strip(front + end), |front| + i);
    }
  }

  /** When the last `n` of the lines `x`, followed by at most one more, are just `end`. */
  lemma LastIsExactlyWhen(x: seq<seq<byte>>, shown: seq<seq<byte>>, end: seq<seq<byte>>, n: nat)
    requires n > 0 && |shown| <= 1 && |end| <= 1 && (end != [] ==> shown != [])
    ensures end == Last(x + shown, n) <==>
      if end == [] then x == [] && shown == [] else (n == 1 || x == []) && end == shown
  {
    LastOfConcat(x, shown, n);
    var front := Last(x, n - |shown|);
    assert front == [] <==> x == [] || n == |shown|;
    if front == [] {
      assert front + shown == shown;
    } else {
      assert |front + shown| > |end| || shown == [];
    }
  }

  /** What the start of the suffix decides, when there is `room` for lines up to there: its first line `p` may
      be the end of a line of the file. If `p` matches, it must fill the room or nothing before it match, and
      it must be shown like the whole line. If it does not, nothing up to there may match. */
  predicate FrontAgrees(before: seq<byte>, p: seq<byte>, room: nat, keyword: seq<byte>) {
    var line := Remainder(before) + p;
    if Matches(Strip(p), keyword) then
      && (room == 1 || NoneMatches(Complete(before), keyword))
      && Utf8.Sanitized(Cut(Strip(p))) == Utf8.Sanitized(Cut(Strip(line)))
    else
      NoneMatches(Complete(before), keyword) && !Matches(Strip(line), keyword)
  }

  lemma FrontAgreesExactlyWhen(before: seq<byte>, p: seq<byte>, room: nat, keyword: seq<byte>)
    requires room > 0
    ensures var line := Remainder(before) + p;
      Shown(p, keyword) == Last(Selected(Complete(before) + [line], keyword), room) <==>
        FrontAgrees(before, p, room, keyword)
  {
    hide Selected, Complete, Remainder, Matches, Cut, Strip, NoneMatches, Utf8.Sanitized;
    var line := Remainder(before) + p;
    SelectedOfConcat(Complete(before), [line], keyword);
    SelectedOfOne(line, keyword);
    NoneSelectedExactlyWhen(Complete(before), keyword);
    if Matches(Strip(p), keyword) {
      EndMatches(Remainder(before), p, keyword);
    }
    LastIsExactlyWhen(Selected(Complete(before), keyword), Shown(line, keyword), Shown(p, keyword), room);
  }

  /** A suffix shows the same window as the whole exactly when its undamaged lines fill the window, or the
      front agrees. */
  lemma SuffixShowsTheSame(before: seq<byte>, suffix: seq<byte>, maxLines: nat, keyword: seq<byte>)
    requires suffix != []
    ensures Split(suffix) != []
    ensures var whole := Selected(Split(suffix)[1..], keyword);
      (ForwardLines(suffix, maxLines, keyword) == ForwardLines(before + suffix, maxLines, keyword) <==>
       |whole| >= maxLines || FrontAgrees(before, Split(suffix)[0], maxLines - |whole|, keyword))
  {
    hide Split, Selected, Complete, Remainder, Last, Shown, FrontAgrees;
    SelectedOfWhole(before, suffix, keyword);
    var p, whole := Split(suffix)[0], Selected(Split(suffix)[1..], keyword);
    var front := Selected(Complete(before) + [Remainder(before) + p], keyword);
    SameWindow(Shown(p, keyword), front, whole, maxLines);
    if |whole| < maxLines {
      LastOfFew(Shown(p, keyword), maxLines - |whole|);
      FrontAgreesExactlyWhen(before, p, maxLines - |whole|, keyword);
    }
  }

  /** When the returned lines are those of the forward scan, for every keyword. */
  lemma LinesAgreeExactlyWhen(
    logs: map<string, LogFile>, id: string, maxLines: nat, keyword: seq<byte>, r: LogReadResult, start: nat)
    requires Served(logs, id, maxLines, keyword, r, start)
    ensures logs[id].Opened? && start <= |logs[id].contents|
    ensures start == 0 ==> r.lines == ForwardLines(logs[id].contents, maxLines, keyword)
    ensures start > 0 ==>
      var before, suffix := logs[id].contents[..start], logs[id].contents[start..];
      && Split(suffix) != []
      && var whole := Selected(Split(suffix)[1..], keyword);
         (r.lines == ForwardLines(logs[id].contents, maxLines, keyword) <==>
          |whole| >= maxLines || FrontAgrees(before, Split(suffix)[0], maxLines - |whole|, keyword))
  {
    hide Split, Selected, Shown, Last, Newlines, AnyOverlong, FrontAgrees, Scan, ReadOutcome;
    ServedTail(logs, id, maxLines, keyword, r, start);
    var file := logs[id].contents;
    var before, suffix := file[..start], file[start..];
    assert file == before + suffix;
    assert r.lines == ForwardLines(suffix, maxLines, keyword);
    if start > 0 {
      StartBeforeEnd(file, start, maxLines, keyword);
      SuffixShowsTheSame(before, suffix, maxLines, keyword);
    } else {
      assert suffix == file;
    }
  }

  lemma EverythingMatches(lines: seq<seq<byte>>)
    ensures NoneMatches(lines, []) <==> lines == []
  {
    if lines != [] {
      assert Matches(Strip(lines[0]), []);
    }
  }

  /** Without a keyword: the lines are those of the forward scan exactly when the scan reached the start, or
      has more than `maxLines` lines in hand, or the first line in hand, being the first shown of the file too,
      is shown like the whole line of the file that it ends. */
  lemma TailAgreesExactlyWhen(logs: map<string, LogFile>, id: string, maxLines: nat, r: LogReadResult, start: nat)
    requires Served(logs, id, maxLines, [], r, start)
    ensures logs[id].Opened? && start <= |logs[id].contents|
    ensures var before, lines := logs[id].contents[..start], Split(logs[id].contents[start..]);
      r.lines == ForwardLines(logs[id].contents, maxLines, []) <==>
        || start == 0
        || |lines| > maxLines
        || ((|lines| == maxLines || Complete(before) == []) && lines != [] &&
            Utf8.Sanitized(Cut(Strip(lines[0]))) == Utf8.Sanitized(Cut(Strip(Remainder(before) + lines[0]))))
  {
    hide Split, Selected, Shown, Last, Newlines, AnyOverlong, Complete, Remainder, Scan, ReadOutcome;
    hide Cut, Strip, NoneMatches, Matches, Utf8.Sanitized;
    LinesAgreeExactlyWhen(logs, id, maxLines, [], r, start);
    if start > 0 {
      var before, lines := logs[id].contents[..start], Split(logs[id].contents[start..]);
      NothingFiltered(lines[1..]);
      EverythingMatches(Complete(before));
      MatchesNothing(Strip(lines[0]));
    }
  }

  /** Without a keyword the lines are exactly the last `maxLines` of the file, unless the cap stopped the
      scan with too few lines in hand to drop the one its first byte fell in. */
  lemma TailIsExact(logs: map<string, LogFile>, id: string, maxLines: nat, r: LogReadResult, start: nat)
    requires Served(logs, id, maxLines, [], r, start)
    requires start == 0 || |Split(logs[id].contents[start..])| > maxLines
    ensures r.lines == ForwardLines(logs[id].contents, maxLines, [])
  {
    hide Split, Selected, Shown, Last, Newlines, AnyOverlong, FrontAgrees, Scan, ReadOutcome;
    LinesAgreeExactlyWhen(logs, id, maxLines, [], r, start);
    if start > 0 {
      NothingFiltered(Split(logs[id].contents[start..])[1..]);
    }
  }

  /** In particular they are exact whenever the scan saw more than `maxLines` newlines. */
  lemma EnoughNewlinesAreEnough(logs: map<string, LogFile>, id: string, maxLines: nat, r: LogReadResult, start: nat)
    requires Served(logs, id, maxLines, [], r, start)
    requires start == 0 || Newlines(logs[id].contents[start..]) > maxLines
    ensures r.lines == ForwardLines(logs[id].contents, maxLines, [])
  {
    hide Split, Selected, Shown, Last, Newlines, AnyOverlong, FrontAgrees, Scan, ReadOutcome;
    OneLinePerNewline(logs[id].contents[start..]);
    TailIsExact(logs, id, maxLines, r, start);
  }

  // ----- the truncated flag -----

  /** The cap leaves room for more bytes than `MAXIMUM_LINES` newlines can share out. */
  lemma CapHoldsALongLine(suffix: seq<byte>, maxLines: nat)
    requires maxLines <= MAXIMUM_LINES && Newlines(suffix) <= maxLines
    requires |suffix| == MAXIMUM_SCAN_BYTES
    ensures exists k :: 0 <= k < |Split(suffix)| && |Split(suffix)[k]| > MAXIMUM_LINE_LENGTH + 1
  {
    hide Split, Newlines;
    if forall k :: 0 <= k < |Split(suffix)| ==> |Split(suffix)[k]| <= MAXIMUM_LINE_LENGTH + 1 {
      ShortLinesFit(suffix, maxLines);
    }
  }

  lemma ShortLinesFit(s: seq<byte>, maxLines: nat)
    requires Newlines(s) <= maxLines
    requires forall k :: 0 <= k < |Split(s)| ==> |Split(s)[k]| <= MAXIMUM_LINE_LENGTH + 1
    ensures |s| <= (maxLines + 1) * (MAXIMUM_LINE_LENGTH + 2)
  {
    hide Split, Newlines;
    AtMost(Newlines(s) + 1, maxLines + 1, MAXIMUM_LINE_LENGTH + 2);
    Pigeonhole(s, MAXIMUM_LINE_LENGTH + 1);
  }

  lemma AtMost(n: nat, m: nat, width: nat)
    requires n <= m
    ensures n * width <= m * width
  {
  }

  /** A long line of a suffix is, or is the end of, a long line of the whole. */
  lemma LongLineOfWhole(before: seq<byte>, suffix: seq<byte>, k: nat)
    requires k < |Split(suffix)| && |Split(suffix)[k]| > MAXIMUM_LINE_LENGTH + 1
    ensures AnyOverlong(Split(before + suffix), [])
  {
    hide Split, Complete, Remainder;
    assert suffix != [] by {
      NoSplitOfNothing();
    }
    SplitOfSuffix(before, suffix);
    var lines := Split(before + suffix);
    var j := |Complete(before)| + k;
    assert |lines[j]| >= |Split(suffix)[k]|;
    assert Overlong(lines[j], []);
  }

  lemma NoSplitOfNothing()
    ensures Split([]) == []
  {
  }

  lemma MoreNewlinesInWhole(before: seq<byte>, suffix: seq<byte>)
    ensures |Selected(Split(before + suffix), [])| >= Newlines(suffix)
  {
    hide Split, Newlines, Selected;
    NothingFiltered(Split(before + suffix));
    OneLinePerNewline(before + suffix);
    NewlinesOfConcat(before, suffix);
  }

  /** Without a keyword the flag is what a forward scan of the whole file computes. */
  lemma TruncatedIsForward(logs: map<string, LogFile>, id: string, maxLines: nat, r: LogReadResult, start: nat)
    requires Served(logs, id, maxLines, [], r, start)
    ensures logs[id].Opened?
    ensures r.truncated <==> ForwardTruncated(logs[id].contents, maxLines, [])
  {
    hide Split, Newlines, Selected, AnyOverlong, Last, Scan, ReadOutcome;
    ServedTail(logs, id, maxLines, [], r, start);
    var file := logs[id].contents;
    var before, suffix := file[..start], file[start..];
    assert file == before + suffix;
    if start == 0 {
      assert suffix == file;
    } else if Newlines(suffix) > maxLines {
      MoreNewlinesInWhole(before, suffix);
    } else {
      CapHoldsALongLine(suffix, maxLines);
      var k :| 0 <= k < |Split(suffix)| && |Split(suffix)[k]| > MAXIMUM_LINE_LENGTH + 1;
      LongLineOfWhole(before, suffix, k);
    }
  }

  /** Every matching line, sanitised but otherwise whole. */
  function Everything(lines: seq<seq<byte>>, keyword: seq<byte>): (r: seq<seq<byte>>) {
    if lines == [] then []
    else (if Matches(Strip(lines[0]), keyword) then [Utf8.Sanitized(Strip(lines[0]))] else [])
         + Everything(lines[1..], keyword)
  }

  lemma {:induction false} AsManyAsSelected(lines: seq<seq<byte>>, keyword: seq<byte>)
    ensures |Everything(lines, keyword)| == |Selected(lines, keyword)|
  {
    hide Matches, Strip, Cut, Utf8.Sanitized;
    if lines != [] {
      AsManyAsSelected(lines[1..], keyword);
    }
  }

  /** In plain terms: more than `maxLines` lines, or a line over 4096 bytes. */
  lemma TruncatedIsExact(logs: map<string, LogFile>, id: string, maxLines: nat, r: LogReadResult, start: nat)
    requires Served(logs, id, maxLines, [], r, start)
    ensures logs[id].Opened?
    ensures var lines := Split(logs[id].contents);
      r.truncated <==> |lines| > maxLines || exists k :: 0 <= k < |lines| && |Strip(lines[k])| > 4096
  {
    hide Split, Newlines, Selected, Last, Scan, ReadOutcome, Strip, Matches;
    TruncatedIsForward(logs, id, maxLines, r, start);
    var lines := Split(logs[id].contents);
    NothingFiltered(lines);
    forall k | 0 <= k < |lines| ensures Overlong(lines[k], []) <==> |Strip(lines[k])| > 4096 {
      MatchesNothing(Strip(lines[k]));
    }
  }

  /** With a keyword the scan covers the last 8 MiB, and the flag says that the file is larger, or that more
      than `maxLines` lines match, or that a matching line is over 4096 bytes. */
  lemma TruncatedForAnyKeyword(
    logs: map<string, LogFile>, id: string, maxLines: nat, keyword: seq<byte>, r: LogReadResult, start: nat)
    requires Served(logs, id, maxLines, keyword, r, start) && keyword != []
    ensures logs[id].Opened?
    ensures var contents := logs[id].contents;
      var lines := Split(contents);
      && start == (if |contents| > 8388608 then |contents| - 8388608 else 0)
      && (r.truncated <==>
            || |contents| > 8388608
            || |Everything(lines, keyword)| > maxLines
            || exists k :: 0 <= k < |lines| && Matches(Strip(lines[k]), keyword) && |Strip(lines[k])| > 4096)
  {
    hide Split, Newlines, Selected, Last, Scan, ReadOutcome, Strip, Matches, Everything;
    ServedTail(logs, id, maxLines, keyword, r, start);
    if start == 0 {
      assert logs[id].contents[0..] == logs[id].contents;
      var lines := Split(logs[id].contents);
      AsManyAsSelected(lines, keyword);
      assert forall k :: 0 <= k < |lines| ==>
        (Overlong(lines[k], keyword) <==> Matches(Strip(lines[k]), keyword) && |Strip(lines[k])| > 4096);
    }
  }

  // ----- an unset flag means that nothing is missing -----

  lemma {:induction false} NothingShortened(lines: seq<seq<byte>>, keyword: seq<byte>)
    requires !AnyOverlong(lines, keyword)
    ensures Selected(lines, keyword) == Everything(lines, keyword)
  {
    hide Matches;
    if lines != [] {
      assert !Overlong(lines[0], keyword);
      forall k | 0 <= k < |lines| - 1 ensures !Overlong(lines[1..][k], keyword) {
        assert !Overlong(lines[k + 1], keyword);
      }
      NothingShortened(lines[1..], keyword);
    }
  }

  lemma UntruncatedIsEverything(
    logs: map<string, LogFile>, id: string, maxLines: nat, keyword: seq<byte>, r: LogReadResult, start: nat)
    requires Served(logs, id, maxLines, keyword, r, start)
    requires !r.truncated
    ensures logs[id].Opened? && start == 0
    ensures r.lines == Everything(Split(logs[id].contents), keyword)
  {
    hide Split, Newlines, Selected, AnyOverlong, Scan, ReadOutcome;
    ServedTail(logs, id, maxLines, keyword, r, start);
    assert logs[id].contents[0..] == logs[id].contents;
    NothingShortened(Split(logs[id].contents), keyword);
  }

  // ----- what a client may rely on -----

  predicate Presentable(line: seq<byte>) {
    && Utf8.WellFormed(line)
    && NEWLINE !in line
    && |line| <= 3 * 4096
  }

  lemma {:induction false} SplitLinesHaveNoNewline(s: seq<byte>)
    ensures forall k :: 0 <= k < |Split(s)| ==> NEWLINE !in Split(s)[k]
    decreases |s|
  {
    var i := FirstNewline(s);
    FirstNewlineIs(s, i);
    if s != [] {
      assert i == |s| ==> s[..i] == s;
      FirstLine(s);
      hide Split, FirstNewline;
      if i < |s| {
        SplitLinesHaveNoNewline(s[i + 1..]);
      }
      forall k | 0 <= k < |Split(s)| ensures NEWLINE !in Split(s)[k] {
        if k > 0 {
          assert Split(s)[k] == Split(s)[1..][k - 1];
        }
      }
    }
  }

  lemma {:induction false} SelectedIsPresentable(lines: seq<seq<byte>>, keyword: seq<byte>)
    requires forall k :: 0 <= k < |lines| ==> NEWLINE !in lines[k]
    ensures forall k :: 0 <= k < |Selected(lines, keyword)| ==> Presentable(Selected(lines, keyword)[k])
  {
    hide Matches, Utf8.WellFormed, Utf8.Sanitized;
    if lines != [] {
      SelectedIsPresentable(lines[1..], keyword);
      assert NEWLINE !in lines[0];
      var line := Cut(Strip(lines[0]));
      Utf8Laws.SanitizedIsWellFormed(line);
      Utf8Laws.SanitizedKeepsNewlines(line);
      assert Presentable(Utf8.Sanitized(line));
    }
  }

  /** Every answer holds at most `maxLines` lines, each one line of valid UTF-8 of bounded length, taken
      from at most 8 MiB of the file. */
  lemma AnswersArePresentable(
    logs: map<string, LogFile>, id: string, maxLines: nat, keyword: seq<byte>, r: LogReadResult, start: nat)
    requires Served(logs, id, maxLines, keyword, r, start)
    ensures logs[id].Opened? && start <= |logs[id].contents| <= start + 8388608
    ensures r.lines == ForwardLines(logs[id].contents[start..], maxLines, keyword)
    ensures |r.lines| <= maxLines <= 1000
    ensures forall k :: 0 <= k < |r.lines| ==> Presentable(r.lines[k])
  {
    hide Split, Newlines, Selected, AnyOverlong, Scan, ReadOutcome, Presentable;
    ServedTail(logs, id, maxLines, keyword, r, start);
    var suffix := logs[id].contents[start..];
    SplitLinesHaveNoNewline(suffix);
    SelectedIsPresentable(Split(suffix), keyword);
  }

  predicate BadArguments(logs: map<string, LogFile>, id: string, maxLines: nat, keyword: seq<byte>) {
    id !in logs || maxLines == 0 || maxLines > 1000 || |keyword| > 256
  }

  /** A request is refused for its arguments, for a file that cannot be opened or measured, or for a block that
      the scan needs and cannot read; the code says which. */
  lemma RefusedExactlyWhen(logs: map<string, LogFile>, id: string, maxLines: nat, keyword: seq<byte>)
    ensures var r, bad := ReadOutcome(logs, id, maxLines, keyword), BadArguments(logs, id, maxLines, keyword);
      && (r.Failure? <==> bad || !logs[id].Opened? || !exists start ::
            Reaches(logs[id].contents, logs[id].readable, |logs[id].contents|, maxLines, keyword, start))
      && (r.Failure? ==>
            && (r.error == InvalidArgument <==> bad)
            && (r.error == NotFound <==> !bad && logs[id] == OpenFailed(ENOENT))
            && (r.error == PermissionDenied <==>
                  !bad && (logs[id] == OpenFailed(EACCES) || logs[id] == OpenFailed(EPERM))))
  {
    hide ScanFrom, Tail, Reaches, Newlines;
    if !BadArguments(logs, id, maxLines, keyword) && logs[id].Opened? {
      var contents, readable := logs[id].contents, logs[id].readable;
      NothingRead(contents, maxLines, keyword);
      var scan := ScanFrom(contents, readable, |contents|, maxLines, keyword);
      if scan.Success? {
        ScanSucceedsExactlyWhen(contents, readable, |contents|, maxLines, keyword, scan.value);
      } else {
        ScanFailsInReading(contents, readable, |contents|, maxLines, keyword);
        forall start ensures !Reaches(contents, readable, |contents|, maxLines, keyword, start) {
          ScanSucceedsExactlyWhen(contents, readable, |contents|, maxLines, keyword, start);
        }
      }
    }
  }

  /** What each refusal says. */
  lemma RefusalsAreNamed(logs: map<string, LogFile>, id: string, maxLines: nat, keyword: seq<byte>)
    ensures var r := ReadOutcome(logs, id, maxLines, keyword);
      r.Failure? ==> (r.message ==
        if id !in logs then "unknown log id"
        else if maxLines == 0 || maxLines > 1000 then "max_lines must be between 1 and 1000"
        else if |keyword| > 256 then "keyword is too long"
        else if logs[id].OpenFailed? then "log file is not available"
        else if logs[id].SizeUnknown? then "failed to determine log file size"
        else "failed while reading log file")
  {
    hide ScanFrom, Tail;
    if id in logs && logs[id].Opened? {
      ScanFailsInReading(logs[id].contents, logs[id].readable, |logs[id].contents|, maxLines, keyword);
    }
  }

  lemma NothingRead(contents: seq<byte>, maxLines: nat, keyword: seq<byte>)
    ensures Enough(contents, |contents|, maxLines, keyword) ==> |contents| == 0
    ensures IsStop(contents, |contents|)
  {
    assert contents[|contents|..] == [];
  }

  lemma ReadableIsServed(logs: map<string, LogFile>, id: string, maxLines: nat, keyword: seq<byte>)
    requires !BadArguments(logs, id, maxLines, keyword) && logs[id].Opened?
    requires forall p: nat :: logs[id].readable(p)
    ensures ReadOutcome(logs, id, maxLines, keyword).Success? && Scan(logs[id], maxLines, keyword).Success?
  {
    hide ScanFrom, Tail;
    ScanSucceeds(logs[id].contents, logs[id].readable, |logs[id].contents|, maxLines, keyword);
  }

  // ----- the cap can damage a line -----

  lemma {:induction false} CapReached(
    contents: seq<byte>, readable: nat -> bool, position: nat, maxLines: nat, keyword: seq<byte>)
    requires MAXIMUM_SCAN_BYTES < |contents| && position <= |contents|
    requires |contents| - position <= MAXIMUM_SCAN_BYTES && (|contents| - position) % READ_BLOCK_SIZE == 0
    requires Newlines(contents) <= maxLines
    requires forall p: nat :: readable(p)
    ensures ScanFrom(contents, readable, position, maxLines, keyword) == Success(|contents| - MAXIMUM_SCAN_BYTES)
    decreases position
  {
    hide Newlines;
    if |contents| - position < MAXIMUM_SCAN_BYTES {
      var next := position - READ_BLOCK_SIZE;
      assert contents == contents[..next] + contents[next..];
      NewlinesOfConcat(contents[..next], contents[next..]);
      CapReached(contents, readable, next, maxLines, keyword);
    }
  }

  const B: byte := 98
  const A: byte := 97

  function Letters(n: nat): (s: seq<byte>)
    ensures |s| == n
    ensures forall k :: 0 <= k < n ==> s[k] == A
  {
    seq(n, _ => A)
  }

  lemma ShownOfLongLine(line: seq<byte>)
    requires |line| > MAXIMUM_LINE_LENGTH && line[|line| - 1] == A && NEWLINE !in line
    ensures Selected(Split(line), []) == [Utf8.Sanitized(line[..MAXIMUM_LINE_LENGTH])]
  {
    hide Split, Utf8.Sanitized;
    SplitOfUnterminated(line);
    SelectedOfOne(line, []);
  }

  lemma FirstLetterShows(s: seq<byte>)
    requires s != [] && s[0] < 0x80
    ensures Utf8.Sanitized(s) != [] && Utf8.Sanitized(s)[0] == s[0]
  {
  }

  /** A file of one line, one byte longer than the cap: the client is shown a line that the file does not
      begin with, so the condition of `TailIsExact` cannot be dropped. */
  lemma CapCanDamageTheOnlyLine(readable: nat -> bool)
    requires forall p: nat :: readable(p)
    ensures var contents := [B] + Letters(MAXIMUM_SCAN_BYTES);
      var outcome := ReadOutcome(map["system" := Opened(contents, readable)], "system", 1, []);
      outcome.Success? && outcome.value.lines != ForwardLines(contents, 1, [])
  {
    hide Split, Newlines, Utf8.Sanitized, ScanFrom, AnyOverlong, Selected;
    var suffix := Letters(MAXIMUM_SCAN_BYTES);
    var contents := [B] + suffix;
    SplitOfUnterminated(contents);
    CapReached(contents, readable, |contents|, 1, []);
    assert contents[1..] == suffix;
    ShownOfLongLine(contents);
    ShownOfLongLine(suffix);
    FirstLetterShows(contents[..MAXIMUM_LINE_LENGTH]);
    FirstLetterShows(suffix[..MAXIMUM_LINE_LENGTH]);
  }
}
