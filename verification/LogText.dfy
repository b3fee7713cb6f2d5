/** A log as programs write it, and what both views of it show: the laws that mention bytes and numbers only. */
module LogText {
  import opened Basics
  import opened Lines
  import Utf8
  import Utf8Laws
  import LogTail
  import LogTailLaws
  import opened LogFollow
  import LogFollowLaws

  /** One line of text, ended by a newline or by a carriage return and a newline. */
  datatype Line = Line(text: seq<byte>, dos: bool) {
    predicate Valid() {
      Utf8.WellFormed(text) && 10 !in text && (text != [] ==> text[|text| - 1] != 13)
    }

    function Raw(): (raw: seq<byte>) {
      if dos then text + [13] else text
    }
  }

  predicate AllValid(lines: seq<Line>) {
    forall k :: 0 <= k < |lines| ==> lines[k].Valid()
  }

  function Written(lines: seq<Line>): (log: seq<byte>) {
    if lines == [] then [] else lines[0].Raw() + [10] + Written(lines[1..])
  }

  function Raws(lines: seq<Line>): (raws: seq<seq<byte>>)
    ensures |raws| == |lines| && forall k :: 0 <= k < |lines| ==> raws[k] == lines[k].Raw()
  {
    if lines == [] then [] else [lines[0].Raw()] + Raws(lines[1..])
  }

  ghost predicate Contains(text: seq<byte>, keyword: seq<byte>) {
    exists before, after :: text == before + keyword + after
  }

  /** The texts that contain the keyword, in order. */
  ghost function Wanted(lines: seq<Line>, keyword: seq<byte>): (texts: seq<seq<byte>>) {
    if lines == [] then []
    else (if Contains(lines[0].text, keyword) then [lines[0].text] else []) + Wanted(lines[1..], keyword)
  }

  /** A text of at most 4096 bytes is shown whole. Of a longer one the characters that end within the first
      4096 bytes are, and U+FFFD for each byte of the character cut there. */
  function Shortened(text: seq<byte>): (r: seq<byte>) {
    if |text| <= 4096 then text
    else
      var whole := Utf8Laws.WholeChars(text, 4096);
      text[..whole] + Utf8Laws.Repeat([0xEF, 0xBF, 0xBD], 4096 - whole)
  }

  function ShortenedAll(texts: seq<seq<byte>>): (r: seq<seq<byte>>)
    ensures |r| == |texts|
  {
    if texts == [] then [] else [Shortened(texts[0])] + ShortenedAll(texts[1..])
  }

  // ----- lines are found again -----

  lemma RawHasNoNewline(line: Line)
    requires line.Valid()
    ensures NEWLINE !in line.Raw() && LogTail.Strip(line.Raw()) == line.text
  {
    hide Utf8.WellFormed;
  }

  lemma {:induction false} WrittenIsSplit(lines: seq<Line>)
    requires AllValid(lines)
    ensures Split(Written(lines)) == Raws(lines)
    ensures Complete(Written(lines)) == Raws(lines) && Remainder(Written(lines)) == []
  {
    hide Utf8.WellFormed, Split, Complete, Remainder, Line.Raw, Line.Valid;
    if lines == [] {
      SplitOfUnterminated([]);
      UnfinishedLine([]);
    } else {
      var raw, rest := lines[0].Raw(), Written(lines[1..]);
      RawHasNoNewline(lines[0]);
      WrittenIsSplit(lines[1..]);
      SplitOfLine(raw, rest);
      var all := raw + [NEWLINE] + rest;
      assert all[..|raw|] == raw && all[|raw| + 1..] == rest;
      FirstNewlineIs(all, |raw|);
      AfterFirstNewline(all);
    }
  }

  lemma MatchesIsContains(text: seq<byte>, keyword: seq<byte>)
    ensures LogTail.Matches(text, keyword) <==> Contains(text, keyword)
  {
    if keyword == [] {
      assert text == [] + keyword + text;
    } else if LogTail.Matches(text, keyword) {
      var i :| 0 <= i <= |text| && OccursAt(keyword, text, i);
      assert text == text[..i] + keyword + text[i + |keyword|..];
    } else if Contains(text, keyword) {
      var before, after :| text == before + keyword + after;
      assert text[|before|..|before| + |keyword|] == keyword;
      assert OccursAt(keyword, text, |before|);
    }
  }

  lemma CutIsShortened(text: seq<byte>)
    requires Utf8.WellFormed(text)
    ensures Utf8.Sanitized(LogTail.Cut(text)) == Shortened(text)
  {
    hide Utf8.Sanitized, Utf8.WellFormed, Utf8Laws.WholeChars, Utf8Laws.Repeat;
    if |text| <= 4096 {
      Utf8Laws.SanitizedFixesWellFormed(text);
    } else {
      Utf8Laws.SanitizedOfCut(text, 4096);
    }
  }

  lemma WantedOfOne(line: Line, keyword: seq<byte>)
    requires line.Valid()
    ensures LogTail.Shown(line.Raw(), keyword) == if Contains(line.text, keyword) then [Shortened(line.text)] else []
    ensures LogTail.Overlong(line.Raw(), keyword) <==> Contains(line.text, keyword) && |line.text| > 4096
  {
    hide Utf8.Sanitized, Utf8.WellFormed, LogTail.Matches, LogTail.Cut, LogTail.Strip, Contains, Shortened, Line.Raw;
    RawHasNoNewline(line);
    MatchesIsContains(line.text, keyword);
    CutIsShortened(line.text);
  }

  predicate AnyLong(texts: seq<seq<byte>>) {
    exists k :: 0 <= k < |texts| && |texts[k]| > 4096
  }

  lemma AnyLongOfMore(text: seq<byte>, texts: seq<seq<byte>>)
    ensures AnyLong([text] + texts) <==> |text| > 4096 || AnyLong(texts)
  {
    var all := [text] + texts;
    if AnyLong(texts) {
      var k :| 0 <= k < |texts| && |texts[k]| > 4096;
      assert |all[k + 1]| > 4096;
    }
    if |text| > 4096 {
      assert |all[0]| > 4096;
    }
  }

  lemma AnyOverlongOfMore(line: seq<byte>, lines: seq<seq<byte>>, keyword: seq<byte>)
    ensures LogTail.AnyOverlong([line] + lines, keyword) <==>
      LogTail.Overlong(line, keyword) || LogTail.AnyOverlong(lines, keyword)
  {
    hide LogTail.Overlong;
    var all := [line] + lines;
    if LogTail.AnyOverlong(lines, keyword) {
      var k :| 0 <= k < |lines| && LogTail.Overlong(lines[k], keyword);
      assert LogTail.Overlong(all[k + 1], keyword);
    }
    assert all[0] == line;
  }

  lemma {:induction false} WantedIsSelected(lines: seq<Line>, keyword: seq<byte>)
    requires AllValid(lines)
    ensures LogTail.Selected(Raws(lines), keyword) == ShortenedAll(Wanted(lines, keyword))
    ensures LogTail.AnyOverlong(Raws(lines), keyword) <==> AnyLong(Wanted(lines, keyword))
  {
    hide LogTail.Shown, LogTail.AnyOverlong, LogTail.Overlong, Contains, Shortened, Line.Raw, Line.Valid, AnyLong;
    if lines == [] {
      NothingLong(keyword);
    } else {
      var line, rest := lines[0], lines[1..];
      WantedIsSelected(rest, keyword);
      WantedOfOne(line, keyword);
      AnyOverlongOfMore(line.Raw(), Raws(rest), keyword);
      AnyLongOfMore(line.text, Wanted(rest, keyword));
      assert Raws(lines)[1..] == Raws(rest);
      assert ([line.text] + Wanted(rest, keyword))[1..] == Wanted(rest, keyword);
      assert [] + Wanted(rest, keyword) == Wanted(rest, keyword);
      assert [] + ShortenedAll(Wanted(rest, keyword)) == ShortenedAll(Wanted(rest, keyword));
    }
  }

  lemma NothingLong(keyword: seq<byte>)
    ensures !AnyLong([]) && !LogTail.AnyOverlong([], keyword)
  {
  }

  // ----- the tail -----

  /** What `ReadLog` answers about any readable log of at most 8 MiB: the last lines that contain the keyword,
      shortened to 4096 bytes, and whether that leaves anything out. */
  lemma TailReadsBack(
    logs: map<string, LogTail.LogFile>, id: string, maxLines: nat, keyword: seq<byte>, lines: seq<Line>)
    requires AllValid(lines) && |Written(lines)| <= 8388608
    requires 1 <= maxLines <= 1000 && |keyword| <= 256
    requires id in logs && logs[id].Opened? && logs[id].contents == Written(lines)
    requires forall p: nat :: logs[id].readable(p)
    ensures var wanted := Wanted(lines, keyword);
      LogTail.ReadOutcome(logs, id, maxLines, keyword) ==
      LogTail.Success(LogTail.LogReadResult(
        Last(ShortenedAll(wanted), maxLines), |wanted| > maxLines || AnyLong(wanted)))
  {
    hide Written, Raws, Wanted, LogTail.Selected, Split, Newlines, LogTail.AnyOverlong, AnyLong, ShortenedAll;
    WrittenIsSplit(lines);
    WantedIsSelected(lines, keyword);
    LogTailLaws.ReadableIsServed(logs, id, maxLines, keyword);
    var r := LogTail.ReadOutcome(logs, id, maxLines, keyword).value;
    var start := LogTail.Scan(logs[id], maxLines, keyword).value;
    LogTailLaws.ServedTail(logs, id, maxLines, keyword, r, start);
    if keyword == [] {
      LogTailLaws.EnoughNewlinesAreEnough(logs, id, maxLines, r, start);
      LogTailLaws.TruncatedIsForward(logs, id, maxLines, r, start);
    } else {
      LogTailLaws.TruncatedForAnyKeyword(logs, id, maxLines, keyword, r, start);
      LogTailLaws.LinesAgreeExactlyWhen(logs, id, maxLines, keyword, r, start);
    }
  }

  // ----- the stream -----

  lemma RawsAreShort(lines: seq<Line>)
    requires forall k :: 0 <= k < |lines| ==> |lines[k].Raw()| <= 4096
    ensures LogFollowLaws.AllShort(Raws(lines))
  {
  }

  lemma {:induction false} ShortTextsStay(lines: seq<Line>, keyword: seq<byte>)
    requires forall k :: 0 <= k < |lines| ==> |lines[k].Raw()| <= 4096
    ensures ShortenedAll(Wanted(lines, keyword)) == Wanted(lines, keyword)
  {
    hide Contains;
    if lines != [] {
      assert |lines[0].Raw()| <= 4096;
      ShortTextsStay(lines[1..], keyword);
      assert ([lines[0].text] + Wanted(lines[1..], keyword))[1..] == Wanted(lines[1..], keyword);
      assert [] + Wanted(lines[1..], keyword) == Wanted(lines[1..], keyword);
    }
  }

  /** What `StreamLog` sends of a log that grows by lines within 4096 bytes, from the end of what was there, under
      any schedule of appends and polls that has read it all: the lines that contain the keyword. */
  lemma StreamReadsBack(
    inode: nat, before: seq<byte>, lines: seq<Line>, polls: seq<Poll>, keyword: seq<byte>)
    requires AllValid(lines) && forall k :: 0 <= k < |lines| ==> |lines[k].Raw()| <= 4096
    requires LogFollowLaws.AppendOnly(polls, inode, |before|, before + Written(lines))
    requires Run(Start(inode, |before|, true), polls, keyword).offset == |before + Written(lines)|
    ensures Run(Start(inode, |before|, true), polls, keyword)
         == Follower(inode, |before + Written(lines)|, [], Wanted(lines, keyword))
  {
    hide Run, Written, Raws, Wanted, Complete, Remainder, Emitted, LogFollowLaws.AppendOnly, LogFollowLaws.AllShort,
      LogFollowLaws.SentAs, LogFollowLaws.LineByLine, ShortenedAll, Line.Raw;
    var log := before + Written(lines);
    LogFollowLaws.FramingIsExact(inode, before, true, polls, log, keyword);
    assert log[|before|..|log|] == Written(lines);
    WrittenIsSplit(lines);
    RawsAreShort(lines);
    assert forall k :: 0 <= k < |lines| ==> |Raws(lines)[k]| <= 4096;
    LogFollowLaws.StreamAgreesWithTail(Raws(lines), keyword);
    WantedIsSelected(lines, keyword);
    ShortTextsStay(lines, keyword);
  }

  /** The stream looks for the keyword in the first 4096 bytes only. */
  ghost function Streamed(lines: seq<Line>, keyword: seq<byte>): (shown: seq<seq<byte>>) {
    if lines == [] then []
    else
      var text := lines[0].text;
      var front := if |text| <= 4096 then text else text[..4096];
      (if Contains(front, keyword) then [Shortened(text)] else []) + Streamed(lines[1..], keyword)
  }

  lemma StreamedOfOne(line: Line, keyword: seq<byte>)
    requires line.Valid()
    ensures var front := if |line.text| <= 4096 then line.text else line.text[..4096];
      Shown(line.Raw(), keyword) == if Contains(front, keyword) then [Shortened(line.text)] else []
  {
    hide Utf8.Sanitized, Utf8.WellFormed, LogTail.Matches, LogTail.Strip, Contains, Shortened, Line.Raw;
    RawHasNoNewline(line);
    MatchesIsContains(LogTail.Cut(line.text), keyword);
    CutIsShortened(line.text);
  }

  lemma {:induction false} StreamedIsEmitted(lines: seq<Line>, keyword: seq<byte>)
    requires AllValid(lines)
    ensures Emitted(Raws(lines), keyword) == Streamed(lines, keyword)
  {
    hide Shown, Contains, Shortened, Line.Raw, Line.Valid;
    if lines != [] {
      StreamedOfOne(lines[0], keyword);
      StreamedIsEmitted(lines[1..], keyword);
      assert Raws(lines)[1..] == Raws(lines[1..]);
    }
  }

  /** One poll that finds lines of any length, up to 64 KiB in all, shows each by its first 4096 bytes. */
  lemma OnePollReadsBack(f: Follower, before: seq<byte>, lines: seq<Line>, keyword: seq<byte>)
    requires AllValid(lines) && |Written(lines)| <= 65536
    requires f.offset == |before| && f.partial == []
    ensures Step(f, Quiet(f.inode, before + Written(lines)), keyword)
         == Follower(f.inode, |before + Written(lines)|, [], f.sent + Streamed(lines, keyword))
  {
    hide Written, Raws, Streamed, Complete, Remainder, Emitted;
    var log := before + Written(lines);
    WrittenIsSplit(lines);
    StreamedIsEmitted(lines, keyword);
    if Written(lines) == [] {
      NothingWritten(lines, keyword);
      assert f.sent + [] == f.sent;
    } else {
      assert Chunk(log, |before|) == Written(lines);
      assert [] + Written(lines) == Written(lines);
    }
  }

  lemma NothingWritten(lines: seq<Line>, keyword: seq<byte>)
    requires Written(lines) == []
    ensures Streamed(lines, keyword) == []
  {
  }
}
