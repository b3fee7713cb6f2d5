/** A log that is cut and grows past the old offset between two polls: exactly when the old text shows. */
module LogRewriteLaws {
  import opened Basics
  import opened Lines
  import opened LogFollow
  import opened LogFollowLaws
  import opened Utf8
  import opened Utf8Laws
  import opened LogBoundaryLaws
  import LogTail
  import LogTailLaws

  /** A file of the same inode that was cut and has grown past the offset is taken for a continuation: what
      is remembered is free of the old text exactly when none was held, a newline ends it, or it is pushed out. */
  lemma RewriteIsForgottenExactlyWhen(f: Follower, contents: seq<byte>, keyword: seq<byte>)
    requires f.offset < |contents| && NEWLINE !in f.partial && |f.partial| <= MAXIMUM_LINE
    ensures var chunk := Chunk(contents, f.offset);
      (Step(f, Quiet(f.inode, contents), keyword).partial == KeepLast(Remainder(chunk)) <==>
       f.partial == [] || NEWLINE in chunk || |chunk| >= MAXIMUM_LINE)
  {
    hide Complete, Remainder, Emitted, FirstNewline;
    var chunk := Chunk(contents, f.offset);
    FirstNewlineIs(chunk, FirstNewline(chunk));
    assert chunk[..|chunk|] == chunk;
    assert [] + chunk == chunk;
    RemainderOfNoNewline(f.partial, chunk);
    if NEWLINE !in chunk {
      UnfinishedLine(chunk);
      KeepsMore(f.partial, chunk);
    } else if FirstNewline(chunk) == |chunk| {
      assert false;
    }
  }

  lemma KeepsMore(held: seq<byte>, chunk: seq<byte>)
    requires |held| <= MAXIMUM_LINE
    ensures KeepLast(held + chunk) == KeepLast(chunk) <==> held == [] || |chunk| >= MAXIMUM_LINE
  {
    assert held == [] ==> held + chunk == chunk;
    assert held != [] && |chunk| < MAXIMUM_LINE ==> |KeepLast(held + chunk)| > |chunk|;
  }

  /** Its messages are free of the old text exactly when none was held, no line ends, or the first line is
      shown alike with the old text before it. */
  lemma RewriteIsShownExactlyWhen(f: Follower, contents: seq<byte>, keyword: seq<byte>)
    requires f.offset < |contents| && NEWLINE !in f.partial
    ensures var chunk := Chunk(contents, f.offset);
      var line := chunk[..FirstNewline(chunk)];
      (Step(f, Quiet(f.inode, contents), keyword).sent == f.sent + Emitted(Complete(chunk), keyword) <==>
       f.partial == [] || NEWLINE !in chunk || Shown(f.partial + line, keyword) == Shown(line, keyword))
  {
    hide Complete, Remainder, FirstNewline, KeepLast, Shown;
    var chunk := Chunk(contents, f.offset);
    var i := FirstNewline(chunk);
    FirstNewlineIs(chunk, i);
    assert chunk[..|chunk|] == chunk;
    assert [] + chunk == chunk;
    RemainderOfNoNewline(f.partial, chunk);
    AfterFirstNewline(chunk);
    SameEnd(f.sent, Emitted(Complete(f.partial + chunk), keyword), Emitted(Complete(chunk), keyword));
    if i < |chunk| {
      var line, rest := chunk[..i], Complete(chunk[i + 1..]);
      EmittedOfConcat([line], rest, keyword);
      EmittedOfConcat([f.partial + line], rest, keyword);
      EmittedOfOne(line, keyword);
      EmittedOfOne(f.partial + line, keyword);
      LogTailLaws.SameFront(Shown(f.partial + line, keyword), Shown(line, keyword), Emitted(rest, keyword));
    }
  }

  /** For bytes below 0x80 and no keyword: when a line is shown alike with `held` before it. */
  lemma ShownAlikeExactlyWhen(held: seq<byte>, line: seq<byte>)
    requires held != [] && forall k :: 0 <= k < |held + line| ==> (held + line)[k] < 0x80
    ensures Shown(held + line, []) == Shown(line, []) <==>
      || (line == [] && held == [CARRIAGE_RETURN])
      || (|LogTail.Strip(line)| >= MAXIMUM_LINE && (held + line)[..MAXIMUM_LINE] == line[..MAXIMUM_LINE])
  {
    hide LogTail.Matches, Sanitized, WellFormed;
    var a, b := LogTail.Strip(held + line), LogTail.Strip(line);
    LogTail.MatchesNothing(LogTail.Cut(a));
    LogTail.MatchesNothing(LogTail.Cut(b));
    assert forall k :: 0 <= k < |line| ==> line[k] == (held + line)[|held| + k];
    PlainIsWellFormed(LogTail.Cut(a));
    PlainIsWellFormed(LogTail.Cut(b));
    SanitizedFixesWellFormed(LogTail.Cut(a));
    SanitizedFixesWellFormed(LogTail.Cut(b));
    if line == [] {
      assert held + line == held;
    } else {
      assert a == held + b && b == line[..|b|];
      if |b| >= MAXIMUM_LINE {
        assert LogTail.Cut(b) == line[..MAXIMUM_LINE];
        assert LogTail.Cut(a) == (held + line)[..MAXIMUM_LINE];
      } else {
        assert |LogTail.Cut(a)| > |LogTail.Cut(b)|;
      }
    }
  }

  lemma PlainParts(a: seq<byte>, b: seq<byte>, from: nat, to: nat)
    requires from <= to <= |b| && forall k :: 0 <= k < |a + b| ==> (a + b)[k] < 0x80
    ensures forall k :: 0 <= k < |a + b[from..to]| ==> (a + b[from..to])[k] < 0x80
  {
    forall k | 0 <= k < |a + b[from..to]| ensures (a + b[from..to])[k] < 0x80 {
      var j: nat := if k < |a| then k else k + from;
      assert (a + b[from..to])[k] == (a + b)[j];
    }
  }

  /** Put together, for text of bytes below 0x80 and no keyword: the messages are free of the old text exactly
      when none was held, no line ends, or the first new line hides it: by beginning with its own repetition
      for 4096 bytes, or by being the rest of a carriage return and newline. */
  lemma PlainRewriteIsShownExactlyWhen(f: Follower, contents: seq<byte>)
    requires f.offset < |contents| && NEWLINE !in f.partial
    requires forall k :: 0 <= k < |f.partial + contents| ==> (f.partial + contents)[k] < 0x80
    ensures var chunk := Chunk(contents, f.offset);
      var line := chunk[..FirstNewline(chunk)];
      (Step(f, Quiet(f.inode, contents), []).sent == f.sent + Emitted(Complete(chunk), []) <==>
       || f.partial == [] || NEWLINE !in chunk
       || (line == [] && f.partial == [CARRIAGE_RETURN])
       || (|LogTail.Strip(line)| >= MAXIMUM_LINE && (f.partial + line)[..MAXIMUM_LINE] == line[..MAXIMUM_LINE]))
  {
    hide Complete, Emitted, FirstNewline, Step, LogTail.Strip;
    var chunk := Chunk(contents, f.offset);
    var line := chunk[..FirstNewline(chunk)];
    RewriteIsShownExactlyWhen(f, contents, []);
    if f.partial != [] {
      assert line == contents[f.offset..f.offset + |line|];
      PlainParts(f.partial, contents, f.offset, f.offset + |line|);
      ShownAlikeExactlyWhen(f.partial, line);
    }
  }

  lemma ShortAsciiIsShown(line: seq<byte>)
    requires |line| <= MAXIMUM_LINE && !EndsInReturn(line) && forall k :: 0 <= k < |line| ==> line[k] < 0x80
    ensures Shown(line, []) == [line]
  {
    PlainIsWellFormed(line);
    SanitizedFixesWellFormed(line);
  }

  lemma HoldsUnfinished(f: Follower, chunk: seq<byte>, keyword: seq<byte>)
    requires f.partial == [] && NEWLINE !in chunk && |chunk| <= MAXIMUM_LINE
    ensures Absorb(f, chunk, keyword) == f.(offset := f.offset + |chunk|, partial := chunk)
  {
    hide Complete, Remainder, Emitted;
    assert [] + chunk == chunk;
    UnfinishedLine(chunk);
    EmittedNothing(keyword);
  }

  /** A log that held "old" holds "newer" at the next poll: "older" is sent, which no log ever held. */
  lemma UnnoticedRewrite()
    ensures var was, newer, older := [111, 108, 100], [110, 101, 119, 101, 114], [111, 108, 100, 101, 114];
      Run(Start(7, 0, false), [Quiet(7, was), Quiet(7, newer + [NEWLINE])], []).sent == [older]
  {
    hide Run, Shown, Complete, Remainder, Emitted, Absorb;
    var f, was, newer := Start(7, 0, false), [111, 108, 100], [110, 101, 119, 101, 114];
    var first, second := Quiet(7, was), Quiet(7, newer + [NEWLINE]);
    assert [first, second] == [first] + [second];
    RunOfConcat(f, [first], [second], []);
    RunOne(f, first, []);
    assert Chunk(was, 0) == was;
    var g := Follower(7, 3, was, []);
    assert Step(f, first, []) == g by {
      HoldsUnfinished(f, was, []);
    }
    RunOne(g, second, []);
    assert Chunk(newer + [NEWLINE], 3) == [101, 114] + [NEWLINE];
    AbsorbLineEnd(g, [101, 114], []);
    assert was + [101, 114] == [111, 108, 100, 101, 114];
    ShortAsciiIsShown(was + [101, 114]);
  }
}
