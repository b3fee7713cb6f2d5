/** `EdgeScopeServiceImpl::StreamLog`: following a log file as it grows, is rotated or truncated. */
module LogFollow {
  import opened Basics
  import opened Lines
  import Utf8
  import LogTail

  const STREAM_READ_SIZE: nat := 65536
  const MAXIMUM_LINE: nat := 4096
  const MAXIMUM_KEYWORD: nat := 256

  /** What one round of the loop sees: `stat` fails, or it reports an inode and a size, after which the
      file is opened and found to hold `contents`. The two may differ, since the log can change in between;
      a file that cannot be opened gives nothing to read. */
  datatype Poll = Missing | Seen(inode: nat, size: nat, contents: seq<byte>)

  /** A poll during which the log does not change. */
  function Quiet(inode: nat, contents: seq<byte>): (r: Poll)
    ensures r.Seen? && r.size == |r.contents|
  {
    Seen(inode, |contents|, contents)
  }

  /** The state of one stream between two polls. `sent` is what it has written so far. */
  datatype Follower = Follower(inode: nat, offset: nat, partial: seq<byte>, sent: seq<seq<byte>>)

  datatype StreamOutcome = InvalidArgument | NotFound | Streamed(sent: seq<seq<byte>>)

  // ----- one line -----

  /** What is written for one complete line: it is cut before the keyword is looked for. */
  function Shown(line: seq<byte>, keyword: seq<byte>): (r: seq<seq<byte>>)
    ensures |r| <= 1
  {
    var cut := LogTail.Cut(LogTail.Strip(line));
    if LogTail.Matches(cut, keyword) then [Utf8.Sanitized(cut)] else []
  }

  function Emitted(lines: seq<seq<byte>>, keyword: seq<byte>): (r: seq<seq<byte>>) {
    if lines == [] then [] else Shown(lines[0], keyword) + Emitted(lines[1..], keyword)
  }

  /** An unfinished line is remembered by its last bytes. */
  function KeepLast(line: seq<byte>): (r: seq<byte>)
    ensures |r| <= MAXIMUM_LINE
  {
    if |line| > MAXIMUM_LINE then line[|line| - MAXIMUM_LINE..] else line
  }

  // ----- one poll -----

  predicate Rotated(f: Follower, poll: Poll) {
    poll.Seen? && (poll.inode != f.inode || poll.size < f.offset)
  }

  function Restarted(f: Follower, poll: Poll): Follower
    requires poll.Seen?
  {
    if Rotated(f, poll) then f.(inode := poll.inode, offset := 0, partial := []) else f
  }

  /** The bytes that one read from offset `from` on returns: past the end there are none. */
  function Chunk(contents: seq<byte>, from: nat): (r: seq<byte>)
    ensures |r| <= STREAM_READ_SIZE
  {
    if from >= |contents| then []
    else contents[from..if |contents| - from > STREAM_READ_SIZE then from + STREAM_READ_SIZE else |contents|]
  }

  /** The bytes that a poll reads. */
  function Appended(f: Follower, poll: Poll): (r: seq<byte>)
    ensures |r| <= STREAM_READ_SIZE
  {
    if poll.Seen? && poll.size > Restarted(f, poll).offset then Chunk(poll.contents, Restarted(f, poll).offset)
    else []
  }

  function Absorb(f: Follower, chunk: seq<byte>, keyword: seq<byte>): Follower {
    var text := f.partial + chunk;
    f.(offset := f.offset + |chunk|,
       partial := KeepLast(Remainder(text)),
       sent := f.sent + Emitted(Complete(text), keyword))
  }

  function Step(f: Follower, poll: Poll, keyword: seq<byte>): (r: Follower)
    ensures f.sent <= r.sent
  {
    if poll.Missing? then f
    else
      var g := Restarted(f, poll);
      if poll.size > g.offset then Absorb(g, Appended(f, poll), keyword) else g
  }

  function Run(f: Follower, polls: seq<Poll>, keyword: seq<byte>): (r: Follower)
    ensures f.sent <= r.sent
    decreases |polls|
  {
    if polls == [] then f else Run(Step(f, polls[0], keyword), polls[1..], keyword)
  }

  /** The state a stream begins in, on a log of `size` bytes. */
  function Start(inode: nat, size: nat, startAtEnd: bool): Follower {
    var offset := if startAtEnd then size else if size > STREAM_READ_SIZE then size - STREAM_READ_SIZE else 0;
    Follower(inode, offset, [], [])
  }

  lemma {:induction false} EmittedOfConcat(a: seq<seq<byte>>, b: seq<seq<byte>>, keyword: seq<byte>)
    ensures Emitted(a + b, keyword) == Emitted(a, keyword) + Emitted(b, keyword)
  {
    hide Shown;
    if a == [] {
      assert a + b == b;
    } else {
      assert (a + b)[1..] == a[1..] + b;
      EmittedOfConcat(a[1..], b, keyword);
      Associate(Shown(a[0], keyword), Emitted(a[1..], keyword), Emitted(b, keyword));
    }
  }

  // ----- the method -----

  /** `find('\n')` */
  method FindNewline(text: seq<byte>) returns (newline: nat)
    ensures newline == FirstNewline(text)
  {
    newline := 0;
    while newline < |text| && text[newline] != NEWLINE
      invariant newline <= |text|
      invariant NEWLINE !in text[..newline]
    {
      newline := newline + 1;
    }
    FirstNewlineIs(text, newline);
  }

  lemma EmittedStep(text: seq<byte>, keyword: seq<byte>)
    ensures var i := FirstNewline(text);
      if i < |text| then
        && Emitted(Complete(text), keyword) ==
             Shown(text[..i], keyword) + Emitted(Complete(text[i + 1..]), keyword)
        && Remainder(text) == Remainder(text[i + 1..])
      else
        Emitted(Complete(text), keyword) == [] && Remainder(text) == text
  {
    hide Shown;
    var i := FirstNewline(text);
    if i < |text| {
      assert ([text[..i]] + Complete(text[i + 1..]))[1..] == Complete(text[i + 1..]);
    }
  }

  function Accepted(sent: seq<seq<byte>>, accepts: nat): (r: seq<seq<byte>>)
    ensures r <= sent && |r| == if |sent| < accepts then |sent| else accepts
  {
    if |sent| > accepts then sent[..accepts] else sent
  }

  /** Writes the complete lines of `text`; the client takes `accepts` lines in all before `Write` fails. */
  method WriteLines(text: seq<byte>, before: seq<seq<byte>>, keyword: seq<byte>, accepts: nat)
    returns (rest: seq<byte>, sent: seq<seq<byte>>, open: bool)
    requires |before| <= accepts
    ensures var all := before + Emitted(Complete(text), keyword);
      && sent == Accepted(all, accepts)
      && (open <==> |all| <= accepts)
      && (open ==> rest == Remainder(text))
  {
    hide Shown, Emitted, Complete, Remainder;
    rest, sent := text, before;
    ghost var all := before + Emitted(Complete(text), keyword);
    var newline := FindNewline(rest);
    while newline < |rest|
      invariant newline == FirstNewline(rest)
      invariant sent + Emitted(Complete(rest), keyword) == all
      invariant |sent| <= accepts
      invariant Remainder(rest) == Remainder(text)
      decreases |rest|
    {
      EmittedStep(rest, keyword);
      var line := rest[..newline];
      ghost var raw := line;
      rest := rest[newline + 1..];
      ShownIs(raw, keyword);
      Associate(sent, Shown(raw, keyword), Emitted(Complete(rest), keyword));
      newline := FindNewline(rest);
      if line != [] && line[|line| - 1] == CARRIAGE_RETURN {
        line := line[..|line| - 1];
      }
      if |line| > MAXIMUM_LINE {
        line := line[..MAXIMUM_LINE];
      }
      if keyword != [] && !LogTail.Matches(line, keyword) {
        assert sent + [] == sent;
        continue;
      }
      var output := Utf8.SanitizeUtf8(line);
      if |sent| == accepts {
        assert all[..accepts] == sent;
        return rest, sent, false;
      }
      sent := sent + [output];
    }
    EmittedStep(rest, keyword);
    assert sent + [] == sent;
    open := true;
  }

  lemma ShownIs(line: seq<byte>, keyword: seq<byte>)
    ensures var cut := LogTail.Cut(LogTail.Strip(line));
      Shown(line, keyword) ==
      if keyword != [] && !LogTail.Matches(cut, keyword) then [] else [Utf8.Sanitized(cut)]
  {
  }

  /** `polls` are the rounds of the loop until the client cancels. */
  method StreamLog(known: bool, first: Poll, polls: seq<Poll>, keyword: seq<byte>, startAtEnd: bool, accepts: nat)
    returns (outcome: StreamOutcome)
    ensures outcome ==
      if |keyword| > 256 || !known then InvalidArgument
      else if first.Missing? then NotFound
      else Streamed(Accepted(Run(Start(first.inode, first.size, startAtEnd), polls, keyword).sent, accepts))
  {
    hide Emitted, Complete, Remainder, KeepLast, Run;
    if |keyword| > MAXIMUM_KEYWORD || !known {
      return InvalidArgument;
    }
    if first.Missing? {
      return NotFound;
    }
    var initialSize := first.size;
    var offset: nat := if startAtEnd then initialSize
                       else if initialSize > STREAM_READ_SIZE then initialSize - STREAM_READ_SIZE else 0;
    var inode: nat, partialLine := first.inode, [];
    var sent: seq<seq<byte>> := [];
    var i := 0;
    ghost var start := Start(first.inode, initialSize, startAtEnd);
    assert polls[0..] == polls;
    while i < |polls|
      invariant 0 <= i <= |polls|
      invariant |sent| <= accepts
      invariant Run(start, polls, keyword) == Run(Follower(inode, offset, partialLine, sent), polls[i..], keyword)
    {
      ghost var f := Follower(inode, offset, partialLine, sent);
      RunStep(f, polls, i, keyword);
      var poll := polls[i];
      i := i + 1;
      if poll.Missing? {
        continue;
      }
      if poll.inode != inode || poll.size < offset {
        inode := poll.inode;
        offset := 0;
        partialLine := [];
      }
      if poll.size > offset {
        var appended := Chunk(poll.contents, offset);
        offset := offset + |appended|;
        partialLine := partialLine + appended;
        var open;
        ghost var text := partialLine;
        partialLine, sent, open := WriteLines(partialLine, sent, keyword, accepts);
        ghost var g := Step(f, poll, keyword);
        assert g == Absorb(Restarted(f, poll), appended, keyword);
        if !open {
          CutShort(g, polls[i..], sent, keyword, accepts);
          return Streamed(sent);
        }
        partialLine := CapPartial(partialLine);
      }
    }
    RunNothing(Follower(inode, offset, partialLine, sent), keyword);
    assert polls[i..] == [];
    outcome := Streamed(sent);
  }

  method CapPartial(line: seq<byte>) returns (r: seq<byte>)
    ensures r == KeepLast(line)
  {
    r := line;
    if |r| > MAXIMUM_LINE {
      r := r[|r| - MAXIMUM_LINE..];
    }
  }

  lemma RunStep(f: Follower, polls: seq<Poll>, i: nat, keyword: seq<byte>)
    requires i < |polls|
    ensures Run(f, polls[i..], keyword) == Run(Step(f, polls[i], keyword), polls[i + 1..], keyword)
  {
    assert polls[i..][1..] == polls[i + 1..];
  }

  lemma RunNothing(f: Follower, keyword: seq<byte>)
    ensures Run(f, [], keyword) == f
  {
  }

  /** A failed write ends the stream: what was sent is a prefix of what an obliging client would get. */
  lemma CutShort(g: Follower, polls: seq<Poll>, sent: seq<seq<byte>>, keyword: seq<byte>, accepts: nat)
    requires |g.sent| > accepts && sent == g.sent[..accepts]
    ensures sent == Accepted(Run(g, polls, keyword).sent, accepts)
  {
    var all := Run(g, polls, keyword).sent;
    assert g.sent == all[..|g.sent|];
  }
}
