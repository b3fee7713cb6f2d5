/** What a followed log delivers: how its lines are cut, remembered and sent, however its growth, its rotations
    and its truncations fall across polls. */
module LogFollowLaws {
  import opened Basics
  import opened Lines
  import opened LogFollow
  import Utf8
  import Utf8Laws
  import LogTail
  import LogTailLaws

  // ----- the remembered part of an unfinished line -----

  lemma KeepLastOfConcat(r: seq<byte>, chunk: seq<byte>)
    ensures KeepLast(KeepLast(r) + chunk) == KeepLast(r + chunk)
  {
  }

  lemma KeepLastIs(line: seq<byte>)
    ensures KeepLast(line) == Last(line, 4096)
  {
  }

  lemma KeepLastOfNoNewline(r: seq<byte>)
    requires NEWLINE !in r
    ensures NEWLINE !in KeepLast(r)
  {
  }

  lemma RemainderOfNoNewline(r: seq<byte>, chunk: seq<byte>)
    requires NEWLINE !in r
    ensures FirstNewline(chunk) == |chunk| ==> Remainder(r + chunk) == r + chunk && Complete(r + chunk) == []
    ensures FirstNewline(chunk) < |chunk| ==>
      && Remainder(r + chunk) == Remainder(chunk)
      && Complete(r + chunk) ==
           [r + chunk[..FirstNewline(chunk)]] + Complete(chunk[FirstNewline(chunk) + 1..])
  {
    hide FirstNewline;
    var i := FirstNewline(chunk);
    FirstNewlineOfConcat(r, chunk);
    if i < |chunk| {
      assert (r + chunk)[..|r| + i] == r + chunk[..i];
      assert (r + chunk)[|r| + i + 1..] == chunk[i + 1..];
    }
  }

  /** Forgetting the front of a long unfinished line never changes what is remembered later. */
  lemma RememberedIsPathIndependent(text: seq<byte>, chunk: seq<byte>)
    ensures KeepLast(Remainder(KeepLast(Remainder(text)) + chunk)) == KeepLast(Remainder(text + chunk))
  {
    var r := Remainder(text);
    RemainderIsSuffix(text);
    FramingOfConcat(text, chunk);
    hide Remainder, Complete;
    KeepLastOfNoNewline(r);
    RemainderOfNoNewline(r, chunk);
    RemainderOfNoNewline(KeepLast(r), chunk);
    KeepLastOfConcat(r, chunk);
  }

  // ----- how one chunk cuts the lines it completes -----

  /** `k` bytes of the line were held when the chunk with the rest of it and its newline came. */
  predicate Reachable(line: seq<byte>, k: nat) {
    k <= |line| < k + STREAM_READ_SIZE
  }

  /** What is then taken for the line: of the bytes held, only the last 4096 are left. */
  function Arrived(line: seq<byte>, k: nat): (r: seq<byte>)
    requires k <= |line|
    ensures k <= MAXIMUM_LINE ==> r == line
    ensures k > MAXIMUM_LINE ==> r == line[k - MAXIMUM_LINE..]
  {
    KeepLast(line[..k]) + line[k..]
  }

  predicate Fits(lines: seq<seq<byte>>, cuts: seq<nat>) {
    |lines| == |cuts| && forall j :: 0 <= j < |lines| ==> Reachable(lines[j], cuts[j])
  }

  /** The lines as they arrived, line `j` across a boundary after `cuts[j]` bytes. */
  function Received(lines: seq<seq<byte>>, cuts: seq<nat>): (r: seq<seq<byte>>)
    requires Fits(lines, cuts)
    ensures |r| == |lines|
    ensures forall j :: 0 <= j < |lines| && |lines[j]| <= MAXIMUM_LINE ==> r[j] == lines[j]
  {
    assert forall j :: 0 <= j < |lines| ==> Reachable(lines[j], cuts[j]);
    seq(|lines|, j requires 0 <= j < |lines| && cuts[j] <= |lines[j]| => Arrived(lines[j], cuts[j]))
  }

  lemma ReceivedOfConcat(a: seq<seq<byte>>, b: seq<seq<byte>>, cutsA: seq<nat>, cutsB: seq<nat>)
    requires Fits(a, cutsA) && Fits(b, cutsB)
    ensures Fits(a + b, cutsA + cutsB)
    ensures Received(a + b, cutsA + cutsB) == Received(a, cutsA) + Received(b, cutsB)
  {
    hide Arrived, Reachable;
  }

  /** No line is longer than 4096 bytes, carriage returns included. */
  predicate AllShort(lines: seq<seq<byte>>) {
    forall j :: 0 <= j < |lines| ==> |lines[j]| <= MAXIMUM_LINE
  }

  lemma ReceivedOfShort(lines: seq<seq<byte>>, cuts: seq<nat>)
    requires Fits(lines, cuts) && AllShort(lines)
    ensures Received(lines, cuts) == lines
  {
    hide Arrived, Reachable;
  }

  /** Only the first line that a chunk completes can have begun before it. */
  function NewCuts(held: nat, chunk: seq<byte>): (cuts: seq<nat>) {
    var n := |Complete(chunk)|;
    if n == 0 then [] else [held] + seq(n - 1, _ => 0)
  }

  lemma {:induction false} CompleteLinesAreShorter(s: seq<byte>)
    ensures forall j :: 0 <= j < |Complete(s)| ==> |Complete(s)[j]| < |s|
    decreases |s|
  {
    hide FirstNewline, Complete;
    AfterFirstNewline(s);
    var i := FirstNewline(s);
    if i < |s| {
      CompleteLinesAreShorter(s[i + 1..]);
    }
  }

  lemma ReceivedOfZeros(lines: seq<seq<byte>>, zeros: seq<nat>)
    requires |zeros| == |lines| && forall j :: 0 <= j < |lines| ==> zeros[j] == 0 && |lines[j]| < STREAM_READ_SIZE
    ensures Fits(lines, zeros) && Received(lines, zeros) == lines
  {
  }

  lemma ReceivedOfOne(line: seq<byte>, k: nat)
    requires Reachable(line, k)
    ensures Fits([line], [k]) && Received([line], [k]) == [Arrived(line, k)]
  {
    hide Arrived;
  }

  lemma NothingReceived()
    ensures Fits([], []) && Received([], []) == []
  {
  }

  lemma ArrivedHeld(r: seq<byte>, more: seq<byte>)
    ensures Arrived(r + more, |r|) == KeepLast(r) + more
  {
    hide KeepLast;
    assert (r + more)[..|r|] == r && (r + more)[|r|..] == more;
  }

  lemma ReceivedAcross(r: seq<byte>, more: seq<byte>, rest: seq<seq<byte>>, zeros: seq<nat>)
    requires |more| < STREAM_READ_SIZE
    requires |zeros| == |rest| && forall j :: 0 <= j < |rest| ==> zeros[j] == 0 && |rest[j]| < STREAM_READ_SIZE
    ensures Fits([r + more] + rest, [|r|] + zeros)
    ensures Received([r + more] + rest, [|r|] + zeros) == [KeepLast(r) + more] + rest
  {
    hide Fits, Received, Arrived, KeepLast;
    ReceivedOfZeros(rest, zeros);
    ReceivedOfOne(r + more, |r|);
    ArrivedHeld(r, more);
    ReceivedOfConcat([r + more], rest, [|r|], zeros);
  }

  /** The lines cut from what was remembered and a chunk are the complete lines as they arrive. */
  lemma ChunkIsReceived(r: seq<byte>, chunk: seq<byte>)
    requires NEWLINE !in r && |chunk| <= STREAM_READ_SIZE
    ensures Fits(Complete(r + chunk), NewCuts(|r|, chunk))
    ensures Complete(KeepLast(r) + chunk) == Received(Complete(r + chunk), NewCuts(|r|, chunk))
  {
    hide Complete, Remainder, FirstNewline, KeepLast, Fits, Received;
    var i := FirstNewline(chunk);
    KeepLastOfNoNewline(r);
    RemainderOfNoNewline(r, chunk);
    RemainderOfNoNewline(KeepLast(r), chunk);
    AfterFirstNewline(chunk);
    if i < |chunk| {
      var rest := Complete(chunk[i + 1..]);
      CompleteLinesAreShorter(chunk[i + 1..]);
      var zeros: seq<nat> := seq(|rest|, _ => 0);
      assert NewCuts(|r|, chunk) == [|r|] + zeros;
      ReceivedAcross(r, chunk[..i], rest, zeros);
    } else {
      NothingReceived();
    }
  }

  // ----- the history of a stream -----

  /** The texts consumed so far, one for each incarnation of the file that has been left behind, and the
      current one: `read` is everything below the offset, of which the bytes from `start` on were consumed.
      `cuts` says across which boundary each complete line arrived. */
  datatype History = History(past: seq<seq<byte>>, cuts: seq<nat>, read: seq<byte>, start: nat) {
    predicate Valid() {
      start <= |read|
    }

    function Text(): (t: seq<byte>)
      requires Valid()
    {
      read[start..]
    }

    function Texts(): (texts: seq<seq<byte>>)
      requires Valid()
    {
      past + [Text()]
    }

    /** The complete lines of every text in turn. */
    function Lines(): (lines: seq<seq<byte>>)
      requires Valid()
    {
      AllComplete(past) + Complete(Text())
    }

    function LeftBehind(): (h: History)
      requires Valid()
      ensures h.Valid()
    {
      History(past + [Text()], cuts, [], 0)
    }

    function Extended(chunk: seq<byte>): (h: History)
      requires Valid()
      ensures h.Valid() && h.Text() == Text() + chunk
    {
      History(past, cuts + NewCuts(|Remainder(Text())|, chunk), read + chunk, start)
    }
  }

  function AllComplete(texts: seq<seq<byte>>): (lines: seq<seq<byte>>) {
    if texts == [] then [] else Complete(texts[0]) + AllComplete(texts[1..])
  }

  lemma {:induction false} AllCompleteOfOneMore(texts: seq<seq<byte>>, text: seq<byte>)
    ensures AllComplete(texts + [text]) == AllComplete(texts) + Complete(text)
  {
    hide Complete;
    if texts == [] {
      assert (texts + [text])[1..] == [];
    } else {
      assert (texts + [text])[1..] == texts[1..] + [text];
      AllCompleteOfOneMore(texts[1..], text);
      Associate(Complete(texts[0]), AllComplete(texts[1..]), Complete(text));
    }
  }

  /** What one poll adds to the history. */
  function Recorded(h: History, f: Follower, poll: Poll): (r: History)
    requires h.Valid() && |h.read| == f.offset
    ensures r.Valid()
    ensures forall keyword :: |r.read| == Step(f, poll, keyword).offset
  {
    var g := if Rotated(f, poll) then h.LeftBehind() else h;
    if poll.Seen? && poll.size > Restarted(f, poll).offset then g.Extended(Appended(f, poll)) else g
  }

  /** The stream has remembered the end of the current text only, and has written the complete lines of
      every text, each as it arrived, and nothing else. */
  predicate InStep(h: History, f: Follower, keyword: seq<byte>) {
    && h.Valid()
    && |h.read| == f.offset
    && f.partial == KeepLast(Remainder(h.Text()))
    && Fits(h.Lines(), h.cuts)
    && f.sent == Emitted(Received(h.Lines(), h.cuts), keyword)
  }

  lemma StartsInStep(inode: nat, contents: seq<byte>, startAtEnd: bool, keyword: seq<byte>)
    ensures var f := Start(inode, |contents|, startAtEnd);
      f.offset <= |contents| && InStep(History([], [], contents[..f.offset], f.offset), f, keyword)
  {
    var f := Start(inode, |contents|, startAtEnd);
    assert History([], [], contents[..f.offset], f.offset).Text() == [];
  }

  lemma RestartKeepsStep(h: History, f: Follower, poll: Poll, keyword: seq<byte>)
    requires InStep(h, f, keyword) && Rotated(f, poll)
    ensures InStep(h.LeftBehind(), Restarted(f, poll), keyword)
  {
    hide Emitted, Received, AllComplete, Fits;
    var g := h.LeftBehind();
    assert g.Text() == [];
    UnfinishedLine([]);
    AllCompleteOfOneMore(h.past, h.Text());
    assert g.Lines() == h.Lines() + [] == h.Lines();
  }

  lemma AbsorbKeepsStep(h: History, f: Follower, chunk: seq<byte>, keyword: seq<byte>)
    requires InStep(h, f, keyword) && |chunk| <= STREAM_READ_SIZE
    ensures InStep(h.Extended(chunk), Absorb(f, chunk, keyword), keyword)
  {
    hide Emitted, Complete, Remainder, AllComplete, Received, Fits, NewCuts, KeepLast;
    var text := h.Text();
    var r, g := Remainder(text), h.Extended(chunk);
    RememberedIsPathIndependent(text, chunk);
    RemainderIsSuffix(text);
    FramingOfConcat(text, chunk);
    Associate(AllComplete(h.past), Complete(text), Complete(r + chunk));
    assert g.Lines() == h.Lines() + Complete(r + chunk);
    ChunkIsReceived(r, chunk);
    ReceivedOfConcat(h.Lines(), Complete(r + chunk), h.cuts, NewCuts(|r|, chunk));
    EmittedOfConcat(
      Received(h.Lines(), h.cuts), Received(Complete(r + chunk), NewCuts(|r|, chunk)), keyword);
  }

  lemma StepKeepsStep(h: History, f: Follower, poll: Poll, keyword: seq<byte>)
    requires InStep(h, f, keyword)
    ensures InStep(Recorded(h, f, poll), Step(f, poll, keyword), keyword)
  {
    hide InStep, KeepLast, Remainder, Absorb, History.Extended, History.LeftBehind;
    InStepIsValid(h, f, keyword);
    if Rotated(f, poll) {
      RestartKeepsStep(h, f, poll, keyword);
    }
    if poll.Seen? && poll.size > Restarted(f, poll).offset {
      var g := if Rotated(f, poll) then h.LeftBehind() else h;
      AbsorbKeepsStep(g, Restarted(f, poll), Appended(f, poll), keyword);
    }
  }

  lemma InStepIsValid(h: History, f: Follower, keyword: seq<byte>)
    requires InStep(h, f, keyword)
    ensures h.Valid() && |h.read| == f.offset
  {
  }

  // ----- whole runs -----

  ghost function HistoryAfter(h: History, f: Follower, polls: seq<Poll>, keyword: seq<byte>): (r: History)
    requires h.Valid() && |h.read| == f.offset
    ensures r.Valid()
    decreases |polls|
  {
    if polls == [] then h
    else HistoryAfter(Recorded(h, f, polls[0]), Step(f, polls[0], keyword), polls[1..], keyword)
  }

  lemma {:induction false} RunOfConcat(f: Follower, a: seq<Poll>, b: seq<Poll>, keyword: seq<byte>)
    ensures Run(f, a + b, keyword) == Run(Run(f, a, keyword), b, keyword)
    decreases |a|
  {
    hide Step;
    if a == [] {
      assert a + b == b;
    } else {
      assert (a + b)[1..] == a[1..] + b;
      RunOfConcat(Step(f, a[0], keyword), a[1..], b, keyword);
    }
  }

  lemma RunOne(f: Follower, poll: Poll, keyword: seq<byte>)
    ensures Run(f, [poll], keyword) == Step(f, poll, keyword)
  {
    hide Step;
    assert [poll][1..] == [];
  }

  /** Whatever the polls see, across any number of rotations and truncations: the unfinished line never
      mixes two texts, and what was written is the complete lines of each text in turn, as they arrived. */
  lemma {:induction false} RunStaysInStep(h: History, f: Follower, polls: seq<Poll>, keyword: seq<byte>)
    requires InStep(h, f, keyword)
    ensures InStep(HistoryAfter(h, f, polls, keyword), Run(f, polls, keyword), keyword)
    decreases |polls|
  {
    hide InStep, Recorded, Step;
    InStepIsValid(h, f, keyword);
    if polls != [] {
      StepKeepsStep(h, f, polls[0], keyword);
      RunStaysInStep(Recorded(h, f, polls[0]), Step(f, polls[0], keyword), polls[1..], keyword);
    }
  }

  lemma EmittedOfOne(line: seq<byte>, keyword: seq<byte>)
    ensures Emitted([line], keyword) == Shown(line, keyword)
  {
    hide Shown;
    assert [line][1..] == [];
    assert Shown(line, keyword) + [] == Shown(line, keyword);
  }

  lemma EmittedNothing(keyword: seq<byte>)
    ensures Emitted([], keyword) == []
  {
  }

  /** Without a keyword, message `j` is line `j`, and a line that fits in 4096 bytes is shown whole. */
  predicate LineByLine(lines: seq<seq<byte>>, sent: seq<seq<byte>>) {
    && |sent| == |lines|
    && forall j :: 0 <= j < |lines| && |lines[j]| <= MAXIMUM_LINE ==> sent[j] == Utf8.Sanitized(LogTail.Strip(lines[j]))
  }

  lemma {:induction false} EmittedWithoutKeyword(lines: seq<seq<byte>>)
    ensures |Emitted(lines, [])| == |lines|
    ensures forall j :: 0 <= j < |lines| ==>
      Emitted(lines, [])[j] == Utf8.Sanitized(LogTail.Cut(LogTail.Strip(lines[j])))
  {
    hide Utf8.Sanitized, LogTail.Cut, LogTail.Strip;
    if lines != [] {
      EmittedWithoutKeyword(lines[1..]);
    }
  }

  lemma ReceivedLineByLine(lines: seq<seq<byte>>, cuts: seq<nat>)
    requires Fits(lines, cuts)
    ensures LineByLine(lines, Emitted(Received(lines, cuts), []))
  {
    hide Utf8.Sanitized, Emitted, Arrived, Reachable;
    EmittedWithoutKeyword(Received(lines, cuts));
  }

  /** Over-long lines damage no other line, in whatever text they stand: without a keyword each line has
      its own message, in order, and every line that fits in 4096 bytes is shown whole. When all fit, the
      messages for any keyword are those of the complete lines. */
  lemma DamageIsLocal(h: History, f: Follower, polls: seq<Poll>, keyword: seq<byte>)
    requires InStep(h, f, keyword)
    ensures h.Valid() && |h.read| == f.offset
    ensures var lines, sent := HistoryAfter(h, f, polls, keyword).Lines(), Run(f, polls, keyword).sent;
      && (keyword == [] ==> LineByLine(lines, sent))
      && (AllShort(lines) ==> sent == Emitted(lines, keyword))
  {
    hide Emitted, Received, Run, LineByLine, AllShort, Fits, HistoryAfter, History.Lines;
    RunStaysInStep(h, f, polls, keyword);
    var g := HistoryAfter(h, f, polls, keyword);
    if keyword == [] {
      ReceivedLineByLine(g.Lines(), g.cuts);
    }
    if AllShort(g.Lines()) {
      ReceivedOfShort(g.Lines(), g.cuts);
    }
  }

  /** After a poll that reads something, the text followed is still a text of the file exactly when the
      poll restarted it, or the file still begins with what was read before. */
  lemma FollowsTheFileExactlyWhen(h: History, f: Follower, poll: Poll)
    requires h.Valid() && |h.read| == f.offset
    requires Appended(f, poll) != []
    ensures poll.Seen? &&
      (Recorded(h, f, poll).read <= poll.contents <==> Rotated(f, poll) || h.read <= poll.contents)
  {
    hide NewCuts, Remainder;
    var chunk := Appended(f, poll);
    if !Rotated(f, poll) && h.read <= poll.contents {
      assert poll.contents[..|h.read| + |chunk|] == h.read + chunk;
    }
    if h.read + chunk <= poll.contents {
      assert h.read == (h.read + chunk)[..|h.read|] == poll.contents[..|h.read|];
    }
  }

  /** A file that is now shorter than what was read is read from its beginning, as the text after the old one:
      the same inode does not matter, nor what was unfinished. */
  lemma ShrunkenFileIsRestarted(h: History, f: Follower, contents: seq<byte>, keyword: seq<byte>)
    requires h.Valid() && |h.read| == f.offset && |contents| < f.offset
    ensures var g, r := Recorded(h, f, Quiet(f.inode, contents)), Step(f, Quiet(f.inode, contents), keyword);
      && g.past == h.past + [h.Text()] && g.start == 0
      && g.read == (if |contents| > 65536 then contents[..65536] else contents)
      && r.offset == |g.read|
      && (contents != [] ==> r.partial == Last(Remainder(g.read), 4096))
      && (contents != [] ==> r.sent == f.sent + Emitted(Complete(g.read), keyword))
  {
    hide Complete, Remainder, Emitted, KeepLast, NewCuts;
    var chunk := Chunk(contents, 0);
    assert [] + chunk == chunk;
    KeepLastIs(Remainder(chunk));
  }

  // ----- an append-only log -----

  /** The log only grows towards `log`: its size never falls below `size` or what was read before, and
      whatever a poll reads is a prefix of `log` (nothing, if the file cannot be opened). */
  predicate AppendOnly(polls: seq<Poll>, inode: nat, size: nat, log: seq<byte>) {
    polls == [] ||
    match polls[0]
    case Missing => AppendOnly(polls[1..], inode, size, log)
    case Seen(i, n, contents) =>
      && i == inode && size <= n && contents <= log
      && AppendOnly(polls[1..], inode, if n > |contents| then n else |contents|, log)
  }

  lemma AppendOnlyStep(h: History, f: Follower, poll: Poll, log: seq<byte>, keyword: seq<byte>)
    requires h.Valid() && |h.read| == f.offset && h.read <= log
    requires poll.Seen? ==> poll.inode == f.inode && f.offset <= poll.size && poll.contents <= log
    ensures var g := Recorded(h, f, poll);
      && g.past == h.past && g.start == h.start && h.read <= g.read <= log
      && (g.read == h.read || (poll.Seen? && |g.read| <= |poll.contents|))
      && Step(f, poll, keyword).inode == f.inode
  {
    hide Complete, Remainder, KeepLast, NewCuts, Emitted;
    var chunk := Appended(f, poll);
    assert !Rotated(f, poll);
    assert h.read + chunk == log[..|h.read| + |chunk|];
  }

  /** An append-only log is followed within one incarnation: what has been read is a prefix of it. */
  lemma {:induction false} AppendOnlyRun(
    h: History, f: Follower, polls: seq<Poll>, size: nat, log: seq<byte>, keyword: seq<byte>)
    requires h.Valid() && |h.read| == f.offset <= size && h.read <= log
    requires AppendOnly(polls, f.inode, size, log)
    ensures var g, r := HistoryAfter(h, f, polls, keyword), Run(f, polls, keyword);
      && g.past == h.past && g.start == h.start && h.read <= g.read <= log
      && |g.read| == r.offset && r.inode == f.inode
    decreases |polls|
  {
    hide Step, Recorded, Rotated;
    if polls != [] {
      var poll := polls[0];
      AppendOnlyStep(h, f, poll, log, keyword);
      var next := if poll.Missing? then size else if poll.size > |poll.contents| then poll.size else |poll.contents|;
      AppendOnlyRun(Recorded(h, f, poll), Step(f, poll, keyword), polls[1..], next, log, keyword);
    }
  }

  /** The same for a stream that is in step with what it has read. */
  lemma AppendOnlyInStep(
    f: Follower, start: nat, cuts: seq<nat>, polls: seq<Poll>, size: nat, log: seq<byte>, keyword: seq<byte>)
    returns (after: seq<nat>)
    requires start <= f.offset <= size && f.offset <= |log|
    requires AppendOnly(polls, f.inode, size, log)
    requires InStep(History([], cuts, log[..f.offset], start), f, keyword)
    ensures var g := Run(f, polls, keyword);
      && f.offset <= g.offset <= |log|
      && g.inode == f.inode
      && InStep(History([], after, log[..g.offset], start), g, keyword)
  {
    hide InStep, HistoryAfter, Run, AppendOnly;
    var h := History([], cuts, log[..f.offset], start);
    RunStaysInStep(h, f, polls, keyword);
    AppendOnlyRun(h, f, polls, size, log, keyword);
    var g := HistoryAfter(h, f, polls, keyword);
    after := g.cuts;
    assert g == History([], after, log[..Run(f, polls, keyword).offset], start);
  }

  /** The messages are those of the lines, each arriving across some boundary. */
  ghost predicate SentAs(lines: seq<seq<byte>>, sent: seq<seq<byte>>, keyword: seq<byte>) {
    exists cuts :: Fits(lines, cuts) && sent == Emitted(Received(lines, cuts), keyword)
  }

  /** From the end of the log or from 64 KiB before it, any schedule of polls and appends leaves behind exactly
      the bytes after the last newline (their last 4096), and has written exactly the complete lines, each as it
      arrived: whole, unless it is over-long. */
  lemma FramingIsExact(
    inode: nat, first: seq<byte>, startAtEnd: bool, polls: seq<Poll>, log: seq<byte>, keyword: seq<byte>)
    requires first <= log && AppendOnly(polls, inode, |first|, log)
    ensures var f := Start(inode, |first|, startAtEnd);
      var g := Run(f, polls, keyword);
      && g.inode == inode
      && f.offset == |first| - (if startAtEnd then 0 else if |first| < 65536 then |first| else 65536)
      && f.offset <= g.offset <= |log|
      && var consumed := log[f.offset..g.offset];
         && g.partial == Last(Remainder(consumed), 4096)
         && SentAs(Complete(consumed), g.sent, keyword)
         && (keyword == [] ==> LineByLine(Complete(consumed), g.sent))
         && (AllShort(Complete(consumed)) ==> g.sent == Emitted(Complete(consumed), keyword))
  {
    hide Emitted, Complete, Remainder, KeepLast, AllShort, LineByLine, Received, Fits, Run, AppendOnly;
    StartsInStep(inode, first, startAtEnd, keyword);
    var f := Start(inode, |first|, startAtEnd);
    assert first[..f.offset] == log[..f.offset];
    var cuts := AppendOnlyInStep(f, f.offset, [], polls, |first|, log, keyword);
    var g := Run(f, polls, keyword);
    var h := History([], cuts, log[..g.offset], f.offset);
    assert h.Text() == log[f.offset..g.offset];
    KeepLastIs(Remainder(h.Text()));
    assert h.Lines() == [] + Complete(h.Text()) == Complete(h.Text());
    if keyword == [] {
      ReceivedLineByLine(h.Lines(), cuts);
    }
    if AllShort(h.Lines()) {
      ReceivedOfShort(h.Lines(), cuts);
    }
  }

  /** Two schedules that reach the same offset remember the same; they have written the same too, when
      every complete line fits in 4096 bytes, and the same of every line that fits, when there is no keyword. */
  lemma ChunkingDoesNotMatter(
    inode: nat, first: seq<byte>, startAtEnd: bool, a: seq<Poll>, b: seq<Poll>, log: seq<byte>, keyword: seq<byte>)
    requires first <= log && AppendOnly(a, inode, |first|, log) && AppendOnly(b, inode, |first|, log)
    ensures var f := Start(inode, |first|, startAtEnd);
      var g, h := Run(f, a, keyword), Run(f, b, keyword);
      && f.offset <= g.offset <= |log|
      && var lines := Complete(log[f.offset..g.offset]);
         (g.offset == h.offset ==>
          && h == g.(sent := h.sent)
          && (AllShort(lines) ==> g == h)
          && (keyword == [] ==>
              && |g.sent| == |h.sent| == |lines|
              && forall j :: 0 <= j < |lines| && |lines[j]| <= MAXIMUM_LINE ==> g.sent[j] == h.sent[j]))
  {
    hide Emitted, Complete, Remainder, KeepLast, AllShort, SentAs, Run, AppendOnly;
    FramingIsExact(inode, first, startAtEnd, a, log, keyword);
    FramingIsExact(inode, first, startAtEnd, b, log, keyword);
  }

  // ----- a log that is rotated -----

  /** One incarnation of the log: the polls that meet it, and the text it grows towards. */
  datatype Epoch = Epoch(inode: nat, polls: seq<Poll>, log: seq<byte>)

  /** The incarnation is met at once, by another inode or because it is shorter than what was read, and it only
      grows. */
  predicate Begins(f: Follower, e: Epoch) {
    && e.polls != [] && e.polls[0].Seen?
    && (e.inode != f.inode || e.polls[0].size < f.offset)
    && AppendOnly(e.polls, e.inode, 0, e.log)
  }

  ghost predicate Rotating(f: Follower, epochs: seq<Epoch>, keyword: seq<byte>)
    decreases |epochs|
  {
    epochs == [] || (Begins(f, epochs[0]) && Rotating(Run(f, epochs[0].polls, keyword), epochs[1..], keyword))
  }

  function AllPolls(epochs: seq<Epoch>): (polls: seq<Poll>) {
    if epochs == [] then [] else epochs[0].polls + AllPolls(epochs[1..])
  }

  /** A poll that notices the rotation reads as if the stream had just begun. */
  lemma FirstPollRestarts(h: History, f: Follower, poll: Poll, keyword: seq<byte>)
    requires h.Valid() && |h.read| == f.offset && Rotated(f, poll)
    ensures Restarted(f, poll).offset == |h.LeftBehind().read|
    ensures Recorded(h, f, poll) == Recorded(h.LeftBehind(), Restarted(f, poll), poll)
    ensures Step(f, poll, keyword) == Step(Restarted(f, poll), poll, keyword)
  {
    hide Absorb, History.Extended;
  }

  lemma EpochIsFollowed(h: History, f: Follower, e: Epoch, keyword: seq<byte>)
    requires h.Valid() && |h.read| == f.offset
    requires Begins(f, e)
    ensures var g, r := HistoryAfter(h, f, e.polls, keyword), Run(f, e.polls, keyword);
      && g.past == h.past + [h.Text()] && g.start == 0 && g.read <= e.log
      && |g.read| == r.offset && r.inode == e.inode
  {
    hide AppendOnly, Step, Recorded;
    FirstIsOfEpoch(e);
    FirstPollRestarts(h, f, e.polls[0], keyword);
    AppendOnlyRun(h.LeftBehind(), Restarted(f, e.polls[0]), e.polls, 0, e.log, keyword);
  }

  lemma FirstIsOfEpoch(e: Epoch)
    requires e.polls != [] && e.polls[0].Seen? && AppendOnly(e.polls, e.inode, 0, e.log)
    ensures e.polls[0].inode == e.inode
  {
  }

  lemma {:induction false} HistoryOfConcat(h: History, f: Follower, a: seq<Poll>, b: seq<Poll>, keyword: seq<byte>)
    requires h.Valid() && |h.read| == f.offset
    ensures |HistoryAfter(h, f, a, keyword).read| == Run(f, a, keyword).offset
    ensures HistoryAfter(h, f, a + b, keyword)
         == HistoryAfter(HistoryAfter(h, f, a, keyword), Run(f, a, keyword), b, keyword)
    decreases |a|
  {
    hide Step, Recorded;
    if a == [] {
      assert a + b == b;
    } else {
      assert (a + b)[1..] == a[1..] + b;
      HistoryOfConcat(Recorded(h, f, a[0]), Step(f, a[0], keyword), a[1..], b, keyword);
    }
  }

  /** Across any number of rotations: one text is followed of each incarnation, in order, and it is a text
      the incarnation begins with. By `RunStaysInStep` their complete lines are what is sent. */
  lemma {:induction false} RotationsAreFollowed(h: History, f: Follower, epochs: seq<Epoch>, keyword: seq<byte>)
    requires h.Valid() && |h.read| == f.offset && Rotating(f, epochs, keyword)
    ensures var before, after := h.Texts(), HistoryAfter(h, f, AllPolls(epochs), keyword).Texts();
      && |after| == |before| + |epochs| && before <= after
      && forall i :: 0 <= i < |epochs| ==> after[|before| + i] <= epochs[i].log
    decreases |epochs|
  {
    hide AppendOnly, HistoryAfter, Run, Begins;
    if epochs == [] {
      NothingHappens(h, f, keyword);
    } else {
      var e, rest := epochs[0], AllPolls(epochs[1..]);
      EpochIsFollowed(h, f, e, keyword);
      HistoryOfConcat(h, f, e.polls, rest, keyword);
      var g, r := HistoryAfter(h, f, e.polls, keyword), Run(f, e.polls, keyword);
      assert g.Text() == g.read;
      RotationsAreFollowed(g, r, epochs[1..], keyword);
      var before, after := h.Texts(), HistoryAfter(h, f, AllPolls(epochs), keyword).Texts();
      assert g.Texts() == before + [g.read];
      forall i | 0 <= i < |epochs| ensures after[|before| + i] <= epochs[i].log {
        if i > 0 {
          var j: nat := i - 1;
          assert after[|g.Texts()| + j] <= epochs[1..][j].log;
        } else {
          assert after[|before|] == g.Texts()[|before|];
        }
      }
    }
  }

  lemma NothingHappens(h: History, f: Follower, keyword: seq<byte>)
    requires h.Valid() && |h.read| == f.offset
    ensures HistoryAfter(h, f, AllPolls([]), keyword) == h
  {
  }

  // ----- a log that stops growing -----

  /** A log that stops growing is read to its end: each poll takes 64 KiB, or what is left. */
  lemma {:induction false} CatchesUp(f: Follower, polls: seq<Poll>, contents: seq<byte>, keyword: seq<byte>)
    requires f.offset <= |contents|
    requires forall k :: 0 <= k < |polls| ==> polls[k] == Quiet(f.inode, contents)
    ensures var left := |contents| - f.offset;
      Run(f, polls, keyword).offset == f.offset + (if left < |polls| * 65536 then left else |polls| * 65536)
    decreases |polls|
  {
    hide Emitted, Complete, Remainder, KeepLast;
    if polls != [] {
      CatchesUp(Step(f, polls[0], keyword), polls[1..], contents, keyword);
    }
  }

  // ----- for any polls at all -----

  function NewlinesConsumed(f: Follower, polls: seq<Poll>, keyword: seq<byte>): (n: nat)
    decreases |polls|
  {
    if polls == [] then 0
    else Newlines(Appended(f, polls[0])) + NewlinesConsumed(Step(f, polls[0], keyword), polls[1..], keyword)
  }

  lemma StepCounts(f: Follower, poll: Poll)
    requires NEWLINE !in f.partial
    ensures NEWLINE !in Step(f, poll, []).partial
    ensures |Step(f, poll, []).sent| == |f.sent| + Newlines(Appended(f, poll))
  {
    hide Emitted, Complete, Remainder, KeepLast, Newlines;
    if poll.Seen? && poll.size > Restarted(f, poll).offset {
      var g, chunk := Restarted(f, poll), Appended(f, poll);
      SplitOfUnterminated([]);
      SplitOfUnterminated(g.partial);
      NewlinesOfConcat(g.partial, chunk);
      OneLinePerNewline(g.partial + chunk);
      EmittedWithoutKeyword(Complete(g.partial + chunk));
      RemainderIsSuffix(g.partial + chunk);
      KeepLastOfNoNewline(Remainder(g.partial + chunk));
    } else {
      SplitOfUnterminated([]);
    }
  }

  /** Without a keyword one line is written for each newline consumed, over-long lines and rotations
      included, and the unfinished line never holds a newline. */
  lemma {:induction false} OneLineWrittenPerNewline(f: Follower, polls: seq<Poll>)
    requires NEWLINE !in f.partial
    ensures |Run(f, polls, []).sent| == |f.sent| + NewlinesConsumed(f, polls, [])
    ensures NEWLINE !in Run(f, polls, []).partial
    decreases |polls|
  {
    hide Step, Newlines, Appended;
    if polls != [] {
      StepCounts(f, polls[0]);
      OneLineWrittenPerNewline(Step(f, polls[0], []), polls[1..]);
    }
  }

  /** The unfinished line stays within 4096 bytes and newline-free between polls, for any keyword. */
  lemma {:induction false} PartialStaysBounded(f: Follower, polls: seq<Poll>, keyword: seq<byte>)
    requires NEWLINE !in f.partial && |f.partial| <= 4096
    ensures var g := Run(f, polls, keyword); NEWLINE !in g.partial && |g.partial| <= 4096
    decreases |polls|
  {
    hide Emitted, Complete, Remainder, KeepLast, Newlines;
    if polls != [] {
      if polls[0].Seen? {
        var text := Restarted(f, polls[0]).partial + Appended(f, polls[0]);
        RemainderIsSuffix(text);
        KeepLastOfNoNewline(Remainder(text));
      }
      PartialStaysBounded(Step(f, polls[0], keyword), polls[1..], keyword);
    }
  }

  lemma {:induction false} CompleteLinesHaveNoNewline(s: seq<byte>)
    ensures forall k :: 0 <= k < |Complete(s)| ==> NEWLINE !in Complete(s)[k]
    decreases |s|
  {
    var i := FirstNewline(s);
    FirstNewlineIs(s, i);
    if i < |s| {
      CompleteLinesHaveNoNewline(s[i + 1..]);
    }
  }

  lemma ShownIsPresentable(line: seq<byte>, keyword: seq<byte>)
    requires NEWLINE !in line
    ensures forall k :: 0 <= k < |Shown(line, keyword)| ==> LogTailLaws.Presentable(Shown(line, keyword)[k])
  {
    hide Utf8.Sanitized, Utf8.WellFormed;
    var cut := LogTail.Cut(LogTail.Strip(line));
    Utf8Laws.SanitizedIsWellFormed(cut);
    Utf8Laws.SanitizedKeepsNewlines(cut);
  }

  lemma {:induction false} EmittedIsPresentable(lines: seq<seq<byte>>, keyword: seq<byte>)
    requires forall k :: 0 <= k < |lines| ==> NEWLINE !in lines[k]
    ensures forall k :: 0 <= k < |Emitted(lines, keyword)| ==> LogTailLaws.Presentable(Emitted(lines, keyword)[k])
  {
    hide Shown, LogTailLaws.Presentable;
    if lines != [] {
      ShownIsPresentable(lines[0], keyword);
      EmittedIsPresentable(lines[1..], keyword);
    }
  }

  predicate AllPresentable(lines: seq<seq<byte>>) {
    forall k :: 0 <= k < |lines| ==> LogTailLaws.Presentable(lines[k])
  }

  /** Whatever the polls see, each message written is one line of valid UTF-8 of bounded length. */
  lemma {:induction false} SentLinesArePresentable(f: Follower, polls: seq<Poll>, keyword: seq<byte>)
    requires AllPresentable(f.sent)
    ensures AllPresentable(Run(f, polls, keyword).sent)
    decreases |polls|
  {
    hide Step, AllPresentable;
    if polls != [] {
      StepIsPresentable(f, polls[0], keyword);
      SentLinesArePresentable(Step(f, polls[0], keyword), polls[1..], keyword);
    }
  }

  lemma StepIsPresentable(f: Follower, poll: Poll, keyword: seq<byte>)
    requires AllPresentable(f.sent)
    ensures AllPresentable(Step(f, poll, keyword).sent)
  {
    hide Emitted, Complete, Remainder, KeepLast, LogTailLaws.Presentable;
    if poll.Seen? && poll.size > Restarted(f, poll).offset {
      var text := Restarted(f, poll).partial + Appended(f, poll);
      assert Step(f, poll, keyword).sent == f.sent + Emitted(Complete(text), keyword);
      CompleteLinesHaveNoNewline(text);
      EmittedIsPresentable(Complete(text), keyword);
    } else {
      assert Step(f, poll, keyword).sent == f.sent;
    }
  }

  /** The tail filters before it cuts and the stream cuts before it filters; they show the same of every
      line that the cut leaves alone. */
  lemma {:induction false} StreamAgreesWithTail(lines: seq<seq<byte>>, keyword: seq<byte>)
    requires forall k :: 0 <= k < |lines| ==> |lines[k]| <= MAXIMUM_LINE
    ensures Emitted(lines, keyword) == LogTail.Selected(lines, keyword)
  {
    hide LogTail.Matches;
    if lines != [] {
      assert |lines[0]| <= MAXIMUM_LINE;
      StreamAgreesWithTail(lines[1..], keyword);
    }
  }
}
