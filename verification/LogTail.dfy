/** `LogCollector::ReadLog`: a bounded backward scan of a log file. */
module LogTail {
  import opened Basics
  import opened Lines
  import Utf8

  const MAXIMUM_LINES: nat := 1000
  const MAXIMUM_KEYWORD_LENGTH: nat := 256
  const MAXIMUM_LINE_LENGTH: nat := 4096
  const READ_BLOCK_SIZE: nat := 65536
  const MAXIMUM_SCAN_BYTES: nat := 8388608

  datatype LogError = InvalidArgument | NotFound | PermissionDenied | IoError

  /** What `errno` says after a failed open; the others are not told apart. */
  datatype Errno = EACCES | EPERM | ENOENT | Other

  /** What opening a whitelisted log and seeking to its end give. `readable(p)` says whether the
      block that starts at offset `p` can be read in full. Each block is read at most once, so `contents`
      is what the reads return. */
  datatype LogFile =
    | OpenFailed(errno: Errno)
    | SizeUnknown
    | Opened(contents: seq<byte>, readable: nat -> bool)

  datatype LogReadResult = LogReadResult(lines: seq<seq<byte>>, truncated: bool)

  datatype Result<+T> = Success(value: T) | Failure(error: LogError, message: string)

  function OpenError(errno: Errno): LogError {
    match errno
    case EACCES => PermissionDenied
    case EPERM => PermissionDenied
    case ENOENT => NotFound
    case Other => IoError
  }

  const READ_FAILED: string := "failed while reading log file"

  // ----- lines -----

  /** Drops one trailing carriage return. */
  function Strip(line: seq<byte>): (r: seq<byte>)
    ensures |line| - 1 <= |r| <= |line|
  {
    if line != [] && line[|line| - 1] == CARRIAGE_RETURN then line[..|line| - 1] else line
  }

  function Cut(line: seq<byte>): (r: seq<byte>)
    ensures |r| <= MAXIMUM_LINE_LENGTH
  {
    if |line| > MAXIMUM_LINE_LENGTH then line[..MAXIMUM_LINE_LENGTH] else line
  }

  predicate Matches(line: seq<byte>, keyword: seq<byte>) {
    keyword == [] || exists i :: 0 <= i <= |line| && OccursAt(keyword, line, i)
  }

  /** What the client sees of one line: the keyword is looked for before the line is cut. */
  function Shown(line: seq<byte>, keyword: seq<byte>): (r: seq<seq<byte>>)
    ensures |r| <= 1
  {
    if Matches(Strip(line), keyword) then [Utf8.Sanitized(Cut(Strip(line)))] else []
  }

  function Selected(lines: seq<seq<byte>>, keyword: seq<byte>): (r: seq<seq<byte>>) {
    if lines == [] then [] else Shown(lines[0], keyword) + Selected(lines[1..], keyword)
  }

  predicate Overlong(line: seq<byte>, keyword: seq<byte>) {
    Matches(Strip(line), keyword) && |Strip(line)| > MAXIMUM_LINE_LENGTH
  }

  predicate AnyOverlong(lines: seq<seq<byte>>, keyword: seq<byte>) {
    exists k :: 0 <= k < |lines| && Overlong(lines[k], keyword)
  }

  // ----- the scan -----

  /** The offset at which the backward scan stops, having read everything from `position` on. */
  function ScanFrom(contents: seq<byte>, readable: nat -> bool, position: nat, maxLines: nat, keyword: seq<byte>)
    : (r: Result<nat>)
    requires position <= |contents|
    ensures r.Success? ==> r.value <= position
    decreases position
  {
    if position == 0 || |contents| - position >= MAXIMUM_SCAN_BYTES then
      Success(position)
    else
      var next := position - if position < READ_BLOCK_SIZE then position else READ_BLOCK_SIZE;
      if !readable(next) then Failure(IoError, READ_FAILED)
      else if keyword == [] && Newlines(contents[next..]) > maxLines then Success(next)
      else ScanFrom(contents, readable, next, maxLines, keyword)
  }

  function Scan(file: LogFile, maxLines: nat, keyword: seq<byte>): (r: Result<nat>)
    ensures r.Success? ==> file.Opened? && r.value <= |file.contents|
  {
    match file
    case OpenFailed(errno) => Failure(OpenError(errno), "log file is not available")
    case SizeUnknown => Failure(IoError, "failed to determine log file size")
    case Opened(contents, readable) => ScanFrom(contents, readable, |contents|, maxLines, keyword)
  }

  /** What the lines of the scanned suffix are turned into. */
  function Tail(suffix: seq<byte>, partial: bool, maxLines: nat, keyword: seq<byte>): (r: LogReadResult) {
    var lines := Split(suffix);
    var selected := Selected(lines, keyword);
    LogReadResult(Last(selected, maxLines), |selected| > maxLines || AnyOverlong(lines, keyword) || partial)
  }

  function ReadOutcome(logs: map<string, LogFile>, id: string, maxLines: nat, keyword: seq<byte>)
    : (r: Result<LogReadResult>)
  {
    if id !in logs then Failure(InvalidArgument, "unknown log id")
    else if maxLines == 0 || maxLines > MAXIMUM_LINES then
      Failure(InvalidArgument, "max_lines must be between 1 and 1000")
    else if |keyword| > MAXIMUM_KEYWORD_LENGTH then Failure(InvalidArgument, "keyword is too long")
    else
      match Scan(logs[id], maxLines, keyword)
      case Failure(error, message) => Failure(error, message)
      case Success(start) => Success(Tail(logs[id].contents[start..], start > 0, maxLines, keyword))
  }

  lemma ScanStep(contents: seq<byte>, readable: nat -> bool, position: nat, maxLines: nat, keyword: seq<byte>)
    requires position <= |contents|
    ensures position == 0 || |contents| - position >= MAXIMUM_SCAN_BYTES
      ==> ScanFrom(contents, readable, position, maxLines, keyword) == Success(position)
    ensures position > 0 && |contents| - position < MAXIMUM_SCAN_BYTES
      ==> var next := position - if position < READ_BLOCK_SIZE then position else READ_BLOCK_SIZE;
          ScanFrom(contents, readable, position, maxLines, keyword) ==
          if !readable(next) then Failure(IoError, READ_FAILED)
          else if keyword == [] && Newlines(contents[next..]) > maxLines then Success(next)
          else ScanFrom(contents, readable, next, maxLines, keyword)
  {
    hide Newlines;
  }

  // ----- facts about the helper functions -----

  lemma {:induction false} SelectedOfConcat(a: seq<seq<byte>>, b: seq<seq<byte>>, keyword: seq<byte>)
    ensures Selected(a + b, keyword) == Selected(a, keyword) + Selected(b, keyword)
  {
    hide Shown;
    if a == [] {
      assert a + b == b;
    } else {
      assert (a + b)[1..] == a[1..] + b;
      SelectedOfConcat(a[1..], b, keyword);
      Associate(Shown(a[0], keyword), Selected(a[1..], keyword), Selected(b, keyword));
    }
  }

  lemma SelectedOfOne(line: seq<byte>, keyword: seq<byte>)
    ensures Selected([line], keyword) == Shown(line, keyword)
  {
    hide Shown;
    assert [line][1..] == [];
  }

  // ----- the method -----

  function Reassembled(reverseChunks: seq<seq<byte>>): (contents: seq<byte>) {
    if reverseChunks == [] then [] else Reassembled(reverseChunks[1..]) + reverseChunks[0]
  }

  lemma {:induction false} ReassembledOfPush(chunks: seq<seq<byte>>, chunk: seq<byte>)
    ensures Reassembled(chunks + [chunk]) == chunk + Reassembled(chunks)
  {
    if chunks == [] {
      assert (chunks + [chunk])[1..] == [];
    } else {
      assert (chunks + [chunk])[1..] == chunks[1..] + [chunk];
      ReassembledOfPush(chunks[1..], chunk);
      Associate(chunk, Reassembled(chunks[1..]), chunks[0]);
    }
  }

  /** `std::count` over one block. */
  method CountNewlines(chunk: seq<byte>) returns (count: nat)
    ensures count == Newlines(chunk)
  {
    count := 0;
    assert chunk[0..] == chunk;
    for i := 0 to |chunk|
      invariant count + Newlines(chunk[i..]) == Newlines(chunk)
    {
      if chunk[i] == NEWLINE {
        count := count + 1;
      }
    }
  }

  lemma ScanNothing()
    ensures Newlines([]) == 0 && Reassembled([]) == []
  {
  }

  /** Reads blocks backwards until enough lines, the cap, or the start of the file is reached. */
  method ScanBackwards(contents: seq<byte>, readable: nat -> bool, maxLines: nat, keyword: seq<byte>)
    returns (position: Result<nat>, reverseChunks: seq<seq<byte>>)
    ensures position == ScanFrom(contents, readable, |contents|, maxLines, keyword)
    ensures position.Success? ==> Reassembled(reverseChunks) == contents[position.value..]
  {
    hide ScanFrom, Newlines, Reassembled;
    var start := |contents|;
    assert contents[start..] == [];
    ScanNothing();
    var scannedBytes, newlineCount := 0, 0;
    reverseChunks := [];
    while start > 0 && scannedBytes < MAXIMUM_SCAN_BYTES
      invariant 0 <= start <= |contents|
      invariant scannedBytes == |contents| - start
      invariant newlineCount == Newlines(contents[start..])
      invariant Reassembled(reverseChunks) == contents[start..]
      invariant ScanFrom(contents, readable, |contents|, maxLines, keyword)
             == ScanFrom(contents, readable, start, maxLines, keyword)
    {
      ScanStep(contents, readable, start, maxLines, keyword);
      var blockSize := if start < READ_BLOCK_SIZE then start else READ_BLOCK_SIZE;
      ghost var previous := start;
      start := start - blockSize;
      if !readable(start) {
        return Failure(IoError, READ_FAILED), reverseChunks;
      }
      var chunk := contents[start..start + blockSize];
      var count := CountNewlines(chunk);
      newlineCount := newlineCount + count;
      scannedBytes := scannedBytes + blockSize;
      assert contents[start..] == chunk + contents[previous..];
      NewlinesOfConcat(chunk, contents[previous..]);
      ReassembledOfPush(reverseChunks, chunk);
      reverseChunks := reverseChunks + [chunk];
      if keyword == [] && newlineCount > maxLines {
        return Success(start), reverseChunks;
      }
    }
    ScanStep(contents, readable, start, maxLines, keyword);
    position := Success(start);
  }

  method Reassemble(reverseChunks: seq<seq<byte>>) returns (contents: seq<byte>)
    ensures contents == Reassembled(reverseChunks)
  {
    contents := [];
    var i := |reverseChunks|;
    assert reverseChunks[i..] == [];
    while i > 0
      invariant 0 <= i <= |reverseChunks|
      invariant contents == Reassembled(reverseChunks[i..])
    {
      i := i - 1;
      assert reverseChunks[i..][1..] == reverseChunks[i + 1..];
      contents := contents + reverseChunks[i];
    }
    assert reverseChunks[0..] == reverseChunks;
  }

  /** `std::getline` on the text from `index` on. */
  method GetLine(contents: seq<byte>, index: nat) returns (line: seq<byte>, next: nat)
    requires index < |contents|
    ensures index < next <= |contents|
    ensures Split(contents[index..]) == [line] + Split(contents[next..])
  {
    var i := index;
    while i < |contents| && contents[i] != NEWLINE
      invariant index <= i <= |contents|
      invariant NEWLINE !in contents[index..i]
    {
      i := i + 1;
    }
    line := contents[index..i];
    next := if i < |contents| then i + 1 else i;
    if i < |contents| {
      assert contents[index..] == line + [NEWLINE] + contents[next..];
      SplitOfLine(line, contents[next..]);
    } else {
      assert contents[index..] == line;
      SplitOfUnterminated(line);
      SplitOfUnterminated([]);
      assert contents[next..] == [];
    }
  }

  lemma WindowStep<T>(s: seq<T>, x: T, n: nat)
    requires n > 0
    ensures var pushed := Last(s, n) + [x];
      && Last(s + [x], n) == (if |pushed| > n then pushed[1..] else pushed)
      && (|pushed| > n <==> |s| >= n)
  {
  }

  lemma OverlongStep(lines: seq<seq<byte>>, line: seq<byte>, keyword: seq<byte>)
    ensures AnyOverlong(lines + [line], keyword) <==> AnyOverlong(lines, keyword) || Overlong(line, keyword)
  {
    hide Overlong;
    var all := lines + [line];
    assert all[|lines|] == line;
    if AnyOverlong(lines, keyword) {
      var k :| 0 <= k < |lines| && Overlong(lines[k], keyword);
      assert Overlong(all[k], keyword);
    }
  }

  /** Strips, filters, cuts and sanitises the lines, keeping a window of the last `maxLines`. */
  method SelectLines(contents: seq<byte>, maxLines: nat, keyword: seq<byte>)
    returns (selectedLines: seq<seq<byte>>, truncated: bool)
    requires maxLines > 0
    ensures LogReadResult(selectedLines, truncated) == Tail(contents, false, maxLines, keyword)
  {
    hide Split, Selected, AnyOverlong, Last, Matches;
    selectedLines, truncated := [], false;
    ghost var done: seq<seq<byte>> := [];
    var index := 0;
    assert contents[0..] == contents;
    NoLines(maxLines, keyword);
    while index < |contents|
      invariant 0 <= index <= |contents|
      invariant Split(contents) == done + Split(contents[index..])
      invariant selectedLines == Last(Selected(done, keyword), maxLines)
      invariant truncated <==> |Selected(done, keyword)| > maxLines || AnyOverlong(done, keyword)
    {
      var line, next := GetLine(contents, index);
      ghost var raw := line;
      Associate(done, [raw], Split(contents[next..]));
      OverlongStep(done, raw, keyword);
      SelectedOfConcat(done, [raw], keyword);
      SelectedOfOne(raw, keyword);
      ghost var before := Selected(done, keyword);
      done := done + [raw];
      index := next;

      if line != [] && line[|line| - 1] == CARRIAGE_RETURN {
        line := line[..|line| - 1];
      }
      assert line == Strip(raw);
      if keyword != [] && !Matches(line, keyword) {
        assert before + [] == before;
        continue;
      }
      MatchesNothing(line);
      if |line| > MAXIMUM_LINE_LENGTH {
        line := line[..MAXIMUM_LINE_LENGTH];
        truncated := true;
      }
      line := Utf8.SanitizeUtf8(line);
      WindowStep(before, line, maxLines);
      selectedLines := selectedLines + [line];
      if |selectedLines| > maxLines {
        selectedLines := selectedLines[1..];
        truncated := true;
      }
    }
    NoLines(maxLines, keyword);
    assert contents[index..] == [];
    assert done + [] == done;
  }

  lemma NoLines(maxLines: nat, keyword: seq<byte>)
    ensures Split([]) == [] && Selected([], keyword) == [] && !AnyOverlong([], keyword)
    ensures Last<seq<byte>>([], maxLines) == []
  {
  }

  lemma MatchesNothing(line: seq<byte>)
    ensures Matches(line, [])
  {
  }

  method ReadLog(logs: map<string, LogFile>, logId: string, maxLines: nat, keyword: seq<byte>)
    returns (outcome: Result<LogReadResult>)
    ensures outcome == ReadOutcome(logs, logId, maxLines, keyword)
  {
    hide Tail, ScanFrom;
    if logId !in logs {
      return Failure(InvalidArgument, "unknown log id");
    }
    if maxLines == 0 || maxLines > MAXIMUM_LINES {
      return Failure(InvalidArgument, "max_lines must be between 1 and 1000");
    }
    if |keyword| > MAXIMUM_KEYWORD_LENGTH {
      return Failure(InvalidArgument, "keyword is too long");
    }
    match logs[logId]
    case OpenFailed(errno) =>
      return Failure(OpenError(errno), "log file is not available");
    case SizeUnknown =>
      return Failure(IoError, "failed to determine log file size");
    case Opened(file, readable) =>
      var position, reverseChunks := ScanBackwards(file, readable, maxLines, keyword);
      if position.Failure? {
        ScanFailsInReading(file, readable, |file|, maxLines, keyword);
        return Failure(IoError, READ_FAILED);
      }
      var contents := Reassemble(reverseChunks);
      var lines, truncated := SelectLines(contents, maxLines, keyword);
      PartialTail(contents, position.value > 0, maxLines, keyword);
      truncated := truncated || position.value > 0;
      return Success(LogReadResult(lines, truncated));
  }

  lemma PartialTail(suffix: seq<byte>, partial: bool, maxLines: nat, keyword: seq<byte>)
    ensures var whole := Tail(suffix, false, maxLines, keyword);
      Tail(suffix, partial, maxLines, keyword) == whole.(truncated := whole.truncated || partial)
  {
  }

  lemma {:induction false} ScanFailsInReading(
    contents: seq<byte>, readable: nat -> bool, position: nat, maxLines: nat, keyword: seq<byte>)
    requires position <= |contents|
    ensures var r := ScanFrom(contents, readable, position, maxLines, keyword);
      r.Failure? ==> r == Failure(IoError, READ_FAILED)
    decreases position
  {
    hide Newlines;
    if position > 0 && |contents| - position < MAXIMUM_SCAN_BYTES {
      var next := position - if position < READ_BLOCK_SIZE then position else READ_BLOCK_SIZE;
      ScanFailsInReading(contents, readable, next, maxLines, keyword);
    }
  }
}
