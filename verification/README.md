# EdgeScope, modelled

EdgeScope is a remote diagnostics agent for Linux with a desktop client. Under its RPC plumbing sit a few
stateful algorithms over byte streams, and this project models those and proves what they promise:

- **The log tail** (`LogTail`, `LogTailLaws`): `ReadLog` reads a log backwards in 64 KiB blocks, stops early
  once it has seen enough newlines or 8 MiB, reassembles the blocks, splits, filters, cuts and sanitises the
  lines and keeps a window of the last ones. It is compared with a forward scan of the whole file, and
  `LogText` says, in bytes and numbers alone, what both views show of a log written line by line.
- **The UTF-8 sanitiser** (`Utf8`, `Utf8Laws`): masks, shifts, minimum values and surrogate tests, compared
  with the byte grammar of section 4 of RFC 3629.
- **The log stream** (`LogFollow` and four modules of laws): the polling state machine over inode, offset and
  unfinished line, for any sequence of polls. `LogFollowLaws` covers appends, rotation and truncation,
  `LogBoundaryLaws` (on `WindowLaws`) over-long lines, `LogRewriteLaws` rewrites that go unnoticed.
- **Diagnostic bundles** (`Bundles`, `BundleLaws`): the registry of at most five bundles, its identifiers and
  the files it leaves on disk, under every failure of its foreign operations.
- **The chunked download** (`Download`, `DownloadLaws`): from the archive on the agent to the file on the client.
- **The sampler and the metric stream** (`Sampler`, `SystemCollector`, `SystemCollectorLaws`, `MetricStream`):
  one worker and many readers as atomic steps at lock granularity, the shutdown, and the divider that forwards
  every so many generations.
- **The parsers** (`Text`, `Digits`, `ProcStat`, `TcpTable`, `Config` and their `Laws`): formatted stream
  extraction, `/proc/[pid]/stat`, `/proc/net/tcp` and the agent's configuration file, each against a printer,
  and with what it refuses. `ConfigText` adds comments, blank lines and white space.

`Lines` and `Basics` hold what several models share. Code that loops or updates state is a method or a class
whose contract equates it with a function of its inputs and old state; the `Laws` modules prove what that
function promises. The byte modules work on 8-bit bit-vectors, because the sanitiser masks and shifts.

What the foreign world does is a parameter: what opening and reading a file yields, what each `stat` sees, how
many messages a client accepts, which removals fail, when a call is cancelled.

## Where the code does less than its callers may expect

Each of these is proved, with the exact condition under which the expectation holds.

- When the 8 MiB cap stops `ReadLog` with at most `max_lines` lines in hand, the first line shown can be the end
  of a longer one (`LinesAgreeExactlyWhen`, `TailAgreesExactlyWhen`, `CapCanDamageTheOnlyLine`). The truncated
  flag is set then.
- `StreamLog` shows an over-long line by its front or by a later part, depending on where a poll boundary falls.
  All schedules of polls agree on a well-formed line exactly when it fits in 4096 bytes, nothing of it that some
  boundary can bring into view matches the keyword, or that part repeats one letter and no carriage return ends
  the line (`SchedulesAgreeExactlyWhen`). The carriage return counts: 4096 letters and CR LF are not safe
  (`ReturnCanCostALetter`). No other line is touched (`DamageIsLocal`).
- `docs/architecture.md:62` says that rotation is detected by inode and size changes. A file of the same inode that
  is cut and grows past the old offset between two polls is not detected. The text followed is then still a text of
  the file exactly when the file begins with what was read before (`FollowsTheFileExactlyWhen`); the unfinished
  line is free of old bytes, and so are the messages, exactly as `RewriteIsForgottenExactlyWhen`,
  `RewriteIsShownExactlyWhen` and `PlainRewriteIsShownExactlyWhen` say. `UnnoticedRewrite` is an input that fails.
- `GetLatest` and `WaitForNext` would pass off old metrics as new after a failure with an empty error text
  (`LatestExactlyWhen`). `SystemCollector::Collect` never produces one (`Collect`).
- Lines 82-83 of the repository's README.md speak of `.service` units only, but the length comparison in
  `IsValidServiceName` wraps, so every seven-character name of permitted characters is accepted too
  (`ServiceNameAcceptedExactlyWhen`).
- Ports and sampling intervals are read by `std::stoul`, which skips white space, takes a sign and wraps negative
  numbers: `-18446744073709551615` is accepted as port 1 (`AddressAcceptedExactlyWhen`,
  `IntervalAcceptedExactlyWhen`, `NegativeNumbersAreAccepted`).
- `CreateAndDownloadDiagnostic` does not look at how closing the file went, so the file it reports as ready is what
  was received exactly when nothing was lost then (the contract of that method).

## Model

| member | source | states |
|---|---|---|
| Lines.SplitIsCompleteAndRemainder | agent/src/LogCollector.cpp:195-197 | a `std::getline` loop yields the complete lines and the unterminated last one when it is not empty |
| Lines.SplitOfSuffix | agent/src/LogCollector.cpp:166-197 | reading from the middle of a text damages only the line the first byte falls in, and by exactly the missing front |
| Lines.FramingOfConcat | agent/src/EdgeScopeServiceImpl.cpp:390-394 | how later bytes are cut into lines depends on earlier ones only through the unfinished line |
| Lines.JoinUndoesSplit | agent/src/EdgeScopeServiceImpl.cpp:391-394 | the complete lines and the remainder spell the text out again |
| Lines.OneLinePerNewline | agent/src/LogCollector.cpp:178-184 | counting newlines counts lines, up to one unterminated line |
| Lines.Pigeonhole | agent/src/LogCollector.cpp:166-184 | a text is at most (newlines + 1) times (longest line + 1) bytes |
| Utf8.TestsAreTheGrammar | agent/src/LogCollector.cpp:63-103 | the mask, shift, minimum and surrogate tests accept a sequence exactly when RFC 3629 section 4 derives it |
| Utf8.EncodeUndoesDecode | agent/src/LogCollector.cpp:86-93 | re-encoding the decoded code point gives back the same bytes |
| Utf8.DecodeUndoesEncode | agent/src/LogCollector.cpp:86-95 | every scalar value is encoded as one accepted sequence that decodes to it |
| Utf8.AcceptedLength | agent/src/LogCollector.cpp:57-101 | one round of the loop copies exactly the grammar's character at the index, or rejects one byte |
| Utf8.SanitizeUtf8 | agent/src/LogCollector.cpp:51-106 | the output replaces each byte that begins no character by U+FFFD and keeps every character |
| Utf8Laws.SanitizedIsWellFormed | agent/src/LogCollector.cpp:51-106 | only well-formed UTF-8 comes out, at most three times as long |
| Utf8Laws.SanitizedFixesWellFormed | agent/src/LogCollector.cpp:102-103 | the input is unchanged if and only if it was well-formed |
| Utf8Laws.SanitizedIsIdempotent | agent/src/LogCollector.cpp:51-106 | sanitising twice is sanitising once |
| Utf8Laws.SanitizedOfConcat | agent/src/LogCollector.cpp:56-104 | sanitising distributes over concatenation wherever the cut cannot fall inside a character |
| Utf8Laws.SanitizedCommutesWithSplit | agent/src/LogCollector.cpp:197-208 | sanitising commutes with splitting into lines and keeps the number of newlines |
| Utf8Laws.SanitizedOfCut | agent/src/LogCollector.cpp:204-208 | a well-formed line cut at n bytes becomes its longest well-formed prefix within n and one U+FFFD for each of at most three leftover bytes |
| Utf8Laws.CharsAreEncodings | agent/src/LogCollector.cpp:51-103 | the accepted sequences are exactly the encodings of the code points up to U+10FFFF that are no surrogates, and the replacement is that of U+FFFD |
| LogTail.ScanBackwards | agent/src/LogCollector.cpp:162-185 | where the backward scan stops, and that the blocks reassemble to the file from there to its end |
| LogTail.Reassemble | agent/src/LogCollector.cpp:187-192 | the blocks joined last-read first |
| LogTail.SelectLines | agent/src/LogCollector.cpp:194-214 | the window equals the last matching lines, and the flag records overflow and over-long matching lines |
| LogTail.ReadLog | agent/src/LogCollector.cpp:119-220 | the whole request, with every refusal, its code and its text, equals its specification |
| LogTailLaws.ScanStops | agent/src/LogCollector.cpp:166-185 | the scan stops at the start of the file, after more than max_lines newlines without a keyword, or at exactly 8 MiB, and for no other reason |
| LogTailLaws.ScanSucceedsExactlyWhen | agent/src/LogCollector.cpp:166-185 | the scan ends at the first whole block from the end with enough, exactly if every block down to it can be read |
| LogTailLaws.LinesAgreeExactlyWhen | agent/src/LogCollector.cpp:162-218 | for any keyword, exactly when the lines are those of a forward scan of the whole file: the undamaged lines fill the window, or the first line in hand and the lines before it match and show as the condition says |
| LogTailLaws.TailAgreesExactlyWhen | agent/src/LogCollector.cpp:162-218 | the same without a keyword, in terms of how many lines the scan has in hand and what stands before them |
| LogTailLaws.TailIsExact | agent/src/LogCollector.cpp:162-218 | without a keyword they are the last max_lines lines of the file, unless the cap left at most max_lines lines in hand |
| LogTailLaws.EnoughNewlinesAreEnough | agent/src/LogCollector.cpp:182-184 | stopping early on the newline count never loses a line |
| LogTailLaws.TruncatedIsExact | agent/src/LogCollector.cpp:204-216 | without a keyword the flag is set exactly for a file of more than max_lines lines or with a line over 4096 bytes |
| LogTailLaws.CapHoldsALongLine | agent/src/LogCollector.cpp:17-21 | 8 MiB with at most 1000 newlines contain a line over 4097 bytes |
| LogTailLaws.TruncatedForAnyKeyword | agent/src/LogCollector.cpp:162-216 | with a keyword the scan covers the last 8 MiB, and the flag says that the file is larger, or that more than max_lines lines match, or that a matching line is over 4096 bytes |
| LogTailLaws.UntruncatedIsEverything | agent/src/LogCollector.cpp:201-218 | an unset flag means every matching line of the whole file, none shortened |
| LogTailLaws.AnswersArePresentable | agent/src/LogCollector.cpp:194-218 | at most max_lines lines of bounded, newline-free, well-formed UTF-8, from at most 8 MiB of the file |
| LogTailLaws.RefusedExactlyWhen | agent/src/LogCollector.cpp:130-176 | a request is refused exactly for an unknown id, a bad line count, a long keyword, a file that cannot be opened or measured, or a block that is needed and cannot be read, and the code says which |
| LogTailLaws.RefusalsAreNamed | agent/src/LogCollector.cpp:130-176 | the text of each refusal, in the order of the tests |
| LogTailLaws.CapCanDamageTheOnlyLine | agent/src/LogCollector.cpp:166-168 | a concrete file of one line over the cap whose answer is not the forward scan's |
| LogText.TailReadsBack | agent/src/LogCollector.cpp:119-220 | of any readable log of lines ended by LF or CR LF, up to 8 MiB: the answer is the last max_lines lines that contain the keyword, shortened to 4096 bytes, with the flag set exactly when that leaves something out |
| LogText.StreamReadsBack | agent/src/EdgeScopeServiceImpl.cpp:364-408 | a log that grows by lines within 4096 bytes is streamed as the lines that contain the keyword, under any schedule |
| LogText.OnePollReadsBack | agent/src/EdgeScopeServiceImpl.cpp:382-405 | one poll shows each of its lines by its first 4096 bytes, if those contain the keyword |
| LogFollow.WriteLines | agent/src/EdgeScopeServiceImpl.cpp:391-404 | the complete lines are written in order until the client stops accepting, and the rest is kept |
| LogFollow.StreamLog | agent/src/EdgeScopeServiceImpl.cpp:340-410 | the stream's messages are those of the state machine, cut off at the first failed write, also when the file cannot be opened or changes between `stat` and the read |
| LogFollowLaws.RememberedIsPathIndependent | agent/src/EdgeScopeServiceImpl.cpp:390-405 | what is remembered of an unfinished line does not depend on how it arrived, even when it is over-long |
| LogFollowLaws.FramingIsExact | agent/src/EdgeScopeServiceImpl.cpp:364-408 | for an append-only log any schedule remembers exactly the bytes after the last newline (their last 4096) and writes exactly the complete lines consumed, as they arrived: without a keyword one message a line, whole for every raw line within 4096 bytes; for any keyword the messages of the complete lines, if all are |
| LogFollowLaws.ChunkingDoesNotMatter | agent/src/EdgeScopeServiceImpl.cpp:364-408 | two schedules of polls and appends that reach the same offset remember the same; they have written the same if every complete raw line is within 4096 bytes, and without a keyword the same of every line that is |
| LogFollowLaws.RunStaysInStep | agent/src/EdgeScopeServiceImpl.cpp:376-405 | for any polls at all, across rotations, the unfinished line never mixes two texts, and the complete lines of each text are written in turn, as they arrived |
| LogFollowLaws.DamageIsLocal | agent/src/EdgeScopeServiceImpl.cpp:391-405 | an over-long line costs no other line anything: without a keyword message j is line j, whole if it is within 4096 bytes |
| LogFollowLaws.RotationsAreFollowed | agent/src/EdgeScopeServiceImpl.cpp:376-389 | across any number of rotations, by another inode or by a shorter file, one text is followed of each incarnation of the log, in order, and the incarnation begins with it |
| LogFollowLaws.ShrunkenFileIsRestarted | agent/src/EdgeScopeServiceImpl.cpp:376-390 | a file shorter than what was read is read from its beginning as a new text, whatever was unfinished |
| LogFollowLaws.FollowsTheFileExactlyWhen | agent/src/EdgeScopeServiceImpl.cpp:376-389 | the text followed is a text of the file exactly when the poll restarted or the file begins with what was read before |
| LogFollowLaws.CatchesUp | agent/src/EdgeScopeServiceImpl.cpp:382-389 | a log that stops growing is read at exactly 64 KiB a poll until its end |
| LogFollowLaws.OneLineWrittenPerNewline | agent/src/EdgeScopeServiceImpl.cpp:391-405 | without a keyword one message per newline consumed, over-long lines and rotations included |
| LogFollowLaws.PartialStaysBounded | agent/src/EdgeScopeServiceImpl.cpp:405 | the unfinished line stays within 4096 bytes and free of newlines |
| LogFollowLaws.SentLinesArePresentable | agent/src/EdgeScopeServiceImpl.cpp:395-402 | every message is one bounded line of well-formed UTF-8 |
| LogFollowLaws.StreamAgreesWithTail | agent/src/EdgeScopeServiceImpl.cpp:395-402 | the stream and the tail show the same of lines within 4096 bytes, although they filter and cut in opposite orders |
| WindowLaws.AlikeWindowsRepeat | agent/src/EdgeScopeServiceImpl.cpp:396-405 | pieces of 4096 bytes at every offset of a well-formed line are all shown alike only if it repeats one letter |
| LogBoundaryLaws.BoundaryIndependentExactlyWhen | agent/src/EdgeScopeServiceImpl.cpp:396-405 | for any well-formed line and keyword, exactly when the message does not depend on the boundary the line arrives across |
| LogBoundaryLaws.DeliveredAcross | agent/src/EdgeScopeServiceImpl.cpp:382-405 | whatever schedule delivers a line, it is shown as it arrives across one boundary from which one read reaches its end |
| LogBoundaryLaws.EveryBoundaryOccurs | agent/src/EdgeScopeServiceImpl.cpp:382-405 | every such boundary occurs under some schedule, from any state at the start of a line |
| LogBoundaryLaws.SchedulesAgreeExactlyWhen | agent/src/EdgeScopeServiceImpl.cpp:364-408 | from any state at the start of a well-formed line, exactly when all schedules of polls show the same of it |
| LogBoundaryLaws.PlainLineIndependentExactlyWhen | agent/src/EdgeScopeServiceImpl.cpp:396-405 | the condition for all keywords at once on a line of bytes below 0x80 |
| LogBoundaryLaws.ReturnCanCostALetter | agent/src/EdgeScopeServiceImpl.cpp:395-396 | a concrete line of 4096 letters and a carriage return that schedules disagree on |
| LogRewriteLaws.RewriteIsForgottenExactlyWhen | agent/src/EdgeScopeServiceImpl.cpp:376-405 | after an unnoticed rewrite, exactly when the unfinished line holds no old bytes |
| LogRewriteLaws.RewriteIsShownExactlyWhen | agent/src/EdgeScopeServiceImpl.cpp:376-404 | exactly when its messages are those of the new bytes alone, for any bytes and keyword: only the first line can differ |
| LogRewriteLaws.PlainRewriteIsShownExactlyWhen | agent/src/EdgeScopeServiceImpl.cpp:376-404 | the same in closed form for bytes below 0x80 and no keyword |
| LogRewriteLaws.UnnoticedRewrite | agent/src/EdgeScopeServiceImpl.cpp:376-404 | a concrete rewrite after which a line is sent that no log ever held |
| Bundles.DiagnosticCollector.CreateBundle | agent/src/DiagnosticCollector.cpp:114-266 | registry, directory and result after each way a call can end |
| Bundles.DiagnosticCollector.RemoveOldBundles | agent/src/DiagnosticCollector.cpp:286-292 | evicts from the front until five remain |
| Bundles.DiagnosticCollector.GetBundlePath | agent/src/DiagnosticCollector.cpp:268-284 | the first bundle of that identifier |
| Bundles.DiagnosticCollector.Close | agent/src/DiagnosticCollector.cpp:87-93 | removes the archive of every registered bundle |
| BundleLaws.IdsAreInjective | agent/src/DiagnosticCollector.cpp:128-133 | equal identifiers have equal sequence numbers, whatever the clock did |
| BundleLaws.CreatedExactlyWhen | agent/src/DiagnosticCollector.cpp:114-266 | a call succeeds exactly when every step does and the staging name is free; the names, the number used up and the registry after it |
| BundleLaws.RegistryIsTheLastFive | agent/src/DiagnosticCollector.cpp:260-265 | after any run of calls, failing or not, the registry is the last five successes in order |
| BundleLaws.OnlyStuckNamesAreLeft | agent/src/DiagnosticCollector.cpp:121-265 | after any run the directory holds what was there before, the registered archives, and beside them only names whose removal failed |
| BundleLaws.DiskIsTheRegistry | agent/src/DiagnosticCollector.cpp:121-265 | while removals succeed the directory holds exactly the registered archives and what was there before |
| BundleLaws.NoStagingRemains | agent/src/DiagnosticCollector.cpp:131-148 | no staging directory of the agent is left |
| BundleLaws.LookupFindsExactly | agent/src/DiagnosticCollector.cpp:274-283 | the first match is the only one, and a lookup succeeds exactly for a registered identifier |
| BundleLaws.LookupAfterRun | agent/src/DiagnosticCollector.cpp:268-284 | after a run the k-th success is found exactly when it is among the last five, and an evicted identifier finds nothing |
| BundleLaws.CloseRestoresDisk | agent/src/DiagnosticCollector.cpp:87-93 | shutdown leaves the directory as it was before the agent started |
| Download.DownloadDiagnosticBundle | agent/src/EdgeScopeServiceImpl.cpp:509-530 | the chunks sent are a prefix of the file's chunks, and exactly when the call ends in OK |
| Download.DiagnosticReceiver.OnChunk | client/src/RpcWorker.cpp:337-352 | a chunk out of place, of another total or not writable is refused, any other is appended |
| Download.CreateAndDownloadDiagnostic | client/src/RpcWorker.cpp:317-370 | which outcome is reported, what progress, and what is left at the destination, whether or not closing and removing the file succeed |
| DownloadLaws.ChunksPartitionTheFile | agent/src/EdgeScopeServiceImpl.cpp:509-523 | the chunks concatenate to the file at contiguous offsets, within 64 KiB, with eof on the last only |
| DownloadLaws.ReadyMeansEqual | client/src/RpcWorker.cpp:335-369 | under any loss, repetition or reordering of honest chunks, success is reported only for a file equal to the bundle |
| DownloadLaws.ReadyExactlyWhen | client/src/RpcWorker.cpp:335-369 | success exactly when the call ends well and one gapless run of writable chunks of the right total arrived, and which failure is reported otherwise |
| DownloadLaws.CutStreamSucceedsExactlyWhen | client/src/RpcWorker.cpp:335-369 | a stream cut short after n chunks succeeds exactly when n is all of them, and then yields the bundle |
| DownloadLaws.DownloadSucceedsExactlyWhen | agent/src/EdgeScopeServiceImpl.cpp:507-530 | agent and client together, for any damage, announced size, cancellation, refusal and local write errors: exactly when success is reported, and that the file is then the announced number of bytes of the archive |
| DownloadLaws.StatusExactlyWhen | agent/src/EdgeScopeServiceImpl.cpp:507-530 | in bytes, exactly when the call ends in OK: cut short by the client, cancelled, or complete and undamaged |
| DownloadLaws.UndisturbedDownloadSucceeds | agent/src/EdgeScopeServiceImpl.cpp:507-530 | when nothing disturbs the call the client reports the whole bundle |
| DownloadLaws.ProgressIsBytes | client/src/RpcWorker.cpp:349-351 | progress counts the bytes accepted so far and ends at the announced total on success |
| Sampler.MetricsSampler.StoreSample | agent/src/MetricsSampler.cpp:73-83 | what one sample changes |
| Sampler.MetricsSampler.GetLatest | agent/src/MetricsSampler.cpp:22-38 | the answer for the current state |
| Sampler.MetricsSampler.WaitForNext | agent/src/MetricsSampler.cpp:40-66 | the answer once the wait is over |
| Sampler.ReachableReflects | agent/src/MetricsSampler.cpp:5-95 | in every interleaving the generation is the number of samples published and the state describes the last of them |
| Sampler.LatestExactlyWhen | agent/src/MetricsSampler.cpp:29-37 | exactly when a reader is given metrics, and exactly when they are those of the generation reported |
| Sampler.AnswersAreFaithful | agent/src/MetricsSampler.cpp:22-66 | with named errors every successful answer is the sample of its generation, and a wait moves forward |
| Sampler.WaiterWakesExactlyWhen | agent/src/MetricsSampler.cpp:40-66 | a waiter is released exactly when a newer sample has been published or the sampler is stopping, and what it is told |
| Sampler.SamplingGoesOn | agent/src/MetricsSampler.cpp:86-95 | until it is stopped the worker can always publish another sample |
| Sampler.StoppingEnds | agent/src/MetricsSampler.cpp:11-20 | once stopping, at most one more sample and two more worker steps, and no waiter stays blocked |
| Sampler.StoppingWorkerExits | agent/src/MetricsSampler.cpp:11-20 | and the worker can always take those steps and has then exited, so that the destructor's join returns |
| SystemCollector.SystemCollector.Collect | agent/src/SystemCollector.cpp:143-153 | a snapshot of all sources, or the named failure of the first bad one, with every figure returned, and the new cpu baseline even if a later source fails |
| SystemCollector.SystemCollector.CollectCpuUsage | agent/src/SystemCollector.cpp:112-141 | the usage since the previous call, and the new baseline |
| SystemCollector.ReadMemoryMetrics | agent/src/SystemCollector.cpp:11-54 | accepted exactly when the figures are consistent; used plus available is total, without overflow |
| SystemCollector.UsageIsBusyShare | agent/src/SystemCollector.cpp:86-135 | for any two readings within 64 bits the percentage is the exact busy share of the ticks in between, and 0 when none passed or they cannot be compared |
| SystemCollector.ConsistentExactlyWhen | agent/src/SystemCollector.cpp:40-47 | which memory figures are accepted: both present, the total within 64 bits in bytes, no more available than there is |
| SystemCollectorLaws.MemoryIsRead | agent/src/SystemCollector.cpp:23-38 | the figures used are the last MemTotal and MemAvailable given in kB, whatever the other lines and units, however padded |
| MetricStream.StreamSystemMetrics | agent/src/EdgeScopeServiceImpl.cpp:548-599 | which intervals are refused, and the responses written for every other interval, sequence of answers and patience of the client |
| MetricStream.CeilingIsExact | agent/src/EdgeScopeServiceImpl.cpp:576-579 | the divider is the exact ceiling of the quotient of the two intervals |
| MetricStream.ForwardsFirstDue | agent/src/EdgeScopeServiceImpl.cpp:580-596 | each response after the first is the first observed generation far enough past the previous one |
| MetricStream.ResponsesCoverTheInterval | agent/src/EdgeScopeServiceImpl.cpp:580-596 | the sampling periods between two responses cover the requested interval |
| MetricStream.ForwardsEveryNth | agent/src/EdgeScopeServiceImpl.cpp:580-596 | a stream that misses no generation forwards exactly every n-th |
| MetricStream.ResponsesCoverTheRequest | agent/src/EdgeScopeServiceImpl.cpp:552-596 | the responses to a request are as far apart as requested, 1000 ms if it names no interval |
| MetricStream.EveryNthIsShown | agent/src/EdgeScopeServiceImpl.cpp:552-596 | a stream that misses nothing shows every n-th sample, for the first n whose periods cover the request |
| MetricStream.LoadedIntervalDivides | agent/src/AgentConfig.cpp:100-113 | no accepted configuration makes the divider divide by zero |
| MetricStream.SamplerAnswersAdvance | agent/src/EdgeScopeServiceImpl.cpp:581-585 | the sampler's answers advance, so the unsigned difference never wraps |
| MetricStream.StreamedSamplesAreFaithful | agent/src/EdgeScopeServiceImpl.cpp:562-596 | in one history of the sampler, every response written shows the very sample published at the generation it counts as |
| MetricStream.ForwardedComesFromAnswers | agent/src/EdgeScopeServiceImpl.cpp:590-595 | every response written carries the metrics and the generation of one answer |
| ProcStat.ParseStatLine | agent/src/ProcessCollector.cpp:116-193 | the parse, with each error in its order, equals its specification |
| ProcStatLaws.ParseUndoesPrint | agent/src/ProcessCollector.cpp:116-193 | every line of the proc_pid_stat(5) layout, of any process name, signs and length, is read back or refused for the first field that is wrong |
| ProcStatLaws.NameMissedExactlyWhen | agent/src/ProcessCollector.cpp:124-132 | exactly which lines hold no process name |
| Text.UnsignedOfPrinted | agent/src/ProcessCollector.cpp:156-162 | extraction into an unsigned integer reads a printed number back modulo 2^64, and fails exactly when its magnitude does not fit |
| Text.SignedOfPrinted | agent/src/ProcessCollector.cpp:145-152 | extraction into a signed integer reads a printed number back exactly in its range |
| TcpTable.ParseUnsigned | agent/src/NetworkCollector.cpp:25-33 | accepts exactly the non-empty digit strings of the base below 2^64 and returns their value |
| TcpTable.ParseEndpoint | agent/src/NetworkCollector.cpp:35-66 | the bytes and the port, or a refusal, equal the specification |
| TcpTable.FillAddress | agent/src/NetworkCollector.cpp:49-66 | the nested loops fill the array with the byte found at each position |
| TcpTable.ParseTcpLine | agent/src/NetworkCollector.cpp:231-262 | the parse of one line, with each error in its order |
| TcpTableLaws.ByteIsAtSource | agent/src/NetworkCollector.cpp:56-65 | each address byte stands where the parser looks for it in little-endian words |
| TcpTableLaws.EndpointIsRead | agent/src/NetworkCollector.cpp:35-66 | parsing undoes the kernel's printing of every IPv4 and IPv6 address and port |
| TcpTableLaws.EndpointAcceptedExactlyWhen | agent/src/NetworkCollector.cpp:35-66 | exactly which endpoints are accepted |
| TcpTableLaws.CaseDoesNotMatter | agent/src/NetworkCollector.cpp:25-33 | upper and lower case are read alike |
| TcpTableLaws.StatesAreNamed | agent/src/NetworkCollector.cpp:77-90 | the name of every state number |
| TcpTableLaws.LineIsRead | agent/src/NetworkCollector.cpp:231-262 | every socket line is read back, for any padding |
| TcpTableLaws.LineRefusedExactlyWhen | agent/src/NetworkCollector.cpp:231-262 | exactly which lines are refused, and for what |
| Config.SplitServices | agent/src/AgentConfig.cpp:51-62 | the trimmed non-empty segments between commas |
| Config.Load | agent/src/AgentConfig.cpp:66-143 | the configuration, or the first error with its line |
| ConfigText.LoadedFileIs | agent/src/AgentConfig.cpp:77-142 | comments, blank lines and white space change nothing, settings take effect in order over the defaults, and the first error carries its line number |
| ConfigText.SettingTakesEffectExactlyWhen | agent/src/AgentConfig.cpp:93-138 | which key means what, which values it takes and how a bad one is reported |
| ConfigText.ServicesTakeEffectExactlyWhen | agent/src/AgentConfig.cpp:51-62 | the names between the commas are the services, if all are acceptable |
| ConfigLaws.AddressAcceptedExactlyWhen | agent/src/AgentConfig.cpp:22-38 | exactly which addresses are accepted: a host, and after the last colon a number that is a port modulo 2^64 |
| ConfigLaws.IntervalAcceptedExactlyWhen | agent/src/AgentConfig.cpp:99-113 | exactly which sampling intervals are accepted |
| ConfigLaws.NegativeNumbersAreAccepted | agent/src/AgentConfig.cpp:22-38 | the negative number n - 2^64 passes as the port or the interval n |
| ConfigLaws.ServiceNameAcceptedExactlyWhen | agent/src/AgentConfig.cpp:40-49 | exactly which service names are accepted |
| ConfigLaws.LoadedIsUsable | agent/src/AgentConfig.cpp:93-140 | whatever is accepted has an interval within 100 and 60000 ms, a host and a port, absolute paths and service names of the accepted form |
| ConfigLaws.LoadUndoesPrint | agent/src/AgentConfig.cpp:77-142 | every usable configuration whose values fit on a line loads back unchanged |
| Digits.ValueUndoesPrint | agent/src/DiagnosticCollector.cpp:128-130 | decimal and hexadecimal printing is injective: reading gives the number back |

## Left out

- LogTail.ReadLog: the comparisons with a forward scan are with what the reads returned; a log rewritten in place during one scan is not told apart from that.
- LogRewriteLaws.PlainRewriteIsShownExactlyWhen: closed form for bytes below 0x80 without a keyword only; for other bytes two different cuts of a character can be shown alike, and `RewriteIsShownExactlyWhen` compares the two first messages.
- LogBoundaryLaws.SchedulesAgreeExactlyWhen: stated for well-formed lines. Ill-formed bytes are all shown as U+FFFD, so that lines without any repetition can agree too; `SchedulesAgreeLikeBoundaries` reduces every line, ill-formed or not, to its boundaries.
- LogFollow.StreamLog: sleeping between polls and the moment of cancellation are the end of the list of polls.
- Download.DiagnosticReceiver.OnChunk: the byte counter is unbounded here; in 64 bits it would wrap after 2^64 bytes. A failed local write leaves the model's file unchanged, since the file is removed anyway.
- Download.DownloadDiagnosticBundle: the refusals before the loop (an empty or unknown identifier, an archive that cannot be opened) are not modelled here; the lookup itself is `Bundles.DiagnosticCollector.GetBundlePath`.
- Sampler.MetricsSampler.WaitForNext: blocking is an event that happens only when its condition holds; fairness of the scheduler is not modelled.
- Sampler.ReachableReflects: stated for fewer than 2^64 samples, after which the generation wraps.
- BundleLaws.LookupAfterRun: stated for fewer than 2^64 calls, after which the sequence number wraps.
- ProcStat.ParseStatLine: fields that the source writes before it fails are not part of the result.
- TcpTable.ParseEndpoint: stops at the sixteen address bytes; the text form made by `inet_ntop` is library behaviour.
- SystemCollector.SystemCollector.Collect: cpu percentages are reals instead of doubles, and the load averages and the uptime arrive already parsed.
- Output parameters that are null, and the return value for them, in every function.
- The log-stream thread of the client (`StartLogStream`, `StopLogStream`): start, cancel and join in a fixed order would only add easy members.
- `ParseStatus`, `ParseIo` and `ParseKilobyteField`: key lookups over the same extraction; they would only add easy members.
- `ServiceManager`, `ProcessController`, `AgentLogger`, the error-to-status switches and the whitelist of log paths: lookups and single-branch mappings.
- Directory walks of `/proc` and `/sys`, `getifaddrs`, `fork` and `exec` of `tar` and `systemctl`, signals, gRPC transport and deadlines, the Qt interface and the command line client.
