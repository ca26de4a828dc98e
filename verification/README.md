# Verification of the runtime kernel's bounded resources and parsers

This project models the Rust runtime kernel: what it keeps on disk and in memory under a bound, what it reads from git
and from its peers byte by byte, and what it records about every effect. The model is written in Dafny 4.11. Code that
works by changing state is a class or a method over the same fields, tied by its contract to a function of the old
state; what the program promises is proved about those functions, and about step machines that interleave them. Code
that only computes is a function, proved against a printer, an independent definition, or an exact condition.

`dafny verify dfyconfig.toml` checks everything.

## How it is organised

- `Wrappers`, `Bytes`, `Utf8`, `MapSums`: optional values, byte strings, decimals, the UTF-8 automaton of section 4 of
  RFC 3629, sums over maps.
- `Framing`: the Content-Length frame reader and writer.
- `SpoolWriter`, `Retention`, `Spool`, `SpoolProtocol`, `SpoolRefinement`: the artifact spool, from one writer to every
  interleaving of creates, writes, drops and crashes, and one uninterrupted call as a run of that.
- `Capture`, `CaptureRuns`: the two-stream capture loop and the bounded channel that feeds it, and the loop's answer to
  any events at all.
- `HistoryText`, `HistoryCommand`, `Patch`, `HistoryLog`, `CommitObject`, `CommitLanguage`, `ChangedPaths`,
  `ChangedPathsLanguage`: what the git history reader makes of captured output, and exactly which commit objects and
  changed-path streams it reads.
- `Porcelain`, `PorcelainLanguage`, `CheckpointIdentity`, `Checkpoint`: the checkpoint status parser and the language it
  accepts, the identities attached to its records, and the whole operation from the captured status command to its
  answer.
- `AuditLog`, `AuditLines`, `AuditBracket`: the rotating, self-poisoning log, which of its records are lines of their
  own, and the requests that bracket their effects with it.
- `Operations`, `OperationsProtocol`, `CancelActs`, `StatusRuns`, `LivePreview`, `PreviewCuts`, `PreviewRuns`,
  `Executions`: process records, their workers and cancels, what a cancel does and what its answer means, what a caller
  is told and sees of the output while a process runs and when it completes, and the registry of executions.
- `Policy`: restrictions and everything a policy decides.

Strings and file contents are sequences of bytes, written as characters below 256. Times, identifiers, disk errors,
exit codes, read sizes, the order in which a directory or a hash map is listed, and the failure of an append are
parameters of the model, so every theorem holds for all of them. Sixty-four-bit saturation and wrap-around are written
out. Every lemma switches Dafny's automatic induction off.

## Where the code and its description differ

- The strict text bound drops an unfinished character at the end of its input without reporting it
  (`Patch.UnlimitedPatchIsWhole`, with the one-byte stream of `Patch.UnfinishedCharacterIsUnreported`). It does not
  matter for patches: git ends each with a line end, so one for which no limit is reported is everything git wrote
  (`Patch.UnlimitedIsEverything`), and one that fits is returned whole or refused (`Patch.WholeOrRefused`).
- An identity line gives back its name exactly when neither name nor address is empty and the address contains no ` <`;
  the name itself may (`CommitObject.IdentityRoundTrip`). `Foo <> 0 +0000`, whose address is empty, is refused
  (`CommitObject.EmptyAddressIsRefused`), and its commit with it (`CommitObject.CommitRoundTrip`).
- Success of the changed-path join means that both streams name the same paths exactly up to 500 entries
  (`ChangedPaths.UpToTheLimitTheyAgree`); of longer streams only the first 500 names and the number of entries are
  compared, and later names may even repeat (`ChangedPaths.AcceptedExactly`), so each has an accepted partner that
  disagrees with it
  (`ChangedPaths.BeyondTheLimitIsUnchecked`, with the streams of `ChangedPaths.DisagreementIsAccepted`).
- The totals of changed lines are exact exactly below 2^64 (`ChangedPaths.SummaryIsExact`).
- Commit objects are read under a 64 KiB limit on the whole object, so a commit with a short header and a long message
  is refused, although the parser alone would accept it (`HistoryLog.SummaryIsRead`, `CommitObject.CommitRoundTrip`).
  One such commit, or one with an unreadable identity, fails the whole log it is shown in (`HistoryLog.LogIsExact`).
- Completion can change the previews a caller has already seen. `PreviewCuts.CompletionExactly` says exactly when it
  does not, for reads of any length, and `PreviewRuns.CompletionShowsSame` over whole runs. While the output is no
  longer than a preview, text and flag stay exactly when no read splits a character or an invalid piece and every read
  fitted the room the text before it had left (`LivePreview.ShortOutputExactly`); below a third of the limit the second
  condition always holds (`LivePreview.SplitsExactly`). Each fails on its own: a character split between two reads
  (`LivePreview.SplitCharacterDiffers`), and 48 KiB of bytes that are no text, of which nothing is split
  (`LivePreview.InvalidBytesOverflow`). Longer output is flagged before and after. Its text stays exactly when the reads
  make as many parts of what the live preview took as the captured preview has pieces, and nothing but replacement
  characters is shown from the first split piece on; where the live preview took as many bytes as the captured one that
  means that no part it took splits a piece (`LivePreview.LongOutputExactly`). When each read is text of its own
  completion changes nothing at any length (`LivePreview.CompletionChangesNothing`).
- An acknowledged audit record is a line of its own exactly when the live file is empty or ends in a line end at the
  append. After a write torn inside a record and a reopening it is glued to the torn bytes
  (`AuditLines.AcknowledgedStartsLine`, with the runs of `AuditLines.GluedRecord`).
- The staged half of a checkpoint diff leaves its execution registered exactly when writing its header fails
  (`Executions.RunStagedPatch`, `Executions.StrandedExactly`).
- Some refused restrictions would grant nothing new. For any two policies `Policy.WiderExactly` says when the second
  grants something new. A restriction that can launch is refused needlessly exactly when only its two lists refuse it,
  each unlisted executable is one that the current policy admits dynamically, and no launch may set an unlisted variable
  (`Policy.NeedlessRefusalExactly`): naming `cargo` under a dynamic policy (`Policy.DynamicCeilingRefusesHarmlessName`)
  and listing `HOME` (`Policy.UnusableVariableIsRefused`) are two. One that cannot launch is refused needlessly exactly
  when it is refused and what it may mutate is within the current policy, so every refused `Observe` restriction is
  (`Policy.IdleRefusalExactly`, with the two policies of `Policy.IdleNetworkIsRefused`).
- Network modes are compared by rank, but the sandbox starts no child under the two middle ones. An accepted restriction
  lets something start that did not exactly when it denies the network of launches that had a middle one
  (`Policy.StartsMoreExactly`).

## Model

| member | source | states |
|---|---|---|
| Utf8.ValidExactly | crates/runtime/src/git_history.rs:1450-1462 | The byte automaton accepts exactly the encodings of sequences of Unicode scalar values. |
| Utf8.ValidUpToIsLongest | crates/runtime/src/git_history.rs:1450-1462 | `valid_up_to` is the longest valid prefix, and the whole string exactly when it is valid. |
| Utf8.CutOfValid | crates/runtime/src/git_history.rs:1450-1462 | Any byte cut of valid text is valid up to at most three bytes before the cut, and what is left is an unfinished character. |
| Utf8.CharBoundaryExactly | crates/runtime/src/git_history.rs:700-708 | A cut of valid text at a position is valid exactly when the position is a character boundary. |
| Utf8.LossyExactly | crates/runtime/src/git_history.rs:700-708 | Lossy conversion changes exactly the strings that are not UTF-8. |
| Utf8.LossyJoins | crates/runtime/src/process.rs:661-668 | Converting two parts separately gives the conversion of the whole exactly when they meet at the end of a character or of an invalid piece; otherwise it is strictly longer. |
| HistoryText.StrictBoundOnText | crates/runtime/src/git_history.rs:1450-1462 | On valid text the strict bound never fails, gives the longest whole-character prefix and loses at most three bytes. |
| HistoryText.StrictBoundOnBytes | crates/runtime/src/git_history.rs:1450-1462 | On any bytes, an accepted bound is a valid prefix within the limit, at most three bytes short. |
| HistoryText.ShortenedIsLongest | crates/runtime/src/git_history.rs:700-708 | The lossy bound is the longest whole-character prefix within the limit. |
| HistoryText.BoundedLossyUtf8 | crates/runtime/src/git_history.rs:700-708 | The backward loop finds that prefix and reports lossiness exactly for invalid input. |
| Framing.FrameReader.ReadHeader | crates/protocol/src/frame.rs:56-87 | The byte loop consumes exactly what it pushed and stops as the header scan says. |
| Framing.FrameReader.ReadFrame | crates/protocol/src/frame.rs:56-121 | One call's result and the input it leaves are those of the one-frame reader. |
| Framing.FrameWriter.WriteFrame | crates/protocol/src/frame.rs:123-135 | A body within 8 MiB is appended in its encoding; a larger one is refused and nothing written. |
| Framing.RoundTrip | crates/protocol/src/frame.rs:56-135 | Reading a written frame gives the body back and leaves what follows. |
| Framing.AcceptedExactly | crates/protocol/src/frame.rs:56-135 | A frame is accepted exactly when the input begins with the encoding of a body of at most 8 MiB: the incremental checks reject nothing else. |
| Framing.CutIsTruncated | crates/protocol/src/frame.rs:56-135 | Any cut strictly inside a frame is reported as truncated. |
| Framing.StreamRoundTrip | crates/protocol/src/frame.rs:56-135 | Reading any concatenation of written frames gives exactly the bodies and then the end of the stream. |
| Framing.ErrorsExactly | crates/protocol/src/frame.rs:56-121 | For any input: the end exactly for nothing; truncation exactly for a header in the making, of at most 64 bytes, or a body shorter than declared; too large exactly for a well-spelled length of 64 bits above 8 MiB. |
| SpoolWriter.RawSpoolWriter.WriteSource | crates/runtime/src/spool.rs:393-405 | The writer's new state and count, for a disk that stores or fails after some bytes. |
| SpoolWriter.WritesConcatenate | crates/runtime/src/spool.rs:393-405 | Only the concatenation of the writes matters: the first 64 MiB are kept and the flag says whether there was more. |
| SpoolWriter.WriteStaysCapped | crates/runtime/src/spool.rs:393-405 | Whatever the disk does the file keeps its beginning and stays within 64 MiB. |
| Retention.SortSorts | crates/runtime/src/spool.rs:345 | Sorting orders candidates by age then name and is a permutation. |
| Retention.OneQueue | crates/runtime/src/spool.rs:319-345 | The queue does not depend on the order the directory was read in. |
| Retention.EvictsShortestPrefix | crates/runtime/src/spool.rs:346-353 | The victims are the shortest prefix that brings the projection to the target, or everything. |
| Retention.RetentionKeeps | crates/runtime/src/spool.rs:310-358 | Active entries, irregular ones and those not named as artifacts are untouched; every other artifact of a day or more goes. |
| Retention.QuotaExactly | crates/runtime/src/spool.rs:342-358 | `QuotaExceeded` is returned exactly when sixteen writers are active, and success means the committed total is at most 960 MiB. |
| Retention.EvictionExactly | crates/runtime/src/spool.rs:342-358 | An artifact of less than a day is evicted exactly when removing everything written before it, or at the same time and before it in byte order, would still leave more than 960 MiB. |
| Retention.QuotaNeverSaturates | crates/runtime/src/spool.rs:337-352 | Under the quota the projection is the exact sum: nothing saturates. |
| Retention.RemainingIsCommitted | crates/runtime/src/spool.rs:346-357 | The projection that decides the answer is what is committed after the pass. |
| Spool.RawSpoolStore.Scan | crates/runtime/src/spool.rs:317-340 | Whatever the listing order, the scan removes exactly the expired artifacts and collects the others with their saturated size. |
| Spool.RawSpoolStore.Evict | crates/runtime/src/spool.rs:346-353 | The size loop removes the evicted prefix and ends with its projection. |
| Spool.RawSpoolStore.EnforceRetentionInner | crates/runtime/src/spool.rs:310-358 | The pass is the retention function of the directory and the active set. |
| Spool.RawSpoolStore.EnforceRetention | crates/runtime/src/spool.rs:284-308 | The pass between its two audit records, either of which may fail. |
| Spool.RawSpoolStore.CreateFile | crates/runtime/src/spool.rs:360-382 | The first free name among at most eight is created empty. |
| Spool.RawSpoolStore.Create | crates/runtime/src/spool.rs:116-198 | The new directory, active set, issued set and answer, for every outcome of its audit records. |
| Spool.ReleaseKeepsSettled | crates/runtime/src/spool.rs:421-427 | Dropping a writer exchanges its reservation for what it wrote: the store stays within its quota and never holds more than before. |
| Spool.WriterLifetime | crates/runtime/src/spool.rs:116-427 | From a successful call through any stored writes to the drop: the artifact is the first 64 MiB written, the active set is what it was, and at most the written bytes were added to what is committed. |
| Spool.FreeNameExactly | crates/runtime/src/spool.rs:360-382 | A name is found exactly when one of the first eight is free, and is the first that is. |
| Spool.AdmittedExactly | crates/runtime/src/spool.rs:116-198 | A writer is admitted exactly when the call is well formed, new and audited, fewer than sixteen are active, and a name is free. |
| Spool.CreateKeepsSettled | crates/runtime/src/spool.rs:116-198 | Every call keeps the quota and every active artifact; a refusal adds nothing. |
| Spool.ChangesAreAudited | crates/runtime/src/spool.rs:116-308 | For every call and audit outcome: without a durable cleanup decision nothing changes at all; a file goes only after one; a file appears, or a writer becomes active, only after all four records are durable. |
| Spool.RefusedExactly | crates/runtime/src/spool.rs:116-308 | Which error each call gets, for every store and audit outcome, in terms of its arguments, the active writers and the free names. |
| Spool.ReadsAtOffset | crates/runtime/src/spool.rs:238-282 | One read returns the bytes at its offset; it is empty exactly past the end, and `eof` says whether any are left. |
| Spool.ReadExactly | crates/runtime/src/spool.rs:200-282 | For any store and arguments: what refuses a read, check by check, and otherwise the bytes at the offset, the next offset and the end flag; nothing is read without both records. |
| Spool.ReadsReassemble | crates/runtime/src/spool.rs:200-282 | Following `next_offset` through any permitted sizes and short reads gives each byte once and in order, and reaches `eof`. |
| SpoolProtocol.QuotaSafety | crates/runtime/src/spool.rs:102-198 | In every run from an empty directory, completed sizes plus 64 MiB for each active writer, and so the bytes on disk, stay within 1 GiB. |
| SpoolProtocol.StepKeeps | crates/runtime/src/spool.rs:310-427 | Each step of scan, eviction, creation, write, drop and crash keeps the invariant. |
| SpoolProtocol.EvictDoneKeeps | crates/runtime/src/spool.rs:346-358 | An eviction that ends leaves room for one more writer, however many were dropped meanwhile. |
| SpoolProtocol.WriteKeeps | crates/runtime/src/spool.rs:393-405 | Writes racing a scan stay inside their reservations. |
| SpoolProtocol.ActiveArtifactsStay | crates/runtime/src/spool.rs:310-358 | No step removes an active artifact or any byte of it. |
| SpoolProtocol.ProjectionIsExact | crates/runtime/src/spool.rs:342-353 | At every step of every eviction the projection is exactly what is charged. |
| SpoolProtocol.VictimIsOldest | crates/runtime/src/spool.rs:345-353 | Nothing is evicted at 960 MiB or less, and each victim was written before every other completed artifact left, or comes before it in byte order. |
| SpoolProtocol.RefusedWhenFull | crates/runtime/src/spool.rs:354-357 | A pass runs out of victims above the target exactly when its snapshot held sixteen writers. |
| SpoolRefinement.PassIsARun | crates/runtime/src/spool.rs:310-358 | Scan, sort and eviction, one step at a time and uninterrupted, leave exactly what the whole retention pass leaves, with its answer. |
| SpoolRefinement.CreateIsARun | crates/runtime/src/spool.rs:116-198 | For every store, arguments and audit outcomes, an uninterrupted run of the locked steps leaves the files, active names and writer that the whole call leaves. |
| SpoolRefinement.WriteIsTaken | crates/runtime/src/spool.rs:393-405 | A write lands in the file up to 64 MiB of all that was written; only a disk failure with something left to write ends the writer, and then a beginning is kept. |
| Capture.CaptureChildWithBudget | crates/runtime/src/git.rs:2553-2697 | The loop over received messages computes the capture function, for every policy, disk and wait outcome. |
| Capture.Confluence | crates/runtime/src/git.rs:2553-2697 | For every chunking and interleaving of two streams the answer depends on the streams and the budget alone, with exact previews and flags for each policy. |
| Capture.LegacyAndFailAgree | crates/runtime/src/git.rs:2553-2697 | A legacy run and a `Fail` run over the same streams agree, and `Fail` succeeds exactly when both fit. |
| Capture.EveryRunIsASchedule | crates/runtime/src/git.rs:2711-2734 | Every run of the two readers over the bounded channel delivers one of those schedules. |
| Capture.EveryRunIsAnswered | crates/runtime/src/git.rs:2553-2734 | At whatever point of any run of readers, channel and loop the loop ends, aborted by an overflow or done, its answer is the one the two streams and the budget fix. |
| CaptureRuns.EveryEndIsAnswered | crates/runtime/src/git.rs:2553-2697 | For any events, not only schedules: whatever ends the loop, a deadline, the second reader, a closed channel, a failed write or an overflow, decides the answer and the artifact. |
| CaptureRuns.SuccessExactly | crates/runtime/src/git.rs:2553-2697 | A capture succeeds untruncated exactly when both readers ended while the loop ran, neither failed, and the child could be waited for; then it shows the streams received. |
| CaptureRuns.TimeoutExactly | crates/runtime/src/git.rs:2588-2599 | It is a timeout exactly when the deadline passed while the loop ran. |
| CaptureRuns.FailureExactly | crates/runtime/src/git.rs:2553-2697 | It fails exactly when the channel closed early or a reader had failed when both had ended. |
| HistoryCommand.RunHistoryCommand | crates/runtime/src/git_history.rs:874-899 | A history command's output, with the artifact's flag added, or its mapped error. |
| HistoryCommand.OutputExactly | crates/runtime/src/git_history.rs:710-718 | For every schedule, output within the limit is read whole and longer output is refused: nothing is shortened silently. |
| HistoryCommand.ReadExactly | crates/runtime/src/git_history.rs:849-899 | For any events: output is read exactly when it was delivered in time within its limits and the child exited with zero, and then all of it; a timeout is reported exactly when the deadline passed first. |
| HistoryCommand.OutputNeedsSuccess | crates/runtime/src/git_history.rs:458-472 | Output within the limit of a command that ends otherwise, by code, signal or a failed wait, is a read failure. |
| HistoryCommand.ErrorsAreBounded | crates/runtime/src/git_history.rs:710-718 | A command whose error stream exceeds 16 KiB fails, whatever it printed. |
| Patch.PatchIsPrefix | crates/runtime/src/git_history.rs:1550-1581 | A returned patch is a valid prefix of git's output within the requested size. |
| Patch.UnlimitedIsEverything | crates/runtime/src/git_history.rs:1672-1705 | A patch for which no limit is reported is everything git wrote, for every line-ended stream and schedule. |
| Patch.WholeOrRefused | crates/runtime/src/git_history.rs:1550-1581 | A line-ended patch that fits the requested size is returned whole with no limit reported, or refused exactly when it is not UTF-8. |
| Patch.UnlimitedPatchIsWhole | crates/runtime/src/git_history.rs:1672-1705 | For a stream that ends anywhere, the unlimited patch is at most three bytes short, and the whole stream exactly when that is UTF-8. |
| Patch.TextPatchSucceeds | crates/runtime/src/git_history.rs:1550-1581 | A UTF-8 patch never fails; it is its longest prefix, flagged exactly when longer than requested. |
| Patch.UnfinishedCharacterIsUnreported | crates/runtime/src/git_history.rs:1450-1462 | A concrete stream with no line end, half a character, that is dropped with no limit reported. |
| Patch.PatchNeedsSuccess | crates/runtime/src/git_history.rs:1550-1581 | For any events: a patch that was delivered is used exactly after exit zero, with its limit reported exactly when it is longer than requested; any other patch that is answered reports its limit. |
| Patch.ExitIsIgnoredExactly | crates/runtime/src/git_history.rs:1550-1581 | For every schedule: a command that does not exit with zero fails its patch exactly when its output was not cut, so fits the requested size and 16 KiB more; a cut one reports its limit. |
| HistoryLog.ParseOidWalk | crates/runtime/src/git_history.rs:1179-1192 | The walk parser accepts exactly valid text all of whose lines are identifiers, and returns them. |
| HistoryLog.WalkExactly | crates/runtime/src/git_history.rs:1179-1192 | Which bytes are which walk: identifiers, each before a line end with or without a carriage return, the last with none of either if unended. |
| HistoryLog.RunGitLog | crates/runtime/src/git_history.rs:1227-1281 | The log from the walk on computes the log function. |
| HistoryLog.ReadCommits | crates/runtime/src/git_history.rs:1254-1266 | The commit loop reads in order and stops at the first failure. |
| HistoryLog.SummaryIsRead | crates/runtime/src/git_history.rs:442-496 | A printed commit is refused when its whole object exceeds 64 KiB, refused when an identity is unreadable, and read back otherwise. |
| HistoryLog.LogIsExact | crates/runtime/src/git_history.rs:1227-1281 | For every schedule of every command and every printable history: success exactly when each shown commit fits 64 KiB and has readable identities, then all in order as their objects say with `truncated` exactly when there are more; otherwise the error of the first that fails. Commits beyond the limit are not asked for. |
| HistoryLog.LogIsSound | crates/runtime/src/git_history.rs:1205-1281 | Whatever the events: a successful log comes from a walk and commits that were read whole from commands that exited with zero, in order, at most as many as asked for. |
| HistoryLog.FailedWalkFails | crates/runtime/src/git_history.rs:1227-1242 | A walk that does not exit with zero fails the log, whatever it printed within its limit. |
| HistoryLog.StrangeWalkFails | crates/runtime/src/git_history.rs:1242-1252 | So does one that prints anything but identifiers, or too many. |
| HistoryLog.LongWalkFails | crates/runtime/src/git_history.rs:1227-1247 | So does one that prints more than 32 KiB. |
| HistoryLog.FailedCommitFails | crates/runtime/src/git_history.rs:1254-1266 | And so does the first shown commit whose command does not exit with zero. |
| Porcelain.ParseCheckpointStatus | crates/runtime/src/git.rs:1840-1932 | The index loop computes the parser function. |
| Porcelain.StatusRoundTrip | crates/runtime/src/git.rs:1840-2019 | Printed records come back, the first 10000 of them under the same head, truncated exactly when there were more. |
| Porcelain.LettersComeBack | crates/runtime/src/git.rs:2009-2019 | Each parsed record gives back its two printed letters: absent exactly for a dot, else the letter itself. |
| PorcelainLanguage.ParsesExactly | crates/runtime/src/git.rs:1840-2019 | For any bytes, cut or not: a status is answered exactly when the output is made of head, ignored and entry lines with one head, and then it is that head, the records of the entries up to 10000, and whether anything was left out. |
| Porcelain.EntryItem | crates/runtime/src/git.rs:1934-2019 | Each printed record's field is parsed back into that record, paths with spaces, tabs and arrows included. |
| Porcelain.CutIsPrefix | crates/runtime/src/git.rs:1840-1932 | For any accepted output cut at any byte, the result is a refusal for want of a head or the same head, a prefix of the records and the truncation flag. |
| Porcelain.CutOfStatus | crates/runtime/src/git.rs:1840-1932 | On printed output that refusal happens exactly when the head line itself was cut. |
| CheckpointIdentity.AttachCurrentIdentities | crates/runtime/src/git.rs:2021-2064 | The loop updates the records in place as the attaching function says, stopping where an error leaves them. |
| CheckpointIdentity.RecordsAreKept | crates/runtime/src/git.rs:2021-2074 | Only identities change, only where needed, and after success every needed one is there. |
| CheckpointIdentity.NeedsExactly | crates/runtime/src/git.rs:2066-2074 | An identity is needed exactly for an untracked path or a worktree letter other than a dot and `D`. |
| CheckpointIdentity.AttachedExactly | crates/runtime/src/git.rs:2021-2064 | For any files, changing or not: which identity each record gets, told from the sizes hashed before it; that the answer says whether one was cut short; and that it fails exactly where an identity cannot be had. |
| CheckpointIdentity.BudgetHolds | crates/runtime/src/git.rs:2045-2060 | For unchanging files at most 64 MiB are hashed. |
| CheckpointIdentity.CompleteExactly | crates/runtime/src/git.rs:2021-2064 | The checkpoint is complete exactly when every needed path is a file or link hashed whole and all fit the budget. |
| Checkpoint.RunGitCheckpoint | crates/runtime/src/git.rs:1618-1642 | The capture loop, the status parser and the in-place identity loop, one after the other, compute the checkpoint function. |
| Checkpoint.OutputDecides | crates/runtime/src/git.rs:1618-1642 | For every chunking and interleaving of the status command's streams the answer depends on its output alone. |
| Checkpoint.CheckpointNeedsSuccess | crates/runtime/src/git.rs:1618-1643 | For any events: only a delivered status command that exited with zero is parsed, up to 4 MiB; any other exit is a failed command and any other end no capture. |
| Checkpoint.UntruncatedIsWhole | crates/runtime/src/git.rs:1597-1643 | For every schedule and any output, an untruncated checkpoint has the whole output's head and records, and every needed identity is its path's, hashed whole. |
| Checkpoint.UntruncatedExactly | crates/runtime/src/git.rs:1597-1643 | On printed output it is untruncated exactly when the output fits 4 MiB, the records 10000, and the needed paths are files or links hashed whole of at most 64 MiB; its records are always the first printed ones, and only an identity can fail it. |
| CommitObject.I64RoundTrip | crates/runtime/src/git_history.rs:654-691 | A printed 64-bit time is parsed back. |
| CommitObject.IdentityRoundTrip | crates/runtime/src/git_history.rs:654-691 | Every identity line is read with the name before its last ` <` or refused; it gives back its own name and time exactly when neither name nor address is empty and the address contains no ` <`. |
| CommitObject.EmptyAddressIsRefused | crates/runtime/src/git_history.rs:687-689 | A concrete line with an empty address that is refused. |
| CommitObject.ParseHeader | crates/runtime/src/git_history.rs:572-626 | The line loop over the header computes the header state. |
| CommitObject.ParseCommitObject | crates/runtime/src/git_history.rs:556-652 | The method computes the summary function, errors included. |
| CommitObject.ParseCommitDetail | crates/runtime/src/git_history.rs:521-554 | The method computes the detail function. |
| CommitObject.CommitRoundTrip | crates/runtime/src/git_history.rs:521-652 | Every printed commit: refused as too long exactly when its header exceeds 64 KiB, as unreadable exactly when one of its identities then is, and otherwise back with parents in order, times, bounded name and subject. |
| CommitObject.CanonicalExactly | crates/runtime/src/git_history.rs:587-631 | It is read as written exactly when its author's line gives back its name and its committer's is readable. |
| CommitObject.MessageComesBack | crates/runtime/src/git_history.rs:521-554 | Subject and body are split as written. |
| CommitLanguage.MessageExactly | crates/runtime/src/git_history.rs:521-554 | For any message: which subject and body it has, with or without an empty line between. |
| CommitObject.ShortTextComesBack | crates/runtime/src/git_history.rs:700-708 | Valid text is cut to its longest whole-character prefix and is whole when it fits. |
| CommitObject.TextCommitRoundTrip | crates/runtime/src/git_history.rs:521-652 | A canonical commit with valid text comes back exactly, field by field. |
| CommitLanguage.SignatureTaken | crates/runtime/src/git_history.rs:654-691 | Every identity line that is read is one name, one address without ` <`, one 64-bit time and one zone. |
| CommitLanguage.SignatureParses | crates/runtime/src/git_history.rs:654-691 | And every such line is read so. |
| CommitLanguage.SummaryExactly | crates/runtime/src/git_history.rs:556-652 | For any bytes: an object is shown exactly when it is header lines in any order, with one tree, one author and one committer, then an empty line within 64 KiB and a message; and what it is shown as. |
| CommitLanguage.DetailExactly | crates/runtime/src/git_history.rs:521-554 | The same for the detail: its body, the two limits that flag it, and the three texts that make it lossy. |
| CommitLanguage.TooLongExactly | crates/runtime/src/git_history.rs:556-570 | An object is refused as too long exactly when it exceeds 64 KiB and no empty line ends within them. |
| ChangedPaths.ReadStatuses | crates/runtime/src/git_history.rs:217-232 | The pairwise loop reads the statuses function. |
| ChangedPaths.CollectStats | crates/runtime/src/git_history.rs:234-259 | The numstat loop fills the map or fails on a malformed or repeated record. |
| ChangedPaths.SummarizeStats | crates/runtime/src/git_history.rs:264-269 | The totals over the map in any order, wrapping at 64 bits. |
| ChangedPaths.ParseChangedPaths | crates/runtime/src/git_history.rs:212-293 | The method computes the join function. |
| ChangedPaths.JoinIgnoresStatOrder | crates/runtime/src/git_history.rs:212-293 | Any permutation of the numstat records gives the same answer, for any bytes. |
| ChangedPaths.JoinRoundTrip | crates/runtime/src/git_history.rs:212-293 | Distinct valid paths come back in name-status order with their own counts, the first 500, summarised over all. |
| ChangedPaths.SummaryIsExact | crates/runtime/src/git_history.rs:264-269 | The totals are exact exactly below 2^64. |
| ChangedPaths.AcceptedNamesAgree | crates/runtime/src/git_history.rs:261-286 | Up to 500 entries, success means both streams name exactly the same paths. |
| ChangedPaths.AcceptedExactly | crates/runtime/src/git_history.rs:217-286 | Any list's names and any list's counts are accepted exactly when the lists are equally long, no path is counted twice, and the first 500 names are counted and named once. |
| ChangedPaths.UpToTheLimitTheyAgree | crates/runtime/src/git_history.rs:217-286 | With at most 500 names, acceptance is equality of the two sets of paths, each named and counted once. |
| ChangedPaths.BeyondTheLimitIsUnchecked | crates/runtime/src/git_history.rs:261-286 | For every list of more than 500 entries, exchanging the last path in one stream is accepted, and the first 500 entries are shown. |
| ChangedPaths.DisagreementIsAccepted | crates/runtime/src/git_history.rs:261-286 | A concrete pair of 501-entry streams that is accepted while disagreeing. |
| ChangedPathsLanguage.ReportedExactly | crates/runtime/src/git_history.rs:305-311 | A path is accepted exactly when it is text of 1 to 4096 bytes, starts with none of three characters, holds no control character, and no component of it is empty or special. |
| ChangedPathsLanguage.ParsesExactly | crates/runtime/src/git_history.rs:212-321 | For any two streams: answered exactly when one is names and the other counts of good paths, spelled with any leading zeros, that agree as far as the first 500 names; and then with what. |
| AuditLog.AuditSink.constructor | crates/runtime/src/audit.rs:258-278 | Opening finds or creates the live file and knows its length, or starts poisoned. |
| AuditLog.AuditSink.RotateLocked | crates/runtime/src/audit.rs:456-497 | The rename cascade, stopped before any of its operations, leaves exactly the slots that stage says. |
| AuditLog.AuditSink.Append | crates/runtime/src/audit.rs:391-454 | Acknowledgement, slots, length and health after an append, for every rotation stop and torn write. |
| AuditLog.RenameShifts | crates/runtime/src/audit.rs:469-480 | Each rename moves its slot into a free one: nothing is overwritten. |
| AuditLog.RotationDropsOldest | crates/runtime/src/audit.rs:456-497 | A rotation cut anywhere drops at most the oldest slot from what is read back. |
| AuditLog.LogIsSuffix | crates/runtime/src/audit.rs:258-497 | After any run of appends, torn writes, cut rotations, crashes and reopenings, slots N to 1 and then the live file are a suffix of all bytes appended. |
| AuditLog.NothingDroppedEarly | crates/runtime/src/audit.rs:456-497 | Until more rotations were begun than slots are kept, they are all bytes appended. |
| AuditLog.AcknowledgedIsLast | crates/runtime/src/audit.rs:391-454 | An acknowledged record is whole and last in the log. |
| AuditLines.AcknowledgedIsLine | crates/runtime/src/audit.rs:391-454 | An acknowledged record is the live file's last line exactly when the file it was written to was empty or ended in a line end. |
| AuditLines.LiveEndsExactly | crates/runtime/src/audit.rs:258-497 | At every point of every run the live file is empty or ends in a line end, unless the last bytes that landed in it were part of a record. |
| AuditLines.AcknowledgedStartsLine | crates/runtime/src/audit.rs:258-497 | In every run the next acknowledged record is a line of its own exactly when the live file's tail is not torn, or is rotated away first. |
| AuditLines.UntornRecordsAreLines | crates/runtime/src/audit.rs:258-497 | In a run in which no write stops inside a record, every acknowledged record is a line of its own. |
| AuditLines.GluedRecord | crates/runtime/src/audit.rs:391-454 | For any two records: the first torn at any byte inside it, a reopening and the second acknowledged without a rotation leave them on one line. |
| AuditLog.PoisonHolds | crates/runtime/src/audit.rs:396-398 | After a failure nothing is written, renamed or acknowledged until the log is reopened. |
| AuditLog.FailurePoisons | crates/runtime/src/audit.rs:391-454 | An append fails exactly when it leaves the sink poisoned. |
| AuditLog.AppendsExactly | crates/runtime/src/audit.rs:391-497 | What an append does to each slot of a healthy sink: a record that fits is put behind what is live and moves nothing; one that does not needs a whole rotation and then stands alone. When it is acknowledged. |
| AuditLog.OpensExactly | crates/runtime/src/audit.rs:258-278 | Opening gives a sink that appends exactly when its file can be used, and changes no slot that was there. |
| AuditLog.FilesStaySized | crates/runtime/src/audit.rs:428-435 | Along every run each file stays within the rotation size or the longest record. |
| AuditBracket.Dispatcher.Append | crates/runtime/src/audit.rs:391-454 | An append is durable, poisons the sink, or is refused because it is poisoned. |
| AuditBracket.Dispatcher.AuditedFailure | crates/runtime/src/dispatcher.rs:3523-3534 | A failure is answered as such only when its outcome is durable. |
| AuditBracket.Dispatcher.AuditedOperation | crates/runtime/src/dispatcher.rs:1741-1796 | The bracket of an audited operation or process run: records, effect and answer. |
| AuditBracket.Dispatcher.DispatchVerifyRun | crates/runtime/src/dispatcher.rs:3055-3110 | A verify run is a process bracket inside a bracket of its own. |
| AuditBracket.Dispatcher.Serve | crates/runtime/src/dispatcher.rs:1741-1853 | A request served alone is the interleaving machine's run of that request. |
| AuditBracket.AloneIsBracketed | crates/runtime/src/dispatcher.rs:3135-3258 | Moved step by step without interruption, a request does what its nested brackets say. |
| AuditBracket.AloneExactly | crates/runtime/src/dispatcher.rs:3055-3258 | Told from its script alone: an uninterrupted request succeeds exactly when every record became durable and its operation ran well, fails when that did not, and is unavailable otherwise; its effect needs its decisions. |
| AuditBracket.AppendsAreTrue | crates/runtime/src/audit.rs:391-454 | In any state a step makes a record durable exactly when the sink was healthy and took it, and poisons it exactly when a healthy one did not. |
| AuditBracket.RequestsAreBracketed | crates/runtime/src/dispatcher.rs:3055-3258 | In every interleaving a result follows exactly its decisions, its effect and one outcome each, nested for `verify.run`; errors show failed outcomes; an unavailable audit cuts the bracket short. Records that the operation's own artifact appends to the same sink may stand between and may poison it. |
| AuditBracket.NotesAreInside | crates/runtime/src/spool.rs:116-308 | An operation appends the records of its artifact's retention pass and creation after every decision of its request and before any outcome. |
| AuditBracket.EffectFollowsDecision | crates/runtime/src/dispatcher.rs:1741-1853 | When an effect runs, every decision of its request is durable and no outcome is. |
| AuditBracket.PoisonStopsEffects | crates/runtime/src/audit.rs:396-398 | Once the sink is poisoned nothing more is logged, by requests or by their operations, and any effect that still runs was decided before. |
| Operations.ProcessOperationRegistry.Status | crates/runtime/src/process.rs:101-117 | A view is returned exactly when the record exists in the caller's workspace, and is that record's. |
| Operations.StatusShowsOwn | crates/runtime/src/process.rs:101-117 | The answers a workspace gets are settled by its own records' views: two registries answer it alike for every identifier exactly when those are the same, whatever else differs. |
| Operations.ProcessOperationRegistry.RequestCancel | crates/runtime/src/process.rs:124-140 | The first critical section of a cancel marks exactly a running record of the workspace. |
| Operations.ProcessOperationRegistry.RunningOperations | crates/runtime/src/process.rs:161-173 | The snapshot lists each running operation of the workspace once, in whatever order. |
| Operations.ProcessOperationRegistry.UpdateProgress | crates/runtime/src/process.rs:670-697 | Progress changes one running record's preview, counts and artifact. |
| Operations.ProcessOperationRegistry.CompleteOperation | crates/runtime/src/process.rs:733-760 | Completion ends one record and touches no other: `Cancelled` exactly when that was requested, `Completed` exactly when it was not and the exit code is zero, with UTF-8 previews and no group or execution left. |
| Operations.ProcessOperationRegistry.MarkFailed | crates/runtime/src/process.rs:762-774 | Failure ends one record and touches no other: `Cancelled` exactly when that was requested, never `Completed`, and what a caller is shown changes in the state alone. |
| OperationsProtocol.StepKeeps | crates/runtime/src/process.rs:100-178 | Every step of workers, cancels and workspace cancels keeps the invariant and moves records only forward. |
| OperationsProtocol.TerminalRecordsAreFrozen | crates/runtime/src/process.rs:733-774 | A record that is over never changes again, and counts never decrease, in every interleaving. |
| OperationsProtocol.FinalisedOnce | crates/runtime/src/process.rs:434-471 | A record goes from running to over in exactly one step, its worker's last. |
| OperationsProtocol.RecordsAreSound | crates/runtime/src/process.rs:60-774 | Running means a positive process group; over, `Cancelled` exactly when a cancel was requested; `Completed` means exit code zero; the byte count is the artifact's; previews are bounded. |
| OperationsProtocol.MarkedWhileRunning | crates/runtime/src/process.rs:124-140 | A cancel is requested only of a running operation. |
| OperationsProtocol.SweepReachesSnapshot | crates/runtime/src/process.rs:161-178 | After a successful workspace cancel every operation of its snapshot is over or marked. |
| OperationsProtocol.SnapshotIsTaken | crates/runtime/src/process.rs:161-173 | The snapshot is what was running in the workspace when the call began. |
| OperationsProtocol.CancelReachesTarget | crates/runtime/src/process.rs:119-159 | A cancel without an error found its operation over or marked it. |
| OperationsProtocol.SignalsRealGroups | crates/runtime/src/process.rs:526-533 | Every signal, of a cancel or of a workspace cancel, goes to a positive process group. |
| OperationsProtocol.CancelReturns | crates/runtime/src/process.rs:142-159 | A cancel always returns, whatever others do between its moves. |
| CancelActs.CallsFollow | crates/runtime/src/process.rs:119-159 | In every run each cancel marks, sends the first signal, polls fifty times, sends the second, polls fifty times more and looks once more, stopping where an act gives its answer. |
| CancelActs.RefusedSignalIsError | crates/runtime/src/process.rs:142-150 | A call past its mark has sent the first signal before anything else; a refused signal makes it an error. |
| CancelActs.OkWhileRunning | crates/runtime/src/process.rs:119-159 | A call that returns success while its operation still runs has delivered both signals, the first before any poll and the second after exactly fifty. |
| CancelActs.ActsAreTrue | crates/runtime/src/process.rs:119-159 | Each act is what it says: marks, deliveries and polls are those of the record and of the kernel. |
| CancelActs.CancelGetsThere | crates/runtime/src/process.rs:119-159 | In every run a new cancel of any running operation that nothing interrupts returns after 104 moves, with the mark set and both signals delivered to its group. |
| CancelActs.SweepReturns | crates/runtime/src/process.rs:161-178 | A workspace cancel always ends, and goes on to its next operation exactly by a success. |
| CancelActs.MarksHaveACause | crates/runtime/src/process.rs:119-178 | In every run a cancel was requested only by a cancel, or a workspace cancel, of that very operation. |
| StatusRuns.StatusTells | crates/runtime/src/process.rs:434-774 | At every point of every run, told from its steps: running with no exit code until the worker is done; then the exit code its output ended with, the state that follows from it, and an artifact of the first 64 MiB of all it received. |
| PreviewRuns.RunningShowsReads | crates/runtime/src/process.rs:604-634 | In every interleaving, a record whose worker is reading shows the live previews of exactly the chunks read so far. |
| PreviewRuns.CompletionShowsSame | crates/runtime/src/process.rs:604-760 | In every run, whatever was read: a status just before completion and one just after differ in state and exit code alone exactly when both streams' previews stay by that condition. |
| PreviewRuns.TextShowsSame | crates/runtime/src/process.rs:604-760 | In every run, at any length: they do when each read is UTF-8. |
| LivePreview.LiveBound | crates/runtime/src/process.rs:661-668 | For every chunk sequence the live preview is at most three times 64 KiB. |
| LivePreview.ShortOutputExactly | crates/runtime/src/process.rs:661-746 | For every chunk sequence of at most 64 KiB, completion changes neither text nor flag exactly when no chunk splits a piece and each fits the room left. |
| LivePreview.SplitsExactly | crates/runtime/src/process.rs:661-746 | Below a third of 64 KiB, exactly when no chunk splits a piece. |
| LivePreview.LongOutputExactly | crates/runtime/src/process.rs:661-746 | Longer output is flagged before and after; when as many bytes were taken live as captured, the text stays exactly when no part taken splits a piece. |
| PreviewCuts.CompletionExactly | crates/runtime/src/process.rs:661-746 | For every chunk sequence, completion changes neither text nor flag exactly when: of output up to 64 KiB, no chunk splits a piece and each fits the room left; of longer output, the chunks make as many parts of what was taken as the captured preview has pieces, and only replacement characters are shown from the first split piece on. |
| PreviewCuts.ChunksShowExactly | crates/runtime/src/process.rs:661-746 | Chunks of a beginning of a stream, converted one by one, give the stream's conversion exactly when they make as many parts as it has pieces and only replacement characters are shown from the first piece they split. |
| LivePreview.CompletionChangesNothing | crates/runtime/src/process.rs:661-746 | When every chunk is UTF-8 of its own, text and flag stay, at any length. |
| LivePreview.InvalidBytesOverflow | crates/runtime/src/process.rs:661-746 | Three full reads of bytes that are no text, none split: the live preview is cut and flagged, the completed one is longer and not. |
| LivePreview.RawIsBeginning | crates/runtime/src/process.rs:724-731 | The captured preview is the exact beginning of the stream, flagged exactly when the stream is longer, however it was read. |
| LivePreview.AsciiIsExact | crates/runtime/src/process.rs:661-746 | For ASCII output the preview is at every step the exact beginning of the output. |
| LivePreview.SplitCharacterDiffers | crates/runtime/src/process.rs:661-668 | A concrete split character shown as two replacements until completion. |
| Executions.ExecutionRegistry.Register | crates/runtime/src/execution.rs:29-45 | Registering adds one record under an identifier not in use. |
| Executions.ExecutionRegistry.Remove | crates/runtime/src/execution.rs:51-53 | Removing takes out one record and returns it. |
| Executions.ExecutionRegistry.IdsForWorkspace | crates/runtime/src/execution.rs:55-64 | The workspace's identifiers, each once, in byte order. |
| Executions.IdsDiffer | crates/runtime/src/execution.rs:67-70 | Issued identifiers are pairwise different. |
| Executions.AscendingIsUnique | crates/runtime/src/execution.rs:55-64 | The sorted listing is determined by the set. |
| Executions.RunGitCommand | crates/runtime/src/git.rs:2218-2306 | Every way out of the git runner leaves the registry as it was, and while the child ran it held exactly one more record. |
| Executions.RunProcess | crates/runtime/src/process.rs:369-463 | The same for a process from its launch to its worker's end. |
| Executions.RunStagedPatch | crates/runtime/src/git.rs:1671-1699 | The staged half of a checkpoint diff leaves a record behind exactly when its header write fails. |
| Executions.AlwaysConserved | crates/runtime/src/execution.rs:28-65 | In every interleaving of runners the registry is exactly the set of executions in flight. |
| Executions.ListedExactly | crates/runtime/src/execution.rs:55-64 | An identifier is listed for a workspace exactly when one of its runners is in flight under it. |
| Executions.StrandedExactly | crates/runtime/src/git.rs:1671-1699 | In every run a runner leaves its record behind exactly when it is the staged one and its header write failed. |
| Executions.OnlyHeadersLeak | crates/runtime/src/git.rs:1671-1699 | When all runners have left, the identifiers still registered are exactly those of staged runners whose header write failed. |
| Policy.SubsetExactly | crates/policy/src/lib.rs:61-66 | The list check is set inclusion. |
| Policy.RestrictionNarrows | crates/policy/src/lib.rs:23-42 | An accepted restriction grants no launch, with no network, access, git metadata or mount, and no mutation, that was not granted. |
| Policy.AvailabilityNarrows | crates/runtime/src/dispatcher.rs:3039-3040 | Nor does it admit an executable, when one is only inspected, that was not admitted. |
| Policy.ChainsNarrow | crates/workspace-io/src/registry.rs:256-276 | After any requests to a workspace, whatever its policy grants its ceiling grants. |
| Policy.EffectiveIsAccepted | crates/policy/src/lib.rs:23-42 | The policy in force is one its ceiling would accept in a single step. |
| Policy.ReadyIsFrozen | crates/workspace-io/src/registry.rs:266-288 | Once ready, a workspace keeps its policy. |
| Policy.FrozenByActivation | crates/workspace-io/src/registry.rs:256-288 | The first activation settles the policy: whatever is asked before it is served, and nothing after. |
| Policy.GatesExactly | crates/runtime/src/dispatcher.rs:2322-2328 | File mutations need a writing policy above `Observe`, git mutations one that is `Trusted`, remote ones its unrestricted network besides; `Observe` is granted nothing. |
| Policy.LaunchesExactly | crates/runtime/src/process.rs:474-495 | A program and environment are admitted for exactly these settings, and refused for the first that is missing. |
| Policy.LaunchReachesExactly | crates/runtime/src/process.rs:355-367 | A launch may write the workspace or git metadata exactly when the policy is granted those mutations, and reaches no network above the policy's. |
| Policy.MountsExactly | crates/runtime/src/process.rs:317-352 | An auxiliary is mounted exactly when a trusted policy would launch it by itself, cargo's home when it would cargo or rustc, and the developer environment when any unlisted program. |
| Policy.WiderExactly | crates/policy/src/lib.rs:23-42 | For any two policies, the second grants something new exactly when one of the settings it can use, for a launch or a mutation, is not within the first. |
| Policy.AcceptedExactlyWhenNarrower | crates/policy/src/lib.rs:23-42 | A restriction that can launch is accepted exactly when it grants nothing new and lists no name or variable that the current policy does not. |
| Policy.NeedlessRefusalExactly | crates/policy/src/lib.rs:23-42 | Under any policy it is refused needlessly exactly when the other checks pass, each unlisted name is admitted dynamically and no shell, each unlisted variable is one no launch may set, and there is an unlisted one. |
| Policy.IdleRefusalExactly | crates/policy/src/lib.rs:23-42 | A restriction that cannot launch is refused needlessly exactly when it is refused with its file, git and remote mutations within the current policy; an `Observe` one grants nothing at all. |
| Policy.DynamicCeilingRefusesHarmlessName | crates/policy/src/lib.rs:27-39 | Under a dynamic ceiling a harmless named executable is refused. |
| Policy.UnusableVariableIsRefused | crates/runtime/src/process.rs:484-491 | Listing `HOME`, which no launch may set, is refused. |
| Policy.IdleNetworkIsRefused | crates/policy/src/lib.rs:31 | A higher network for an `Observe` policy, which reaches none, is refused. |
| Policy.StartsMoreExactly | crates/sandbox/src/bubblewrap.rs:456-461 | An accepted restriction lets a launch start that did not exactly when it can launch, denies the network, and the current policy has one of the two modes the sandbox refuses. |

## Left out

- Process spawning, sandbox arguments, signals, reaping and file descriptors: a child is two finite byte streams, a
  schedule of reads, and an exit.
- JSON, base64, SHA-256 and clocks: frame bodies, audit records, read data, hashes and times are taken as bytes and
  numbers, and a record that cannot be serialised is not modelled.
- I/O errors of the directory scan and of removals in the sequential store; in `SpoolProtocol` they are the step
  `GiveUp`, which may follow any step under the maintenance lock.
- The poisoning of mutexes, file permissions and the flushing of file data to disk, except where the audit sink turns a
  failure into its own poisoned state.
- A cancel's waiting between polls, as a method: `OperationsProtocol` has its moves as steps instead.
- SpoolProtocol.QuotaSafety: takes a writer whose write failed as not used again, as its callers do; a reused one could
  write past its counted bytes.
- ChangedPaths.SummaryIsExact: models the totals as a release build computes them; a build with overflow checks panics
  at 2^64 instead.
- Spool.ReadsAtOffset: an offset a file system refuses below 2^63 is not modelled.
- CheckpointIdentity.BudgetHolds: needs files that do not change between the size check and the hash.
- Checkpoint.UntruncatedExactly: needs the same, for its budget of hashed bytes.
- Checkpoint.RunGitCheckpoint: starts with the status command; the discovery of content filters before it is left out.
- The commit detail, the changed paths and the revisions that are read in the same request as a patch.
- HistoryLog.RunGitLog: starts after the revision was resolved; the range walk, its sides and its counts are left out
  because they add the same limit logic once more.
- Policy.WiderExactly: leaves out which file an admitted name resolves to and which of several admitted auxiliaries is
  found first, and compares networks by rank, as the check does.
- AuditBracket.Dispatcher.Serve: a request on its own is modelled without its operation's own records.
- The text of record fields the parsers copy unread, argument lists, error-code tables and name grammars: single-branch
  facts.
