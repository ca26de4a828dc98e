/** A history command: its bounded capture, what its exit and truncation flags are taken for, and its errors. */
module HistoryCommand {
  import opened Wrappers
  import opened Bytes
  import opened SpoolWriter
  import opened Capture
  import opened HistoryText
  import CaptureRuns

  const HISTORY_STDERR_MAX_BYTES: nat := 16 * 1024

  /** What the capture loop of one command receives, and how its child ends. */
  datatype Command = Command(events: seq<Event>, wait: WaitStatus)

  /** `map_git_inspection_error`. */
  function HistoryErrorOf(e: CaptureError): HistoryError
  {
    match e
    case Timeout => HistoryError.Timeout
    case OutputLimitExceeded => HistoryError.OutputLimitExceeded
    case _ => GitReadFailed
  }

  /** The command's output: the artifact's flag is added to the capture's. */
  function CommandOutput(c: CaptureResult, artifact: WriterState): CaptureResult
  {
    c.(sourceTruncated := c.sourceTruncated || artifact.sourceTruncated)
  }

  function RunCommand(c: Command, budget: Budget): Result<CaptureResult, HistoryError>
  {
    var (captured, artifact) := Run(c.events, budget, Initial(FRESH_WRITER), c.wait);
    match captured
    case Err(e) => Err(HistoryErrorOf(e))
    case Ok(output) => Ok(CommandOutput(output, artifact))
  }

  method RunHistoryCommand(c: Command, budget: Budget) returns (r: Result<CaptureResult, HistoryError>)
    ensures r == RunCommand(c, budget)
  {
    var writer := new RawSpoolWriter();
    var captured := CaptureChildWithBudget(c.events, budget, c.wait, writer);
    if captured.Err? { return Err(HistoryErrorOf(captured.error)); }
    return Ok(CommandOutput(captured.value, writer.State()));
  }

  function StrictBudget(limit: u64): Budget { Budget(limit, HISTORY_STDERR_MAX_BYTES, limit, Fail) }

  /** The whole output of a command that must succeed within its limit. */
  function ReadOutput(c: Command, limit: u64): Result<bytes, HistoryError>
  {
    match RunCommand(c, StrictBudget(limit))
    case Err(e) => Err(e)
    case Ok(output) =>
      if output.exitCode != 0 then Err(GitReadFailed)
      else if output.stdoutTruncated || output.sourceTruncated then Err(HistoryError.OutputLimitExceeded)
      else Ok(output.stdoutPreview)
  }

  method ReadHistoryOutput(c: Command, limit: u64) returns (r: Result<bytes, HistoryError>)
    ensures r == ReadOutput(c, limit)
  {
    var output := RunHistoryCommand(c, StrictBudget(limit));
    if output.Err? { return Err(output.error); }
    if output.value.exitCode != 0 { return Err(GitReadFailed); }
    if output.value.stdoutTruncated || output.value.sourceTruncated { return Err(HistoryError.OutputLimitExceeded); }
    return Ok(output.value.stdoutPreview);
  }

  /** A command that writes `out` and ends well, in whatever chunks and interleaving with a short error stream. */
  ghost predicate Writes(c: Command, out: bytes)
  {
    && c.wait == Exited(0)
    && exists err: bytes :: |err| <= 16_384 && Schedule(c.events, out, err, true, true)
  }

  /** Its output is read whole, or refused for its length: never shortened silently. */
  lemma {:induction false} OutputExactly(c: Command, limit: u64, out: bytes)
    requires Writes(c, out) && limit <= RAW_SPOOL_SOURCE_CAP_BYTES - HISTORY_STDERR_MAX_BYTES
    ensures ReadOutput(c, limit) == if |out| <= limit then Ok(out) else Err(HistoryError.OutputLimitExceeded)
  {
    var err: bytes :| |err| <= 16_384 && Schedule(c.events, out, err, true, true);
    Confluence(c.events, StrictBudget(limit), c.wait, FRESH_WRITER, out, err);
    hide Run, Schedule;
    assert |out| <= limit ==> out[..Min(|out|, limit)] == out;
  }

  /** A longer error stream fails the command whatever it printed. */
  lemma {:induction false} ErrorsAreBounded(c: Command, limit: u64, out: bytes, err: bytes)
    requires Schedule(c.events, out, err, true, true) && |err| > 16_384
    ensures ReadOutput(c, limit) == Err(HistoryError.OutputLimitExceeded)
  {
    Confluence(c.events, StrictBudget(limit), c.wait, FRESH_WRITER, out, err);
    hide Run, Schedule;
  }

  // ------------------------------------------------------------ commands that end otherwise

  /** The readers ended, after `k` more events, with nothing failed: what the output then is. */
  ghost predicate Delivered(c: Command, limit: u64, k: nat)
  {
    CaptureRuns.BothDoneAt(c.events, StrictBudget(limit), k) && !CaptureRuns.FailedRead(c.events[..k + 1])
  }

  /**
   Whatever a command's events are: its output is read exactly when both readers ended in time and within their limits
   and the child exited with zero, and then it is all of it. It is `Timeout` exactly when the deadline passed first.
   */
  lemma {:induction false} ReadExactly(c: Command, limit: u64)
    requires limit <= RAW_SPOOL_SOURCE_CAP_BYTES - HISTORY_STDERR_MAX_BYTES
    ensures ReadOutput(c, limit).Ok? <==> c.wait == Exited(0) && exists k :: Delivered(c, limit, k)
    ensures forall k :: Delivered(c, limit, k) && ReadOutput(c, limit).Ok? ==>
                          ReadOutput(c, limit).value == CaptureRuns.Received(c.events[..k + 1], Stdout)
    ensures ReadOutput(c, limit) == Err(HistoryError.Timeout)
            <==> exists k :: CaptureRuns.TimedOutAt(c.events, StrictBudget(limit), k)
  {
    CaptureRuns.SuccessExactly(c.events, StrictBudget(limit), c.wait);
    CaptureRuns.TimeoutExactly(c.events, StrictBudget(limit), c.wait);
    forall k | Delivered(c, limit, k)
      ensures var (r, w) := Run(c.events, StrictBudget(limit), Initial(FRESH_WRITER), c.wait);
              && r == CaptureRuns.Ended(c.events[..k + 1], StrictBudget(limit), c.wait)
              && (r.Ok? ==> WholeOutput(r.value, w, CaptureRuns.Received(c.events[..k + 1], Stdout)))
              && EndsAs(r, c.wait)
    {
      DeliveredWhole(c, StrictBudget(limit), k);
    }
    if ReadOutput(c, limit).Ok? {
      var k :| CaptureRuns.BothDoneAt(c.events, StrictBudget(limit), k) && !CaptureRuns.FailedRead(c.events[..k + 1]);
      assert Delivered(c, limit, k);
    }
    hide Run, CaptureRuns.BothDoneAt, CaptureRuns.FailedRead, CaptureRuns.Received, CaptureRuns.Ended;
    hide CaptureRuns.TimedOutAt;
  }

  /** A child that was waited for is reported with its exit code, one that a signal ended with 1. */
  predicate EndsAs(r: Result<CaptureResult, CaptureError>, wait: WaitStatus)
  {
    match wait
    case Exited(code) => r.Ok? && r.value.exitCode == code
    case Signalled => r.Ok? && r.value.exitCode == 1
    case WaitError => r == Err(WaitFailed)
  }

  /** A captured output of which nothing is cut. */
  predicate WholeOutput(r: CaptureResult, w: WriterState, out: bytes)
  {
    r.stdoutPreview == out && !r.stdoutTruncated && !r.sourceTruncated && !w.sourceTruncated
  }

  /** Within a budget that the artifact and the preview can hold, what was delivered is whole. */
  lemma {:induction false} DeliveredWhole(c: Command, b: Budget, k: nat)
    requires CaptureRuns.BothDoneAt(c.events, b, k) && !CaptureRuns.FailedRead(c.events[..k + 1])
    requires !b.policy.LegacySpool? && b.stdoutSource + b.stderrSource <= RAW_SPOOL_SOURCE_CAP_BYTES
    requires b.stdoutSource <= b.preview
    ensures var (r, w) := Run(c.events, b, Initial(FRESH_WRITER), c.wait);
            && r == CaptureRuns.Ended(c.events[..k + 1], b, c.wait)
            && (r.Ok? ==> WholeOutput(r.value, w, CaptureRuns.Received(c.events[..k + 1], Stdout)))
            && EndsAs(r, c.wait)
  {
    var before, all := c.events[..k], c.events[..k + 1];
    CaptureRuns.EveryEndIsAnswered(c.events, b, c.wait, k);
    CaptureRuns.TakenIsAllowed(before, b);
    assert all == before + [c.events[k]];
    CaptureRuns.Snoc(before, c.events[k]);
    CaptureRuns.Unread(before);
    CaptureRuns.AllIsBoth(before);
    var out := CaptureRuns.Received(all, Stdout);
    assert out[..|out|] == out;
    hide Run, CaptureRuns.AllTaken, CaptureRuns.ReadersDone, CaptureRuns.FailedRead, CaptureRuns.Received;
    hide CaptureRuns.AllReceived;
  }

  /** A command that delivers `out` and a short error stream, and then ends as `wait` says. */
  ghost predicate WritesThen(c: Command, out: bytes, wait: WaitStatus)
  {
    && c.wait == wait
    && exists err: bytes :: |err| <= 16_384 && Schedule(c.events, out, err, true, true)
  }

  /** Output within the limit of a command that does not exit with zero is never used. */
  lemma {:induction false} OutputNeedsSuccess(c: Command, limit: u64, out: bytes, wait: WaitStatus)
    requires WritesThen(c, out, wait) && limit <= RAW_SPOOL_SOURCE_CAP_BYTES - HISTORY_STDERR_MAX_BYTES
    ensures wait != Exited(0) && |out| <= limit ==> ReadOutput(c, limit) == Err(GitReadFailed)
    ensures |out| > limit ==> ReadOutput(c, limit) == Err(HistoryError.OutputLimitExceeded)
  {
    var err: bytes :| |err| <= 16_384 && Schedule(c.events, out, err, true, true);
    Confluence(c.events, StrictBudget(limit), c.wait, FRESH_WRITER, out, err);
    hide Run, Schedule;
  }
}
