/**
 The two-stream capture loop: two readers feed one channel, one loop budgets, spools and previews.
 What the channel delivers is a sequence of events; a `Schedule` is any merge of the two streams.
 */
module Capture {
  import opened Wrappers
  import opened Bytes
  import opened SpoolWriter

  const USIZE_MAX: nat := U64_MAX
  const PREVIEW_MAX_BYTES: nat := 64 * 1024

  datatype StreamKind = Stdout | Stderr
  datatype OverflowPolicy = LegacySpool | Fail | Truncate

  datatype Budget = Budget(stdoutSource: u64, stderrSource: u64, preview: nat, policy: OverflowPolicy)

  /** One turn of the loop: a chunk and what the disk does with it, a reader's end, or the deadline. */
  datatype Event = Data(kind: StreamKind, chunk: bytes, disk: Disk) | Done(ok: bool) | TimedOut

  datatype WaitStatus = Exited(code: int) | Signalled | WaitError

  datatype CaptureError = CaptureFailed | Timeout | OutputLimitExceeded | SpoolFailed | WaitFailed | Unreachable

  datatype CaptureResult = CaptureResult(
    exitCode: int,
    stdoutPreview: bytes,
    stderrPreview: bytes,
    stdoutTruncated: bool,
    stderrTruncated: bool,
    sourceTruncated: bool)

  // ------------------------------------------------------------ the loop, as a function

  /** `append_preview`. */
  function Preview(target: bytes, truncated: bool, source: bytes, limit: nat): (bytes, bool)
  {
    var accepted := Min(SatSub(limit, |target|), |source|);
    (target + source[..accepted], truncated || accepted < |source|)
  }

  datatype StreamState = StreamState(preview: bytes, truncated: bool, seen: nat)

  datatype LoopState = LoopState(
    stdout: StreamState, stderr: StreamState, completed: nat, readFailed: bool, writer: WriterState)

  function Initial(w: WriterState): LoopState
  {
    LoopState(StreamState([], false, 0), StreamState([], false, 0), 0, false, w)
  }

  function SourceLimit(b: Budget, kind: StreamKind): u64
  {
    if b.policy == LegacySpool then USIZE_MAX
    else if kind == Stdout then b.stdoutSource else b.stderrSource
  }

  function PreviewLimit(b: Budget, kind: StreamKind): nat
  {
    if kind == Stdout then b.preview else Min(b.preview, PREVIEW_MAX_BYTES)
  }

  /** A stream's counters after `accepted` was taken from it. */
  function Take(s: StreamState, accepted: bytes, limit: nat): StreamState
  {
    var seen := SatAdd(s.seen, |accepted|);
    if accepted == [] then s.(seen := seen)
    else
      var (preview, truncated) := Preview(s.preview, s.truncated, accepted, limit);
      StreamState(preview, truncated, seen)
  }

  function Of(s: LoopState, kind: StreamKind): StreamState
  {
    if kind == Stdout then s.stdout else s.stderr
  }

  function With(s: LoopState, kind: StreamKind, stream: StreamState): LoopState
  {
    if kind == Stdout then s.(stdout := stream) else s.(stderr := stream)
  }

  function Captured(s: LoopState, exitCode: int, sourceTruncated: bool): CaptureResult
  {
    CaptureResult(exitCode, s.stdout.preview, s.stderr.preview, s.stdout.truncated, s.stderr.truncated, sourceTruncated)
  }

  datatype Next = Continue(state: LoopState) | Stop(result: Result<CaptureResult, CaptureError>, writer: WriterState)

  /** What the loop does with one event. */
  function Turn(e: Event, b: Budget, s: LoopState): Next
  {
    match e
    case TimedOut => Stop(Err(Timeout), s.writer)
    case Done(ok) => Continue(s.(completed := s.completed + 1, readFailed := s.readFailed || !ok))
    case Data(kind, chunk, disk) =>
      var accepted := Min(SatSub(SourceLimit(b, kind), Of(s, kind).seen), |chunk|);
      var taken := chunk[..accepted];
      var (w, written) := if accepted > 0 then Write(s.writer, taken, disk) else (s.writer, Some(0));
      var stream := Take(Of(s, kind), taken, PreviewLimit(b, kind));
      if written.None? then Stop(Err(SpoolFailed), w)
      else if accepted == |chunk| then Continue(With(s, kind, stream).(writer := w))
      else
        var s' := With(s, kind, stream.(truncated := true));
        match b.policy
        case Fail => Stop(Err(OutputLimitExceeded), w)
        case Truncate => Stop(Ok(Captured(s', 1, true)), w)
        case LegacySpool => Stop(Err(Unreachable), w)
  }

  /** What follows the loop: the readers are joined and the child is waited for. */
  function Finish(s: LoopState, wait: WaitStatus): Result<CaptureResult, CaptureError>
  {
    if s.readFailed then Err(CaptureFailed)
    else match wait
      case WaitError => Err(WaitFailed)
      case Exited(code) => Ok(Captured(s, code, false))
      case Signalled => Ok(Captured(s, 1, false))
  }

  /** The whole loop. A channel that closes before both readers are done counts as a failed read. */
  function Run(events: seq<Event>, b: Budget, s: LoopState, wait: WaitStatus)
    : (Result<CaptureResult, CaptureError>, WriterState)
    decreases |events|
  {
    if s.completed >= 2 then (Finish(s, wait), s.writer)
    else if events == [] then (Err(CaptureFailed), s.writer)
    else match Turn(events[0], b, s)
      case Stop(r, w) => (r, w)
      case Continue(s') => Run(events[1..], b, s', wait)
  }

  // ------------------------------------------------------------ the loop itself

  method AppendPreview(target: bytes, truncated: bool, source: bytes, limit: nat)
    returns (target': bytes, truncated': bool)
    ensures (target', truncated') == Preview(target, truncated, source, limit)
  {
    var remaining := SatSub(limit, |target|);
    var accepted := Min(remaining, |source|);
    target' := target + source[..accepted];
    truncated' := truncated;
    if accepted < |source| { truncated' := true; }
  }

  method CaptureChildWithBudget(events: seq<Event>, budget: Budget, wait: WaitStatus, writer: RawSpoolWriter)
    returns (r: Result<CaptureResult, CaptureError>)
    modifies writer
    ensures (r, writer.State()) == Run(events, budget, Initial(old(writer.State())), wait)
  {
    var stdoutPreview: bytes, stderrPreview: bytes := [], [];
    var stdoutTruncated, stderrTruncated := false, false;
    var stdoutSeen: nat, stderrSeen: nat := 0, 0;
    var completed: nat, readFailed := 0, false;
    var i := 0;
    while completed < 2
      invariant i <= |events|
      invariant Run(events, budget, Initial(old(writer.State())), wait)
             == Run(events[i..], budget,
                    LoopState(StreamState(stdoutPreview, stdoutTruncated, stdoutSeen),
                              StreamState(stderrPreview, stderrTruncated, stderrSeen),
                              completed, readFailed, writer.State()), wait)
      decreases |events| - i
    {
      if i == |events| { return Err(CaptureFailed); }
      var event := events[i];
      assert events[i..][0] == event && events[i..][1..] == events[i + 1..];
      i := i + 1;
      match event
      case TimedOut => return Err(Timeout);
      case Done(ok) =>
        completed := completed + 1;
        if !ok { readFailed := true; }
      case Data(kind, chunk, disk) =>
        var seen := if kind == Stdout then stdoutSeen else stderrSeen;
        var remaining := SatSub(SourceLimit(budget, kind), seen);
        var accepted := Min(remaining, |chunk|);
        if kind == Stdout { stdoutSeen := SatAdd(seen, accepted); } else { stderrSeen := SatAdd(seen, accepted); }
        if accepted > 0 {
          var taken := chunk[..accepted];
          var written := writer.WriteSource(taken, disk);
          if written.None? { return Err(SpoolFailed); }
          if kind == Stdout {
            stdoutPreview, stdoutTruncated := AppendPreview(stdoutPreview, stdoutTruncated, taken, budget.preview);
          } else {
            stderrPreview, stderrTruncated :=
              AppendPreview(stderrPreview, stderrTruncated, taken, Min(budget.preview, PREVIEW_MAX_BYTES));
          }
        }
        if accepted < |chunk| {
          if kind == Stdout { stdoutTruncated := true; } else { stderrTruncated := true; }
          match budget.policy
          case Fail => return Err(OutputLimitExceeded);
          case Truncate =>
            return Ok(CaptureResult(1, stdoutPreview, stderrPreview, stdoutTruncated, stderrTruncated, true));
          case LegacySpool => return Err(Unreachable);
        }
    }
    if readFailed { return Err(CaptureFailed); }
    match wait
    case WaitError => return Err(WaitFailed);
    case Exited(code) =>
      return Ok(CaptureResult(code, stdoutPreview, stderrPreview, stdoutTruncated, stderrTruncated, false));
    case Signalled =>
      return Ok(CaptureResult(1, stdoutPreview, stderrPreview, stdoutTruncated, stderrTruncated, false));
  }

  // ------------------------------------------------------------ every schedule gives the same answer

  /**
   The events are some chunking and merge of what is left of the two streams, each ended by its reader,
   with no read error, disk error or timeout.
   */
  ghost predicate Schedule(events: seq<Event>, out: bytes, err: bytes, outOpen: bool, errOpen: bool)
    decreases |events|
  {
    if !outOpen && !errOpen then true
    else
      && events != []
      && match events[0]
         case TimedOut => false
         case Done(ok) =>
           && ok
           && (|| (outOpen && out == [] && Schedule(events[1..], [], err, false, errOpen))
               || (errOpen && err == [] && Schedule(events[1..], out, [], outOpen, false)))
         case Data(kind, chunk, disk) =>
           && disk.Stored?
           && match kind
              case Stdout => outOpen && chunk <= out && Schedule(events[1..], out[|chunk|..], err, outOpen, errOpen)
              case Stderr => errOpen && chunk <= err && Schedule(events[1..], out, err[|chunk|..], outOpen, errOpen)
  }

  /** The state of a stream of which the first `n` bytes were taken. */
  function Taken(stream: bytes, n: nat, limit: nat): StreamState
    requires n <= |stream|
  {
    StreamState(stream[..Min(n, limit)], n > limit, n)
  }

  /** How much a writer holds after `more` bytes were offered to it. */
  ghost predicate Spooled(w0: WriterState, more: nat, w: WriterState)
  {
    && w.bytesWritten == Min(w0.bytesWritten + more, RAW_SPOOL_SOURCE_CAP_BYTES)
    && (w.sourceTruncated <==> w0.sourceTruncated || w0.bytesWritten + more > RAW_SPOOL_SOURCE_CAP_BYTES)
  }

  ghost predicate At(s: LoopState, b: Budget, w0: WriterState, out: bytes, i: nat, err: bytes, j: nat)
  {
    && i <= |out| && j <= |err|
    && i <= SourceLimit(b, Stdout) && j <= SourceLimit(b, Stderr)
    && s.stdout == Taken(out, i, PreviewLimit(b, Stdout))
    && s.stderr == Taken(err, j, PreviewLimit(b, Stderr))
    && !s.readFailed && Spooled(w0, i + j, s.writer)
  }

  ghost predicate Fits(b: Budget, out: bytes, err: bytes)
  {
    |out| <= SourceLimit(b, Stdout) && |err| <= SourceLimit(b, Stderr)
  }

  /** What every schedule of `out` and `err` must answer. */
  ghost predicate Answers(r: Result<CaptureResult, CaptureError>, w: WriterState, b: Budget, wait: WaitStatus,
                          w0: WriterState, out: bytes, err: bytes)
  {
    var showOut, showErr := PreviewLimit(b, Stdout), PreviewLimit(b, Stderr);
    if Fits(b, out, err) then
      && Spooled(w0, |out| + |err|, w)
      && r == match wait
              case WaitError => Err(WaitFailed)
              case Exited(code) => Ok(Whole(code, out, err, showOut, showErr))
              case Signalled => Ok(Whole(1, out, err, showOut, showErr))
    else match b.policy
      case Fail => r == Err(OutputLimitExceeded)
      case LegacySpool => r == Err(Unreachable)
      case Truncate =>
        && r.Ok? && r.value.sourceTruncated && r.value.exitCode == 1
        && CutPreview(r.value.stdoutPreview, r.value.stdoutTruncated, out, SourceLimit(b, Stdout), showOut,
                      |err| <= SourceLimit(b, Stderr))
        && CutPreview(r.value.stderrPreview, r.value.stderrTruncated, err, SourceLimit(b, Stderr), showErr,
                      |out| <= SourceLimit(b, Stdout))
  }

  /** Both streams complete: previews are exact prefixes, flagged exactly when the stream is longer. */
  function Whole(code: int, out: bytes, err: bytes, showOut: nat, showErr: nat): CaptureResult
  {
    CaptureResult(code, out[..Min(|out|, showOut)], err[..Min(|err|, showErr)], |out| > showOut, |err| > showErr, false)
  }

  /** A preview of a cut run: a prefix; and when the other stream is not to blame, the full one, flagged. */
  ghost predicate CutPreview(preview: bytes, truncated: bool, stream: bytes, limit: nat, show: nat, alone: bool)
  {
    && preview <= stream && |preview| <= Min(limit, show)
    && (alone ==> truncated && |preview| == Min(Min(|stream|, limit), show))
  }

  lemma {:induction false} TakeMore(stream: bytes, n: nat, more: nat, limit: nat)
    requires n + more <= |stream| && n + more <= U64_MAX
    ensures Take(Taken(stream, n, limit), stream[n..n + more], limit) == Taken(stream, n + more, limit)
  {
    var s := Taken(stream, n, limit);
    var piece := stream[n..n + more];
    var accepted := Min(SatSub(limit, |s.preview|), more);
    if more > 0 {
      assert stream[..Min(n, limit)] + piece[..accepted] == stream[..Min(n + more, limit)];
    } else {
      assert piece == [];
    }
  }

  lemma {:induction false} SpoolMore(w0: WriterState, n: nat, w: WriterState, piece: bytes)
    requires Spooled(w0, n, w)
    ensures Spooled(w0, n + |piece|, Write(w, piece, Stored).0)
    ensures Write(w, piece, Stored).1.Some?
  {
  }

  /** A chunk within its stream's budget: the loop goes on, with that much more taken. */
  lemma {:induction false} StdoutFits(chunk: bytes, b: Budget, w0: WriterState, s: LoopState,
          out: bytes, i: nat, err: bytes, j: nat)
    requires At(s, b, w0, out, i, err, j)
    requires chunk <= out[i..] && i + |chunk| <= SourceLimit(b, Stdout)
    ensures var n := Turn(Data(Stdout, chunk, Stored), b, s);
            n.Continue? && n.state.completed == s.completed && At(n.state, b, w0, out, i + |chunk|, err, j)
  {
    assert chunk == out[i..i + |chunk|];
    assert chunk[..|chunk|] == chunk;
    TakeMore(out, i, |chunk|, PreviewLimit(b, Stdout));
    SpoolMore(w0, i + j, s.writer, chunk);
  }

  lemma {:induction false} StderrFits(chunk: bytes, b: Budget, w0: WriterState, s: LoopState,
          out: bytes, i: nat, err: bytes, j: nat)
    requires At(s, b, w0, out, i, err, j)
    requires chunk <= err[j..] && j + |chunk| <= SourceLimit(b, Stderr)
    ensures var n := Turn(Data(Stderr, chunk, Stored), b, s);
            n.Continue? && n.state.completed == s.completed && At(n.state, b, w0, out, i, err, j + |chunk|)
  {
    assert chunk == err[j..j + |chunk|];
    assert chunk[..|chunk|] == chunk;
    TakeMore(err, j, |chunk|, PreviewLimit(b, Stderr));
    SpoolMore(w0, i + j, s.writer, chunk);
  }

  /** What a run cut by its policy answers when `i` and `j` bytes were taken. */
  function CutAnswer(b: Budget, out: bytes, i: nat, outTruncated: bool, err: bytes, j: nat, errTruncated: bool)
    : Result<CaptureResult, CaptureError>
    requires i <= |out| && j <= |err|
  {
    match b.policy
    case Fail => Err(OutputLimitExceeded)
    case LegacySpool => Err(Unreachable)
    case Truncate =>
      Ok(CaptureResult(1, out[..Min(i, PreviewLimit(b, Stdout))], err[..Min(j, PreviewLimit(b, Stderr))],
                       outTruncated, errTruncated, true))
  }

  lemma {:induction false} CutAnswers(b: Budget, wait: WaitStatus, w0: WriterState, w: WriterState,
                   out: bytes, i: nat, outTruncated: bool, err: bytes, j: nat, errTruncated: bool)
    requires i <= |out| && j <= |err| && !Fits(b, out, err)
    requires i <= SourceLimit(b, Stdout) && j <= SourceLimit(b, Stderr)
    requires || (i < |out| && i == SourceLimit(b, Stdout) && outTruncated)
             || (j < |err| && j == SourceLimit(b, Stderr) && errTruncated)
    ensures Answers(CutAnswer(b, out, i, outTruncated, err, j, errTruncated), w, b, wait, w0, out, err)
  {
    assert out[..Min(i, PreviewLimit(b, Stdout))] <= out;
    assert err[..Min(j, PreviewLimit(b, Stderr))] <= err;
  }

  /** A chunk past its stream's budget ends the run as the policy says. */
  lemma {:induction false} StdoutOverflows(chunk: bytes, b: Budget, w0: WriterState, s: LoopState,
          out: bytes, i: nat, err: bytes, j: nat)
    requires At(s, b, w0, out, i, err, j)
    requires chunk <= out[i..] && i + |chunk| > SourceLimit(b, Stdout)
    ensures var n := Turn(Data(Stdout, chunk, Stored), b, s);
            n.Stop? && n.result == CutAnswer(b, out, SourceLimit(b, Stdout), true, err, j, s.stderr.truncated)
  {
    var limit := SourceLimit(b, Stdout);
    var taken := chunk[..limit - i];
    assert taken == out[i..limit];
    TakeMore(out, i, |taken|, PreviewLimit(b, Stdout));
    SpoolMore(w0, i + j, s.writer, taken);
  }

  lemma {:induction false} StderrOverflows(chunk: bytes, b: Budget, w0: WriterState, s: LoopState,
          out: bytes, i: nat, err: bytes, j: nat)
    requires At(s, b, w0, out, i, err, j)
    requires chunk <= err[j..] && j + |chunk| > SourceLimit(b, Stderr)
    ensures var n := Turn(Data(Stderr, chunk, Stored), b, s);
            n.Stop? && n.result == CutAnswer(b, out, i, s.stdout.truncated, err, SourceLimit(b, Stderr), true)
  {
    var limit := SourceLimit(b, Stderr);
    var taken := chunk[..limit - j];
    assert taken == err[j..limit];
    TakeMore(err, j, |taken|, PreviewLimit(b, Stderr));
    SpoolMore(w0, i + j, s.writer, taken);
  }

  /** The loop has taken `i` and `j` bytes, and what is to come is a schedule of the rest. */
  ghost predicate Reached(events: seq<Event>, b: Budget, w0: WriterState, s: LoopState,
                          out: bytes, i: nat, err: bytes, j: nat, outOpen: bool, errOpen: bool)
  {
    && At(s, b, w0, out, i, err, j)
    && (!outOpen ==> i == |out|) && (!errOpen ==> j == |err|)
    && s.completed == (if outOpen then 0 else 1) + (if errOpen then 0 else 1)
    && Schedule(events, out[i..], err[j..], outOpen, errOpen)
  }

  lemma {:induction false} EveryScheduleFrom(
      events: seq<Event>, b: Budget, wait: WaitStatus, w0: WriterState, s: LoopState,
      out: bytes, i: nat, err: bytes, j: nat, outOpen: bool, errOpen: bool)
    requires Reached(events, b, w0, s, out, i, err, j, outOpen, errOpen)
    ensures var (r, w) := Run(events, b, s, wait); Answers(r, w, b, wait, w0, out, err)
    decreases |events|, 1
  {
    if !outOpen && !errOpen {
      assert out[..|out|] == out && err[..|err|] == err;
    } else if events[0].Done? {
      var s' := s.(completed := s.completed + 1);
      if outOpen && out[i..] == [] && Schedule(events[1..], [], err[j..], false, errOpen) {
        EveryScheduleFrom(events[1..], b, wait, w0, s', out, i, err, j, false, errOpen);
      } else {
        EveryScheduleFrom(events[1..], b, wait, w0, s', out, i, err, j, outOpen, false);
      }
    } else if events[0].kind == Stdout {
      EveryStdoutChunk(events, b, wait, w0, s, out, i, err, j, outOpen, errOpen);
    } else {
      EveryStderrChunk(events, b, wait, w0, s, out, i, err, j, outOpen, errOpen);
    }
  }

  lemma {:induction false} EveryStdoutChunk(
      events: seq<Event>, b: Budget, wait: WaitStatus, w0: WriterState, s: LoopState,
      out: bytes, i: nat, err: bytes, j: nat, outOpen: bool, errOpen: bool)
    requires Reached(events, b, w0, s, out, i, err, j, outOpen, errOpen)
    requires outOpen && events != [] && events[0].Data? && events[0].kind == Stdout
    ensures var (r, w) := Run(events, b, s, wait); Answers(r, w, b, wait, w0, out, err)
    decreases |events|, 0
  {
    var chunk := events[0].chunk;
    if i + |chunk| <= SourceLimit(b, Stdout) {
      StdoutFits(chunk, b, w0, s, out, i, err, j);
      assert out[i..][|chunk|..] == out[i + |chunk|..];
      EveryScheduleFrom(events[1..], b, wait, w0, Turn(events[0], b, s).state, out, i + |chunk|, err, j,
                        outOpen, errOpen);
    } else {
      StdoutOverflows(chunk, b, w0, s, out, i, err, j);
      CutAnswers(b, wait, w0, Turn(events[0], b, s).writer, out, SourceLimit(b, Stdout), true,
                 err, j, s.stderr.truncated);
    }
  }

  lemma {:induction false} EveryStderrChunk(
      events: seq<Event>, b: Budget, wait: WaitStatus, w0: WriterState, s: LoopState,
      out: bytes, i: nat, err: bytes, j: nat, outOpen: bool, errOpen: bool)
    requires Reached(events, b, w0, s, out, i, err, j, outOpen, errOpen)
    requires errOpen && events != [] && events[0].Data? && events[0].kind == Stderr
    ensures var (r, w) := Run(events, b, s, wait); Answers(r, w, b, wait, w0, out, err)
    decreases |events|, 0
  {
    var chunk := events[0].chunk;
    if j + |chunk| <= SourceLimit(b, Stderr) {
      StderrFits(chunk, b, w0, s, out, i, err, j);
      assert err[j..][|chunk|..] == err[j + |chunk|..];
      EveryScheduleFrom(events[1..], b, wait, w0, Turn(events[0], b, s).state, out, i, err, j + |chunk|,
                        outOpen, errOpen);
    } else {
      StderrOverflows(chunk, b, w0, s, out, i, err, j);
      CutAnswers(b, wait, w0, Turn(events[0], b, s).writer, out, i, s.stdout.truncated,
                 err, SourceLimit(b, Stderr), true);
    }
  }

  /** Confluence: whatever the chunking and the interleaving, the loop's answer is the one `Answers` describes. */
  lemma {:induction false} Confluence(events: seq<Event>, b: Budget, wait: WaitStatus, w0: WriterState, out: bytes,
                                      err: bytes)
    requires w0.bytesWritten <= RAW_SPOOL_SOURCE_CAP_BYTES
    requires Schedule(events, out, err, true, true)
    ensures var (r, w) := Run(events, b, Initial(w0), wait); Answers(r, w, b, wait, w0, out, err)
  {
    assert out[0..] == out && err[0..] == err;
    EveryScheduleFrom(events, b, wait, w0, Initial(w0), out, 0, err, 0, true, true);
  }

  /** Two runs over the same streams, one legacy and one that a `Fail` budget let through, answer alike. */
  lemma {:induction false} LegacyAndFailAgree(e1: seq<Event>, e2: seq<Event>, b1: Budget, b2: Budget, wait: WaitStatus,
                           w0: WriterState, out: bytes, err: bytes)
    requires w0.bytesWritten <= RAW_SPOOL_SOURCE_CAP_BYTES
    requires b1.policy == LegacySpool && b2.policy == Fail && b1.preview == b2.preview
    requires |out| <= USIZE_MAX && |err| <= USIZE_MAX
    requires Schedule(e1, out, err, true, true) && Schedule(e2, out, err, true, true)
    ensures var (r1, w1) := Run(e1, b1, Initial(w0), wait);
            var (r2, w2) := Run(e2, b2, Initial(w0), wait);
            && (r2 != Err(OutputLimitExceeded) <==> |out| <= b2.stdoutSource && |err| <= b2.stderrSource)
            && (r2 != Err(OutputLimitExceeded) ==>
                  r1 == r2 && w1.bytesWritten == w2.bytesWritten && w1.sourceTruncated == w2.sourceTruncated)
  {
    Confluence(e1, b1, wait, w0, out, err);
    Confluence(e2, b2, wait, w0, out, err);
  }

  // ------------------------------------------------------------ the readers and the channel

  const CHANNEL_CAPACITY: nat := 8
  const CAPTURE_CHUNK_BYTES: nat := 16 * 1024

  /** What each reader still has to read, whether it has sent its end, the channel, and what the loop received. */
  datatype Channel = Channel(
    outRest: bytes, errRest: bytes, outOpen: bool, errOpen: bool, queue: seq<Event>, received: seq<Event>)

  datatype Move = ReadChunk(kind: StreamKind, n: nat) | EndOf(kind: StreamKind) | Receive

  predicate CanMove(c: Channel, m: Move)
  {
    match m
    case ReadChunk(kind, n) =>
      && |c.queue| < CHANNEL_CAPACITY && 0 < n <= CAPTURE_CHUNK_BYTES
      && if kind == Stdout then c.outOpen && n <= |c.outRest| else c.errOpen && n <= |c.errRest|
    case EndOf(kind) =>
      && |c.queue| < CHANNEL_CAPACITY
      && if kind == Stdout then c.outOpen && c.outRest == [] else c.errOpen && c.errRest == []
    case Receive => c.queue != []
  }

  function AfterMove(c: Channel, m: Move): Channel
    requires CanMove(c, m)
  {
    match m
    case Receive => c.(queue := c.queue[1..], received := c.received + [c.queue[0]])
    case ReadChunk(Stdout, n) =>
      c.(outRest := c.outRest[n..], queue := c.queue + [Data(Stdout, c.outRest[..n], Stored)])
    case ReadChunk(Stderr, n) =>
      c.(errRest := c.errRest[n..], queue := c.queue + [Data(Stderr, c.errRest[..n], Stored)])
    case EndOf(Stdout) => c.(outOpen := false, queue := c.queue + [Done(true)])
    case EndOf(Stderr) => c.(errOpen := false, queue := c.queue + [Done(true)])
  }

  /** Every completion of what is left completes what was sent to a schedule of the two streams. */
  ghost predicate Merges(c: Channel, out: bytes, err: bytes)
  {
    forall f: seq<Event> :: Schedule(f, c.outRest, c.errRest, c.outOpen, c.errOpen)
      ==> Schedule(c.received + c.queue + f, out, err, true, true)
  }

  lemma {:induction false} MoveMerges(c: Channel, m: Move, out: bytes, err: bytes)
    requires CanMove(c, m) && Merges(c, out, err)
    ensures Merges(AfterMove(c, m), out, err)
  {
    var d := AfterMove(c, m);
    forall f: seq<Event> | Schedule(f, d.outRest, d.errRest, d.outOpen, d.errOpen)
      ensures Schedule(d.received + d.queue + f, out, err, true, true)
    {
      if m.Receive? {
        assert d.received + d.queue + f == c.received + c.queue + f;
      } else {
        var e := d.queue[|c.queue|];
        assert d.received + d.queue + f == c.received + c.queue + ([e] + f);
        assert ([e] + f)[1..] == f;
        assert Schedule([e] + f, c.outRest, c.errRest, c.outOpen, c.errOpen);
      }
    }
  }

  ghost predicate ChannelRun(trace: seq<Channel>, moves: seq<Move>, out: bytes, err: bytes)
  {
    && |trace| == |moves| + 1
    && trace[0] == Channel(out, err, true, true, [], [])
    && forall i :: 0 <= i < |moves| ==> CanMove(trace[i], moves[i]) && trace[i + 1] == AfterMove(trace[i], moves[i])
  }

  lemma {:induction false} RunMerges(trace: seq<Channel>, moves: seq<Move>, out: bytes, err: bytes, n: nat)
    requires ChannelRun(trace, moves, out, err) && n < |trace|
    ensures Merges(trace[n], out, err)
    decreases n
  {
    if n == 0 {
      forall f: seq<Event> ensures trace[0].received + trace[0].queue + f == f { }
    } else {
      RunMerges(trace, moves, out, err, n - 1);
      MoveMerges(trace[n - 1], moves[n - 1], out, err);
    }
  }

  /** Every run of the two reader threads and the bounded channel hands the loop a schedule of the two streams. */
  lemma {:induction false} EveryRunIsASchedule(trace: seq<Channel>, moves: seq<Move>, out: bytes, err: bytes)
    requires ChannelRun(trace, moves, out, err)
    requires var c := trace[|trace| - 1]; !c.outOpen && !c.errOpen && c.queue == []
    ensures Schedule(trace[|trace| - 1].received, out, err, true, true)
  {
    var c := trace[|trace| - 1];
    RunMerges(trace, moves, out, err, |trace| - 1);
    assert Schedule([], c.outRest, c.errRest, false, false);
    assert c.received + c.queue + [] == c.received;
  }

  /** The loop ends on these events, whatever would follow them. */
  predicate Ends(events: seq<Event>, b: Budget, s: LoopState)
    decreases |events|
  {
    || s.completed >= 2
    || (events != [] && (Turn(events[0], b, s).Stop? || Ends(events[1..], b, Turn(events[0], b, s).state)))
  }

  lemma {:induction false} EndedRun(events: seq<Event>, more: seq<Event>, b: Budget, s: LoopState, wait: WaitStatus)
    requires Ends(events, b, s)
    ensures Run(events + more, b, s, wait) == Run(events, b, s, wait)
    decreases |events|
  {
    hide Turn, Finish;
    if s.completed < 2 {
      assert (events + more)[0] == events[0] && (events + more)[1..] == events[1..] + more;
      if Turn(events[0], b, s).Continue? { EndedRun(events[1..], more, b, Turn(events[0], b, s).state, wait); }
    }
  }

  /** What is left can always be delivered: each stream in one chunk, and its end. */
  function Remainder(out: bytes, err: bytes, outOpen: bool, errOpen: bool): seq<Event>
  {
    (if outOpen then [Data(Stdout, out, Stored), Done(true)] else [])
      + (if errOpen then [Data(Stderr, err, Stored), Done(true)] else [])
  }

  lemma {:induction false} RemainderDelivers(out: bytes, err: bytes, outOpen: bool, errOpen: bool)
    ensures Schedule(Remainder(out, err, outOpen, errOpen), out, err, outOpen, errOpen)
  {
    var f := Remainder(out, err, outOpen, errOpen);
    assert out[|out|..] == [] && err[|err|..] == [];
    if outOpen {
      var g := Remainder([], err, false, errOpen);
      RemainderOfErr([], err, errOpen);
      assert f[1..][1..] == g && f[1..][0] == Done(true);
      assert Schedule(f[1..][1..], [], err, false, errOpen);
      assert Schedule(f[1..], [], err, true, errOpen);
    } else {
      RemainderOfErr(out, err, errOpen);
    }
  }

  lemma {:induction false} RemainderOfErr(out: bytes, err: bytes, errOpen: bool)
    ensures Schedule(Remainder(out, err, false, errOpen), out, err, false, errOpen)
  {
    var f := Remainder(out, err, false, errOpen);
    assert err[|err|..] == [];
    if errOpen {
      assert f == [Data(Stderr, err, Stored), Done(true)];
      assert f[1..][0] == Done(true) && Schedule(f[1..][1..], out, [], false, false);
      assert Schedule(f[1..], out, [], false, true);
    }
  }

  /**
   Every run of the readers, the channel and the loop, aborted or not: at whatever point of it the loop ends, with the
   readers still sending or done, its answer is the one that the two streams and the budget fix.
   */
  lemma {:induction false} EveryRunIsAnswered(trace: seq<Channel>, moves: seq<Move>, out: bytes, err: bytes, n: nat,
                                              b: Budget, wait: WaitStatus, w0: WriterState)
    requires ChannelRun(trace, moves, out, err) && n < |trace|
    requires w0.bytesWritten <= RAW_SPOOL_SOURCE_CAP_BYTES && Ends(trace[n].received, b, Initial(w0))
    ensures var (r, w) := Run(trace[n].received, b, Initial(w0), wait); Answers(r, w, b, wait, w0, out, err)
  {
    var c := trace[n];
    var f := Remainder(c.outRest, c.errRest, c.outOpen, c.errOpen);
    RunMerges(trace, moves, out, err, n);
    RemainderDelivers(c.outRest, c.errRest, c.outOpen, c.errOpen);
    var events := c.received + c.queue + f;
    assert Schedule(events, out, err, true, true);
    Confluence(events, b, wait, w0, out, err);
    hide *;
    assert events == c.received + (c.queue + f);
    EndedRun(c.received, c.queue + f, b, Initial(w0), wait);
  }
}
