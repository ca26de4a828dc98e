/**
 What the capture loop makes of any sequence of events: not only of schedules, but of deadlines, failed reads, failing
 disks, overflows and channels that close, each told from the events alone.
 */
module CaptureRuns {
  import opened Wrappers
  import opened Bytes
  import opened SpoolWriter
  import opened Capture

  // ------------------------------------------------------------ what was received

  function ReadersDone(events: seq<Event>): nat
  {
    if events == [] then 0
    else ReadersDone(events[..|events| - 1]) + if events[|events| - 1].Done? then 1 else 0
  }

  predicate FailedRead(events: seq<Event>) { Done(false) in events }

  /** The bytes of one stream, in order. */
  function Received(events: seq<Event>, kind: StreamKind): bytes
  {
    if events == [] then []
    else
      var e := events[|events| - 1];
      Received(events[..|events| - 1], kind) + if e.Data? && e.kind == kind then e.chunk else []
  }

  /** The bytes of both, in the order they were received. */
  function AllReceived(events: seq<Event>): bytes
  {
    if events == [] then []
    else
      var e := events[|events| - 1];
      AllReceived(events[..|events| - 1]) + if e.Data? then e.chunk else []
  }

  /** How much of a stream may be taken. */
  function Allowed(b: Budget, kind: StreamKind): u64
  {
    match b.policy
    case LegacySpool => U64_MAX
    case _ => match kind case Stdout => b.stdoutSource case Stderr => b.stderrSource
  }

  function ShownOf(b: Budget, kind: StreamKind): nat
  {
    match kind case Stdout => b.preview case Stderr => Min(b.preview, 64 * 1024)
  }

  /** The part of a chunk that may still be taken after `before`. */
  function TakenOf(before: seq<Event>, kind: StreamKind, chunk: bytes, b: Budget): bytes
  {
    chunk[..Min(SatSub(Allowed(b, kind), |Received(before, kind)|), |chunk|)]
  }

  /** A write of `piece` that reaches the disk and fails: something is left to write and the artifact is not full. */
  predicate WriteFails(before: seq<Event>, piece: bytes, disk: Disk)
  {
    disk.Torn? && piece != [] && |AllReceived(before)| < RAW_SPOOL_SOURCE_CAP_BYTES
  }

  /** An event the loop takes and goes on from, after `before`. */
  predicate Taken(before: seq<Event>, e: Event, b: Budget)
  {
    match e
    case TimedOut => false
    case Done(_) => true
    case Data(kind, chunk, disk) =>
      && |Received(before, kind)| + |chunk| <= Allowed(b, kind)
      && !WriteFails(before, chunk, disk)
  }

  predicate AllTaken(events: seq<Event>, b: Budget)
  {
    events == []
    || (AllTaken(events[..|events| - 1], b) && Taken(events[..|events| - 1], events[|events| - 1], b))
  }

  /** After `k` events the loop still waits for a reader. */
  predicate RunningAt(events: seq<Event>, b: Budget, k: nat)
  {
    k <= |events| && AllTaken(events[..k], b) && ReadersDone(events[..k]) < 2
  }

  function Beginning(stream: bytes, limit: nat): bytes { stream[..Min(|stream|, limit)] }

  /** The streams as received, under their preview limits. */
  function Complete(events: seq<Event>, b: Budget, code: int): CaptureResult
  {
    var out, err := Received(events, Stdout), Received(events, Stderr);
    CaptureResult(code, Beginning(out, ShownOf(b, Stdout)), Beginning(err, ShownOf(b, Stderr)),
                  |out| > ShownOf(b, Stdout), |err| > ShownOf(b, Stderr), false)
  }

  /** The first 64 MiB received are the artifact. */
  function Artifact(events: seq<Event>): WriterState { Holding(AllReceived(events)) }

  // ------------------------------------------------------------ the state after events that were taken

  function StreamOf(events: seq<Event>, b: Budget, kind: StreamKind): StreamState
  {
    var stream := Received(events, kind);
    StreamState(Beginning(stream, ShownOf(b, kind)), |stream| > ShownOf(b, kind), |stream|)
  }

  function StateOf(events: seq<Event>, b: Budget): LoopState
  {
    LoopState(StreamOf(events, b, Stdout), StreamOf(events, b, Stderr), ReadersDone(events), FailedRead(events),
              Artifact(events))
  }

  lemma {:induction false} LimitsAgree(b: Budget, kind: StreamKind)
    ensures SourceLimit(b, kind) == Allowed(b, kind) && PreviewLimit(b, kind) == ShownOf(b, kind)
  {
  }

  lemma {:induction false} TakePiece(stream: bytes, piece: bytes, limit: nat)
    requires |stream| + |piece| <= U64_MAX
    ensures Take(StreamState(Beginning(stream, limit), |stream| > limit, |stream|), piece, limit)
         == StreamState(Beginning(stream + piece, limit), |stream + piece| > limit, |stream + piece|)
  {
    var all := stream + piece;
    assert all[..Min(|stream|, limit)] == Beginning(stream, limit) && all[|stream|..|stream| + |piece|] == piece;
    TakeMore(all, |stream|, |piece|, limit);
    hide Take;
  }

  lemma {:induction false} WritePiece(before: seq<Event>, piece: bytes, disk: Disk)
    requires !WriteFails(before, piece, disk)
    ensures piece != [] ==> Write(Artifact(before), piece, disk) == (Holding(AllReceived(before) + piece), Some(
              Min(SatSub(RAW_SPOOL_SOURCE_CAP_BYTES, Min(|AllReceived(before)|, RAW_SPOOL_SOURCE_CAP_BYTES)), |piece|)))
  {
    WriteExtends(AllReceived(before), piece);
    hide AllReceived;
  }

  lemma {:induction false} Snoc(before: seq<Event>, e: Event)
    ensures ReadersDone(before + [e]) == ReadersDone(before) + if e.Done? then 1 else 0
    ensures FailedRead(before + [e]) <==> FailedRead(before) || e == Done(false)
    ensures AllReceived(before + [e]) == AllReceived(before) + if e.Data? then e.chunk else []
    ensures forall kind ::
              Received(before + [e], kind) == Received(before, kind) + if e.Data? && e.kind == kind then e.chunk else []
  {
    assert (before + [e])[..|before|] == before;
  }

  /** A chunk that is taken up to `piece`, and written when there is anything to write. */
  lemma {:induction false} TurnPiece(s: LoopState, kind: StreamKind, chunk: bytes, disk: Disk, b: Budget, piece: bytes,
                                     w: WriterState)
    requires piece == chunk[..Min(SatSub(SourceLimit(b, kind), Of(s, kind).seen), |chunk|)]
    requires if piece == [] then w == s.writer
             else Write(s.writer, piece, disk).0 == w && Write(s.writer, piece, disk).1.Some?
    ensures var taken := With(s, kind, Take(Of(s, kind), piece, PreviewLimit(b, kind)));
            if piece == chunk then Turn(Data(kind, chunk, disk), b, s) == Continue(taken.(writer := w))
            else
              var flagged := With(s, kind, Take(Of(s, kind), piece, PreviewLimit(b, kind)).(truncated := true));
              Turn(Data(kind, chunk, disk), b, s)
              == match b.policy {
                   case Fail => Stop(Err(OutputLimitExceeded), w)
                   case LegacySpool => Stop(Err(Unreachable), w)
                   case Truncate => Stop(Ok(Captured(flagged, 1, true)), w)
                 }
  {
    hide Take, Write, PreviewLimit, SourceLimit;
  }

  /** The stream state and the writer once `piece` was taken. */
  lemma {:induction false} PieceTaken(before: seq<Event>, kind: StreamKind, piece: bytes, disk: Disk, b: Budget)
    requires |Received(before, kind)| + |piece| <= U64_MAX && !WriteFails(before, piece, disk)
    ensures var after := before + [Data(kind, piece, Stored)];
            With(StateOf(before, b), kind, Take(StreamOf(before, b, kind), piece, PreviewLimit(b, kind)))
              .(writer := Artifact(after)) == StateOf(after, b)
    ensures var w := Artifact(before);
            if piece == [] then Artifact(before + [Data(kind, piece, Stored)]) == w
            else Write(w, piece, disk).1.Some?
                 && Write(w, piece, disk).0 == Artifact(before + [Data(kind, piece, Stored)])
  {
    Snoc(before, Data(kind, piece, Stored));
    Unread(before);
    LimitsAgree(b, kind);
    TakePiece(Received(before, kind), piece, ShownOf(b, kind));
    WritePiece(before, piece, disk);
    hide Take, Write, Received, AllReceived, ReadersDone, FailedRead, PreviewLimit, ShownOf, WriteFails;
    hide Holding, Beginning;
  }

  /** The state does not tell which disk took the chunk. */
  lemma {:induction false} AnyDisk(before: seq<Event>, kind: StreamKind, chunk: bytes, disk: Disk, b: Budget)
    ensures StateOf(before + [Data(kind, chunk, disk)], b) == StateOf(before + [Data(kind, chunk, Stored)], b)
  {
    Snoc(before, Data(kind, chunk, disk));
    Snoc(before, Data(kind, chunk, Stored));
    hide Received, AllReceived, ReadersDone, FailedRead, ShownOf;
  }

  lemma {:induction false} DataTaken(before: seq<Event>, kind: StreamKind, chunk: bytes, disk: Disk, b: Budget)
    requires Taken(before, Data(kind, chunk, disk), b)
    ensures Turn(Data(kind, chunk, disk), b, StateOf(before, b))
         == Continue(StateOf(before + [Data(kind, chunk, disk)], b))
  {
    LimitsAgree(b, kind);
    PieceTaken(before, kind, chunk, disk, b);
    AnyDisk(before, kind, chunk, disk, b);
    assert chunk[..|chunk|] == chunk;
    assert Of(StateOf(before, b), kind) == StreamOf(before, b, kind);
    assert StateOf(before, b).writer == Artifact(before);
    assert StreamOf(before, b, kind).seen == |Received(before, kind)|;
    hide Turn, Take, Write, StateOf, StreamOf, Received, SourceLimit, PreviewLimit, Allowed, Artifact, With, Of;
    TurnPiece(StateOf(before, b), kind, chunk, disk, b, chunk, Artifact(before + [Data(kind, chunk, Stored)]));
  }

  lemma {:induction false} Unread(before: seq<Event>)
    ensures AllReceived(before) + [] == AllReceived(before)
    ensures forall kind :: Received(before, kind) + [] == Received(before, kind)
  {
  }

  lemma {:induction false} TurnTaken(before: seq<Event>, e: Event, b: Budget)
    requires Taken(before, e, b)
    ensures Turn(e, b, StateOf(before, b)) == Continue(StateOf(before + [e], b))
  {
    match e
    case Done(_) =>
      Snoc(before, e);
      Unread(before);
      hide Received, AllReceived, ReadersDone, FailedRead;
    case Data(kind, chunk, disk) => DataTaken(before, kind, chunk, disk, b);
  }

  lemma {:induction false} StartState(b: Budget)
    ensures StateOf([], b) == Initial(FRESH_WRITER)
  {
  }

  /** The loop that took the first `k` events stands where their bytes and ends say. */
  lemma {:induction false} RunFrom(events: seq<Event>, b: Budget, wait: WaitStatus, k: nat)
    requires RunningAt(events, b, k)
    ensures Run(events, b, Initial(FRESH_WRITER), wait) == Run(events[k..], b, StateOf(events[..k], b), wait)
    decreases k
  {
    hide Turn, StateOf, Finish, Taken;
    if k == 0 {
      StartState(b);
      assert events[0..] == events && events[..0] == [];
    } else {
      var before, e := events[..k - 1], events[k - 1];
      assert events[..k] == before + [e] && events[..k][..k - 1] == before;
      Snoc(before, e);
      RunFrom(events, b, wait, k - 1);
      TurnTaken(before, e, b);
      assert events[k - 1..][0] == e && events[k - 1..][1..] == events[k..];
      StateCounts(before, b);
      hide ReadersDone, AllTaken;
    }
  }

  lemma {:induction false} StateCounts(events: seq<Event>, b: Budget)
    ensures StateOf(events, b).completed == ReadersDone(events)
    ensures StateOf(events, b).readFailed == FailedRead(events)
    ensures StateOf(events, b).writer == Artifact(events)
  {
    hide Received, AllReceived, ReadersDone, FailedRead;
  }

  lemma {:induction false} AllIsBoth(events: seq<Event>)
    ensures |AllReceived(events)| == |Received(events, Stdout)| + |Received(events, Stderr)|
    decreases |events|
  {
    if events != [] { AllIsBoth(events[..|events| - 1]); }
  }

  // ------------------------------------------------------------ the verdict

  /** Both readers have ended: the child is waited for, unless a read failed. */
  function Ended(events: seq<Event>, b: Budget, wait: WaitStatus): Result<CaptureResult, CaptureError>
  {
    if FailedRead(events) then Err(CaptureFailed)
    else match wait
      case Exited(code) => Ok(Complete(events, b, code))
      case Signalled => Ok(Complete(events, b, 1))
      case WaitError => Err(WaitFailed)
  }

  /** A stream has more than it may: what was taken of it is shown and flagged, or the capture fails. */
  function Overflowed(before: seq<Event>, kind: StreamKind, piece: bytes, b: Budget)
    : Result<CaptureResult, CaptureError>
  {
    match b.policy
    case Fail => Err(OutputLimitExceeded)
    case LegacySpool => Err(Unreachable)
    case Truncate =>
      var shown := Complete(before + [Data(kind, piece, Stored)], b, 1).(sourceTruncated := true);
      Ok(match kind case Stdout => shown.(stdoutTruncated := true) case Stderr => shown.(stderrTruncated := true))
  }

  /** The answer of a loop that still waits after `k` events and ends with the next, or finds no more. */
  ghost predicate Verdict(events: seq<Event>, b: Budget, wait: WaitStatus, k: nat,
                          r: Result<CaptureResult, CaptureError>, w: WriterState)
    requires k <= |events|
  {
    var before := events[..k];
    if k == |events| then r == Err(CaptureFailed) && w == Artifact(before)
    else match events[k]
      case TimedOut => r == Err(Timeout) && w == Artifact(before)
      case Done(_) => ReadersDone(before) == 1 ==> r == Ended(events[..k + 1], b, wait) && w == Artifact(before)
      case Data(kind, chunk, disk) =>
        var piece := TakenOf(before, kind, chunk, b);
        if WriteFails(before, piece, disk) then r == Err(SpoolFailed)
        else piece != chunk ==> r == Overflowed(before, kind, piece, b) && w == Holding(AllReceived(before) + piece)
  }

  /** For every sequence of events, budget and wait: what ends the loop decides its answer. */
  lemma {:induction false} EveryEndIsAnswered(events: seq<Event>, b: Budget, wait: WaitStatus, k: nat)
    requires RunningAt(events, b, k)
    ensures var (r, w) := Run(events, b, Initial(FRESH_WRITER), wait); Verdict(events, b, wait, k, r, w)
  {
    var before := events[..k];
    RunFrom(events, b, wait, k);
    StateCounts(before, b);
    if k == |events| {
      assert events[k..] == [];
      hide StateOf;
    } else {
      assert events[k..][0] == events[k] && events[k..][1..] == events[k + 1..];
      match events[k]
      case TimedOut => hide StateOf;
      case Done(ok) =>
        if ReadersDone(before) == 1 {
          assert before + [Done(ok)] == events[..k + 1];
          TurnTaken(before, Done(ok), b);
          StateCounts(events[..k + 1], b);
          Snoc(before, Done(ok));
          Unread(before);
          FinishShows(events[..k + 1], b, wait);
          hide Turn, StateOf, Finish, Ended, ReadersDone, FailedRead, AllReceived, Received;
        }
      case Data(kind, chunk, disk) =>
        var piece := TakenOf(before, kind, chunk, b);
        TakenIsAllowed(before, b);
        if WriteFails(before, piece, disk) {
          FailingWriteEnds(before, kind, chunk, disk, b);
        } else if piece != chunk {
          OverflowEnds(before, kind, chunk, disk, b);
        }
        hide Turn, StateOf, Overflowed, TakenOf, AllReceived, WriteFails;
    }
  }

  lemma {:induction false} FinishShows(events: seq<Event>, b: Budget, wait: WaitStatus)
    ensures Finish(StateOf(events, b), wait) == Ended(events, b, wait)
  {
    hide Received, AllReceived, ReadersDone, FailedRead;
  }

  lemma {:induction false} TakenIsAllowed(events: seq<Event>, b: Budget)
    requires AllTaken(events, b)
    ensures |Received(events, Stdout)| <= Allowed(b, Stdout) && |Received(events, Stderr)| <= Allowed(b, Stderr)
    decreases |events|
  {
    hide Allowed, WriteFails;
    if events != [] { TakenIsAllowed(events[..|events| - 1], b); }
  }

  /** A write that fails stops the loop. */
  lemma {:induction false} FailingWriteEnds(before: seq<Event>, kind: StreamKind, chunk: bytes, disk: Disk, b: Budget)
    requires WriteFails(before, TakenOf(before, kind, chunk, b), disk)
    ensures var n := Turn(Data(kind, chunk, disk), b, StateOf(before, b)); n.Stop? && n.result == Err(SpoolFailed)
  {
    LimitsAgree(b, kind);
    hide Take, Received, AllReceived, ReadersDone, FailedRead, SourceLimit, PreviewLimit, Beginning;
  }

  /** So does a chunk that is not taken whole. */
  lemma {:induction false} OverflowEnds(before: seq<Event>, kind: StreamKind, chunk: bytes, disk: Disk, b: Budget)
    requires |Received(before, kind)| <= Allowed(b, kind)
    requires var piece := TakenOf(before, kind, chunk, b); piece != chunk && !WriteFails(before, piece, disk)
    ensures var piece := TakenOf(before, kind, chunk, b);
            Turn(Data(kind, chunk, disk), b, StateOf(before, b))
            == Stop(Overflowed(before, kind, piece, b), Holding(AllReceived(before) + piece))
  {
    var piece := TakenOf(before, kind, chunk, b);
    var after := before + [Data(kind, piece, Stored)];
    LimitsAgree(b, kind);
    PieceTaken(before, kind, piece, disk, b);
    assert Artifact(after) == Holding(AllReceived(before) + piece) by { Snoc(before, Data(kind, piece, Stored)); }
    assert Of(StateOf(before, b), kind) == StreamOf(before, b, kind);
    assert StateOf(before, b).writer == Artifact(before);
    assert StreamOf(before, b, kind).seen == |Received(before, kind)|;
    TurnPiece(StateOf(before, b), kind, chunk, disk, b, piece, Artifact(after));
    ShowsOverflow(before, kind, piece, b);
    hide Turn, Take, Write, StateOf, StreamOf, Received, SourceLimit, PreviewLimit, Allowed, Artifact, Complete;
  }

  lemma {:induction false} ShowsOverflow(before: seq<Event>, kind: StreamKind, piece: bytes, b: Budget)
    ensures var after := StateOf(before + [Data(kind, piece, Stored)], b);
            b.policy.Truncate? ==>
              Ok(Captured(With(after, kind, Of(after, kind).(truncated := true)), 1, true))
              == Overflowed(before, kind, piece, b)
  {
    hide Received, AllReceived, ReadersDone, FailedRead, ShownOf;
  }

  // ------------------------------------------------------------ each answer, exactly

  /** The loop ends with event `k`, or with the channel when there is none. */
  predicate LastTaken(events: seq<Event>, b: Budget, k: nat)
  {
    RunningAt(events, b, k) && (k == |events| || !RunningAt(events, b, k + 1))
  }

  lemma {:induction false} SomeEnd(events: seq<Event>, b: Budget, k: nat) returns (n: nat)
    requires RunningAt(events, b, k)
    ensures n <= |events| && LastTaken(events, b, n)
    decreases |events| - k
  {
    if k < |events| && RunningAt(events, b, k + 1) { n := SomeEnd(events, b, k + 1); } else { n := k; }
  }

  lemma {:induction false} StartsRunning(events: seq<Event>, b: Budget)
    ensures RunningAt(events, b, 0)
  {
  }

  /** The second reader's end arrives while the loop runs. */
  predicate BothDoneAt(events: seq<Event>, b: Budget, k: nat)
  {
    k < |events| && RunningAt(events, b, k) && events[k].Done? && ReadersDone(events[..k]) == 1
  }

  predicate TimedOutAt(events: seq<Event>, b: Budget, k: nat)
  {
    k < |events| && RunningAt(events, b, k) && events[k] == TimedOut
  }

  lemma {:induction false} PieceIsWhole(before: seq<Event>, kind: StreamKind, chunk: bytes, b: Budget)
    requires |Received(before, kind)| <= Allowed(b, kind)
    ensures TakenOf(before, kind, chunk, b) == chunk <==> |Received(before, kind)| + |chunk| <= Allowed(b, kind)
  {
    hide Received, Allowed;
    assert chunk[..|chunk|] == chunk;
  }

  /** What an event that ends the loop is. */
  lemma {:induction false} EndingEvent(events: seq<Event>, b: Budget, k: nat)
    requires LastTaken(events, b, k) && k < |events|
    ensures match events[k]
            case TimedOut => true
            case Done(_) => ReadersDone(events[..k]) == 1
            case Data(kind, chunk, disk) =>
              var piece := TakenOf(events[..k], kind, chunk, b);
              WriteFails(events[..k], piece, disk) || piece != chunk
  {
    var before := events[..k];
    assert events[..k + 1] == before + [events[k]];
    Snoc(before, events[k]);
    assert (before + [events[k]])[..k] == before;
    assert AllTaken(before + [events[k]], b) <==> AllTaken(before, b) && Taken(before, events[k], b);
    if events[k].Data? {
      TakenIsAllowed(before, b);
      PieceIsWhole(before, events[k].kind, events[k].chunk, b);
    }
    hide ReadersDone, Received, AllReceived, FailedRead, Allowed, AllTaken, TakenOf;
  }

  /**
   A capture succeeds and is not cut exactly when the second reader ended while the loop ran, so after no deadline, no
   overflow and no failed write, neither read failed, and the child could be waited for. Then it shows the streams.
   */
  lemma {:induction false} SuccessExactly(events: seq<Event>, b: Budget, wait: WaitStatus)
    ensures var r := Run(events, b, Initial(FRESH_WRITER), wait).0;
            (r.Ok? && !r.value.sourceTruncated)
            <==> !wait.WaitError? && exists k :: BothDoneAt(events, b, k) && !FailedRead(events[..k + 1])
    ensures forall k :: BothDoneAt(events, b, k) ==>
                          Run(events, b, Initial(FRESH_WRITER), wait).0 == Ended(events[..k + 1], b, wait)
  {
    hide RunningAt, ReadersDone, FailedRead, Complete, Run, TakenOf, WriteFails, AllReceived;
    forall k | BothDoneAt(events, b, k)
      ensures Run(events, b, Initial(FRESH_WRITER), wait).0 == Ended(events[..k + 1], b, wait)
    {
      EveryEndIsAnswered(events, b, wait, k);
    }
    StartsRunning(events, b);
    var n := SomeEnd(events, b, 0);
    EveryEndIsAnswered(events, b, wait, n);
    if n < |events| {
      EndingEvent(events, b, n);
      if events[n].Done? { assert BothDoneAt(events, b, n); }
    }
    forall k | BothDoneAt(events, b, k) ensures NotCut(Ended(events[..k + 1], b, wait)) {
      EndedIsNotCut(events[..k + 1], b, wait);
    }
    if n < |events| && events[n].Data? {
      var kind, chunk := events[n].kind, events[n].chunk;
      OverflowIsCut(events[..n], kind, TakenOf(events[..n], kind, chunk, b), b);
    }
  }

  predicate NotCut(r: Result<CaptureResult, CaptureError>) { r.Ok? ==> !r.value.sourceTruncated }

  lemma {:induction false} EndedIsNotCut(events: seq<Event>, b: Budget, wait: WaitStatus)
    ensures NotCut(Ended(events, b, wait))
  {
  }

  lemma {:induction false} OverflowIsCut(before: seq<Event>, kind: StreamKind, piece: bytes, b: Budget)
    ensures var r := Overflowed(before, kind, piece, b); r.Ok? ==> r.value.sourceTruncated
  {
  }

  /** A capture is answered as timed out exactly when its deadline passed while the loop ran. */
  lemma {:induction false} TimeoutExactly(events: seq<Event>, b: Budget, wait: WaitStatus)
    ensures Run(events, b, Initial(FRESH_WRITER), wait).0 == Err(Timeout) <==> exists k :: TimedOutAt(events, b, k)
  {
    hide RunningAt, ReadersDone, FailedRead, Complete, Run, TakenOf, WriteFails, AllReceived;
    forall k | TimedOutAt(events, b, k) ensures Run(events, b, Initial(FRESH_WRITER), wait).0 == Err(Timeout) {
      EveryEndIsAnswered(events, b, wait, k);
    }
    StartsRunning(events, b);
    var n := SomeEnd(events, b, 0);
    EveryEndIsAnswered(events, b, wait, n);
    if n < |events| {
      EndingEvent(events, b, n);
      if events[n] == TimedOut { assert TimedOutAt(events, b, n); }
    }
  }

  /** It is answered as failed exactly when the channel closed before both readers ended, or a read failed before. */
  lemma {:induction false} FailureExactly(events: seq<Event>, b: Budget, wait: WaitStatus)
    ensures Run(events, b, Initial(FRESH_WRITER), wait).0 == Err(CaptureFailed)
            <==> || RunningAt(events, b, |events|)
                 || exists k :: BothDoneAt(events, b, k) && FailedRead(events[..k + 1])
  {
    hide RunningAt, ReadersDone, FailedRead, Complete, Run, TakenOf, WriteFails, AllReceived;
    forall k | BothDoneAt(events, b, k) && FailedRead(events[..k + 1])
      ensures Run(events, b, Initial(FRESH_WRITER), wait).0 == Err(CaptureFailed)
    {
      EveryEndIsAnswered(events, b, wait, k);
    }
    if RunningAt(events, b, |events|) { EveryEndIsAnswered(events, b, wait, |events|); }
    StartsRunning(events, b);
    var n := SomeEnd(events, b, 0);
    EveryEndIsAnswered(events, b, wait, n);
    if n < |events| {
      EndingEvent(events, b, n);
      if events[n].Done? { assert BothDoneAt(events, b, n); }
    }
  }
}
