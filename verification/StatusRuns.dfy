/** What `status` answers at any point of any run: state, exit code and artifact, told from the run's steps alone. */
module StatusRuns {
  import opened Wrappers
  import opened Bytes
  import opened SpoolWriter
  import opened LivePreview
  import opened Operations
  import opened OperationsProtocol
  import opened PreviewRuns

  /** How an operation's output ended, and whether it was captured. */
  ghost function EndIn(steps: seq<Step>, id: OperationId): Option<(int, bool)>
  {
    if steps == [] then None
    else match steps[|steps| - 1]
      case EndOfOutput(ended, exitCode, captured) =>
        if ended == id then Some((exitCode, captured)) else EndIn(steps[..|steps| - 1], id)
      case _ => EndIn(steps[..|steps| - 1], id)
  }

  /** The bytes its worker received, of both streams. */
  ghost function BytesIn(steps: seq<Step>, id: OperationId): nat
  {
    if steps == [] then 0
    else match steps[|steps| - 1]
      case Receive(to, _, chunk, _) => BytesIn(steps[..|steps| - 1], id) + if to == id then |chunk| else 0
      case _ => BytesIn(steps[..|steps| - 1], id)
  }

  /** The artifact of `n` bytes: at most 64 MiB are kept. */
  function ArtifactOf(n: nat): Artifact { Artifact(Min(n, 67_108_864), n > 67_108_864) }

  /** What a record and its worker tell of a run in which `n` bytes were received and the output ended so. */
  ghost predicate Tells(r: Record, w: Worker, n: nat, end: Option<(int, bool)>)
  {
    match w
    case Reading(writer, _, _) => IsRunning(r) && end.None? && MetadataOf(writer) == ArtifactOf(n) == r.artifact
    case Spooled(writer, _, _, _, chunk) =>
      && IsRunning(r) && end.None? && |chunk| <= n
      && MetadataOf(writer) == ArtifactOf(n) && r.artifact == ArtifactOf(n - |chunk|)
    case Finalising(Captured(capture, artifact)) =>
      IsRunning(r) && end == Some((capture.exitCode, true)) && artifact == ArtifactOf(n)
    case Finalising(Broken) => IsRunning(r) && (end.Some? ==> !end.value.1)
    case Gone => IsFinal(r, n, end)
  }

  predicate IsRunning(r: Record) { r.state.Running? && r.exitCode.None? }

  /** The record of a finished operation. */
  ghost predicate IsFinal(r: Record, n: nat, end: Option<(int, bool)>)
  {
    match end
    case Some((exitCode, true)) =>
      && r.exitCode == Some(exitCode) && r.artifact == ArtifactOf(n)
      && r.state == (if r.cancelRequested then Cancelled else if exitCode == 0 then ProcessState.Completed else Failed)
    case _ => r.exitCode.None? && r.state == if r.cancelRequested then Cancelled else Failed
  }

  // ------------------------------------------------------------ each step

  /** The bytes and the end a step adds. */
  ghost function BytesBy(step: Step, id: OperationId): nat
  {
    if step.Receive? && step.id == id then |step.chunk| else 0
  }

  ghost function EndBy(step: Step, id: OperationId, end: Option<(int, bool)>): Option<(int, bool)>
  {
    if step.EndOfOutput? && step.id == id then Some((step.exitCode, step.captured)) else end
  }

  lemma {:induction false} OneMore(steps: seq<Step>, step: Step, id: OperationId)
    ensures BytesIn(steps + [step], id) == BytesIn(steps, id) + BytesBy(step, id)
    ensures EndIn(steps + [step], id) == EndBy(step, id, EndIn(steps, id))
  {
    assert (steps + [step])[..|steps|] == steps;
  }

  lemma {:induction false} WriteIsCounted(w: WriterState, n: nat, chunk: bytes, disk: Disk)
    requires MetadataOf(w) == ArtifactOf(n) && Write(w, chunk, disk).1.Some?
    ensures MetadataOf(Write(w, chunk, disk).0) == ArtifactOf(n + |chunk|)
  {
  }

  lemma {:induction false} ReceiveTells(r: Record, w: Worker, n: nat, kind: StreamKind, chunk: bytes, disk: Disk)
    requires w.Reading? && Tells(r, w, n, None)
    ensures Tells(r, Received(w, kind, chunk, disk), n + |chunk|, None)
  {
    if Write(w.writer, chunk, disk).1.Some? { WriteIsCounted(w.writer, n, chunk, disk); }
    hide Write, ArtifactOf;
  }

  lemma {:induction false} PublishTells(r: Record, w: Worker, n: nat, end: Option<(int, bool)>)
    requires w.Spooled? && Tells(r, w, n, end)
    ensures Tells(Progressed(r, w.kind, w.chunk, MetadataOf(w.writer)), Published(w), n, end)
  {
    hide AppendLive, AppendRaw, ArtifactOf;
  }

  lemma {:induction false} EndTells(r: Record, w: Worker, n: nat, end: Option<(int, bool)>, exitCode: int,
                                    captured: bool)
    requires w.Reading? && Tells(r, w, n, end)
    ensures Tells(r, Ended(w, exitCode, captured), n, Some((exitCode, captured)))
  {
    hide ArtifactOf;
  }

  lemma {:induction false} FinaliseTells(r: Record, w: Worker, n: nat, end: Option<(int, bool)>)
    requires w.Finalising? && Tells(r, w, n, end)
    ensures Tells(Finalised(r, w.end), Gone, n, end)
  {
    hide ArtifactOf, LivePreview.Completed;
  }

  lemma {:induction false} LaunchTells(workspace: Capability, executionId: nat, processGroup: int)
    ensures Tells(NewRecord(workspace, executionId, processGroup), Reading(FRESH_WRITER, Nothing, Nothing), 0, None)
  {
  }

  /** Marking changes nothing but the mark, and only of a running record. */
  lemma {:induction false} MarkTells(r: Record, t: Record, w: Worker, n: nat, end: Option<(int, bool)>)
    requires Tells(r, w, n, end) && (t == r || (r.state.Running? && t == r.(cancelRequested := true)))
    ensures Tells(t, w, n, end)
  {
    hide ArtifactOf;
  }

  lemma {:induction false} MarkedOnly(records: Records, c: CancelCall, killed: bool, id: OperationId)
    requires !c.pc.Returned? && id in records
    ensures var after := CancelMoved(records, c, killed).0;
            id in after && (after[id] == records[id]
                            || (records[id].state.Running? && after[id] == records[id].(cancelRequested := true)))
  {
    hide Signals, ViewOf;
  }

  lemma {:induction false} OthersTell(s: State, step: Step, id: OperationId, n: nat, end: Option<(int, bool)>)
    requires Enabled(s, step) && id in s.records && id in s.workers && Tells(s.records[id], s.workers[id], n, end)
    requires !Addresses(step, id)
    ensures var t := After(s, step);
            && id in t.records && id in t.workers && Tells(t.records[id], t.workers[id], n, end)
            && t.workers[id] == s.workers[id]
  {
    hide Enumerates, RunningIn, Tells;
    match step
    case CancelMove(call, killed) =>
      MarkedOnly(s.records, s.cancels[call], killed, id);
      MarkTells(s.records[id], After(s, step).records[id], s.workers[id], n, end);
      hide CancelTurn;
    case SweepMove(sweep, killed) =>
      MarkedOnly(s.records, CallOf(s.sweeps[sweep]), killed, id);
      MarkTells(s.records[id], After(s, step).records[id], s.workers[id], n, end);
      hide CancelTurn, SweepMoved;
    case _ =>
      hide CancelTurn, SweepMoved, Received, Published, Ended, Finalised, Progressed, NewRecord;
  }

  /** One step, for the operation it addresses. */
  lemma {:induction false} OwnTells(s: State, step: Step, id: OperationId, n: nat, end: Option<(int, bool)>)
    requires Enabled(s, step) && Addresses(step, id)
    requires if id in s.workers then id in s.records && Tells(s.records[id], s.workers[id], n, end)
             else n == 0 && end.None?
    ensures var t := After(s, step);
            && id in t.records && id in t.workers
            && Tells(t.records[id], t.workers[id], n + BytesBy(step, id), EndBy(step, id, end))
            && (t.workers[id].Gone? <==> step.Finalise?)
            && (id in s.workers ==> !s.workers[id].Gone?)
  {
    hide Enumerates, RunningIn, CancelTurn, SweepMoved, SweepOver;
    match step
    case Launch(_, workspace, executionId, processGroup) =>
      LaunchTells(workspace, executionId, processGroup);
      hide Tells;
    case Receive(_, kind, chunk, disk) =>
      assert end.None?;
      ReceiveTells(s.records[id], s.workers[id], n, kind, chunk, disk);
      hide Tells, Received;
    case Publish(_) =>
      PublishTells(s.records[id], s.workers[id], n, end);
      hide Tells, Published, Progressed;
    case EndOfOutput(_, exitCode, captured) =>
      EndTells(s.records[id], s.workers[id], n, end, exitCode, captured);
      hide Tells, Ended;
    case Finalise(_) =>
      FinaliseTells(s.records[id], s.workers[id], n, end);
      hide Tells, Finalised;
  }

  ghost predicate TellsAt(s: State, steps: seq<Step>, id: OperationId)
  {
    var n, end := BytesIn(steps, id), EndIn(steps, id);
    && (if id in s.workers then id in s.records && Tells(s.records[id], s.workers[id], n, end)
        else n == 0 && end.None?)
    && (Finalise(id) in steps <==> id in s.workers && s.workers[id].Gone?)
  }

  lemma {:induction false} TellsHolds(steps: seq<Step>, id: OperationId)
    requires StateAfter(steps).Some?
    ensures TellsAt(StateAfter(steps).value, steps, id)
    decreases |steps|
  {
    hide Enabled, After, Tells;
    if steps != [] {
      var last := |steps| - 1;
      TellsHolds(steps[..last], id);
      TellsMoves(StateAfter(steps[..last]).value, steps[..last], steps[last], id);
      assert steps[..last] + [steps[last]] == steps;
    }
  }

  lemma {:induction false} TellsMoves(s: State, steps: seq<Step>, step: Step, id: OperationId)
    requires Enabled(s, step) && TellsAt(s, steps, id)
    ensures TellsAt(After(s, step), steps + [step], id)
  {
    var n, end := BytesIn(steps, id), EndIn(steps, id);
    OneMore(steps, step, id);
    if Addresses(step, id) {
      OwnTells(s, step, id, n, end);
    } else if id in s.workers {
      OthersTell(s, step, id, n, end);
    } else {
      StaysAbsent(s, step, id);
    }
    hide Enabled, After, Tells, BytesIn, EndIn;
  }

  // ------------------------------------------------------------ what a caller is told

  /**
   At every point of every run an operation's own workspace is told: `Running` and no exit code until its worker has
   finished; then the exit code its output ended with, `Completed` for zero and `Failed` otherwise unless a cancel was
   requested, and an artifact of the first 64 MiB of all it received; and no exit code where nothing was captured.
   */
  lemma {:induction false} StatusTells(steps: seq<Step>, id: OperationId)
    requires StateAfter(steps).Some? && id in StateAfter(steps).value.records
    ensures var s := StateAfter(steps).value;
            var r, n := s.records[id], BytesIn(steps, id);
            var answer := StatusOf(s.records, r.workspace, id);
            && answer.Ok?
            && answer.value.artifact == Artifact(answer.value.bytesSpooled, answer.value.sourceTruncated)
            && if Finalise(id) !in steps then
                 && answer.value.state.Running? && answer.value.exitCode.None?
                 && (id in s.workers && s.workers[id].Reading? ==> answer.value.artifact == ArtifactOf(n))
               else match EndIn(steps, id)
                 case Some((exitCode, true)) =>
                   && answer.value.exitCode == Some(exitCode) && answer.value.artifact == ArtifactOf(n)
                   && answer.value.state
                      == if r.cancelRequested then Cancelled
                         else if exitCode == 0 then ProcessState.Completed else Failed
                 case _ =>
                   && answer.value.exitCode.None?
                   && answer.value.state == if r.cancelRequested then Cancelled else Failed
  {
    TellsHolds(steps, id);
    RecordsAreSound(steps, id);
    hide StateAfter, EndIn, BytesIn, ArtifactOf;
  }
}
