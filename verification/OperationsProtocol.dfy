/**
 Workers, cancels and workspace cancels over one operation registry, in every interleaving of their critical sections.
 */
module OperationsProtocol {
  import opened Wrappers
  import opened Bytes
  import opened SpoolWriter
  import opened LivePreview
  import opened Operations

  const CANCEL_GRACE_STEPS: nat := 50

  /** A worker between two of its steps: reading, holding a chunk it has spooled, about to finalise, or gone. */
  datatype Worker =
    | Reading(writer: WriterState, stdout: Shown, stderr: Shown)
    | Spooled(writer: WriterState, stdout: Shown, stderr: Shown, kind: StreamKind, chunk: bytes)
    | Finalising(end: End)
    | Gone

  datatype End = Captured(capture: CaptureResult, artifact: Artifact) | Broken

  /** A `cancel` call: about to mark, signalling and polling (`turn` counts both), or returned. */
  datatype CancelPc = Marking | Waiting(processGroup: int, turn: nat) | Returned(ok: bool)

  datatype SignalKind = Terminate | Kill

  /** What a cancel did in one of its moves: marked the record, sent a signal, or looked at the record's state. */
  datatype Act =
    | Marked(start: CancelStart)
    | Sent(signal: SignalKind, processGroup: int, delivered: bool)
    | Polled(found: Option<ProcessState>)

  /** `acts` is all that the call has done so far. */
  datatype CancelCall = CancelCall(workspace: Capability, id: OperationId, pc: CancelPc, acts: seq<Act>)

  /** A `cancel_workspace` call working through its snapshot. */
  datatype Sweep = Sweep(
    workspace: Capability, snapshot: seq<OperationId>, next: nat, pc: CancelPc, acts: seq<Act>)

  datatype State = State(
    records: Records, workers: map<OperationId, Worker>, cancels: map<nat, CancelCall>, sweeps: map<nat, Sweep>)

  datatype Step =
    | Launch(id: OperationId, workspace: Capability, executionId: nat, processGroup: int)
    | Receive(id: OperationId, kind: StreamKind, chunk: bytes, disk: Disk)
    | Publish(id: OperationId)
    | EndOfOutput(id: OperationId, exitCode: int, captured: bool)
    | Finalise(id: OperationId)
    | BeginCancel(call: nat, workspace: Capability, target: OperationId)
    | CancelMove(call: nat, killed: bool)
    | BeginSweep(sweep: nat, workspace: Capability, snapshot: seq<OperationId>)
    | SweepMove(sweep: nat, killed: bool)

  const Initial := State(map[], map[], map[], map[])

  /** The second signal follows the first fifty polls; after fifty more the call returns what it sees. */
  predicate Signals(turn: nat) { turn == 0 || turn == CANCEL_GRACE_STEPS + 1 }

  const LAST_TURN: nat := 2 * CANCEL_GRACE_STEPS + 2

  /** One move of a cancel call and what it does: `kill_process_group` refuses a group that is not positive. */
  function CancelTurn(records: Records, c: CancelCall, killed: bool): (Records, CancelPc, Act)
    requires !c.pc.Returned?
  {
    match c.pc
    case Marking =>
      var (marked, start) := StartCancel(records, c.workspace, c.id);
      (marked, match start
               case Missing => Returned(false)
               case AlreadyOver(_) => Returned(true)
               case Signal(processGroup) => Waiting(processGroup, 0), Marked(start))
    case Waiting(processGroup, turn) =>
      if Signals(turn) then
        var delivered := processGroup > 0 && killed;
        (records, if delivered then Waiting(processGroup, turn + 1) else Returned(false),
         Sent(if turn == 0 then Terminate else Kill, processGroup, delivered))
      else match StatusOf(records, c.workspace, c.id)
        case Err(_) => (records, Returned(false), Polled(None))
        case Ok(view) =>
          (records, if view.state.Running? && turn < LAST_TURN then Waiting(processGroup, turn + 1) else Returned(true),
           Polled(Some(view.state)))
  }

  function CancelMoved(records: Records, c: CancelCall, killed: bool): (Records, CancelPc)
    requires !c.pc.Returned?
  {
    var (moved, pc, _) := CancelTurn(records, c, killed);
    (moved, pc)
  }

  function ActOf(records: Records, c: CancelCall, killed: bool): Act
    requires !c.pc.Returned?
  {
    CancelTurn(records, c, killed).2
  }

  ghost predicate Enabled(s: State, step: Step)
  {
    match step
    case Launch(id, _, _, processGroup) => id !in s.workers && processGroup > 0
    case Receive(id, _, _, _) => id in s.workers && s.workers[id].Reading?
    case Publish(id) => id in s.workers && s.workers[id].Spooled?
    case EndOfOutput(id, _, _) => id in s.workers && s.workers[id].Reading?
    case Finalise(id) => id in s.workers && s.workers[id].Finalising?
    case BeginCancel(call, _, _) => call !in s.cancels
    case CancelMove(call, _) => call in s.cancels && !s.cancels[call].pc.Returned?
    case BeginSweep(sweep, workspace, snapshot) =>
      sweep !in s.sweeps && Enumerates(snapshot, RunningIn(s.records, workspace))
    case SweepMove(sweep, _) => sweep in s.sweeps && !SweepOver(s.sweeps[sweep]) && !s.sweeps[sweep].pc.Returned?
  }

  predicate SweepOver(w: Sweep) { w.next >= |w.snapshot| || w.pc == Returned(false) }

  predicate SweepSucceeded(w: Sweep) { w.next >= |w.snapshot| && w.pc != Returned(false) }

  function Received(w: Worker, kind: StreamKind, chunk: bytes, disk: Disk): Worker
    requires w.Reading?
  {
    var (writer, r) := Write(w.writer, chunk, disk);
    if r.None? then Finalising(Broken) else Spooled(writer, w.stdout, w.stderr, kind, chunk)
  }

  function Published(w: Worker): Worker
    requires w.Spooled?
  {
    if w.kind.Stdout? then Reading(w.writer, AppendRaw(w.stdout, w.chunk), w.stderr)
    else Reading(w.writer, w.stdout, AppendRaw(w.stderr, w.chunk))
  }

  /** The readers are done and the child reaped, and the artifact synced, or one of these failed. */
  function Ended(w: Worker, exitCode: int, captured: bool): Worker
    requires w.Reading?
  {
    Finalising(if captured then Captured(CaptureResult(exitCode, w.stdout, w.stderr), MetadataOf(w.writer)) else Broken)
  }

  function Finalised(r: Record, end: End): Record
  {
    match end
    case Captured(capture, artifact) => CompletedWith(r, capture, artifact)
    case Broken => MarkedFailed(r)
  }

  /** The call a sweep is making. */
  function CallOf(w: Sweep): CancelCall
    requires !SweepOver(w)
  {
    CancelCall(w.workspace, w.snapshot[w.next], w.pc, w.acts)
  }

  /** The sweep goes on to its next operation when a cancel succeeds. */
  function SweepMoved(w: Sweep, pc: CancelPc, act: Act): Sweep
  {
    if pc == Returned(true) then w.(next := w.next + 1, pc := Marking, acts := [])
    else w.(pc := pc, acts := w.acts + [act])
  }

  /** A worker finds its record by looking it up, and does nothing when it is not there. */
  function Updated(records: Records, id: OperationId, update: Record -> Record): Records
  {
    if id in records then records[id := update(records[id])] else records
  }

  ghost function After(s: State, step: Step): State
    requires Enabled(s, step)
  {
    match step
    case Launch(id, workspace, executionId, processGroup) =>
      s.(records := s.records[id := NewRecord(workspace, executionId, processGroup)],
         workers := s.workers[id := Reading(FRESH_WRITER, Nothing, Nothing)])
    case Receive(id, kind, chunk, disk) => s.(workers := s.workers[id := Received(s.workers[id], kind, chunk, disk)])
    case Publish(id) =>
      var w := s.workers[id];
      s.(records := Updated(s.records, id, r => Progressed(r, w.kind, w.chunk, MetadataOf(w.writer))),
         workers := s.workers[id := Published(w)])
    case EndOfOutput(id, exitCode, captured) => s.(workers := s.workers[id := Ended(s.workers[id], exitCode, captured)])
    case Finalise(id) =>
      var end := s.workers[id].end;
      s.(records := Updated(s.records, id, r => Finalised(r, end)), workers := s.workers[id := Gone])
    case BeginCancel(call, workspace, target) =>
      s.(cancels := s.cancels[call := CancelCall(workspace, target, Marking, [])])
    case CancelMove(call, killed) =>
      var c := s.cancels[call];
      var (records, pc, act) := CancelTurn(s.records, c, killed);
      s.(records := records, cancels := s.cancels[call := c.(pc := pc, acts := c.acts + [act])])
    case BeginSweep(sweep, workspace, snapshot) =>
      s.(sweeps := s.sweeps[sweep := Sweep(workspace, snapshot, 0, Marking, [])])
    case SweepMove(sweep, killed) =>
      var (records, pc, act) := CancelTurn(s.records, CallOf(s.sweeps[sweep]), killed);
      s.(records := records, sweeps := s.sweeps[sweep := SweepMoved(s.sweeps[sweep], pc, act)])
  }

  // ------------------------------------------------------------ what every interleaving keeps

  /** A record and the worker that owns it. */
  ghost predicate Owned(r: Record, w: Worker)
  {
    && (r.state.Running? <==> !w.Gone?)
    && (r.state.Running? <==> r.processGroup > 0)
    && (r.state.Running? <==> r.executionId.Some?)
    && r.artifact == Artifact(r.bytesSpooled, r.sourceTruncated)
    && |r.stdout.text| <= 3 * PREVIEW_MAX_BYTES && |r.stderr.text| <= 3 * PREVIEW_MAX_BYTES
    && (r.state.Running? ==> r.exitCode.None?)
    && (!r.state.Running? ==> (r.state.Cancelled? <==> r.cancelRequested))
    && (r.state.Completed? ==> r.exitCode == Some(0))
    && (r.state.Failed? ==> r.exitCode != Some(0))
    && Ahead(r, w)
  }

  /** A live worker is never behind its record: in bytes, in the flag, and within its previews. */
  ghost predicate Ahead(r: Record, w: Worker)
  {
    match w
    case Reading(writer, stdout, stderr) =>
      && r.artifact == MetadataOf(writer)
      && |stdout.text| <= PREVIEW_MAX_BYTES && |stderr.text| <= PREVIEW_MAX_BYTES
    case Spooled(writer, stdout, stderr, _, _) =>
      && r.bytesSpooled <= writer.bytesWritten && (r.sourceTruncated ==> writer.sourceTruncated)
      && |stdout.text| <= PREVIEW_MAX_BYTES && |stderr.text| <= PREVIEW_MAX_BYTES
    case Finalising(Captured(capture, artifact)) =>
      && r.artifact == artifact
      && |capture.stdout.text| <= PREVIEW_MAX_BYTES && |capture.stderr.text| <= PREVIEW_MAX_BYTES
    case _ => true
  }

  /** A record that cancelling has reached: over, or marked. */
  predicate Reached(records: Records, id: OperationId)
  {
    id in records && (!records[id].state.Running? || records[id].cancelRequested)
  }

  /** A cancel call past its marking has marked, and signals a real process group. */
  ghost predicate CallSound(records: Records, c: CancelCall)
  {
    match c.pc
    case Marking => true
    case Waiting(processGroup, _) =>
      processGroup > 0 && Reached(records, c.id) && records[c.id].workspace == c.workspace
    case Returned(ok) => ok ==> Reached(records, c.id) && records[c.id].workspace == c.workspace
  }

  ghost predicate SweepSound(records: Records, w: Sweep)
  {
    && w.next <= |w.snapshot|
    && (forall i :: 0 <= i < |w.snapshot| ==>
                      w.snapshot[i] in records && records[w.snapshot[i]].workspace == w.workspace)
    && (forall i :: 0 <= i < w.next ==> Reached(records, w.snapshot[i]))
    && (!SweepOver(w) ==> !w.pc.Returned? && CallSound(records, CallOf(w)))
  }

  ghost predicate Inv(s: State)
  {
    && s.records.Keys == s.workers.Keys
    && (forall id :: id in s.records ==> Owned(s.records[id], s.workers[id]))
    && (forall call :: call in s.cancels ==> CallSound(s.records, s.cancels[call]))
    && (forall sweep :: sweep in s.sweeps ==> SweepSound(s.records, s.sweeps[sweep]))
  }

  /** How a record may change: not at all once it is over, and never backwards. */
  ghost predicate Advances(r: Record, t: Record)
  {
    && (!r.state.Running? ==> t == r)
    && t.workspace == r.workspace
    && (r.cancelRequested ==> t.cancelRequested)
    && r.bytesSpooled <= t.bytesSpooled && (r.sourceTruncated ==> t.sourceTruncated)
  }

  /** No record is lost, and each advances. */
  ghost predicate AllAdvance(before: Records, after: Records)
  {
    forall id :: id in before ==> id in after && Advances(before[id], after[id])
  }

  lemma {:induction false} ReachedStays(before: Records, after: Records, id: OperationId)
    requires AllAdvance(before, after) && Reached(before, id)
    ensures Reached(after, id)
  {
    assert Advances(before[id], after[id]);
  }

  lemma {:induction false} CallStays(before: Records, after: Records, c: CancelCall)
    requires AllAdvance(before, after) && CallSound(before, c)
    ensures CallSound(after, c)
  {
    if !c.pc.Marking? && c.pc != Returned(false) {
      ReachedStays(before, after, c.id);
      assert Advances(before[c.id], after[c.id]);
    }
  }

  lemma {:induction false} SweepStays(before: Records, after: Records, w: Sweep)
    requires AllAdvance(before, after) && SweepSound(before, w)
    ensures SweepSound(after, w)
  {
    forall i | 0 <= i < |w.snapshot| ensures w.snapshot[i] in after && after[w.snapshot[i]].workspace == w.workspace {
      assert Advances(before[w.snapshot[i]], after[w.snapshot[i]]);
    }
    forall i | 0 <= i < w.next ensures Reached(after, w.snapshot[i]) { ReachedStays(before, after, w.snapshot[i]); }
    if !SweepOver(w) { CallStays(before, after, CallOf(w)); }
  }

  /** A step that moves one record forward, with its worker, keeps everything that waits on the registry. */
  lemma {:induction false} RecordMoves(s: State, id: OperationId, r: Record, w: Worker)
    requires Inv(s) && Owned(r, w)
    requires id in s.records ==> Advances(s.records[id], r)
    ensures var t := s.(records := s.records[id := r], workers := s.workers[id := w]);
            Inv(t) && AllAdvance(s.records, t.records)
  {
    hide Owned, Advances, CallSound, SweepSound;
    var after := s.records[id := r];
    forall other | other in s.records ensures other in after && Advances(s.records[other], after[other]) {
      if other != id { SelfAdvances(s.records[other]); }
    }
    forall call | call in s.cancels ensures CallSound(after, s.cancels[call]) {
      CallStays(s.records, after, s.cancels[call]);
    }
    forall sweep | sweep in s.sweeps ensures SweepSound(after, s.sweeps[sweep]) {
      SweepStays(s.records, after, s.sweeps[sweep]);
    }
  }

  lemma {:induction false} SelfAdvances(r: Record)
    ensures Advances(r, r)
  {
  }

  lemma {:induction false} LaunchKeeps(s: State, id: OperationId, workspace: Capability, executionId: nat,
                                       processGroup: int)
    requires Inv(s) && Enabled(s, Launch(id, workspace, executionId, processGroup))
    ensures var t := After(s, Launch(id, workspace, executionId, processGroup));
            Inv(t) && AllAdvance(s.records, t.records)
  {
    hide AppendLive;
    NewIsOwned(workspace, executionId, processGroup);
    hide Owned;
    RecordMoves(s, id, NewRecord(workspace, executionId, processGroup), Reading(FRESH_WRITER, Nothing, Nothing));
  }

  lemma {:induction false} NewIsOwned(workspace: Capability, executionId: nat, processGroup: int)
    requires processGroup > 0
    ensures Owned(NewRecord(workspace, executionId, processGroup), Reading(FRESH_WRITER, Nothing, Nothing))
  {
  }

  lemma {:induction false} WriteCounts(w: WriterState, source: bytes, disk: Disk)
    ensures var (w', r) := Write(w, source, disk);
            r.Some? ==> w.bytesWritten <= w'.bytesWritten && (w.sourceTruncated ==> w'.sourceTruncated)
  {
  }

  lemma {:induction false} ReceiveKeeps(s: State, id: OperationId, kind: StreamKind, chunk: bytes, disk: Disk)
    requires Inv(s) && Enabled(s, Receive(id, kind, chunk, disk))
    ensures var t := After(s, Receive(id, kind, chunk, disk)); Inv(t) && AllAdvance(s.records, t.records)
  {
    var r, w := s.records[id], s.workers[id];
    assert Owned(r, w);
    WriteCounts(w.writer, chunk, disk);
    hide Write;
    SelfAdvances(r);
    assert Owned(r, Received(w, kind, chunk, disk));
    hide Owned, Received;
    RecordMoves(s, id, r, Received(w, kind, chunk, disk));
    assert s.records[id := r] == s.records;
  }

  lemma {:induction false} AppendsBounded(live: Shown, raw: Shown, chunk: bytes)
    requires |live.text| <= 3 * PREVIEW_MAX_BYTES && |raw.text| <= PREVIEW_MAX_BYTES
    ensures |AppendLive(live, chunk).text| <= 3 * PREVIEW_MAX_BYTES && |AppendRaw(raw, chunk).text| <= PREVIEW_MAX_BYTES
  {
  }

  lemma {:induction false} PublishKeeps(s: State, id: OperationId)
    requires Inv(s) && Enabled(s, Publish(id))
    ensures var t := After(s, Publish(id)); Inv(t) && AllAdvance(s.records, t.records)
  {
    var r, w := s.records[id], s.workers[id];
    assert Owned(r, w);
    PublishOwned(r, w);
    hide Owned, Published, Progressed, Advances;
    RecordMoves(s, id, Progressed(r, w.kind, w.chunk, MetadataOf(w.writer)), Published(w));
  }

  lemma {:induction false} PublishOwned(r: Record, w: Worker)
    requires Owned(r, w) && w.Spooled?
    ensures var t := Progressed(r, w.kind, w.chunk, MetadataOf(w.writer));
            Owned(t, Published(w)) && Advances(r, t)
  {
    AppendsBounded(r.stdout, w.stdout, w.chunk);
    AppendsBounded(r.stderr, w.stderr, w.chunk);
    hide AppendLive, AppendRaw;
  }

  lemma {:induction false} EndKeeps(s: State, id: OperationId, exitCode: int, captured: bool)
    requires Inv(s) && Enabled(s, EndOfOutput(id, exitCode, captured))
    ensures var t := After(s, EndOfOutput(id, exitCode, captured)); Inv(t) && AllAdvance(s.records, t.records)
  {
    var r, w := s.records[id], s.workers[id];
    assert Owned(r, w);
    SelfAdvances(r);
    assert Owned(r, Ended(w, exitCode, captured));
    hide Owned, Ended;
    RecordMoves(s, id, r, Ended(w, exitCode, captured));
    assert s.records[id := r] == s.records;
  }

  lemma {:induction false} FinaliseKeeps(s: State, id: OperationId)
    requires Inv(s) && Enabled(s, Finalise(id))
    ensures var t := After(s, Finalise(id));
            Inv(t) && AllAdvance(s.records, t.records) && !t.records[id].state.Running?
  {
    var r, w := s.records[id], s.workers[id];
    assert Owned(r, w);
    FinalisedOwned(r, w);
    hide Owned, Finalised, Advances;
    RecordMoves(s, id, Finalised(r, w.end), Gone);
  }

  lemma {:induction false} FinalisedOwned(r: Record, w: Worker)
    requires Owned(r, w) && w.Finalising?
    ensures var t := Finalised(r, w.end);
            Owned(t, Gone) && Advances(r, t) && !t.state.Running?
  {
    if w.end.Captured? {
      LossyBound(w.end.capture.stdout);
      LossyBound(w.end.capture.stderr);
    }
    hide LivePreview.Completed;
  }

  lemma {:induction false} LossyBound(raw: Shown)
    requires |raw.text| <= PREVIEW_MAX_BYTES
    ensures |LivePreview.Completed(raw).text| <= 3 * PREVIEW_MAX_BYTES
  {
  }

  /** A cancel call's move marks at most its own, running, record. */
  lemma {:induction false} CancelMoves(s: State, c: CancelCall, killed: bool)
    requires Inv(s) && !c.pc.Returned? && CallSound(s.records, c)
    ensures var (records, pc) := CancelMoved(s.records, c, killed);
            && Inv(s.(records := records)) && AllAdvance(s.records, records)
            && CallSound(records, c.(pc := pc))
  {
    var records := CancelMoved(s.records, c, killed).0;
    if records == s.records {
      NothingMoves(s);
    } else {
      var r, w := s.records[c.id], s.workers[c.id];
      assert Owned(r, w);
      MarkOwned(r, w);
      hide Owned, Advances, CallSound, SweepSound;
      RecordMoves(s, c.id, r.(cancelRequested := true), w);
      assert s.workers[c.id := w] == s.workers;
    }
    CancelSound(s, c, killed);
    hide *;
  }

  lemma {:induction false} NothingMoves(s: State)
    requires Inv(s)
    ensures Inv(s.(records := s.records)) && AllAdvance(s.records, s.records)
  {
    forall id | id in s.records ensures Advances(s.records[id], s.records[id]) { SelfAdvances(s.records[id]); }
    hide *;
    assert s.(records := s.records) == s;
  }

  lemma {:induction false} CancelSound(s: State, c: CancelCall, killed: bool)
    requires Inv(s) && !c.pc.Returned? && CallSound(s.records, c)
    ensures var (records, pc) := CancelMoved(s.records, c, killed); CallSound(records, c.(pc := pc))
  {
    hide SweepSound;
    if c.id in s.records {
      assert Owned(s.records[c.id], s.workers[c.id]);
    }
  }

  lemma {:induction false} MarkOwned(r: Record, w: Worker)
    requires Owned(r, w) && r.state.Running?
    ensures Owned(r.(cancelRequested := true), w) && Advances(r, r.(cancelRequested := true)) && r.processGroup > 0
  {
  }

  lemma {:induction false} CancelMoveKeeps(s: State, call: nat, killed: bool)
    requires Inv(s) && Enabled(s, CancelMove(call, killed))
    ensures var t := After(s, CancelMove(call, killed)); Inv(t) && AllAdvance(s.records, t.records)
  {
    hide Owned, SweepSound, CallSound;
    assert CallSound(s.records, s.cancels[call]);
    CancelMoves(s, s.cancels[call], killed);
    var (records, pc, act) := CancelTurn(s.records, s.cancels[call], killed);
    ActsAreApart(records, s.cancels[call].(pc := pc), s.cancels[call].acts + [act]);
    hide CancelTurn;
  }

  /** What a call did is not what makes it sound. */
  lemma {:induction false} ActsAreApart(records: Records, c: CancelCall, acts: seq<Act>)
    ensures CallSound(records, c.(acts := acts)) <==> CallSound(records, c)
  {
  }

  lemma {:induction false} SweepMoveKeeps(s: State, sweep: nat, killed: bool)
    requires Inv(s) && Enabled(s, SweepMove(sweep, killed))
    ensures var t := After(s, SweepMove(sweep, killed)); Inv(t) && AllAdvance(s.records, t.records)
  {
    hide Owned, CallSound, Advances;
    var w := s.sweeps[sweep];
    assert SweepSound(s.records, w);
    CancelMoves(s, CallOf(w), killed);
    var (records, pc, act) := CancelTurn(s.records, CallOf(w), killed);
    SweepStays(s.records, records, w);
    SweepAdvances(records, w, pc, act);
    hide CancelTurn, SweepSound;
  }

  lemma {:induction false} SweepAdvances(records: Records, w: Sweep, pc: CancelPc, act: Act)
    requires SweepSound(records, w) && !SweepOver(w) && CallSound(records, CallOf(w).(pc := pc))
    ensures SweepSound(records, SweepMoved(w, pc, act))
  {
  }

  lemma {:induction false} BeginKeeps(s: State, step: Step)
    requires Inv(s) && Enabled(s, step) && (step.BeginCancel? || step.BeginSweep?)
    ensures var t := After(s, step); Inv(t) && AllAdvance(s.records, t.records)
  {
    hide Owned;
    forall id | id in s.records ensures Advances(s.records[id], s.records[id]) { SelfAdvances(s.records[id]); }
  }

  lemma {:induction false} StepKeeps(s: State, step: Step)
    requires Inv(s) && Enabled(s, step)
    ensures var t := After(s, step); Inv(t) && AllAdvance(s.records, t.records)
  {
    hide *;
    match step
    case Launch(id, workspace, executionId, processGroup) => LaunchKeeps(s, id, workspace, executionId, processGroup);
    case Receive(id, kind, chunk, disk) => ReceiveKeeps(s, id, kind, chunk, disk);
    case Publish(id) => PublishKeeps(s, id);
    case EndOfOutput(id, exitCode, captured) => EndKeeps(s, id, exitCode, captured);
    case Finalise(id) => FinaliseKeeps(s, id);
    case BeginCancel(_, _, _) => BeginKeeps(s, step);
    case CancelMove(call, killed) => CancelMoveKeeps(s, call, killed);
    case BeginSweep(_, _, _) => BeginKeeps(s, step);
    case SweepMove(sweep, killed) => SweepMoveKeeps(s, sweep, killed);
  }

  // ------------------------------------------------------------ runs

  /** The state a run reaches; `None` when one of its steps was not possible. */
  ghost function StateAfter(steps: seq<Step>): Option<State>
  {
    if steps == [] then Some(Initial)
    else
      var last := |steps| - 1;
      match StateAfter(steps[..last])
      case None => None
      case Some(s) => if Enabled(s, steps[last]) then Some(After(s, steps[last])) else None
  }

  lemma {:induction false} InvHolds(steps: seq<Step>)
    requires StateAfter(steps).Some?
    ensures Inv(StateAfter(steps).value)
    decreases |steps|
  {
    hide Inv, Enabled, After;
    if steps == [] {
      InitialInv();
    } else {
      InvHolds(steps[..|steps| - 1]);
      StepKeeps(StateAfter(steps[..|steps| - 1]).value, steps[|steps| - 1]);
    }
  }

  lemma {:induction false} InitialInv()
    ensures Inv(Initial)
  {
  }

  /** What stays true from one point of a run to any later one. */
  lemma {:induction false} RunsAdvance(steps: seq<Step>, k: nat, id: OperationId)
    requires k <= |steps| && StateAfter(steps).Some?
    ensures StateAfter(steps[..k]).Some?
    ensures var s, t := StateAfter(steps[..k]).value, StateAfter(steps).value;
            id in s.records ==> id in t.records && Advances(s.records[id], t.records[id])
    decreases |steps|
  {
    hide Inv, Enabled, After, Advances;
    if k == |steps| {
      assert steps[..k] == steps;
      var s := StateAfter(steps).value;
      if id in s.records { SelfAdvances(s.records[id]); }
    } else {
      var front := steps[..|steps| - 1];
      assert front[..k] == steps[..k];
      RunsAdvance(front, k, id);
      InvHolds(front);
      StepKeeps(StateAfter(front).value, steps[|steps| - 1]);
      var s, m, t := StateAfter(front[..k]).value, StateAfter(front).value, StateAfter(steps).value;
      if id in s.records { AdvancesTransitive(s.records[id], m.records[id], t.records[id]); }
    }
  }

  lemma {:induction false} AdvancesTransitive(a: Record, b: Record, c: Record)
    requires Advances(a, b) && Advances(b, c)
    ensures Advances(a, c)
  {
  }

  /**
   Every operation is finalised once, and a record that is over never changes again: not its state, its exit code, its
   previews or anything else. Counts never go back.
   */
  lemma {:induction false} TerminalRecordsAreFrozen(steps: seq<Step>, k: nat, id: OperationId)
    requires k <= |steps| && StateAfter(steps).Some?
    requires StateAfter(steps[..k]).Some? && id in StateAfter(steps[..k]).value.records
    ensures var s, t := StateAfter(steps[..k]).value, StateAfter(steps).value;
            && id in t.records
            && (!s.records[id].state.Running? ==> t.records[id] == s.records[id])
            && s.records[id].bytesSpooled <= t.records[id].bytesSpooled
  {
    RunsAdvance(steps, k, id);
  }

  /**
   At every point of every interleaving: an operation is running exactly while it has a process group, an execution
   and a worker; over, it is `Cancelled` exactly when a cancel was requested, which only happens while it runs;
   `Completed` means exit code zero; `bytesSpooled` is the artifact's count; and a preview is at most three times its
   limit.
   */
  lemma {:induction false} RecordsAreSound(steps: seq<Step>, id: OperationId)
    requires StateAfter(steps).Some? && id in StateAfter(steps).value.records
    ensures var s := StateAfter(steps).value;
            var r := s.records[id];
            && id in s.workers
            && (r.state.Running? <==> !s.workers[id].Gone?)
            && (r.state.Running? <==> r.processGroup > 0)
            && (r.state.Running? <==> r.executionId.Some?)
            && (r.state.Cancelled? <==> !r.state.Running? && r.cancelRequested)
            && (r.state.Completed? ==> r.exitCode == Some(0))
            && (r.state.Failed? ==> r.exitCode != Some(0))
            && r.artifact == Artifact(r.bytesSpooled, r.sourceTruncated)
            && |r.stdout.text| <= 3 * PREVIEW_MAX_BYTES && |r.stderr.text| <= 3 * PREVIEW_MAX_BYTES
  {
    InvHolds(steps);
    var s := StateAfter(steps).value;
    hide StateAfter, CallSound, SweepSound;
    assert Owned(s.records[id], s.workers[id]);
  }

  /** A cancel is requested only of a running operation, by the first move of a call or of a sweep. */
  lemma {:induction false} MarkedWhileRunning(steps: seq<Step>, step: Step, id: OperationId)
    requires StateAfter(steps).Some? && Enabled(StateAfter(steps).value, step)
    requires var s := StateAfter(steps).value;
             id in s.records && !s.records[id].cancelRequested && id in After(s, step).records
             && After(s, step).records[id].cancelRequested
    ensures var s := StateAfter(steps).value;
            s.records[id].state.Running? && (step.CancelMove? || step.SweepMove?)
  {
    InvHolds(steps);
    MarksRunning(StateAfter(steps).value, step, id);
  }

  lemma {:induction false} KeysMatch(s: State)
    requires Inv(s)
    ensures s.records.Keys == s.workers.Keys
  {
  }

  /** A cancel call's move changes no state and marks only a running record. */
  lemma {:induction false} CancelMarks(records: Records, c: CancelCall, killed: bool, id: OperationId)
    requires !c.pc.Returned? && id in records
    ensures var after := CancelMoved(records, c, killed).0;
            && id in after && after[id].state == records[id].state
            && (after[id].cancelRequested ==> records[id].cancelRequested || records[id].state.Running?)
  {
  }

  lemma {:induction false} MarksRunning(s: State, step: Step, id: OperationId)
    requires Inv(s) && Enabled(s, step)
    requires id in s.records && !s.records[id].cancelRequested
    requires id in After(s, step).records && After(s, step).records[id].cancelRequested
    ensures s.records[id].state.Running? && (step.CancelMove? || step.SweepMove?)
  {
    RecordAfter(s, step, id);
    hide *;
  }

  /** What a step does to one record: only cancelling marks it, and only its worker's last step ends it. */
  lemma {:induction false} RecordAfter(s: State, step: Step, id: OperationId)
    requires Inv(s) && Enabled(s, step) && id in s.records
    ensures id in After(s, step).records
    ensures var r, t := s.records[id], After(s, step).records[id];
            && (step != Finalise(id) ==> t.state == r.state)
            && (t.cancelRequested && !r.cancelRequested ==> r.state.Running? && (step.CancelMove? || step.SweepMove?))
  {
    match step
    case Launch(_, _, _, _) =>
      KeysMatch(s);
      hide Inv;
    case Publish(_) =>
      KeepsState(s.records[id], s.workers[step.id]);
      hide Inv, Progressed, Published;
    case Finalise(_) =>
      hide Inv, LivePreview.Completed;
    case CancelMove(call, killed) =>
      CancelMarks(s.records, s.cancels[call], killed, id);
      hide Inv, CancelTurn;
    case SweepMove(sweep, killed) =>
      CancelMarks(s.records, CallOf(s.sweeps[sweep]), killed, id);
      hide Inv, CancelTurn, SweepMoved, SweepOver;
    case Receive(_, _, _, _) => hide Inv, Received;
    case EndOfOutput(_, _, _) => hide Inv, Ended;
    case BeginCancel(_, _, _) => hide Inv;
    case BeginSweep(_, _, _) => hide Inv, Enumerates, RunningIn;
  }

  lemma {:induction false} KeepsState(r: Record, w: Worker)
    requires w.Spooled?
    ensures var t := Progressed(r, w.kind, w.chunk, MetadataOf(w.writer));
            t.state == r.state && t.cancelRequested == r.cancelRequested
  {
    hide AppendLive;
  }

  /**
   A finished worker never finalises again: each record goes from running to over in exactly one step, its worker's.
   */
  lemma {:induction false} FinalisedOnce(steps: seq<Step>, step: Step, id: OperationId)
    requires StateAfter(steps).Some? && Enabled(StateAfter(steps).value, step)
    requires id in StateAfter(steps).value.records
    ensures var s := StateAfter(steps).value;
            var t := After(s, step);
            id in t.records
            && ((s.records[id].state.Running? && !t.records[id].state.Running?) <==> step == Finalise(id))
  {
    InvHolds(steps);
    FinalisesOne(StateAfter(steps).value, step, id);
  }

  lemma {:induction false} FinalisesOne(s: State, step: Step, id: OperationId)
    requires Inv(s) && Enabled(s, step) && id in s.records
    ensures var t := After(s, step);
            id in t.records
            && ((s.records[id].state.Running? && !t.records[id].state.Running?) <==> step == Finalise(id))
  {
    RecordAfter(s, step, id);
    if step == Finalise(id) {
      FinaliseKeeps(s, id);
      FinaliserRuns(s, id);
    }
    hide *;
  }

  lemma {:induction false} FinaliserRuns(s: State, id: OperationId)
    requires Inv(s) && Enabled(s, Finalise(id))
    ensures id in s.records && s.records[id].state.Running?
  {
    hide CallSound, SweepSound, Ahead;
    assert Owned(s.records[id], s.workers[id]);
  }

  /**
   After a successful `cancel_workspace`, at any later time, every operation that was running in the workspace when it
   took its snapshot is over or marked for cancelling.
   */
  lemma {:induction false} SweepReachesSnapshot(steps: seq<Step>, sweep: nat, id: OperationId)
    requires StateAfter(steps).Some? && sweep in StateAfter(steps).value.sweeps
    requires SweepSucceeded(StateAfter(steps).value.sweeps[sweep])
    requires id in StateAfter(steps).value.sweeps[sweep].snapshot
    ensures Reached(StateAfter(steps).value.records, id)
  {
    InvHolds(steps);
    var s := StateAfter(steps).value;
    hide StateAfter, Owned, CallSound;
    assert SweepSound(s.records, s.sweeps[sweep]);
  }

  /** A sweep's snapshot is what was running in its workspace when it began, and never changes. */
  lemma {:induction false} SnapshotIsTaken(s: State, step: Step, sweep: nat)
    requires Enabled(s, step) && sweep in After(s, step).sweeps
    ensures var t := After(s, step);
            if sweep in s.sweeps then t.sweeps[sweep].snapshot == s.sweeps[sweep].snapshot
            else Enumerates(t.sweeps[sweep].snapshot, RunningIn(s.records, t.sweeps[sweep].workspace))
  {
    hide AppendLive, AppendRaw, Write, Enumerates, RunningIn, Updated;
  }

  /** A cancel that returned without an error found its operation over or marked it. */
  lemma {:induction false} CancelReachesTarget(steps: seq<Step>, call: nat)
    requires StateAfter(steps).Some? && call in StateAfter(steps).value.cancels
    requires StateAfter(steps).value.cancels[call].pc == Returned(true)
    ensures var s := StateAfter(steps).value; Reached(s.records, s.cancels[call].id)
  {
    InvHolds(steps);
    var s := StateAfter(steps).value;
    hide StateAfter, Owned, SweepSound;
    assert CallSound(s.records, s.cancels[call]);
  }

  /** Every signal, of a cancel or of a sweep, goes to a positive process group, so none fails for want of one. */
  lemma {:induction false} SignalsRealGroups(steps: seq<Step>)
    requires StateAfter(steps).Some?
    ensures var s := StateAfter(steps).value;
            && (forall call :: call in s.cancels && s.cancels[call].pc.Waiting? ==> s.cancels[call].pc.processGroup > 0)
            && (forall sweep :: sweep in s.sweeps && !SweepOver(s.sweeps[sweep]) && s.sweeps[sweep].pc.Waiting? ==>
                                  s.sweeps[sweep].pc.processGroup > 0)
  {
    InvHolds(steps);
    var s := StateAfter(steps).value;
    hide StateAfter, Owned, SweepSound, CallSound;
    forall call | call in s.cancels && s.cancels[call].pc.Waiting? ensures s.cancels[call].pc.processGroup > 0 {
      WaitingGroup(s.records, s.cancels[call]);
    }
    forall sweep | sweep in s.sweeps && !SweepOver(s.sweeps[sweep]) && s.sweeps[sweep].pc.Waiting?
      ensures s.sweeps[sweep].pc.processGroup > 0
    {
      SweepCall(s.records, s.sweeps[sweep]);
      WaitingGroup(s.records, CallOf(s.sweeps[sweep]));
    }
  }

  lemma {:induction false} WaitingGroup(records: Records, c: CancelCall)
    requires CallSound(records, c) && c.pc.Waiting?
    ensures c.pc.processGroup > 0
  {
  }

  lemma {:induction false} SweepCall(records: Records, w: Sweep)
    requires SweepSound(records, w) && !SweepOver(w)
    ensures CallSound(records, CallOf(w))
  {
  }

  /** How many moves a cancel call has left at most. */
  function MovesLeft(pc: CancelPc): nat
  {
    match pc
    case Marking => LAST_TURN + 2
    case Waiting(_, turn) => if turn <= LAST_TURN then LAST_TURN + 1 - turn else 1
    case Returned(_) => 0
  }

  /**
   A cancel call always returns: each of its moves brings it closer, whatever others do to the registry between them.
   */
  lemma {:induction false} CancelReturns(records: Records, c: CancelCall, killed: bool)
    requires !c.pc.Returned?
    ensures MovesLeft(CancelMoved(records, c, killed).1) < MovesLeft(c.pc) <= 2 * CANCEL_GRACE_STEPS + 4
  {
  }
}
