/** What a caller of `status` sees of a process's output over whole runs, up to and across its completion. */
module PreviewRuns {
  import opened Wrappers
  import opened Bytes
  import opened SpoolWriter
  import opened LivePreview
  import opened PreviewCuts
  import opened Operations
  import opened OperationsProtocol
  import Utf8

  /** The chunks an operation's worker received from one stream, in order. */
  ghost function ReadFrom(steps: seq<Step>, id: OperationId, kind: StreamKind): seq<bytes>
  {
    if steps == [] then []
    else
      var last := |steps| - 1;
      ReadFrom(steps[..last], id, kind) + ReadBy(steps[last], id, kind)
  }

  ghost function ReadBy(step: Step, id: OperationId, kind: StreamKind): seq<bytes>
  {
    if step.Receive? && step.id == id && step.kind == kind then [step.chunk] else []
  }

  /** A record's preview and its worker's are those of the same chunks. */
  ghost predicate Shows(live: Shown, raw: Shown, chunks: seq<bytes>)
  {
    live == LiveAll(Nothing, chunks) && raw == RawAll(Nothing, chunks)
  }

  /** A chunk that is spooled and not yet published is the last one read, and not yet shown. */
  ghost predicate Follows(live: Shown, raw: Shown, chunks: seq<bytes>, pending: seq<bytes>)
  {
    && |pending| <= |chunks| && chunks[|chunks| - |pending|..] == pending
    && Shows(live, raw, chunks[..|chunks| - |pending|])
  }

  ghost function Pending(w: Worker, kind: StreamKind): seq<bytes>
  {
    if w.Spooled? && w.kind == kind then [w.chunk] else []
  }

  ghost predicate History(r: Record, w: Worker, out: seq<bytes>, err: seq<bytes>)
  {
    match w
    case Finalising(Captured(capture, artifact)) =>
      Shows(r.stdout, capture.stdout, out) && Shows(r.stderr, capture.stderr, err) && r.artifact == artifact
    case Finalising(Broken) => true
    case Gone => true
    case _ =>
      && Follows(r.stdout, w.stdout, out, Pending(w, Stdout))
      && Follows(r.stderr, w.stderr, err, Pending(w, Stderr))
  }

  lemma {:induction false} LiveAppends(s: Shown, chunks: seq<bytes>, chunk: bytes)
    ensures LiveAll(s, chunks + [chunk]) == AppendLive(LiveAll(s, chunks), chunk)
    decreases |chunks|
  {
    hide AppendLive;
    if chunks == [] {
      assert [] + [chunk] == [chunk] && [chunk][1..] == [];
    } else {
      assert (chunks + [chunk])[1..] == chunks[1..] + [chunk];
      LiveAppends(AppendLive(s, chunks[0]), chunks[1..], chunk);
    }
  }

  lemma {:induction false} RawAppends(s: Shown, chunks: seq<bytes>, chunk: bytes)
    ensures RawAll(s, chunks + [chunk]) == AppendRaw(RawAll(s, chunks), chunk)
    decreases |chunks|
  {
    hide AppendRaw;
    if chunks == [] {
      assert [] + [chunk] == [chunk] && [chunk][1..] == [];
    } else {
      assert (chunks + [chunk])[1..] == chunks[1..] + [chunk];
      RawAppends(AppendRaw(s, chunks[0]), chunks[1..], chunk);
    }
  }

  lemma {:induction false} ShowsNothing()
    ensures Shows(Nothing, Nothing, [])
  {
  }

  lemma {:induction false} ShowsMore(live: Shown, raw: Shown, chunks: seq<bytes>, chunk: bytes)
    requires Shows(live, raw, chunks)
    ensures Shows(AppendLive(live, chunk), AppendRaw(raw, chunk), chunks + [chunk])
  {
    LiveAppends(Nothing, chunks, chunk);
    RawAppends(Nothing, chunks, chunk);
    hide LiveAll, RawAll, AppendLive, AppendRaw;
  }

  lemma {:induction false} FollowsNothing(live: Shown, raw: Shown, chunks: seq<bytes>)
    ensures Follows(live, raw, chunks, []) <==> Shows(live, raw, chunks)
  {
    assert chunks[..|chunks|] == chunks;
    hide Shows;
  }

  lemma {:induction false} FollowsOne(live: Shown, raw: Shown, chunks: seq<bytes>, chunk: bytes)
    requires Shows(live, raw, chunks)
    ensures Follows(live, raw, chunks + [chunk], [chunk])
  {
    hide Shows;
    assert (chunks + [chunk])[..|chunks|] == chunks;
  }

  lemma {:induction false} FollowsPublished(live: Shown, raw: Shown, chunks: seq<bytes>, chunk: bytes)
    requires Follows(live, raw, chunks, [chunk])
    ensures Shows(AppendLive(live, chunk), AppendRaw(raw, chunk), chunks)
  {
    hide Shows, AppendLive, AppendRaw;
    var front := chunks[..|chunks| - 1];
    assert chunks == front + chunks[|chunks| - 1..];
    ShowsMore(live, raw, front, chunk);
  }

  // ------------------------------------------------------------ each of the worker's steps

  lemma {:induction false} ReceiveHistory(r: Record, w: Worker, out: seq<bytes>, err: seq<bytes>, kind: StreamKind,
                                          chunk: bytes, disk: Disk)
    requires w.Reading? && History(r, w, out, err)
    ensures History(r, Received(w, kind, chunk, disk),
                    out + (if kind.Stdout? then [chunk] else []), err + (if kind.Stderr? then [chunk] else []))
  {
    hide Write, Follows, Shows;
    assert out + [] == out && err + [] == err;
    if kind.Stdout? {
      FollowsNothing(r.stdout, w.stdout, out);
      FollowsOne(r.stdout, w.stdout, out, chunk);
    } else {
      FollowsNothing(r.stderr, w.stderr, err);
      FollowsOne(r.stderr, w.stderr, err, chunk);
    }
  }

  lemma {:induction false} PublishHistory(r: Record, w: Worker, out: seq<bytes>, err: seq<bytes>)
    requires r.state.Running? && w.Spooled? && History(r, w, out, err)
    ensures History(Progressed(r, w.kind, w.chunk, MetadataOf(w.writer)), Published(w), out, err)
  {
    var t, v := Progressed(r, w.kind, w.chunk, MetadataOf(w.writer)), Published(w);
    hide Shows, Follows, AppendLive, AppendRaw;
    if w.kind.Stdout? {
      FollowsPublished(r.stdout, w.stdout, out, w.chunk);
      FollowsNothing(r.stderr, w.stderr, err);
    } else {
      FollowsNothing(r.stdout, w.stdout, out);
      FollowsPublished(r.stderr, w.stderr, err, w.chunk);
    }
    FollowsNothing(t.stdout, v.stdout, out);
    FollowsNothing(t.stderr, v.stderr, err);
  }

  lemma {:induction false} EndHistory(r: Record, w: Worker, out: seq<bytes>, err: seq<bytes>, exitCode: int,
                                      captured: bool)
    requires w.Reading? && History(r, w, out, err) && Ahead(r, w)
    ensures History(r, Ended(w, exitCode, captured), out, err)
  {
    FollowsNothing(r.stdout, w.stdout, out);
    FollowsNothing(r.stderr, w.stderr, err);
    hide Shows, Follows;
  }

  predicate Addresses(step: Step, id: OperationId)
  {
    (step.Launch? || step.Receive? || step.Publish? || step.EndOfOutput? || step.Finalise?) && step.id == id
  }

  /** Marking a record changes nothing of what it shows. */
  lemma {:induction false} OthersHistory(s: State, step: Step, id: OperationId, out: seq<bytes>, err: seq<bytes>)
    requires Enabled(s, step) && id in s.records && id in s.workers && History(s.records[id], s.workers[id], out, err)
    requires !Addresses(step, id)
    ensures var t := After(s, step);
            id in t.records && id in t.workers && History(t.records[id], t.workers[id], out, err)
  {
    hide Enumerates, RunningIn;
    match step
    case CancelMove(call, killed) => MarkShows(s.records, s.cancels[call], killed, id);
    case SweepMove(sweep, killed) => MarkShows(s.records, CallOf(s.sweeps[sweep]), killed, id);
    case _ =>
      hide CancelTurn, SweepMoved, Follows, Shows, Received, Published, Ended, Finalised, Progressed, NewRecord;
  }

  lemma {:induction false} MarkShows(records: Records, c: CancelCall, killed: bool, id: OperationId)
    requires !c.pc.Returned? && id in records
    ensures var after := CancelMoved(records, c, killed).0;
            && id in after && after[id].stdout == records[id].stdout && after[id].stderr == records[id].stderr
            && after[id].artifact == records[id].artifact
  {
  }

  lemma {:induction false} LaunchHistory(workspace: Capability, executionId: nat, processGroup: int)
    ensures History(NewRecord(workspace, executionId, processGroup), Reading(FRESH_WRITER, Nothing, Nothing), [], [])
  {
    ShowsNothing();
    FollowsNothing(Nothing, Nothing, []);
    hide Shows, Follows;
  }

  /** One step, for the operation it addresses. */
  lemma {:induction false} OwnHistory(s: State, step: Step, id: OperationId, out: seq<bytes>, err: seq<bytes>)
    requires Enabled(s, step) && Addresses(step, id)
    requires id in s.workers ==> id in s.records && Owned(s.records[id], s.workers[id])
    requires if id in s.workers then id in s.records && History(s.records[id], s.workers[id], out, err)
             else out == err == []
    ensures var t := After(s, step);
            && id in t.records && id in t.workers
            && History(t.records[id], t.workers[id], out + ReadBy(step, id, Stdout), err + ReadBy(step, id, Stderr))
  {
    hide Enumerates, RunningIn, CancelTurn, SweepMoved, SweepOver;
    assert out + [] == out && err + [] == err;
    match step
    case Launch(_, workspace, executionId, processGroup) =>
      LaunchHistory(workspace, executionId, processGroup);
      hide History, Owned;
    case Receive(_, kind, chunk, disk) =>
      ReceiveHistory(s.records[id], s.workers[id], out, err, kind, chunk, disk);
      hide History, Owned, Received;
    case Publish(_) =>
      PublishHistory(s.records[id], s.workers[id], out, err);
      hide History, Owned, Published, Progressed;
    case EndOfOutput(_, exitCode, captured) =>
      EndHistory(s.records[id], s.workers[id], out, err, exitCode, captured);
      hide History, Owned, Ended;
    case Finalise(_) =>
      hide Owned, Finalised, Follows, Shows;
  }

  /** What is known of each operation at each point of a run. */
  ghost predicate HistoryAt(s: State, steps: seq<Step>, id: OperationId)
  {
    var out, err := ReadFrom(steps, id, Stdout), ReadFrom(steps, id, Stderr);
    if id in s.workers then id in s.records && History(s.records[id], s.workers[id], out, err) else out == err == []
  }

  lemma {:induction false} HistoryHolds(steps: seq<Step>, id: OperationId)
    requires StateAfter(steps).Some?
    ensures HistoryAt(StateAfter(steps).value, steps, id)
    decreases |steps|
  {
    hide Inv, Enabled, After, History;
    if steps != [] {
      var last := |steps| - 1;
      HistoryHolds(steps[..last], id);
      InvHolds(steps[..last]);
      HistoryMoves(StateAfter(steps[..last]).value, steps[..last], steps[last], id);
      assert steps[..last] + [steps[last]] == steps;
    }
  }

  lemma {:induction false} HistoryMoves(s: State, steps: seq<Step>, step: Step, id: OperationId)
    requires Inv(s) && Enabled(s, step) && HistoryAt(s, steps, id)
    ensures HistoryAt(After(s, step), steps + [step], id)
  {
    var out, err := ReadFrom(steps, id, Stdout), ReadFrom(steps, id, Stderr);
    ReadMore(steps, step, id);
    if id in s.workers { OwnedAt(s, id); }
    if Addresses(step, id) {
      OwnHistory(s, step, id, out, err);
    } else if id in s.workers {
      OthersHistory(s, step, id, out, err);
      assert out + [] == out && err + [] == err;
    } else {
      StaysAbsent(s, step, id);
    }
    hide Inv, Enabled, After, History, ReadFrom;
  }

  lemma {:induction false} OwnedAt(s: State, id: OperationId)
    requires Inv(s) && id in s.workers
    ensures id in s.records && Owned(s.records[id], s.workers[id])
  {
    hide Owned, CallSound, SweepSound;
  }

  lemma {:induction false} ReadMore(steps: seq<Step>, step: Step, id: OperationId)
    ensures forall kind :: ReadFrom(steps + [step], id, kind) == ReadFrom(steps, id, kind) + ReadBy(step, id, kind)
  {
    assert (steps + [step])[..|steps|] == steps;
  }

  lemma {:induction false} StaysAbsent(s: State, step: Step, id: OperationId)
    requires Enabled(s, step) && id !in s.workers && !Addresses(step, id)
    ensures id !in After(s, step).workers
  {
  }

  // ------------------------------------------------------------ what a caller sees

  /** While its worker reads, a record shows the live previews of exactly the chunks read so far. */
  lemma {:induction false} RunningShowsReads(steps: seq<Step>, id: OperationId)
    requires StateAfter(steps).Some?
    requires id in StateAfter(steps).value.workers && StateAfter(steps).value.workers[id].Reading?
    ensures var s := StateAfter(steps).value;
            && id in s.records
            && s.records[id].stdout == LiveAll(Nothing, ReadFrom(steps, id, Stdout))
            && s.records[id].stderr == LiveAll(Nothing, ReadFrom(steps, id, Stderr))
  {
    HistoryHolds(steps, id);
    var s := StateAfter(steps).value;
    hide StateAfter, ReadFrom, LiveAll, RawAll;
    FollowsNothing(s.records[id].stdout, s.workers[id].stdout, ReadFrom(steps, id, Stdout));
    FollowsNothing(s.records[id].stderr, s.workers[id].stderr, ReadFrom(steps, id, Stderr));
    hide Follows;
  }

  /** The view of an operation whose worker is about to complete it. */
  ghost predicate Completing(steps: seq<Step>, workspace: Capability, id: OperationId)
  {
    && StateAfter(steps).Some?
    && Enabled(StateAfter(steps).value, Finalise(id)) && StateAfter(steps).value.workers[id].end.Captured?
    && StatusOf(StateAfter(steps).value.records, workspace, id).Ok?
  }

  ghost function Before(steps: seq<Step>, workspace: Capability, id: OperationId): View
    requires Completing(steps, workspace, id)
  {
    StatusOf(StateAfter(steps).value.records, workspace, id).value
  }

  ghost function CompletedView(steps: seq<Step>, workspace: Capability, id: OperationId): Result<View, ProcessError>
    requires Completing(steps, workspace, id)
  {
    StatusOf(After(StateAfter(steps).value, Finalise(id)).records, workspace, id)
  }

  /** The views on both sides of completion, from what was read. */
  lemma {:induction false} ViewsAtCompletion(steps: seq<Step>, workspace: Capability, id: OperationId)
    requires Completing(steps, workspace, id)
    ensures var out, err := ReadFrom(steps, id, Stdout), ReadFrom(steps, id, Stderr);
            var before, after := Before(steps, workspace, id), CompletedView(steps, workspace, id);
            && before.stdout == LiveAll(Nothing, out) && before.stderr == LiveAll(Nothing, err)
            && after.Ok?
            && after.value == before.(state := after.value.state, exitCode := after.value.exitCode,
                                      stdout := LivePreview.Completed(RawAll(Nothing, out)),
                                      stderr := LivePreview.Completed(RawAll(Nothing, err)))
            && before.state.Running? && !after.value.state.Running?
  {
    HistoryHolds(steps, id);
    InvHolds(steps);
    var s := StateAfter(steps).value;
    assert Owned(s.records[id], s.workers[id]);
    hide StateAfter, ReadFrom, LiveAll, RawAll, CallSound, SweepSound, LivePreview.Completed;
  }

  /** Completion changes the state and the exit code of what is shown, and nothing else. */
  ghost predicate ShowsTheSame(steps: seq<Step>, workspace: Capability, id: OperationId)
    requires Completing(steps, workspace, id)
  {
    var before, after := Before(steps, workspace, id), CompletedView(steps, workspace, id);
    after.Ok? && after.value == before.(state := after.value.state, exitCode := after.value.exitCode)
  }

  lemma {:induction false} SameExactly(steps: seq<Step>, workspace: Capability, id: OperationId)
    requires Completing(steps, workspace, id)
    ensures var out, err := ReadFrom(steps, id, Stdout), ReadFrom(steps, id, Stderr);
            ShowsTheSame(steps, workspace, id)
            <==> LiveAll(Nothing, out) == LivePreview.Completed(RawAll(Nothing, out))
                 && LiveAll(Nothing, err) == LivePreview.Completed(RawAll(Nothing, err))
  {
    ViewsAtCompletion(steps, workspace, id);
    hide Completing, Before, CompletedView, ReadFrom, LiveAll, RawAll, LivePreview.Completed;
  }

  /**
   In every run, whatever was read: the view just before an operation's completion and the one just after show the same
   previews and flags exactly when both streams' previews stay. While a stream is no longer than a preview this means
   that no read split a character or an invalid piece and each fitted the room the text before it had left.
   */
  lemma {:induction false} CompletionShowsSame(steps: seq<Step>, workspace: Capability, id: OperationId)
    requires Completing(steps, workspace, id)
    ensures ShowsTheSame(steps, workspace, id)
            <==> Stays(ReadFrom(steps, id, Stdout)) && Stays(ReadFrom(steps, id, Stderr))
  {
    SameExactly(steps, workspace, id);
    CompletionExactly(ReadFrom(steps, id, Stdout));
    CompletionExactly(ReadFrom(steps, id, Stderr));
    hide *;
  }

  /** In every run, however long the output: when each read is text of its own they show the same. */
  lemma {:induction false} TextShowsSame(steps: seq<Step>, workspace: Capability, id: OperationId)
    requires Completing(steps, workspace, id)
    requires forall i :: 0 <= i < |ReadFrom(steps, id, Stdout)| ==> Utf8.Valid(ReadFrom(steps, id, Stdout)[i])
    requires forall i :: 0 <= i < |ReadFrom(steps, id, Stderr)| ==> Utf8.Valid(ReadFrom(steps, id, Stderr)[i])
    ensures ShowsTheSame(steps, workspace, id)
  {
    SameExactly(steps, workspace, id);
    CompletionChangesNothing(ReadFrom(steps, id, Stdout));
    CompletionChangesNothing(ReadFrom(steps, id, Stderr));
    hide *;
  }
}
