/**
 The process operation registry: what its critical sections do to a record, and every interleaving of their callers.
 */
module Operations {
  import opened Wrappers
  import opened Bytes
  import opened SpoolWriter
  import opened LivePreview
  import Utf8

  type OperationId = nat
  type Capability = nat

  datatype ProcessState = Running | Completed | Failed | Cancelled

  datatype StreamKind = Stdout | Stderr

  /** The artifact's metadata as far as it changes. */
  datatype Artifact = Artifact(bytesWritten: nat, sourceTruncated: bool)

  datatype Record = Record(
    workspace: Capability,
    executionId: Option<nat>,
    processGroup: int,
    state: ProcessState,
    exitCode: Option<int>,
    stdout: Shown,
    stderr: Shown,
    sourceTruncated: bool,
    bytesSpooled: nat,
    artifact: Artifact,
    cancelRequested: bool
  )

  /**
   What a caller is shown: everything but the workspace, the execution, the process group and the request to cancel.
   */
  datatype View = View(
    state: ProcessState, exitCode: Option<int>, stdout: Shown, stderr: Shown, sourceTruncated: bool, bytesSpooled: nat,
    artifact: Artifact)

  datatype ProcessError = OperationNotFound

  datatype CaptureResult = CaptureResult(exitCode: int, stdout: Shown, stderr: Shown)

  type Records = map<OperationId, Record>

  // ------------------------------------------------------------ what each critical section does

  function ViewOf(r: Record): View
  {
    View(r.state, r.exitCode, r.stdout, r.stderr, r.sourceTruncated, r.bytesSpooled, r.artifact)
  }

  function MetadataOf(w: WriterState): Artifact { Artifact(w.bytesWritten, w.sourceTruncated) }

  function NewRecord(workspace: Capability, executionId: nat, processGroup: int): Record
  {
    Record(workspace, Some(executionId), processGroup, Running, None, Nothing, Nothing, false, 0,
           MetadataOf(FRESH_WRITER), false)
  }

  function StatusOf(records: Records, workspace: Capability, id: OperationId): Result<View, ProcessError>
  {
    if id !in records || records[id].workspace != workspace then Err(OperationNotFound) else Ok(ViewOf(records[id]))
  }

  /** `update_operation_progress`. */
  function Progressed(r: Record, kind: StreamKind, chunk: bytes, artifact: Artifact): Record
  {
    if !r.state.Running? then r
    else
      var shown := if kind.Stdout? then r.(stdout := AppendLive(r.stdout, chunk))
                   else r.(stderr := AppendLive(r.stderr, chunk));
      shown.(bytesSpooled := artifact.bytesWritten, sourceTruncated := artifact.sourceTruncated, artifact := artifact)
  }

  /** `complete_operation`. */
  function CompletedWith(r: Record, c: CaptureResult, artifact: Artifact): Record
  {
    r.(exitCode := Some(c.exitCode),
       stdout := LivePreview.Completed(c.stdout), stderr := LivePreview.Completed(c.stderr),
       sourceTruncated := artifact.sourceTruncated, bytesSpooled := artifact.bytesWritten, artifact := artifact,
       state := if r.cancelRequested then Cancelled else if c.exitCode == 0 then Completed else Failed,
       processGroup := 0, executionId := None)
  }

  /** `mark_failed`. */
  function MarkedFailed(r: Record): Record
  {
    r.(state := if r.cancelRequested then Cancelled else Failed, processGroup := 0, executionId := None)
  }

  /** What the first critical section of `cancel` finds. */
  datatype CancelStart = Missing | AlreadyOver(view: View) | Signal(processGroup: int)

  function StartCancel(records: Records, workspace: Capability, id: OperationId): (Records, CancelStart)
  {
    if id !in records || records[id].workspace != workspace then (records, Missing)
    else if !records[id].state.Running? then (records, AlreadyOver(ViewOf(records[id])))
    else (records[id := records[id].(cancelRequested := true)], Signal(records[id].processGroup))
  }

  /** The running operations of a workspace. */
  function RunningIn(records: Records, workspace: Capability): set<OperationId>
  {
    set id | id in records && records[id].workspace == workspace && records[id].state.Running?
  }

  /** No other record is touched, and none comes or goes. */
  ghost predicate OthersStay(before: Records, after: Records, id: OperationId)
  {
    after.Keys == before.Keys && forall other :: other in before && other != id ==> after[other] == before[other]
  }

  /** A record that has ended: `Cancelled` exactly when that was requested, with nothing left to signal or to list. */
  predicate IsOver(before: Record, after: Record)
  {
    && !after.state.Running?
    && (after.state.Cancelled? <==> before.cancelRequested)
    && after.processGroup == 0 && after.executionId.None?
    && after.workspace == before.workspace && after.cancelRequested == before.cancelRequested
  }

  class ProcessOperationRegistry {
    var records: Records

    constructor ()
      ensures records == map[]
    {
      records := map[];
    }

    method Insert(id: OperationId, workspace: Capability, executionId: nat, processGroup: int)
      modifies this
      ensures records == old(records)[id := NewRecord(workspace, executionId, processGroup)]
      ensures var r := records[id];
              && r.state.Running? && !r.cancelRequested && r.exitCode.None? && r.bytesSpooled == 0 && !r.sourceTruncated
              && r.workspace == workspace && r.executionId == Some(executionId) && r.processGroup == processGroup
    {
      records := records[id := NewRecord(workspace, executionId, processGroup)];
    }

    method Status(workspace: Capability, id: OperationId) returns (r: Result<View, ProcessError>)
      ensures r == StatusOf(records, workspace, id)
      ensures r.Ok? <==> id in records && records[id].workspace == workspace
    {
      if id !in records { return Err(OperationNotFound); }
      if records[id].workspace != workspace { return Err(OperationNotFound); }
      return Ok(ViewOf(records[id]));
    }

    method RequestCancel(workspace: Capability, id: OperationId) returns (r: CancelStart)
      modifies this
      ensures (records, r) == StartCancel(old(records), workspace, id)
    {
      if id !in records { return Missing; }
      var record := records[id];
      if record.workspace != workspace { return Missing; }
      if record.state != Running { return AlreadyOver(ViewOf(record)); }
      records := records[id := record.(cancelRequested := true)];
      return Signal(record.processGroup);
    }

    /** The snapshot `cancel_workspace` works through, in whatever order the records come. */
    method RunningOperations(workspace: Capability) returns (ids: seq<OperationId>)
      ensures Enumerates(ids, RunningIn(records, workspace))
    {
      ids := [];
      var rest := records.Keys;
      while rest != {}
        invariant rest <= records.Keys
        invariant Enumerates(ids, RunningIn(records, workspace) - rest)
        decreases |rest|
      {
        var id :| id in rest;
        rest := rest - {id};
        if records[id].workspace == workspace && records[id].state == Running {
          EnumeratesMore(ids, RunningIn(records, workspace) - rest - {id}, id);
          assert RunningIn(records, workspace) - rest - {id} + {id} == RunningIn(records, workspace) - rest;
          assert RunningIn(records, workspace) - rest - {id} == RunningIn(records, workspace) - (rest + {id});
          ids := ids + [id];
        } else {
          assert RunningIn(records, workspace) - rest == RunningIn(records, workspace) - (rest + {id});
        }
      }
      assert RunningIn(records, workspace) - {} == RunningIn(records, workspace);
    }

    method UpdateProgress(id: OperationId, kind: StreamKind, chunk: bytes, artifact: Artifact)
      modifies this
      ensures records == if id !in old(records) then old(records)
                         else old(records)[id := Progressed(old(records)[id], kind, chunk, artifact)]
      ensures id in old(records) && !old(records)[id].state.Running? ==> records == old(records)
      ensures id in old(records) && old(records)[id].state.Running? ==>
                && records[id].artifact == artifact && records[id].bytesSpooled == artifact.bytesWritten
                && records[id].sourceTruncated == artifact.sourceTruncated && records[id].state.Running?
                && records[id].cancelRequested == old(records)[id].cancelRequested
                && (if kind.Stdout? then records[id].stderr == old(records)[id].stderr
                    else records[id].stdout == old(records)[id].stdout)
    {
      if id in records {
        var r := records[id];
        if r.state == Running {
          var shown := AppendLivePreview(if kind.Stdout? then r.stdout else r.stderr, chunk);
          r := if kind.Stdout? then r.(stdout := shown) else r.(stderr := shown);
          r := r.(bytesSpooled := artifact.bytesWritten, sourceTruncated := artifact.sourceTruncated);
          r := r.(artifact := artifact);
        }
        records := records[id := r];
      }
    }

    method CompleteOperation(id: OperationId, capture: CaptureResult, artifact: Artifact)
      modifies this
      ensures records == if id !in old(records) then old(records)
                         else old(records)[id := CompletedWith(old(records)[id], capture, artifact)]
      ensures OthersStay(old(records), records, id)
      ensures id in old(records) ==>
                && IsOver(old(records)[id], records[id])
                && records[id].exitCode == Some(capture.exitCode) && records[id].artifact == artifact
                && records[id].bytesSpooled == artifact.bytesWritten
                && records[id].sourceTruncated == artifact.sourceTruncated
                && (records[id].state.Completed? <==> !old(records)[id].cancelRequested && capture.exitCode == 0)
                && Utf8.Valid(records[id].stdout.text) && Utf8.Valid(records[id].stderr.text)
    {
      if id in records {
        var r := records[id];
        r := r.(exitCode := Some(capture.exitCode));
        r := r.(stdout := Shown(Utf8.Lossy(capture.stdout.text), capture.stdout.truncated));
        r := r.(stderr := Shown(Utf8.Lossy(capture.stderr.text), capture.stderr.truncated));
        r := r.(sourceTruncated := artifact.sourceTruncated, bytesSpooled := artifact.bytesWritten);
        r := r.(artifact := artifact);
        r := r.(state := if r.cancelRequested then Cancelled else if capture.exitCode == 0 then Completed else Failed);
        r := r.(processGroup := 0, executionId := None);
        Utf8.LossyIsValid(capture.stdout.text);
        Utf8.LossyIsValid(capture.stderr.text);
        hide Utf8.Valid, Utf8.Lossy;
        records := records[id := r];
      }
    }

    method MarkFailed(id: OperationId)
      modifies this
      ensures records == if id in old(records) then old(records)[id := MarkedFailed(old(records)[id])] else old(records)
      ensures OthersStay(old(records), records, id)
      ensures id in old(records) ==>
                && IsOver(old(records)[id], records[id]) && !records[id].state.Completed?
                && ViewOf(records[id]) == ViewOf(old(records)[id]).(state := records[id].state)
    {
      if id in records {
        var r := records[id];
        r := r.(state := if r.cancelRequested then Cancelled else Failed);
        r := r.(processGroup := 0, executionId := None);
        records := records[id := r];
      }
    }
  }

  method AppendLivePreview(target: Shown, source: bytes) returns (shown: Shown)
    ensures shown == AppendLive(target, source)
  {
    var remaining := SatSub(PREVIEW_MAX_BYTES, |target.text|);
    var accepted := Min(remaining, |source|);
    shown := target.(text := target.text + Utf8.Lossy(source[..accepted]));
    if accepted < |source| { shown := shown.(truncated := true); }
  }

  /** What one workspace can see of a registry. */
  function Visible(records: Records, workspace: Capability): map<OperationId, View>
  {
    map id | id in records && records[id].workspace == workspace :: ViewOf(records[id])
  }

  /**
   The answers a workspace gets are settled by its own records' views and by nothing else: not by other workspaces'
   records, and not by execution identifiers, process groups or requested cancels.
   */
  lemma {:induction false} StatusShowsOwn(a: Records, b: Records, workspace: Capability)
    ensures (forall id :: StatusOf(a, workspace, id) == StatusOf(b, workspace, id))
            <==> Visible(a, workspace) == Visible(b, workspace)
  {
    hide ViewOf;
    forall id ensures StatusOf(a, workspace, id) == Seen(Visible(a, workspace), id) {}
    forall id ensures StatusOf(b, workspace, id) == Seen(Visible(b, workspace), id) {}
    if forall id :: StatusOf(a, workspace, id) == StatusOf(b, workspace, id) {
      forall id ensures Seen(Visible(a, workspace), id) == Seen(Visible(b, workspace), id) {
        assert StatusOf(a, workspace, id) == StatusOf(b, workspace, id);
      }
      SeenSame(Visible(a, workspace), Visible(b, workspace));
    }
  }

  function Seen(views: map<OperationId, View>, id: OperationId): Result<View, ProcessError>
  {
    if id in views then Ok(views[id]) else Err(OperationNotFound)
  }

  lemma {:induction false} SeenSame(x: map<OperationId, View>, y: map<OperationId, View>)
    requires forall id :: Seen(x, id) == Seen(y, id)
    ensures x == y
  {
    forall id ensures id in x <==> id in y { assert Seen(x, id) == Seen(y, id); }
    forall id | id in x ensures x[id] == y[id] { assert Seen(x, id) == Seen(y, id); }
  }

  /** The sequence holds each element of the set once. */
  ghost predicate Enumerates(ids: seq<OperationId>, s: set<OperationId>)
  {
    && (forall i, j :: 0 <= i < j < |ids| ==> ids[i] != ids[j])
    && (forall i :: 0 <= i < |ids| ==> ids[i] in s)
    && forall id :: id in s ==> id in ids
  }

  lemma {:induction false} EnumeratesMore(ids: seq<OperationId>, s: set<OperationId>, id: OperationId)
    requires Enumerates(ids, s) && id !in s
    ensures Enumerates(ids + [id], s + {id})
  {
  }
}
