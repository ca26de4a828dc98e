/** A whole checkpoint: the captured status command, its parser, and the identities attached to its records. */
module Checkpoint {
  import opened Wrappers
  import opened Bytes
  import opened SpoolWriter
  import opened CheckpointIdentity
  import Capture
  import CaptureRuns
  import Porcelain

  const GIT_CHECKPOINT_STATUS_MAX_BYTES: nat := 4 * 1024 * 1024

  const STATUS_BUDGET: Capture.Budget :=
    Capture.Budget(Capture.USIZE_MAX, Capture.USIZE_MAX, GIT_CHECKPOINT_STATUS_MAX_BYTES, Capture.LegacySpool)

  datatype CheckpointError =
    | NotCaptured(error: Capture.CaptureError)
    | CommandFailed
    | InvalidCheckpointStatus
    | IdentityFailed

  datatype CheckpointResult = CheckpointResult(headOid: bytes, items: seq<Item>, truncated: bool)

  function ItemsOf(records: seq<Porcelain.Record>): (items: seq<Item>)
    ensures |items| == |records|
    ensures forall i :: 0 <= i < |records| ==> items[i] == Item(records[i], None)
  {
    seq(|records|, i requires 0 <= i < |records| => Item(records[i], None))
  }

  /** The records under the items. */
  function RecordsOf(items: seq<Item>): (records: seq<Porcelain.Record>)
    ensures |records| == |items|
    ensures forall i :: 0 <= i < |items| ==> records[i] == items[i].record
  {
    seq(|items|, i requires 0 <= i < |items| => items[i].record)
  }

  // ------------------------------------------------------------ the operation

  function FromStatus(status: Porcelain.Status, w: Workspace): Result<CheckpointResult, CheckpointError>
  {
    var (items, _, short) := AttachAll(ItemsOf(status.records), 0, false, w);
    if short.None? then Err(IdentityFailed)
    else Ok(CheckpointResult(status.headOid, items, status.truncated || short.value))
  }

  /** What a captured output is made into. */
  function FromCapture(output: Capture.CaptureResult, w: Workspace): Result<CheckpointResult, CheckpointError>
  {
    if output.exitCode != 0 then Err(CommandFailed)
    else match Porcelain.Parse(output.stdoutPreview, output.stdoutTruncated)
      case Err(_) => Err(InvalidCheckpointStatus)
      case Ok(status) => FromStatus(status, w)
  }

  function RunCheckpoint(events: seq<Capture.Event>, wait: Capture.WaitStatus, w: Workspace)
    : Result<CheckpointResult, CheckpointError>
  {
    match Capture.Run(events, STATUS_BUDGET, Capture.Initial(FRESH_WRITER), wait).0
    case Err(e) => Err(NotCaptured(e))
    case Ok(output) => FromCapture(output, w)
  }

  /** `run_git_checkpoint`, from the status command on. */
  method RunGitCheckpoint(events: seq<Capture.Event>, wait: Capture.WaitStatus, w: Workspace)
    returns (r: Result<CheckpointResult, CheckpointError>)
    ensures r == RunCheckpoint(events, wait, w)
  {
    hide Capture.Run, Porcelain.Parse, AttachAll;
    var writer := new RawSpoolWriter();
    var captured := Capture.CaptureChildWithBudget(events, STATUS_BUDGET, wait, writer);
    if captured.Err? { return Err(NotCaptured(captured.error)); }
    if captured.value.exitCode != 0 { return Err(CommandFailed); }
    var status := Porcelain.ParseCheckpointStatus(captured.value.stdoutPreview, captured.value.stdoutTruncated);
    if status.Err? { return Err(InvalidCheckpointStatus); }
    var records := status.value.records;
    var items := new Item[|records|](i requires 0 <= i < |records| => Item(records[i], None));
    assert items[..] == ItemsOf(records);
    var short := AttachCurrentIdentities(items, w);
    if short.None? { return Err(IdentityFailed); }
    return Ok(CheckpointResult(status.value.headOid, items[..], status.value.truncated || short.value));
  }

  // ------------------------------------------------------------ what it means

  /** What the parser is shown of an output. */
  function Shown(out: bytes): bytes { out[..Min(|out|, GIT_CHECKPOINT_STATUS_MAX_BYTES)] }

  /** For every schedule of a status command that ends well, the answer depends on its output alone. */
  lemma {:induction false} OutputDecides(events: seq<Capture.Event>, out: bytes, err: bytes, w: Workspace)
    requires Capture.Schedule(events, out, err, true, true) && |out| <= U64_MAX && |err| <= U64_MAX
    ensures RunCheckpoint(events, Capture.Exited(0), w)
         == match Porcelain.Parse(Shown(out), |out| > GIT_CHECKPOINT_STATUS_MAX_BYTES) {
              case Err(_) => Err(InvalidCheckpointStatus)
              case Ok(status) => FromStatus(status, w)
            }
  {
    Capture.Confluence(events, STATUS_BUDGET, Capture.Exited(0), FRESH_WRITER, out, err);
    hide Capture.Run, Capture.Schedule, Porcelain.Parse, FromStatus;
  }

  lemma {:induction false} CutSourceIsTold(fields: seq<bytes>, head: Option<bytes>, records: seq<Porcelain.Record>)
    ensures var r := Porcelain.Scan(fields, head, records, true); r.Some? ==> r.value.2
    decreases |fields|
  {
    hide Porcelain.ItemOf;
    if fields != [] && |records| < Porcelain.GIT_CHECKPOINT_MAX_RECORDS {
      match Porcelain.ItemOf(fields[0])
      case Bad =>
      case Head(oid) => CutSourceIsTold(fields[1..], Some(oid), records);
      case Skipped => CutSourceIsTold(fields[1..], head, records);
      case Complete(r) => CutSourceIsTold(fields[1..], head, records + [r]);
      case NeedsOriginal(r) =>
        if |fields| > 1 { CutSourceIsTold(fields[2..], head, records + [r.(originalPath := Some(fields[1]))]); }
    }
  }

  /** A cut output is reported as truncated whenever it is accepted. */
  lemma {:induction false} CutIsTold(text: bytes)
    ensures var r := Porcelain.Parse(text, true); r.Ok? ==> r.value.truncated
  {
    hide Porcelain.Scan, Porcelain.StatusFields;
    var fields := Porcelain.StatusFields(text, true);
    if fields.Some? { CutSourceIsTold(fields.value, None, []); }
  }

  /** Attaching keeps the records. */
  lemma {:induction false} AttachedRecords(items: seq<Item>, w: Workspace)
    ensures RecordsOf(AttachAll(items, 0, false, w).0) == RecordsOf(items)
  {
    forall i | 0 <= i < |items| ensures AttachAll(items, 0, false, w).0[i].record == items[i].record {
      RecordsAreKept(items, 0, false, w, i);
    }
    hide AttachAll;
  }

  /** An answer that leaves nothing out gives each record that needs one the identity of its path hashed whole. */
  lemma {:induction false} CompleteIsWhole(items: seq<Item>, hashed: u64, short: bool, w: Workspace, i: nat)
    requires i < |items| && AttachAll(items, hashed, short, w).2 == Some(false) && Needs(items[i].record)
    ensures !short && Whole(items[i].record.path, w)
    ensures AttachAll(items, hashed, short, w).0[i].identity == w.hash(items[i].record.path)
    decreases |items|
  {
    NeverShortAgain(items, hashed, short, w);
    if !Needs(items[0].record) {
      CompleteIsWhole(items[1..], hashed, short, w, i - 1);
    } else {
      var a := Attach(items[0].record.path, hashed, w).value;
      NeverShortAgain(items[1..], SatAdd(hashed, a.hashed), short || a.short, w);
      if i > 0 { CompleteIsWhole(items[1..], SatAdd(hashed, a.hashed), short || a.short, w, i - 1); }
    }
  }

  lemma {:induction false} NeverShortAgain(items: seq<Item>, hashed: u64, short: bool, w: Workspace)
    ensures AttachAll(items, hashed, short, w).2 == Some(false) ==> !short
    decreases |items|
  {
    hide Attach, Needs;
    if items != [] {
      if !Needs(items[0].record) {
        NeverShortAgain(items[1..], hashed, short, w);
      } else {
        var a := Attach(items[0].record.path, hashed, w);
        if a.Some? { NeverShortAgain(items[1..], SatAdd(hashed, a.value.hashed), short || a.value.short, w); }
      }
    }
  }

  /** Every record that needs an identity has that of its path, hashed whole. */
  ghost predicate Identified(items: seq<Item>, w: Workspace)
  {
    forall i :: 0 <= i < |items| && Needs(items[i].record) ==>
                  Whole(items[i].record.path, w) && items[i].identity == w.hash(items[i].record.path)
  }

  lemma {:induction false} StatusIsWhole(status: Porcelain.Status, w: Workspace)
    requires FromStatus(status, w).Ok? && !FromStatus(status, w).value.truncated
    ensures var r := FromStatus(status, w).value;
            && !status.truncated && r.headOid == status.headOid
            && RecordsOf(r.items) == status.records && Identified(r.items, w)
  {
    var items := ItemsOf(status.records);
    var after := AttachAll(items, 0, false, w).0;
    AttachedRecords(items, w);
    assert RecordsOf(items) == status.records;
    forall i | 0 <= i < |after| && Needs(after[i].record)
      ensures Whole(after[i].record.path, w) && after[i].identity == w.hash(after[i].record.path)
    {
      assert RecordsOf(after)[i] == RecordsOf(items)[i];
      CompleteIsWhole(items, 0, false, w, i);
    }
    hide AttachAll, Whole, Needs;
  }

  /**
   For every schedule of the status command, an untruncated checkpoint is the whole output's: its head, all its records,
   and the identity of each path that needs one, hashed whole.
   */
  lemma {:induction false} UntruncatedIsWhole(events: seq<Capture.Event>, out: bytes, err: bytes, w: Workspace)
    requires Capture.Schedule(events, out, err, true, true) && |out| <= U64_MAX && |err| <= U64_MAX
    requires RunCheckpoint(events, Capture.Exited(0), w).Ok?
    requires !RunCheckpoint(events, Capture.Exited(0), w).value.truncated
    ensures var r := RunCheckpoint(events, Capture.Exited(0), w).value;
            && |out| <= GIT_CHECKPOINT_STATUS_MAX_BYTES
            && Porcelain.Parse(out, false) == Ok(Porcelain.Status(r.headOid, RecordsOf(r.items), false))
            && Identified(r.items, w)
  {
    OutputDecides(events, out, err, w);
    CutIsTold(Shown(out));
    assert out[..|out|] == out;
    hide RunCheckpoint, Porcelain.Parse, FromStatus, Identified, Capture.Schedule;
    var cut := |out| > GIT_CHECKPOINT_STATUS_MAX_BYTES;
    StatusIsWhole(Porcelain.Parse(Shown(out), cut).value, w);
  }

  /**
   For a status git prints, any schedule and files that do not change: the checkpoint's records are the first of the
   printed ones, only a path that cannot be looked at fails it, and it is untruncated exactly when the output fits 4
   MiB, the records 10000, and the paths that need it are files or links, hashed whole, of at most 64 MiB together.
   */
  lemma {:induction false} UntruncatedExactly(events: seq<Capture.Event>, err: bytes, w: Workspace, oid: bytes,
                                              headers: seq<bytes>, entries: seq<Porcelain.Entry>)
    requires IsOid(oid) && (forall i :: 0 <= i < |headers| ==> Porcelain.IgnoredLine(headers[i]))
    requires Porcelain.AllWellFormed(entries) && Unchanging(ItemsOf(Porcelain.Meanings(entries)), w)
    requires Capture.Schedule(events, Porcelain.Print(oid, headers, entries), err, true, true)
    requires |Porcelain.Print(oid, headers, entries)| <= U64_MAX && |err| <= U64_MAX
    ensures var r := RunCheckpoint(events, Capture.Exited(0), w);
            var items := ItemsOf(Porcelain.Meanings(entries));
            && (r.Err? ==> r.error == IdentityFailed)
            && (r.Ok? ==> r.value.headOid == oid && RecordsOf(r.value.items) <= Porcelain.Meanings(entries))
            && (r.Ok? && !r.value.truncated <==>
                && |Porcelain.Print(oid, headers, entries)| <= 4_194_304
                && |entries| <= 10_000
                && (forall i :: 0 <= i < |items| && Needs(items[i].record) ==> Whole(items[i].record.path, w))
                && Needed(items, w) <= 67_108_864)
  {
    var out := Porcelain.Print(oid, headers, entries);
    var records := Porcelain.Meanings(entries);
    OutputDecides(events, out, err, w);
    PrintedStatus(oid, headers, entries);
    hide RunCheckpoint, Porcelain.Parse, FromStatus, Capture.Schedule, Porcelain.Print, Whole, Needs, Needed;
    var status := Porcelain.Parse(Shown(out), |out| > GIT_CHECKPOINT_STATUS_MAX_BYTES).value;
    StatusExactly(status, w);
    if !status.truncated { assert status.records == records; }
  }

  /** What the parser makes of the part of a printed status it is shown. */
  lemma {:induction false} PrintedStatus(oid: bytes, headers: seq<bytes>, entries: seq<Porcelain.Entry>)
    requires IsOid(oid) && (forall i :: 0 <= i < |headers| ==> Porcelain.IgnoredLine(headers[i]))
    requires Porcelain.AllWellFormed(entries)
    ensures var out := Porcelain.Print(oid, headers, entries);
            var cut := |out| > GIT_CHECKPOINT_STATUS_MAX_BYTES;
            var r := Porcelain.Parse(Shown(out), cut);
            && r.Ok? && r.value.headOid == oid && r.value.records <= Porcelain.Meanings(entries)
            && (r.value.truncated <==> cut || |entries| > Porcelain.GIT_CHECKPOINT_MAX_RECORDS)
            && (!r.value.truncated ==> r.value.records == Porcelain.Meanings(entries))
  {
    var out := Porcelain.Print(oid, headers, entries);
    Porcelain.StatusRoundTrip(oid, headers, entries);
    hide Porcelain.Parse, Porcelain.Print, Porcelain.Meanings, Porcelain.AllWellFormed;
    if |out| > GIT_CHECKPOINT_STATUS_MAX_BYTES {
      Porcelain.CutOfStatus(oid, headers, entries, GIT_CHECKPOINT_STATUS_MAX_BYTES);
    } else {
      assert out[..|out|] == out;
    }
  }

  /** The same for the identities alone. */
  lemma {:induction false} StatusExactly(status: Porcelain.Status, w: Workspace)
    ensures var r := FromStatus(status, w);
            && (r.Err? ==> r.error == IdentityFailed)
            && (r.Ok? ==> r.value.headOid == status.headOid && RecordsOf(r.value.items) == status.records)
            && (status.truncated ==> !(r.Ok? && !r.value.truncated))
    ensures var items := ItemsOf(status.records);
            Unchanging(items, w) && !status.truncated ==>
              (FromStatus(status, w).Ok? && !FromStatus(status, w).value.truncated <==>
               && (forall i :: 0 <= i < |items| && Needs(items[i].record) ==> Whole(items[i].record.path, w))
               && Needed(items, w) <= GIT_CHECKPOINT_MAX_HASHED_BYTES)
  {
    var items := ItemsOf(status.records);
    AttachedRecords(items, w);
    assert RecordsOf(items) == status.records;
    if Unchanging(items, w) { CompleteExactly(items, 0, false, w); }
    hide AttachAll, Whole, Needs, Needed, Unchanging;
  }

  // ------------------------------------------------------------ commands that end otherwise

  /** Both readers of the status command ended in time, after event `k`, and neither failed. */
  ghost predicate Delivered(events: seq<Capture.Event>, k: nat)
  {
    k < |events| && CaptureRuns.BothDoneAt(events, STATUS_BUDGET, k) && !CaptureRuns.FailedRead(events[..k + 1])
  }

  /** The answer to a delivered output. */
  function Delivers(out: bytes, wait: Capture.WaitStatus, w: Workspace): Result<CheckpointResult, CheckpointError>
  {
    match wait
    case WaitError => Err(NotCaptured(Capture.WaitFailed))
    case Signalled => Err(CommandFailed)
    case Exited(code) =>
      if code != 0 then Err(CommandFailed)
      else match Porcelain.Parse(out[..Min(|out|, 4_194_304)], |out| > 4_194_304)
        case Err(_) => Err(InvalidCheckpointStatus)
        case Ok(status) => FromStatus(status, w)
  }

  /**
   Whatever the events are: a checkpoint needs a status command whose output was delivered and which exited with zero.
   Its output up to 4 MiB is what is parsed; every other exit is a failed command, and any other end no capture.
   */
  lemma {:induction false} CheckpointNeedsSuccess(events: seq<Capture.Event>, wait: Capture.WaitStatus, w: Workspace)
    ensures forall k :: Delivered(events, k) ==>
              var out := CaptureRuns.Received(events[..k + 1], Capture.Stdout);
              RunCheckpoint(events, wait, w) == Delivers(out, wait, w)
    ensures (forall k :: !Delivered(events, k)) ==>
              RunCheckpoint(events, wait, w).Err? && RunCheckpoint(events, wait, w).error.NotCaptured?
  {
    hide RunCheckpoint, Delivers, CaptureRuns.BothDoneAt, CaptureRuns.FailedRead, CaptureRuns.Received;
    forall k | Delivered(events, k)
      ensures var out := CaptureRuns.Received(events[..k + 1], Capture.Stdout);
              RunCheckpoint(events, wait, w) == Delivers(out, wait, w)
    {
      DeliveredEnds(events, wait, w, k);
    }
    if forall k :: !Delivered(events, k) { NeverDelivered(events, wait, w); }
  }

  lemma {:induction false} DeliveredEnds(events: seq<Capture.Event>, wait: Capture.WaitStatus, w: Workspace, k: nat)
    requires Delivered(events, k)
    ensures RunCheckpoint(events, wait, w) == Delivers(CaptureRuns.Received(events[..k + 1], Capture.Stdout), wait, w)
  {
    CaptureRuns.SuccessExactly(events, STATUS_BUDGET, wait);
    hide Capture.Run, CaptureRuns.BothDoneAt, CaptureRuns.FailedRead, CaptureRuns.Received, Porcelain.Parse, FromStatus;
  }

  lemma {:induction false} NeverDelivered(events: seq<Capture.Event>, wait: Capture.WaitStatus, w: Workspace)
    requires forall k :: !Delivered(events, k)
    ensures RunCheckpoint(events, wait, w).Err? && RunCheckpoint(events, wait, w).error.NotCaptured?
  {
    CaptureRuns.SuccessExactly(events, STATUS_BUDGET, wait);
    NeverCut(events, wait);
    hide Capture.Run, CaptureRuns.RunningAt, CaptureRuns.ReadersDone, CaptureRuns.FailedRead, Porcelain.Parse;
    hide FromStatus;
    assert forall k ::
             CaptureRuns.BothDoneAt(events, STATUS_BUDGET, k) ==>
               CaptureRuns.FailedRead(events[..k + 1]) || Delivered(events, k);
  }

  /** Without a source limit no capture is cut. */
  lemma {:induction false} NeverCut(events: seq<Capture.Event>, wait: Capture.WaitStatus)
    ensures CaptureRuns.NotCut(Capture.Run(events, STATUS_BUDGET, Capture.Initial(FRESH_WRITER), wait).0)
  {
    CaptureRuns.StartsRunning(events, STATUS_BUDGET);
    var n := CaptureRuns.SomeEnd(events, STATUS_BUDGET, 0);
    CaptureRuns.EveryEndIsAnswered(events, STATUS_BUDGET, wait, n);
    if n < |events| {
      CaptureRuns.EndingEvent(events, STATUS_BUDGET, n);
      if events[n].Done? { CaptureRuns.EndedIsNotCut(events[..n + 1], STATUS_BUDGET, wait); }
    }
    hide Capture.Run, CaptureRuns.Complete, CaptureRuns.TakenOf, CaptureRuns.WriteFails, CaptureRuns.FailedRead;
  }
}
