/** Bounded patches: a truncating capture, then a strict text bound, and what the limit flag promises. */
module Patch {
  import opened Wrappers
  import opened Bytes
  import opened Utf8
  import opened SpoolWriter
  import opened Capture
  import opened HistoryText
  import opened HistoryCommand
  import CaptureRuns

  const PATCH_CAPTURE_SLACK_BYTES: nat := 16 * 1024
  const GIT_PATCH_HARD_MAX_BYTES: nat := 256 * 1024

  datatype PatchResult = PatchResult(patch: bytes, patchLimit: bool)

  function PatchBudget(requested: nat): Budget
    requires requested <= GIT_PATCH_HARD_MAX_BYTES
  {
    var cap := SatAdd(requested, PATCH_CAPTURE_SLACK_BYTES);
    Budget(cap, HISTORY_STDERR_MAX_BYTES, cap, Truncate)
  }

  /** The patch part of `run_git_show` and `run_git_history_diff`. */
  function PatchOf(output: CaptureResult, requested: nat): Result<PatchResult, HistoryError>
  {
    if output.exitCode != 0 && !output.sourceTruncated then Err(GitReadFailed)
    else
      var limited := output.sourceTruncated || output.stdoutTruncated || |output.stdoutPreview| > requested;
      match BoundedUtf8Prefix(output.stdoutPreview, requested)
      case None => Err(GitReadFailed)
      case Some(text) => Ok(PatchResult(text, limited))
  }

  /** One patch command over the events its capture received. */
  function RunPatch(events: seq<Event>, wait: WaitStatus, requested: nat): Result<PatchResult, HistoryError>
  {
    if requested == 0 || requested > GIT_PATCH_HARD_MAX_BYTES then Err(GitReadFailed)
    else
      match RunCommand(Command(events, wait), PatchBudget(requested))
      case Err(e) => Err(e)
      case Ok(output) => PatchOf(output, requested)
  }

  method RunGitPatch(events: seq<Event>, wait: WaitStatus, requested: nat)
    returns (r: Result<PatchResult, HistoryError>)
    ensures r == RunPatch(events, wait, requested)
  {
    if requested == 0 || requested > GIT_PATCH_HARD_MAX_BYTES { return Err(GitReadFailed); }
    var captured := RunHistoryCommand(Command(events, wait), PatchBudget(requested));
    if captured.Err? { return Err(captured.error); }
    var output := captured.value;
    if output.exitCode != 0 && !output.sourceTruncated { return Err(GitReadFailed); }
    var limited := false;
    if output.sourceTruncated || output.stdoutTruncated || |output.stdoutPreview| > requested {
      limited := true;
    }
    var text := BoundedUtf8Prefix(output.stdoutPreview, requested);
    if text.None? { return Err(GitReadFailed); }
    return Ok(PatchResult(text.value, limited));
  }

  /** For every schedule: a returned patch is a prefix of git's output within the limit, cut at a character. */
  lemma {:induction false} PatchIsPrefix(events: seq<Event>, wait: WaitStatus, requested: nat, out: bytes, err: bytes)
    requires Schedule(events, out, err, true, true)
    requires RunPatch(events, wait, requested).Ok?
    ensures var p := RunPatch(events, wait, requested).value.patch;
            p <= out && |p| <= requested && Valid(p)
  {
    Confluence(events, PatchBudget(requested), wait, FRESH_WRITER, out, err);
    var (captured, artifact) := Run(events, PatchBudget(requested), Initial(FRESH_WRITER), wait);
    var shown := captured.value.stdoutPreview;
    StrictBoundOnBytes(shown, requested);
  }

  /**
   For any stream: when no limit is reported the patch is all of it, up to one unfinished character at its end. It is
   the whole stream exactly when the stream is UTF-8.
   */
  lemma {:induction false} UnlimitedPatchIsWhole(events: seq<Event>, wait: WaitStatus, requested: nat, out: bytes,
                                                 err: bytes)
    requires Schedule(events, out, err, true, true)
    requires RunPatch(events, wait, requested).Ok? && !RunPatch(events, wait, requested).value.patchLimit
    ensures var p := RunPatch(events, wait, requested).value.patch;
            && (p == out <==> Valid(out))
            && |p| + 3 >= |out|
            && |err| <= HISTORY_STDERR_MAX_BYTES
            && BoundedUtf8Prefix(out, |out|) == Some(p)
  {
    Confluence(events, PatchBudget(requested), wait, FRESH_WRITER, out, err);
    assert out[..|out|] == out;
    StrictBoundOnBytes(out, requested);
    ValidUpToIsLongest(out);
  }

  /** No character is unfinished at a line end, so the strict bound gives line-ended text whole or not at all. */
  lemma {:induction false} LineEndedIsWhole(out: bytes)
    requires LineEnded(out)
    ensures BoundedUtf8Prefix(out, |out|) == if Valid(out) then Some(out) else None
  {
    var v := ValidUpTo(out);
    ValidUpToIsLongest(out);
    assert out[..|out|] == out;
    if v < |out| {
      var tail := out[v..];
      assert tail[|tail| - 1] == LF;
      if StepAt(tail).Incomplete? { UnfinishedHasNoLineEnd(tail); }
    }
  }

  lemma {:induction false} UnfinishedHasNoLineEnd(s: bytes)
    requires s != [] && StepAt(s).Incomplete?
    ensures s[|s| - 1] != LF
  {
  }

  /** Git ends every patch with a line end. One for which no limit is reported is everything git wrote. */
  lemma {:induction false} UnlimitedIsEverything(events: seq<Event>, wait: WaitStatus, requested: nat, out: bytes,
                                                 err: bytes)
    requires Schedule(events, out, err, true, true) && LineEnded(out)
    requires RunPatch(events, wait, requested).Ok? && !RunPatch(events, wait, requested).value.patchLimit
    ensures RunPatch(events, wait, requested).value.patch == out && Valid(out)
  {
    UnlimitedPatchIsWhole(events, wait, requested, out, err);
    LineEndedIsWhole(out);
    hide *;
  }

  /** A patch that fits the requested size is returned whole or, when it is no text, refused: never shortened. */
  lemma {:induction false} WholeOrRefused(events: seq<Event>, requested: nat, out: bytes, err: bytes)
    requires 0 < requested <= GIT_PATCH_HARD_MAX_BYTES && |out| <= requested && LineEnded(out)
    requires Schedule(events, out, err, true, true) && |err| <= HISTORY_STDERR_MAX_BYTES
    ensures RunPatch(events, Exited(0), requested)
         == if Valid(out) then Ok(PatchResult(out, false)) else Err(GitReadFailed)
  {
    PatchCaptured(events, requested, out, err);
    LineEndedIsWhole(out);
    assert out[..|out|] == out;
    BoundWithin(out, requested);
    hide RunCommand, BoundedUtf8Prefix, Valid, Schedule, LineEnded;
  }

  lemma {:induction false} BoundWithin(source: bytes, max: nat)
    requires |source| <= max
    ensures BoundedUtf8Prefix(source, max) == BoundedUtf8Prefix(source, |source|)
  {
  }

  /** A valid stream never fails the text bound, limited or not, and loses at most three bytes below the cut. */
  lemma {:induction false} TextPatchSucceeds(events: seq<Event>, requested: nat, out: bytes, err: bytes)
    requires 0 < requested <= GIT_PATCH_HARD_MAX_BYTES && Valid(out)
    requires Schedule(events, out, err, true, true) && |err| <= HISTORY_STDERR_MAX_BYTES
    ensures var r := RunPatch(events, Exited(0), requested);
            && r.Ok?
            && (r.value.patchLimit <==> |out| > requested)
            && LongestPrefix(r.value.patch, out, requested)
            && |r.value.patch| + 3 >= Min(|out|, requested)
  {
    PatchCaptured(events, requested, out, err);
    StrictBoundOnText(out, requested);
    BoundOfCut(out, requested, requested + PATCH_CAPTURE_SLACK_BYTES);
    hide RunCommand, BoundedUtf8Prefix, Valid, LongestPrefix, Schedule;
  }

  /** Cutting beyond the bound does not change what the bound gives. */
  lemma {:induction false} BoundOfCut(source: bytes, max: nat, cap: nat)
    requires max <= cap
    ensures BoundedUtf8Prefix(source[..Min(|source|, cap)], max) == BoundedUtf8Prefix(source, max)
  {
    hide ValidUpTo, StepAt;
    var shown := source[..Min(|source|, cap)];
    assert shown[..Min(|shown|, max)] == source[..Min(|source|, max)];
  }

  /** What a patch command that ends well captures: the stream up to the slack, and whether there was more. */
  lemma {:induction false} PatchCaptured(events: seq<Event>, requested: nat, out: bytes, err: bytes)
    requires requested <= GIT_PATCH_HARD_MAX_BYTES
    requires Schedule(events, out, err, true, true) && |err| <= HISTORY_STDERR_MAX_BYTES
    ensures var cap := requested + PATCH_CAPTURE_SLACK_BYTES;
            var r := RunCommand(Command(events, Exited(0)), PatchBudget(requested));
            && r.Ok? && r.value.stdoutPreview == out[..Min(|out|, cap)]
            && (r.value.sourceTruncated || r.value.stdoutTruncated <==> |out| > cap)
            && (r.value.exitCode == 0 || r.value.sourceTruncated)
  {
    Confluence(events, PatchBudget(requested), Exited(0), FRESH_WRITER, out, err);
    hide Run, Schedule;
  }

  /**
   Without its line end the exception shows: a stream of half a character is returned empty with no limit reported.
   */
  lemma {:induction false} UnfinishedCharacterIsUnreported()
    ensures var out: bytes := [0xC3 as char];
            var events := [Data(Stdout, out, Stored), Done(true), Done(true)];
            && Schedule(events, out, [], true, true)
            && RunPatch(events, Exited(0), 1) == Ok(PatchResult([], false))
  {
    var out: bytes := [0xC3 as char];
    var events := [Data(Stdout, out, Stored), Done(true), Done(true)];
    assert out[|out|..] == [] && out[..1] == out;
    assert events[1..] == [Done(true), Done(true)] && events[1..][1..] == [Done(true)] && events[1..][1..][1..] == [];
    assert Schedule(events[1..][1..], [], [], false, true);
    assert Schedule(events[1..], [], [], true, true);
    assert Schedule(events, out, [], true, true);
    Confluence(events, PatchBudget(1), Exited(0), FRESH_WRITER, out, []);
    assert !StepAt(out).Char?;
    assert ValidUpTo(out) == 0;
    assert out[0..] == out;
  }

  // ------------------------------------------------------------ commands that end otherwise

  /** Both readers of a patch command ended in time and within the budget, after event `k`, and neither failed. */
  ghost predicate Delivered(events: seq<Event>, requested: nat, k: nat)
    requires requested <= 262_144
  {
    && k < |events| && CaptureRuns.BothDoneAt(events, PatchBudget(requested), k)
    && !CaptureRuns.FailedRead(events[..k + 1])
  }

  /**
   Whatever the events are: a patch that was delivered is used only when its command exited with zero, and then its
   limit is reported exactly when it is longer than requested. Any other patch that is answered reports its limit.
   */
  lemma {:induction false} PatchNeedsSuccess(events: seq<Event>, wait: WaitStatus, requested: nat)
    requires 0 < requested <= 262_144
    ensures forall k :: Delivered(events, requested, k) ==>
              var out := CaptureRuns.Received(events[..k + 1], Stdout);
              RunPatch(events, wait, requested) == Delivers(out, wait, requested)
    ensures (forall k :: !Delivered(events, requested, k)) && RunPatch(events, wait, requested).Ok? ==>
              RunPatch(events, wait, requested).value.patchLimit
  {
    hide RunPatch, Delivers, CaptureRuns.BothDoneAt, CaptureRuns.FailedRead, CaptureRuns.Received, PatchBudget;
    forall k | Delivered(events, requested, k)
      ensures var out := CaptureRuns.Received(events[..k + 1], Stdout);
              RunPatch(events, wait, requested) == Delivers(out, wait, requested)
    {
      DeliveredEnds(events, wait, requested, k);
    }
    if forall k :: !Delivered(events, requested, k) { NeverDelivered(events, wait, requested); }
  }

  /** The answer to a delivered patch. */
  function Delivers(out: bytes, wait: WaitStatus, requested: nat): Result<PatchResult, HistoryError>
  {
    if wait != Exited(0) then Err(GitReadFailed)
    else match BoundedUtf8Prefix(out, requested)
      case None => Err(GitReadFailed)
      case Some(patch) => Ok(PatchResult(patch, |out| > requested))
  }

  lemma {:induction false} DeliveredEnds(events: seq<Event>, wait: WaitStatus, requested: nat, k: nat)
    requires 0 < requested <= 262_144 && Delivered(events, requested, k)
    ensures var out := CaptureRuns.Received(events[..k + 1], Stdout);
            RunPatch(events, wait, requested) == Delivers(out, wait, requested)
  {
    DeliveredWhole(Command(events, wait), PatchBudget(requested), k);
    hide Run, CaptureRuns.BothDoneAt, CaptureRuns.FailedRead, CaptureRuns.Received, CaptureRuns.Ended;
    hide BoundedUtf8Prefix;
  }

  lemma {:induction false} NeverDelivered(events: seq<Event>, wait: WaitStatus, requested: nat)
    requires 0 < requested <= 262_144 && forall k :: !Delivered(events, requested, k)
    ensures RunPatch(events, wait, requested).Ok? ==> RunPatch(events, wait, requested).value.patchLimit
  {
    CaptureRuns.SuccessExactly(events, PatchBudget(requested), wait);
    hide Run, CaptureRuns.RunningAt, CaptureRuns.ReadersDone, CaptureRuns.FailedRead, BoundedUtf8Prefix, PatchBudget;
    assert forall k ::
             CaptureRuns.BothDoneAt(events, PatchBudget(requested), k) ==>
               CaptureRuns.FailedRead(events[..k + 1]) || Delivered(events, requested, k);
  }

  /**
   For every schedule: a command that does not exit with zero fails its patch exactly when its output was not cut, so
   when it fits the requested size and 16 KiB more, and its error stream 16 KiB. A cut one reports its limit.
   */
  lemma {:induction false} ExitIsIgnoredExactly(events: seq<Event>, wait: WaitStatus, requested: nat, out: bytes,
                                                err: bytes)
    requires 0 < requested <= 262_144 && Schedule(events, out, err, true, true) && wait != Exited(0)
    ensures |out| <= requested + 16_384 && |err| <= 16_384 ==>
              RunPatch(events, wait, requested) == Err(GitReadFailed)
    ensures |out| > requested + 16_384 && |err| <= 16_384 ==>
              RunPatch(events, wait, requested) == match BoundedUtf8Prefix(out, requested)
                                                   case None => Err(GitReadFailed)
                                                   case Some(patch) => Ok(PatchResult(patch, true))
  {
    hide RunCommand, Schedule, BoundedUtf8Prefix, PatchBudget;
    BoundOfCut(out, requested, requested + 16_384);
    if |out| <= requested + 16_384 && |err| <= 16_384 { UncutFails(events, wait, requested, out, err); }
    if |out| > requested + 16_384 && |err| <= 16_384 { CutIsKept(events, wait, requested, out, err); }
  }

  lemma {:induction false} UncutFails(events: seq<Event>, wait: WaitStatus, requested: nat, out: bytes, err: bytes)
    requires requested <= 262_144 && Schedule(events, out, err, true, true) && wait != Exited(0)
    requires |out| <= requested + 16_384 && |err| <= 16_384
    ensures var r := RunCommand(Command(events, wait), PatchBudget(requested));
            r == Err(GitReadFailed) || (r.Ok? && r.value.exitCode != 0 && !r.value.sourceTruncated)
  {
    Confluence(events, PatchBudget(requested), wait, FRESH_WRITER, out, err);
    hide Run, Schedule;
  }

  lemma {:induction false} CutIsKept(events: seq<Event>, wait: WaitStatus, requested: nat, out: bytes, err: bytes)
    requires requested <= 262_144 && Schedule(events, out, err, true, true)
    requires |out| > requested + 16_384 && |err| <= 16_384
    ensures var r := RunCommand(Command(events, wait), PatchBudget(requested));
            r.Ok? && r.value.sourceTruncated && r.value.stdoutPreview == out[..requested + 16_384]
  {
    Confluence(events, PatchBudget(requested), wait, FRESH_WRITER, out, err);
    hide Run, Schedule;
  }
}
