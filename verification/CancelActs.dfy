/** What a cancel does, in which order, and what its answer says about it, in every interleaving. */
module CancelActs {
  import opened Wrappers
  import opened LivePreview
  import opened Operations
  import opened OperationsProtocol

  // The moves of a whole cancel: a mark, a signal, fifty polls, a stronger signal, fifty polls, and a last look.

  predicate InPlace(i: nat, act: Act)
  {
    if i == 0 then act.Marked?
    else if i == 1 then act.Sent? && act.signal == Terminate
    else if i == 52 then act.Sent? && act.signal == Kill
    else i < 104 && act.Polled?
  }

  /** An act after which the call goes on: a running record was marked, a signal delivered, or it still runs. */
  predicate GoesOn(act: Act)
  {
    match act
    case Marked(start) => start.Signal?
    case Sent(_, _, delivered) => delivered
    case Polled(found) => found == Some(Running)
  }

  /** What the last act leaves of the call: an answer, or not yet. */
  predicate Answered(pc: CancelPc, last: Act, count: nat)
  {
    match last
    case Marked(Missing) => pc == Returned(false)
    case Marked(AlreadyOver(_)) => pc == Returned(true)
    case Marked(Signal(_)) => pc.Waiting?
    case Sent(_, _, delivered) => if delivered then pc.Waiting? else pc == Returned(false)
    case Polled(None) => pc == Returned(false)
    case Polled(Some(state)) => if state == Running && count < 104 then pc.Waiting? else pc == Returned(true)
  }

  /** The process group that was found with the mark. */
  predicate OneGroup(acts: seq<Act>, processGroup: int)
  {
    && acts != [] && acts[0] == Marked(Signal(processGroup))
    && forall i :: 0 <= i < |acts| && acts[i].Sent? ==> acts[i].processGroup == processGroup
  }

  ghost predicate Follows(pc: CancelPc, acts: seq<Act>)
  {
    && |acts| <= 104
    && (forall i :: 0 <= i < |acts| ==> InPlace(i, acts[i]))
    && (forall i :: 0 <= i < |acts| - 1 ==> GoesOn(acts[i]))
    && (if acts == [] then pc == Marking else Answered(pc, acts[|acts| - 1], |acts|))
    && (pc.Waiting? ==> pc.turn == |acts| - 1 && OneGroup(acts, pc.processGroup))
    && (|acts| > 1 ==> exists processGroup :: OneGroup(acts, processGroup))
  }

  lemma {:induction false} TurnFollows(records: Records, c: CancelCall, killed: bool)
    requires !c.pc.Returned? && Follows(c.pc, c.acts)
    ensures var (_, pc, act) := CancelTurn(records, c, killed); Follows(pc, c.acts + [act])
  {
    var (_, pc, act) := CancelTurn(records, c, killed);
    var acts := c.acts + [act];
    assert InPlace(|c.acts|, act);
    if c.acts != [] { assert GoesOn(c.acts[|c.acts| - 1]); }
    assert Answered(pc, act, |acts|);
    if c.pc.Waiting? {
      assert OneGroup(acts, c.pc.processGroup);
    }
    hide StatusOf, StartCancel;
  }

  ghost predicate AllFollow(s: State)
  {
    && (forall call :: call in s.cancels ==> Follows(s.cancels[call].pc, s.cancels[call].acts))
    && (forall sweep :: sweep in s.sweeps ==> Follows(s.sweeps[sweep].pc, s.sweeps[sweep].acts))
  }

  lemma {:induction false} StartFollows()
    ensures Follows(Marking, [])
  {
  }

  lemma {:induction false} StepFollows(s: State, step: Step)
    requires AllFollow(s) && Enabled(s, step)
    ensures AllFollow(After(s, step))
  {
    StartFollows();
    hide Follows, CancelTurn, Received, Published, Ended, Finalised, Progressed, NewRecord, Enumerates, RunningIn;
    match step
    case CancelMove(call, killed) => TurnFollows(s.records, s.cancels[call], killed);
    case SweepMove(sweep, killed) => TurnFollows(s.records, CallOf(s.sweeps[sweep]), killed);
    case _ =>
  }

  /** In every run each call, and each call of a sweep, has done these acts in this order and answers as they say. */
  lemma {:induction false} CallsFollow(steps: seq<Step>)
    requires StateAfter(steps).Some?
    ensures AllFollow(StateAfter(steps).value)
    decreases |steps|
  {
    hide AllFollow, Enabled, After;
    if steps == [] {
      NoCalls();
    } else {
      CallsFollow(steps[..|steps| - 1]);
      StepFollows(StateAfter(steps[..|steps| - 1]).value, steps[|steps| - 1]);
    }
  }

  lemma {:induction false} NoCalls()
    ensures AllFollow(Initial)
  {
  }

  // ------------------------------------------------------------ what follows for a caller

  /** A call past its mark has sent the first signal before anything else; a refused signal is an error. */
  lemma {:induction false} RefusedSignalIsError(steps: seq<Step>, call: nat)
    requires StateAfter(steps).Some? && call in StateAfter(steps).value.cancels
    ensures var c := StateAfter(steps).value.cancels[call];
            && (|c.acts| > 1 ==> c.acts[1].Sent? && c.acts[1].signal == Terminate)
            && (forall i :: 0 <= i < |c.acts| && c.acts[i].Sent? && !c.acts[i].delivered ==> c.pc == Returned(false))
  {
    CallsFollow(steps);
    hide StateAfter;
    var c := StateAfter(steps).value.cancels[call];
    assert Follows(c.pc, c.acts);
    assert |c.acts| > 1 ==> InPlace(1, c.acts[1]);
    forall i | 0 <= i < |c.acts| && c.acts[i].Sent? && !c.acts[i].delivered ensures c.pc == Returned(false) {
      assert !GoesOn(c.acts[i]);
    }
  }

  /**
   The acts of a cancel that gave its operation everything: both signals, each followed by fifty polls, and a look.
   */
  predicate Exhausted(acts: seq<Act>, processGroup: int)
  {
    && |acts| == 104
    && acts[0] == Marked(Signal(processGroup))
    && acts[1] == Sent(Terminate, processGroup, true)
    && acts[52] == Sent(Kill, processGroup, true)
    && forall i :: 2 <= i < 104 && i != 52 ==> acts[i] == Polled(Some(Running))
  }

  /**
   In every run: a call that returns without an error while its operation still runs has delivered both signals to the
   group it found, the first before any poll and the second after exactly fifty, and polled fifty times more.
   */
  lemma {:induction false} OkWhileRunning(steps: seq<Step>, call: nat, killed: bool)
    requires StateAfter(steps).Some? && Enabled(StateAfter(steps).value, CancelMove(call, killed))
    requires var t := After(StateAfter(steps).value, CancelMove(call, killed));
             var c := t.cancels[call];
             c.pc == Returned(true) && c.id in t.records && t.records[c.id].state.Running?
    ensures var c := After(StateAfter(steps).value, CancelMove(call, killed)).cancels[call];
            exists processGroup :: processGroup > 0 && Exhausted(c.acts, processGroup)
  {
    CallsFollow(steps);
    SignalsRealGroups(steps);
    var s := StateAfter(steps).value;
    hide StateAfter;
    var c := s.cancels[call];
    assert Follows(c.pc, c.acts);
    TurnFollows(s.records, c, killed);
    TellsTheState(s.records, c, killed);
    var (_, pc, act) := CancelTurn(s.records, c, killed);
    hide CancelTurn;
    AllRunning(pc, c.acts, act, c.pc.processGroup);
  }

  /** A call that returns success on a running operation was waiting, and has just seen it run. */
  lemma {:induction false} TellsTheState(records: Records, c: CancelCall, killed: bool)
    requires !c.pc.Returned?
    requires var (after, pc, _) := CancelTurn(records, c, killed);
             pc == Returned(true) && c.id in after && after[c.id].state.Running?
    ensures c.pc.Waiting? && CancelTurn(records, c, killed).2 == Polled(Some(Running))
  {
  }

  lemma {:induction false} AllRunning(pc: CancelPc, acts: seq<Act>, last: Act, processGroup: int)
    requires Follows(pc, acts + [last]) && pc == Returned(true) && last == Polled(Some(Running))
    requires OneGroup(acts, processGroup)
    ensures Exhausted(acts + [last], processGroup)
  {
    var all := acts + [last];
    assert |all| == 104;
    forall i | 0 <= i < 104 ensures InPlace(i, all[i]) && GoesOn(all[i]) {
      if i == 103 { assert all[i] == last; }
    }
    assert all[1] == acts[1] && all[52] == acts[52];
  }

  /** What a move does is what it says: it polls the record's own state, and delivers what `kill` took. */
  lemma {:induction false} ActsAreTrue(records: Records, c: CancelCall, killed: bool)
    requires !c.pc.Returned?
    ensures var (after, _, act) := CancelTurn(records, c, killed);
            var mine := c.id in records && records[c.id].workspace == c.workspace;
            match act
            case Marked(start) =>
              && (start.Missing? <==> !mine)
              && (start.Signal? <==> mine && records[c.id].state.Running?)
              && (start.Signal? ==> after == records[c.id := records[c.id].(cancelRequested := true)]
                                    && start.processGroup == records[c.id].processGroup)
              && (!start.Signal? ==> after == records)
            case Sent(_, processGroup, delivered) => after == records && (delivered <==> processGroup > 0 && killed)
            case Polled(found) => after == records && found == if mine then Some(records[c.id].state) else None
  {
  }

  // ------------------------------------------------------------ every cancel gets there

  /** The state after `n` moves of one call, with nothing between them and every signal delivered. */
  ghost function Alone(s: State, call: nat, n: nat): Option<State>
  {
    if n == 0 then Some(s)
    else match Alone(s, call, n - 1)
      case None => None
      case Some(t) => if Enabled(t, CancelMove(call, true)) then Some(After(t, CancelMove(call, true))) else None
  }

  function ActDue(i: nat, processGroup: int): Act
  {
    if i == 0 then Marked(Signal(processGroup))
    else if i == 1 then Sent(Terminate, processGroup, true)
    else if i == 52 then Sent(Kill, processGroup, true)
    else Polled(Some(Running))
  }

  /** The call has made its first `n` moves, and its operation is marked and still running. */
  ghost predicate Underway(t: State, s: State, call: nat, workspace: Capability, id: OperationId, n: nat)
    requires id in s.records
  {
    var processGroup := s.records[id].processGroup;
    && n > 0 && call in t.cancels
    && t.records == s.records[id := s.records[id].(cancelRequested := true)]
    && t.cancels[call].workspace == workspace && t.cancels[call].id == id
    && t.cancels[call].pc == (if n == 104 then Returned(true) else Waiting(processGroup, n - 1))
    && |t.cancels[call].acts| == n
    && forall i :: 0 <= i < n ==> t.cancels[call].acts[i] == ActDue(i, processGroup)
  }

  ghost predicate Cancellable(s: State, workspace: Capability, id: OperationId)
  {
    id in s.records && s.records[id].workspace == workspace && s.records[id].state.Running?
    && s.records[id].processGroup > 0
  }

  lemma {:induction false} FirstMove(s: State, call: nat, workspace: Capability, id: OperationId)
    requires call !in s.cancels && Cancellable(s, workspace, id)
    ensures var t := After(s, BeginCancel(call, workspace, id));
            && Enabled(t, CancelMove(call, true))
            && Underway(After(t, CancelMove(call, true)), s, call, workspace, id, 1)
  {
  }

  lemma {:induction false} NextMove(t: State, s: State, call: nat, workspace: Capability, id: OperationId, n: nat)
    requires Cancellable(s, workspace, id) && 0 < n < 104 && Underway(t, s, call, workspace, id, n)
    ensures Enabled(t, CancelMove(call, true))
    ensures Underway(After(t, CancelMove(call, true)), s, call, workspace, id, n + 1)
  {
    var (records, pc, act) := CancelTurn(t.records, t.cancels[call], true);
    assert act == ActDue(n, s.records[id].processGroup);
  }

  lemma {:induction false} MovesAlone(s: State, call: nat, workspace: Capability, id: OperationId, n: nat)
    requires call !in s.cancels && Cancellable(s, workspace, id) && 0 < n <= 104
    ensures var t := Alone(After(s, BeginCancel(call, workspace, id)), call, n);
            t.Some? && Underway(t.value, s, call, workspace, id, n)
    decreases n
  {
    hide Underway, Cancellable, After;
    if n == 1 {
      FirstMove(s, call, workspace, id);
      NothingBefore(After(s, BeginCancel(call, workspace, id)), call);
    } else {
      MovesAlone(s, call, workspace, id, n - 1);
      NextMove(Alone(After(s, BeginCancel(call, workspace, id)), call, n - 1).value, s, call, workspace, id, n - 1);
    }
  }

  lemma {:induction false} NothingBefore(s: State, call: nat)
    ensures Alone(s, call, 0) == Some(s)
  {
  }

  /**
   In every run, for every running operation: a new cancel of its workspace that nothing interrupts, and whose signals
   are delivered, returns after exactly 104 moves, having marked the operation and sent both signals to its group.
   */
  lemma {:induction false} CancelGetsThere(steps: seq<Step>, call: nat, id: OperationId)
    requires StateAfter(steps).Some? && call !in StateAfter(steps).value.cancels
    requires id in StateAfter(steps).value.records && StateAfter(steps).value.records[id].state.Running?
    ensures var s := StateAfter(steps).value;
            var workspace, processGroup := s.records[id].workspace, s.records[id].processGroup;
            && Enabled(s, BeginCancel(call, workspace, id))
            && var t := Alone(After(s, BeginCancel(call, workspace, id)), call, 104);
               && t.Some? && call in t.value.cancels && t.value.cancels[call].pc == Returned(true)
               && processGroup > 0 && Exhausted(t.value.cancels[call].acts, processGroup)
               && t.value.records == s.records[id := s.records[id].(cancelRequested := true)]
  {
    RecordsAreSound(steps, id);
    var s := StateAfter(steps).value;
    hide StateAfter, Alone;
    MovesAlone(s, call, s.records[id].workspace, id, 104);
  }

  // ------------------------------------------------------------ sweeps end, and marks have a cause

  /** How many moves a sweep has left at most. */
  function SweepLeft(w: Sweep): nat
  {
    if w.next >= |w.snapshot| then 0 else (|w.snapshot| - w.next) * 105 + MovesLeft(w.pc)
  }

  /** Each move of a sweep brings it closer to its end, and it goes on to its next operation only by a success. */
  lemma {:induction false} SweepReturns(s: State, sweep: nat, killed: bool)
    requires Enabled(s, SweepMove(sweep, killed))
    ensures var w, t := s.sweeps[sweep], After(s, SweepMove(sweep, killed)).sweeps[sweep];
            && SweepLeft(t) < SweepLeft(w) <= 105 * (|w.snapshot| - w.next) + 104
            && t.next == w.next + if CancelMoved(s.records, CallOf(w), killed).1 == Returned(true) then 1 else 0
  {
    CancelReturns(s.records, CallOf(s.sweeps[sweep]), killed);
    hide CancelTurn, MovesLeft;
    StartsOver();
  }

  lemma {:induction false} StartsOver()
    ensures MovesLeft(Marking) == 104
  {
  }

  /** A step that marks `id`: the first move of a call, or of a sweep's call, for it. */
  ghost predicate Marks(s: State, step: Step, id: OperationId)
  {
    match step
    case CancelMove(call, _) => call in s.cancels && s.cancels[call].id == id && s.cancels[call].pc.Marking?
    case SweepMove(sweep, _) =>
      && sweep in s.sweeps && !SweepOver(s.sweeps[sweep])
      && s.sweeps[sweep].snapshot[s.sweeps[sweep].next] == id && s.sweeps[sweep].pc.Marking?
    case _ => false
  }

  lemma {:induction false} MarkIsMade(s: State, step: Step, id: OperationId)
    requires Inv(s) && Enabled(s, step) && id in After(s, step).records && After(s, step).records[id].cancelRequested
    ensures Marks(s, step, id) || (id in s.records && s.records[id].cancelRequested)
  {
    hide Inv, LivePreview.Completed, AppendLive, Enumerates, RunningIn, StatusOf;
  }

  /** In every run a cancel was requested only by a cancel, or a sweep, of that very operation. */
  lemma {:induction false} MarksHaveACause(steps: seq<Step>, id: OperationId)
    requires StateAfter(steps).Some?
    requires id in StateAfter(steps).value.records && StateAfter(steps).value.records[id].cancelRequested
    ensures exists k :: 0 <= k < |steps| && StateAfter(steps[..k]).Some?
                        && Marks(StateAfter(steps[..k]).value, steps[k], id)
    decreases |steps|
  {
    hide Inv, Enabled, After, Marks;
    if steps == [] {
      NoMarks(id);
    } else {
      var last := |steps| - 1;
      InvHolds(steps[..last]);
      var s := StateAfter(steps[..last]).value;
      MarkIsMade(s, steps[last], id);
      if !Marks(s, steps[last], id) {
        MarksHaveACause(steps[..last], id);
        var k :| 0 <= k < last && StateAfter(steps[..last][..k]).Some?
                 && Marks(StateAfter(steps[..last][..k]).value, steps[..last][k], id);
        assert steps[..last][..k] == steps[..k] && steps[..last][k] == steps[k];
      }
    }
  }

  lemma {:induction false} NoMarks(id: OperationId)
    ensures id !in Initial.records
  {
  }
}
