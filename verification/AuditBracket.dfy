/**
 Audited requests: what each appends before and after its effect, under every interleaving and every failed append.
 */
module AuditBracket {
  import opened Wrappers

  type Id = nat

  /** `Operation` stands for any audited workspace or skill-source action. */
  datatype Action = Operation | ProcessRun | VerifyRun

  datatype Kind = Single | Process | Verify

  datatype Record = Decision(action: Action) | Outcome(action: Action, success: bool)

  datatype Response = Result | Error | AuditUnavailable

  /**
   What can be observed, in one order: durable records, effects, the records an effect's own artifact appends, replies,
   and the sink's first failure.
   */
  datatype Event =
    | Logged(id: Id, record: Record)
    | Effect(id: Id)
    | Noted(id: Id)
    | Reply(id: Id, response: Response)
    | Poisoned

  /** Where a request stands; `Closed` is a verify request whose process run has replied. */
  datatype Pc =
    | Start
    | OuterDecided
    | Decided
    | Ran(effect: bool, ok: bool)
    | Closed(reply: Response)
    | Done(reply: Response)

  /** How the next append or the operation goes. */
  datatype Choice = Choice(append: bool, effect: bool, ok: bool)

  function InnerAction(kind: Kind): Action { if kind.Single? then Operation else ProcessRun }

  // ------------------------------------------------------------ one request, one move at a time

  /** An append to the sink: durable, or the failure that poisons it, or refused because it is poisoned. */
  function TryAppend(healthy: bool, id: Id, record: Record, ok: bool): (bool, seq<Event>)
  {
    if !healthy then (false, []) else if ok then (true, [Logged(id, record)]) else (false, [Poisoned])
  }

  function Moved(kind: Kind, pc: Pc, healthy: bool, id: Id, c: Choice): (Pc, bool, seq<Event>)
    requires !pc.Done?
  {
    match pc
    case Start =>
      var action := if kind.Verify? then VerifyRun else InnerAction(kind);
      var (ok, events) := TryAppend(healthy, id, Decision(action), c.append);
      if ok then (if kind.Verify? then OuterDecided else Decided, ok, events)
      else (Done(AuditUnavailable), ok, events + [Reply(id, AuditUnavailable)])
    case OuterDecided =>
      var (ok, events) := TryAppend(healthy, id, Decision(ProcessRun), c.append);
      (if ok then Decided else Closed(AuditUnavailable), ok, events)
    case Decided =>
      (Ran(c.effect, c.effect && c.ok), healthy, if c.effect then [Effect(id)] else [])
    case Ran(_, success) =>
      var (ok, events) := TryAppend(healthy, id, Outcome(InnerAction(kind), success), c.append);
      var reply := if !ok then AuditUnavailable else if success then Result else Error;
      if kind.Verify? then (Closed(reply), ok, events) else (Done(reply), ok, events + [Reply(id, reply)])
    case Closed(inner) =>
      var (ok, events) := TryAppend(healthy, id, Outcome(VerifyRun, inner.Result?), c.append);
      var reply := if ok then inner else AuditUnavailable;
      (Done(reply), ok, events + [Reply(id, reply)])
  }

  // ------------------------------------------------------------ one request on its own

  /** The choices a request meets, one for each of its moves in order. */
  datatype Script = Script(
    outerDecision: Choice, decision: Choice, operation: Choice, outcome: Choice, outerOutcome: Choice)

  function ChoiceAt(kind: Kind, pc: Pc, s: Script): Choice
    requires !pc.Done?
  {
    match pc
    case Start => if kind.Verify? then s.outerDecision else s.decision
    case OuterDecided => s.decision
    case Decided => s.operation
    case Ran(_, _) => s.outcome
    case Closed(_) => s.outerOutcome
  }

  function Left(pc: Pc): nat
  {
    match pc
    case Start => 5
    case OuterDecided => 4
    case Decided => 3
    case Ran(_, _) => 2
    case Closed(_) => 1
    case Done(_) => 0
  }

  /** The rest of a request that nothing interrupts: its reply, the sink's health and the events. */
  function Alone(kind: Kind, pc: Pc, healthy: bool, id: Id, s: Script): (Response, bool, seq<Event>)
    decreases Left(pc)
  {
    if pc.Done? then (pc.reply, healthy, [])
    else
      var (next, h, events) := Moved(kind, pc, healthy, id, ChoiceAt(kind, pc, s));
      var (reply, h', rest) := Alone(kind, next, h, id, s);
      (reply, h', events + rest)
  }

  class Dispatcher {
    var trace: seq<Event>
    var healthy: bool

    constructor ()
      ensures trace == [] && healthy
    {
      trace, healthy := [], true;
    }

    method Append(id: Id, record: Record, ok: bool) returns (durable: bool)
      modifies this
      ensures durable == healthy == TryAppend(old(healthy), id, record, ok).0
      ensures trace == old(trace) + TryAppend(old(healthy), id, record, ok).1
      ensures durable <==> old(healthy) && ok
      ensures durable ==> trace == old(trace) + [Logged(id, record)]
    {
      if !healthy { return false; }
      if !ok {
        healthy := false;
        trace := trace + [Poisoned];
        return false;
      }
      trace := trace + [Logged(id, record)];
      return true;
    }

    /** `audited_failure`. */
    method AuditedFailure(id: Id, action: Action, ok: bool) returns (reply: Response)
      modifies this
      ensures healthy == TryAppend(old(healthy), id, Outcome(action, false), ok).0
      ensures trace == old(trace) + TryAppend(old(healthy), id, Outcome(action, false), ok).1
      ensures reply == if healthy then Error else AuditUnavailable
    {
      var durable := Append(id, Outcome(action, false), ok);
      if !durable { return AuditUnavailable; }
      return Error;
    }

    /** The bracket of `audited_workspace_operation` and of `dispatch_process_run_with_operation_id`. */
    method AuditedOperation(id: Id, action: Action, s: Script) returns (reply: Response)
      modifies this
      ensures var (r, h, events) := Bracket(old(healthy), id, action, s);
              reply == r && healthy == h && trace == old(trace) + events
    {
      var decided := Append(id, Decision(action), s.decision.append);
      if !decided { return AuditUnavailable; }
      if s.operation.effect { trace := trace + [Effect(id)]; }
      if !(s.operation.effect && s.operation.ok) {
        reply := AuditedFailure(id, action, s.outcome.append);
        return reply;
      }
      var durable := Append(id, Outcome(action, true), s.outcome.append);
      if !durable { return AuditUnavailable; }
      return Result;
    }

    /** `dispatch_verify_run`: a process run inside a bracket of its own. */
    method DispatchVerifyRun(id: Id, s: Script) returns (reply: Response)
      modifies this
      ensures var (r, h, events) := VerifyBracket(old(healthy), id, s);
              reply == r && healthy == h && trace == old(trace) + events
    {
      var decided := Append(id, Decision(VerifyRun), s.outerDecision.append);
      if !decided { return AuditUnavailable; }
      var inner := AuditedOperation(id, ProcessRun, s);
      var durable := Append(id, Outcome(VerifyRun, inner.Result?), s.outerOutcome.append);
      if !durable { return AuditUnavailable; }
      return inner;
    }

    /** A request from its arrival to its reply. */
    method Serve(id: Id, kind: Kind, s: Script) returns (reply: Response)
      modifies this
      ensures (reply, healthy, trace)
           == (Alone(kind, Start, old(healthy), id, s).0, Alone(kind, Start, old(healthy), id, s).1,
               old(trace) + Alone(kind, Start, old(healthy), id, s).2)
    {
      hide *;
      AloneIsBracketed(kind, healthy, id, s);
      ghost var events :=
        if kind.Verify? then VerifyBracket(healthy, id, s).2 else Bracket(healthy, id, InnerAction(kind), s).2;
      if kind.Verify? { reply := DispatchVerifyRun(id, s); }
      else { reply := AuditedOperation(id, InnerAction(kind), s); }
      trace := trace + [Reply(id, reply)];
      assert trace == old(trace) + (events + [Reply(id, reply)]);
    }
  }

  function Bracket(healthy: bool, id: Id, action: Action, s: Script): (Response, bool, seq<Event>)
  {
    var (decided, d) := TryAppend(healthy, id, Decision(action), s.decision.append);
    if !decided then (AuditUnavailable, false, d)
    else
      var success := s.operation.effect && s.operation.ok;
      var (durable, o) := TryAppend(true, id, Outcome(action, success), s.outcome.append);
      (if !durable then AuditUnavailable else if success then Result else Error, durable,
       d + (if s.operation.effect then [Effect(id)] else []) + o)
  }

  function VerifyBracket(healthy: bool, id: Id, s: Script): (Response, bool, seq<Event>)
  {
    var (decided, d) := TryAppend(healthy, id, Decision(VerifyRun), s.outerDecision.append);
    if !decided then (AuditUnavailable, false, d)
    else
      var (inner, h, events) := Bracket(true, id, ProcessRun, s);
      var (durable, o) := TryAppend(h, id, Outcome(VerifyRun, inner.Result?), s.outerOutcome.append);
      (if durable then inner else AuditUnavailable, durable, d + events + o)
  }

  lemma {:induction false} AloneStep(kind: Kind, pc: Pc, healthy: bool, id: Id, s: Script)
    requires !pc.Done?
    ensures var (next, h, events) := Moved(kind, pc, healthy, id, ChoiceAt(kind, pc, s));
            Alone(kind, pc, healthy, id, s)
            == (if next.Done? then (next.reply, h, events)
                else
                  var rest := Alone(kind, next, h, id, s);
                  (rest.0, rest.1, events + rest.2))
  {
    var (next, h, events) := Moved(kind, pc, healthy, id, ChoiceAt(kind, pc, s));
    if next.Done? { assert events + [] == events; }
  }

  /** A request left alone does what its nested brackets say, and replies. */
  lemma {:induction false} AloneIsBracketed(kind: Kind, healthy: bool, id: Id, s: Script)
    ensures var (reply, h, events) :=
              if kind.Verify? then VerifyBracket(healthy, id, s) else Bracket(healthy, id, InnerAction(kind), s);
            Alone(kind, Start, healthy, id, s) == (reply, h, events + [Reply(id, reply)])
  {
    if kind.Verify? { AloneVerify(healthy, id, s); } else { AloneFromStart(kind, healthy, id, s); }
  }

  lemma {:induction false} Joined(a: seq<Event>, b: seq<Event>, c: seq<Event>, d: seq<Event>)
    ensures a + (b + (c + d)) == a + b + c + d
  {
  }

  lemma {:induction false} AloneFromStart(kind: Kind, healthy: bool, id: Id, s: Script)
    requires !kind.Verify?
    ensures var (reply, h, events) := Bracket(healthy, id, InnerAction(kind), s);
            Alone(kind, Start, healthy, id, s) == (reply, h, events + [Reply(id, reply)])
  {
    var success := s.operation.effect && s.operation.ok;
    AloneStep(kind, Start, healthy, id, s);
    AloneStep(kind, Decided, true, id, s);
    AloneStep(kind, Ran(s.operation.effect, success), true, id, s);
    hide Alone;
    var (reply, _, _) := Bracket(healthy, id, InnerAction(kind), s);
    Joined(TryAppend(healthy, id, Decision(InnerAction(kind)), s.decision.append).1,
      if s.operation.effect then [Effect(id)] else [],
      TryAppend(true, id, Outcome(InnerAction(kind), success), s.outcome.append).1, [Reply(id, reply)]);
  }

  /** Inside a verify request the process bracket runs as it would on its own. */
  lemma {:induction false} AloneInside(healthy: bool, id: Id, s: Script)
    ensures var (inner, h, events) := Bracket(healthy, id, ProcessRun, s);
            var (reply, h', rest) := Alone(Verify, Closed(inner), h, id, s);
            Alone(Verify, OuterDecided, healthy, id, s) == (reply, h', events + rest)
  {
    var success := s.operation.effect && s.operation.ok;
    AloneStep(Verify, OuterDecided, healthy, id, s);
    AloneStep(Verify, Decided, true, id, s);
    AloneStep(Verify, Ran(s.operation.effect, success), true, id, s);
    hide Alone;
    var (inner, h, _) := Bracket(healthy, id, ProcessRun, s);
    Joined(TryAppend(healthy, id, Decision(ProcessRun), s.decision.append).1,
      if s.operation.effect then [Effect(id)] else [],
      TryAppend(true, id, Outcome(ProcessRun, success), s.outcome.append).1, Alone(Verify, Closed(inner), h, id, s).2);
  }

  lemma {:induction false} AloneVerify(healthy: bool, id: Id, s: Script)
    ensures var (reply, h, events) := VerifyBracket(healthy, id, s);
            Alone(Verify, Start, healthy, id, s) == (reply, h, events + [Reply(id, reply)])
  {
    var (inner, h, events) := Bracket(true, id, ProcessRun, s);
    AloneStep(Verify, Start, healthy, id, s);
    AloneInside(true, id, s);
    AloneStep(Verify, Closed(inner), h, id, s);
    hide Alone, Bracket;
    var (reply, _, _) := VerifyBracket(healthy, id, s);
    Joined(TryAppend(healthy, id, Decision(VerifyRun), s.outerDecision.append).1, events,
      TryAppend(h, id, Outcome(VerifyRun, inner.Result?), s.outerOutcome.append).1, [Reply(id, reply)]);
  }

  /**
   An uninterrupted request, told from its script: it succeeds exactly when every record became durable and its
   operation ran and did well, fails when the operation did not, and otherwise its audit is unavailable. Its effect
   needs the decisions and nothing else.
   */
  lemma {:induction false} AloneExactly(kind: Kind, healthy: bool, id: Id, s: Script)
    ensures var (reply, h, events) := Alone(kind, Start, healthy, id, s);
            var decided := healthy && s.decision.append && (kind.Verify? ==> s.outerDecision.append);
            var durable := decided && s.outcome.append && (kind.Verify? ==> s.outerOutcome.append);
            && (h <==> durable)
            && reply == (if !durable then AuditUnavailable
                         else if s.operation.effect && s.operation.ok then Result else Error)
            && (Effect(id) in events <==> decided && s.operation.effect)
  {
    AloneIsBracketed(kind, healthy, id, s);
    hide Alone;
    var (reply, h, events) :=
      if kind.Verify? then VerifyBracket(healthy, id, s) else Bracket(healthy, id, InnerAction(kind), s);
    assert Effect(id) in events + [Reply(id, reply)] <==> Effect(id) in events;
  }

  // ------------------------------------------------------------ many requests, interleaved

  datatype Thread = Thread(kind: Kind, pc: Pc)

  datatype State = State(trace: seq<Event>, healthy: bool, threads: map<Id, Thread>)

  /** `Note` is an append of the operation itself: of the retention pass or of the creation of its artifact. */
  datatype Step = Begin(id: Id, kind: Kind) | Move(id: Id, choice: Choice) | Note(id: Id, append: bool)

  const Initial := State([], true, map[])

  predicate Enabled(s: State, step: Step)
  {
    match step
    case Begin(id, _) => id !in s.threads
    case Move(id, _) => id in s.threads && !s.threads[id].pc.Done?
    case Note(id, _) => id in s.threads && (s.threads[id].pc.Decided? || s.threads[id].pc.Ran?)
  }

  function After(s: State, step: Step): State
    requires Enabled(s, step)
  {
    match step
    case Begin(id, kind) => s.(threads := s.threads[id := Thread(kind, Start)])
    case Move(id, c) =>
      var t := s.threads[id];
      var (pc, healthy, events) := Moved(t.kind, t.pc, s.healthy, id, c);
      State(s.trace + events, healthy, s.threads[id := t.(pc := pc)])
    case Note(id, append) =>
      s.(trace := s.trace + (if !s.healthy then [] else if append then [Noted(id)] else [Poisoned]),
         healthy := s.healthy && append)
  }

  function Reached(steps: seq<Step>): Option<State>
  {
    if steps == [] then Some(Initial)
    else
      var last := |steps| - 1;
      match Reached(steps[..last])
      case None => None
      case Some(s) => if Enabled(s, steps[last]) then Some(After(s, steps[last])) else None
  }

  predicate About(e: Event, id: Id) { !e.Poisoned? && !e.Noted? && e.id == id }

  /** What the trace shows of one request, its operation's own records aside. */
  function Of(trace: seq<Event>, id: Id): seq<Event>
  {
    if trace == [] then []
    else Of(trace[..|trace| - 1], id) + if About(trace[|trace| - 1], id) then [trace[|trace| - 1]] else []
  }

  /** The decisions that open a request's effect. */
  function Opening(kind: Kind, id: Id): seq<Event>
  {
    if kind.Verify? then [Logged(id, Decision(VerifyRun)), Logged(id, Decision(ProcessRun))]
    else [Logged(id, Decision(InnerAction(kind)))]
  }

  /** A whole request: decisions, effect if it got that far, outcomes from the inside out. */
  function Full(kind: Kind, id: Id, effect: bool, success: bool): seq<Event>
  {
    Opening(kind, id)
      + (if effect then [Effect(id)] else [])
      + [Logged(id, Outcome(InnerAction(kind), success))]
      + (if kind.Verify? then [Logged(id, Outcome(VerifyRun, success))] else [])
  }

  /** What a request has shown by the time it stands at `pc`. */
  ghost predicate Shown(kind: Kind, pc: Pc, id: Id, h: seq<Event>)
  {
    match pc
    case Start => h == []
    case OuterDecided => kind.Verify? && h == [Logged(id, Decision(VerifyRun))]
    case Decided => h == Opening(kind, id)
    case Ran(effect, ok) => (ok ==> effect) && h == Opening(kind, id) + if effect then [Effect(id)] else []
    case Closed(reply) =>
      && kind.Verify?
      && match reply {
           case Result => h == Opening(kind, id) + [Effect(id), Logged(id, Outcome(ProcessRun, true))]
           case Error =>
             || h == Opening(kind, id) + [Logged(id, Outcome(ProcessRun, false))]
             || h == Opening(kind, id) + [Effect(id), Logged(id, Outcome(ProcessRun, false))]
           case AuditUnavailable => Cut(kind, id, h)
         }
    case Done(reply) => h != [] && h[|h| - 1] == Reply(id, reply) && Served(kind, id, reply, h[..|h| - 1])
  }

  /** What precedes a reply. */
  ghost predicate Served(kind: Kind, id: Id, reply: Response, h: seq<Event>)
  {
    match reply
    case Result => h == Full(kind, id, true, true)
    case Error => h == Full(kind, id, false, false) || h == Full(kind, id, true, false)
    case AuditUnavailable => Cut(kind, id, h)
  }

  /** A request whose audit failed shows a proper beginning of a whole one. */
  ghost predicate Cut(kind: Kind, id: Id, h: seq<Event>)
  {
    exists effect: bool, success: bool :: h < Full(kind, id, effect, success)
  }

  lemma {:induction false} OfAppend(trace: seq<Event>, events: seq<Event>, id: Id)
    ensures Of(trace + events, id) == Of(trace, id) + Of(events, id)
    decreases |events|
  {
    if events == [] {
      assert trace + events == trace;
    } else {
      var front := events[..|events| - 1];
      assert (trace + events)[..|trace + events| - 1] == trace + front;
      OfAppend(trace, front, id);
    }
  }

  /** Whether a step appends to the sink, and whether the disk takes it. */
  predicate Appending(s: State, step: Step)
    requires Enabled(s, step)
  {
    step.Note? || (step.Move? && !s.threads[step.id].pc.Decided?)
  }

  predicate Taken(step: Step) { if step.Note? then step.append else step.Move? && step.choice.append }

  /** A step's record is durable exactly when the sink was healthy and took it; a healthy sink's failure poisons it. */
  lemma {:induction false} AppendsAreTrue(s: State, step: Step)
    requires Enabled(s, step)
    ensures var t := After(s, step);
            && s.trace <= t.trace
            && var more := t.trace[|s.trace|..];
               && (t.healthy <==> s.healthy && (Appending(s, step) ==> Taken(step)))
               && (Poisoned in more <==> s.healthy && Appending(s, step) && !Taken(step))
               && ((exists e :: e in more && (e.Logged? || e.Noted?))
                   <==> s.healthy && Appending(s, step) && Taken(step))
  {
    var t := After(s, step);
    var more := t.trace[|s.trace|..];
    match step
    case Begin(_, _) => assert more == [];
    case Note(id, append) =>
      if s.healthy && append { assert more == [Noted(id)] && more[0] == Noted(id); }
    case Move(id, c) =>
      var (_, _, events) := Moved(s.threads[id].kind, s.threads[id].pc, s.healthy, id, c);
      assert more == events;
      if s.healthy && Appending(s, step) && c.append { assert events[0].Logged?; }
      if s.healthy && Appending(s, step) && !c.append { assert events[0] == Poisoned; }
  }

  /** A move shows only its own request, and takes what it has shown to what its new place says. */
  lemma {:induction false} MoveShows(kind: Kind, pc: Pc, healthy: bool, id: Id, c: Choice, h: seq<Event>)
    requires !pc.Done? && Shown(kind, pc, id, h) && (pc == Closed(AuditUnavailable) ==> !healthy)
    ensures var (next, _, events) := Moved(kind, pc, healthy, id, c);
            Shown(kind, next, id, h + Of(events, id))
  {
    match pc
    case Start => StartShows(kind, healthy, id, c, h);
    case OuterDecided => OuterShows(healthy, id, c, h);
    case Decided =>
      assert Of([Effect(id)], id) == [Effect(id)];
    case Ran(effect, ok) => OutcomeShows(kind, pc, healthy, id, c, h);
    case Closed(inner) => ClosedShows(inner, healthy, id, c, h);
  }

  lemma {:induction false} OfOne(e: Event, id: Id)
    ensures Of([e], id) == if About(e, id) then [e] else []
    ensures Of([], id) == []
  {
    assert [e][..0] == [];
  }

  lemma {:induction false} StartShows(kind: Kind, healthy: bool, id: Id, c: Choice, h: seq<Event>)
    requires Shown(kind, Start, id, h)
    ensures var (next, _, events) := Moved(kind, Start, healthy, id, c);
            Shown(kind, next, id, h + Of(events, id))
  {
    var record := Decision(if kind.Verify? then VerifyRun else InnerAction(kind));
    AppendShows(healthy, id, record, c.append);
    var (durable, events) := TryAppend(healthy, id, record, c.append);
    hide Of, About;
    if durable {
      assert h + [Logged(id, record)] == [Logged(id, record)];
    } else {
      ReplyShows(events, id, AuditUnavailable);
      assert h + [] == h < Full(kind, id, true, true);
      DoneShown(kind, id, AuditUnavailable, h, []);
    }
  }

  lemma {:induction false} OuterShows(healthy: bool, id: Id, c: Choice, h: seq<Event>)
    requires Shown(Verify, OuterDecided, id, h)
    ensures var (next, _, events) := Moved(Verify, OuterDecided, healthy, id, c);
            Shown(Verify, next, id, h + Of(events, id))
  {
    OfOne(Logged(id, Decision(ProcessRun)), id);
    OfOne(Poisoned, id);
    hide Of;
    assert h + [] == h;
    assert h < Full(Verify, id, true, true);
  }

  /** Of what an append adds the request shows its record, if that became durable. */
  lemma {:induction false} AppendShows(healthy: bool, id: Id, record: Record, ok: bool)
    ensures var (durable, events) := TryAppend(healthy, id, record, ok);
            Of(events, id) == if durable then [Logged(id, record)] else []
  {
    OfOne(Logged(id, record), id);
    OfOne(Poisoned, id);
  }

  lemma {:induction false} ReplyShows(events: seq<Event>, id: Id, reply: Response)
    ensures Of(events + [Reply(id, reply)], id) == Of(events, id) + [Reply(id, reply)]
  {
    OfAppend(events, [Reply(id, reply)], id);
    OfOne(Reply(id, reply), id);
  }

  lemma {:induction false} DoneShown(kind: Kind, id: Id, reply: Response, h: seq<Event>, more: seq<Event>)
    requires Served(kind, id, reply, h + more)
    ensures Shown(kind, Done(reply), id, h + (more + [Reply(id, reply)]))
  {
    hide Served;
    var shown := h + (more + [Reply(id, reply)]);
    assert shown[..|shown| - 1] == h + more;
  }

  lemma {:induction false} OutcomeShows(kind: Kind, pc: Pc, healthy: bool, id: Id, c: Choice, h: seq<Event>)
    requires pc.Ran? && Shown(kind, pc, id, h)
    ensures var (next, _, events) := Moved(kind, pc, healthy, id, c);
            Shown(kind, next, id, h + Of(events, id))
  {
    var record := Outcome(InnerAction(kind), pc.ok);
    AppendShows(healthy, id, record, c.append);
    var (durable, events) := TryAppend(healthy, id, record, c.append);
    var reply := if !durable then AuditUnavailable else if pc.ok then Result else Error;
    if kind.Verify? {
      InnerOutcome(id, pc.effect, pc.ok, h, durable);
    } else {
      OutcomeServes(kind, id, pc.effect, pc.ok, h, durable);
      ReplyShows(events, id, reply);
      DoneShown(kind, id, reply, h, Of(events, id));
    }
    hide Of, Shown;
  }

  lemma {:induction false} InnerOutcome(id: Id, effect: bool, ok: bool, h: seq<Event>, durable: bool)
    requires Shown(Verify, Ran(effect, ok), id, h)
    ensures var reply := if !durable then AuditUnavailable else if ok then Result else Error;
            Shown(Verify, Closed(reply), id, h + if durable then [Logged(id, Outcome(ProcessRun, ok))] else [])
  {
    if durable {
      var record := Logged(id, Outcome(ProcessRun, ok));
      assert effect ==> [Effect(id)] + [record] == [Effect(id), record];
    } else {
      assert h + [] == h < Full(Verify, id, effect, ok);
    }
  }

  lemma {:induction false} OutcomeServes(kind: Kind, id: Id, effect: bool, ok: bool, h: seq<Event>, durable: bool)
    requires !kind.Verify? && Shown(kind, Ran(effect, ok), id, h)
    ensures var reply := if !durable then AuditUnavailable else if ok then Result else Error;
            Served(kind, id, reply, h + if durable then [Logged(id, Outcome(InnerAction(kind), ok))] else [])
  {
    if durable {
      assert h + [Logged(id, Outcome(InnerAction(kind), ok))] == Full(kind, id, effect, ok);
    } else {
      assert h + [] == h < Full(kind, id, effect, ok);
    }
  }

  lemma {:induction false} ClosedShows(inner: Response, healthy: bool, id: Id, c: Choice, h: seq<Event>)
    requires Shown(Verify, Closed(inner), id, h) && (inner.AuditUnavailable? ==> !healthy)
    ensures var (next, _, events) := Moved(Verify, Closed(inner), healthy, id, c);
            Shown(Verify, next, id, h + Of(events, id))
  {
    var record := Outcome(VerifyRun, inner.Result?);
    AppendShows(healthy, id, record, c.append);
    var (durable, events) := TryAppend(healthy, id, record, c.append);
    var reply := if durable then inner else AuditUnavailable;
    OuterOutcome(id, inner, h, durable);
    ReplyShows(events, id, reply);
    DoneShown(Verify, id, reply, h, Of(events, id));
    hide Of, Shown;
  }

  lemma {:induction false} OuterOutcome(id: Id, inner: Response, h: seq<Event>, durable: bool)
    requires Shown(Verify, Closed(inner), id, h) && (durable ==> !inner.AuditUnavailable?)
    ensures Served(Verify, id, if durable then inner else AuditUnavailable,
              h + if durable then [Logged(id, Outcome(VerifyRun, inner.Result?))] else [])
  {
    var record := Logged(id, Outcome(VerifyRun, inner.Result?));
    if durable {
      match inner
      case Result => assert h + [record] == Full(Verify, id, true, true);
      case Error =>
        var effect := Effect(id) in h;
        assert h + [record] == Full(Verify, id, effect, false);
    } else {
      assert h + [] == h;
      match inner
      case Result => assert h < Full(Verify, id, true, true);
      case Error =>
        if h == Opening(Verify, id) + [Logged(id, Outcome(ProcessRun, false))] {
          assert h < Full(Verify, id, false, false);
        } else {
          assert h < Full(Verify, id, true, false);
        }
      case AuditUnavailable =>
    }
  }

  // ------------------------------------------------------------ what every interleaving keeps

  /**
   Every request has shown what its place says; those not begun nothing; only a poisoned sink leaves one unavailable.
   */
  ghost predicate Placed(s: State)
  {
    && (forall id :: id in s.threads ==> Shown(s.threads[id].kind, s.threads[id].pc, id, Of(s.trace, id)))
    && (forall id :: id in s.threads && s.threads[id].pc == Closed(AuditUnavailable) ==> !s.healthy)
    && (forall id: Id :: id !in s.threads ==> Of(s.trace, id) == [])
  }

  lemma {:induction false} MovedAbout(kind: Kind, pc: Pc, healthy: bool, id: Id, c: Choice, other: Id)
    requires !pc.Done? && other != id
    ensures Of(Moved(kind, pc, healthy, id, c).2, other) == []
  {
    var events := Moved(kind, pc, healthy, id, c).2;
    assert forall i :: 0 <= i < |events| ==> !About(events[i], other);
    NoneAbout(events, other);
  }

  lemma {:induction false} NoneAbout(events: seq<Event>, id: Id)
    requires forall i :: 0 <= i < |events| ==> !About(events[i], id)
    ensures Of(events, id) == []
    decreases |events|
  {
    if events != [] { NoneAbout(events[..|events| - 1], id); }
  }

  lemma {:induction false} MoveUnavailable(kind: Kind, pc: Pc, healthy: bool, id: Id, c: Choice)
    requires !pc.Done?
    ensures var (next, h, _) := Moved(kind, pc, healthy, id, c);
            (next == Closed(AuditUnavailable) ==> !h) && (!healthy ==> !h)
  {
  }

  lemma {:induction false} StepKeepsPlaced(s: State, step: Step)
    requires Placed(s) && Enabled(s, step)
    ensures Placed(After(s, step))
  {
    hide Shown, Of;
    match step
    case Begin(id, kind) =>
      BeginShown(kind, id);
    case Move(id, c) =>
      var t := s.threads[id];
      var (next, h, events) := Moved(t.kind, t.pc, s.healthy, id, c);
      MoveShows(t.kind, t.pc, s.healthy, id, c, Of(s.trace, id));
      MoveUnavailable(t.kind, t.pc, s.healthy, id, c);
      hide Moved;
      OfAppend(s.trace, events, id);
      forall other: Id | other != id ensures Of(After(s, step).trace, other) == Of(s.trace, other) {
        OfAppend(s.trace, events, other);
        MovedAbout(t.kind, t.pc, s.healthy, id, c, other);
        assert Of(s.trace, other) + [] == Of(s.trace, other);
      }
    case Note(id, append) =>
      var events := if !s.healthy then [] else if append then [Noted(id)] else [Poisoned];
      forall other: Id ensures Of(After(s, step).trace, other) == Of(s.trace, other) {
        OfAppend(s.trace, events, other);
        NoneAbout(events, other);
        assert Of(s.trace, other) + [] == Of(s.trace, other);
      }
  }

  lemma {:induction false} BeginShown(kind: Kind, id: Id)
    ensures Shown(kind, Start, id, [])
  {
  }

  lemma {:induction false} AlwaysPlaced(steps: seq<Step>)
    requires Reached(steps).Some?
    ensures Placed(Reached(steps).value)
    decreases |steps|
  {
    hide Placed, Enabled, After;
    if steps == [] {
      InitialPlaced();
    } else {
      AlwaysPlaced(steps[..|steps| - 1]);
      StepKeepsPlaced(Reached(steps[..|steps| - 1]).value, steps[|steps| - 1]);
    }
  }

  lemma {:induction false} InitialPlaced()
    ensures Placed(Initial)
  {
    assert forall id: Id :: Of(Initial.trace, id) == [];
  }

  /**
   In every interleaving, a request answered with a result has shown exactly its decisions, its effect, its outcomes
   from the inside out, and the reply: one outcome record for each decision, each later than it, and `verify.run`
   nests. One answered with another error shows the same with failed outcomes; one answered `AUDIT_UNAVAILABLE` is cut
   short.
   */
  lemma {:induction false} RequestsAreBracketed(steps: seq<Step>, id: Id)
    requires Reached(steps).Some?
    requires var s := Reached(steps).value; id in s.threads && s.threads[id].pc.Done?
    ensures var s := Reached(steps).value;
            var kind := s.threads[id].kind;
            var reply := s.threads[id].pc.reply;
            var h := Of(s.trace, id);
            && |h| > 0 && h[|h| - 1] == Reply(id, reply)
            && (reply == Result ==> h[..|h| - 1] == Full(kind, id, true, true))
            && (reply == Error ==> h[..|h| - 1] in [Full(kind, id, true, false), Full(kind, id, false, false)])
            && (reply == AuditUnavailable ==> Cut(kind, id, h[..|h| - 1]))
  {
    AlwaysPlaced(steps);
    hide Of, Cut, Full, Reached;
    var s := Reached(steps).value;
    assert Shown(s.threads[id].kind, s.threads[id].pc, id, Of(s.trace, id));
  }

  /** When an effect runs, every decision of its request is durable and no outcome is. */
  lemma {:induction false} EffectFollowsDecision(steps: seq<Step>, id: Id, c: Choice)
    requires Reached(steps).Some? && Enabled(Reached(steps).value, Move(id, c))
    requires var s := Reached(steps).value; Effect(id) in After(s, Move(id, c)).trace[|s.trace|..]
    ensures var s := Reached(steps).value; Of(s.trace, id) == Opening(s.threads[id].kind, id)
  {
    AlwaysPlaced(steps);
    var s := Reached(steps).value;
    hide Of, Reached, Opening;
    var t := s.threads[id];
    assert After(s, Move(id, c)).trace[|s.trace|..] == Moved(t.kind, t.pc, s.healthy, id, c).2;
    assert Shown(t.kind, t.pc, id, Of(s.trace, id));
  }

  /** When an operation appends a record of its own, the same: it stands between the decisions and the outcomes. */
  lemma {:induction false} NotesAreInside(steps: seq<Step>, id: Id, append: bool)
    requires Reached(steps).Some? && Enabled(Reached(steps).value, Note(id, append))
    ensures var s := Reached(steps).value;
            var opening := Opening(s.threads[id].kind, id);
            Of(s.trace, id) in [opening, opening + [Effect(id)]]
  {
    AlwaysPlaced(steps);
    var s := Reached(steps).value;
    hide Of, Reached, Opening;
    var opening := Opening(s.threads[id].kind, id);
    assert opening + [] == opening;
    assert Shown(s.threads[id].kind, s.threads[id].pc, id, Of(s.trace, id));
  }

  // ------------------------------------------------------------ poison

  /** `e` stands in the trace before position `i`. */
  ghost predicate Before(trace: seq<Event>, e: Event, i: nat) { exists j :: 0 <= j < i && j < |trace| && trace[j] == e }

  /** The sink is healthy until it is poisoned, and after that nothing more is logged. */
  ghost predicate PoisonLast(s: State)
  {
    && (s.healthy ==> forall i :: 0 <= i < |s.trace| ==> s.trace[i] != Poisoned)
    && (forall i, j :: 0 <= i < j < |s.trace| && s.trace[i] == Poisoned ==>
                         !s.trace[j].Logged? && !s.trace[j].Noted? && !s.trace[j].Poisoned?)
  }

  ghost predicate EffectsDecided(s: State)
  {
    forall i :: 0 <= i < |s.trace| && OfOperation(s.trace[i]) ==>
      s.trace[i].id in s.threads && DecidedBefore(s.trace, s.threads[s.trace[i].id].kind, s.trace[i].id, i)
  }

  /** What happens inside an operation: its effect, or a record it appends itself. */
  predicate OfOperation(e: Event) { e.Effect? || e.Noted? }

  /** Each decision that opens the request is in the trace before position `i`. */
  ghost predicate DecidedBefore(trace: seq<Event>, kind: Kind, id: Id, i: nat)
  {
    && Before(trace, Logged(id, Decision(InnerAction(kind))), i)
    && (kind.Verify? ==> Before(trace, Logged(id, Decision(VerifyRun)), i))
  }

  lemma {:induction false} MovedPoisons(kind: Kind, pc: Pc, healthy: bool, id: Id, c: Choice)
    requires !pc.Done?
    ensures var (_, h, events) := Moved(kind, pc, healthy, id, c);
            && (h ==> healthy)
            && (forall i :: 0 <= i < |events| && events[i] == Poisoned ==> healthy && !h && i == 0)
            && (forall i :: 0 <= i < |events| && events[i].Logged? ==> healthy && i == 0)
            && (forall i :: 0 <= i < |events| ==> !events[i].Noted?)
  {
  }

  lemma {:induction false} StepKeepsPoisonLast(s: State, step: Step)
    requires PoisonLast(s) && Enabled(s, step)
    ensures PoisonLast(After(s, step))
  {
    if step.Move? {
      var t := s.threads[step.id];
      MovedPoisons(t.kind, t.pc, s.healthy, step.id, step.choice);
      hide Moved;
    }
  }

  lemma {:induction false} AlwaysPoisonLast(steps: seq<Step>)
    requires Reached(steps).Some?
    ensures PoisonLast(Reached(steps).value)
    decreases |steps|
  {
    hide PoisonLast, Enabled, After;
    if steps == [] {
      InitialOrdered();
    } else {
      AlwaysPoisonLast(steps[..|steps| - 1]);
      StepKeepsPoisonLast(Reached(steps[..|steps| - 1]).value, steps[|steps| - 1]);
    }
  }

  lemma {:induction false} InitialOrdered()
    ensures PoisonLast(Initial) && EffectsDecided(Initial)
  {
  }

  lemma {:induction false} OfMember(trace: seq<Event>, id: Id, e: Event)
    requires e in Of(trace, id)
    ensures Before(trace, e, |trace|)
    decreases |trace|
  {
    var front := trace[..|trace| - 1];
    if e in Of(front, id) {
      OfMember(front, id, e);
      var j :| 0 <= j < |front| && front[j] == e;
      assert trace[j] == e;
    } else {
      assert trace[|trace| - 1] == e;
    }
  }

  lemma {:induction false} BeforeExtends(trace: seq<Event>, more: seq<Event>, e: Event, i: nat)
    requires Before(trace, e, i) && i <= |trace|
    ensures Before(trace + more, e, i)
  {
    var j :| 0 <= j < i && j < |trace| && trace[j] == e;
    assert (trace + more)[j] == e;
  }

  lemma {:induction false} DecidedExtends(trace: seq<Event>, more: seq<Event>, kind: Kind, id: Id, i: nat)
    requires DecidedBefore(trace, kind, id, i) && i <= |trace|
    ensures DecidedBefore(trace + more, kind, id, i)
  {
    hide Before;
    BeforeExtends(trace, more, Logged(id, Decision(InnerAction(kind))), i);
    if kind.Verify? { BeforeExtends(trace, more, Logged(id, Decision(VerifyRun)), i); }
  }

  lemma {:induction false} OpenedIsDecided(trace: seq<Event>, kind: Kind, id: Id)
    requires Of(trace, id) == Opening(kind, id)
    ensures DecidedBefore(trace, kind, id, |trace|)
  {
    hide Of, Before;
    assert Opening(kind, id)[|Opening(kind, id)| - 1] == Logged(id, Decision(InnerAction(kind)));
    OfMember(trace, id, Logged(id, Decision(InnerAction(kind))));
    if kind.Verify? {
      assert Opening(kind, id)[0] == Logged(id, Decision(VerifyRun));
      OfMember(trace, id, Logged(id, Decision(VerifyRun)));
    }
  }

  /** Effects come only from a request whose decisions are durable. */
  lemma {:induction false} MoveOperates(kind: Kind, pc: Pc, healthy: bool, id: Id, c: Choice, trace: seq<Event>, k: nat)
    requires !pc.Done? && Shown(kind, pc, id, Of(trace, id))
    requires k < |Moved(kind, pc, healthy, id, c).2| && OfOperation(Moved(kind, pc, healthy, id, c).2[k])
    ensures k == 0 && Moved(kind, pc, healthy, id, c).2[k] == Effect(id) && Of(trace, id) == Opening(kind, id)
  {
    hide Of, Opening;
  }

  lemma {:induction false} StepKeepsEffectsDecided(s: State, step: Step)
    requires EffectsDecided(s) && Placed(s) && Enabled(s, step)
    ensures EffectsDecided(After(s, step))
  {
    hide Shown, Of, DecidedBefore, Moved;
    match step
    case Begin(_, _) =>
    case Move(id, c) =>
      var t := s.threads[id];
      var events := Moved(t.kind, t.pc, s.healthy, id, c).2;
      var after := After(s, step);
      assert Shown(t.kind, t.pc, id, Of(s.trace, id));
      forall i | 0 <= i < |after.trace| && OfOperation(after.trace[i])
        ensures var other := after.trace[i].id;
                other in after.threads && DecidedBefore(after.trace, after.threads[other].kind, other, i)
      {
        if i < |s.trace| {
          assert s.trace[i] == after.trace[i];
          DecidedExtends(s.trace, events, s.threads[s.trace[i].id].kind, s.trace[i].id, i);
        } else {
          MoveOperates(t.kind, t.pc, s.healthy, id, c, s.trace, i - |s.trace|);
          OpenedIsDecided(s.trace, t.kind, id);
          DecidedExtends(s.trace, events, t.kind, id, |s.trace|);
        }
      }
    case Note(id, append) =>
      NoteKeepsEffectsDecided(s, id, append);
  }

  lemma {:induction false} NoteKeepsEffectsDecided(s: State, id: Id, append: bool)
    requires EffectsDecided(s) && Placed(s) && Enabled(s, Note(id, append))
    ensures EffectsDecided(After(s, Note(id, append)))
  {
    hide Of, DecidedBefore, Opening;
    var t := s.threads[id];
    var events := if !s.healthy then [] else if append then [Noted(id)] else [Poisoned];
    var after := After(s, Note(id, append));
    NotedAfterOpening(t.kind, t.pc, id, s.trace);
    hide Shown;
    forall i | 0 <= i < |after.trace| && OfOperation(after.trace[i])
      ensures var other := after.trace[i].id;
              other in after.threads && DecidedBefore(after.trace, after.threads[other].kind, other, i)
    {
      if i < |s.trace| {
        assert s.trace[i] == after.trace[i];
        DecidedExtends(s.trace, events, s.threads[s.trace[i].id].kind, s.trace[i].id, i);
      } else {
        DecidedExtends(s.trace, events, t.kind, id, |s.trace|);
      }
    }
  }

  /** A request that is in its operation, or just out of it, has its decisions in the trace. */
  lemma {:induction false} NotedAfterOpening(kind: Kind, pc: Pc, id: Id, trace: seq<Event>)
    requires (pc.Decided? || pc.Ran?) && Shown(kind, pc, id, Of(trace, id))
    ensures DecidedBefore(trace, kind, id, |trace|)
  {
    hide Of, Before;
    var h := Of(trace, id);
    assert h[|Opening(kind, id)| - 1] == Logged(id, Decision(InnerAction(kind)));
    OfMember(trace, id, Logged(id, Decision(InnerAction(kind))));
    if kind.Verify? {
      assert h[0] == Logged(id, Decision(VerifyRun));
      OfMember(trace, id, Logged(id, Decision(VerifyRun)));
    }
  }

  lemma {:induction false} AlwaysEffectsDecided(steps: seq<Step>)
    requires Reached(steps).Some?
    ensures EffectsDecided(Reached(steps).value)
    decreases |steps|
  {
    hide EffectsDecided, Enabled, After, Placed;
    if steps == [] {
      InitialOrdered();
    } else {
      AlwaysEffectsDecided(steps[..|steps| - 1]);
      AlwaysPlaced(steps[..|steps| - 1]);
      StepKeepsEffectsDecided(Reached(steps[..|steps| - 1]).value, steps[|steps| - 1]);
    }
  }

  /**
   Once the sink is poisoned nothing more is logged, and an effect that still runs belongs to a request all of whose
   decisions were durable before: no later-decided effect runs.
   */
  lemma {:induction false} PoisonStopsEffects(steps: seq<Step>, p: nat, i: nat, id: Id)
    requires Reached(steps).Some?
    requires var trace := Reached(steps).value.trace;
             p < i < |trace| && trace[p] == Poisoned && trace[i] == Effect(id)
    ensures var s := Reached(steps).value;
            && (forall j :: p < j < |s.trace| ==> !s.trace[j].Logged? && !s.trace[j].Noted?)
            && id in s.threads && DecidedBefore(s.trace, s.threads[id].kind, id, p)
  {
    AlwaysPoisonLast(steps);
    AlwaysEffectsDecided(steps);
    var s := Reached(steps).value;
    hide Reached;
    var kind := s.threads[id].kind;
    LoggedBeforePoison(s, Logged(id, Decision(InnerAction(kind))), p, i);
    if kind.Verify? { LoggedBeforePoison(s, Logged(id, Decision(VerifyRun)), p, i); }
  }

  lemma {:induction false} LoggedBeforePoison(s: State, e: Event, p: nat, i: nat)
    requires PoisonLast(s) && p < i < |s.trace| && s.trace[p] == Poisoned
    requires e.Logged? && Before(s.trace, e, i)
    ensures Before(s.trace, e, p)
  {
    var j :| 0 <= j < i && j < |s.trace| && s.trace[j] == e;
    assert j < p;
  }
}
