/** The execution registry, and the runners that register a child and must remove it on every way out. */
module Executions {
  import opened Wrappers
  import opened Bytes

  type Capability = bytes
  type ExecutionId = bytes

  datatype ExecutionKind = Process | Git | Probe

  datatype ExecutionRecord = ExecutionRecord(
    executionId: ExecutionId, workspace: Capability, processGroup: int, kind: ExecutionKind)

  type Records = map<ExecutionId, ExecutionRecord>

  // ------------------------------------------------------------ identifiers

  /** `ex_<pid>_<sequence>`. */
  function IdOf(pid: nat, sequence: nat): ExecutionId { "ex_" + Decimal(pid) + "_" + Decimal(sequence) }

  /** Different sequence numbers give different identifiers. */
  lemma {:induction false} IdsDiffer(pid: nat, a: nat, b: nat)
    requires IdOf(pid, a) == IdOf(pid, b)
    ensures a == b
  {
    var front := "ex_" + Decimal(pid) + "_";
    assert IdOf(pid, a)[|front|..] == Decimal(a) && IdOf(pid, b)[|front|..] == Decimal(b);
    DecimalValue(a);
    DecimalValue(b);
  }

  ghost predicate Issued(id: ExecutionId, pid: nat, next: nat) { exists n :: 0 <= n < next && id == IdOf(pid, n) }

  lemma {:induction false} NextIsNew(pid: nat, next: nat)
    ensures !Issued(IdOf(pid, next), pid, next)
  {
    if n :| 0 <= n < next && IdOf(pid, next) == IdOf(pid, n) { IdsDiffer(pid, next, n); }
  }

  lemma {:induction false} IssuedStays(id: ExecutionId, pid: nat, next: nat)
    ensures Issued(id, pid, next) ==> Issued(id, pid, next + 1)
    ensures Issued(IdOf(pid, next), pid, next + 1)
  {
    if Issued(id, pid, next) {
      var n :| 0 <= n < next && id == IdOf(pid, n);
      assert 0 <= n < next + 1 && id == IdOf(pid, n);
    }
  }

  // ------------------------------------------------------------ sorting

  function InsertId(id: ExecutionId, ids: seq<ExecutionId>): seq<ExecutionId>
  {
    if ids == [] || BytesLess(id, ids[0]) then [id] + ids else [ids[0]] + InsertId(id, ids[1..])
  }

  function SortIds(ids: seq<ExecutionId>): seq<ExecutionId>
  {
    if ids == [] then [] else InsertId(ids[0], SortIds(ids[1..]))
  }

  ghost predicate Ascending(ids: seq<ExecutionId>)
  {
    forall i, j :: 0 <= i < j < |ids| ==> BytesLess(ids[i], ids[j])
  }

  ghost predicate Holds(ids: seq<ExecutionId>, s: set<ExecutionId>)
  {
    (forall i :: 0 <= i < |ids| ==> ids[i] in s) && forall id :: id in s ==> id in ids
  }

  lemma {:induction false} InsertSorts(id: ExecutionId, ids: seq<ExecutionId>, s: set<ExecutionId>)
    requires Ascending(ids) && Holds(ids, s) && id !in s
    ensures Ascending(InsertId(id, ids)) && Holds(InsertId(id, ids), s + {id})
    decreases |ids|
  {
    if ids != [] {
      assert ids == [ids[0]] + ids[1..];
      BytesOrder(id, ids[0], id);
      if BytesLess(id, ids[0]) {
        forall i | 0 <= i < |ids| ensures BytesLess(id, ids[i]) { BytesOrder(id, ids[0], ids[i]); }
      } else {
        assert ids[0] in s;
        HeadOut(ids, s);
        InsertSorts(id, ids[1..], s - {ids[0]});
        var t := InsertId(id, ids[1..]);
        forall j | 0 <= j < |t| ensures BytesLess(ids[0], t[j]) {
          assert t[j] in s - {ids[0]} + {id};
          if t[j] != id { assert t[j] in ids[1..]; }
        }
        assert s - {ids[0]} + {id} + {ids[0]} == s + {id};
      }
    }
  }

  lemma {:induction false} HeadOut(ids: seq<ExecutionId>, s: set<ExecutionId>)
    requires ids != [] && Ascending(ids) && Holds(ids, s)
    ensures Ascending(ids[1..]) && Holds(ids[1..], s - {ids[0]})
  {
    forall i | 0 <= i < |ids[1..]| ensures ids[1..][i] in s - {ids[0]} {
      assert BytesLess(ids[0], ids[i + 1]);
      BytesOrder(ids[0], ids[0], ids[0]);
    }
    forall id | id in s - {ids[0]} ensures id in ids[1..] {
      var i :| 0 <= i < |ids| && ids[i] == id;
      assert ids[1..][i - 1] == id;
    }
  }

  /** A set has one ascending listing. */
  lemma {:induction false} AscendingIsUnique(a: seq<ExecutionId>, b: seq<ExecutionId>, s: set<ExecutionId>)
    requires Ascending(a) && Ascending(b) && Holds(a, s) && Holds(b, s)
    ensures a == b
    decreases |a|
  {
    assert |a| > 0 ==> a[0] in a;
    assert |b| > 0 ==> b[0] in b;
    if a != [] && b != [] {
      HeadsAgree(a, b, s);
      HeadOut(a, s);
      HeadOut(b, s);
      hide *;
      AscendingIsUnique(a[1..], b[1..], s - {a[0]});
      assert a == [a[0]] + a[1..] && b == [b[0]] + b[1..];
    }
  }

  lemma {:induction false} HeadsAgree(a: seq<ExecutionId>, b: seq<ExecutionId>, s: set<ExecutionId>)
    requires a != [] && b != [] && Ascending(a) && Ascending(b) && Holds(a, s) && Holds(b, s)
    ensures a[0] == b[0]
  {
    hide BytesLess;
    assert a[0] in s && b[0] in s;
    var i :| 0 <= i < |b| && b[i] == a[0];
    var j :| 0 <= j < |a| && a[j] == b[0];
    BytesOrder(a[0], b[0], a[0]);
    FirstIsLeast(a, j);
    FirstIsLeast(b, i);
  }

  lemma {:induction false} FirstIsLeast(ids: seq<ExecutionId>, j: nat)
    requires Ascending(ids) && j < |ids|
    ensures j == 0 || BytesLess(ids[0], ids[j])
  {
  }

  // ------------------------------------------------------------ the registry

  function OfWorkspace(records: Records, workspace: Capability): set<ExecutionId>
  {
    set id | id in records && records[id].workspace == workspace
  }

  /** Every record is under its own identifier, one issued before. */
  ghost predicate WellKept(records: Records, pid: nat, next: nat)
  {
    forall id :: id in records ==> Issued(id, pid, next) && records[id].executionId == id
  }

  class ExecutionRegistry {
    const pid: nat
    var next: nat
    var records: Records

    constructor (processId: nat)
      ensures pid == processId && next == 1 && records == map[] && Valid()
    {
      pid, next, records := processId, 1, map[];
    }

    ghost predicate Valid()
      reads this
    {
      WellKept(records, pid, next)
    }

    method Register(workspace: Capability, processGroup: int, kind: ExecutionKind) returns (record: ExecutionRecord)
      requires Valid()
      modifies this
      ensures Valid() && next == old(next) + 1
      ensures record == ExecutionRecord(IdOf(pid, old(next)), workspace, processGroup, kind)
      ensures record.executionId !in old(records) && records == old(records)[record.executionId := record]
    {
      var id := IdOf(pid, next);
      NextIsNew(pid, next);
      forall other ensures Issued(other, pid, next) ==> Issued(other, pid, next + 1) { IssuedStays(other, pid, next); }
      IssuedStays(id, pid, next);
      next := next + 1;
      record := ExecutionRecord(id, workspace, processGroup, kind);
      records := records[id := record];
    }

    method Remove(id: ExecutionId) returns (removed: Option<ExecutionRecord>)
      requires Valid()
      modifies this`records
      ensures Valid() && records == old(records) - {id}
      ensures removed == if id in old(records) then Some(old(records)[id]) else None
    {
      removed := if id in records then Some(records[id]) else None;
      records := records - {id};
    }

    /** The identifiers of a workspace, whatever order the records come in, sorted. */
    method IdsForWorkspace(workspace: Capability) returns (ids: seq<ExecutionId>)
      requires Valid()
      ensures Ascending(ids) && Holds(ids, OfWorkspace(records, workspace))
    {
      hide BytesLess, SortIds, Ascending, Holds, WellKept;
      var found := [];
      var rest := records.Keys;
      NothingFound(OfWorkspace(records, workspace) - rest);
      while rest != {}
        invariant rest <= records.Keys
        invariant Ascending(SortIds(found))
        invariant Holds(SortIds(found), OfWorkspace(records, workspace) - rest)
        decreases |rest|
      {
        var id :| id in rest;
        KeptUnderItsId(records, pid, next, id);
        assert rest - {id} + {id} == rest;
        rest := rest - {id};
        if records[id].workspace == workspace {
          FoundOne(id, found, OfWorkspace(records, workspace) - (rest + {id}));
          assert OfWorkspace(records, workspace) - (rest + {id}) + {id} == OfWorkspace(records, workspace) - rest;
          found := [records[id].executionId] + found;
        } else {
          assert OfWorkspace(records, workspace) - rest == OfWorkspace(records, workspace) - (rest + {id});
        }
      }
      ids := SortIds(found);
      assert OfWorkspace(records, workspace) - {} == OfWorkspace(records, workspace);
    }
  }

  lemma {:induction false} NothingFound(s: set<ExecutionId>)
    requires s == {}
    ensures Ascending(SortIds([])) && Holds(SortIds([]), s)
  {
  }

  lemma {:induction false} FoundOne(id: ExecutionId, found: seq<ExecutionId>, s: set<ExecutionId>)
    requires Ascending(SortIds(found)) && Holds(SortIds(found), s) && id !in s
    ensures Ascending(SortIds([id] + found)) && Holds(SortIds([id] + found), s + {id})
  {
    InsertSorts(id, SortIds(found), s);
    assert ([id] + found)[1..] == found;
  }

  lemma {:induction false} KeptUnderItsId(records: Records, pid: nat, next: nat, id: ExecutionId)
    requires WellKept(records, pid, next) && id in records
    ensures records[id].executionId == id
  {
  }

  // ------------------------------------------------------------ one runner at a time

  datatype CaptureEnd = CapturedOutput | TimedOut | OverLimit | CaptureBroken | SpoolBroken

  /** How a run goes where its code can go two ways. */
  datatype Fate = Fate(spawned: bool, created: bool, headerWritten: bool, capture: CaptureEnd, finished: bool)

  datatype RunResult = Succeeded | SpawnFailed | SpoolFailed | CaptureFailed(end: CaptureEnd)

  /** `run_git_command_with_budget_and_private_git_config`; `during` is what the registry held while the child ran. */
  method RunGitCommand(registry: ExecutionRegistry, workspace: Capability, processGroup: int, fate: Fate)
    returns (r: RunResult, ghost during: Records)
    requires registry.Valid()
    modifies registry
    ensures registry.Valid() && registry.records == old(registry.records)
    ensures fate.spawned ==>
              var id := IdOf(registry.pid, old(registry.next));
              && id !in old(registry.records)
              && during == old(registry.records)[id := ExecutionRecord(id, workspace, processGroup, Git)]
    ensures r == Succeeded <==> fate.spawned && fate.created && fate.capture.CapturedOutput? && fate.finished
  {
    if !fate.spawned { return SpawnFailed, registry.records; }
    var record := registry.Register(workspace, processGroup, Git);
    during := registry.records;
    Restored(old(registry.records), record);
    if !fate.created {
      var _ := registry.Remove(record.executionId);
      return SpoolFailed, during;
    }
    if !fate.capture.CapturedOutput? {
      var _ := registry.Remove(record.executionId);
      return CaptureFailed(fate.capture), during;
    }
    var _ := registry.Remove(record.executionId);
    if !fate.finished { return SpoolFailed, during; }
    return Succeeded, during;
  }

  /** `run_process` from the launch to the end of its worker. */
  method RunProcess(registry: ExecutionRegistry, workspace: Capability, processGroup: int, fate: Fate)
    returns (r: RunResult, ghost during: Records)
    requires registry.Valid()
    modifies registry
    ensures registry.Valid() && registry.records == old(registry.records)
    ensures fate.spawned ==>
              var id := IdOf(registry.pid, old(registry.next));
              && id !in old(registry.records)
              && during == old(registry.records)[id := ExecutionRecord(id, workspace, processGroup, Process)]
    ensures r == Succeeded <==> fate.spawned && fate.created && fate.capture.CapturedOutput? && fate.finished
  {
    if !fate.spawned { return SpawnFailed, registry.records; }
    var record := registry.Register(workspace, processGroup, Process);
    during := registry.records;
    Restored(old(registry.records), record);
    if !fate.created {
      var _ := registry.Remove(record.executionId);
      return SpoolFailed, during;
    }
    if fate.capture != CapturedOutput && fate.capture != SpoolBroken {
      var _ := registry.Remove(record.executionId);
      return CaptureFailed(fate.capture), during;
    }
    var _ := registry.Remove(record.executionId);
    if fate.capture == SpoolBroken || !fate.finished { return SpoolFailed, during; }
    return Succeeded, during;
  }

  /** The staged half of a checkpoint diff, whose header is written between registering and capturing. */
  method RunStagedPatch(registry: ExecutionRegistry, workspace: Capability, processGroup: int, fate: Fate)
    returns (r: RunResult)
    requires registry.Valid()
    modifies registry
    ensures registry.Valid()
    ensures registry.records == old(registry.records) <==> !(fate.spawned && fate.created && !fate.headerWritten)
  {
    if !fate.spawned { return SpawnFailed; }
    var record := registry.Register(workspace, processGroup, Git);
    Restored(old(registry.records), record);
    if !fate.created {
      var _ := registry.Remove(record.executionId);
      return SpoolFailed;
    }
    if !fate.headerWritten {
      assert record.executionId in registry.records;
      return SpoolFailed;
    }
    var _ := registry.Remove(record.executionId);
    if !fate.capture.CapturedOutput? { return CaptureFailed(fate.capture); }
    return Succeeded;
  }

  lemma {:induction false} Restored(records: Records, record: ExecutionRecord)
    requires record.executionId !in records
    ensures records[record.executionId := record] - {record.executionId} == records
  {
  }

  // ------------------------------------------------------------ many runners, interleaved

  datatype Runner = GitRunner | ProcessRunner | StagedRunner

  /** A runner's place: its child is up from `Launched` on, its record kept until `Leaving` removes it. */
  datatype Pc =
    | Launched(processGroup: int)
    | Registered(id: ExecutionId, processGroup: int)
    | Capturing(id: ExecutionId, processGroup: int)
    | Leaving(id: ExecutionId, processGroup: int)
    | Left
    | LeftWithoutRemoving(id: ExecutionId, processGroup: int)

  datatype Thread = Thread(runner: Runner, workspace: Capability, pc: Pc)

  datatype State = State(pid: nat, next: nat, records: Records, threads: map<nat, Thread>)

  datatype Step =
    | Launch(t: nat, runner: Runner, workspace: Capability, processGroup: int)
    | Register(t: nat)
    | Create(t: nat, created: bool, headerWritten: bool)
    | EndCapture(t: nat)
    | Remove(t: nat)

  predicate Enabled(s: State, step: Step)
  {
    match step
    case Launch(t, _, _, _) => t !in s.threads
    case Register(t) => t in s.threads && s.threads[t].pc.Launched?
    case Create(t, _, _) => t in s.threads && s.threads[t].pc.Registered?
    case EndCapture(t) => t in s.threads && s.threads[t].pc.Capturing?
    case Remove(t) => t in s.threads && s.threads[t].pc.Leaving?
  }

  function KindOf(r: Runner): ExecutionKind { if r.ProcessRunner? then Process else Git }

  /** After the writer was asked for: a runner without one removes its record; a failed header leaves it behind. */
  function Created(th: Thread, created: bool, headerWritten: bool): Pc
    requires th.pc.Registered?
  {
    if !created then Leaving(th.pc.id, th.pc.processGroup)
    else if th.runner.StagedRunner? && !headerWritten then LeftWithoutRemoving(th.pc.id, th.pc.processGroup)
    else Capturing(th.pc.id, th.pc.processGroup)
  }

  function After(s: State, step: Step): State
    requires Enabled(s, step)
  {
    match step
    case Launch(t, runner, workspace, processGroup) =>
      s.(threads := s.threads[t := Thread(runner, workspace, Launched(processGroup))])
    case Register(t) =>
      var th := s.threads[t];
      var id := IdOf(s.pid, s.next);
      s.(next := s.next + 1,
         records := s.records[id := ExecutionRecord(id, th.workspace, th.pc.processGroup, KindOf(th.runner))],
         threads := s.threads[t := th.(pc := Registered(id, th.pc.processGroup))])
    case Create(t, created, headerWritten) =>
      s.(threads := s.threads[t := s.threads[t].(pc := Created(s.threads[t], created, headerWritten))])
    case EndCapture(t) =>
      var pc := s.threads[t].pc;
      s.(threads := s.threads[t := s.threads[t].(pc := Leaving(pc.id, pc.processGroup))])
    case Remove(t) =>
      s.(records := s.records - {s.threads[t].pc.id}, threads := s.threads[t := s.threads[t].(pc := Left)])
  }

  function StateAfter(pid: nat, steps: seq<Step>): Option<State>
  {
    if steps == [] then Some(State(pid, 1, map[], map[]))
    else
      var last := |steps| - 1;
      match StateAfter(pid, steps[..last])
      case None => None
      case Some(s) => if Enabled(s, steps[last]) then Some(After(s, steps[last])) else None
  }

  /** A runner that has registered and not removed. */
  predicate InFlight(th: Thread) { !th.pc.Launched? && !th.pc.Left? }

  /** Its record, as registered. */
  function RecordOf(th: Thread): ExecutionRecord
    requires InFlight(th)
  {
    var kind := match th.runner case ProcessRunner => Process case _ => Git;
    ExecutionRecord(th.pc.id, th.workspace, th.pc.processGroup, kind)
  }

  predicate Owns(threads: map<nat, Thread>, t: nat, id: ExecutionId)
  {
    t in threads && InFlight(threads[t]) && threads[t].pc.id == id
  }

  /** The registry holds exactly the records of the runners in flight, each under an identifier of its own. */
  ghost predicate Conserved(s: State)
  {
    && WellKept(s.records, s.pid, s.next)
    && Matched(s.records, s.threads)
    && (forall t :: t in s.threads && s.threads[t].pc.LeftWithoutRemoving? ==> s.threads[t].runner.StagedRunner?)
  }

  ghost predicate Matched(records: Records, threads: map<nat, Thread>)
  {
    && (forall t, id :: Owns(threads, t, id) ==> id in records && records[id] == RecordOf(threads[t]))
    && (forall id :: id in records ==> exists t :: Owns(threads, t, id))
    && (forall t, u, id :: Owns(threads, t, id) && Owns(threads, u, id) ==> t == u)
  }

  lemma {:induction false} NextStaysWellKept(records: Records, pid: nat, next: nat, record: ExecutionRecord)
    requires WellKept(records, pid, next) && record.executionId == IdOf(pid, next)
    ensures record.executionId !in records
    ensures WellKept(records[record.executionId := record], pid, next + 1)
  {
    NextIsNew(pid, next);
    forall other ensures Issued(other, pid, next) ==> Issued(other, pid, next + 1) { IssuedStays(other, pid, next); }
    IssuedStays(record.executionId, pid, next);
    hide Issued, IdOf;
  }

  lemma {:induction false} RegisterMatches(records: Records, threads: map<nat, Thread>, t: nat, th: Thread)
    requires Matched(records, threads) && t in threads && !InFlight(threads[t])
    requires InFlight(th) && th.pc.id !in records
    ensures Matched(records[th.pc.id := RecordOf(th)], threads[t := th])
  {
    var after := threads[t := th];
    forall u, id ensures Owns(after, u, id) <==> (if u == t then id == th.pc.id else Owns(threads, u, id)) {}
    assert Owns(after, t, th.pc.id);
    forall id | id in records ensures exists u :: Owns(after, u, id) {
      var u :| Owns(threads, u, id);
      assert Owns(after, u, id);
    }
    hide Owns;
  }

  lemma {:induction false} RemoveMatches(records: Records, threads: map<nat, Thread>, t: nat, th: Thread)
    requires Matched(records, threads) && t in threads && InFlight(threads[t]) && !InFlight(th)
    ensures Matched(records - {threads[t].pc.id}, threads[t := th])
  {
    var after, gone := threads[t := th], threads[t].pc.id;
    assert Owns(threads, t, gone);
    forall u, id ensures Owns(after, u, id) <==> (u != t && Owns(threads, u, id)) {}
    forall id | id in records && id != gone ensures exists u :: Owns(after, u, id) {
      var u :| Owns(threads, u, id);
      assert Owns(after, u, id);
    }
    hide Owns;
  }

  /** A runner that goes on without touching the registry keeps its record. */
  lemma {:induction false} MoveMatches(records: Records, threads: map<nat, Thread>, t: nat, th: Thread)
    requires Matched(records, threads)
    requires if t in threads then
               InFlight(th) == InFlight(threads[t]) && (InFlight(th) ==> RecordOf(th) == RecordOf(threads[t]))
             else !InFlight(th)
    ensures Matched(records, threads[t := th])
  {
    var after := threads[t := th];
    forall u, id ensures Owns(after, u, id) <==> Owns(threads, u, id) {
      if u == t && InFlight(th) { assert RecordOf(th).executionId == th.pc.id; }
    }
    forall u, id | Owns(after, u, id) ensures RecordOf(after[u]) == RecordOf(threads[u]) {}
    forall id | id in records ensures exists u :: Owns(after, u, id) {
      var u :| Owns(threads, u, id);
      assert Owns(after, u, id);
    }
    hide Owns;
  }

  lemma {:induction false} RegisterConserves(s: State, t: nat)
    requires Conserved(s) && Enabled(s, Register(t))
    ensures Conserved(After(s, Register(t)))
  {
    var th := s.threads[t].(pc := Registered(IdOf(s.pid, s.next), s.threads[t].pc.processGroup));
    NextStaysWellKept(s.records, s.pid, s.next, RecordOf(th));
    RegisterMatches(s.records, s.threads, t, th);
    hide WellKept, Matched, IdOf;
  }

  lemma {:induction false} RemoveConserves(s: State, t: nat)
    requires Conserved(s) && Enabled(s, Remove(t))
    ensures Conserved(After(s, Remove(t)))
  {
    RemoveMatches(s.records, s.threads, t, s.threads[t].(pc := Left));
    hide Matched, Issued;
  }

  lemma {:induction false} MoveConserves(s: State, step: Step)
    requires Conserved(s) && Enabled(s, step) && !step.Register? && !step.Remove?
    ensures Conserved(After(s, step))
  {
    var after := After(s, step);
    MoveMatches(s.records, s.threads, step.t, after.threads[step.t]);
    assert after.threads == s.threads[step.t := after.threads[step.t]];
    hide WellKept, Matched;
  }

  /**
   Conservation: in every interleaving of the git runner, process workers and the checkpoint's staged half, the registry
   is exactly the set of executions in flight. Each is removed on every way out but one: a failed header write.
   */
  lemma {:induction false} AlwaysConserved(pid: nat, steps: seq<Step>)
    requires StateAfter(pid, steps).Some?
    ensures Conserved(StateAfter(pid, steps).value)
    decreases |steps|
  {
    hide Conserved, Enabled, After;
    if steps == [] {
      NothingToConserve(pid);
    } else {
      AlwaysConserved(pid, steps[..|steps| - 1]);
      StepConserves(StateAfter(pid, steps[..|steps| - 1]).value, steps[|steps| - 1]);
    }
  }

  lemma {:induction false} NothingToConserve(pid: nat)
    ensures Conserved(State(pid, 1, map[], map[]))
  {
  }

  lemma {:induction false} StepConserves(s: State, step: Step)
    requires Conserved(s) && Enabled(s, step)
    ensures Conserved(After(s, step))
  {
    hide Conserved, After, Enabled;
    match step
    case Register(t) => RegisterConserves(s, t);
    case Remove(t) => RemoveConserves(s, t);
    case _ => MoveConserves(s, step);
  }

  /** A workspace is listed an identifier exactly when one of its runners is in flight under it. */
  lemma {:induction false} ListedExactly(pid: nat, steps: seq<Step>, workspace: Capability,
          ids: seq<ExecutionId>, id: ExecutionId)
    requires StateAfter(pid, steps).Some?
    requires Holds(ids, OfWorkspace(StateAfter(pid, steps).value.records, workspace))
    ensures var s := StateAfter(pid, steps).value;
            id in ids <==>
              exists t ::
                && t in s.threads && InFlight(s.threads[t])
                && s.threads[t].workspace == workspace && s.threads[t].pc.id == id
  {
    AlwaysConserved(pid, steps);
    var s := StateAfter(pid, steps).value;
    hide StateAfter, WellKept;
    if id in ids {
      var t :| Owns(s.threads, t, id);
      assert s.records[id] == RecordOf(s.threads[t]);
    }
    if t :| t in s.threads && InFlight(s.threads[t])
            && s.threads[t].workspace == workspace && s.threads[t].pc.id == id {
      assert Owns(s.threads, t, id);
      assert id in OfWorkspace(s.records, workspace);
    }
  }

  /** The failed header write of a runner. */
  function HeaderFails(t: nat): Step { Create(t, true, false) }

  /**
   Where a runner is, told from the steps of the run: a failed header write of a staged one, and nothing else, strands
   it.
   */
  ghost predicate Told(s: State, steps: seq<Step>, t: nat)
  {
    if t !in s.threads || s.threads[t].pc.Launched? || s.threads[t].pc.Registered? then HeaderFails(t) !in steps
    else s.threads[t].pc.LeftWithoutRemoving? <==> s.threads[t].runner.StagedRunner? && HeaderFails(t) in steps
  }

  lemma {:induction false} StepTells(s: State, steps: seq<Step>, step: Step, t: nat)
    requires Enabled(s, step) && Told(s, steps, t)
    ensures Told(After(s, step), steps + [step], t)
  {
    assert HeaderFails(t) in steps + [step] <==> HeaderFails(t) in steps || HeaderFails(t) == step;
    match step
    case Register(_) => hide IdOf;
    case _ =>
  }

  /** In every run a runner is stranded exactly when it is the staged one and its header write failed. */
  lemma {:induction false} StrandedExactly(pid: nat, steps: seq<Step>, t: nat)
    requires StateAfter(pid, steps).Some?
    ensures Told(StateAfter(pid, steps).value, steps, t)
    decreases |steps|
  {
    hide Told, Enabled, After;
    if steps == [] {
      NothingTold(pid, t);
    } else {
      var front := steps[..|steps| - 1];
      StrandedExactly(pid, front, t);
      StepTells(StateAfter(pid, front).value, front, steps[|steps| - 1], t);
      assert front + [steps[|steps| - 1]] == steps;
    }
  }

  lemma {:induction false} NothingTold(pid: nat, t: nat)
    ensures Told(State(pid, 1, map[], map[]), [], t)
  {
  }

  predicate AllLeft(s: State)
  {
    forall t :: t in s.threads ==> s.threads[t].pc.Left? || s.threads[t].pc.LeftWithoutRemoving?
  }

  /** A staged runner whose header write failed somewhere in the run. */
  ghost predicate Stranded(s: State, steps: seq<Step>, t: nat)
  {
    t in s.threads && s.threads[t].runner.StagedRunner? && HeaderFails(t) in steps
  }

  /**
   When every runner has left, the identifiers still registered are exactly those of the staged runners whose header
   write failed: the registry is empty exactly when none did.
   */
  lemma {:induction false} OnlyHeadersLeak(pid: nat, steps: seq<Step>)
    requires StateAfter(pid, steps).Some? && AllLeft(StateAfter(pid, steps).value)
    ensures var s := StateAfter(pid, steps).value;
            && (forall id :: id in s.records <==> exists t :: Stranded(s, steps, t) && Owns(s.threads, t, id))
            && (s.records == map[] <==> forall t :: !Stranded(s, steps, t))
  {
    AlwaysConserved(pid, steps);
    var s := StateAfter(pid, steps).value;
    forall t | t in s.threads ensures Stranded(s, steps, t) <==> InFlight(s.threads[t]) {
      StrandedExactly(pid, steps, t);
    }
    hide StateAfter, WellKept, Stranded;
    forall t | Stranded(s, steps, t) ensures exists id :: id in s.records && Owns(s.threads, t, id) {
      StrandedRuns(s, steps, t);
      assert Owns(s.threads, t, s.threads[t].pc.id);
    }
    forall id | id in s.records ensures exists t :: Stranded(s, steps, t) && Owns(s.threads, t, id) {
      var t :| Owns(s.threads, t, id);
      assert Stranded(s, steps, t);
    }
  }

  lemma {:induction false} StrandedRuns(s: State, steps: seq<Step>, t: nat)
    requires Stranded(s, steps, t)
    ensures t in s.threads
  {
  }
}
