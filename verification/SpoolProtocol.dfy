/**
 The artifact store under interleaving: one `create` at a time holds the maintenance lock, step by step, while writers
 write, fail and are dropped at any moment, and the process may crash and reopen between any two steps.
 */
module SpoolProtocol {
  import opened Wrappers
  import opened Bytes
  import opened MapSums
  import opened SpoolWriter
  import opened Retention

  /** Where the holder of the maintenance lock stands. */
  datatype Phase =
    | Unlocked
    | Scanning(snapshot: set<Name>, now: int, pending: set<Name>, counted: Directory, completedBytes: u64)
    | Evicting(snapshot: set<Name>, queue: seq<Candidate>, projected: nat)
    | Admitted
    | FileMade(id: Name)
    | Registered(id: Name)
    | Withdrawn(id: Name)

  /** `writers` are usable; `failed` are those a write of which failed, not yet dropped. */
  datatype State = State(
    files: Directory, active: set<Name>, writers: map<Name, WriterState>, failed: set<Name>, phase: Phase)

  datatype Step =
    | BeginScan(now: int)
    | ScanEntry(name: Name)
    | ScanDone
    | EvictOldest
    | EvictDone
    | GiveUp
    | MakeFile(id: Name, now: int)
    | Register
    | OutcomeWritten
    | OutcomeLost
    | RemoveWithdrawn(removed: bool)
    | WriteSource(name: Name, source: bytes, disk: Disk, now: int)
    | Drop(name: Name)
    | Crash

  const Empty := State(map[], {}, map[], {}, Unlocked)

  ghost predicate Enabled(s: State, step: Step)
  {
    match step
    case BeginScan(_) => s.phase.Unlocked?
    case ScanEntry(name) => s.phase.Scanning? && name in s.phase.pending
    case ScanDone => s.phase.Scanning? && s.phase.pending == {}
    case EvictOldest => s.phase.Evicting? && s.phase.queue != [] && s.phase.projected > TARGET_BEFORE_NEW
    case EvictDone => s.phase.Evicting? && s.phase.projected <= TARGET_BEFORE_NEW
    case GiveUp => !s.phase.Unlocked? && !s.phase.Registered? && !s.phase.Withdrawn?
    case MakeFile(id, _) => s.phase.Admitted? && ArtifactId(id) && id !in s.files
    case Register => s.phase.FileMade?
    case OutcomeWritten => s.phase.Registered?
    case OutcomeLost => s.phase.Registered?
    case RemoveWithdrawn(_) => s.phase.Withdrawn?
    case WriteSource(name, _, _, _) => name in s.writers
    case Drop(name) => name in s.writers || name in s.failed
    case Crash => true
  }

  /** The names a scan visits: everything that is in the directory when it starts. */
  ghost function After(s: State, step: Step): State
    requires Enabled(s, step)
  {
    match step
    case BeginScan(now) => s.(phase := Scanning(s.active, now, s.files.Keys, map[], 0))
    case ScanEntry(name) => AfterScanEntry(s, name)
    case ScanDone =>
      var projected := SatAdd(s.phase.completedBytes, Reservation(s.phase.snapshot));
      s.(phase := Evicting(s.phase.snapshot, Queue(s.phase.counted), projected))
    case EvictOldest =>
      var oldest := s.phase.queue[0];
      s.(files := s.files - {oldest.name},
         phase := s.phase.(queue := s.phase.queue[1..], projected := SatSub(s.phase.projected, oldest.size)))
    case EvictDone => s.(phase := Admitted)
    case GiveUp => s.(phase := Unlocked)
    case MakeFile(id, now) => s.(files := s.files[id := Entry(true, [], now)], phase := FileMade(id))
    case Register => s.(active := s.active + {s.phase.id}, phase := Registered(s.phase.id))
    case OutcomeWritten => s.(writers := s.writers[s.phase.id := FRESH_WRITER], phase := Unlocked)
    case OutcomeLost => s.(active := s.active - {s.phase.id}, phase := Withdrawn(s.phase.id))
    case RemoveWithdrawn(removed) => s.(files := if removed then s.files - {s.phase.id} else s.files, phase := Unlocked)
    case WriteSource(name, source, disk, now) => AfterWrite(s, name, source, disk, now)
    case Drop(name) => s.(active := s.active - {name}, writers := s.writers - {name}, failed := s.failed - {name})
    case Crash => State(s.files, {}, map[], {}, Unlocked)
  }

  /** One entry of the scan: skipped when active in the snapshot, removed when expired, counted otherwise. */
  ghost function AfterScanEntry(s: State, name: Name): State
    requires s.phase.Scanning? && name in s.phase.pending
  {
    var p := s.phase.(pending := s.phase.pending - {name});
    if name !in s.files || name in p.snapshot || !IsArtifact(name, s.files[name]) then s.(phase := p)
    else
      var e := s.files[name];
      if Expired(e, p.now) then s.(files := s.files - {name}, phase := p)
      else s.(phase := p.(counted := p.counted[name := e], completedBytes := SatAdd(p.completedBytes, SizeOf(e))))
  }

  /** A write lands in the file; a failed one ends the writer's use. */
  ghost function AfterWrite(s: State, name: Name, source: bytes, disk: Disk, now: int): State
    requires name in s.writers
  {
    var (w, r) := Write(s.writers[name], source, disk);
    var files := s.files[name := Entry(true, w.file, now)];
    if r.Some? then s.(files := files, writers := s.writers[name := w])
    else s.(files := files, writers := s.writers - {name}, failed := s.failed + {name})
  }

  /** The state a run from an empty directory reaches; `None` when one of its steps was not possible. */
  ghost function Reached(steps: seq<Step>): Option<State>
  {
    if steps == [] then Some(Empty)
    else
      var last := |steps| - 1;
      match Reached(steps[..last])
      case None => None
      case Some(s) => if Enabled(s, steps[last]) then Some(After(s, steps[last])) else None
  }

  // ------------------------------------------------------------ the invariant

  /** What the artifacts outside `names` and the reservations for `names` come to. */
  ghost function Charge(files: Directory, names: set<Name>): nat
  {
    Sum(files - names, SizeOf) + |names| * RAW_SPOOL_SOURCE_CAP_BYTES
  }

  /** The name being admitted: reserved, with no writer yet. */
  function Registering(p: Phase): set<Name> { if p.Registered? then {p.id} else {} }

  /** The directory, the reservations and the writers, whatever the lock holder does. */
  ghost predicate Booked(
    files: Directory, active: set<Name>, writers: map<Name, WriterState>, failed: set<Name>, registering: set<Name>)
  {
    && Capped(files)
    && active <= files.Keys
    && writers.Keys !! failed !! registering
    && active == writers.Keys + failed + registering
    && Held(files, writers)
    && (forall name :: name in registering ==> files[name].content == [])
    && Charge(files, active) <= ARTIFACT_AGGREGATE_CAP_BYTES
  }

  /** Only the store's artifacts are here, none beyond one writer's cap. */
  ghost predicate Capped(files: Directory)
  {
    forall name :: name in files ==> IsArtifact(name, files[name]) && SizeOf(files[name]) <= RAW_SPOOL_SOURCE_CAP_BYTES
  }

  ghost predicate Held(files: Directory, writers: map<Name, WriterState>)
  {
    forall name :: name in writers ==> name in files && Holds(files[name], writers[name])
  }

  /** A usable writer has counted what its file holds. */
  predicate Holds(e: Entry, w: WriterState) { e.content == w.file && |w.file| == w.bytesWritten }

  function Reservation(snapshot: set<Name>): u64 { Min(|snapshot| * RAW_SPOOL_SOURCE_CAP_BYTES, U64_MAX) }

  /** Mid-scan: everything outside the snapshot is still pending or already counted. */
  ghost predicate ScanKnows(files: Directory, snapshot: set<Name>, pending: set<Name>, counted: Directory, bytes: nat)
  {
    && counted.Keys !! (pending + snapshot)
    && files.Keys <= pending + snapshot + counted.Keys
    && (forall name :: name in counted ==> name in files && counted[name] == files[name])
    && bytes == Min(Sum(counted, SizeOf), U64_MAX)
    && Charge(files, snapshot) <= ARTIFACT_AGGREGATE_CAP_BYTES
  }

  /** Mid-eviction: the queue is what completed artifacts are left, oldest first, and the projection is exact. */
  ghost predicate EvictionKnows(files: Directory, snapshot: set<Name>, queue: seq<Candidate>, projected: nat)
  {
    && Lists(queue, files - snapshot) && ByAge(queue)
    && projected == Charge(files, snapshot)
  }

  /** What the lock holder knows. */
  ghost predicate Known(files: Directory, active: set<Name>, phase: Phase)
  {
    match phase
    case Unlocked => true
    case Scanning(snapshot, _, pending, counted, bytes) =>
      active <= snapshot && ScanKnows(files, snapshot, pending, counted, bytes)
    case Evicting(snapshot, queue, projected) =>
      active <= snapshot && EvictionKnows(files, snapshot, queue, projected)
    case Admitted => Charge(files, active) <= TARGET_BEFORE_NEW
    case FileMade(id) =>
      && id in files && id !in active && files[id].content == []
      && Charge(files, active) <= TARGET_BEFORE_NEW
    case Registered(_) => true
    case Withdrawn(id) => id !in active
  }

  ghost predicate Inv(s: State)
  {
    Booked(s.files, s.active, s.writers, s.failed, Registering(s.phase)) && Known(s.files, s.active, s.phase)
  }

  // ------------------------------------------------------------ how the charge moves

  /** Releasing a reservation can only lower the charge: what it reserved is at least what its file holds. */
  lemma {:induction false} ReleaseLowers(files: Directory, small: set<Name>, big: set<Name>)
    requires Capped(files) && small <= big
    ensures Charge(files, small) <= Charge(files, big)
    decreases |big - small|
  {
    if big - small == {} {
      assert big == small;
    } else {
      var name :| name in big - small;
      var more := small + {name};
      assert big - more == big - small - {name};
      ReleaseLowers(files, more, big);
      assert files - more == files - small - {name};
      if name in files {
        TakeOut(files - small, SizeOf, name);
      } else {
        assert files - more == files - small;
      }
      assert |more| == |small| + 1;
    }
  }

  /** An empty file outside the reservations charges nothing. */
  lemma {:induction false} EmptyIsFree(files: Directory, names: set<Name>, id: Name, now: int)
    requires id !in files && id !in names
    ensures Charge(files[id := Entry(true, [], now)], names) == Charge(files, names)
  {
    PutIn(files - names, SizeOf, id, Entry(true, [], now));
    assert files[id := Entry(true, [], now)] - names == (files - names)[id := Entry(true, [], now)];
  }

  /** Reserving for a file adds at most one cap. */
  lemma {:induction false} ReserveAddsCap(files: Directory, names: set<Name>, id: Name)
    ensures Charge(files, names + {id}) <= Charge(files, names) + RAW_SPOOL_SOURCE_CAP_BYTES
  {
    if id in names {
      assert names + {id} == names;
    } else {
      assert files - (names + {id}) == files - names - {id};
      SumOfPart(files - names, SizeOf, {id});
    }
  }

  /** Removing a file lowers the charge by its size. */
  lemma {:induction false} RemovalLowers(files: Directory, names: set<Name>, id: Name)
    ensures Charge(files - {id}, names) <= Charge(files, names)
    ensures id in files && id !in names ==> Charge(files - {id}, names) == Charge(files, names) - SizeOf(files[id])
  {
    assert files - {id} - names == files - names - {id};
    SumOfPart(files - names, SizeOf, {id});
    if id in files && id !in names { TakeOut(files - names, SizeOf, id); }
  }

  /** What happens inside a reserved file is already charged. */
  lemma {:induction false} WriteIsCharged(files: Directory, names: set<Name>, id: Name, e: Entry)
    requires id in names
    ensures Charge(files[id := e], names) == Charge(files, names)
  {
    assert files[id := e] - names == files - names;
  }

  // ------------------------------------------------------------ what each kind of step keeps

  /** Removing a file nobody holds. */
  lemma {:induction false} RemovalKeepsBooked(s: State, id: Name)
    requires Booked(s.files, s.active, s.writers, s.failed, Registering(s.phase)) && id !in s.active
    ensures Booked(s.files - {id}, s.active, s.writers, s.failed, Registering(s.phase))
  {
    hide Charge, ArtifactId;
    RemovalLowers(s.files, s.active, id);
  }

  lemma {:induction false} ScanCounts(files: Directory, p: Phase, name: Name)
    requires p.Scanning? && ScanKnows(files, p.snapshot, p.pending, p.counted, p.completedBytes)
    requires name in p.pending && name in files && name !in p.snapshot
    ensures ScanKnows(files, p.snapshot, p.pending - {name}, p.counted[name := files[name]],
              SatAdd(p.completedBytes, SizeOf(files[name])))
  {
    hide Charge;
    PutIn(p.counted, SizeOf, name, files[name]);
  }

  lemma {:induction false} ScanRemoves(files: Directory, p: Phase, name: Name)
    requires p.Scanning? && ScanKnows(files, p.snapshot, p.pending, p.counted, p.completedBytes)
    requires name in p.pending && name !in p.snapshot
    ensures ScanKnows(files - {name}, p.snapshot, p.pending - {name}, p.counted, p.completedBytes)
  {
    RemovalLowers(files, p.snapshot, name);
    hide Charge;
  }

  lemma {:induction false} ScanSkips(files: Directory, p: Phase, name: Name)
    requires p.Scanning? && ScanKnows(files, p.snapshot, p.pending, p.counted, p.completedBytes)
    requires name in p.pending && (name !in files || name in p.snapshot)
    ensures ScanKnows(files, p.snapshot, p.pending - {name}, p.counted, p.completedBytes)
  {
    hide Charge;
  }

  lemma {:induction false} EntriesAreArtifacts(s: State, name: Name)
    requires Inv(s) && name in s.files
    ensures IsArtifact(name, s.files[name])
  {
    hide Charge, ArtifactId, Known;
  }

  lemma {:induction false} ScanEntryKeeps(s: State, name: Name)
    requires Inv(s) && Enabled(s, ScanEntry(name))
    ensures Inv(After(s, ScanEntry(name)))
  {
    hide Booked, Capped, IsArtifact, ScanKnows, Charge, ArtifactId, Expired, SatAdd, SizeOf;
    var p := s.phase;
    if name !in s.files || name in p.snapshot {
      ScanSkips(s.files, p, name);
    } else {
      EntriesAreArtifacts(s, name);
      if Expired(s.files[name], p.now) {
        ScanRemoves(s.files, p, name);
        RemovalKeepsBooked(s, name);
      } else {
        ScanCounts(s.files, p, name);
      }
    }
  }

  lemma {:induction false} ScanFound(files: Directory, snapshot: set<Name>, counted: Directory, bytes: nat)
    requires ScanKnows(files, snapshot, {}, counted, bytes)
    ensures EvictionKnows(files, snapshot, Queue(counted), SatAdd(bytes, Reservation(snapshot)))
  {
    hide Lists, ByAge, Queue;
    assert files - snapshot == counted;
  }

  lemma {:induction false} EvictionGoesOn(files: Directory, snapshot: set<Name>, queue: seq<Candidate>, projected: nat)
    requires EvictionKnows(files, snapshot, queue, projected) && queue != []
    ensures queue[0].name in files && queue[0].name !in snapshot
    ensures EvictionKnows(files - {queue[0].name}, snapshot, queue[1..], SatSub(projected, queue[0].size))
  {
    var name := queue[0].name;
    assert name in files - snapshot && queue[0] == CandidateOf(name, (files - snapshot)[name]);
    ListedRest(queue, files - snapshot);
    TailByAge(queue);
    RemovalLowers(files, snapshot, name);
    hide Lists, ByAge, Charge;
    assert files - snapshot - {name} == files - {name} - snapshot;
  }

  lemma {:induction false} EvictOldestKeeps(s: State)
    requires Inv(s) && Enabled(s, EvictOldest)
    ensures Inv(After(s, EvictOldest))
  {
    hide Booked, EvictionKnows;
    EvictionGoesOn(s.files, s.phase.snapshot, s.phase.queue, s.phase.projected);
    RemovalKeepsBooked(s, s.phase.queue[0].name);
  }

  /** Eviction ends with room for one more writer, however many writers were dropped meanwhile. */
  lemma {:induction false} EvictDoneKeeps(s: State)
    requires Inv(s) && Enabled(s, EvictDone)
    ensures Inv(After(s, EvictDone))
  {
    hide Charge, ArtifactId, Lists, ByAge;
    ReleaseLowers(s.files, s.active, s.phase.snapshot);
  }

  lemma {:induction false} MakeFileKeeps(s: State, id: Name, now: int)
    requires Inv(s) && Enabled(s, MakeFile(id, now))
    ensures Inv(After(s, MakeFile(id, now)))
  {
    hide Charge, ArtifactId;
    EmptyIsFree(s.files, s.active, id, now);
  }

  lemma {:induction false} RegisterKeeps(s: State)
    requires Inv(s) && Enabled(s, Register)
    ensures Inv(After(s, Register))
  {
    hide Charge, ArtifactId, Capped;
    ReserveAddsCap(s.files, s.active, s.phase.id);
  }

  lemma {:induction false} OutcomeKeeps(s: State, step: Step)
    requires Inv(s) && Enabled(s, step) && (step.OutcomeWritten? || step.OutcomeLost?)
    ensures Inv(After(s, step))
  {
    hide Charge, ArtifactId;
    ReleaseLowers(s.files, s.active - {s.phase.id}, s.active);
  }

  lemma {:induction false} RemoveWithdrawnKeeps(s: State, removed: bool)
    requires Inv(s) && Enabled(s, RemoveWithdrawn(removed))
    ensures Inv(After(s, RemoveWithdrawn(removed)))
  {
    hide Booked;
    RemovalKeepsBooked(s, s.phase.id);
  }

  /** A write stays inside its reservation. */
  lemma {:induction false} WriteKeeps(s: State, name: Name, source: bytes, disk: Disk, now: int)
    requires Inv(s) && Enabled(s, WriteSource(name, source, disk, now))
    ensures Inv(After(s, WriteSource(name, source, disk, now)))
  {
    hide *;
    WriteKeepsBooked(s, name, source, disk, now);
    NamedByWriter(s, name, source, disk, now);
    WriteKeepsKnown(s, name, Entry(true, Write(s.writers[name], source, disk).0.file, now));
    AfterWriteIs(s, name, source, disk, now);
    InvIs(AfterWrite(s, name, source, disk, now));
  }

  lemma {:induction false} NamedByWriter(s: State, name: Name, source: bytes, disk: Disk, now: int)
    requires Enabled(s, WriteSource(name, source, disk, now))
    ensures name in s.writers
  {
  }

  lemma {:induction false} AfterWriteIs(s: State, name: Name, source: bytes, disk: Disk, now: int)
    requires name in s.writers
    ensures var t := AfterWrite(s, name, source, disk, now);
            && After(s, WriteSource(name, source, disk, now)) == t
            && t.files == s.files[name := Entry(true, Write(s.writers[name], source, disk).0.file, now)]
            && t.active == s.active && t.phase == s.phase
  {
  }

  lemma {:induction false} InvIs(s: State)
    ensures Inv(s) <==>
      Booked(s.files, s.active, s.writers, s.failed, Registering(s.phase)) && Known(s.files, s.active, s.phase)
  {
    hide Booked, Known;
  }

  lemma {:induction false} WriteKeepsBooked(s: State, name: Name, source: bytes, disk: Disk, now: int)
    requires Inv(s) && Enabled(s, WriteSource(name, source, disk, now))
    ensures var t := AfterWrite(s, name, source, disk, now);
            Booked(t.files, t.active, t.writers, t.failed, Registering(t.phase))
  {
    hide Charge, ArtifactId, Known;
    var w := s.writers[name];
    var (w', r) := Write(w, source, disk);
    WriteStaysCapped(w, source, disk);
    WriteIsCharged(s.files, s.active, name, Entry(true, w'.file, now));
    hide Write;
  }

  lemma {:induction false} WriteKeepsKnown(s: State, name: Name, e: Entry)
    requires Inv(s) && name in s.writers
    ensures Known(s.files[name := e], s.active, s.phase)
  {
    hide Charge, ArtifactId, Lists, ByAge, Capped, Holds;
    WriteIsCharged(s.files, s.active, name, e);
    match s.phase
    case Scanning(snapshot, _, _, _, _) => WriteIsCharged(s.files, snapshot, name, e);
    case Evicting(snapshot, _, _) =>
      WriteIsCharged(s.files, snapshot, name, e);
      assert s.files[name := e] - snapshot == s.files - snapshot;
    case _ =>
  }

  lemma {:induction false} DropKeeps(s: State, name: Name)
    requires Inv(s) && Enabled(s, Drop(name))
    ensures Inv(After(s, Drop(name)))
  {
    hide Charge, ArtifactId, Lists, ByAge;
    ReleaseLowers(s.files, s.active - {name}, s.active);
  }

  lemma {:induction false} CrashKeeps(s: State)
    requires Inv(s)
    ensures Inv(After(s, Crash))
  {
    hide Charge, ArtifactId;
    ReleaseLowers(s.files, {}, s.active);
  }

  lemma {:induction false} GiveUpKeeps(s: State)
    requires Inv(s) && Enabled(s, GiveUp)
    ensures Inv(After(s, GiveUp))
  {
  }

  lemma {:induction false} BeginScanKeeps(s: State, now: int)
    requires Inv(s) && Enabled(s, BeginScan(now))
    ensures Inv(After(s, BeginScan(now)))
  {
  }

  lemma {:induction false} StepKeeps(s: State, step: Step)
    requires Inv(s) && Enabled(s, step)
    ensures Inv(After(s, step))
  {
    hide Inv, Enabled;
    match step
    case BeginScan(now) => BeginScanKeeps(s, now);
    case ScanEntry(name) => ScanEntryKeeps(s, name);
    case ScanDone => ScanDoneKeeps(s);
    case EvictOldest => EvictOldestKeeps(s);
    case EvictDone => EvictDoneKeeps(s);
    case GiveUp => GiveUpKeeps(s);
    case MakeFile(id, now) => MakeFileKeeps(s, id, now);
    case Register => RegisterKeeps(s);
    case OutcomeWritten => OutcomeKeeps(s, step);
    case OutcomeLost => OutcomeKeeps(s, step);
    case RemoveWithdrawn(removed) => RemoveWithdrawnKeeps(s, removed);
    case WriteSource(name, source, disk, now) => WriteKeeps(s, name, source, disk, now);
    case Drop(name) => DropKeeps(s, name);
    case Crash => CrashKeeps(s);
  }

  lemma {:induction false} ScanDoneKeeps(s: State)
    requires Inv(s) && Enabled(s, ScanDone)
    ensures Inv(After(s, ScanDone))
  {
    hide Booked;
    assert ScanKnows(s.files, s.phase.snapshot, {}, s.phase.counted, s.phase.completedBytes);
    hide ScanKnows, EvictionKnows;
    ScanFound(s.files, s.phase.snapshot, s.phase.counted, s.phase.completedBytes);
  }

  lemma {:induction false} InvHolds(steps: seq<Step>)
    requires Reached(steps).Some?
    ensures Inv(Reached(steps).value)
    decreases |steps|
  {
    hide Inv, Enabled;
    if steps == [] {
      EmptyInv();
    } else {
      InvHolds(steps[..|steps| - 1]);
      StepKeeps(Reached(steps[..|steps| - 1]).value, steps[|steps| - 1]);
    }
  }

  lemma {:induction false} EmptyInv()
    ensures Inv(Empty)
  {
    assert Empty.files - {} == map[];
  }

  // ------------------------------------------------------------ what every run keeps

  /**
   Quota safety: along every run from an empty directory, whatever writers do while a scan or an eviction is under way
   and wherever the process crashes, completed artifacts and reservations fit one GiB together, so the bytes on disk do,
   no artifact is beyond 64 MiB, and at most sixteen writers are active.
   */
  lemma {:induction false} QuotaSafety(steps: seq<Step>)
    requires Reached(steps).Some?
    ensures var s := Reached(steps).value;
            && Charge(s.files, s.active) <= ARTIFACT_AGGREGATE_CAP_BYTES
            && Sum(s.files, SizeOf) <= ARTIFACT_AGGREGATE_CAP_BYTES
            && (forall name :: name in s.files ==> SizeOf(s.files[name]) <= RAW_SPOOL_SOURCE_CAP_BYTES)
            && |s.active| <= 16
  {
    InvHolds(steps);
    var s := Reached(steps).value;
    hide Inv, Charge, Sum, Reached, ArtifactId;
    WithinQuota(s);
  }

  lemma {:induction false} WithinQuota(s: State)
    requires Inv(s)
    ensures Charge(s.files, s.active) <= ARTIFACT_AGGREGATE_CAP_BYTES
    ensures Sum(s.files, SizeOf) <= ARTIFACT_AGGREGATE_CAP_BYTES
    ensures Capped(s.files) && |s.active| <= 16
  {
    hide Capped, Known, Holds, Charge, Sum;
    ChargeBounds(s.files, s.active);
  }

  lemma {:induction false} ChargeBounds(files: Directory, active: set<Name>)
    requires Capped(files) && Charge(files, active) <= ARTIFACT_AGGREGATE_CAP_BYTES
    ensures Sum(files, SizeOf) <= ARTIFACT_AGGREGATE_CAP_BYTES && |active| <= 16
  {
    ReleaseLowers(files, {}, active);
    assert files - {} == files;
    assert Charge(files, {}) == Sum(files, SizeOf);
    hide Capped, Sum;
  }

  /** No step removes an active artifact or any byte of it. */
  lemma {:induction false} ActiveArtifactsStay(steps: seq<Step>, step: Step, name: Name)
    requires Reached(steps).Some? && Enabled(Reached(steps).value, step)
    requires name in Reached(steps).value.active
    ensures var s := Reached(steps).value;
            var t := After(s, step);
            name in s.files && name in t.files && s.files[name].content <= t.files[name].content
  {
    InvHolds(steps);
    ActiveStays(Reached(steps).value, step, name);
  }

  lemma {:induction false} ActiveStays(s: State, step: Step, name: Name)
    requires Inv(s) && Enabled(s, step) && name in s.active
    ensures var t := After(s, step);
            name in s.files && name in t.files && s.files[name].content <= t.files[name].content
  {
    hide Charge, ArtifactId, Capped, Lists, ByAge, EvictionKnows, ScanKnows, AfterWrite;
    match step
    case EvictOldest =>
      EvictionGoesOn(s.files, s.phase.snapshot, s.phase.queue, s.phase.projected);
    case WriteSource(n, source, disk, now) =>
      WriterWithinCap(s, n);
      WriteGrows(s, n, source, disk, now, name);
    case _ =>
  }

  lemma {:induction false} WriterWithinCap(s: State, n: Name)
    requires Inv(s) && n in s.writers
    ensures n in s.files && Holds(s.files[n], s.writers[n]) && |s.writers[n].file| <= RAW_SPOOL_SOURCE_CAP_BYTES
  {
    hide Charge, ArtifactId, Known;
  }

  lemma {:induction false} WriteGrows(s: State, n: Name, source: bytes, disk: Disk, now: int, name: Name)
    requires n in s.writers && n in s.files && Holds(s.files[n], s.writers[n]) && name in s.files
    requires |s.writers[n].file| <= RAW_SPOOL_SOURCE_CAP_BYTES
    ensures var t := AfterWrite(s, n, source, disk, now);
            name in t.files && s.files[name].content <= t.files[name].content
  {
    WriteStaysCapped(s.writers[n], source, disk);
    hide Write;
  }

  /** The projection never saturates: it is what would be left charged, at every step of every eviction. */
  lemma {:induction false} ProjectionIsExact(steps: seq<Step>)
    requires Reached(steps).Some? && Reached(steps).value.phase.Evicting?
    ensures var s := Reached(steps).value;
            s.phase.projected == Charge(s.files, s.phase.snapshot)
  {
    InvHolds(steps);
    ProjectionWithin(Reached(steps).value);
  }

  lemma {:induction false} ProjectionWithin(s: State)
    requires Inv(s) && s.phase.Evicting?
    ensures s.phase.projected == Charge(s.files, s.phase.snapshot)
  {
    hide Charge, Booked, Lists, ByAge;
  }

  /**
   Nothing is evicted while at most 960 MiB are charged, and each victim was written before every other completed
   artifact that is left, or at the same time and comes before it in byte order.
   */
  lemma {:induction false} VictimIsOldest(steps: seq<Step>, other: Name)
    requires Reached(steps).Some? && Enabled(Reached(steps).value, EvictOldest)
    requires var s := Reached(steps).value; other in s.files && other !in s.phase.snapshot
    ensures var s := Reached(steps).value;
            var victim := s.phase.queue[0].name;
            && Charge(s.files, s.phase.snapshot) > 1_006_632_960
            && victim in s.files && victim !in s.phase.snapshot
            && (|| other == victim
                || s.files[victim].modified < s.files[other].modified
                || (s.files[victim].modified == s.files[other].modified
                    && exists k: nat :: FirstDifference(victim, other, k)))
  {
    InvHolds(steps);
    ProjectionIsExact(steps);
    var s := Reached(steps).value;
    OldestOfAll(s.files - s.phase.snapshot, s.phase.queue, other);
    BytesLessExactly(s.phase.queue[0].name, other);
    hide Reached, BytesLess, FirstDifference, Charge, Lists, ByAge, Booked, Capped;
  }

  lemma {:induction false} OldestOfAll(d: Directory, queue: seq<Candidate>, other: Name)
    requires Lists(queue, d) && ByAge(queue) && queue != [] && other in d
    ensures queue[0].name in d
    ensures other == queue[0].name || Older(CandidateOf(queue[0].name, d[queue[0].name]), CandidateOf(other, d[other]))
  {
    hide Older;
    var i :| 0 <= i < |queue| && queue[i].name == other;
    assert queue[i] == CandidateOf(other, d[other]);
  }

  /** A pass runs out of artifacts above the target exactly when its snapshot held sixteen writers. */
  lemma {:induction false} RefusedWhenFull(steps: seq<Step>)
    requires Reached(steps).Some?
    requires Reached(steps).value.phase.Evicting? && Reached(steps).value.phase.queue == []
    ensures var p := Reached(steps).value.phase;
            p.projected > TARGET_BEFORE_NEW <==> |p.snapshot| >= 16
  {
    InvHolds(steps);
    var s := Reached(steps).value;
    NothingCharged(s.files, s.phase.snapshot);
    QuotaCounts(|s.phase.snapshot|);
    hide Lists, ByAge, Capped, Charge;
  }

  lemma {:induction false} NothingCharged(files: Directory, snapshot: set<Name>)
    requires Lists([], files - snapshot)
    ensures Charge(files, snapshot) == |snapshot| * RAW_SPOOL_SOURCE_CAP_BYTES
  {
    assert files - snapshot == map[];
  }
}
