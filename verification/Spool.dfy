/** The artifact store: admission of a writer, the retention pass, and bounded reads. */
module Spool {
  import opened Wrappers
  import opened Bytes
  import opened MapSums
  import opened SpoolWriter
  import opened Retention

  const ARTIFACT_READ_MAX_BYTES: nat := 1024 * 1024
  const I64_MAX: nat := 0x7FFF_FFFF_FFFF_FFFF
  const ID_ATTEMPTS: nat := 8

  predicate ExecutionId(id: bytes)
  {
    StartsWith(id, "ex_") && |id| > 3 && |id| <= 96 && forall i :: 3 <= i < |id| ==> IdByte(id[i])
  }

  predicate MediaType(t: bytes)
  {
    t != [] && |t| <= 255 && forall i :: 0 <= i < |t| ==> 0x20 <= t[i] as int < 0x7F
  }

  /** Which of a call's audit appends succeed. */
  datatype Audits = Audits(cleanupDecision: bool, cleanupOutcome: bool, decision: bool, outcome: bool)

  datatype StoreState = StoreState(files: Directory, active: set<Name>, issued: set<bytes>)

  // ------------------------------------------------------------ admission, as a function

  /** `create_file`: the first proposed name that is not taken, among eight. */
  function FreeName(files: Directory, ids: seq<Name>, attempts: nat): (id: Option<Name>)
    ensures id.Some? ==> id.value in ids && id.value !in files
    ensures id.None? ==> forall i :: 0 <= i < |ids| && i < attempts ==> ids[i] in files
  {
    if ids == [] || attempts == 0 then None
    else if ids[0] !in files then Some(ids[0])
    else FreeName(files, ids[1..], attempts - 1)
  }

  /** `enforce_retention`: the pass between its two audit records. */
  ghost function Maintain(s: StoreState, now: int, audits: Audits): (StoreState, Result<(), SpoolError>)
  {
    if !audits.cleanupDecision then (s, Err(AuditUnavailable))
    else
      var (kept, r) := Retain(s.files, s.active, now);
      (s.(files := kept), if audits.cleanupOutcome then r else Err(AuditUnavailable))
  }

  /** What follows retention: the duplicate check, the audit bracket, the file and the registration. */
  function Admit(s: StoreState, executionId: bytes, ids: seq<Name>, now: int, audits: Audits)
    : (StoreState, Result<Name, SpoolError>)
  {
    if executionId in s.issued then (s, Err(DuplicateExecution))
    else if !audits.decision then (s, Err(AuditUnavailable))
    else match FreeName(s.files, ids, ID_ATTEMPTS)
      case None => (s, Err(if audits.outcome then Io else AuditUnavailable))
      case Some(id) =>
        if !audits.outcome then (s.(active := s.active - {id}), Err(AuditUnavailable))
        else (StoreState(s.files[id := Entry(true, [], now)], s.active + {id}, s.issued + {executionId}), Ok(id))
  }

  /** The store after `create`, and the new artifact's name. */
  ghost function AfterCreate(
    s: StoreState, executionId: bytes, mediaType: bytes, ids: seq<Name>, now: int, audits: Audits
  ) : (StoreState, Result<Name, SpoolError>)
  {
    if !ExecutionId(executionId) then (s, Err(InvalidExecutionId))
    else if !MediaType(mediaType) then (s, Err(InvalidMediaType))
    else
      var (maintained, r) := Maintain(s, now, audits);
      match r
      case Err(e) => (maintained, Err(e))
      case Ok(_) => Admit(maintained, executionId, ids, now, audits)
  }

  // ------------------------------------------------------------ reads, as a function

  datatype ReadResult = ReadResult(data: bytes, nextOffset: u64, eof: bool)

  /** How many bytes one `read` delivers: at least one while there are any, as many as `short` otherwise. */
  function Delivered(available: nat, short: nat): (n: nat)
    ensures n <= available && (available > 0 ==> n > 0)
  {
    if available == 0 then 0 else if short == 0 then 1 else Min(short, available)
  }

  function ReadInner(files: Directory, id: Name, offset: u64, maxBytes: nat, short: nat): Result<ReadResult, SpoolError>
  {
    if id !in files then Err(ArtifactNotFound)
    else if !files[id].regular then Err(ArtifactNotRegular)
    else if offset > I64_MAX then Err(Io)
    else
      var content := files[id].content;
      var n := Delivered(Min(maxBytes, SatSub(|content|, offset)), short);
      var next := SatAdd(offset, n);
      Ok(ReadResult(if n == 0 then [] else content[offset..offset + n], next, next >= |content|))
  }

  function Read(
    files: Directory, id: Name, offset: u64, maxBytes: nat, short: nat, audits: Audits
  ) : Result<ReadResult, SpoolError>
  {
    if !ArtifactId(id) then Err(InvalidArtifactId)
    else if maxBytes == 0 || maxBytes > ARTIFACT_READ_MAX_BYTES then Err(ReadLimitExceeded)
    else if !audits.decision || !audits.outcome then Err(AuditUnavailable)
    else ReadInner(files, id, offset, maxBytes, short)
  }

  // ------------------------------------------------------------ the store

  class RawSpoolStore {
    var files: Directory
    var active: set<Name>
    var issued: set<bytes>

    /** Opens whatever an earlier process left: nothing is active and nothing was issued. */
    constructor (left: Directory)
      ensures State() == StoreState(left, {}, {})
    {
      files, active, issued := left, {}, {};
    }

    function State(): StoreState
      reads this
    {
      StoreState(files, active, issued)
    }

    /** The directory scan: removes what is expired and lists what is completed, in the order entries come. */
    method Scan(snapshot: set<Name>, now: int) returns (completed: seq<Candidate>, completedBytes: nat)
      modifies this`files
      ensures files == old(files) - Aged(old(files), snapshot, now)
      ensures Lists(completed, Young(old(files), snapshot, now))
      ensures completedBytes == Min(Sum(Young(old(files), snapshot, now), SizeOf), U64_MAX)
    {
      hide *;
      completed, completedBytes := [], 0;
      var seen: Directory := map[];
      var rest := files;
      NothingSeen(snapshot, now);
      PartsStart(files);
      while rest != map[]
        invariant Parts(seen, rest, old(files))
        invariant files == old(files) - Aged(seen, snapshot, now)
        invariant Lists(completed, Young(seen, snapshot, now))
        invariant completedBytes == Min(Sum(Young(seen, snapshot, now), SizeOf), U64_MAX)
        decreases |rest|
      {
        var name :| name in rest;
        ghost var before := seen;
        var e := rest[name];
        Shrinks(rest, name);
        PartsMove(seen, rest, old(files), name);
        SeenMore(seen, snapshot, now, name, e, completed, completedBytes);
        rest := rest - {name};
        seen := seen[name := e];
        if !IsArtifact(name, e) || name in snapshot { continue; }
        if Expired(e, now) {
          RemoveOne(old(files), Aged(before, snapshot, now), name);
          files := files - {name};
          continue;
        }
        completedBytes := SatAdd(completedBytes, SizeOf(e));
        completed := completed + [CandidateOf(name, e)];
      }
      PartsDone(seen, old(files));
    }

    /** `enforce_retention_inner`. */
    method EnforceRetentionInner(now: int) returns (r: Result<(), SpoolError>)
      modifies this`files
      ensures (files, r) == Retain(old(files), active, now)
    {
      hide *;
      var snapshot := active;
      ghost var young := Young(files, snapshot, now);
      var completed, completedBytes := Scan(snapshot, now);
      var reservation := Min(|snapshot| * RAW_SPOOL_SOURCE_CAP_BYTES, U64_MAX);
      SortedLists(completed, young);
      var queue := SortByAge(completed);
      OneQueue(queue, Queue(young), young);
      var projected: nat := SatAdd(completedBytes, reservation);
      ProjectionStarts(old(files), snapshot, now);
      projected := Evict(queue, projected);
      RetainAssembled(old(files), snapshot, now);
      if projected > TARGET_BEFORE_NEW { return Err(QuotaExceeded); }
      return Ok(());
    }

    /** The size loop: removes the oldest while the projection is too high. */
    method Evict(queue: seq<Candidate>, start: nat) returns (projected: nat)
      modifies this`files
      ensures files == old(files) - NamesOf(queue[..Evictions(queue, start)])
      ensures projected == Remaining(queue, start)
    {
      projected := start;
      var k := 0;
      while k < |queue|
        invariant k <= |queue|
        invariant files == old(files) - NamesOf(queue[..k])
        invariant k + Evictions(queue[k..], projected) == Evictions(queue, start)
        invariant Remaining(queue[k..], projected) == Remaining(queue, start)
      {
        if projected <= TARGET_BEFORE_NEW { break; }
        assert queue[k..][1..] == queue[k + 1..] && queue[k..][0] == queue[k];
        NamesOfMore(queue, k + 1);
        files := files - {queue[k].name};
        projected := SatSub(projected, queue[k].size);
        k := k + 1;
      }
    }

    method EnforceRetention(now: int, audits: Audits) returns (r: Result<(), SpoolError>)
      modifies this`files
      ensures (State(), r) == Maintain(old(State()), now, audits)
    {
      if !audits.cleanupDecision { return Err(AuditUnavailable); }
      r := EnforceRetentionInner(now);
      if !audits.cleanupOutcome { r := Err(AuditUnavailable); }
    }

    method CreateFile(ids: seq<Name>, now: int) returns (id: Option<Name>)
      modifies this`files
      ensures id == FreeName(old(files), ids, ID_ATTEMPTS)
      ensures files == if id.Some? then old(files)[id.value := Entry(true, [], now)] else old(files)
    {
      var k := 0;
      while k < ID_ATTEMPTS && k < |ids|
        invariant k <= |ids| && k <= ID_ATTEMPTS
        invariant files == old(files)
        invariant FreeName(files, ids[k..], ID_ATTEMPTS - k) == FreeName(files, ids, ID_ATTEMPTS)
      {
        assert ids[k..][1..] == ids[k + 1..];
        if ids[k] !in files {
          files := files[ids[k] := Entry(true, [], now)];
          return Some(ids[k]);
        }
        k := k + 1;
      }
      return None;
    }

    method Create(executionId: bytes, mediaType: bytes, ids: seq<Name>, now: int, audits: Audits)
      returns (r: Result<Name, SpoolError>)
      modifies this
      ensures (State(), r) == AfterCreate(old(State()), executionId, mediaType, ids, now, audits)
    {
      if !ExecutionId(executionId) { return Err(InvalidExecutionId); }
      if !MediaType(mediaType) { return Err(InvalidMediaType); }
      var maintained := EnforceRetention(now, audits);
      if maintained.Err? { return Err(maintained.error); }
      if executionId in issued { return Err(DuplicateExecution); }
      if !audits.decision { return Err(AuditUnavailable); }
      ghost var before := files;
      var id := CreateFile(ids, now);
      if id.None? {
        if !audits.outcome { return Err(AuditUnavailable); }
        return Err(Io);
      }
      active := active + {id.value};
      if !audits.outcome {
        assert active - {id.value} == old(active) - {id.value};
        active := active - {id.value};
        files := files - {id.value};
        assert files == before;
        return Err(AuditUnavailable);
      }
      issued := issued + {executionId};
      return Ok(id.value);
    }

    /** `Drop` of the artifact's writer. */
    method Release(id: Name)
      modifies this`active
      ensures active == old(active) - {id}
    {
      active := active - {id};
    }
  }

  /** A directory part of which has been read. */
  ghost predicate Parts(seen: Directory, rest: Directory, all: Directory)
  {
    seen.Keys !! rest.Keys && seen + rest == all
  }

  lemma {:induction false} PartsStart(all: Directory)
    ensures Parts(map[], all, all)
  {
  }

  lemma {:induction false} PartsMove(seen: Directory, rest: Directory, all: Directory, name: Name)
    requires Parts(seen, rest, all) && name in rest
    ensures name !in seen && Parts(seen[name := rest[name]], rest - {name}, all)
  {
    assert seen[name := rest[name]] + (rest - {name}) == all;
  }

  lemma {:induction false} PartsDone(seen: Directory, all: Directory)
    requires Parts(seen, map[], all)
    ensures seen == all
  {
    assert seen + map[] == seen;
  }

  lemma {:induction false} RemoveOne(all: Directory, names: set<Name>, name: Name)
    ensures all - names - {name} == all - (names + {name})
  {
  }

  lemma {:induction false} ProjectionStarts(files: Directory, active: set<Name>, now: int)
    ensures var young := Young(files, active, now);
            Projection(young, active)
            == SatAdd(Min(Sum(young, SizeOf), U64_MAX), Min(|active| * RAW_SPOOL_SOURCE_CAP_BYTES, U64_MAX))
  {
  }

  lemma {:induction false} RetainAssembled(files: Directory, active: set<Name>, now: int)
    ensures var young := Young(files, active, now);
            var victims := Queue(young)[..Evictions(Queue(young), Projection(young, active))];
            var tooMuch := Remaining(Queue(young), Projection(young, active)) > TARGET_BEFORE_NEW;
            Retain(files, active, now)
            == (files - Aged(files, active, now) - NamesOf(victims), if tooMuch then Err(QuotaExceeded) else Ok(()))
  {
    var young := Young(files, active, now);
    var victims := NamesOf(Queue(young)[..Evictions(Queue(young), Projection(young, active))]);
    assert files - (Aged(files, active, now) + victims) == files - Aged(files, active, now) - victims;
  }

  lemma {:induction false} NothingSeen(snapshot: set<Name>, now: int)
    ensures Aged(map[], snapshot, now) == {}
    ensures Lists([], Young(map[], snapshot, now)) && Min(Sum(Young(map[], snapshot, now), SizeOf), U64_MAX) == 0
  {
    assert Young(map[], snapshot, now) == map[];
  }

  /** What one more directory entry changes. */
  lemma {:induction false} SeenMore(
    seen: Directory, snapshot: set<Name>, now: int, name: Name, e: Entry, completed: seq<Candidate>, completedBytes: nat
  )
    requires name !in seen && Lists(completed, Young(seen, snapshot, now))
    requires completedBytes == Min(Sum(Young(seen, snapshot, now), SizeOf), U64_MAX)
    ensures var more := seen[name := e];
            var counted := IsArtifact(name, e) && name !in snapshot;
            && Aged(more, snapshot, now)
               == (if counted && Expired(e, now) then Aged(seen, snapshot, now) + {name} else Aged(seen, snapshot, now))
            && (counted && !Expired(e, now) ==>
                  && SatAdd(completedBytes, SizeOf(e)) == Min(Sum(Young(more, snapshot, now), SizeOf), U64_MAX)
                  && Lists(completed + [CandidateOf(name, e)], Young(more, snapshot, now)))
            && (!counted || Expired(e, now) ==> Young(more, snapshot, now) == Young(seen, snapshot, now))
  {
    var more := seen[name := e];
    var young := Young(seen, snapshot, now);
    YoungMore(seen, snapshot, now, name, e);
    if IsArtifact(name, e) && name !in snapshot && !Expired(e, now) {
      hide Young, Lists;
      PutIn(young, SizeOf, name, e);
      ListedAtEnd(completed, young, name, e);
    }
  }

  lemma {:induction false} YoungMore(seen: Directory, snapshot: set<Name>, now: int, name: Name, e: Entry)
    requires name !in seen
    ensures var more := seen[name := e];
            var counted := IsArtifact(name, e) && name !in snapshot;
            && name !in Young(seen, snapshot, now)
            && Young(more, snapshot, now)
               == (if counted && !Expired(e, now) then Young(seen, snapshot, now)[name := e]
                   else Young(seen, snapshot, now))
            && Aged(more, snapshot, now)
               == (if counted && Expired(e, now) then Aged(seen, snapshot, now) + {name} else Aged(seen, snapshot, now))
  {
    hide ArtifactId;
    var more := seen[name := e];
    if IsArtifact(name, e) && name !in snapshot {
      assert Completed(more, snapshot) == Completed(seen, snapshot)[name := e];
    } else {
      assert Completed(more, snapshot) == Completed(seen, snapshot);
    }
  }

  lemma {:induction false} ListedAtEnd(completed: seq<Candidate>, d: Directory, name: Name, e: Entry)
    requires Lists(completed, d) && name !in d
    ensures Lists(completed + [CandidateOf(name, e)], d[name := e])
  {
    var s, more := completed + [CandidateOf(name, e)], d[name := e];
    forall n | n in more ensures exists i :: 0 <= i < |s| && s[i].name == n {
      if n == name { assert s[|completed|].name == n; }
      else {
        var i :| 0 <= i < |completed| && completed[i].name == n;
        assert s[i].name == n;
      }
    }
  }

  // ------------------------------------------------------------ what admission promises

  /** Between calls: active artifacts exist, and everything committed fits the quota. */
  ghost predicate Settled(s: StoreState)
  {
    && s.active <= s.files.Keys
    && Committed(s.files, s.active) <= ARTIFACT_AGGREGATE_CAP_BYTES
  }

  /** The first free name, among the first `attempts`. */
  predicate FirstFree(files: Directory, ids: seq<Name>, attempts: nat, i: int)
  {
    0 <= i < |ids| && i < attempts && ids[i] !in files && forall j :: 0 <= j < i ==> ids[j] in files
  }

  lemma {:induction false} FreeNameExactly(files: Directory, ids: seq<Name>, attempts: nat)
    ensures var r := FreeName(files, ids, attempts);
            && (r.Some? <==> exists i :: 0 <= i < |ids| && i < attempts && ids[i] !in files)
            && (r.Some? ==> exists i :: FirstFree(files, ids, attempts, i) && ids[i] == r.value)
    decreases |ids|
  {
    if ids != [] && attempts > 0 {
      if ids[0] in files {
        FreeNameExactly(files, ids[1..], attempts - 1);
        if i :| 0 <= i < |ids| && i < attempts && ids[i] !in files { assert ids[1..][i - 1] == ids[i]; }
        if i :| FirstFree(files, ids[1..], attempts - 1, i) && ids[1..][i] == FreeName(files, ids, attempts).value {
          assert ids[i + 1] == ids[1..][i];
          assert forall j :: 0 < j <= i ==> ids[j] == ids[1..][j - 1];
          assert FirstFree(files, ids, attempts, i + 1);
        }
      } else {
        assert FirstFree(files, ids, attempts, 0);
      }
    }
  }

  lemma {:induction false} RetainedStays(files: Directory, active: set<Name>, now: int)
    requires active <= files.Keys && Unsaturated(files, active)
    ensures var kept := Retain(files, active, now).0;
            active <= kept.Keys <= files.Keys && Committed(kept, active) <= Committed(files, active)
  {
    forall id | id in active ensures id in Retain(files, active, now).0 {
      RetentionKeeps(files, active, now, id);
      hide *;
    }
    CompletedLeft(files, active, Removed(files, active, now));
    SumOfPart(Completed(files, active), SizeOf, Removed(files, active, now));
    hide Removed, Completed;
  }

  lemma {:induction false} CompletedLeft(files: Directory, active: set<Name>, gone: set<Name>)
    ensures Completed(files - gone, active) == Completed(files, active) - gone
  {
    hide ArtifactId;
  }

  /**
   A writer is admitted exactly when the call is well formed and new, fewer than sixteen are active, and a name is
   free.
   */
  lemma {:induction false} AdmittedExactly(s: StoreState, executionId: bytes, mediaType: bytes, ids: seq<Name>,
                                           now: int, audits: Audits)
    requires Settled(s)
    ensures var kept := Retain(s.files, s.active, now).0;
            AfterCreate(s, executionId, mediaType, ids, now, audits).1.Ok? <==>
              && ExecutionId(executionId) && MediaType(mediaType) && executionId !in s.issued
              && audits == Audits(true, true, true, true)
              && |s.active| < 16
              && exists i :: 0 <= i < |ids| && i < ID_ATTEMPTS && ids[i] !in kept
  {
    ChecksExactly(executionId, mediaType);
    hide Retain, ExecutionId, MediaType, Named, Printable, FreeName, Committed;
    QuotaExactly(s.files, s.active, now);
    AnswerOf(s.files, s.active, now);
    FreeNameExactly(Retain(s.files, s.active, now).0, ids, ID_ATTEMPTS);
  }

  /**
   Every call leaves the store settled. A successful one adds one empty artifact under an unused name, active, and
   touches no active artifact; a refused one adds nothing.
   */
  lemma {:induction false} CreateKeepsSettled(s: StoreState, executionId: bytes, mediaType: bytes, ids: seq<Name>,
                                              now: int, audits: Audits)
    requires Settled(s)
    ensures var (t, r) := AfterCreate(s, executionId, mediaType, ids, now, audits);
            && Settled(t)
            && (forall id :: id in s.active ==> id in t.files && t.files[id] == s.files[id])
            && (r.Ok? ==>
                  && r.value !in s.active && r.value in ids
                  && t.active == s.active + {r.value} && t.issued == s.issued + {executionId}
                  && t.files[r.value] == Entry(true, [], now)
                  && t.files.Keys - {r.value} <= s.files.Keys)
            && (r.Err? ==> t.active == s.active && t.issued == s.issued && t.files.Keys <= s.files.Keys)
  {
    hide *;
    KeptSettled(s, now);
    CreateCases(s, executionId, mediaType, ids, now, audits);
    var kept := s.(files := Retain(s.files, s.active, now).0);
    if Retain(s.files, s.active, now).1.Ok? { AdmitKeepsSettled(kept, executionId, ids, now, audits); }
  }

  /** Whether a call gets as far as retention: it is well formed. */
  predicate WellFormedCall(executionId: bytes, mediaType: bytes) { Named("ex_", executionId) && Printable(mediaType) }

  /** Up to 255 printable ASCII characters, and at least one. */
  predicate Printable(t: bytes) { 1 <= |t| <= 255 && forall i :: 0 <= i < |t| ==> 32 <= t[i] as int <= 126 }

  lemma {:induction false} ChecksExactly(executionId: bytes, mediaType: bytes)
    ensures ExecutionId(executionId) <==> Named("ex_", executionId)
    ensures MediaType(mediaType) <==> Printable(mediaType)
  {
  }

  /**
   Nothing changes on disk without a durable record. A call that is not well formed, or whose cleanup decision is not
   durable, changes nothing at all; a file goes only after a durable cleanup decision, and a file appears, or a writer
   becomes active, only after every record of the call is durable.
   */
  lemma {:induction false} ChangesAreAudited(s: StoreState, executionId: bytes, mediaType: bytes, ids: seq<Name>,
                                             now: int, audits: Audits)
    requires Settled(s)
    ensures var t := AfterCreate(s, executionId, mediaType, ids, now, audits).0;
            && (!WellFormedCall(executionId, mediaType) || !audits.cleanupDecision ==> t == s)
            && (forall id :: id in s.files && id !in t.files ==> audits.cleanupDecision)
            && (forall id :: id in t.files && (id !in s.files || t.files[id] != s.files[id]) ==>
                               audits == Audits(true, true, true, true))
            && (t.active != s.active || t.issued != s.issued ==> audits == Audits(true, true, true, true))
  {
    ChecksExactly(executionId, mediaType);
    hide ExecutionId, MediaType, Named, Printable;
    KeptSettled(s, now);
    KeptUnchanged(s, now);
    var kept := s.(files := Retain(s.files, s.active, now).0);
    if Retain(s.files, s.active, now).1.Ok? { AdmitKeepsSettled(kept, executionId, ids, now, audits); }
    AdmitIsAudited(kept, executionId, ids, now, audits);
    hide Retain, Admit, Committed;
  }

  /** Retention only removes. */
  lemma {:induction false} KeptUnchanged(s: StoreState, now: int)
    ensures var kept := Retain(s.files, s.active, now).0;
            forall id :: id in kept ==> id in s.files && kept[id] == s.files[id]
  {
  }

  lemma {:induction false} AdmitIsAudited(s: StoreState, executionId: bytes, ids: seq<Name>, now: int, audits: Audits)
    requires s.active <= s.files.Keys
    ensures Admit(s, executionId, ids, now, audits).0 == s || (audits.decision && audits.outcome)
  {
    var (t, r) := Admit(s, executionId, ids, now, audits);
    if r.Err? { assert t.active == s.active; }
  }

  /** What each refusal means, for every call on a settled store. */
  lemma {:induction false} RefusedExactly(s: StoreState, executionId: bytes, mediaType: bytes, ids: seq<Name>, now: int,
                                          audits: Audits)
    requires Settled(s)
    ensures var r := AfterCreate(s, executionId, mediaType, ids, now, audits).1;
            var cleaned := WellFormedCall(executionId, mediaType) && audits.cleanupDecision && audits.cleanupOutcome;
            var admitted := cleaned && |s.active| < 16 && executionId !in s.issued;
            var free := exists i :: 0 <= i < |ids| && i < 8 && ids[i] !in Retain(s.files, s.active, now).0;
            && (r == Err(InvalidExecutionId) <==> !Named("ex_", executionId))
            && (r == Err(InvalidMediaType) <==> Named("ex_", executionId) && !Printable(mediaType))
            && (r == Err(QuotaExceeded) <==> cleaned && |s.active| >= 16)
            && (r == Err(DuplicateExecution) <==> cleaned && |s.active| < 16 && executionId in s.issued)
            && (r == Err(Io) <==> admitted && audits.decision && audits.outcome && !free)
            && (r == Err(AuditUnavailable) <==>
                && WellFormedCall(executionId, mediaType)
                && (!audits.cleanupDecision || !audits.cleanupOutcome
                    || (admitted && !(audits.decision && audits.outcome))))
            && (r.Ok? <==> admitted && audits.decision && audits.outcome && free)
  {
    ChecksExactly(executionId, mediaType);
    hide Retain, ExecutionId, MediaType, Named, Printable, FreeName, Committed;
    QuotaExactly(s.files, s.active, now);
    AnswerOf(s.files, s.active, now);
    FreeNameExactly(Retain(s.files, s.active, now).0, ids, ID_ATTEMPTS);
  }

  /** A call ends before retention, after it, or in admission. */
  lemma {:induction false} CreateCases(s: StoreState, executionId: bytes, mediaType: bytes, ids: seq<Name>,
                                       now: int, audits: Audits)
    ensures var a := AfterCreate(s, executionId, mediaType, ids, now, audits);
            var kept := s.(files := Retain(s.files, s.active, now).0);
            || (a.0 == s && a.1.Err?)
            || (a.0 == kept && a.1.Err?)
            || (Retain(s.files, s.active, now).1.Ok? && a == Admit(kept, executionId, ids, now, audits))
  {
    hide Retain, ExecutionId, MediaType, Admit;
  }

  lemma {:induction false} KeptSettled(s: StoreState, now: int)
    requires Settled(s)
    ensures var kept := Retain(s.files, s.active, now).0;
            && Settled(s.(files := kept)) && s.active <= kept.Keys <= s.files.Keys
            && (forall id :: id in s.active ==> id in s.files && kept[id] == s.files[id])
            && (Retain(s.files, s.active, now).1.Ok? ==> Committed(kept, s.active) <= TARGET_BEFORE_NEW)
  {
    RetainedStays(s.files, s.active, now);
    QuotaExactly(s.files, s.active, now);
    forall id | id in s.active ensures Retain(s.files, s.active, now).0[id] == s.files[id] {
      RetentionKeeps(s.files, s.active, now, id);
      hide Retain, Committed, ArtifactId;
    }
    hide Retain, Committed;
  }

  lemma {:induction false} AdmitKeepsSettled(s: StoreState, executionId: bytes, ids: seq<Name>, now: int,
                                             audits: Audits)
    requires s.active <= s.files.Keys && Committed(s.files, s.active) <= TARGET_BEFORE_NEW
    ensures var (t, r) := Admit(s, executionId, ids, now, audits);
            && Settled(t)
            && (forall id :: id in s.active ==> t.files[id] == s.files[id])
            && (r.Ok? ==>
                  && r.value !in s.files && r.value in ids
                  && t.active == s.active + {r.value} && t.issued == s.issued + {executionId}
                  && t.files == s.files[r.value := Entry(true, [], now)])
            && (r.Err? ==> t == s)
  {
    var (t, r) := Admit(s, executionId, ids, now, audits);
    if r.Ok? {
      ReserveOne(s.files, s.active, r.value, now);
    } else {
      assert t.active == s.active;
    }
    hide Committed;
  }

  /** A new empty artifact costs one reservation. */
  lemma {:induction false} ReserveOne(files: Directory, active: set<Name>, id: Name, now: int)
    requires id !in files && active <= files.Keys
    ensures Committed(files[id := Entry(true, [], now)], active + {id})
         == Committed(files, active) + RAW_SPOOL_SOURCE_CAP_BYTES
  {
    hide ArtifactId;
    assert Completed(files[id := Entry(true, [], now)], active + {id}) == Completed(files, active);
  }

  /** Writing through an active artifact's writer changes no charge: its reservation covers it. */
  lemma {:induction false} ActiveWriteIsFree(files: Directory, active: set<Name>, id: Name, e: Entry)
    requires id in active
    ensures Committed(files[id := e], active) == Committed(files, active)
  {
    hide ArtifactId;
    assert Completed(files[id := e], active) == Completed(files, active);
  }

  /**
   Releasing a writer exchanges its reservation for what it wrote, so within the writer's cap the store stays settled
   and never holds more than before.
   */
  lemma {:induction false} ReleaseKeepsSettled(s: StoreState, id: Name)
    requires Settled(s) && id in s.active && SizeOf(s.files[id]) <= RAW_SPOOL_SOURCE_CAP_BYTES
    ensures var t := s.(active := s.active - {id});
            && Settled(t)
            && Committed(t.files, t.active) + RAW_SPOOL_SOURCE_CAP_BYTES
               == Committed(s.files, s.active) + if IsArtifact(id, s.files[id]) then SizeOf(s.files[id]) else 0
  {
    var e, rest := s.files[id], s.active - {id};
    var before := Completed(s.files, s.active);
    assert s.active == rest + {id} && |s.active| == |rest| + 1;
    if IsArtifact(id, e) {
      hide ArtifactId;
      assert Completed(s.files, rest) == before[id := e];
      PutIn(before, SizeOf, id, e);
    } else {
      hide ArtifactId;
      assert Completed(s.files, rest) == before;
    }
  }

  /**
   A writer's whole life. After a successful call, any writes the disk takes and the writer's drop, the artifact holds
   the first 64 MiB of what was written, the store is settled with the active set it had before the call, and at most
   what was written has been added to what the call left committed.
   */
  lemma {:induction false} WriterLifetime(s: StoreState, executionId: bytes, mediaType: bytes, ids: seq<Name>, now: int,
                                          audits: Audits, sources: seq<bytes>, modified: int)
    requires Settled(s) && AfterCreate(s, executionId, mediaType, ids, now, audits).1.Ok?
    ensures var (t, r) := AfterCreate(s, executionId, mediaType, ids, now, audits);
            var w := WriteAll(FRESH_WRITER, sources);
            var written := t.(files := t.files[r.value := Entry(true, w.file, modified)]);
            var released := written.(active := written.active - {r.value});
            && w.file == Concat(sources)[..Min(|Concat(sources)|, RAW_SPOOL_SOURCE_CAP_BYTES)]
            && (w.sourceTruncated <==> |Concat(sources)| > RAW_SPOOL_SOURCE_CAP_BYTES)
            && Settled(written) && Settled(released)
            && released.active == s.active
            && Committed(released.files, released.active) + RAW_SPOOL_SOURCE_CAP_BYTES
               <= Committed(t.files, t.active) + |w.file|
  {
    hide *;
    var (t, r) := AfterCreate(s, executionId, mediaType, ids, now, audits);
    CreateKeepsSettled(s, executionId, mediaType, ids, now, audits);
    WriterHolds(sources);
    ReleaseWritten(t, r.value, WriteAll(FRESH_WRITER, sources).file, modified);
    assert s.active + {r.value} - {r.value} == s.active;
  }

  lemma {:induction false} WriterHolds(sources: seq<bytes>)
    ensures var w, all := WriteAll(FRESH_WRITER, sources), Concat(sources);
            && w.file == all[..Min(|all|, RAW_SPOOL_SOURCE_CAP_BYTES)] && |w.file| <= RAW_SPOOL_SOURCE_CAP_BYTES
            && (w.sourceTruncated <==> |all| > RAW_SPOOL_SOURCE_CAP_BYTES)
  {
    WritesConcatenate([], sources);
    hide WriteAll, Concat;
    assert [] + Concat(sources) == Concat(sources) && Holding([]) == FRESH_WRITER;
  }

  lemma {:induction false} ReleaseWritten(t: StoreState, id: Name, content: bytes, modified: int)
    requires Settled(t) && id in t.active && |content| <= RAW_SPOOL_SOURCE_CAP_BYTES
    ensures var written := t.(files := t.files[id := Entry(true, content, modified)]);
            var released := written.(active := written.active - {id});
            && Settled(written) && Settled(released)
            && Committed(released.files, released.active) + RAW_SPOOL_SOURCE_CAP_BYTES
               <= Committed(t.files, t.active) + |content|
  {
    hide Committed, ArtifactId;
    ActiveWriteIsFree(t.files, t.active, id, Entry(true, content, modified));
    ReleaseKeepsSettled(t.(files := t.files[id := Entry(true, content, modified)]), id);
  }

  // ------------------------------------------------------------ reading in chunks

  datatype Request = Request(maxBytes: nat, short: nat)

  datatype Download = Download(data: bytes, next: nat, eof: bool)

  predicate Permitted(requests: seq<Request>)
  {
    forall i :: 0 <= i < |requests| ==> 0 < requests[i].maxBytes <= ARTIFACT_READ_MAX_BYTES
  }

  /** A client that follows `next_offset` until `eof`, or until it stops asking. */
  function Follow(files: Directory, id: Name, offset: u64, requests: seq<Request>): Result<Download, SpoolError>
    decreases |requests|
  {
    if requests == [] then Ok(Download([], offset, false))
    else match Read(files, id, offset, requests[0].maxBytes, requests[0].short, Audits(true, true, true, true))
      case Err(e) => Err(e)
      case Ok(chunk) =>
        if chunk.eof then Ok(Download(chunk.data, chunk.nextOffset, true))
        else match Follow(files, id, chunk.nextOffset, requests[1..])
          case Err(e) => Err(e)
          case Ok(rest) => Ok(Download(chunk.data + rest.data, rest.next, rest.eof))
  }

  /** One read returns the bytes at its offset; it is empty only past the end, and `eof` says whether any are left. */
  lemma {:induction false} ReadsAtOffset(files: Directory, id: Name, offset: u64, maxBytes: nat, short: nat)
    requires id in files && files[id].regular && offset <= I64_MAX && |files[id].content| <= I64_MAX
    requires 0 < maxBytes
    ensures var content := files[id].content;
            var r := ReadInner(files, id, offset, maxBytes, short);
            && r.Ok?
            && |r.value.data| <= maxBytes
            && (r.value.data == [] <==> offset >= |content|)
            && r.value.nextOffset == offset + |r.value.data|
            && (offset <= |content| ==>
                  r.value.nextOffset <= |content| && r.value.data == content[offset..r.value.nextOffset])
            && (r.value.eof <==> r.value.nextOffset >= |content|)
  {
  }

  /** A read that is no error: the bytes at the offset, one short read's worth, and whether the end is reached. */
  predicate ReadsFrom(r: ReadResult, content: bytes, offset: nat, maxBytes: nat, short: nat)
  {
    var left := if offset < |content| then |content| - offset else 0;
    var n := if left == 0 || maxBytes == 0 then 0 else if short == 0 then 1
             else if short <= left && short <= maxBytes then short else if left <= maxBytes then left else maxBytes;
    && r.nextOffset == offset + n
    && (if n == 0 then r.data == [] else r.nextOffset <= |content| && r.data == content[offset..r.nextOffset])
    && (r.eof <==> r.nextOffset >= |content|)
  }

  /**
   Every read, for any store and arguments: what refuses it, in the order of the checks, and otherwise what it returns.
   Nothing is read without both audit records.
   */
  lemma {:induction false} ReadExactly(files: Directory, id: Name, offset: u64, maxBytes: nat, short: nat,
                                       audits: Audits)
    requires id in files ==> |files[id].content| <= I64_MAX
    ensures var r := Read(files, id, offset, maxBytes, short, audits);
            var audited := Named("ka_", id) && 1 <= maxBytes <= 1_048_576 && audits.decision && audits.outcome;
            && (r == Err(InvalidArtifactId) <==> !Named("ka_", id))
            && (r == Err(ReadLimitExceeded) <==> Named("ka_", id) && !(1 <= maxBytes <= 1_048_576))
            && (r == Err(AuditUnavailable)
                <==> Named("ka_", id) && 1 <= maxBytes <= 1_048_576 && !(audits.decision && audits.outcome))
            && (r == Err(ArtifactNotFound) <==> audited && id !in files)
            && (r == Err(ArtifactNotRegular) <==> audited && id in files && !files[id].regular)
            && (r == Err(Io) <==> audited && id in files && files[id].regular && offset > 0x7FFF_FFFF_FFFF_FFFF)
            && (r.Ok? <==> audited && id in files && files[id].regular && offset <= 0x7FFF_FFFF_FFFF_FFFF)
            && (r.Ok? ==> ReadsFrom(r.value, files[id].content, offset, maxBytes, short))
  {
    ArtifactIdExactly(id);
    hide ArtifactId, Named;
  }

  /**
   Chunked reads reassemble the artifact: whatever sizes are asked for and however short the reads fall, the chunks
   joined are the bytes from the first offset, each once and in order, and enough requests always reach `eof`.
   */
  lemma {:induction false} ReadsReassemble(files: Directory, id: Name, offset: u64, requests: seq<Request>)
    requires ArtifactId(id) && id in files && files[id].regular && Permitted(requests)
    requires offset <= |files[id].content| <= I64_MAX
    ensures var content := files[id].content;
            var r := Follow(files, id, offset, requests);
            && r.Ok? && offset <= r.value.next <= |content|
            && r.value.data == content[offset..r.value.next]
            && (r.value.eof ==> r.value.next == |content|)
            && (|requests| > |content| - offset ==> r.value.eof)
            && (r.value.eof || offset + |requests| <= r.value.next)
    decreases |requests|
  {
    if requests != [] {
      var maxBytes, short := requests[0].maxBytes, requests[0].short;
      ReadsAtOffset(files, id, offset, maxBytes, short);
      FollowStep(files, id, offset, requests);
      hide Follow, ReadInner, ArtifactId;
      var chunk := ReadInner(files, id, offset, maxBytes, short).value;
      if !chunk.eof {
        ReadsReassemble(files, id, chunk.nextOffset, requests[1..]);
        var rest := Follow(files, id, chunk.nextOffset, requests[1..]).value;
        Adjacent(files[id].content, offset, chunk.nextOffset, rest.next);
      }
    }
  }

  lemma {:induction false} Adjacent(s: bytes, i: nat, j: nat, k: nat)
    requires i <= j <= k <= |s|
    ensures s[i..j] + s[j..k] == s[i..k]
  {
  }

  /** A permitted request reads, and what follows is the rest of the download. */
  lemma {:induction false} FollowStep(files: Directory, id: Name, offset: u64, requests: seq<Request>)
    requires ArtifactId(id) && requests != [] && Permitted(requests)
    requires ReadInner(files, id, offset, requests[0].maxBytes, requests[0].short).Ok?
    ensures var chunk := ReadInner(files, id, offset, requests[0].maxBytes, requests[0].short).value;
            var rest := Follow(files, id, chunk.nextOffset, requests[1..]);
            && (chunk.eof ==> Follow(files, id, offset, requests) == Ok(Download(chunk.data, chunk.nextOffset, true)))
            && (!chunk.eof && rest.Ok? ==>
                  Follow(files, id, offset, requests)
                  == Ok(Download(chunk.data + rest.value.data, rest.value.next, rest.value.eof)))
  {
    hide ArtifactId, ReadInner;
  }
}
