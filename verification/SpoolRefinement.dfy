/** One admission that nothing interrupts: the locked steps of the interleaved store do what the whole call does. */
module SpoolRefinement {
  import opened Wrappers
  import opened Bytes
  import opened MapSums
  import opened SpoolWriter
  import opened Retention
  import opened SpoolProtocol
  import Spool

  /** The state after these steps from `s`; `None` when one of them was not possible. */
  ghost function RunFrom(s: State, steps: seq<Step>): Option<State>
    decreases |steps|
  {
    if steps == [] then Some(s)
    else if Enabled(s, steps[0]) then RunFrom(After(s, steps[0]), steps[1..])
    else None
  }

  lemma {:induction false} Chained(s: State, a: seq<Step>, b: seq<Step>)
    requires RunFrom(s, a).Some?
    ensures RunFrom(s, a + b) == RunFrom(RunFrom(s, a).value, b)
    decreases |a|
  {
    hide Enabled, After;
    if a == [] {
      assert a + b == b;
    } else {
      assert (a + b)[0] == a[0] && (a + b)[1..] == a[1..] + b;
      Chained(After(s, a[0]), a[1..], b);
    }
  }

  lemma {:induction false} OneStep(s: State, step: Step, rest: seq<Step>)
    requires Enabled(s, step)
    ensures RunFrom(s, [step] + rest) == RunFrom(After(s, step), rest)
    ensures RunFrom(s, []) == Some(s)
  {
    assert ([step] + rest)[1..] == rest;
    hide Enabled, After;
  }

  // ------------------------------------------------------------ the scan

  /** What a scan of `seen`, out of all there is, has made of the directory and of its counts. */
  ghost predicate Scanned(s: State, seen: Directory, rest: Directory, all: Directory)
  {
    && s.phase.Scanning? && Spool.Parts(seen, rest, all)
    && var p := s.phase;
       && p.pending == rest.Keys
       && s.files == all - Aged(seen, p.snapshot, p.now)
       && p.counted == Young(seen, p.snapshot, p.now)
       && p.completedBytes == Min(Sum(Young(seen, p.snapshot, p.now), SizeOf), U64_MAX)
  }

  lemma {:induction false} StillThere(all: Directory, seen: Directory, rest: Directory, snapshot: set<Name>, now: int,
                                      name: Name)
    requires Spool.Parts(seen, rest, all) && name in rest
    ensures name in all && all[name] == rest[name] && name !in seen && name !in Aged(seen, snapshot, now)
  {
    hide ArtifactId, Expired;
  }

  lemma {:induction false} ScanOne(s: State, seen: Directory, rest: Directory, all: Directory, name: Name)
    requires Scanned(s, seen, rest, all) && name in rest
    ensures Enabled(s, ScanEntry(name))
    ensures Scanned(After(s, ScanEntry(name)), seen[name := rest[name]], rest - {name}, all)
    ensures var t := After(s, ScanEntry(name)); t == s.(files := t.files, phase := t.phase)
    ensures var p, q := s.phase, After(s, ScanEntry(name)).phase; q.snapshot == p.snapshot && q.now == p.now
  {
    var p := s.phase;
    StillThere(all, seen, rest, p.snapshot, p.now, name);
    Spool.PartsMove(seen, rest, all, name);
    Spool.SeenMore(seen, p.snapshot, p.now, name, rest[name], Queue(p.counted), p.completedBytes);
    Spool.YoungMore(seen, p.snapshot, p.now, name, rest[name]);
    hide Young, Aged, IsArtifact, Expired, Queue, Sum, Spool.Parts;
    Spool.RemoveOne(all, Aged(seen, p.snapshot, p.now), name);
  }

  lemma {:induction false} ScanAll(s: State, seen: Directory, rest: Directory, all: Directory)
    returns (steps: seq<Step>)
    requires Scanned(s, seen, rest, all)
    ensures RunFrom(s, steps).Some?
    ensures var t := RunFrom(s, steps).value;
            && Scanned(t, all, map[], all) && t == s.(files := t.files, phase := t.phase)
            && t.phase.snapshot == s.phase.snapshot && t.phase.now == s.phase.now
    decreases |rest|
  {
    if rest == map[] {
      steps := [];
      Spool.PartsDone(seen, all);
    } else {
      var name := Pick(rest);
      Shrinks(rest, name);
      ScanOne(s, seen, rest, all, name);
      var tail := ScanAll(After(s, ScanEntry(name)), seen[name := rest[name]], rest - {name}, all);
      OneStep(s, ScanEntry(name), tail);
      steps := [ScanEntry(name)] + tail;
    }
    hide Scanned, Enabled, After;
  }

  // ------------------------------------------------------------ eviction

  lemma {:induction false} EvictAll(s: State, queue: seq<Candidate>, projected: nat) returns (steps: seq<Step>)
    requires s.phase.Evicting? && s.phase.queue == queue && s.phase.projected == projected
    ensures RunFrom(s, steps).Some?
    ensures var t := RunFrom(s, steps).value;
            && t == s.(files := s.files - NamesOf(queue[..Evictions(queue, projected)]), phase := t.phase)
            && t.phase.Evicting? && t.phase.projected == Remaining(queue, projected)
    decreases |queue|
  {
    if queue == [] || projected <= TARGET_BEFORE_NEW {
      steps := [];
      assert NamesOf(queue[..0]) == {} && s.files - {} == s.files;
      assert RunFrom(s, []) == Some(s);
    } else {
      var t := After(s, EvictOldest);
      var tail := EvictAll(t, queue[1..], SatSub(projected, queue[0].size));
      OneStep(s, EvictOldest, tail);
      steps := [EvictOldest] + tail;
      var k := Evictions(queue[1..], SatSub(projected, queue[0].size));
      FirstEvicted(queue, k);
      hide NamesOf, RunFrom;
      assert s.files - {queue[0].name} - NamesOf(queue[1..][..k]) == s.files - NamesOf(queue[..k + 1]);
    }
  }

  lemma {:induction false} FirstEvicted(queue: seq<Candidate>, k: nat)
    requires k < |queue|
    ensures NamesOf(queue[..k + 1]) == {queue[0].name} + NamesOf(queue[1..][..k])
  {
    var all, rest := queue[..k + 1], queue[1..][..k];
    assert forall i :: 0 < i <= k ==> all[i] == rest[i - 1];
    forall n | n in NamesOf(all) ensures n in {queue[0].name} + NamesOf(rest) {
      var i :| 0 <= i <= k && all[i].name == n;
      if i > 0 { assert rest[i - 1].name == n; }
    }
    forall n | n in {queue[0].name} + NamesOf(rest) ensures n in NamesOf(all) {
      if n != queue[0].name {
        var i :| 0 <= i < k && rest[i].name == n;
        assert all[i + 1].name == n;
      } else {
        assert all[0].name == n;
      }
    }
  }

  // ------------------------------------------------------------ the whole pass

  /** The scan, the sort and the size loop, one step at a time. */
  lemma {:induction false} PassIsARun(s: State, now: int) returns (steps: seq<Step>)
    requires s.phase.Unlocked?
    ensures RunFrom(s, steps).Some?
    ensures var t := RunFrom(s, steps).value;
            var (kept, r) := Retain(s.files, s.active, now);
            && t == s.(files := kept, phase := t.phase) && t.phase.Evicting?
            && (t.phase.projected <= TARGET_BEFORE_NEW <==> r.Ok?)
  {
    var begun := After(s, BeginScan(now));
    ScanBegins(s, now);
    var scanning := ScanAll(begun, map[], s.files, s.files);
    var scanned := RunFrom(begun, scanning).value;
    var young := Young(s.files, s.active, now);
    var sorted := After(scanned, ScanDone);
    SortedWhole(scanned, s.files);
    var evicting := EvictAll(sorted, Queue(young), Projection(young, s.active));
    hide Scanned, RunFrom, After, Enabled;
    Spool.RetainAssembled(s.files, s.active, now);
    OneStep(s, BeginScan(now), scanning + ([ScanDone] + evicting));
    Chained(begun, scanning, [ScanDone] + evicting);
    OneStep(scanned, ScanDone, evicting);
    steps := [BeginScan(now)] + (scanning + ([ScanDone] + evicting));
  }

  lemma {:induction false} ScanBegins(s: State, now: int)
    requires s.phase.Unlocked?
    ensures Enabled(s, BeginScan(now)) && Scanned(After(s, BeginScan(now)), map[], s.files, s.files)
    ensures var t := After(s, BeginScan(now));
            t == s.(phase := t.phase) && t.phase.snapshot == s.active && t.phase.now == now
  {
    Spool.NothingSeen(s.active, now);
    Spool.PartsStart(s.files);
    hide Young, Aged;
  }

  lemma {:induction false} SortedWhole(s: State, all: Directory)
    requires Scanned(s, all, map[], all)
    ensures Enabled(s, ScanDone)
    ensures var young := Young(all, s.phase.snapshot, s.phase.now);
            After(s, ScanDone)
            == s.(phase := Evicting(s.phase.snapshot, Queue(young), Projection(young, s.phase.snapshot)))
    ensures s.files == all - Aged(all, s.phase.snapshot, s.phase.now)
  {
    hide Young, Aged, Queue, Spool.Parts;
  }

  // ------------------------------------------------------------ admission

  /** The state an admission leaves: the store's files and active names, and a fresh writer for a new artifact. */
  function Left(s: State, c: Spool.StoreState, r: Result<Name, SpoolError>): State
  {
    State(c.files, c.active, if r.Ok? then s.writers[r.value := FRESH_WRITER] else s.writers, s.failed, Unlocked)
  }

  lemma {:induction false} LastStep(s: State, step: Step)
    requires Enabled(s, step)
    ensures RunFrom(s, [step]) == Some(After(s, step))
  {
    OneStep(s, step, []);
    assert [step] + [] == [step];
    assert RunFrom(After(s, step), []) == Some(After(s, step));
    hide Enabled, After;
  }

  /** What follows the pass, once its result was found good. */
  lemma {:induction false} AdmissionIsARun(s: State, executionId: bytes, ids: seq<Name>, now: int,
                                           audits: Spool.Audits, issued: set<bytes>) returns (steps: seq<Step>)
    requires s.phase.Admitted? && forall i :: 0 <= i < |ids| ==> ArtifactId(ids[i])
    ensures var (c, r) := Spool.Admit(Spool.StoreState(s.files, s.active, issued), executionId, ids, now, audits);
            RunFrom(s, steps) == Some(Left(s, c, r))
  {
    hide ArtifactId;
    var free := Spool.FreeName(s.files, ids, 8);
    if executionId in issued || !audits.decision || free.None? {
      steps := [GiveUp];
      LastStep(s, GiveUp);
    } else {
      var id := free.value;
      var made := After(s, MakeFile(id, now));
      var registered := After(made, Register);
      steps := if audits.outcome then [OutcomeWritten] else [OutcomeLost] + [RemoveWithdrawn(true)];
      if audits.outcome {
        LastStep(registered, OutcomeWritten);
      } else {
        OneStep(registered, OutcomeLost, [RemoveWithdrawn(true)]);
        LastStep(After(registered, OutcomeLost), RemoveWithdrawn(true));
        NothingLeft(s.files, s.active, id, Entry(true, [], now));
      }
      OneStep(made, Register, steps);
      OneStep(s, MakeFile(id, now), [Register] + steps);
      steps := [MakeFile(id, now)] + ([Register] + steps);
    }
    hide RunFrom;
  }

  /** Withdrawing a new artifact leaves nothing of it. */
  lemma {:induction false} NothingLeft(files: Directory, active: set<Name>, id: Name, e: Entry)
    requires id !in files
    ensures files[id := e] - {id} == files && active + {id} - {id} == active - {id}
  {
  }

  /**
   Refinement: for every store, arguments and audit outcomes, some uninterrupted run of the locked steps leaves exactly
   the files and active names the whole call leaves, and a fresh writer exactly where it returns one.
   */
  lemma {:induction false} CreateIsARun(s: State, executionId: bytes, mediaType: bytes, ids: seq<Name>, now: int,
                                        audits: Spool.Audits, issued: set<bytes>) returns (steps: seq<Step>)
    requires s.phase.Unlocked? && forall i :: 0 <= i < |ids| ==> ArtifactId(ids[i])
    ensures var store := Spool.StoreState(s.files, s.active, issued);
            var (c, r) := Spool.AfterCreate(store, executionId, mediaType, ids, now, audits);
            RunFrom(s, steps) == Some(Left(s, c, r))
  {
    hide ArtifactId, Retain, Spool.Admit, Spool.ExecutionId, Spool.MediaType;
    if !Spool.ExecutionId(executionId) || !Spool.MediaType(mediaType) || !audits.cleanupDecision {
      steps := [];
      assert RunFrom(s, []) == Some(s);
    } else {
      var pass := PassIsARun(s, now);
      var kept := RunFrom(s, pass).value;
      if !audits.cleanupOutcome || Retain(s.files, s.active, now).1.Err? {
        LastStep(kept, GiveUp);
        Chained(s, pass, [GiveUp]);
        steps := pass + [GiveUp];
      } else {
        var admitted := After(kept, EvictDone);
        var rest := AdmissionIsARun(admitted, executionId, ids, now, audits, issued);
        OneStep(kept, EvictDone, rest);
        Chained(s, pass, [EvictDone] + rest);
        steps := pass + ([EvictDone] + rest);
      }
      hide RunFrom;
    }
  }

  // ------------------------------------------------------------ writers

  /**
   A write of a writer that took `all` before: unless something was left to write and the disk failed, the file holds
   the first 64 MiB of all of it and the writer goes on; otherwise the file keeps a beginning and the writer is done.
   */
  lemma {:induction false} WriteIsTaken(s: State, name: Name, source: bytes, disk: Disk, now: int, all: bytes)
    requires name in s.writers && s.writers[name] == Holding(all)
    ensures var t := After(s, WriteSource(name, source, disk, now));
            var more := all + source;
            if disk.Stored? || source == [] || |all| >= 67_108_864 then
              t == s.(files := s.files[name := Entry(true, more[..Min(|more|, 67_108_864)], now)],
                      writers := s.writers[name := Holding(more)])
            else
              && t == s.(files := s.files[name := t.files[name]], writers := s.writers - {name},
                         failed := s.failed + {name})
              && t.files[name].content <= more && |t.files[name].content| <= 67_108_864
  {
    WriteExtends(all, source);
    if disk.Stored? || source == [] || |all| >= 67_108_864 { DiskUnused(Holding(all), source, disk); }
    var w := Write(Holding(all), source, disk).0;
    TornIsBeginning(all, source, disk);
    hide Write;
  }

  lemma {:induction false} DiskUnused(w: WriterState, source: bytes, disk: Disk)
    requires disk.Stored? || source == [] || w.bytesWritten >= 67_108_864
    ensures Write(w, source, disk) == Write(w, source, Stored) && Write(w, source, disk).1.Some?
  {
  }

  lemma {:induction false} TornIsBeginning(all: bytes, source: bytes, disk: Disk)
    ensures var (w, r) := Write(Holding(all), source, disk);
            w.file <= all + source && |w.file| <= 67_108_864
            && (disk.Torn? && source != [] && |all| < 67_108_864 ==> r.None?)
  {
  }
}
