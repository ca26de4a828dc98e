/** The audit log: append-only, rotated by a cascade of renames, poisoned by its first failure. */
module AuditLog {
  import opened Bytes
  import opened SpoolWriter

  /** The log directory. Slot 0 is the live file, slot `i` the file rotated `i` times. */
  type Slots = map<nat, bytes>

  datatype Config = Config(rotationBytes: nat, retained: nat)

  function Get(slots: Slots, i: nat): bytes { if i in slots then slots[i] else [] }

  /** Reading slots `n` down to 1 and then the live file, skipping gaps. */
  function Log(slots: Slots, n: nat): bytes
  {
    if n == 0 then Get(slots, 0) else Get(slots, n) + Log(slots, n - 1)
  }

  // ------------------------------------------------------------ rotation, as a function of how far it gets

  /** The oldest slot is gone and slots from `i` up have moved one further. */
  function Shifted(slots: Slots, retained: nat, i: nat): Slots
  {
    (map j | j in slots && (j < i || j > retained) :: slots[j])
      + (map j | 0 < j <= retained && i < j && Below(j) in slots :: slots[Below(j)])
  }

  function Below(j: nat): nat { if j == 0 then 0 else j - 1 }

  function Renamed(slots: Slots, from: nat, to: nat): Slots
  {
    if from in slots then slots[to := slots[from]] - {from} else slots
  }

  function Opened(slots: Slots): Slots { if 0 in slots then slots else slots[0 := []] }

  /**
   The directory when the first `k` operations of a rotation were done: sync the file, remove the oldest slot, rename
   each slot from the second oldest down to the live one, open the new live file, sync the directory.
   */
  function RotatedTo(slots: Slots, retained: nat, k: nat): Slots
  {
    if k <= 1 then slots
    else if k <= retained + 2 then Shifted(slots, retained, retained + 2 - k)
    else Opened(Shifted(slots, retained, 0))
  }

  /** How many operations a whole rotation takes. */
  function RotationLength(retained: nat): nat { retained + 4 }

  // ------------------------------------------------------------ the sink, as a function

  datatype SinkState = SinkState(slots: Slots, fileOpen: bool, bytesWritten: u64, healthy: bool)

  /** What happens to the disk during an append: where a rotation stops if it is needed, and what the write does. */
  datatype Fate = Fate(rotationSteps: nat, disk: Disk)

  predicate NeedsRotation(bytesWritten: u64, line: bytes, c: Config)
  {
    bytesWritten > 0 && SatAdd(bytesWritten, |line|) > c.rotationBytes
  }

  /** `rotate_locked` and whether it succeeded. */
  function AfterRotation(s: SinkState, c: Config, steps: nat): (SinkState, bool)
  {
    var slots := RotatedTo(s.slots, c.retained, steps);
    if steps < RotationLength(c.retained) then (s.(slots := slots, fileOpen := false), false)
    else (s.(slots := slots, fileOpen := true, bytesWritten := Min(|Get(slots, 0)|, U64_MAX)), true)
  }

  /** `append` of one serialised record, its newline included, and whether it was acknowledged. */
  function AfterAppend(s: SinkState, c: Config, line: bytes, fate: Fate): (SinkState, bool)
  {
    if !s.healthy then (s, false)
    else
      var (t, rotated) :=
        if NeedsRotation(s.bytesWritten, line, c) then AfterRotation(s, c, fate.rotationSteps) else (s, true);
      if !rotated || !t.fileOpen then (t.(healthy := false), false)
      else match fate.disk
        case Torn(kept) =>
          (t.(slots := t.slots[0 := Get(t.slots, 0) + line[..Min(kept, |line|)]], healthy := false), false)
        case Stored =>
          (t.(slots := t.slots[0 := Get(t.slots, 0) + line], bytesWritten := SatAdd(t.bytesWritten, |line|)), true)
  }

  /** `open`: `usable` says whether every operation on the live file and its directory succeeds. */
  function Open(slots: Slots, created: bool, usable: bool): SinkState
  {
    var found := if created || usable then Opened(slots) else slots;
    if usable then SinkState(found, true, Min(|Get(found, 0)|, U64_MAX), true) else SinkState(found, false, 0, false)
  }

  // ------------------------------------------------------------ the sink

  class AuditSink {
    const config: Config
    var slots: Slots
    var fileOpen: bool
    var bytesWritten: u64
    var healthy: bool

    constructor (left: Slots, c: Config, created: bool, usable: bool)
      ensures config == c && State() == Open(left, created, usable)
    {
      config := c;
      slots := if created || usable then Opened(left) else left;
      fileOpen := usable;
      bytesWritten := if usable then Min(|Get(Opened(left), 0)|, U64_MAX) else 0;
      healthy := usable;
    }

    function State(): SinkState
      reads this
    {
      SinkState(slots, fileOpen, bytesWritten, healthy)
    }

    /** The rename cascade, which an error or a crash may stop before its operation number `steps`. */
    method RotateLocked(steps: nat) returns (ok: bool)
      modifies this
      ensures (State(), ok) == AfterRotation(old(State()), config, steps)
    {
      hide Shifted;
      fileOpen := false;
      if steps <= 1 { return false; }
      if config.retained > 0 {
        RemoveOldest(slots, config.retained);
        slots := slots - {config.retained};
        var index := config.retained - 1;
        while index > 0
          invariant 0 <= index < config.retained
          invariant steps >= config.retained + 1 - index
          invariant slots == Shifted(old(slots), config.retained, index + 1)
          invariant healthy == old(healthy) && !fileOpen && bytesWritten == old(bytesWritten)
        {
          if steps == config.retained + 1 - index { return false; }
          RenameShifts(old(slots), config.retained, index);
          if index in slots { slots := slots[index + 1 := slots[index]] - {index}; }
          index := index - 1;
        }
        if steps == config.retained + 1 { return false; }
        RenameShifts(old(slots), config.retained, 0);
        if 0 in slots { slots := slots[1 := slots[0]] - {0}; }
      } else {
        RemoveOldest(slots, 0);
        slots := slots - {0};
      }
      if steps == config.retained + 2 { return false; }
      if 0 !in slots { slots := slots[0 := []]; }
      if steps == config.retained + 3 { return false; }
      fileOpen := true;
      bytesWritten := Min(|slots[0]|, U64_MAX);
      return true;
    }

    method Append(line: bytes, fate: Fate) returns (ok: bool)
      modifies this
      ensures (State(), ok) == AfterAppend(old(State()), config, line, fate)
    {
      hide RotatedTo;
      if !healthy { return false; }
      if NeedsRotation(bytesWritten, line, config) {
        var rotated := RotateLocked(fate.rotationSteps);
        if !rotated {
          healthy := false;
          return false;
        }
      }
      if !fileOpen {
        healthy := false;
        return false;
      }
      match fate.disk
      case Torn(kept) =>
        slots := slots[0 := Get(slots, 0) + line[..Min(kept, |line|)]];
        healthy := false;
        return false;
      case Stored =>
        slots := slots[0 := Get(slots, 0) + line];
        bytesWritten := SatAdd(bytesWritten, |line|);
        return true;
    }
  }

  // ------------------------------------------------------------ one rename at a time

  lemma {:induction false} RemoveOldest(slots: Slots, retained: nat)
    ensures slots - {retained} == Shifted(slots, retained, retained)
  {
  }

  /** Each rename moves its slot into a free one: nothing is overwritten. */
  lemma {:induction false} RenameShifts(slots: Slots, retained: nat, i: nat)
    requires i < retained
    ensures var before := Shifted(slots, retained, i + 1);
            && i + 1 !in before
            && (i in before <==> i in slots)
            && Shifted(slots, retained, i) == Renamed(before, i, i + 1)
  {
    var before, after := Shifted(slots, retained, i + 1), Shifted(slots, retained, i);
    ShiftedAt(slots, retained, i + 1, i);
    ShiftedAt(slots, retained, i + 1, i + 1);
    var moved := Renamed(before, i, i + 1);
    hide Shifted, Renamed;
    forall j: nat ensures SameAt(after, moved, j) { RenamedAt(slots, retained, i, j); }
    SameEverywhere(after, moved);
  }

  ghost predicate SameAt(a: Slots, b: Slots, j: nat) { (j in a <==> j in b) && (j in a ==> a[j] == b[j]) }

  lemma {:induction false} SameEverywhere(a: Slots, b: Slots)
    requires forall j: nat :: SameAt(a, b, j)
    ensures a == b
  {
    forall j | j in a.Keys ensures j in b.Keys { assert SameAt(a, b, j); }
    forall j | j in b.Keys ensures j in a.Keys { assert SameAt(a, b, j); }
    forall j | j in a ensures a[j] == b[j] { assert SameAt(a, b, j); }
  }

  lemma {:induction false} RenamedAt(slots: Slots, retained: nat, i: nat, j: nat)
    requires i < retained
    ensures SameAt(Shifted(slots, retained, i), Renamed(Shifted(slots, retained, i + 1), i, i + 1), j)
  {
    ShiftedAt(slots, retained, i, j);
    ShiftedAt(slots, retained, i + 1, j);
    ShiftedAt(slots, retained, i + 1, i);
    hide Shifted;
  }

  /** One slot after the slots from `i` up have moved. */
  lemma {:induction false} ShiftedAt(slots: Slots, retained: nat, i: nat, j: nat)
    ensures var t := Shifted(slots, retained, i);
            && (j < i || j > retained ==> (j in t <==> j in slots) && (j in t ==> t[j] == slots[j]))
            && (i <= j <= retained && (j == i || j == 0) ==> j !in t)
            && (i < j <= retained ==> (j in t <==> j - 1 in slots) && (j in t ==> t[j] == slots[j - 1]))
  {
  }

  /** However far the cascade got, reading the slots in order gives everything but the slot that was dropped. */
  lemma {:induction false} ShiftedLog(slots: Slots, retained: nat, i: nat, m: nat)
    requires i <= m <= retained
    ensures Log(Shifted(slots, retained, i), m) == if m == 0 then [] else Log(slots, m - 1)
    decreases m
  {
    var shifted := Shifted(slots, retained, i);
    if m > i {
      ShiftedLog(slots, retained, i, m - 1);
      assert Get(shifted, m) == Get(slots, m - 1);
    } else if m > 0 {
      assert m !in shifted;
      LogBelow(shifted, slots, m - 1);
    }
  }

  lemma {:induction false} LogBelow(a: Slots, b: Slots, m: nat)
    requires forall j :: 0 <= j <= m ==> Get(a, j) == Get(b, j)
    ensures Log(a, m) == Log(b, m)
    decreases m
  {
    if m > 0 { LogBelow(a, b, m - 1); }
  }

  lemma {:induction false} OpenedLog(slots: Slots, m: nat)
    ensures Log(Opened(slots), m) == Log(slots, m)
  {
    LogBelow(Opened(slots), slots, m);
  }

  /** A rotation, whole or cut anywhere, only ever drops the oldest slot from the log. */
  lemma {:induction false} RotationDropsOldest(slots: Slots, retained: nat, k: nat)
    ensures Log(RotatedTo(slots, retained, k), retained)
         == if k <= 1 then Log(slots, retained) else Log(slots, retained)[|Get(slots, retained)|..]
  {
    hide Shifted, Get;
    if k > 1 {
      ShiftedLog(slots, retained, if k <= retained + 2 then retained + 2 - k else 0, retained);
      OpenedLog(Shifted(slots, retained, 0), retained);
      hide Opened;
    }
  }

  /** Appending to the live file appends to the log. */
  lemma {:induction false} AppendedLog(slots: Slots, m: nat, more: bytes)
    ensures Log(slots[0 := Get(slots, 0) + more], m) == Log(slots, m) + more
    decreases m
  {
    if m > 0 { AppendedLog(slots, m - 1, more); }
  }

  // ------------------------------------------------------------ every run of the log

  /** One event in the life of the log; a crash is an append cut short, or none, followed by `Reopen`. */
  datatype Event = Appending(line: bytes, fate: Fate) | Reopen(created: bool, usable: bool)

  function After(s: SinkState, c: Config, e: Event): SinkState
  {
    match e
    case Appending(line, fate) => AfterAppend(s, c, line, fate).0
    case Reopen(created, usable) => Open(s.slots, created, usable)
  }

  /** The bytes an event adds to the live file. */
  function Landed(s: SinkState, c: Config, e: Event): bytes
  {
    match e
    case Reopen(_, _) => []
    case Appending(line, fate) =>
      var (t, rotated) :=
        if s.healthy && NeedsRotation(s.bytesWritten, line, c) then AfterRotation(s, c, fate.rotationSteps)
        else (s, true);
      if !s.healthy || !rotated || !t.fileOpen then []
      else if fate.disk.Torn? then line[..Min(fate.disk.kept, |line|)] else line
  }

  /** The sink after a run that starts with an empty directory, and every byte ever appended. */
  function Run(c: Config, events: seq<Event>): (SinkState, bytes)
  {
    if events == [] then (SinkState(map[], false, 0, false), [])
    else
      var last := events[|events| - 1];
      var (s, appended) := Run(c, events[..|events| - 1]);
      (After(s, c, last), appended + Landed(s, c, last))
  }

  /** A healthy sink knows the length of its live file. */
  predicate Consistent(s: SinkState)
  {
    s.healthy ==> s.fileOpen && 0 in s.slots && s.bytesWritten == Min(|s.slots[0]|, U64_MAX)
  }

  lemma {:induction false} RotationOpensEmpty(s: SinkState, c: Config, steps: nat)
    requires AfterRotation(s, c, steps).1
    ensures Get(AfterRotation(s, c, steps).0.slots, 0) == [] && 0 in AfterRotation(s, c, steps).0.slots
  {
  }

  lemma {:induction false} EventKeepsConsistent(s: SinkState, c: Config, e: Event)
    requires Consistent(s)
    ensures Consistent(After(s, c, e))
  {
    match e
    case Reopen(_, _) =>
    case Appending(line, fate) =>
      if NeedsRotation(s.bytesWritten, line, c) && fate.rotationSteps >= RotationLength(c.retained) {
        RotationOpensEmpty(s, c, fate.rotationSteps);
      }
      hide RotatedTo;
  }

  /** An event leaves a log that is a suffix of the old one, and then what landed. */
  lemma {:induction false} EventExtendsLog(s: SinkState, c: Config, e: Event)
    requires Consistent(s)
    ensures EndsWith(Log(s.slots, c.retained) + Landed(s, c, e), Log(After(s, c, e).slots, c.retained))
  {
    hide Log, RotatedTo;
    match e
    case Reopen(_, _) => OpenedLog(s.slots, c.retained);
    case Appending(line, fate) =>
      if s.healthy {
        var t := if NeedsRotation(s.bytesWritten, line, c) then AfterRotation(s, c, fate.rotationSteps).0 else s;
        var kept := if fate.disk.Torn? then line[..Min(fate.disk.kept, |line|)] else line;
        RotationDropsOldest(s.slots, c.retained, fate.rotationSteps);
        LogStartsWithOldest(s.slots, c.retained);
        AppendedLog(t.slots, c.retained, kept);
      }
  }

  lemma {:induction false} LogStartsWithOldest(slots: Slots, m: nat)
    ensures Get(slots, m) <= Log(slots, m)
  {
  }

  lemma {:induction false} SuffixOfSuffix(all: bytes, log: bytes, more: bytes, newer: bytes)
    requires EndsWith(all, log) && EndsWith(log + more, newer)
    ensures EndsWith(all + more, newer)
  {
    assert all + more == all[..|all| - |log|] + (log + more);
  }

  lemma {:induction false} RunIsConsistent(c: Config, events: seq<Event>)
    ensures Consistent(Run(c, events).0)
    decreases |events|
  {
    if events != [] {
      var front := events[..|events| - 1];
      RunIsConsistent(c, front);
      EventKeepsConsistent(Run(c, front).0, c, events[|events| - 1]);
    }
  }

  /**
   The log survives every crash: after any run of appends, rotations stopped anywhere, torn writes and reopenings, what
   is read back is a suffix of all bytes ever appended, in order.
   */
  lemma {:induction false} LogIsSuffix(c: Config, events: seq<Event>)
    ensures var (s, appended) := Run(c, events);
            EndsWith(appended, Log(s.slots, c.retained))
    decreases |events|
  {
    if events == [] {
      NothingLogged(c.retained);
    } else {
      var front, last := events[..|events| - 1], events[|events| - 1];
      var (s, appended) := Run(c, front);
      LogIsSuffix(c, front);
      RunIsConsistent(c, front);
      EventExtendsLog(s, c, last);
      SuffixOfSuffix(appended, Log(s.slots, c.retained), Landed(s, c, last), Log(After(s, c, last).slots, c.retained));
    }
  }

  lemma {:induction false} NothingLogged(m: nat)
    ensures Log(map[], m) == []
    decreases m
  {
    if m > 0 { NothingLogged(m - 1); }
  }

  /** An acknowledged record is whole and last in the log. */
  lemma {:induction false} AcknowledgedIsLast(c: Config, events: seq<Event>, line: bytes, fate: Fate)
    requires AfterAppend(Run(c, events).0, c, line, fate).1
    ensures var t := AfterAppend(Run(c, events).0, c, line, fate).0;
            EndsWith(Get(t.slots, 0), line) && EndsWith(Log(t.slots, c.retained), line) && t.healthy
  {
    hide RotatedTo, NeedsRotation;
    var s := Run(c, events).0;
    hide Run;
    var t := if NeedsRotation(s.bytesWritten, line, c) then AfterRotation(s, c, fate.rotationSteps).0 else s;
    AppendedLog(t.slots, c.retained, line);
  }

  /** Poison: after a failure nothing is written, renamed or acknowledged until the log is opened again. */
  lemma {:induction false} PoisonHolds(s: SinkState, c: Config, lines: seq<bytes>, fates: seq<Fate>)
    requires |lines| == |fates| && !s.healthy
    ensures forall i :: 0 <= i < |lines| ==> !AfterAppend(s, c, lines[i], fates[i]).1
    ensures AppendAll(s, c, lines, fates) == s
    decreases |lines|
  {
    if lines != [] { PoisonHolds(s, c, lines[1..], fates[1..]); }
  }

  function AppendAll(s: SinkState, c: Config, lines: seq<bytes>, fates: seq<Fate>): SinkState
    requires |lines| == |fates|
    decreases |lines|
  {
    if lines == [] then s else AppendAll(AfterAppend(s, c, lines[0], fates[0]).0, c, lines[1..], fates[1..])
  }

  /** An append fails exactly when it leaves the sink poisoned. */
  lemma {:induction false} FailurePoisons(s: SinkState, c: Config, line: bytes, fate: Fate)
    ensures AfterAppend(s, c, line, fate).1 <==> AfterAppend(s, c, line, fate).0.healthy
  {
    hide RotatedTo;
  }

  // ------------------------------------------------------------ the size of the log

  /** No file outgrows the rotation size, unless one record alone does. */
  ghost predicate Sized(slots: Slots, bound: nat) { forall j :: j in slots ==> |slots[j]| <= bound }

  ghost predicate LinesWithin(events: seq<Event>, longest: nat)
  {
    forall i :: 0 <= i < |events| && events[i].Appending? ==> |events[i].line| <= longest
  }

  lemma {:induction false} ShiftKeepsSized(slots: Slots, retained: nat, k: nat, bound: nat)
    requires Sized(slots, bound)
    ensures Sized(RotatedTo(slots, retained, k), bound)
  {
  }

  lemma {:induction false} AppendKeepsSized(s: SinkState, c: Config, line: bytes, fate: Fate, bound: nat)
    requires Consistent(s) && Sized(s.slots, bound) && |line| <= bound && c.rotationBytes <= bound && bound < U64_MAX
    ensures Sized(AfterAppend(s, c, line, fate).0.slots, bound)
  {
    ShiftKeepsSized(s.slots, c.retained, fate.rotationSteps, bound);
    if NeedsRotation(s.bytesWritten, line, c) && fate.rotationSteps >= RotationLength(c.retained) {
      RotationOpensEmpty(s, c, fate.rotationSteps);
    }
    hide RotatedTo;
  }

  /** Along every run each file stays within the rotation size or the longest record, so the directory stays bounded. */
  lemma {:induction false} FilesStaySized(c: Config, events: seq<Event>, longest: nat)
    requires LinesWithin(events, longest) && longest < U64_MAX && c.rotationBytes < U64_MAX
    ensures var bound := if longest <= c.rotationBytes then c.rotationBytes else longest;
            Sized(Run(c, events).0.slots, bound)
    decreases |events|
  {
    if events != [] {
      var front, last := events[..|events| - 1], events[|events| - 1];
      var bound := if longest <= c.rotationBytes then c.rotationBytes else longest;
      FilesStaySized(c, front, longest);
      RunIsConsistent(c, front);
      if last.Appending? { AppendKeepsSized(Run(c, front).0, c, last.line, last.fate, bound); }
      hide AfterAppend;
    }
  }

  // ------------------------------------------------------------ how long a record is kept

  predicate Rotating(s: SinkState, c: Config, e: Event)
  {
    e.Appending? && s.healthy && NeedsRotation(s.bytesWritten, e.line, c)
  }

  /** How many rotations a run began, finished or not. */
  function Rotations(c: Config, events: seq<Event>): nat
  {
    if events == [] then 0
    else
      var front := events[..|events| - 1];
      Rotations(c, front) + if Rotating(Run(c, front).0, c, events[|events| - 1]) then 1 else 0
  }

  ghost predicate WithinSlot(slots: Slots, n: nat) { forall j :: j in slots ==> j <= n }

  lemma {:induction false} EventMovesOneSlot(s: SinkState, c: Config, e: Event, n: nat)
    requires WithinSlot(s.slots, n)
    ensures WithinSlot(After(s, c, e).slots, if Rotating(s, c, e) then n + 1 else n)
  {
  }

  lemma {:induction false} SlotsCountRotations(c: Config, events: seq<Event>)
    ensures WithinSlot(Run(c, events).0.slots, Rotations(c, events))
    decreases |events|
  {
    if events != [] {
      var front := events[..|events| - 1];
      SlotsCountRotations(c, front);
      EventMovesOneSlot(Run(c, front).0, c, events[|events| - 1], Rotations(c, front));
    }
  }

  lemma {:induction false} EventDropsNothing(s: SinkState, c: Config, e: Event)
    requires Consistent(s) && (Rotating(s, c, e) ==> c.retained !in s.slots)
    ensures Log(After(s, c, e).slots, c.retained) == Log(s.slots, c.retained) + Landed(s, c, e)
  {
    hide Log, RotatedTo;
    match e
    case Reopen(_, _) => OpenedLog(s.slots, c.retained);
    case Appending(line, fate) =>
      if s.healthy {
        var t := if NeedsRotation(s.bytesWritten, line, c) then AfterRotation(s, c, fate.rotationSteps).0 else s;
        RotationDropsOldest(s.slots, c.retained, fate.rotationSteps);
        AppendedLog(t.slots, c.retained, if fate.disk.Torn? then line[..Min(fate.disk.kept, |line|)] else line);
      }
  }

  /** Until more rotations were begun than slots are kept, the log holds every byte ever appended, crashes included. */
  lemma {:induction false} NothingDroppedEarly(c: Config, events: seq<Event>)
    requires Rotations(c, events) <= c.retained
    ensures var (s, appended) := Run(c, events);
            Log(s.slots, c.retained) == appended
    decreases |events|
  {
    if events == [] {
      NothingLogged(c.retained);
    } else {
      var front, last := events[..|events| - 1], events[|events| - 1];
      NothingDroppedEarly(c, front);
      SlotsCountRotations(c, front);
      RunIsConsistent(c, front);
      EventDropsNothing(Run(c, front).0, c, last);
    }
  }

  // ------------------------------------------------------------ when an append rotates

  /** A slot of a rotated directory holds what the one before it held. */
  lemma {:induction false} RotatedSlots(slots: Slots, retained: nat, j: nat)
    ensures var t := RotatedTo(slots, retained, retained + 4);
            if j == 0 then 0 in t && t[0] == []
            else if j <= retained then (j in t <==> j - 1 in slots) && (j in t ==> t[j] == slots[j - 1])
            else (j in t <==> j in slots) && (j in t ==> t[j] == slots[j])
  {
    ShiftedAt(slots, retained, 0, j);
    hide Shifted;
  }

  /** The live file is too full for the line. */
  predicate Full(live: bytes, line: bytes, c: Config) { live != [] && |live| + |line| > c.rotationBytes }

  /**
   What an append does to the directory of a healthy sink: a line that fits what is live leaves every other slot alone
   and is put behind it; one that does not is acknowledged only after a whole rotation, alone in the new live file.
   */
  lemma {:induction false} AppendsExactly(s: SinkState, c: Config, line: bytes, fate: Fate, j: nat)
    requires Consistent(s) && s.healthy && c.rotationBytes < U64_MAX
    ensures var (t, ok) := AfterAppend(s, c, line, fate);
            var live := s.slots[0];
            var written := if fate.disk.Stored? then line else line[..Min(fate.disk.kept, |line|)];
            && (ok <==> fate.disk.Stored? && (Full(live, line, c) ==> fate.rotationSteps >= c.retained + 4))
            && (!Full(live, line, c) ==>
                && 0 in t.slots && t.slots[0] == live + written
                && (j > 0 ==> SameAt(t.slots, s.slots, j)))
            && (Full(live, line, c) && fate.rotationSteps >= c.retained + 4 ==>
                && 0 in t.slots && t.slots[0] == written
                && (1 <= j <= c.retained ==>
                    (j in t.slots <==> j - 1 in s.slots) && (j in t.slots ==> t.slots[j] == s.slots[j - 1]))
                && (j > c.retained && j > 0 ==> SameAt(t.slots, s.slots, j)))
  {
    RotatedSlots(s.slots, c.retained, 0);
    RotatedSlots(s.slots, c.retained, j);
    RotatesWhenFull(s, c, line);
    if fate.rotationSteps >= c.retained + 4 { WholeRotation(s.slots, c.retained, fate.rotationSteps); }
    hide RotatedTo, NeedsRotation;
  }

  lemma {:induction false} RotatesWhenFull(s: SinkState, c: Config, line: bytes)
    requires Consistent(s) && s.healthy && c.rotationBytes < U64_MAX
    ensures NeedsRotation(s.bytesWritten, line, c) <==> Full(s.slots[0], line, c)
  {
  }

  lemma {:induction false} WholeRotation(slots: Slots, retained: nat, steps: nat)
    requires steps >= retained + 4
    ensures RotatedTo(slots, retained, steps) == RotatedTo(slots, retained, retained + 4)
  {
    hide Shifted;
  }

  /** Opening gives a sink that appends exactly when the file can be used, and changes nothing that is logged. */
  lemma {:induction false} OpensExactly(slots: Slots, created: bool, usable: bool, j: nat)
    ensures var s := Open(slots, created, usable);
            && (s.healthy <==> usable) && Consistent(s)
            && (j > 0 || 0 in slots ==> SameAt(s.slots, slots, j))
            && (0 !in slots ==> if created || usable then 0 in s.slots && s.slots[0] == [] else 0 !in s.slots)
  {
  }
}
