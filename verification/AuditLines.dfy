/** Which acknowledged audit records are lines of their own, after torn appends and reopenings. */
module AuditLines {
  import opened Bytes
  import opened SpoolWriter
  import opened AuditLog

  /** A serialised record as it is appended: one line with its end. */
  predicate Record(line: bytes)
  {
    line != [] && line[|line| - 1] == LF && LF !in line[..|line| - 1]
  }

  /** The live file an append writes to, a rotation it begins with included. */
  function BeforeWrite(s: SinkState, c: Config, line: bytes, fate: Fate): bytes
  {
    Get((if NeedsRotation(s.bytesWritten, line, c) then AfterRotation(s, c, fate.rotationSteps).0 else s).slots, 0)
  }

  // ------------------------------------------------------------ one append

  /** A line appended to a file continues whatever its last line was. */
  lemma {:induction false} SplitContinues(a: bytes, text: bytes)
    requires LF !in text
    ensures var parts := Split(a, LF);
            Split(a + (text + [LF]), LF) == parts[..|parts| - 1] + [parts[|parts| - 1] + text, []]
    decreases |a|
  {
    var i := IndexOf(a, LF);
    if i == |a| {
      Unended(a, text);
      assert Split(a, LF) == [a] && [a][..0] + [a + text, []] == [a + text, []];
    } else {
      var head, rest := a[..i], a[i + 1..];
      SplitContinues(rest, text);
      SplitHead(head, LF, rest + (text + [LF]));
      assert Split(a, LF) == [head] + Split(rest, LF);
      hide Split, IndexOf;
      Regroup(a, i, text + [LF]);
      PartsFollow(head, Split(rest, LF), text);
    }
  }

  lemma {:induction false} Unended(a: bytes, text: bytes)
    requires LF !in a && LF !in text
    ensures Split(a + (text + [LF]), LF) == [a + text, []]
  {
    SplitHead(a + text, LF, []);
    SplitWhole([], LF);
    hide Split;
    assert a + (text + [LF]) == (a + text) + [LF] + [];
  }

  lemma {:induction false} Regroup(a: bytes, i: nat, more: bytes)
    requires i < |a| && a[i] == LF
    ensures a + more == a[..i] + [LF] + (a[i + 1..] + more)
  {
  }

  lemma {:induction false} PartsFollow(head: bytes, parts: seq<bytes>, text: bytes)
    requires parts != []
    ensures var all := [head] + parts;
            [head] + (parts[..|parts| - 1] + [parts[|parts| - 1] + text, []])
            == all[..|all| - 1] + [all[|all| - 1] + text, []]
  {
  }

  /** The last finished line of a file. */
  function LastLine(s: bytes): bytes
  {
    var parts := Split(s, LF);
    if |parts| < 2 then [] else parts[|parts| - 2]
  }

  /** An acknowledged record is the live file's last line exactly when the file was empty or ended in a line end. */
  lemma {:induction false} AcknowledgedIsLine(s: SinkState, c: Config, line: bytes, fate: Fate)
    requires Record(line) && AfterAppend(s, c, line, fate).1
    ensures var before, after := BeforeWrite(s, c, line, fate), Get(AfterAppend(s, c, line, fate).0.slots, 0);
            && after == before + line
            && (LastLine(after) == line[..|line| - 1] <==> LineEnded(before))
  {
    var before, text := BeforeWrite(s, c, line, fate), line[..|line| - 1];
    assert line == text + [LF];
    LineOfItsOwn(before, text);
    hide RotatedTo, NeedsRotation, LastLine;
  }

  lemma {:induction false} LineOfItsOwn(before: bytes, text: bytes)
    requires LF !in text
    ensures LastLine(before + (text + [LF])) == text <==> LineEnded(before)
  {
    SplitContinues(before, text);
    SplitLast(before, LF);
    hide Split;
    var last := Split(before, LF)[|Split(before, LF)| - 1];
    assert |last + text| == |last| + |text| && [] + text == text;
  }

  // ------------------------------------------------------------ every run

  ghost predicate Records(events: seq<Event>)
  {
    forall i :: 0 <= i < |events| && events[i].Appending? ==> Record(events[i].line)
  }

  /** The last bytes that landed in the file that is now live were part of a record. */
  predicate TornTail(c: Config, events: seq<Event>)
  {
    if events == [] then false
    else
      var front, last := events[..|events| - 1], events[|events| - 1];
      var s := Run(c, front).0;
      if Landed(s, c, last) != [] then last.Appending? && Landed(s, c, last) != last.line
      else Get(After(s, c, last).slots, 0) != [] && TornTail(c, front)
  }

  /** What lands is appended to the live file, which otherwise stays or is moved away. */
  lemma {:induction false} LiveAfter(s: SinkState, c: Config, e: Event)
    requires e.Appending? ==> Record(e.line)
    ensures var before, after, landed := Get(s.slots, 0), Get(After(s, c, e).slots, 0), Landed(s, c, e);
            && (landed == [] ==> after == before || after == [])
            && (landed != [] ==> e.Appending? && landed <= e.line && EndsWith(after, landed))
  {
    match e
    case Reopen(_, _) =>
    case Appending(line, fate) =>
      RotatedLive(s.slots, c.retained, fate.rotationSteps);
      hide RotatedTo, NeedsRotation;
  }

  lemma {:induction false} RotatedLive(slots: Slots, retained: nat, k: nat)
    ensures Get(RotatedTo(slots, retained, k), 0) == Get(slots, 0) || Get(RotatedTo(slots, retained, k), 0) == []
  {
  }

  /** A beginning of a record ends in a line end exactly when it is the whole record. */
  lemma {:induction false} PartOfRecord(line: bytes, part: bytes, file: bytes)
    requires Record(line) && part != [] && part <= line && EndsWith(file, part)
    ensures LineEnded(file) <==> part == line
  {
    assert part[|part| - 1] == file[|file| - 1];
    assert part[|part| - 1] == line[|part| - 1];
    if |part| < |line| { assert line[|part| - 1] == line[..|line| - 1][|part| - 1]; } else { assert part == line; }
  }

  /** At every point of every run the live file is empty or ends in a line end, exactly unless its tail is torn. */
  lemma {:induction false} LiveEndsExactly(c: Config, events: seq<Event>)
    requires Records(events)
    ensures LineEnded(Get(Run(c, events).0.slots, 0)) <==> !TornTail(c, events)
    decreases |events|
  {
    hide After, Landed;
    if events != [] {
      var front, last := events[..|events| - 1], events[|events| - 1];
      var s := Run(c, front).0;
      LiveEndsExactly(c, front);
      LiveAfter(s, c, last);
      if Landed(s, c, last) != [] {
        PartOfRecord(last.line, Landed(s, c, last), Get(After(s, c, last).slots, 0));
      }
    }
  }

  /**
   In every run: the next acknowledged record is a line of its own exactly when the live file's tail is not torn, or is
   rotated away first.
   */
  lemma {:induction false} AcknowledgedStartsLine(c: Config, events: seq<Event>, line: bytes, fate: Fate)
    requires Records(events) && Record(line) && AfterAppend(Run(c, events).0, c, line, fate).1
    ensures var s := Run(c, events).0;
            LastLine(Get(AfterAppend(s, c, line, fate).0.slots, 0)) == line[..|line| - 1]
            <==> !TornTail(c, events) || NeedsRotation(s.bytesWritten, line, c)
  {
    var s := Run(c, events).0;
    LiveEndsExactly(c, events);
    AcknowledgedIsLine(s, c, line, fate);
    hide Run, TornTail, LastLine, RotatedTo;
    if NeedsRotation(s.bytesWritten, line, c) { RotationOpensEmpty(s, c, fate.rotationSteps); }
  }

  /** No write stopped inside a record: each was stored, or failed before its first byte or after its last. */
  ghost predicate NothingTorn(events: seq<Event>)
  {
    forall i :: 0 <= i < |events| && events[i].Appending? && events[i].fate.disk.Torn? ==>
                  events[i].fate.disk.kept == 0 || events[i].fate.disk.kept >= |events[i].line|
  }

  /** Then every acknowledged record is a line of its own, through all rotations and reopenings. */
  lemma {:induction false} UntornRecordsAreLines(c: Config, events: seq<Event>, line: bytes, fate: Fate)
    requires Records(events) && NothingTorn(events)
    requires Record(line) && AfterAppend(Run(c, events).0, c, line, fate).1
    ensures LastLine(Get(AfterAppend(Run(c, events).0, c, line, fate).0.slots, 0)) == line[..|line| - 1]
  {
    NothingTornTail(c, events);
    AcknowledgedStartsLine(c, events, line, fate);
    hide *;
  }

  lemma {:induction false} NothingTornTail(c: Config, events: seq<Event>)
    requires NothingTorn(events)
    ensures !TornTail(c, events)
    decreases |events|
  {
    if events != [] {
      var front, last := events[..|events| - 1], events[|events| - 1];
      NothingTornTail(c, front);
      LandsWhole(Run(c, front).0, c, last);
      hide Landed, Run, After;
    }
  }

  lemma {:induction false} LandsWhole(s: SinkState, c: Config, e: Event)
    requires e.Appending? && e.fate.disk.Torn? ==> e.fate.disk.kept == 0 || e.fate.disk.kept >= |e.line|
    ensures Landed(s, c, e) != [] ==> e.Appending? && Landed(s, c, e) == e.line
  {
    hide RotatedTo, NeedsRotation;
    if e.Appending? { assert e.line[..0] == [] && e.line[..|e.line|] == e.line; }
  }

  /** A torn append, a reopening and an acknowledged record that starts no rotation: it is glued to the torn bytes. */
  lemma {:induction false} GluedRecord(c: Config, first: bytes, second: bytes, steps: nat, kept: nat)
    requires Record(first) && Record(second) && 0 < kept < |first|
    requires !NeedsRotation(Min(kept, U64_MAX), second, c)
    ensures var events := [Reopen(true, true), Appending(first, Fate(steps, Torn(kept))), Reopen(true, true)];
            var (t, acknowledged) := AfterAppend(Run(c, events).0, c, second, Fate(steps, Stored));
            && TornTail(c, events)
            && acknowledged && Get(t.slots, 0) == first[..kept] + second
            && LastLine(Get(t.slots, 0)) != second[..|second| - 1]
  {
    var e := Reopen(true, true);
    var events := [e, Appending(first, Fate(steps, Torn(kept))), e];
    var part := first[..kept];
    var s3 := SinkState(map[0 := part], true, Min(kept, U64_MAX), true);
    TornRun(c, first, steps, kept);
    assert !LineEnded(part) by { assert part[kept - 1] == first[..|first| - 1][kept - 1]; }
    AcknowledgedIsLine(s3, c, second, Fate(steps, Stored));
    LiveEndsExactly(c, events);
    hide NeedsRotation, LastLine, TornTail, Run;
  }

  lemma {:induction false} TornRun(c: Config, first: bytes, steps: nat, kept: nat)
    requires 0 < kept < |first|
    ensures var events := [Reopen(true, true), Appending(first, Fate(steps, Torn(kept))), Reopen(true, true)];
            Run(c, events).0 == SinkState(map[0 := first[..kept]], true, Min(kept, U64_MAX), true)
  {
    var e := Reopen(true, true);
    var events := [e, Appending(first, Fate(steps, Torn(kept))), e];
    assert events[..2] == [e, events[1]] && events[..2][..1] == [e] && [e][..0] == [];
    assert Run(c, [e]).0 == SinkState(map[0 := []], true, 0, true);
    assert [] + first[..kept] == first[..kept];
    assert Run(c, [e, events[1]]).0 == SinkState(map[0 := first[..kept]], true, 0, false);
  }
}
