/** `git log`: the bounded walk, one commit object for each identifier, and what its truncation flag promises. */
module HistoryLog {
  import opened Wrappers
  import opened Bytes
  import opened Utf8
  import opened SpoolWriter
  import opened HistoryText
  import opened HistoryCommand
  import Capture
  import opened CommitObject

  const OID_WALK_MAX_BYTES: nat := 32 * 1024
  const GIT_LOG_MAX_LIMIT: nat := 100

  datatype LogResult = LogResult(commits: seq<CommitSummary>, truncated: bool)

  // ------------------------------------------------------------ the walk

  /** A line without the carriage return its line end may have. */
  function Stripped(line: bytes): bytes
  {
    if line != [] && line[|line| - 1] == '\r' then line[..|line| - 1] else line
  }

  function StrippedAll(lines: seq<bytes>): (r: seq<bytes>)
    ensures |r| == |lines|
    ensures forall i :: 0 <= i < |lines| ==> r[i] == Stripped(lines[i])
  {
    if lines == [] then [] else [Stripped(lines[0])] + StrippedAll(lines[1..])
  }

  /** `str::lines`: what is left after the last line feed is a line only when it is not empty. */
  function TextLines(text: bytes): seq<bytes>
  {
    var parts := Split(text, LF);
    var last := parts[|parts| - 1];
    StrippedAll(parts[..|parts| - 1]) + if last == [] then [] else [last]
  }

  ghost predicate AllOids(oids: seq<bytes>) { forall i :: 0 <= i < |oids| ==> IsOid(oids[i]) }

  method ParseOidWalk(stdout: bytes) returns (r: Option<seq<bytes>>)
    ensures r.Some? <==> stdout == [] || (Valid(stdout) && AllOids(TextLines(stdout)))
    ensures r.Some? ==> r.value == if stdout == [] then [] else TextLines(stdout)
  {
    hide IsOid, Valid, TextLines;
    if stdout == [] { return Some([]); }
    if !Valid(stdout) { return None; }
    var lines := TextLines(stdout);
    var oids: seq<bytes> := [];
    for i := 0 to |lines|
      invariant oids == lines[..i]
      invariant AllOids(oids)
    {
      if !IsOid(lines[i]) { return None; }
      oids := oids + [lines[i]];
    }
    return Some(oids);
  }

  ghost function Walked(stdout: bytes): Option<seq<bytes>>
  {
    if stdout == [] then Some([])
    else if Valid(stdout) && AllOids(TextLines(stdout)) then Some(TextLines(stdout)) else None
  }

  lemma {:induction false} OidText(oid: bytes)
    requires IsOid(oid)
    ensures LF !in oid && Stripped(oid) == oid && oid != [] && Ascii(oid) && |oid| <= 64
  {
  }

  lemma {:induction false} WalkText(oids: seq<bytes>)
    requires AllOids(oids)
    ensures var text := Terminated(oids, LF); SepFree(oids, LF) && Ascii(text) && |text| <= 65 * |oids|
    decreases |oids|
  {
    if oids != [] {
      OidText(oids[0]);
      WalkText(oids[1..]);
    }
  }

  lemma {:induction false} LinesComeBack(oids: seq<bytes>)
    requires AllOids(oids)
    ensures TextLines(Terminated(oids, LF)) == oids
  {
    var text := Terminated(oids, LF);
    WalkText(oids);
    SplitTerminated(oids, LF, []);
    assert text + [] == text && Split(text, LF) == oids + [[]];
    forall i | 0 <= i < |oids| ensures Stripped(oids[i]) == oids[i] { OidText(oids[i]); }
    hide Terminated, Split, Stripped, Ascii, IsOid;
    assert (oids + [[]])[..|oids|] == oids;
    assert StrippedAll(oids) == oids;
  }

  /** The printed walk is read back. */
  lemma {:induction false} WalkComesBack(oids: seq<bytes>)
    requires AllOids(oids)
    ensures Walked(Terminated(oids, LF)) == Some(oids)
  {
    LinesComeBack(oids);
    WalkText(oids);
    AsciiIsValid(Terminated(oids, LF));
    if oids != [] { assert |Terminated(oids, LF)| > 0; }
    hide TextLines, Ascii, Valid, IsOid;
  }

  /**
   The walk is these identifiers, each behind a line end with or without a carriage return; the last needs no line end,
   and then has no carriage return.
   */
  ghost predicate WalkOf(stdout: bytes, oids: seq<bytes>, lines: seq<bytes>, last: bytes)
  {
    && stdout == Terminated(lines, LF) + last
    && |oids| == |lines| + (if last == [] then 0 else 1)
    && (forall i :: 0 <= i < |lines| ==> lines[i] == oids[i] || lines[i] == oids[i] + ['\r'])
    && (last != [] ==> last == oids[|lines|])
  }

  lemma {:induction false} StrippedExactly(line: bytes, oid: bytes)
    requires IsOid(oid)
    ensures Stripped(line) == oid <==> line == oid || line == oid + ['\r']
  {
    if Stripped(line) == oid && line != oid { assert line == oid + ['\r']; }
    if line == oid + ['\r'] { assert line[..|line| - 1] == oid; }
  }

  /** Such lines hold no line feed and no byte outside ASCII. */
  lemma {:induction false} WalkLines(lines: seq<bytes>, last: bytes)
    requires (forall i :: 0 <= i < |lines| ==> Ascii(lines[i])) && Ascii(last)
    ensures Ascii(Terminated(lines, LF) + last)
    decreases |lines|
  {
    if lines != [] {
      WalkLines(lines[1..], last);
      assert Terminated(lines, LF) + last == lines[0] + [LF] + (Terminated(lines[1..], LF) + last);
    } else {
      assert [] + last == last;
    }
  }

  lemma {:induction false} WalkTaken(stdout: bytes, oids: seq<bytes>) returns (lines: seq<bytes>, last: bytes)
    requires Walked(stdout) == Some(oids)
    ensures AllOids(oids) && WalkOf(stdout, oids, lines, last)
  {
    SplitJoins(stdout, LF);
    var parts := Split(stdout, LF);
    lines, last := parts[..|parts| - 1], parts[|parts| - 1];
    if stdout == [] {
      WalkOfNothing();
      lines, last := [], [];
    } else {
      forall i | 0 <= i < |lines| ensures lines[i] == oids[i] || lines[i] == oids[i] + ['\r'] {
        StrippedExactly(lines[i], oids[i]);
      }
      hide Split, Terminated, Valid, IsOid, Stripped;
    }
  }

  lemma {:induction false} WalkOfNothing()
    ensures WalkOf([], [], [], [])
  {
  }

  lemma {:induction false} LinesAreText(oids: seq<bytes>, lines: seq<bytes>, last: bytes)
    requires SepFree(lines, LF) && LF !in last && |oids| == |lines| + (if last == [] then 0 else 1)
    requires (forall i :: 0 <= i < |lines| ==> Stripped(lines[i]) == oids[i]) && (last != [] ==> last == oids[|lines|])
    ensures TextLines(Terminated(lines, LF) + last) == oids
  {
    SplitTerminated(lines, LF, last);
    hide Split, Terminated, Stripped, SepFree;
    assert (lines + [last])[..|lines|] == lines;
    assert StrippedAll(lines) == oids[..|lines|];
  }

  lemma {:induction false} WalkReads(stdout: bytes, oids: seq<bytes>, lines: seq<bytes>, last: bytes)
    requires AllOids(oids) && WalkOf(stdout, oids, lines, last)
    ensures Walked(stdout) == Some(oids)
  {
    hide Terminated, Valid, IsOid, Stripped, TextLines, Ascii;
    forall i | 0 <= i < |lines| ensures Stripped(lines[i]) == oids[i] && LF !in lines[i] && Ascii(lines[i]) {
      WalkLine(lines[i], oids[i]);
    }
    if last != [] { OidText(last); } else { NoText(); }
    WalkLines(lines, last);
    AsciiIsValid(stdout);
    LinesAreText(oids, lines, last);
    if stdout == [] { NoText(); }
  }

  lemma {:induction false} NoText()
    ensures Ascii([]) && TextLines([]) == []
  {
  }

  lemma {:induction false} WalkLine(line: bytes, oid: bytes)
    requires IsOid(oid) && (line == oid || line == oid + ['\r'])
    ensures Stripped(line) == oid && LF !in line && Ascii(line)
  {
    StrippedExactly(line, oid);
    OidText(oid);
  }

  /** The walk's language, for any bytes: these identifiers are read exactly when the output is made of them. */
  lemma {:induction false} WalkExactly(stdout: bytes, oids: seq<bytes>)
    ensures Walked(stdout) == Some(oids) <==> AllOids(oids) && exists lines, last :: WalkOf(stdout, oids, lines, last)
  {
    hide *;
    if Walked(stdout) == Some(oids) {
      var lines, last := WalkTaken(stdout, oids);
    }
    forall lines, last | AllOids(oids) && WalkOf(stdout, oids, lines, last) ensures Walked(stdout) == Some(oids) {
      WalkReads(stdout, oids, lines, last);
    }
  }

  // ------------------------------------------------------------ the log, as a function

  /** `read_commit_summary`. */
  function ReadSummary(printed: Command, oid: bytes): Result<CommitSummary, HistoryError>
  {
    if !IsOid(oid) then Err(GitReadFailed)
    else match ReadOutput(printed, COMMIT_OBJECT_MAX_BYTES)
      case Err(e) => Err(e)
      case Ok(raw) => ParseSummary(oid, raw)
  }

  method ReadCommitSummary(printed: Command, oid: bytes) returns (r: Result<CommitSummary, HistoryError>)
    ensures r == ReadSummary(printed, oid)
    ensures !IsOid(oid) ==> r == Err(GitReadFailed)
  {
    if !IsOid(oid) { return Err(GitReadFailed); }
    var raw := ReadHistoryOutput(printed, COMMIT_OBJECT_MAX_BYTES);
    if raw.Err? { return Err(raw.error); }
    r := ParseCommitObject(oid, raw.value);
  }

  /** The summaries of `oids` in order, or the first failure. */
  function ReadSummaries(oids: seq<bytes>, objects: bytes -> Command): Result<seq<CommitSummary>, HistoryError>
  {
    if oids == [] then Ok([])
    else
      var front := oids[..|oids| - 1];
      match ReadSummaries(front, objects)
      case Err(e) => Err(e)
      case Ok(commits) =>
        match ReadSummary(objects(oids[|oids| - 1]), oids[|oids| - 1])
        case Err(e) => Err(e)
        case Ok(commit) => Ok(commits + [commit])
  }

  ghost function RunLog(limit: nat, walk: Command, objects: bytes -> Command): Result<LogResult, HistoryError>
  {
    if limit == 0 || limit > GIT_LOG_MAX_LIMIT then Err(GitReadFailed)
    else match ReadOutput(walk, OID_WALK_MAX_BYTES)
      case Err(e) => Err(e)
      case Ok(stdout) =>
        match Walked(stdout)
        case None => Err(GitReadFailed)
        case Some(oids) =>
          if |oids| > limit + 1 then Err(GitReadFailed)
          else match ReadSummaries(oids[..Min(|oids|, limit)], objects)
            case Err(e) => Err(e)
            case Ok(commits) => Ok(LogResult(commits, |oids| > limit))
  }

  /** `run_git_log` from the walk on. */
  method RunGitLog(limit: nat, walk: Command, objects: bytes -> Command) returns (r: Result<LogResult, HistoryError>)
    ensures r == RunLog(limit, walk, objects)
  {
    if limit == 0 || limit > GIT_LOG_MAX_LIMIT { return Err(GitReadFailed); }
    var stdout := ReadHistoryOutput(walk, OID_WALK_MAX_BYTES);
    if stdout.Err? { return Err(stdout.error); }
    var walked := ParseOidWalk(stdout.value);
    if walked.None? { return Err(GitReadFailed); }
    var oids := walked.value;
    if |oids| > limit + 1 { return Err(GitReadFailed); }
    var truncated := |oids| > limit;
    ghost var shown := oids[..Min(|oids|, limit)];
    if truncated { oids := oids[..limit]; }
    assert oids == shown;
    var commits := ReadCommits(oids, objects);
    if commits.Err? { return Err(commits.error); }
    return Ok(LogResult(commits.value, truncated));
  }

  method ReadCommits(oids: seq<bytes>, objects: bytes -> Command) returns (r: Result<seq<CommitSummary>, HistoryError>)
    ensures r == ReadSummaries(oids, objects)
  {
    hide ReadSummary;
    var commits: seq<CommitSummary> := [];
    for i := 0 to |oids|
      invariant ReadSummaries(oids[..i], objects) == Ok(commits)
    {
      assert oids[..i + 1][..i] == oids[..i];
      var commit := ReadCommitSummary(objects(oids[i]), oids[i]);
      if commit.Err? {
        FirstFailure(oids, i + 1, objects);
        return Err(commit.error);
      }
      commits := commits + [commit.value];
    }
    assert oids[..|oids|] == oids;
    return Ok(commits);
  }

  /** A failure stays the answer however many commits follow. */
  lemma {:induction false} FirstFailure(oids: seq<bytes>, k: nat, objects: bytes -> Command)
    requires k <= |oids| && ReadSummaries(oids[..k], objects).Err?
    ensures ReadSummaries(oids, objects) == ReadSummaries(oids[..k], objects)
    decreases |oids|
  {
    if k == |oids| {
      assert oids[..k] == oids;
    } else {
      var front := oids[..|oids| - 1];
      assert front[..k] == oids[..k];
      FirstFailure(front, k, objects);
    }
  }

  // ------------------------------------------------------------ what the log promises

  datatype Stored = Stored(oid: bytes, commit: Commit)

  function OidsOf(history: seq<Stored>): (r: seq<bytes>)
    ensures |r| == |history|
    ensures forall i :: 0 <= i < |history| ==> r[i] == history[i].oid
  {
    if history == [] then [] else [history[0].oid] + OidsOf(history[1..])
  }

  /** Whether a printed commit can be shown: its whole object fits 64 KiB and its identities are readable. */
  predicate Readable(c: Commit) { |Print(c)| <= COMMIT_OBJECT_MAX_BYTES && ReadBack(c).Some? }

  /** What a printed commit must be shown as, or the failure it causes. */
  function ShownAs(s: Stored): (r: Result<CommitSummary, HistoryError>)
    requires IsOid(s.oid)
    ensures r.Ok? <==> Readable(s.commit)
  {
    if |Print(s.commit)| > COMMIT_OBJECT_MAX_BYTES then Err(OutputLimitExceeded)
    else match ReadBack(s.commit)
      case None => Err(GitReadFailed)
      case Some(d) => Ok(Expected(s.oid, d))
  }

  ghost predicate AllNamed(history: seq<Stored>) { forall i :: 0 <= i < |history| ==> IsOid(history[i].oid) }

  /** A history whose objects git can print. */
  ghost predicate Printable(history: seq<Stored>, objects: bytes -> Command)
  {
    forall i :: 0 <= i < |history| ==>
      && IsOid(history[i].oid) && PrintableCommit(history[i].commit)
      && Writes(objects(history[i].oid), Print(history[i].commit))
  }

  ghost predicate AllReadable(history: seq<Stored>)
  {
    forall i :: 0 <= i < |history| ==> Readable(history[i].commit)
  }

  /** Every commit as it must be shown, in order; or the failure of the first that cannot be. */
  ghost predicate Answers(r: Result<seq<CommitSummary>, HistoryError>, history: seq<Stored>)
    requires AllNamed(history)
  {
    match r
    case Ok(commits) =>
      && AllReadable(history) && |commits| == |history|
      && forall i :: 0 <= i < |history| ==> Ok(commits[i]) == ShownAs(history[i])
    case Err(e) => exists i :: 0 <= i < |history| && FailsFirst(history, i, e)
  }

  /** The commit at `i` is the first that cannot be shown, and `e` says why. */
  ghost predicate FailsFirst(history: seq<Stored>, i: nat, e: HistoryError)
    requires AllNamed(history) && i < |history|
  {
    ShownAs(history[i]) == Err(e) && AllReadable(history[..i])
  }

  /**
   One commit is read exactly when its whole object, message included, fits 64 KiB and its identities are readable.
   */
  lemma {:induction false} SummaryIsRead(printed: Command, oid: bytes, c: Commit)
    requires IsOid(oid) && PrintableCommit(c) && Writes(printed, Print(c))
    ensures ReadSummary(printed, oid)
         == if |Print(c)| > COMMIT_OBJECT_MAX_BYTES then Err(OutputLimitExceeded)
            else match ReadBack(c) case None => Err(GitReadFailed) case Some(d) => Ok(Expected(oid, d))
  {
    OutputExactly(printed, COMMIT_OBJECT_MAX_BYTES, Print(c));
    PrintedParts(c);
    CommitRoundTrip(oid, c);
    hide *;
  }

  lemma {:induction false} SummariesAreRead(history: seq<Stored>, objects: bytes -> Command)
    requires AllNamed(history) && Printable(history, objects)
    ensures Answers(ReadSummaries(OidsOf(history), objects), history)
    decreases |history|
  {
    hide *;
    if history == [] {
      NothingRead(objects);
    } else {
      var front, last := history[..|history| - 1], history[|history| - 1];
      LastIsPrintable(history, objects);
      OidsLast(history);
      ReadLast(OidsOf(history), objects);
      SummaryIsRead(objects(last.oid), last.oid, last.commit);
      AsShown(last);
      SummariesAreRead(front, objects);
      AnswersMore(ReadSummaries(OidsOf(front), objects), front, last);
      assert front + [last] == history;
    }
  }

  lemma {:induction false} NothingRead(objects: bytes -> Command)
    ensures Answers(ReadSummaries(OidsOf([]), objects), [])
  {
  }

  lemma {:induction false} LastIsPrintable(history: seq<Stored>, objects: bytes -> Command)
    requires AllNamed(history) && Printable(history, objects) && history != []
    ensures var front, last := history[..|history| - 1], history[|history| - 1];
            && AllNamed(front) && Printable(front, objects)
            && IsOid(last.oid) && PrintableCommit(last.commit) && Writes(objects(last.oid), Print(last.commit))
  {
    hide Writes, PrintableCommit, IsOid, Print;
  }

  lemma {:induction false} AsShown(s: Stored)
    requires IsOid(s.oid)
    ensures ShownAs(s)
         == if |Print(s.commit)| > COMMIT_OBJECT_MAX_BYTES then Err(OutputLimitExceeded)
            else match ReadBack(s.commit) case None => Err(GitReadFailed) case Some(d) => Ok(Expected(s.oid, d))
  {
    hide Print, ReadBack, Expected, IsOid;
  }

  /** One more commit extends a complete answer, and changes nothing about a failure. */
  lemma {:induction false} AnswersMore(before: Result<seq<CommitSummary>, HistoryError>, front: seq<Stored>,
                                       last: Stored)
    requires AllNamed(front) && IsOid(last.oid) && Answers(before, front)
    ensures AllNamed(front + [last])
    ensures var shown := ShownAs(last);
            Answers(if before.Err? then before else if shown.Err? then Err(shown.error)
                    else Ok(before.value + [shown.value]), front + [last])
  {
    hide ShownAs, Readable, IsOid;
    var history := front + [last];
    assert history[..|front|] == front;
    if before.Err? {
      var i :| 0 <= i < |front| && FailsFirst(front, i, before.error);
      assert history[..i] == front[..i];
      assert FailsFirst(history, i, before.error);
    } else if ShownAs(last).Err? {
      assert FailsFirst(history, |front|, ShownAs(last).error);
    }
  }

  lemma {:induction false} OidsLast(history: seq<Stored>)
    requires history != []
    ensures var front, last := history[..|history| - 1], history[|history| - 1];
            OidsOf(history)[..|history| - 1] == OidsOf(front) && OidsOf(history)[|history| - 1] == last.oid
  {
  }

  lemma {:induction false} ReadLast(oids: seq<bytes>, objects: bytes -> Command)
    requires oids != []
    ensures var before := ReadSummaries(oids[..|oids| - 1], objects);
            var last := ReadSummary(objects(oids[|oids| - 1]), oids[|oids| - 1]);
            ReadSummaries(oids, objects)
            == if before.Err? then before else if last.Err? then Err(last.error) else Ok(before.value + [last.value])
  {
    hide ReadSummary;
  }

  /**
   `git log` over a history in walk order, of which git can print the commits that are shown. It succeeds exactly when
   each of them fits 64 KiB and has readable identities; then they come back in order, each as its object says, and
   `truncated` is set exactly when there are more. Otherwise the error is that of the first that fails. Nothing is asked
   of the commits beyond the limit, and the walk itself never exceeds its own limit.
   */
  lemma {:induction false} LogIsExact(limit: nat, history: seq<Stored>, walk: Command, objects: bytes -> Command)
    requires 0 < limit <= GIT_LOG_MAX_LIMIT && AllNamed(history)
    requires Printable(history[..Min(|history|, limit)], objects)
    requires Writes(walk, Terminated(OidsOf(history[..Min(|history|, limit + 1)]), LF))
    ensures var shown := history[..Min(|history|, limit)];
            var r := RunLog(limit, walk, objects);
            && AllNamed(shown)
            && (r.Ok? <==> AllReadable(shown))
            && (r.Ok? ==> r.value.truncated == (|history| > limit) && Answers(Ok(r.value.commits), shown))
            && (r.Err? ==> Answers(Err(r.error), shown))
  {
    hide *;
    var n, m := Min(|history|, limit + 1), Min(|history|, limit);
    WalkCovers(history, limit);
    var oids, shown := OidsOf(history[..n]), history[..m];
    var stdout := Terminated(oids, LF);
    NamedPart(history, n);
    NamedPart(history, m);
    OidsAreOids(history[..n], oids);
    WalkText(oids);
    WalkComesBack(oids);
    OutputExactly(walk, OID_WALK_MAX_BYTES, stdout);
    LogFromWalk(limit, walk, objects, stdout, oids);
    SummariesAreRead(shown, objects);
    AnswersExactly(ReadSummaries(OidsOf(shown), objects), shown);
  }

  lemma {:induction false} NamedPart(history: seq<Stored>, k: nat)
    requires AllNamed(history) && k <= |history|
    ensures AllNamed(history[..k])
  {
    hide IsOid;
  }

  lemma {:induction false} AnswersExactly(r: Result<seq<CommitSummary>, HistoryError>, history: seq<Stored>)
    requires AllNamed(history) && Answers(r, history)
    ensures r.Ok? <==> AllReadable(history)
  {
    hide IsOid, Readable;
    if r.Err? {
      var i :| 0 <= i < |history| && FailsFirst(history, i, r.error);
      assert ShownAs(history[i]).Err?;
    }
  }

  /** The walk names every commit shown and tells whether there are more, well within its own limit. */
  lemma {:induction false} WalkCovers(history: seq<Stored>, limit: nat)
    requires limit <= GIT_LOG_MAX_LIMIT
    ensures var n, m := Min(|history|, limit + 1), Min(|history|, limit);
            && m <= n <= |history| && n <= limit + 1 && Min(n, limit) == m && (n > limit <==> |history| > limit)
            && OidsOf(history[..n])[..m] == OidsOf(history[..m])
            && 65 * n <= OID_WALK_MAX_BYTES <= RAW_SPOOL_SOURCE_CAP_BYTES - HISTORY_STDERR_MAX_BYTES
            && OID_WALK_MAX_BYTES <= U64_MAX
  {
  }

  lemma {:induction false} OidsAreOids(history: seq<Stored>, oids: seq<bytes>)
    requires oids == OidsOf(history) && AllNamed(history)
    ensures AllOids(oids)
  {
    hide IsOid;
  }

  lemma {:induction false} LogFromWalk(limit: nat, walk: Command, objects: bytes -> Command, stdout: bytes,
                                       oids: seq<bytes>)
    requires 0 < limit <= GIT_LOG_MAX_LIMIT && |oids| <= limit + 1
    requires ReadOutput(walk, OID_WALK_MAX_BYTES) == Ok(stdout) && Walked(stdout) == Some(oids)
    ensures var commits := ReadSummaries(oids[..Min(|oids|, limit)], objects);
            RunLog(limit, walk, objects)
            == if commits.Ok? then Ok(LogResult(commits.value, |oids| > limit)) else Err(commits.error)
  {
    hide ReadOutput, Walked, ReadSummaries;
  }

  // ------------------------------------------------------------ commands that end otherwise

  /**
   Whatever the commands' events are, a log that is answered with success asked for 1 to 100 commits, comes from a walk
   that was read whole, named nothing but identifiers and no more than were asked for and one, and shows each of them in
   order: each from a command that was read whole as well. No command behind it exited with anything but zero.
   */
  lemma {:induction false} LogIsSound(limit: nat, walk: Command, objects: bytes -> Command)
    requires RunLog(limit, walk, objects).Ok?
    ensures 0 < limit <= 100 && walk.wait == Capture.Exited(0)
    ensures ReadOutput(walk, OID_WALK_MAX_BYTES).Ok? && Walked(ReadOutput(walk, OID_WALK_MAX_BYTES).value).Some?
    ensures var oids := Walked(ReadOutput(walk, OID_WALK_MAX_BYTES).value).value;
            var r := RunLog(limit, walk, objects).value;
            && |oids| <= limit + 1 && r.truncated == (|oids| > limit) && |r.commits| == Min(|oids|, limit)
            && forall i :: 0 <= i < |r.commits| ==>
                             && objects(oids[i]).wait == Capture.Exited(0)
                             && ReadSummary(objects(oids[i]), oids[i]) == Ok(r.commits[i])
  {
    WalkFits();
    ReadExactly(walk, OID_WALK_MAX_BYTES);
    var oids := Walked(ReadOutput(walk, OID_WALK_MAX_BYTES).value).value;
    var shown := oids[..Min(|oids|, limit)];
    hide Walked, ReadSummary, ReadOutput, Delivered;
    SummariesAreSound(shown, objects);
    hide ReadSummaries;
    assert forall i :: 0 <= i < |shown| ==> shown[i] == oids[i];
  }

  lemma {:induction false} WalkFits()
    ensures OID_WALK_MAX_BYTES <= RAW_SPOOL_SOURCE_CAP_BYTES - HISTORY_STDERR_MAX_BYTES
    ensures COMMIT_OBJECT_MAX_BYTES <= RAW_SPOOL_SOURCE_CAP_BYTES - HISTORY_STDERR_MAX_BYTES
  {
  }

  lemma {:induction false} SummariesAreSound(oids: seq<bytes>, objects: bytes -> Command)
    requires ReadSummaries(oids, objects).Ok?
    ensures var commits := ReadSummaries(oids, objects).value;
            && |commits| == |oids|
            && forall i :: 0 <= i < |oids| ==>
                             && objects(oids[i]).wait == Capture.Exited(0)
                             && ReadSummary(objects(oids[i]), oids[i]) == Ok(commits[i])
    decreases |oids|
  {
    hide ReadSummary;
    if oids == [] {
    } else {
      var front, last := oids[..|oids| - 1], oids[|oids| - 1];
      hide ReadSummaries;
      ReadLast(oids, objects);
      SummariesAreSound(front, objects);
      SummaryNeedsSuccess(objects(last), last);
      assert forall i :: 0 <= i < |front| ==> oids[i] == front[i];
    }
  }

  lemma {:induction false} SummaryNeedsSuccess(printed: Command, oid: bytes)
    requires ReadSummary(printed, oid).Ok?
    ensures IsOid(oid) && printed.wait == Capture.Exited(0)
  {
    WalkFits();
    ReadExactly(printed, COMMIT_OBJECT_MAX_BYTES);
    hide ReadOutput, Delivered, ParseSummary;
  }

  lemma {:induction false} FailedSummary(printed: Command, oid: bytes, out: bytes, wait: Capture.WaitStatus)
    requires IsOid(oid) && WritesThen(printed, out, wait) && wait != Capture.Exited(0)
    requires |out| <= COMMIT_OBJECT_MAX_BYTES
    ensures ReadSummary(printed, oid) == Err(GitReadFailed)
  {
    WalkFits();
    OutputNeedsSuccess(printed, COMMIT_OBJECT_MAX_BYTES, out, wait);
    hide ReadOutput, WritesThen, IsOid;
  }

  /** A walk that does not exit with zero fails the log, whatever it printed within its limit. */
  lemma {:induction false} FailedWalkFails(limit: nat, walk: Command, objects: bytes -> Command, out: bytes,
                                           wait: Capture.WaitStatus)
    requires 0 < limit <= GIT_LOG_MAX_LIMIT
    requires WritesThen(walk, out, wait) && wait != Capture.Exited(0) && |out| <= 32_768
    ensures RunLog(limit, walk, objects) == Err(GitReadFailed)
  {
    WalkFits();
    OutputNeedsSuccess(walk, OID_WALK_MAX_BYTES, out, wait);
    hide ReadOutput, WritesThen;
  }

  /** So does a walk that prints anything but identifiers, or more of them than it was asked for. */
  lemma {:induction false} StrangeWalkFails(limit: nat, walk: Command, objects: bytes -> Command, out: bytes)
    requires Writes(walk, out) && |out| <= 32_768
    requires Walked(out).None? || |Walked(out).value| > limit + 1 || limit == 0 || limit > GIT_LOG_MAX_LIMIT
    ensures RunLog(limit, walk, objects) == Err(GitReadFailed)
  {
    WalkFits();
    OutputExactly(walk, OID_WALK_MAX_BYTES, out);
    hide ReadOutput, Writes, Walked;
  }

  /** So does one that prints more than 32 KiB. */
  lemma {:induction false} LongWalkFails(limit: nat, walk: Command, objects: bytes -> Command, out: bytes)
    requires 0 < limit <= 100 && Writes(walk, out) && |out| > 32_768
    ensures RunLog(limit, walk, objects) == Err(OutputLimitExceeded)
  {
    WalkFits();
    OutputExactly(walk, OID_WALK_MAX_BYTES, out);
    hide ReadOutput, Writes;
  }

  /** And so does the first shown commit whose command does not exit with zero. */
  lemma {:induction false} FailedCommitFails(limit: nat, walk: Command, objects: bytes -> Command, oids: seq<bytes>,
                                             i: nat, out: bytes, wait: Capture.WaitStatus)
    requires 0 < limit <= GIT_LOG_MAX_LIMIT && AllOids(oids) && |oids| <= limit + 1
    requires Writes(walk, Terminated(oids, LF)) && i < Min(|oids|, limit)
    requires ReadSummaries(oids[..i], objects).Ok?
    requires WritesThen(objects(oids[i]), out, wait) && wait != Capture.Exited(0) && |out| <= COMMIT_OBJECT_MAX_BYTES
    ensures RunLog(limit, walk, objects) == Err(GitReadFailed)
  {
    var shown := oids[..Min(|oids|, limit)];
    assert shown[..i] == oids[..i] && shown[i] == oids[i];
    assert IsOid(oids[i]);
    hide *;
    PrintedWalk(limit, walk, objects, oids);
    FailedAmong(shown, i, objects, out, wait);
  }

  lemma {:induction false} PrintedWalk(limit: nat, walk: Command, objects: bytes -> Command, oids: seq<bytes>)
    requires 0 < limit <= GIT_LOG_MAX_LIMIT && AllOids(oids) && |oids| <= limit + 1
    requires Writes(walk, Terminated(oids, LF))
    ensures var commits := ReadSummaries(oids[..Min(|oids|, limit)], objects);
            RunLog(limit, walk, objects)
            == if commits.Ok? then Ok(LogResult(commits.value, |oids| > limit)) else Err(commits.error)
  {
    WalkFits();
    WalkText(oids);
    LimitFits(limit, oids);
    hide RunLog, ReadOutput, Writes, Terminated, AllOids, ReadSummaries, Walked;
    WalkComesBack(oids);
    OutputExactly(walk, OID_WALK_MAX_BYTES, Terminated(oids, LF));
    LogFromWalk(limit, walk, objects, Terminated(oids, LF), oids);
  }

  lemma {:induction false} FailedAmong(oids: seq<bytes>, i: nat, objects: bytes -> Command, out: bytes,
                                       wait: Capture.WaitStatus)
    requires i < |oids| && IsOid(oids[i]) && ReadSummaries(oids[..i], objects).Ok?
    requires WritesThen(objects(oids[i]), out, wait) && wait != Capture.Exited(0) && |out| <= COMMIT_OBJECT_MAX_BYTES
    ensures ReadSummaries(oids, objects) == Err(GitReadFailed)
  {
    assert oids[..i + 1][..i] == oids[..i] && oids[..i + 1][i] == oids[i];
    hide *;
    FailedSummary(objects(oids[i]), oids[i], out, wait);
    ReadLast(oids[..i + 1], objects);
    FirstFailure(oids, i + 1, objects);
  }

  lemma {:induction false} LimitFits(limit: nat, oids: seq<bytes>)
    requires limit <= GIT_LOG_MAX_LIMIT && |oids| <= limit + 1
    ensures 65 * |oids| <= OID_WALK_MAX_BYTES
  {
  }
}
