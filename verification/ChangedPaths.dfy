/** Changed paths of a commit: a name-status stream joined with a numstat stream through a map. */
module ChangedPaths {
  import opened Wrappers
  import opened Bytes
  import opened Utf8
  import opened HistoryText
  import opened MapSums

  const NUL: byte := 0 as char
  const TAB: byte := '\t'
  const MAX_HISTORY_PATH_BYTES: nat := 4096
  const PATH_LIMIT: nat := 500

  datatype PathStatus = Added | Modified | Deleted | TypeChanged
  datatype Stat = Counted(insertions: u64, deletions: u64) | Binary
  datatype ChangedPath = ChangedPath(path: bytes, status: PathStatus, stat: Stat)
  datatype Summary = Summary(filesChanged: nat, insertions: nat, deletions: nat, binaryFiles: nat)
  datatype Parsed = Parsed(paths: seq<ChangedPath>, summary: Summary, pathLimitReached: bool)

  type StatMap = map<bytes, Stat>

  // ------------------------------------------------------------ tokens

  function NulTokens(input: bytes): Option<seq<bytes>>
  {
    if input == [] then Some([])
    else if input[|input| - 1] != NUL then None
    else Some(Split(input[..|input| - 1], NUL))
  }

  predicate ControlByte(b: byte) { b as int <= 0x1F || b as int == 0x7F }

  /** `validate_history_path`. */
  predicate HistoryPath(path: bytes)
  {
    && path != [] && |path| <= MAX_HISTORY_PATH_BYTES
    && path[0] != '/' && path[0] != ':' && path[0] != '-'
    && (forall i :: 0 <= i < |path| ==> !ControlByte(path[i]))
    && forall c :: c in Split(path, '/') ==> c != [] && c != "." && c != ".."
  }

  predicate ReportedPath(path: bytes) { Valid(path) && HistoryPath(path) }

  function StatusLetter(letter: bytes): Option<PathStatus>
  {
    if letter == "A" then Some(Added)
    else if letter == "M" then Some(Modified)
    else if letter == "D" then Some(Deleted)
    else if letter == "T" then Some(TypeChanged)
    else None
  }

  function ParseDecimal(value: bytes): Option<u64>
  {
    if value == [] || !AllDigits(value) then None else ParseU64(value)
  }

  /** One numstat record: two counts or two dashes, then the path. */
  function ParseNumstat(record: bytes): Option<(bytes, Stat)>
  {
    var parts := SplitN(record, 3, TAB);
    if |parts| != 3 || !ReportedPath(parts[2]) then None
    else if parts[0] == "-" && parts[1] == "-" then Some((parts[2], Binary))
    else if parts[0] == "-" || parts[1] == "-" then None
    else
      match (ParseDecimal(parts[0]), ParseDecimal(parts[1]))
      case (Some(i), Some(d)) => Some((parts[2], Counted(i, d)))
      case _ => None
  }

  // ------------------------------------------------------------ the join, as functions

  function Statuses(tokens: seq<bytes>): Option<seq<(bytes, PathStatus)>>
    decreases |tokens|
  {
    if tokens == [] then Some([])
    else if |tokens| == 1 || StatusLetter(tokens[0]).None? || !ReportedPath(tokens[1]) then None
    else match Statuses(tokens[2..])
      case None => None
      case Some(rest) => Some([(tokens[1], StatusLetter(tokens[0]).value)] + rest)
  }

  /** The records inserted in order; a malformed or repeated one is a failure. */
  function Collect(records: seq<bytes>, m: StatMap): Option<StatMap>
    decreases |records|
  {
    if records == [] then Some(m)
    else match ParseNumstat(records[0])
      case None => None
      case Some((path, stat)) => if path in m then None else Collect(records[1..], m[path := stat])
  }

  /** Each path takes its statistics out of the map. */
  function Join(statuses: seq<(bytes, PathStatus)>, m: StatMap): Option<(seq<ChangedPath>, StatMap)>
    decreases |statuses|
  {
    if statuses == [] then Some(([], m))
    else
      var (path, status) := statuses[0];
      if path !in m then None
      else match Join(statuses[1..], m - {path})
        case None => None
        case Some((paths, left)) => Some(([ChangedPath(path, status, m[path])] + paths, left))
  }

  function InsertionsOf(s: Stat): nat { if s.Counted? then s.insertions else 0 }
  function DeletionsOf(s: Stat): nat { if s.Counted? then s.deletions else 0 }
  function BinaryOf(s: Stat): nat { if s.Binary? then 1 else 0 }

  /** `Iterator::sum` at `u64` in a build without overflow checks. */
  function Wrap(n: nat): u64 { n % (U64_MAX + 1) }

  ghost function Summarize(m: StatMap): Summary
  {
    Summary(|m|, Wrap(Sum(m, InsertionsOf)), Wrap(Sum(m, DeletionsOf)), Sum(m, BinaryOf))
  }

  ghost function Joined(statuses: seq<(bytes, PathStatus)>, m: StatMap): Result<Parsed, HistoryError>
  {
    if |statuses| != |m| then Err(GitReadFailed)
    else match Join(statuses[..Min(|statuses|, PATH_LIMIT)], m)
      case None => Err(GitReadFailed)
      case Some((paths, left)) =>
        if |statuses| <= PATH_LIMIT && left != map[] then Err(GitReadFailed)
        else Ok(Parsed(paths, Summarize(m), |statuses| > PATH_LIMIT))
  }

  ghost function Parse(nameStatus: bytes, numstat: bytes): Result<Parsed, HistoryError>
  {
    match NulTokens(nameStatus)
    case None => Err(GitReadFailed)
    case Some(tokens) =>
      match Statuses(tokens)
      case None => Err(GitReadFailed)
      case Some(statuses) =>
        match NulTokens(numstat)
        case None => Err(GitReadFailed)
        case Some(records) =>
          match Collect(records, map[])
          case None => Err(GitReadFailed)
          case Some(m) => Joined(statuses, m)
  }

  // ------------------------------------------------------------ the join itself

  method ReadStatuses(tokens: seq<bytes>) returns (r: Option<seq<(bytes, PathStatus)>>)
    ensures r == Statuses(tokens)
  {
    if |tokens| % 2 != 0 {
      OddTokensFail(tokens);
      return None;
    }
    var statuses: seq<(bytes, PathStatus)> := [];
    var i := 0;
    assert tokens[0..] == tokens;
    assert forall rest :: statuses + rest == rest;
    while i < |tokens|
      invariant i <= |tokens| && i % 2 == 0
      invariant Statuses(tokens)
             == match Statuses(tokens[i..]) case None => None case Some(rest) => Some(statuses + rest)
    {
      assert tokens[i..][0] == tokens[i] && tokens[i..][1] == tokens[i + 1] && tokens[i..][2..] == tokens[i + 2..];
      var status := StatusLetter(tokens[i]);
      if status.None? || !ReportedPath(tokens[i + 1]) { return None; }
      ghost var before := statuses;
      statuses := statuses + [(tokens[i + 1], status.value)];
      assert forall rest :: before + ([(tokens[i + 1], status.value)] + rest) == statuses + rest;
      i := i + 2;
    }
    assert tokens[i..] == [] && statuses + [] == statuses;
    return Some(statuses);
  }

  lemma {:induction false} OddTokensFail(tokens: seq<bytes>)
    requires |tokens| % 2 != 0
    ensures Statuses(tokens).None?
    decreases |tokens|
  {
    if |tokens| > 1 { OddTokensFail(tokens[2..]); }
  }

  method CollectStats(records: seq<bytes>) returns (r: Option<StatMap>)
    ensures r == Collect(records, map[])
  {
    var stats: StatMap := map[];
    assert records[0..] == records;
    for i := 0 to |records|
      invariant Collect(records, map[]) == Collect(records[i..], stats)
    {
      assert records[i..][0] == records[i] && records[i..][1..] == records[i + 1..];
      var parsed := ParseNumstat(records[i]);
      if parsed.None? { return None; }
      var (path, stat) := parsed.value;
      if path in stats { return None; }
      stats := stats[path := stat];
    }
    return Some(stats);
  }

  /** Three passes over the map's values. */
  method SummarizeStats(stats: StatMap) returns (r: Summary)
    ensures r == Summarize(stats)
  {
    var insertions := SumValues(stats, InsertionsOf);
    var deletions := SumValues(stats, DeletionsOf);
    var binaryFiles := SumValues(stats, BinaryOf);
    r := Summary(|stats|, Wrap(insertions), Wrap(deletions), binaryFiles);
  }

  method ParseChangedPaths(nameStatus: bytes, numstat: bytes) returns (r: Result<Parsed, HistoryError>)
    ensures r == Parse(nameStatus, numstat)
  {
    var tokens := NulTokens(nameStatus);
    if tokens.None? { return Err(GitReadFailed); }
    var statuses := ReadStatuses(tokens.value);
    if statuses.None? { return Err(GitReadFailed); }
    var records := NulTokens(numstat);
    if records.None? { return Err(GitReadFailed); }
    var stats := CollectStats(records.value);
    if stats.None? { return Err(GitReadFailed); }
    if |statuses.value| != |stats.value| { return Err(GitReadFailed); }
    var summary := SummarizeStats(stats.value);
    var pathLimitReached := |statuses.value| > PATH_LIMIT;
    var shown := statuses.value[..Min(|statuses.value|, PATH_LIMIT)];
    var paths: seq<ChangedPath> := [];
    var left := stats.value;
    assert shown[0..] == shown;
    assert forall rest :: paths + rest == rest;
    for i := 0 to |shown|
      invariant Join(shown, stats.value)
             == match Join(shown[i..], left) case None => None case Some((rest, end)) => Some((paths + rest, end))
    {
      assert shown[i..][0] == shown[i] && shown[i..][1..] == shown[i + 1..];
      var (path, status) := shown[i];
      if path !in left { return Err(GitReadFailed); }
      ghost var before := paths;
      var entry := ChangedPath(path, status, left[path]);
      paths := paths + [entry];
      left := left - {path};
      assert forall rest :: before + ([entry] + rest) == paths + rest;
    }
    assert shown[|shown|..] == [] && paths + [] == paths;
    if !pathLimitReached && left != map[] { return Err(GitReadFailed); }
    return Ok(Parsed(paths, summary, pathLimitReached));
  }

  // ------------------------------------------------------------ the order of the statistics does not matter

  lemma {:induction false} CollectSwap(x: bytes, y: bytes, rest: seq<bytes>, m: StatMap)
    ensures Collect([x, y] + rest, m) == Collect([y, x] + rest, m)
  {
    hide ParseNumstat;
    assert ([x, y] + rest)[1..] == [y] + rest && ([y] + rest)[1..] == rest;
    assert ([y, x] + rest)[1..] == [x] + rest && ([x] + rest)[1..] == rest;
    var px, py := ParseNumstat(x), ParseNumstat(y);
    if px.Some? && py.Some? && px.value.0 != py.value.0 {
      assert m[px.value.0 := px.value.1][py.value.0 := py.value.1]
          == m[py.value.0 := py.value.1][px.value.0 := px.value.1];
    }
  }

  lemma {:induction false} CollectMoveToFront(before: seq<bytes>, x: bytes, after: seq<bytes>, m: StatMap)
    ensures Collect(before + [x] + after, m) == Collect([x] + (before + after), m)
    decreases |before|
  {
    if before == [] {
      assert before + [x] + after == [x] + (before + after);
    } else {
      var y, rest := before[0], before[1..];
      assert before + [x] + after == [y] + (rest + [x] + after);
      assert [x] + (before + after) == [x, y] + (rest + after);
      assert ([y] + (rest + [x] + after))[1..] == rest + [x] + after;
      assert ([y] + ([x] + (rest + after)))[1..] == [x] + (rest + after);
      assert [y] + ([x] + (rest + after)) == [y, x] + (rest + after);
      var p := ParseNumstat(y);
      if p.Some? && p.value.0 !in m {
        CollectMoveToFront(rest, x, after, m[p.value.0 := p.value.1]);
      }
      CollectSwap(x, y, rest + after, m);
    }
  }

  lemma {:induction false} CancelOne(x: bytes, a: multiset<bytes>, b: multiset<bytes>)
    requires multiset{x} + a == multiset{x} + b
    ensures a == b
  {
    assert a == multiset{x} + a - multiset{x};
    assert b == multiset{x} + b - multiset{x};
  }

  lemma {:induction false} RemoveOne(x: bytes, rest: seq<bytes>, before: seq<bytes>, after: seq<bytes>)
    requires multiset([x] + rest) == multiset(before + [x] + after)
    ensures multiset(rest) == multiset(before + after)
  {
    assert multiset([x] + rest) == multiset{x} + multiset(rest);
    assert multiset(before + [x] + after) == multiset(before) + multiset{x} + multiset(after);
    assert multiset(before + after) == multiset(before) + multiset(after);
    CancelOne(x, multiset(rest), multiset(before + after));
  }

  /** Any permutation of the numstat records leads to the same map, or to the same failure. */
  lemma {:induction false} CollectPermutes(a: seq<bytes>, b: seq<bytes>, m: StatMap)
    requires multiset(a) == multiset(b)
    ensures Collect(a, m) == Collect(b, m)
    decreases |a|
  {
    if a == [] {
      assert |multiset(b)| == |b|;
    } else {
      var x, rest := a[0], a[1..];
      assert a == [x] + rest;
      assert x in multiset(b);
      var j :| 0 <= j < |b| && b[j] == x;
      var before, after := b[..j], b[j + 1..];
      assert b == before + [x] + after;
      CollectMoveToFront(before, x, after, m);
      RemoveOne(x, rest, before, after);
      assert ([x] + (before + after))[1..] == before + after;
      var p := ParseNumstat(x);
      if p.Some? && p.value.0 !in m {
        CollectPermutes(rest, before + after, m[p.value.0 := p.value.1]);
      }
    }
  }

  lemma {:induction false} TokensComeBack(tokens: seq<bytes>)
    requires SepFree(tokens, NUL)
    ensures NulTokens(Terminated(tokens, NUL)) == Some(tokens)
  {
    if tokens != [] { SplitUnterminated(tokens, NUL); }
  }

  /** The whole join does not depend on the order of the numstat records, whatever the two streams hold. */
  lemma {:induction false} JoinIgnoresStatOrder(nameStatus: bytes, a: seq<bytes>, b: seq<bytes>)
    requires multiset(a) == multiset(b)
    requires SepFree(a, NUL)
    ensures Parse(nameStatus, Terminated(a, NUL)) == Parse(nameStatus, Terminated(b, NUL))
  {
    forall i | 0 <= i < |b| ensures NUL !in b[i] {
      assert b[i] in multiset(b);
      assert b[i] in a;
    }
    TokensComeBack(a);
    TokensComeBack(b);
    CollectPermutes(a, b, map[]);
  }

  // ------------------------------------------------------------ the printer and its inverse

  function LetterOf(status: PathStatus): bytes
  {
    match status case Added => "A" case Modified => "M" case Deleted => "D" case TypeChanged => "T"
  }

  function StatusTokens(entries: seq<ChangedPath>): seq<bytes>
  {
    if entries == [] then [] else [LetterOf(entries[0].status), entries[0].path] + StatusTokens(entries[1..])
  }

  /** The two count columns. */
  function CountsOf(stat: Stat): (bytes, bytes)
  {
    match stat case Binary => ("-", "-") case Counted(i, d) => (Decimal(i), Decimal(d))
  }

  function NumstatRecord(e: ChangedPath): bytes
  {
    var (i, d) := CountsOf(e.stat);
    i + [TAB] + (d + [TAB] + e.path)
  }

  function NumstatRecords(entries: seq<ChangedPath>): seq<bytes>
  {
    if entries == [] then [] else [NumstatRecord(entries[0])] + NumstatRecords(entries[1..])
  }

  predicate Distinct(entries: seq<ChangedPath>)
  {
    forall i, j :: 0 <= i < j < |entries| ==> entries[i].path != entries[j].path
  }

  predicate Reported(entries: seq<ChangedPath>)
  {
    forall i :: 0 <= i < |entries| ==> ReportedPath(entries[i].path)
  }

  function Pairs(entries: seq<ChangedPath>): (r: seq<(bytes, PathStatus)>)
    ensures |r| == |entries|
    ensures forall i :: 0 <= i < |entries| ==> r[i] == (entries[i].path, entries[i].status)
  {
    if entries == [] then [] else [(entries[0].path, entries[0].status)] + Pairs(entries[1..])
  }

  lemma {:induction false} StatusesComeBack(entries: seq<ChangedPath>)
    requires Reported(entries)
    ensures Statuses(StatusTokens(entries)) == Some(Pairs(entries))
    decreases |entries|
  {
    if entries != [] {
      StatusesComeBack(entries[1..]);
      assert StatusTokens(entries)[2..] == StatusTokens(entries[1..]);
    }
  }

  lemma {:induction false} CountsComeBack(stat: Stat)
    ensures var (i, d) := CountsOf(stat);
            && TAB !in i && TAB !in d && NUL !in i && NUL !in d
            && (stat.Binary? <==> i == "-") && (stat.Binary? <==> d == "-")
            && (stat.Counted? ==> ParseDecimal(i) == Some(stat.insertions) && ParseDecimal(d) == Some(stat.deletions))
  {
    if stat.Counted? {
      DecimalValue(stat.insertions);
      DecimalValue(stat.deletions);
      assert !IsDigit('-');
    }
  }

  lemma {:induction false} NumstatParts(e: ChangedPath)
    ensures var (i, d) := CountsOf(e.stat); SplitN(NumstatRecord(e), 3, TAB) == [i, d, e.path]
  {
    var (i, d) := CountsOf(e.stat);
    CountsComeBack(e.stat);
    SplitNHead(i, 3, TAB, d + [TAB] + e.path);
    SplitNHead(d, 2, TAB, e.path);
  }

  lemma {:induction false} NumstatComesBack(e: ChangedPath)
    requires ReportedPath(e.path)
    ensures ParseNumstat(NumstatRecord(e)) == Some((e.path, e.stat))
  {
    hide SplitN, NumstatRecord, CountsOf, ReportedPath, ParseDecimal;
    NumstatParts(e);
    CountsComeBack(e.stat);
  }

  /** The map holds the entries' statistics. */
  ghost predicate Holds(m: StatMap, entries: seq<ChangedPath>)
  {
    forall i :: 0 <= i < |entries| ==> entries[i].path in m && m[entries[i].path] == entries[i].stat
  }

  predicate NoneIn(entries: seq<ChangedPath>, m: StatMap)
  {
    forall i :: 0 <= i < |entries| ==> entries[i].path !in m
  }

  /** The rest of a list of distinct new entries is new to the map that already has the first. */
  lemma {:induction false} FirstIsIn(entries: seq<ChangedPath>, m: StatMap)
    requires entries != [] && Reported(entries) && Distinct(entries) && NoneIn(entries, m)
    ensures var e, rest := entries[0], entries[1..];
            && Reported(rest) && Distinct(rest) && NoneIn(rest, m[e.path := e.stat])
            && Collect(NumstatRecords(entries), m) == Collect(NumstatRecords(rest), m[e.path := e.stat])
  {
    var rest := entries[1..];
    assert forall i :: 0 <= i < |rest| ==> rest[i] == entries[i + 1];
    NumstatComesBack(entries[0]);
    assert NumstatRecords(entries)[1..] == NumstatRecords(rest);
  }

  function Total(entries: seq<ChangedPath>, f: Stat -> nat): nat
  {
    if entries == [] then 0 else f(entries[0].stat) + Total(entries[1..], f)
  }

  /** Collecting the printed records adds them to the map. */
  lemma {:induction false} RecordsComeBack(entries: seq<ChangedPath>, m: StatMap)
    requires Reported(entries) && Distinct(entries) && NoneIn(entries, m)
    ensures var r := Collect(NumstatRecords(entries), m);
            && r.Some? && |r.value| == |m| + |entries| && Holds(r.value, entries) && Extends(m, r.value)
    decreases |entries|
  {
    if entries != [] {
      var e, rest := entries[0], entries[1..];
      FirstIsIn(entries, m);
      assert e.path !in m;
      hide *;
      RecordsComeBack(rest, m[e.path := e.stat]);
      assert |m[e.path := e.stat]| == |m| + 1;
      HoldsMore(entries, m, Collect(NumstatRecords(rest), m[e.path := e.stat]).value);
    }
  }

  ghost predicate Extends(m: StatMap, r: StatMap) { forall p :: p in m ==> p in r && r[p] == m[p] }

  lemma {:induction false} HoldsMore(entries: seq<ChangedPath>, m: StatMap, r: StatMap)
    requires entries != [] && entries[0].path !in m
    requires Holds(r, entries[1..]) && Extends(m[entries[0].path := entries[0].stat], r)
    ensures Holds(r, entries) && Extends(m, r)
  {
    assert forall i :: 1 <= i < |entries| ==> entries[i] == entries[1..][i - 1];
    assert forall p :: p in m ==> p in m[entries[0].path := entries[0].stat];
  }

  /** And their values to its sums. */
  lemma {:induction false} RecordsAddUp(entries: seq<ChangedPath>, m: StatMap, f: Stat -> nat)
    requires Reported(entries) && Distinct(entries) && NoneIn(entries, m)
    ensures var r := Collect(NumstatRecords(entries), m);
            r.Some? && Sum(r.value, f) == Sum(m, f) + Total(entries, f)
    decreases |entries|
  {
    if entries != [] {
      var e, rest := entries[0], entries[1..];
      FirstIsIn(entries, m);
      PutIn(m, f, e.path, e.stat);
      RecordsAddUp(rest, m[e.path := e.stat], f);
    }
  }

  /** Taking the first `n` entries out of a map that has their statistics gives them back in order. */
  lemma {:induction false} JoinComesBack(entries: seq<ChangedPath>, n: nat, m: StatMap)
    requires Distinct(entries) && n <= |entries|
    requires forall i :: 0 <= i < n ==> entries[i].path in m && m[entries[i].path] == entries[i].stat
    ensures var r := Join(Pairs(entries)[..n], m);
            r.Some? && r.value.0 == entries[..n] && |r.value.1| == |m| - n
    decreases n
  {
    if n > 0 {
      var e, rest := entries[0], entries[1..];
      PairsHead(entries, n);
      Shrinks(m, e.path);
      assert forall i :: 0 <= i < |rest| ==> rest[i] == entries[i + 1];
      JoinComesBack(rest, n - 1, m - {e.path});
      assert entries[..n] == [e] + rest[..n - 1];
    }
  }

  lemma {:induction false} PairsHead(entries: seq<ChangedPath>, n: nat)
    requires 0 < n <= |entries|
    ensures Pairs(entries)[..n][0] == (entries[0].path, entries[0].status)
    ensures Pairs(entries)[..n][1..] == Pairs(entries[1..])[..n - 1]
  {
    var rest := Pairs(entries[1..]);
    assert Pairs(entries) == [(entries[0].path, entries[0].status)] + rest;
    hide Pairs;
  }

  lemma {:induction false} RecordIsNulFree(e: ChangedPath)
    requires ReportedPath(e.path)
    ensures NUL !in e.path && NUL !in NumstatRecord(e)
  {
    assert ControlByte(NUL);
    CountsComeBack(e.stat);
  }

  lemma {:induction false} PrintedTokensAreNulFree(entries: seq<ChangedPath>)
    requires Reported(entries)
    ensures SepFree(StatusTokens(entries), NUL)
    ensures SepFree(NumstatRecords(entries), NUL)
    decreases |entries|
  {
    if entries != [] {
      RecordIsNulFree(entries[0]);
      PrintedTokensAreNulFree(entries[1..]);
    }
  }

  /** The totals of all entries. */
  function TotalsOf(entries: seq<ChangedPath>): Summary
  {
    Summary(|entries|, Wrap(Total(entries, InsertionsOf)), Wrap(Total(entries, DeletionsOf)), Total(entries, BinaryOf))
  }

  lemma {:induction false} ParseParts(nameStatus: bytes, numstat: bytes, tokens: seq<bytes>, records: seq<bytes>)
    requires NulTokens(nameStatus) == Some(tokens) && NulTokens(numstat) == Some(records)
    requires Statuses(tokens).Some? && Collect(records, map[]).Some?
    ensures Parse(nameStatus, numstat) == Joined(Statuses(tokens).value, Collect(records, map[]).value)
  {
  }

  /** A map of as many paths as entries, with the statistics of the ones shown, is joined completely. */
  lemma {:induction false} JoinedWhole(entries: seq<ChangedPath>, m: StatMap)
    requires Distinct(entries) && |m| == |entries|
    requires forall i :: 0 <= i < |entries| && i < PATH_LIMIT ==>
               entries[i].path in m && m[entries[i].path] == entries[i].stat
    ensures Joined(Pairs(entries), m)
         == Ok(Parsed(entries[..Min(|entries|, PATH_LIMIT)], Summarize(m), |entries| > PATH_LIMIT))
  {
    JoinComesBack(entries, Min(|entries|, PATH_LIMIT), m);
    hide Join, Distinct, Summarize;
  }

  lemma {:induction false} SummaryOf(entries: seq<ChangedPath>, m: StatMap)
    requires |m| == |entries| && Sum(m, BinaryOf) == Total(entries, BinaryOf)
    requires Sum(m, InsertionsOf) == Total(entries, InsertionsOf) && Sum(m, DeletionsOf) == Total(entries, DeletionsOf)
    ensures Summarize(m) == TotalsOf(entries)
  {
    hide Sum, Total, Wrap;
  }

  lemma {:induction false} HeldAll(m: StatMap, entries: seq<ChangedPath>)
    requires Holds(m, entries)
    ensures forall i :: 0 <= i < |entries| ==> entries[i].path in m && m[entries[i].path] == entries[i].stat
  {
  }

  lemma {:induction false} NothingSums(f: Stat -> nat)
    ensures Sum<bytes, Stat>(map[], f) == 0
  {
  }

  /** The join of the printed streams, once both are parsed. */
  lemma {:induction false} PrintedJoin(entries: seq<ChangedPath>)
    requires Reported(entries) && Distinct(entries)
    ensures var r := Collect(NumstatRecords(entries), map[]);
            && r.Some?
            && Joined(Pairs(entries), r.value)
               == Ok(Parsed(entries[..Min(|entries|, PATH_LIMIT)], TotalsOf(entries), |entries| > PATH_LIMIT))
  {
    assert NoneIn(entries, map[]);
    hide *;
    RecordsComeBack(entries, map[]);
    RecordsAddUp(entries, map[], InsertionsOf);
    RecordsAddUp(entries, map[], DeletionsOf);
    RecordsAddUp(entries, map[], BinaryOf);
    NothingSums(InsertionsOf);
    NothingSums(DeletionsOf);
    NothingSums(BinaryOf);
    var m := Collect(NumstatRecords(entries), map[]).value;
    SummaryOf(entries, m);
    HeldAll(m, entries);
    JoinedWhole(entries, m);
  }

  /**
   Round trip: name-status in any order, numstat records in any other order. The first 500 entries come back in
   name-status order, each with its own counts; the summary covers all of them.
   */
  lemma {:induction false} JoinRoundTrip(entries: seq<ChangedPath>, records: seq<bytes>)
    requires Reported(entries) && Distinct(entries)
    requires multiset(records) == multiset(NumstatRecords(entries))
    ensures Parse(Terminated(StatusTokens(entries), NUL), Terminated(records, NUL))
         == Ok(Parsed(entries[..Min(|entries|, PATH_LIMIT)], TotalsOf(entries), |entries| > PATH_LIMIT))
  {
    hide Parse, Statuses, Collect, NulTokens, Joined, Terminated, Distinct, ReportedPath;
    var printed := NumstatRecords(entries);
    var ns := Terminated(StatusTokens(entries), NUL);
    PrintedTokensAreNulFree(entries);
    JoinIgnoresStatOrder(ns, printed, records);
    TokensComeBack(StatusTokens(entries));
    TokensComeBack(printed);
    StatusesComeBack(entries);
    PrintedJoin(entries);
    ParseParts(ns, Terminated(printed, NUL), StatusTokens(entries), printed);
  }

  /** The summary's sums are the true ones exactly when they are below 2^64. */
  lemma {:induction false} SummaryIsExact(entries: seq<ChangedPath>)
    ensures TotalsOf(entries).insertions == Total(entries, InsertionsOf) <==> Total(entries, InsertionsOf) <= U64_MAX
    ensures TotalsOf(entries).deletions == Total(entries, DeletionsOf) <==> Total(entries, DeletionsOf) <= U64_MAX
  {
    hide Total;
  }

  // ------------------------------------------------------------ what success implies

  function PathsOf(statuses: seq<(bytes, PathStatus)>): set<bytes>
  {
    if statuses == [] then {} else {statuses[0].0} + PathsOf(statuses[1..])
  }

  /** The join takes each of its paths out of the map, once. */
  lemma {:induction false} JoinTakesOut(statuses: seq<(bytes, PathStatus)>, m: StatMap)
    requires Join(statuses, m).Some?
    ensures Join(statuses, m).value.1 == m - PathsOf(statuses)
    ensures PathsOf(statuses) <= m.Keys
    ensures |Join(statuses, m).value.1| == |m| - |statuses|
    decreases |statuses|
  {
    if statuses == [] {
      assert m - {} == m;
    } else {
      var p, rest := statuses[0].0, statuses[1..];
      assert p in m && Join(rest, m - {p}).Some? && Join(statuses, m).value.1 == Join(rest, m - {p}).value.1;
      assert PathsOf(statuses) == {p} + PathsOf(rest);
      hide Join, PathsOf;
      JoinTakesOut(rest, m - {p});
      Shrinks(m, p);
      TakeBoth(m, p, PathsOf(rest));
    }
  }

  lemma {:induction false} TakeBoth(m: StatMap, p: bytes, ps: set<bytes>)
    requires p in m && ps <= (m - {p}).Keys
    ensures m - {p} - ps == m - ({p} + ps) && {p} + ps <= m.Keys
  {
    assert (m - {p}).Keys == m.Keys - {p};
  }

  /** With at most 500 entries, an accepted pair of streams names exactly the same paths, each once. */
  lemma {:induction false} AcceptedNamesAgree(nameStatus: bytes, numstat: bytes)
    requires Parse(nameStatus, numstat).Ok? && !Parse(nameStatus, numstat).value.pathLimitReached
    ensures var statuses := Statuses(NulTokens(nameStatus).value).value;
            var m := Collect(NulTokens(numstat).value, map[]).value;
            PathsOf(statuses) == m.Keys && |statuses| == |m|
  {
    var statuses := Statuses(NulTokens(nameStatus).value).value;
    var m := Collect(NulTokens(numstat).value, map[]).value;
    assert statuses[..|statuses|] == statuses;
    JoinTakesOut(statuses, m);
    assert (m - PathsOf(statuses)).Keys == m.Keys - PathsOf(statuses);
  }

  /** The two streams git writes for a list of entries. */
  function Names(entries: seq<ChangedPath>): bytes { Terminated(StatusTokens(entries), NUL) }

  function Counts(entries: seq<ChangedPath>): bytes { Terminated(NumstatRecords(entries), NUL) }

  function PathSet(entries: seq<ChangedPath>): (paths: set<bytes>)
    ensures forall i :: 0 <= i < |entries| ==> entries[i].path in paths
  {
    if entries == [] then {} else {entries[0].path} + PathSet(entries[1..])
  }

  lemma {:induction false} PathSetHolds(entries: seq<ChangedPath>, path: bytes)
    requires path in PathSet(entries)
    ensures exists i :: 0 <= i < |entries| && entries[i].path == path
    decreases |entries|
  {
    if path != entries[0].path {
      PathSetHolds(entries[1..], path);
      var i :| 0 <= i < |entries[1..]| && entries[1..][i].path == path;
      assert entries[i + 1].path == path;
    }
  }

  lemma {:induction false} PathSetSize(entries: seq<ChangedPath>)
    requires Distinct(entries)
    ensures |PathSet(entries)| == |entries|
    decreases |entries|
  {
    if entries != [] {
      var rest := entries[1..];
      assert forall i :: 0 <= i < |rest| ==> rest[i] == entries[i + 1];
      PathSetSize(rest);
      if entries[0].path in PathSet(rest) { PathSetHolds(rest, entries[0].path); }
    }
  }

  /** The collected map has the printed paths as its keys, and no others. */
  lemma {:induction false} CollectedKeys(entries: seq<ChangedPath>, m: StatMap)
    requires Reported(entries) && Distinct(entries) && NoneIn(entries, m)
    ensures var r := Collect(NumstatRecords(entries), m);
            r.Some? && r.value.Keys == m.Keys + PathSet(entries) && |r.value| == |m| + |entries|
    decreases |entries|
  {
    RecordsComeBack(entries, m);
    if entries != [] {
      var e, rest := entries[0], entries[1..];
      FirstIsIn(entries, m);
      assert PathSet(entries) == {e.path} + PathSet(rest);
      hide *;
      CollectedKeys(rest, m[e.path := e.stat]);
      KeysMore(m, e, PathSet(rest));
    } else {
      assert m.Keys + {} == m.Keys;
    }
  }

  lemma {:induction false} KeysMore(m: StatMap, e: ChangedPath, rest: set<bytes>)
    ensures m[e.path := e.stat].Keys + rest == m.Keys + ({e.path} + rest)
  {
  }

  /** Paths can be taken out of a map exactly when they are in it and none is named twice. */
  lemma {:induction false} JoinExactly(entries: seq<ChangedPath>, n: nat, m: StatMap)
    requires n <= |entries|
    ensures Join(Pairs(entries)[..n], m).Some?
            <==> Distinct(entries[..n]) && forall i :: 0 <= i < n ==> entries[i].path in m
    ensures Join(Pairs(entries)[..n], m).Some? ==> |Join(Pairs(entries)[..n], m).value.1| == |m| - n
    decreases n
  {
    hide Join, Distinct, Pairs;
    if n == 0 {
      JoinNothing(entries, m);
    } else {
      var e := entries[0];
      PairsHead(entries, n);
      JoinHead(Pairs(entries)[..n], m);
      if e.path in m {
        Shrinks(m, e.path);
        JoinExactly(entries[1..], n - 1, m - {e.path});
        RestIn(entries, n, m);
      }
    }
  }

  lemma {:induction false} JoinNothing(entries: seq<ChangedPath>, m: StatMap)
    ensures Join(Pairs(entries)[..0], m) == Some(([], m)) && Distinct(entries[..0])
  {
  }

  lemma {:induction false} JoinHead(statuses: seq<(bytes, PathStatus)>, m: StatMap)
    requires statuses != []
    ensures var path := statuses[0].0;
            if path !in m then Join(statuses, m).None?
            else
              var rest := Join(statuses[1..], m - {path});
              if rest.None? then Join(statuses, m).None?
              else Join(statuses, m).Some? && Join(statuses, m).value.1 == rest.value.1
  {
  }

  lemma {:induction false} RestIn(entries: seq<ChangedPath>, n: nat, m: StatMap)
    requires 0 < n <= |entries| && entries[0].path in m
    ensures Distinct(entries[1..][..n - 1])
            && (forall i :: 0 <= i < n - 1 ==> entries[1..][i].path in m - {entries[0].path})
            <==> Distinct(entries[..n]) && forall i :: 0 <= i < n ==> entries[i].path in m
  {
    var rest, less := entries[1..], m - {entries[0].path};
    assert forall i :: 0 <= i < |rest| ==> rest[i] == entries[i + 1];
    if Distinct(rest[..n - 1]) && forall i :: 0 <= i < n - 1 ==> rest[i].path in less {
      forall i | 0 < i < n ensures entries[i].path in m && entries[i].path != entries[0].path {
        assert rest[i - 1].path in less;
      }
      forall i, j | 0 <= i < j < n ensures entries[i].path != entries[j].path {
        if i > 0 { assert rest[..n - 1][i - 1].path != rest[..n - 1][j - 1].path; }
      }
    }
    if Distinct(entries[..n]) && forall i :: 0 <= i < n ==> entries[i].path in m {
      forall i | 0 <= i < n - 1 ensures rest[i].path in less {
        assert entries[..n][0].path != entries[..n][i + 1].path;
      }
      forall i, j | 0 <= i < j < n - 1 ensures rest[i].path != rest[j].path {
        assert entries[..n][i + 1].path != entries[..n][j + 1].path;
      }
    }
  }

  lemma {:induction false} JoinedExactly(x: seq<ChangedPath>, m: StatMap)
    ensures var n := Min(|x|, PATH_LIMIT);
            Joined(Pairs(x), m).Ok?
            <==> |x| == |m| && Distinct(x[..n]) && forall i :: 0 <= i < n ==> x[i].path in m
  {
    JoinExactly(x, Min(|x|, PATH_LIMIT), m);
    hide Join, Distinct, Summarize;
  }

  /** Printed counts are collected exactly when no path repeats or is there already. */
  lemma {:induction false} CollectExactly(entries: seq<ChangedPath>, m: StatMap)
    requires Reported(entries)
    ensures Collect(NumstatRecords(entries), m).Some? <==> Distinct(entries) && NoneIn(entries, m)
    decreases |entries|
  {
    if entries != [] {
      var e, rest := entries[0], entries[1..];
      NumstatComesBack(e);
      hide ReportedPath, ParseNumstat, NumstatRecord;
      assert NumstatRecords(entries)[0] == NumstatRecord(e) && NumstatRecords(entries)[1..] == NumstatRecords(rest);
      if e.path !in m {
        CollectExactly(rest, m[e.path := e.stat]);
        DistinctMore(entries, m);
      }
    }
  }

  lemma {:induction false} DistinctMore(entries: seq<ChangedPath>, m: StatMap)
    requires entries != [] && entries[0].path !in m
    ensures Distinct(entries[1..]) && NoneIn(entries[1..], m[entries[0].path := entries[0].stat])
            <==> Distinct(entries) && NoneIn(entries, m)
  {
    var rest := entries[1..];
    assert forall i :: 0 <= i < |rest| ==> rest[i] == entries[i + 1];
    if Distinct(rest) && NoneIn(rest, m[entries[0].path := entries[0].stat]) {
      forall i | 0 < i < |entries| ensures entries[i].path !in m && entries[i].path != entries[0].path {
        assert rest[i - 1].path !in m[entries[0].path := entries[0].stat];
      }
    }
  }

  /** What the two parsers make of one list's names and another's counts. */
  lemma {:induction false} MixedParts(x: seq<ChangedPath>, y: seq<ChangedPath>)
    requires Reported(x) && Reported(y) && Distinct(y)
    ensures var collected := Collect(NumstatRecords(y), map[]);
            && collected.Some? && collected.value.Keys == PathSet(y) && |collected.value| == |y|
            && Holds(collected.value, y)
            && Parse(Names(x), Counts(y)) == Joined(Pairs(x), collected.value)
  {
    hide Parse, Statuses, Collect, NulTokens, Joined, Terminated, Distinct, ReportedPath, StatusTokens, NumstatRecords;
    hide PathSet, Pairs, Holds, NoneIn, SepFree;
    NothingIn(y);
    PrintedTokensAreNulFree(x);
    PrintedTokensAreNulFree(y);
    TokensComeBack(StatusTokens(x));
    TokensComeBack(NumstatRecords(y));
    StatusesComeBack(x);
    RecordsComeBack(y, map[]);
    CollectedKeys(y, map[]);
    ParseParts(Names(x), Counts(y), StatusTokens(x), NumstatRecords(y));
  }

  lemma {:induction false} NothingIn(entries: seq<ChangedPath>)
    ensures NoneIn(entries, map[])
  {
  }

  lemma {:induction false} RepeatedCountsFail(x: seq<ChangedPath>, y: seq<ChangedPath>)
    requires Reported(y) && !Distinct(y)
    ensures Parse(Names(x), Counts(y)).Err?
  {
    PrintedTokensAreNulFree(y);
    TokensComeBack(NumstatRecords(y));
    CollectExactly(y, map[]);
    hide Statuses, Collect, NulTokens, Joined, Terminated, Distinct, NumstatRecords, StatusTokens;
  }

  /**
   The names of one list and the counts of another are accepted exactly when the lists are equally long, no path is
   counted twice, and the first 500 names, or all of them when there are fewer, are counted and named once.
   */
  lemma {:induction false} AcceptedExactly(x: seq<ChangedPath>, y: seq<ChangedPath>)
    requires Reported(x) && Reported(y)
    ensures var n := Min(|x|, PATH_LIMIT);
            Parse(Names(x), Counts(y)).Ok?
            <==> && |x| == |y| && Distinct(y)
                 && Distinct(x[..n]) && forall i :: 0 <= i < n ==> x[i].path in PathSet(y)
  {
    hide Parse, Names, Counts, Collect, NumstatRecords, PathSet, Distinct, Reported, Joined, Pairs, Holds;
    if Distinct(y) {
      MixedParts(x, y);
      JoinedExactly(x, Collect(NumstatRecords(y), map[]).value);
    } else {
      RepeatedCountsFail(x, y);
    }
  }

  /** Up to 500 entries acceptance therefore means agreement. */
  lemma {:induction false} UpToTheLimitTheyAgree(x: seq<ChangedPath>, y: seq<ChangedPath>)
    requires Reported(x) && Reported(y) && |x| <= PATH_LIMIT
    ensures Parse(Names(x), Counts(y)).Ok? <==> Distinct(x) && Distinct(y) && PathSet(x) == PathSet(y)
  {
    AcceptedExactly(x, y);
    assert x[..|x|] == x;
    if Distinct(x) && Distinct(y) {
      PathSetSize(x);
      PathSetSize(y);
      hide Parse, Names, Counts, PathSet, Distinct, Reported;
      if |x| == |y| && forall i :: 0 <= i < |x| ==> x[i].path in PathSet(y) {
        forall p | p in PathSet(x) ensures p in PathSet(y) { PathSetHolds(x, p); }
        SameSize(PathSet(x), PathSet(y));
      }
    }
    hide *;
  }

  lemma {:induction false} SameSize(a: set<bytes>, b: set<bytes>)
    requires a <= b && |a| == |b|
    ensures a == b
  {
    assert b == a + (b - a);
    assert |b| == |a| + |b - a|;
  }

  /**
   Beyond 500 it never does: exchange the last path of any longer list, and the streams that disagree are accepted.
   */
  lemma {:induction false} BeyondTheLimitIsUnchecked(x: seq<ChangedPath>, other: ChangedPath)
    requires |x| > PATH_LIMIT && Reported(x) && Distinct(x)
    requires ReportedPath(other.path) && other.path !in PathSet(x)
    ensures var y := x[..|x| - 1] + [other];
            var r := Parse(Names(x), Counts(y));
            && Reported(y) && Distinct(y) && PathSet(x) != PathSet(y)
            && r.Ok? && r.value.pathLimitReached && r.value.paths == x[..PATH_LIMIT]
  {
    var y := x[..|x| - 1] + [other];
    Exchanged(x, other);
    MixedParts(x, y);
    var m := Collect(NumstatRecords(y), map[]).value;
    HeldAll(m, y);
    hide *;
    JoinedWhole(x, m);
  }

  lemma {:induction false} Exchanged(x: seq<ChangedPath>, other: ChangedPath)
    requires x != [] && Reported(x) && Distinct(x) && ReportedPath(other.path) && other.path !in PathSet(x)
    ensures var y := x[..|x| - 1] + [other];
            && |y| == |x| && Reported(y) && Distinct(y) && other.path in PathSet(y)
            && forall i :: 0 <= i < |x| - 1 ==> y[i] == x[i]
  {
    hide PathSet, ReportedPath;
    var y := x[..|x| - 1] + [other];
    assert y[|x| - 1] == other;
  }

  function File(i: nat): ChangedPath { ChangedPath("f" + Decimal(i), Added, Binary) }

  /** The files f0, f1, ... */
  function Numbered(n: nat): (entries: seq<ChangedPath>)
    ensures |entries| == n
    ensures forall i :: 0 <= i < n ==> entries[i] == File(i)
  {
    if n == 0 then [] else Numbered(n - 1) + [File(n - 1)]
  }

  lemma {:induction false} NumberedAreReported(i: nat)
    requires i < 10_000
    ensures ReportedPath(File(i).path)
  {
    var path := File(i).path;
    assert 10_000 == Pow10(4);
    DecimalLength(i, 4, 10_000);
    assert forall k :: 0 <= k < |path| ==> path[k] == 'f' || IsDigit(path[k]);
    AsciiIsValid(path);
    SplitWhole(path, '/');
  }

  lemma {:induction false} NumberedAreDistinct(i: nat, j: nat)
    requires i != j
    ensures File(i).path != File(j).path
  {
    DecimalValue(i);
    DecimalValue(j);
    assert File(i).path[1..] == Decimal(i) && File(j).path[1..] == Decimal(j);
  }

  lemma {:induction false} NumberedAndOne(n: nat, k: nat)
    requires n <= k < 10_000
    ensures Reported(Numbered(n) + [File(k)]) && Distinct(Numbered(n) + [File(k)])
  {
    hide File, ReportedPath;
    var entries := Numbered(n) + [File(k)];
    forall i | 0 <= i <= n ensures ReportedPath(entries[i].path) {
      NumberedAreReported(if i < n then i else k);
    }
    forall i, j | 0 <= i < j <= n ensures entries[i].path != entries[j].path {
      NumberedAreDistinct(i, if j < n then j else k);
    }
  }

  /** A concrete pair of 501-entry streams that is accepted although they disagree on the last path. */
  lemma {:induction false} DisagreementIsAccepted()
    ensures var named, counted := Numbered(500) + [File(500)], Numbered(500) + [File(501)];
            && named[500].path != counted[500].path
            && Parse(Names(named), Counts(counted)).Ok?
  {
    hide Numbered, File, Parse, Reported, Distinct, PathSet, Names, Counts, ReportedPath;
    var named, counted := Numbered(500) + [File(500)], Numbered(500) + [File(501)];
    NumberedAndOne(500, 500);
    NumberedAndOne(500, 501);
    NumberedAreReported(501);
    NumberedAreDistinct(500, 501);
    assert named[..500] + [File(501)] == counted;
    if File(501).path in PathSet(named) {
      PathSetHolds(named, File(501).path);
      var i :| 0 <= i <= 500 && named[i].path == File(501).path;
      assert named[i] == File(i);
      NumberedAreDistinct(i, 501);
    }
    BeyondTheLimitIsUnchecked(named, File(501));
  }
}
