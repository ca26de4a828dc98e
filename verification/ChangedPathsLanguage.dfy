/** The language of the changed-path join: exactly which pairs of streams it accepts, for any bytes, and its answer. */
module ChangedPathsLanguage {
  import opened Wrappers
  import opened Bytes
  import opened Utf8
  import opened HistoryText
  import opened MapSums
  import opened ChangedPaths

  // ------------------------------------------------------------ paths

  /** The bytes from `i` to `j` are a component of the path: whole between two slashes or its ends. */
  predicate Component(path: bytes, i: int, j: int)
  {
    && 0 <= i <= j <= |path| && '/' !in path[i..j]
    && (i == 0 || path[i - 1] == '/') && (j == |path| || path[j] == '/')
  }

  /**
   Text of 1 to 4096 bytes without control characters, no option, pathspec or root, of which no component is special.
   */
  ghost predicate GoodPath(path: bytes)
  {
    && Valid(path) && 1 <= |path| <= 4096
    && path[0] !in ['/', ':', '-']
    && (forall i :: 0 <= i < |path| ==> 32 <= path[i] as int && path[i] as int != 127)
    && forall i, j :: Component(path, i, j) ==> path[i..j] !in ["", ".", ".."]
  }

  lemma {:induction false} FirstComponent(path: bytes)
    ensures Component(path, 0, IndexOf(path, '/'))
    ensures forall j :: Component(path, 0, j) ==> j == IndexOf(path, '/')
  {
    var n := IndexOf(path, '/');
    forall j | Component(path, 0, j) ensures j == n {
    }
  }

  /** Components after the first are those of what follows its slash. */
  lemma {:induction false} LaterComponents(path: bytes, i: int, j: int)
    requires IndexOf(path, '/') < |path| && i > 0
    ensures var n := IndexOf(path, '/');
            Component(path, i, j) <==> Component(path[n + 1..], i - n - 1, j - n - 1)
  {
    var n := IndexOf(path, '/');
    var rest := path[n + 1..];
    if Component(path, i, j) {
      assert i > n;
      assert path[i..j] == rest[i - n - 1..j - n - 1];
    }
    if Component(rest, i - n - 1, j - n - 1) {
      assert path[i..j] == rest[i - n - 1..j - n - 1];
    }
  }

  lemma {:induction false} SliceOfRest(path: bytes, n: nat, i: int, j: int)
    requires n <= |path| && 0 <= i <= j <= |path| - n
    ensures path[n..][i..j] == path[n + i..n + j]
  {
  }

  lemma {:induction false} FirstOrLater(c: bytes, first: bytes, rest: seq<bytes>)
    ensures c in [first] + rest <==> c == first || c in rest
  {
  }

  lemma {:induction false} InRange(path: bytes, i: int, j: int)
    requires Component(path, i, j)
    ensures 0 <= i <= j <= |path| && path[0..j] == path[..j]
  {
  }

  lemma {:induction false} PartIsComponent(path: bytes, c: bytes) returns (i: int, j: int)
    requires c in Split(path, '/')
    ensures Component(path, i, j) && 0 <= i <= j <= |path| && path[i..j] == c
    decreases |path|
  {
    hide Split, IndexOf, Component;
    var n := IndexOf(path, '/');
    SplitStep(path, '/');
    FirstComponent(path);
    InRange(path, 0, n);
    if c == path[..n] || n == |path| {
      i, j := 0, n;
    } else {
      var rest := path[n + 1..];
      FirstOrLater(c, path[..n], Split(rest, '/'));
      i, j := PartIsComponent(rest, c);
      SliceOfRest(path, n + 1, i, j);
      LaterComponents(path, i + n + 1, j + n + 1);
      i, j := i + n + 1, j + n + 1;
    }
  }

  lemma {:induction false} ComponentIsPart(path: bytes, i: int, j: int)
    requires Component(path, i, j)
    ensures 0 <= i <= j <= |path| && path[i..j] in Split(path, '/')
    decreases |path|
  {
    hide Split, IndexOf, Component;
    var n := IndexOf(path, '/');
    SplitStep(path, '/');
    FirstComponent(path);
    InRange(path, i, j);
    if i == 0 {
      assert j == n;
      if n == |path| {
        assert path[..n] == path;
      } else {
        FirstOrLater(path[..n], path[..n], Split(path[n + 1..], '/'));
      }
    } else {
      SlashBefore(path, i, j);
      var rest := path[n + 1..];
      LaterComponents(path, i, j);
      InRange(rest, i - n - 1, j - n - 1);
      ComponentIsPart(rest, i - n - 1, j - n - 1);
      SliceOfRest(path, n + 1, i - n - 1, j - n - 1);
      FirstOrLater(path[i..j], path[..n], Split(rest, '/'));
    }
  }

  lemma {:induction false} SlashBefore(path: bytes, i: int, j: int)
    requires Component(path, i, j) && i > 0
    ensures IndexOf(path, '/') < i
  {
  }

  lemma {:induction false} ReportedExactly(path: bytes)
    ensures ReportedPath(path) <==> GoodPath(path)
  {
    if ReportedPath(path) {
      forall i, j | Component(path, i, j) ensures path[i..j] !in ["", ".", ".."] { ComponentIsPart(path, i, j); }
    }
    if GoodPath(path) {
      forall c | c in Split(path, '/') ensures c != [] && c != "." && c != ".." {
        var i, j := PartIsComponent(path, c);
      }
    }
    hide Split, Component, Valid;
  }

  // ------------------------------------------------------------ count records

  /** An entry with its two counts as they are spelled. */
  datatype CountLine = CountLine(entry: ChangedPath, insertions: bytes, deletions: bytes)

  predicate Spells(digits: bytes, n: nat) { digits != [] && AllDigits(digits) && Value(digits) == n }

  ghost predicate GoodLine(l: CountLine)
  {
    && GoodPath(l.entry.path)
    && match l.entry.stat
       case Binary => l.insertions == "-" && l.deletions == "-"
       case Counted(i, d) => Spells(l.insertions, i) && Spells(l.deletions, d)
  }

  function LineText(l: CountLine): bytes { l.insertions + [TAB] + (l.deletions + [TAB] + l.entry.path) }

  function TextsOf(lines: seq<CountLine>): seq<bytes>
  {
    if lines == [] then [] else [LineText(lines[0])] + TextsOf(lines[1..])
  }

  function EntriesOf(lines: seq<CountLine>): (r: seq<ChangedPath>)
    ensures |r| == |lines| && forall i :: 0 <= i < |lines| ==> r[i] == lines[i].entry
  {
    if lines == [] then [] else [lines[0].entry] + EntriesOf(lines[1..])
  }

  ghost predicate GoodLines(lines: seq<CountLine>) { forall i :: 0 <= i < |lines| ==> GoodLine(lines[i]) }

  lemma {:induction false} DigitsParse(digits: bytes, n: u64)
    requires Spells(digits, n)
    ensures ParseDecimal(digits) == Some(n) && digits != "-" && TAB !in digits && NUL !in digits
  {
    assert IsDigit(digits[0]) && !IsDigit("-"[0]);
    hide Value;
  }

  lemma {:induction false} CountsRead(l: CountLine)
    requires GoodLine(l)
    ensures TAB !in l.insertions && TAB !in l.deletions && NUL !in l.insertions && NUL !in l.deletions
    ensures l.entry.stat.Binary? <==> l.insertions == "-"
    ensures l.entry.stat.Binary? <==> l.deletions == "-"
    ensures l.entry.stat.Counted? ==>
              && ParseDecimal(l.insertions) == Some(l.entry.stat.insertions)
              && ParseDecimal(l.deletions) == Some(l.entry.stat.deletions)
  {
    if l.entry.stat.Counted? {
      DigitsParse(l.insertions, l.entry.stat.insertions);
      DigitsParse(l.deletions, l.entry.stat.deletions);
    }
    hide GoodPath, Spells, ParseDecimal;
  }

  lemma {:induction false} LineSplits(l: CountLine)
    requires TAB !in l.insertions && TAB !in l.deletions
    ensures SplitN(LineText(l), 3, TAB) == [l.insertions, l.deletions, l.entry.path]
  {
    SplitNHead(l.insertions, 3, TAB, l.deletions + [TAB] + l.entry.path);
    SplitNHead(l.deletions, 2, TAB, l.entry.path);
  }

  lemma {:induction false} LineParses(l: CountLine)
    requires GoodLine(l)
    ensures ParseNumstat(LineText(l)) == Some((l.entry.path, l.entry.stat)) && NUL !in LineText(l)
  {
    CountsRead(l);
    LineSplits(l);
    ReportedExactly(l.entry.path);
    hide SplitN, LineText, ReportedPath, ParseDecimal, Spells;
    NoNul(l);
  }

  lemma {:induction false} NoNul(l: CountLine)
    requires GoodPath(l.entry.path) && NUL !in l.insertions && NUL !in l.deletions
    ensures NUL !in LineText(l) && NUL !in l.entry.path
  {
  }

  lemma {:induction false} TerminatedTwo(a: bytes, b: bytes, c: bytes)
    ensures Terminated([a, b], TAB) + c == a + [TAB] + (b + [TAB] + c)
  {
    hide Terminated;
    TerminatedHead(a, [b]);
    TerminatedOne(b, TAB);
    assert [a] + [b] == [a, b];
  }

  lemma {:induction false} TerminatedHead(a: bytes, rest: seq<bytes>)
    ensures Terminated([a] + rest, TAB) == a + [TAB] + Terminated(rest, TAB)
  {
    assert ([a] + rest)[1..] == rest;
  }

  lemma {:induction false} ThreeParts(record: bytes)
    requires |SplitN(record, 3, TAB)| == 3
    ensures var parts := SplitN(record, 3, TAB); record == parts[0] + [TAB] + (parts[1] + [TAB] + parts[2])
  {
    hide SplitN, Terminated, SepFree;
    SplitNJoins(record, 3, TAB);
    var parts := SplitN(record, 3, TAB);
    assert parts[..2] == [parts[0], parts[1]];
    TerminatedTwo(parts[0], parts[1], parts[2]);
  }

  /** A record that is read is a path with its two counts. */
  lemma {:induction false} LineTaken(record: bytes) returns (l: CountLine)
    requires ParseNumstat(record).Some?
    ensures GoodLine(l) && LineText(l) == record
  {
    var parts := SplitN(record, 3, TAB);
    var (path, stat) := ParseNumstat(record).value;
    ThreeParts(record);
    ReportedExactly(path);
    hide SplitN, ReportedPath, GoodPath;
    l := CountLine(ChangedPath(path, Added, stat), parts[0], parts[1]);
  }

  // ------------------------------------------------------------ the two streams

  /** A stream's fields: each is ended by NUL. */
  lemma {:induction false} FieldsTaken(input: bytes)
    requires NulTokens(input).Some?
    ensures input == Terminated(NulTokens(input).value, NUL) && SepFree(NulTokens(input).value, NUL)
  {
    if input != [] {
      var body := input[..|input| - 1];
      var parts := Split(body, NUL);
      SplitJoins(body, NUL);
      hide Split, Terminated, SepFree;
      var front, last := parts[..|parts| - 1], parts[|parts| - 1];
      assert parts == front + [last];
      TerminatedAppend(front, [last], NUL);
      TerminatedOne(last, NUL);
      assert input == body + [NUL];
    }
  }

  /** The status stream that is read is the names of some entries. */
  lemma {:induction false} NamesTaken(tokens: seq<bytes>) returns (x: seq<ChangedPath>)
    requires Statuses(tokens).Some?
    ensures StatusTokens(x) == tokens && Reported(x) && Pairs(x) == Statuses(tokens).value
    decreases |tokens|
  {
    hide ReportedPath;
    if tokens == [] {
      x := [];
    } else {
      var status := StatusLetter(tokens[0]).value;
      var rest := NamesTaken(tokens[2..]);
      var e := ChangedPath(tokens[1], status, Binary);
      x := [e] + rest;
      assert x[1..] == rest && tokens == [tokens[0], tokens[1]] + tokens[2..];
      assert LetterOf(status) == tokens[0];
    }
  }

  lemma {:induction false} CollectCons(record: bytes, rest: seq<bytes>, m: StatMap)
    requires ParseNumstat(record).Some?
    ensures var (path, stat) := ParseNumstat(record).value;
            Collect([record] + rest, m) == if path in m then None else Collect(rest, m[path := stat])
  {
    hide ParseNumstat;
    assert ([record] + rest)[1..] == rest;
  }

  lemma {:induction false} FirstLine(lines: seq<CountLine>)
    requires lines != [] && GoodLines(lines)
    ensures GoodLine(lines[0]) && GoodLines(lines[1..]) && ReportedPath(lines[0].entry.path)
    ensures TextsOf(lines) == [LineText(lines[0])] + TextsOf(lines[1..])
    ensures EntriesOf(lines) == [lines[0].entry] + EntriesOf(lines[1..])
    ensures NumstatRecords(EntriesOf(lines))
         == [NumstatRecord(lines[0].entry)] + NumstatRecords(EntriesOf(lines[1..]))
  {
    ReportedExactly(lines[0].entry.path);
    hide GoodPath, ReportedPath, Spells, NumstatRecord, LineText;
    assert EntriesOf(lines)[1..] == EntriesOf(lines[1..]);
  }

  /** The counts are read as if they were spelled without leading zeros. */
  lemma {:induction false} LinesCollect(lines: seq<CountLine>, m: StatMap)
    requires GoodLines(lines)
    ensures Collect(TextsOf(lines), m) == Collect(NumstatRecords(EntriesOf(lines)), m)
    decreases |lines|
  {
    hide GoodLine, GoodLines, TextsOf, EntriesOf, NumstatRecords, LineText, NumstatRecord, ParseNumstat, ReportedPath;
    hide Collect;
    if lines == [] {
      NoLines();
    } else {
      var l, rest := lines[0], lines[1..];
      FirstLine(lines);
      LineParses(l);
      NumstatComesBack(l.entry);
      CollectCons(LineText(l), TextsOf(rest), m);
      CollectCons(NumstatRecord(l.entry), NumstatRecords(EntriesOf(rest)), m);
      LinesCollect(rest, m[l.entry.path := l.entry.stat]);
    }
  }

  lemma {:induction false} NoLines()
    ensures TextsOf([]) == [] && EntriesOf([]) == [] && NumstatRecords([]) == []
  {
  }

  lemma {:induction false} LinesAreFields(lines: seq<CountLine>)
    requires GoodLines(lines)
    ensures SepFree(TextsOf(lines), NUL) && Reported(EntriesOf(lines))
    decreases |lines|
  {
    if lines != [] {
      FirstLine(lines);
      LineParses(lines[0]);
      LinesAreFields(lines[1..]);
    }
    hide GoodLine, LineText, ReportedPath, ParseNumstat;
  }

  lemma {:induction false} LinesTaken(records: seq<bytes>, m: StatMap) returns (lines: seq<CountLine>)
    requires Collect(records, m).Some?
    ensures GoodLines(lines) && TextsOf(lines) == records
    decreases |records|
  {
    hide GoodLine, LineText, ParseNumstat;
    if records == [] {
      lines := [];
    } else {
      var (path, stat) := ParseNumstat(records[0]).value;
      var l := LineTaken(records[0]);
      var rest := LinesTaken(records[1..], m[path := stat]);
      lines := [l] + rest;
      assert lines[1..] == rest;
    }
  }

  // ------------------------------------------------------------ the join

  /** The entry of `y` at this path. */
  ghost predicate CountedAs(e: ChangedPath, named: ChangedPath, y: seq<ChangedPath>)
  {
    exists k :: 0 <= k < |y| && y[k].path == named.path && e == ChangedPath(named.path, named.status, y[k].stat)
  }

  /** The first 500 names with their counts, the totals of all counts, and whether there were more names. */
  ghost predicate Shows(p: Parsed, x: seq<ChangedPath>, y: seq<ChangedPath>)
  {
    && |p.paths| == Min(|x|, 500) && (forall i :: 0 <= i < |p.paths| ==> CountedAs(p.paths[i], x[i], y))
    && p.summary == TotalsOf(y) && (p.pathLimitReached <==> |x| > 500)
  }

  /** Equally many names and counts, no path counted twice, and the first 500 names counted and named once. */
  ghost predicate Agrees(x: seq<ChangedPath>, y: seq<ChangedPath>)
  {
    var n := Min(|x|, 500);
    |x| == |y| && Distinct(y) && Distinct(x[..n]) && forall i :: 0 <= i < n ==> x[i].path in PathSet(y)
  }

  lemma {:induction false} JoinShows(x: seq<ChangedPath>, n: nat, m: StatMap, i: nat)
    requires n <= |x| && Join(Pairs(x)[..n], m).Some?
    ensures |Join(Pairs(x)[..n], m).value.0| == n
    ensures i < n ==>
              x[i].path in m
              && Join(Pairs(x)[..n], m).value.0[i] == ChangedPath(x[i].path, x[i].status, m[x[i].path])
    decreases n
  {
    if n > 0 {
      PairsHead(x, n);
      hide Pairs;
      JoinShows(x[1..], n - 1, m - {x[0].path}, if i > 0 then i - 1 else 0);
    }
  }

  lemma {:induction false} OneAnswer(p: Parsed, q: Parsed, x: seq<ChangedPath>, y: seq<ChangedPath>)
    requires Shows(p, x, y) && Shows(q, x, y) && Distinct(y)
    ensures p == q
  {
    forall i | 0 <= i < |p.paths| ensures p.paths[i] == q.paths[i] {
      assert CountedAs(p.paths[i], x[i], y) && CountedAs(q.paths[i], x[i], y);
    }
    assert p.paths == q.paths;
    hide TotalsOf;
  }

  /** The totals of the collected map are those of the entries it was collected from. */
  lemma {:induction false} MapTotals(y: seq<ChangedPath>)
    requires Reported(y) && Distinct(y)
    ensures var r := Collect(NumstatRecords(y), map[]);
            r.Some? && Summarize(r.value) == TotalsOf(y) && Holds(r.value, y)
  {
    hide *;
    NothingIn(y);
    RecordsComeBack(y, map[]);
    RecordsAddUp(y, map[], InsertionsOf);
    RecordsAddUp(y, map[], DeletionsOf);
    RecordsAddUp(y, map[], BinaryOf);
    NothingSums(InsertionsOf);
    NothingSums(DeletionsOf);
    NothingSums(BinaryOf);
    SummaryOf(y, Collect(NumstatRecords(y), map[]).value);
  }

  /** What the join makes of one list's names and another's counts, however those are spelled. */
  lemma {:induction false} StreamsJoin(x: seq<ChangedPath>, lines: seq<CountLine>)
    requires Reported(x) && GoodLines(lines)
    ensures var y := EntriesOf(lines);
            && Reported(y) && Parse(Names(x), Terminated(TextsOf(lines), NUL)) == Parse(Names(x), Counts(y))
  {
    hide Statuses, Collect, Joined, Terminated, NulTokens, ReportedPath, GoodLine, NumstatRecords, TextsOf, EntriesOf;
    var y := EntriesOf(lines);
    LinesCollect(lines, map[]);
    LinesAreFields(lines);
    PrintedTokensAreNulFree(y);
    TokensComeBack(TextsOf(lines));
    TokensComeBack(NumstatRecords(y));
  }

  lemma {:induction false} AnswerShows(x: seq<ChangedPath>, y: seq<ChangedPath>)
    requires Reported(x) && Reported(y) && Parse(Names(x), Counts(y)).Ok?
    ensures Agrees(x, y) && Shows(Parse(Names(x), Counts(y)).value, x, y)
  {
    AcceptedExactly(x, y);
    MixedParts(x, y);
    MapTotals(y);
    hide Parse, Names, Counts, Collect, NumstatRecords, PathSet, Distinct, Reported, Pairs, Summarize, TotalsOf;
    var m := Collect(NumstatRecords(y), map[]).value;
    var p := Parse(Names(x), Counts(y)).value;
    var n := Min(|x|, 500);
    assert Pairs(x)[..n] == Pairs(x)[..Min(|Pairs(x)|, PATH_LIMIT)];
    JoinShows(x, n, m, 0);
    forall i | 0 <= i < |p.paths| ensures CountedAs(p.paths[i], x[i], y) {
      JoinShows(x, n, m, i);
      PathSetHolds(y, x[i].path);
    }
    hide Join;
  }

  /**
   The language of the join, for any two streams of bytes: they are answered exactly when one is names and the other
   counts of entries with good paths, the counts spelled with any number of leading zeros, and the two agree as far as
   the first 500 names; and then the answer is those names in order with their counts, and the totals of all counts.
   */
  lemma {:induction false} ParsesExactly(nameStatus: bytes, numstat: bytes, p: Parsed)
    ensures Parse(nameStatus, numstat) == Ok(p)
            <==> exists x: seq<ChangedPath>, lines: seq<CountLine> ::
                   && nameStatus == Names(x) && numstat == Terminated(TextsOf(lines), NUL)
                   && (forall i :: 0 <= i < |x| ==> GoodPath(x[i].path)) && GoodLines(lines)
                   && Agrees(x, EntriesOf(lines)) && Shows(p, x, EntriesOf(lines))
  {
    hide *;
    if Parse(nameStatus, numstat) == Ok(p) {
      var x, lines := StreamsTaken(nameStatus, numstat);
      StreamsJoin(x, lines);
      AnswerShows(x, EntriesOf(lines));
      ReportedAll(x);
    }
    forall x: seq<ChangedPath>, lines: seq<CountLine> |
      && nameStatus == Names(x) && numstat == Terminated(TextsOf(lines), NUL)
      && (forall i :: 0 <= i < |x| ==> GoodPath(x[i].path)) && GoodLines(lines)
      && Agrees(x, EntriesOf(lines)) && Shows(p, x, EntriesOf(lines))
      ensures Parse(nameStatus, numstat) == Ok(p)
    {
      ReportedAll(x);
      StreamsJoin(x, lines);
      AgreedStreams(x, EntriesOf(lines), p);
    }
  }

  lemma {:induction false} ReportedAll(x: seq<ChangedPath>)
    ensures Reported(x) <==> forall i :: 0 <= i < |x| ==> GoodPath(x[i].path)
  {
    forall i | 0 <= i < |x| ensures ReportedPath(x[i].path) <==> GoodPath(x[i].path) { ReportedExactly(x[i].path); }
    hide ReportedPath, GoodPath;
  }

  lemma {:induction false} AgreedStreams(x: seq<ChangedPath>, y: seq<ChangedPath>, p: Parsed)
    requires Reported(x) && Reported(y) && Agrees(x, y) && Shows(p, x, y)
    ensures Parse(Names(x), Counts(y)) == Ok(p)
  {
    AcceptedExactly(x, y);
    hide Parse, Names, Counts, PathSet, Distinct, Reported, Shows;
    AnswerShows(x, y);
    OneAnswer(Parse(Names(x), Counts(y)).value, p, x, y);
  }

  lemma {:induction false} StreamsTaken(nameStatus: bytes, numstat: bytes)
    returns (x: seq<ChangedPath>, lines: seq<CountLine>)
    requires Parse(nameStatus, numstat).Ok?
    ensures Reported(x) && GoodLines(lines)
    ensures nameStatus == Names(x) && numstat == Terminated(TextsOf(lines), NUL)
  {
    hide Statuses, Collect, Joined, Terminated, NulTokens, ReportedPath, GoodLine, TextsOf, StatusTokens, Reported;
    FieldsTaken(nameStatus);
    FieldsTaken(numstat);
    x := NamesTaken(NulTokens(nameStatus).value);
    lines := LinesTaken(NulTokens(numstat).value, map[]);
  }
}
