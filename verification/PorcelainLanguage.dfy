/** The language of the checkpoint status parser: exactly which outputs it accepts, and what it makes of each. */
module PorcelainLanguage {
  import opened Wrappers
  import opened Bytes
  import opened Utf8
  import opened Porcelain

  /** A line of the output: the head with any line ends after it, a line that is ignored, or an entry. */
  datatype Line = HeadOf(oid: bytes, ends: bytes) | IgnoredOf(text: bytes) | EntryOf(entry: Entry)

  predicate LineEnds(s: bytes) { forall i :: 0 <= i < |s| ==> s[i] == '\r' || s[i] == '\n' }

  predicate GoodLine(l: Line)
  {
    match l
    case HeadOf(oid, ends) => IsOid(oid) && LineEnds(ends)
    case IgnoredOf(text) =>
      && Plain(text)
      && (StartsWith(text, "! ") || (StartsWith(text, "# ") && !StartsWith(text, "# branch.oid ")))
    case EntryOf(e) => WellFormed(e)
  }

  predicate GoodLines(lines: seq<Line>) { forall i :: 0 <= i < |lines| ==> GoodLine(lines[i]) }

  function FieldsOf(l: Line): seq<bytes>
  {
    match l
    case HeadOf(oid, ends) => ["# branch.oid " + oid + ends]
    case IgnoredOf(text) => [text]
    case EntryOf(e) => EntryFields(e)
  }

  function AllFieldsOf(lines: seq<Line>): seq<bytes>
  {
    if lines == [] then [] else FieldsOf(lines[0]) + AllFieldsOf(lines[1..])
  }

  function HeadsOf(lines: seq<Line>): seq<bytes>
  {
    if lines == [] then []
    else (if lines[0].HeadOf? then [lines[0].oid] else []) + HeadsOf(lines[1..])
  }

  function RecordsIn(lines: seq<Line>): seq<Record>
    requires GoodLines(lines)
  {
    if lines == [] then []
    else (if lines[0].EntryOf? then [Meaning(lines[0].entry)] else []) + RecordsIn(lines[1..])
  }

  // ------------------------------------------------------------ one field

  lemma {:induction false} TrimmedEnds(s: bytes)
    ensures var t := TrimLineEnds(s); t <= s && LineEnds(s[|t|..])
    decreases |s|
  {
    if TrimLineEnds(s) != s {
      var front := s[..|s| - 1];
      TrimmedEnds(front);
      var t := TrimLineEnds(front);
      assert s[|t|..] == front[|t|..] + [s[|s| - 1]];
    }
  }

  lemma {:induction false} EndsAreTrimmed(oid: bytes, ends: bytes)
    requires LineEnds(ends) && (oid == [] || (oid[|oid| - 1] != '\r' && oid[|oid| - 1] != '\n'))
    ensures TrimLineEnds(oid + ends) == oid
    decreases |ends|
  {
    if ends == [] {
      assert oid + ends == oid;
    } else {
      assert (oid + ends)[..|oid + ends| - 1] == oid + ends[..|ends| - 1];
      EndsAreTrimmed(oid, ends[..|ends| - 1]);
    }
  }

  /** A head line is an identifier behind its key, and nothing but line ends after it. */
  lemma {:induction false} HeadExactly(value: bytes)
    ensures match ParseHeadOid(value)
            case Some(oid) => IsOid(oid) && oid <= value && LineEnds(value[|oid|..])
            case None => !exists oid, ends :: IsOid(oid) && LineEnds(ends) && value == oid + ends
  {
    TrimmedEnds(value);
    forall oid, ends | IsOid(oid) && LineEnds(ends) && value == oid + ends ensures ParseHeadOid(value) == Some(oid) {
      assert LowerHex(oid[|oid| - 1]);
      EndsAreTrimmed(oid, ends);
    }
  }

  /** Words and a last part of valid text are valid text themselves. */
  lemma {:induction false} PartsArePlain(words: seq<bytes>, last: bytes)
    requires Plain(Terminated(words, SP) + last)
    ensures Plain(last) && forall i :: 0 <= i < |words| ==> Plain(words[i])
    decreases |words|
  {
    var all := Terminated(words, SP) + last;
    if words == [] {
      assert all == last;
    } else {
      var rest := Terminated(words[1..], SP) + last;
      assert all == words[0] + [SP] + rest;
      ValidAround(words[0], SP, rest);
      PartsArePlain(words[1..], last);
      assert forall i :: 1 <= i < |words| ==> words[i] == words[1..][i - 1];
      hide Valid;
    }
  }

  /** A record of words and a path that its parser took. */
  lemma {:induction false} Taken(field: bytes, n: nat)
    requires n > 1 && |SplitN(field, n, SP)| == n && Plain(field)
    ensures var parts := SplitN(field, n, SP);
            && PlainWords(parts[..n - 1]) && Plain(parts[n - 1])
            && field == Terminated(parts[..n - 1], SP) + parts[n - 1]
  {
    SplitNJoins(field, n, SP);
    PartsArePlain(SplitN(field, n, SP)[..n - 1], SplitN(field, n, SP)[n - 1]);
    hide Plain, Terminated, SplitN;
  }

  /** The parts an ordinary record was made from. */
  function OrdinaryEntryOf(p: seq<bytes>): Entry
    requires |p| == 9 && |p[1]| == 2
  {
    OrdinaryEntry(p[1][0], p[1][1], p[2], [p[3], p[4], p[5]], [p[6], p[7]], p[8])
  }

  function RenameEntryOf(p: seq<bytes>, original: bytes): Entry
    requires |p| == 10 && |p[1]| == 2
  {
    RenameEntry(p[1][0], p[1][1], p[2], [p[3], p[4], p[5]], [p[6], p[7]], p[8], p[9], original)
  }

  function UnmergedEntryOf(p: seq<bytes>): Entry
    requires |p| == 11 && |p[1]| == 2
  {
    UnmergedEntry(p[1][0], p[1][1], p[2], [p[3], p[4], p[5], p[6]], [p[7], p[8], p[9]], p[10])
  }

  lemma {:induction false} OrdinaryParts(p: seq<bytes>, r: Record)
    requires OrdinaryFrom(p) == Some(r)
    ensures |p| == 9 && |p[1]| == 2 && p[8] != []
    ensures var e := OrdinaryEntryOf(p); Letters(e.x, e.y) && Words(e) == p[..8]
  {
    var e := OrdinaryEntryOf(p);
    assert p[1] == [p[1][0], p[1][1]];
    assert Words(e) == ["1", p[1], p[2], p[3], p[4], p[5], p[6], p[7]];
    assert p[..8] == [p[0], p[1], p[2], p[3], p[4], p[5], p[6], p[7]];
  }

  lemma {:induction false} RenameParts(p: seq<bytes>, r: Record, original: bytes)
    requires RenameFrom(p) == Some(r)
    ensures |p| == 10 && |p[1]| == 2 && p[9] != [] && (StartsWith(p[8], "R") || StartsWith(p[8], "C"))
    ensures var e := RenameEntryOf(p, original);
            Letters(e.x, e.y) && Words(e) == p[..9]
  {
    var e := RenameEntryOf(p, original);
    assert p[1] == [p[1][0], p[1][1]];
    assert Words(e) == ["2", p[1], p[2], p[3], p[4], p[5], p[6], p[7], p[8]];
    assert p[..9] == [p[0], p[1], p[2], p[3], p[4], p[5], p[6], p[7], p[8]];
  }

  lemma {:induction false} UnmergedParts(p: seq<bytes>, r: Record)
    requires UnmergedFrom(p) == Some(r)
    ensures |p| == 11 && |p[1]| == 2 && p[10] != []
    ensures var e := UnmergedEntryOf(p); Letters(e.x, e.y) && Words(e) == p[..10]
  {
    var e := UnmergedEntryOf(p);
    assert p[1] == [p[1][0], p[1][1]];
    assert Words(e) == ["u", p[1], p[2], p[3], p[4], p[5], p[6], p[7], p[8], p[9]];
    assert p[..10] == [p[0], p[1], p[2], p[3], p[4], p[5], p[6], p[7], p[8], p[9]];
  }

  lemma {:induction false} OrdinaryTaken(field: bytes, r: Record) returns (e: Entry)
    requires Plain(field) && ParseOrdinaryRecord(field) == Some(r)
    ensures e.OrdinaryEntry? && WellFormed(e) && EntryFields(e) == [field]
  {
    hide SplitN, Terminated, Plain, OrdinaryFrom, Words, Details, PlainWords, Letters;
    var p := SplitN(field, 9, SP);
    OrdinaryParts(p, r);
    e := OrdinaryEntryOf(p);
    Taken(field, 9);
    DetailsOf(e, p[..8]);
  }

  lemma {:induction false} RenameTaken(field: bytes, r: Record, original: bytes) returns (e: Entry)
    requires Plain(field) && ParseRenameRecord(field) == Some(r) && Plain(original)
    ensures e.RenameEntry? && WellFormed(e) && EntryFields(e) == [field, original]
  {
    hide SplitN, Terminated, Plain, RenameFrom, Words, Details, PlainWords, Letters;
    var p := SplitN(field, 10, SP);
    RenameParts(p, r, original);
    e := RenameEntryOf(p, original);
    Taken(field, 10);
    DetailsOf(e, p[..9]);
  }

  lemma {:induction false} UnmergedTaken(field: bytes, r: Record) returns (e: Entry)
    requires Plain(field) && ParseUnmergedRecord(field) == Some(r)
    ensures e.UnmergedEntry? && WellFormed(e) && EntryFields(e) == [field]
  {
    hide SplitN, Terminated, Plain, UnmergedFrom, Words, Details, PlainWords, Letters;
    var p := SplitN(field, 11, SP);
    UnmergedParts(p, r);
    e := UnmergedEntryOf(p);
    Taken(field, 11);
    DetailsOf(e, p[..10]);
  }

  lemma {:induction false} DetailsOf(e: Entry, words: seq<bytes>)
    requires !e.UntrackedEntry? && Words(e) == words && PlainWords(words)
    ensures PlainWords(Details(e))
  {
    hide Plain;
    assert Details(e) == words[2..];
  }

  // ------------------------------------------------------------ one line

  lemma {:induction false} HeadTaken(field: bytes, oid: bytes) returns (l: Line)
    requires ItemOf(field) == Head(oid)
    ensures GoodLine(l) && l.HeadOf? && FieldsOf(l) == [field]
  {
    var value := field[|HEAD_LINE|..];
    HeadExactly(value);
    l := HeadOf(oid, value[|oid|..]);
    assert field == "# branch.oid " + oid + value[|oid|..];
    hide ParseHeadOid, Valid, IsOid, LineEnds;
  }

  lemma {:induction false} UntrackedTaken(field: bytes) returns (e: Entry)
    requires Plain(field) && ItemOf(field).Complete? && KindOf(field) == UntrackedLine
    ensures e.UntrackedEntry? && WellFormed(e) && EntryFields(e) == [field]
  {
    e := UntrackedEntry(field[2..]);
    assert field == "?" + [SP] + field[2..];
    ValidAround("?", SP, field[2..]);
    assert ["?"][1..] == [];
    assert Terminated(["?"], SP) == "?" + [SP];
    hide Valid;
  }

  /** Which parser an item came from. */
  lemma {:induction false} ItemSource(field: bytes, r: Record)
    ensures ItemOf(field) == NeedsOriginal(r) ==> ParseRenameRecord(field) == Some(r)
    ensures ItemOf(field) == Complete(r) ==>
              || KindOf(field) == UntrackedLine || ParseOrdinaryRecord(field) == Some(r)
              || ParseUnmergedRecord(field) == Some(r)
  {
    hide KindOf, Valid, ParseHeadOid, ParseOrdinaryRecord, ParseUnmergedRecord, ParseRenameRecord;
  }

  /** The field of a whole record is an entry. */
  lemma {:induction false} RecordTaken(field: bytes, r: Record) returns (e: Entry)
    requires Plain(field) && ItemOf(field) == Complete(r)
    ensures WellFormed(e) && EntryFields(e) == [field]
  {
    hide *;
    ItemSource(field, r);
    if KindOf(field) == UntrackedLine {
      e := UntrackedTaken(field);
    } else if ParseOrdinaryRecord(field) == Some(r) {
      e := OrdinaryTaken(field, r);
    } else {
      e := UnmergedTaken(field, r);
    }
  }

  lemma {:induction false} RenamePair(field: bytes, r: Record, original: bytes) returns (e: Entry)
    requires Plain(field) && ItemOf(field) == NeedsOriginal(r) && Plain(original)
    ensures e.RenameEntry? && WellFormed(e) && EntryFields(e) == [field, original]
  {
    hide *;
    ItemSource(field, r);
    e := RenameTaken(field, r, original);
  }

  /** What the loop takes in one turn is a line. */
  lemma {:induction false} LineTaken(fields: seq<bytes>, head: Option<bytes>, records: seq<Record>, st: bool)
    returns (l: Line)
    requires fields != [] && SepFree(fields, NUL) && |records| < 10_000
    requires Scan(fields, head, records, st).Some?
    requires ItemOf(fields[0]).NeedsOriginal? ==> |fields| > 1
    ensures GoodLine(l) && FieldsOf(l) <= fields && (l.HeadOf? ==> head.None?)
  {
    var field := fields[0];
    assert Valid(field);
    match ItemOf(field)
    case Head(oid) => l := HeadTaken(field, oid);
    case Skipped => l := IgnoredOf(field);
    case Complete(r) =>
      var e := RecordTaken(field, r);
      l := EntryOf(e);
    case NeedsOriginal(r) =>
      var e := RenamePair(field, r, fields[1]);
      assert [field, fields[1]] == fields[..2];
      l := EntryOf(e);
  }

  lemma {:induction false} HeadScans(oid: bytes, ends: bytes)
    requires IsOid(oid) && LineEnds(ends)
    ensures ItemOf("# branch.oid " + oid + ends) == Head(oid)
  {
    var field := "# branch.oid " + oid + ends;
    assert field[|HEAD_LINE|..] == oid + ends;
    assert LowerHex(oid[|oid| - 1]);
    EndsAreTrimmed(oid, ends);
    AsciiIsValid(field);
    hide Valid, TrimLineEnds;
  }

  lemma {:induction false} IgnoredScans(text: bytes)
    requires GoodLine(IgnoredOf(text))
    ensures ItemOf(text) == Skipped
  {
    if StartsWith(text, "! ") {
      assert text[0] == "! "[0] && HEAD_LINE[0] == '#';
    }
    hide Valid;
  }

  /** The scan takes one line at a time. */
  lemma {:induction false} LineScans(l: Line, rest: seq<bytes>, head: Option<bytes>, records: seq<Record>, st: bool)
    requires GoodLine(l) && |records| < 10_000
    ensures Scan(FieldsOf(l) + rest, head, records, st)
         == if l.HeadOf? && head.Some? then None
            else Scan(rest, if l.HeadOf? then Some(l.oid) else head,
                      if l.EntryOf? then records + [Meaning(l.entry)] else records, st)
  {
    match l
    case HeadOf(oid, ends) =>
      HeadScans(oid, ends);
      assert (FieldsOf(l) + rest)[1..] == rest;
    case IgnoredOf(text) =>
      IgnoredScans(text);
      assert (FieldsOf(l) + rest)[1..] == rest;
    case EntryOf(e) => ScanEntry(e, rest, head, records, st);
    hide ItemOf, WellFormed, Meaning, EntryFields, IsOid, LineEnds, Plain;
  }

  // ------------------------------------------------------------ the whole output

  /** A rename whose second field is missing. */
  ghost predicate LoneRename(rest: seq<bytes>)
  {
    |rest| == 1 && exists e: Entry :: e.RenameEntry? && WellFormed(e) && rest[0] == EntryFields(e)[0]
  }

  /** No line is taken once `room` records have been. */
  predicate ReadWithin(lines: seq<Line>, room: nat)
  {
    lines != [] ==> room > 0 && ReadWithin(lines[1..], if lines[0].EntryOf? then room - 1 else room)
  }

  function Held(head: Option<bytes>): seq<bytes> { match head case None => [] case Some(oid) => [oid] }

  lemma {:induction false} Consed(l: Line, lines: seq<Line>, rest: seq<bytes>)
    requires GoodLine(l) && GoodLines(lines)
    ensures var all := [l] + lines;
            && GoodLines(all)
            && AllFieldsOf(all) + rest == FieldsOf(l) + (AllFieldsOf(lines) + rest)
            && HeadsOf(all) == (if l.HeadOf? then [l.oid] else []) + HeadsOf(lines)
            && RecordsIn(all) == (if l.EntryOf? then [Meaning(l.entry)] else []) + RecordsIn(lines)
  {
    assert ([l] + lines)[1..] == lines;
    hide GoodLine, FieldsOf, Meaning;
  }

  /** Where the scan stops: no field, no room, or a rename that the cut source ends in. */
  lemma {:induction false} ScanStops(fields: seq<bytes>, head: Option<bytes>, records: seq<Record>, st: bool)
    requires SepFree(fields, NUL) && |records| <= 10_000 && Scan(fields, head, records, st).Some?
    requires fields == [] || |records| == 10_000 || (ItemOf(fields[0]).NeedsOriginal? && |fields| == 1)
    ensures Scan(fields, head, records, st).value == (head, records, st || fields != [])
    ensures fields == [] || |records| == 10_000 || (st && LoneRename(fields))
  {
    if fields != [] && |records| < 10_000 { LoneTaken(fields); }
    hide ItemOf, LoneRename;
  }

  /** Otherwise it takes a line and goes on after it. */
  lemma {:induction false} ScanStep(fields: seq<bytes>, head: Option<bytes>, records: seq<Record>, st: bool)
    returns (l: Line, after: seq<bytes>)
    requires SepFree(fields, NUL) && |records| < 10_000 && Scan(fields, head, records, st).Some?
    requires fields != [] && !(ItemOf(fields[0]).NeedsOriginal? && |fields| == 1)
    ensures GoodLine(l) && fields == FieldsOf(l) + after && |after| < |fields| && SepFree(after, NUL)
    ensures (l.HeadOf? ==> head.None?) && (l.EntryOf? ==> WellFormed(l.entry))
    ensures Scan(fields, head, records, st)
         == Scan(after, if l.HeadOf? then Some(l.oid) else head,
                 if l.EntryOf? then records + [Meaning(l.entry)] else records, st)
  {
    hide Scan, ItemOf, GoodLine, Meaning, EntryFields;
    l := LineTaken(fields, head, records, st);
    after := fields[|FieldsOf(l)|..];
    LineScans(l, after, head, records, st);
    assert fields == FieldsOf(l) + after;
    LineShape(l);
  }

  lemma {:induction false} LineShape(l: Line)
    ensures FieldsOf(l) != [] && (GoodLine(l) && l.EntryOf? ==> WellFormed(l.entry))
  {
  }

  /** What the scan accepts are lines, read until the records are full or the fields are used up. */
  lemma {:induction false} ScanTaken(fields: seq<bytes>, head: Option<bytes>, records: seq<Record>, st: bool)
    returns (lines: seq<Line>, rest: seq<bytes>)
    requires SepFree(fields, NUL) && |records| <= 10_000 && Scan(fields, head, records, st).Some?
    ensures GoodLines(lines) && fields == AllFieldsOf(lines) + rest && ReadWithin(lines, 10_000 - |records|)
    ensures var (h, rs, cut) := Scan(fields, head, records, st).value;
            && Held(h) == Held(head) + HeadsOf(lines)
            && rs == records + RecordsIn(lines)
            && cut == (st || rest != [])
            && (rest == [] || |rs| == 10_000 || (st && LoneRename(rest)))
    decreases |fields|
  {
    hide *;
    if fields == [] || |records| == 10_000 || (ItemOf(fields[0]).NeedsOriginal? && |fields| == 1) {
      lines, rest := [], fields;
      NoLines(fields, head, records);
      ScanStops(fields, head, records, st);
    } else {
      var l, after := ScanStep(fields, head, records, st);
      var head' := if l.HeadOf? then Some(l.oid) else head;
      var records' := if l.EntryOf? then records + [Meaning(l.entry)] else records;
      var tail: seq<Line>;
      tail, rest := ScanTaken(after, head', records', st);
      lines := [l] + tail;
      Consed(l, tail, rest);
      HeldHead(l, head, HeadsOf(tail));
      WithinCons(l, tail, 10_000 - |records|);
    }
  }

  lemma {:induction false} HeldHead(l: Line, head: Option<bytes>, heads: seq<bytes>)
    requires l.HeadOf? ==> head.None?
    ensures Held(if l.HeadOf? then Some(l.oid) else head) + heads
         == Held(head) + ((if l.HeadOf? then [l.oid] else []) + heads)
  {
  }

  lemma {:induction false} WithinCons(l: Line, lines: seq<Line>, room: nat)
    ensures ReadWithin([l] + lines, room)
            <==> room > 0 && ReadWithin(lines, if l.EntryOf? then room - 1 else room)
  {
    assert ([l] + lines)[1..] == lines;
  }

  lemma {:induction false} NoLines(fields: seq<bytes>, head: Option<bytes>, records: seq<Record>)
    ensures fields == AllFieldsOf([]) + fields && records + RecordsIn([]) == records
    ensures Held(head) + HeadsOf([]) == Held(head) && GoodLines([])
    ensures forall room: nat :: ReadWithin([], room)
  {
  }

  lemma {:induction false} LoneTaken(fields: seq<bytes>)
    requires |fields| == 1 && Plain(fields[0]) && ItemOf(fields[0]).NeedsOriginal?
    ensures LoneRename(fields)
  {
    var e := RenamePair(fields[0], ItemOf(fields[0]).record, []);
    hide ItemOf, WellFormed, EntryFields;
  }

  lemma {:induction false} FirstLine(lines: seq<Line>, rest: seq<bytes>)
    requires lines != [] && GoodLines(lines)
    ensures GoodLine(lines[0]) && GoodLines(lines[1..]) && lines == [lines[0]] + lines[1..]
    ensures lines[0].EntryOf? ==> WellFormed(lines[0].entry)
  {
    hide WellFormed;
  }

  /** Such lines are scanned as they stand. */
  lemma {:induction false} LinesScan(lines: seq<Line>, rest: seq<bytes>, head: Option<bytes>, records: seq<Record>,
                                     st: bool)
    requires GoodLines(lines) && |records| <= 10_000 && ReadWithin(lines, 10_000 - |records|)
    requires |Held(head) + HeadsOf(lines)| <= 1
    requires rest == [] || |records + RecordsIn(lines)| == 10_000 || (st && LoneRename(rest))
    ensures Scan(AllFieldsOf(lines) + rest, head, records, st).Some?
    ensures var (h, rs, cut) := Scan(AllFieldsOf(lines) + rest, head, records, st).value;
            Held(h) == Held(head) + HeadsOf(lines) && rs == records + RecordsIn(lines) && cut == (st || rest != [])
    decreases |lines|
  {
    hide *;
    if lines == [] {
      NoLines(rest, head, records);
      RestScans(rest, head, records, st);
    } else {
      FirstLine(lines, rest);
      var l, tail := lines[0], lines[1..];
      Consed(l, tail, rest);
      WithinCons(l, tail, 10_000 - |records|);
      LineScans(l, AllFieldsOf(tail) + rest, head, records, st);
      OneHead(l, head, HeadsOf(tail));
      HeldHead(l, head, HeadsOf(tail));
      var head' := if l.HeadOf? then Some(l.oid) else head;
      var records' := if l.EntryOf? then records + [Meaning(l.entry)] else records;
      assert records' + RecordsIn(tail) == records + RecordsIn(lines);
      LinesScan(tail, rest, head', records', st);
    }
  }

  lemma {:induction false} OneHead(l: Line, head: Option<bytes>, heads: seq<bytes>)
    requires |Held(head) + ((if l.HeadOf? then [l.oid] else []) + heads)| <= 1
    ensures l.HeadOf? ==> head.None?
  {
  }

  lemma {:induction false} RestScans(rest: seq<bytes>, head: Option<bytes>, records: seq<Record>, st: bool)
    requires |records| <= 10_000 && (rest == [] || |records| == 10_000 || (st && LoneRename(rest)))
    ensures Scan(rest, head, records, st) == Some((head, records, st || rest != []))
  {
    if rest != [] && |records| < 10_000 {
      var e: Entry :| e.RenameEntry? && WellFormed(e) && rest[0] == EntryFields(e)[0];
      EntryItem(e);
    }
    hide ItemOf, WellFormed, EntryFields, Meaning;
  }

  /** The fields of an output: each ended by NUL, and an unterminated tail only where the source was cut. */
  lemma {:induction false} FieldsTaken(text: bytes, st: bool) returns (tail: bytes)
    requires StatusFields(text, st).Some?
    ensures var fields := StatusFields(text, st).value;
            text == Terminated(fields, NUL) + tail && SepFree(fields, NUL) && NUL !in tail && (tail != [] ==> st)
  {
    SplitJoins(text, NUL);
    SplitLast(text, NUL);
    var parts := Split(text, NUL);
    tail := parts[|parts| - 1];
    hide Split, Terminated;
  }

  lemma {:induction false} FieldsSplit(fields: seq<bytes>, tail: bytes, st: bool)
    requires SepFree(fields, NUL) && NUL !in tail && (tail != [] ==> st)
    ensures StatusFields(Terminated(fields, NUL) + tail, st) == Some(fields)
  {
    var text := Terminated(fields, NUL) + tail;
    SplitTerminated(fields, NUL, tail);
    SplitLast(text, NUL);
    assert (fields + [tail])[..|fields|] == fields;
    hide Split, Terminated;
  }

  /**
   The text is these lines, then fields that are not read: none, or what follows the ten thousandth record, or, in a
   cut source, a rename without its second path. Only a cut source ends inside a field.
   */
  ghost predicate Reads(text: bytes, st: bool, lines: seq<Line>, rest: seq<bytes>, tail: bytes)
  {
    && text == Terminated(AllFieldsOf(lines) + rest, NUL) + tail
    && SepFree(AllFieldsOf(lines) + rest, NUL) && NUL !in tail && (tail != [] ==> st)
    && GoodLines(lines) && ReadWithin(lines, 10_000)
    && (rest == [] || |RecordsIn(lines)| == 10_000 || (st && LoneRename(rest)))
  }

  /**
   The language of the parser, for any bytes: it answers a status exactly when the text is made of lines, one of them
   a head line, and the status is that head, the records of the entries in order, and whether anything was left out.
   */
  lemma {:induction false} ParsesExactly(text: bytes, st: bool, head: bytes, records: seq<Record>, cut: bool)
    ensures Parse(text, st) == Ok(Status(head, records, cut))
       <==> exists lines, rest, tail ::
              && Reads(text, st, lines, rest, tail)
              && HeadsOf(lines) == [head] && RecordsIn(lines) == records && cut == (st || rest != [])
  {
    hide Parse, Terminated, AllFieldsOf, SepFree, GoodLines, ReadWithin, LoneRename, HeadsOf, RecordsIn;
    if Parse(text, st) == Ok(Status(head, records, cut)) { ParseTaken(text, st, head, records, cut); }
    forall lines, rest, tail |
      && Reads(text, st, lines, rest, tail)
      && HeadsOf(lines) == [head] && RecordsIn(lines) == records && cut == (st || rest != [])
      ensures Parse(text, st) == Ok(Status(head, records, cut))
    {
      LinesParse(text, st, lines, rest, tail, head);
    }
  }

  lemma {:induction false} ParseTaken(text: bytes, st: bool, head: bytes, records: seq<Record>, cut: bool)
    requires Parse(text, st) == Ok(Status(head, records, cut))
    ensures exists lines, rest, tail ::
              && Reads(text, st, lines, rest, tail)
              && HeadsOf(lines) == [head] && RecordsIn(lines) == records && cut == (st || rest != [])
  {
    hide Scan, StatusFields, AllFieldsOf, GoodLines, HeadsOf, RecordsIn, ReadWithin, Terminated, LoneRename;
    var tail := FieldsTaken(text, st);
    var fields := StatusFields(text, st).value;
    var lines, rest := ScanTaken(fields, None, [], st);
    assert Reads(text, st, lines, rest, tail);
  }

  lemma {:induction false} LinesParse(text: bytes, st: bool, lines: seq<Line>, rest: seq<bytes>, tail: bytes,
                                      head: bytes)
    requires Reads(text, st, lines, rest, tail) && HeadsOf(lines) == [head]
    ensures Parse(text, st) == Ok(Status(head, RecordsIn(lines), st || rest != []))
  {
    hide Scan, StatusFields, AllFieldsOf, GoodLines, HeadsOf, RecordsIn, ReadWithin, Terminated, LoneRename, SepFree;
    var fields := AllFieldsOf(lines) + rest;
    FieldsSplit(fields, tail, st);
    assert [] + RecordsIn(lines) == RecordsIn(lines) && Held(None) + HeadsOf(lines) == [head];
    LinesScan(lines, rest, None, [], st);
  }
}
