/** Git's porcelain v2 status with NUL terminators: the checkpoint parser, a printer, and what cuts do. */
module Porcelain {
  import opened Wrappers
  import opened Bytes
  import opened Utf8

  const GIT_CHECKPOINT_MAX_RECORDS: nat := 10_000
  const NUL: byte := 0 as char
  const SP: byte := ' '
  const HEAD_LINE: bytes := "# branch.oid "

  datatype RecordType = Ordinary | Rename | Unmerged | Untracked

  datatype Record = Record(
    recordType: RecordType,
    path: bytes,
    originalPath: Option<bytes>,
    indexStatus: Option<bytes>,
    worktreeStatus: Option<bytes>,
    headMode: Option<bytes>,
    indexMode: Option<bytes>,
    worktreeMode: Option<bytes>,
    headOid: Option<bytes>,
    indexOid: Option<bytes>,
    stage1Oid: Option<bytes>,
    stage2Oid: Option<bytes>,
    stage3Oid: Option<bytes>)

  datatype ParseError = InvalidCheckpointStatus

  datatype Status = Status(headOid: bytes, records: seq<Record>, truncated: bool)

  // ------------------------------------------------------------ one field

  /** `trim_end_matches(['\r', '\n'])`. */
  function TrimLineEnds(s: bytes): bytes
  {
    if s != [] && (s[|s| - 1] == '\r' || s[|s| - 1] == '\n') then TrimLineEnds(s[..|s| - 1]) else s
  }

  function ParseHeadOid(value: bytes): Option<bytes>
  {
    var oid := TrimLineEnds(value);
    if IsOid(oid) then Some(oid) else None
  }

  predicate Graphic(b: byte) { 0x21 <= b as int <= 0x7E }

  function NormalizeStatus(b: byte): Option<bytes> { if b == '.' then None else Some([b]) }

  function ParseXy(value: bytes): Option<(Option<bytes>, Option<bytes>)>
  {
    if |value| != 2 || !Graphic(value[0]) || !Graphic(value[1]) then None
    else Some((NormalizeStatus(value[0]), NormalizeStatus(value[1])))
  }

  function ParseOrdinaryRecord(field: bytes): Option<Record> { OrdinaryFrom(SplitN(field, 9, SP)) }

  function OrdinaryFrom(parts: seq<bytes>): Option<Record>
  {
    if |parts| != 9 || parts[0] != "1" || parts[8] == [] then None
    else match ParseXy(parts[1])
      case None => None
      case Some((x, y)) =>
        Some(Record(Ordinary, parts[8], None, x, y, Some(parts[3]), Some(parts[4]), Some(parts[5]),
                    Some(parts[6]), Some(parts[7]), None, None, None))
  }

  function ParseRenameRecord(field: bytes): Option<Record> { RenameFrom(SplitN(field, 10, SP)) }

  function RenameFrom(parts: seq<bytes>): Option<Record>
  {
    if |parts| != 10 || parts[0] != "2" || parts[9] == [] then None
    else match ParseXy(parts[1])
      case None => None
      case Some((x, y)) =>
        if !StartsWith(parts[8], "R") && !StartsWith(parts[8], "C") then None
        else
          Some(Record(Rename, parts[9], None, x, y, Some(parts[3]), Some(parts[4]), Some(parts[5]),
                      Some(parts[6]), Some(parts[7]), None, None, None))
  }

  function ParseUnmergedRecord(field: bytes): Option<Record> { UnmergedFrom(SplitN(field, 11, SP)) }

  function UnmergedFrom(parts: seq<bytes>): Option<Record>
  {
    if |parts| != 11 || parts[0] != "u" || parts[10] == [] then None
    else match ParseXy(parts[1])
      case None => None
      case Some((x, y)) =>
        Some(Record(Unmerged, parts[10], None, x, y, Some(parts[3]), Some(parts[4]), Some(parts[6]),
                    None, None, Some(parts[7]), Some(parts[8]), Some(parts[9])))
  }

  /** What one field is; a rename still needs the field after it. */
  datatype Item = Bad | Head(oid: bytes) | Skipped | Complete(record: Record) | NeedsOriginal(record: Record)

  function UntrackedRecord(path: bytes): Record
  {
    Record(Untracked, path, None, None, Some("?"), None, None, None, None, None, None, None, None)
  }

  datatype LineKind = HeadLine | IgnoredKind | UntrackedLine | OrdinaryLine | RenameLine | UnmergedLine | UnknownLine

  function KindOf(field: bytes): LineKind
  {
    if StartsWith(field, HEAD_LINE) then HeadLine
    else if StartsWith(field, "# ") || StartsWith(field, "! ") then IgnoredKind
    else if StartsWith(field, "? ") then UntrackedLine
    else if StartsWith(field, "1 ") then OrdinaryLine
    else if StartsWith(field, "2 ") then RenameLine
    else if StartsWith(field, "u ") then UnmergedLine
    else UnknownLine
  }

  function ItemOf(field: bytes): Item
  {
    if !Valid(field) then Bad
    else match KindOf(field)
      case HeadLine =>
        (match ParseHeadOid(field[|HEAD_LINE|..]) case None => Bad case Some(oid) => Head(oid))
      case IgnoredKind => Skipped
      case UntrackedLine => if field[2..] == [] then Bad else Complete(UntrackedRecord(field[2..]))
      case OrdinaryLine => (match ParseOrdinaryRecord(field) case None => Bad case Some(r) => Complete(r))
      case RenameLine => (match ParseRenameRecord(field) case None => Bad case Some(r) => NeedsOriginal(r))
      case UnmergedLine => (match ParseUnmergedRecord(field) case None => Bad case Some(r) => Complete(r))
      case UnknownLine => Bad
  }

  // ------------------------------------------------------------ the parser, as functions

  /** The NUL-terminated fields; an unterminated tail is dropped when the source was cut, refused otherwise. */
  function StatusFields(text: bytes, sourceTruncated: bool): Option<seq<bytes>>
  {
    var parts := Split(text, NUL);
    var terminated := text == [] || text[|text| - 1] == NUL;
    if terminated && parts[|parts| - 1] == [] then Some(parts[..|parts| - 1])
    else if sourceTruncated then Some(parts[..|parts| - 1])
    else if !terminated && text != [] then None
    else Some(parts)
  }

  /** The record loop over the fields still to come. */
  function Scan(fields: seq<bytes>, head: Option<bytes>, records: seq<Record>, sourceTruncated: bool)
    : Option<(Option<bytes>, seq<Record>, bool)>
    decreases |fields|
  {
    if fields == [] then Some((head, records, sourceTruncated))
    else if |records| >= GIT_CHECKPOINT_MAX_RECORDS then Some((head, records, true))
    else match ItemOf(fields[0])
      case Bad => None
      case Head(oid) => if head.Some? then None else Scan(fields[1..], Some(oid), records, sourceTruncated)
      case Skipped => Scan(fields[1..], head, records, sourceTruncated)
      case Complete(r) => Scan(fields[1..], head, records + [r], sourceTruncated)
      case NeedsOriginal(r) =>
        if |fields| == 1 then
          if sourceTruncated then Some((head, records, true)) else None
        else if !Valid(fields[1]) then None
        else Scan(fields[2..], head, records + [r.(originalPath := Some(fields[1]))], sourceTruncated)
  }

  function Parse(text: bytes, sourceTruncated: bool): Result<Status, ParseError>
  {
    match StatusFields(text, sourceTruncated)
    case None => Err(InvalidCheckpointStatus)
    case Some(fields) =>
      match Scan(fields, None, [], sourceTruncated)
      case None => Err(InvalidCheckpointStatus)
      case Some((head, records, truncated)) =>
        if head.None? then Err(InvalidCheckpointStatus) else Ok(Status(head.value, records, truncated))
  }

  // ------------------------------------------------------------ the parser itself

  method ParseCheckpointStatus(text: bytes, sourceTruncated: bool) returns (r: Result<Status, ParseError>)
    ensures r == Parse(text, sourceTruncated)
  {
    var split := StatusFields(text, sourceTruncated);
    if split.None? { return Err(InvalidCheckpointStatus); }
    var fields := split.value;
    var head: Option<bytes> := None;
    var records: seq<Record> := [];
    var index: nat := 0;
    var truncated := sourceTruncated;
    ghost var answer := Scan(fields, None, [], sourceTruncated);
    assert fields[0..] == fields;
    while index < |fields|
      invariant index <= |fields|
      invariant truncated == sourceTruncated
      invariant answer == Scan(fields[index..], head, records, sourceTruncated)
    {
      if |records| >= GIT_CHECKPOINT_MAX_RECORDS {
        truncated := true;
        break;
      }
      var field := fields[index];
      assert fields[index..][0] == field && fields[index..][1..] == fields[index + 1..];
      index := index + 1;
      match ItemOf(field)
      case Bad => return Err(InvalidCheckpointStatus);
      case Head(oid) =>
        if head.Some? { return Err(InvalidCheckpointStatus); }
        head := Some(oid);
      case Skipped =>
      case Complete(record) => records := records + [record];
      case NeedsOriginal(record) =>
        if index == |fields| {
          if sourceTruncated {
            truncated := true;
            break;
          }
          return Err(InvalidCheckpointStatus);
        }
        var original := fields[index];
        assert fields[index - 1..][1] == original && fields[index - 1..][2..] == fields[index + 1..];
        index := index + 1;
        if !Valid(original) { return Err(InvalidCheckpointStatus); }
        records := records + [record.(originalPath := Some(original))];
    }
    assert answer == Some((head, records, truncated));
    if head.None? { return Err(InvalidCheckpointStatus); }
    return Ok(Status(head.value, records, truncated));
  }

  // ------------------------------------------------------------ the printer

  datatype Entry =
    | OrdinaryEntry(x: byte, y: byte, sub: bytes, modes: seq<bytes>, oids: seq<bytes>, path: bytes)
    | RenameEntry(x: byte, y: byte, sub: bytes, modes: seq<bytes>, oids: seq<bytes>, score: bytes, path: bytes,
                  original: bytes)
    | UnmergedEntry(x: byte, y: byte, sub: bytes, modes: seq<bytes>, oids: seq<bytes>, path: bytes)
    | UntrackedEntry(path: bytes)

  /** The words after the status letters. */
  function Details(e: Entry): seq<bytes>
  {
    match e
    case OrdinaryEntry(_, _, sub, modes, oids, _) => [sub] + modes + oids
    case RenameEntry(_, _, sub, modes, oids, score, _, _) => [sub] + modes + oids + [score]
    case UnmergedEntry(_, _, sub, modes, oids, _) => [sub] + modes + oids
    case UntrackedEntry(_) => []
  }

  /** The space-separated words before the path. */
  function Words(e: Entry): seq<bytes>
  {
    match e
    case OrdinaryEntry(x, y, _, _, _, _) => ["1", [x, y]] + Details(e)
    case RenameEntry(x, y, _, _, _, _, _, _) => ["2", [x, y]] + Details(e)
    case UnmergedEntry(x, y, _, _, _, _) => ["u", [x, y]] + Details(e)
    case UntrackedEntry(_) => ["?"]
  }

  function EntryFields(e: Entry): seq<bytes>
  {
    var first := Terminated(Words(e), SP) + e.path;
    if e.RenameEntry? then [first, e.original] else [first]
  }

  function AllFields(entries: seq<Entry>): seq<bytes>
  {
    if entries == [] then [] else EntryFields(entries[0]) + AllFields(entries[1..])
  }

  /** A text that can stand in a field: UTF-8 and free of NUL. */
  predicate Plain(s: bytes) { Valid(s) && NUL !in s }

  predicate PlainWords(words: seq<bytes>)
  {
    forall i :: 0 <= i < |words| ==> Plain(words[i]) && SP !in words[i]
  }

  /** Status letters are printable and not spaces. */
  predicate Letters(x: byte, y: byte) { '!' <= x <= '~' && '!' <= y <= '~' }

  predicate WellFormed(e: Entry)
  {
    && Plain(e.path) && e.path != [] && PlainWords(Details(e))
    && match e
       case UntrackedEntry(_) => true
       case OrdinaryEntry(x, y, _, modes, oids, _) => Letters(x, y) && |modes| == 3 && |oids| == 2
       case RenameEntry(x, y, _, modes, oids, score, _, original) =>
         && Letters(x, y) && |modes| == 3 && |oids| == 2 && Plain(original)
         && (StartsWith(score, "R") || StartsWith(score, "C"))
       case UnmergedEntry(x, y, _, modes, oids, _) => Letters(x, y) && |modes| == 4 && |oids| == 3
  }

  /** A status letter as a record shows it: a dot says that nothing changed. */
  function ShownLetter(letter: byte): Option<bytes> { match letter case '.' => None case c => Some([c]) }

  /** The record an entry stands for. */
  function Meaning(e: Entry): Record
    requires WellFormed(e)
  {
    match e
    case UntrackedEntry(path) =>
      Record(Untracked, path, None, None, Some("?"), None, None, None, None, None, None, None, None)
    case OrdinaryEntry(x, y, _, m, o, path) =>
      Record(Ordinary, path, None, ShownLetter(x), ShownLetter(y), Some(m[0]), Some(m[1]), Some(m[2]),
             Some(o[0]), Some(o[1]), None, None, None)
    case RenameEntry(x, y, _, m, o, _, path, original) =>
      Record(Rename, path, Some(original), ShownLetter(x), ShownLetter(y), Some(m[0]), Some(m[1]), Some(m[2]),
             Some(o[0]), Some(o[1]), None, None, None)
    case UnmergedEntry(x, y, _, m, o, path) =>
      Record(Unmerged, path, None, ShownLetter(x), ShownLetter(y), Some(m[0]), Some(m[1]), Some(m[3]),
             None, None, Some(o[0]), Some(o[1]), Some(o[2]))
  }

  ghost predicate AllWellFormed(entries: seq<Entry>)
  {
    forall i :: 0 <= i < |entries| ==> WellFormed(entries[i])
  }

  function Meanings(entries: seq<Entry>): (r: seq<Record>)
    requires AllWellFormed(entries)
    ensures |r| == |entries|
  {
    if entries == [] then [] else [Meaning(entries[0])] + Meanings(entries[1..])
  }

  /** Header lines other than the head line: ignored by the parser. */
  predicate IgnoredLine(s: bytes) { Plain(s) && StartsWith(s, "# ") && !StartsWith(s, "# branch.oid ") }

  /** One head line, header lines, then the records. */
  function Print(oid: bytes, headers: seq<bytes>, entries: seq<Entry>): bytes
  {
    Terminated(["# branch.oid " + oid] + (headers + AllFields(entries)), 0 as char)
  }

  // ------------------------------------------------------------ fields read back

  lemma {:induction false} SplitWords(words: seq<bytes>, last: bytes)
    requires forall i :: 0 <= i < |words| ==> SP !in words[i]
    ensures SplitN(Terminated(words, SP) + last, |words| + 1, SP) == words + [last]
    decreases |words|
  {
    if words == [] {
      assert Terminated(words, SP) + last == last;
    } else {
      var rest := Terminated(words[1..], SP) + last;
      assert Terminated(words, SP) + last == words[0] + [SP] + rest;
      SplitNHead(words[0], |words| + 1, SP, rest);
      SplitWords(words[1..], last);
      assert words == [words[0]] + words[1..];
    }
  }

  lemma {:induction false} TerminatedIsPlain(words: seq<bytes>, last: bytes)
    requires forall i :: 0 <= i < |words| ==> Plain(words[i])
    requires Plain(last)
    ensures Plain(Terminated(words, SP) + last)
    decreases |words|
  {
    if words == [] {
      assert Terminated(words, SP) + last == last;
    } else {
      var rest := Terminated(words[1..], SP) + last;
      TerminatedIsPlain(words[1..], last);
      assert Terminated(words, SP) + last == words[0] + ([SP] + rest);
      assert ([SP] + rest)[1..] == rest;
      assert Valid([SP] + rest);
      ValidAppend(words[0], [SP] + rest);
    }
  }

  lemma {:induction false} ShortWordIsPlain(w: bytes)
    requires 1 <= |w| <= 2 && forall i :: 0 <= i < |w| ==> Graphic(w[i])
    ensures Plain(w) && SP !in w
  {
    assert |w| == 2 ==> w[1..][1..] == [];
    AsciiIsValid(w);
  }

  lemma {:induction false} WordsArePlain(e: Entry)
    requires WellFormed(e)
    ensures PlainWords(Words(e))
  {
    if e.UntrackedEntry? {
      ShortWordIsPlain("?");
    } else {
      ShortWordIsPlain("1"); ShortWordIsPlain("2"); ShortWordIsPlain("u");
      ShortWordIsPlain([e.x, e.y]);
    }
  }

  /** The first field of an entry is valid text that starts with the entry's letter. */
  lemma {:induction false} FirstField(e: Entry)
    requires WellFormed(e)
    ensures var f := EntryFields(e)[0]; Plain(f) && StartsWith(f, Words(e)[0] + [SP])
  {
    var words := Words(e);
    WordsArePlain(e);
    TerminatedIsPlain(words, e.path);
    assert Terminated(words, SP) == words[0] + [SP] + Terminated(words[1..], SP);
  }

  /** It splits back into its words and path. */
  lemma {:induction false} FirstFieldSplits(e: Entry)
    requires WellFormed(e)
    ensures SplitN(EntryFields(e)[0], |Words(e)| + 1, SP) == Words(e) + [e.path]
  {
    WordsArePlain(e);
    SplitWords(Words(e), e.path);
  }

  /** The two leading bytes decide what kind of line a record's field is. */
  lemma {:induction false} LeadingBytes(f: bytes, c: byte)
    requires StartsWith(f, [c, SP]) && (c == '?' || c == '1' || c == '2' || c == 'u')
    ensures KindOf(f) == if c == '?' then UntrackedLine else if c == '1' then OrdinaryLine
                         else if c == '2' then RenameLine else UnmergedLine
  {
    assert f[0] == [c, SP][0] && f[1] == [c, SP][1];
    assert HEAD_LINE[0] == '#';
  }

  lemma {:induction false} WordsOfOrdinary(e: Entry)
    requires WellFormed(e) && e.OrdinaryEntry?
    ensures |Words(e)| == 8 && OrdinaryFrom(Words(e) + [e.path]) == Some(Meaning(e))
  {
    var m, o := e.modes, e.oids;
    assert Words(e) + [e.path] == ["1", [e.x, e.y], e.sub, m[0], m[1], m[2], o[0], o[1], e.path];
  }

  lemma {:induction false} WordsOfRename(e: Entry)
    requires WellFormed(e) && e.RenameEntry?
    ensures |Words(e)| == 9 && RenameFrom(Words(e) + [e.path]) == Some(Meaning(e).(originalPath := None))
  {
    var m, o := e.modes, e.oids;
    assert Words(e) + [e.path] == ["2", [e.x, e.y], e.sub, m[0], m[1], m[2], o[0], o[1], e.score, e.path];
  }

  lemma {:induction false} WordsOfUnmerged(e: Entry)
    requires WellFormed(e) && e.UnmergedEntry?
    ensures |Words(e)| == 10 && UnmergedFrom(Words(e) + [e.path]) == Some(Meaning(e))
  {
    var m, o := e.modes, e.oids;
    assert Words(e) + [e.path]
        == ["u", [e.x, e.y], e.sub, m[0], m[1], m[2], m[3], o[0], o[1], o[2], e.path];
  }

  lemma {:induction false} UntrackedItem(e: Entry)
    requires WellFormed(e) && e.UntrackedEntry?
    ensures ItemOf(EntryFields(e)[0]) == Complete(Meaning(e))
  {
    FirstField(e);
    LeadingBytes(EntryFields(e)[0], '?');
    var f := EntryFields(e)[0];
    assert Terminated(["?"][1..], SP) == [];
    assert f == "? " + e.path && f[2..] == e.path;
  }

  lemma {:induction false} OrdinaryParses(e: Entry)
    requires WellFormed(e) && e.OrdinaryEntry?
    ensures ParseOrdinaryRecord(EntryFields(e)[0]) == Some(Meaning(e))
  {
    FirstFieldSplits(e);
    WordsOfOrdinary(e);
  }

  lemma {:induction false} ParsedItem(f: bytes, r: Record)
    requires Valid(f)
    ensures KindOf(f) == OrdinaryLine && ParseOrdinaryRecord(f) == Some(r) ==> ItemOf(f) == Complete(r)
    ensures KindOf(f) == UnmergedLine && ParseUnmergedRecord(f) == Some(r) ==> ItemOf(f) == Complete(r)
    ensures KindOf(f) == RenameLine && ParseRenameRecord(f) == Some(r) ==> ItemOf(f) == NeedsOriginal(r)
  {
    hide KindOf, Valid, ParseHeadOid, ParseOrdinaryRecord, ParseUnmergedRecord, ParseRenameRecord;
  }

  lemma {:induction false} FieldKind(e: Entry)
    requires WellFormed(e) && !e.UntrackedEntry?
    ensures Valid(EntryFields(e)[0])
    ensures KindOf(EntryFields(e)[0])
         == if e.OrdinaryEntry? then OrdinaryLine else if e.RenameEntry? then RenameLine else UnmergedLine
  {
    FirstField(e);
    var f, letter := EntryFields(e)[0], Words(e)[0];
    assert letter == [letter[0]] && letter + [SP] == [letter[0], SP];
    hide Valid, EntryFields, KindOf;
    LeadingBytes(f, letter[0]);
  }

  lemma {:induction false} OrdinaryItem(e: Entry)
    requires WellFormed(e) && e.OrdinaryEntry?
    ensures ItemOf(EntryFields(e)[0]) == Complete(Meaning(e))
  {
    OrdinaryParses(e);
    FieldKind(e);
    ParsedItem(EntryFields(e)[0], Meaning(e));
    hide *;
  }

  lemma {:induction false} RenameParses(e: Entry)
    requires WellFormed(e) && e.RenameEntry?
    ensures ParseRenameRecord(EntryFields(e)[0]) == Some(Meaning(e).(originalPath := None))
  {
    FirstFieldSplits(e);
    WordsOfRename(e);
  }

  lemma {:induction false} RenameItem(e: Entry)
    requires WellFormed(e) && e.RenameEntry?
    ensures ItemOf(EntryFields(e)[0]) == NeedsOriginal(Meaning(e).(originalPath := None))
  {
    RenameParses(e);
    FieldKind(e);
    ParsedItem(EntryFields(e)[0], Meaning(e).(originalPath := None));
    hide *;
  }

  lemma {:induction false} UnmergedParses(e: Entry)
    requires WellFormed(e) && e.UnmergedEntry?
    ensures ParseUnmergedRecord(EntryFields(e)[0]) == Some(Meaning(e))
  {
    FirstFieldSplits(e);
    WordsOfUnmerged(e);
  }

  lemma {:induction false} UnmergedItem(e: Entry)
    requires WellFormed(e) && e.UnmergedEntry?
    ensures ItemOf(EntryFields(e)[0]) == Complete(Meaning(e))
  {
    UnmergedParses(e);
    FieldKind(e);
    ParsedItem(EntryFields(e)[0], Meaning(e));
    hide *;
  }

  /** What the parser makes of an entry's first field. */
  lemma {:induction false} EntryItem(e: Entry)
    requires WellFormed(e)
    ensures ItemOf(EntryFields(e)[0])
         == if e.RenameEntry? then NeedsOriginal(Meaning(e).(originalPath := None)) else Complete(Meaning(e))
  {
    match e
    case UntrackedEntry(_) => UntrackedItem(e);
    case OrdinaryEntry(_, _, _, _, _, _) => OrdinaryItem(e);
    case RenameEntry(_, _, _, _, _, _, _, _) => RenameItem(e);
    case UnmergedEntry(_, _, _, _, _, _) => UnmergedItem(e);
  }

  lemma {:induction false} ScanEntry(e: Entry, rest: seq<bytes>, head: Option<bytes>, records: seq<Record>, st: bool)
    requires WellFormed(e) && |records| < GIT_CHECKPOINT_MAX_RECORDS
    ensures Scan(EntryFields(e) + rest, head, records, st) == Scan(rest, head, records + [Meaning(e)], st)
  {
    var fields := EntryFields(e) + rest;
    assert fields[0] == EntryFields(e)[0];
    EntryItem(e);
    if e.RenameEntry? {
      assert fields[1] == e.original && fields[2..] == rest;
    } else {
      assert fields[1..] == rest;
    }
  }

  lemma {:induction false} MeaningsAfter(entries: seq<Entry>, records: seq<Record>, n: nat)
    requires AllWellFormed(entries) && 1 <= n <= |entries|
    ensures records + Meanings(entries)[..n] == records + [Meaning(entries[0])] + Meanings(entries[1..])[..n - 1]
  {
    var first, rest := Meaning(entries[0]), Meanings(entries[1..]);
    assert Meanings(entries) == [first] + rest;
    hide *;
    TakeOne(records, first, rest, n);
  }

  lemma {:induction false} TakeOne(records: seq<Record>, first: Record, rest: seq<Record>, n: nat)
    requires 1 <= n <= |rest| + 1
    ensures records + ([first] + rest)[..n] == records + [first] + rest[..n - 1]
  {
  }

  lemma {:induction false} NoRoom(entries: seq<Entry>, head: Option<bytes>, records: seq<Record>, st: bool)
    requires AllWellFormed(entries)
    requires |records| <= GIT_CHECKPOINT_MAX_RECORDS
    requires entries == [] || |records| == GIT_CHECKPOINT_MAX_RECORDS
    ensures var room := GIT_CHECKPOINT_MAX_RECORDS - |records|;
            Scan(AllFields(entries), head, records, st)
            == Some((head, records + Meanings(entries)[..Min(|entries|, room)], st || |entries| > room))
  {
    hide WellFormed, Meaning;
    assert entries != [] ==> AllFields(entries) != [];
    assert records + [] == records;
  }

  lemma {:induction false} ScanEntries(entries: seq<Entry>, head: Option<bytes>, records: seq<Record>, st: bool)
    requires AllWellFormed(entries) && |records| <= GIT_CHECKPOINT_MAX_RECORDS
    ensures var room := GIT_CHECKPOINT_MAX_RECORDS - |records|;
            Scan(AllFields(entries), head, records, st)
            == Some((head, records + Meanings(entries)[..Min(|entries|, room)], st || |entries| > room))
    decreases |entries|
  {
    hide *;
    var room := GIT_CHECKPOINT_MAX_RECORDS - |records|;
    if entries == [] || room == 0 {
      NoRoom(entries, head, records, st);
    } else {
      ScanFirst(entries, head, records, st);
      RestWellFormed(entries);
      ScanEntries(entries[1..], head, records + [Meaning(entries[0])], st);
      OneLess(|entries|, room);
      MeaningsAfter(entries, records, Min(|entries|, room));
    }
  }

  lemma {:induction false} OneLess(a: nat, b: nat)
    requires a > 0 && b > 0
    ensures 1 <= Min(a, b) <= a && Min(a, b) - 1 == Min(a - 1, b - 1)
  {
  }

  lemma {:induction false} RestWellFormed(entries: seq<Entry>)
    requires entries != [] && AllWellFormed(entries)
    ensures WellFormed(entries[0]) && AllWellFormed(entries[1..])
  {
    hide WellFormed;
  }

  lemma {:induction false} ScanFirst(entries: seq<Entry>, head: Option<bytes>, records: seq<Record>, st: bool)
    requires entries != [] && AllWellFormed(entries) && |records| < GIT_CHECKPOINT_MAX_RECORDS
    ensures Scan(AllFields(entries), head, records, st)
         == Scan(AllFields(entries[1..]), head, records + [Meaning(entries[0])], st)
  {
    ScanEntry(entries[0], AllFields(entries[1..]), head, records, st);
    hide Scan, EntryFields, Meaning, WellFormed;
  }

  lemma {:induction false} ScanHeaders(headers: seq<bytes>, rest: seq<bytes>, head: Option<bytes>, st: bool)
    requires forall i :: 0 <= i < |headers| ==> IgnoredLine(headers[i])
    ensures Scan(headers + rest, head, [], st) == Scan(rest, head, [], st)
    decreases |headers|
  {
    if headers == [] {
      assert headers + rest == rest;
    } else {
      assert (headers + rest)[0] == headers[0];
      assert (headers + rest)[1..] == headers[1..] + rest;
      ScanHeaders(headers[1..], rest, head, st);
    }
  }

  lemma {:induction false} OidIsPlain(oid: bytes)
    requires IsOid(oid)
    ensures Plain(HEAD_LINE + oid) && ItemOf(HEAD_LINE + oid) == Head(oid)
  {
    AsciiIsValid(HEAD_LINE + oid);
    assert TrimLineEnds(oid) == oid;
    assert (HEAD_LINE + oid)[|HEAD_LINE|..] == oid;
  }

  lemma {:induction false} FieldsAreNulFree(entries: seq<Entry>)
    requires AllWellFormed(entries)
    ensures SepFree(AllFields(entries), NUL)
    decreases |entries|
  {
    if entries != [] {
      FirstField(entries[0]);
      FieldsAreNulFree(entries[1..]);
    }
  }

  /** The fields of a terminated text. */
  lemma {:induction false} TerminatedFields(fields: seq<bytes>, st: bool)
    requires SepFree(fields, NUL)
    ensures StatusFields(Terminated(fields, NUL), st) == Some(fields)
  {
    var text := Terminated(fields, NUL);
    SplitTerminated(fields, NUL, []);
    assert text + [] == text;
    SplitLast(text, NUL);
    assert (fields + [[]])[..|fields|] == fields;
  }

  lemma {:induction false} PrintedFields(oid: bytes, headers: seq<bytes>, entries: seq<Entry>)
    requires IsOid(oid) && (forall i :: 0 <= i < |headers| ==> IgnoredLine(headers[i])) && AllWellFormed(entries)
    ensures SepFree([HEAD_LINE + oid] + (headers + AllFields(entries)), NUL)
  {
    OidIsPlain(oid);
    FieldsAreNulFree(entries);
  }

  lemma {:induction false} ScanHead(line: bytes, oid: bytes, rest: seq<bytes>, st: bool)
    requires ItemOf(line) == Head(oid)
    ensures Scan([line] + rest, None, [], st) == Scan(rest, Some(oid), [], st)
  {
    assert ([line] + rest)[1..] == rest;
  }

  lemma {:induction false} ScanPrinted(oid: bytes, headers: seq<bytes>, entries: seq<Entry>)
    requires IsOid(oid) && (forall i :: 0 <= i < |headers| ==> IgnoredLine(headers[i])) && AllWellFormed(entries)
    ensures Scan([HEAD_LINE + oid] + (headers + AllFields(entries)), None, [], false)
         == Scan(AllFields(entries), Some(oid), [], false)
  {
    var rest := headers + AllFields(entries);
    OidIsPlain(oid);
    ScanHead(HEAD_LINE + oid, oid, rest, false);
    ScanHeaders(headers, AllFields(entries), Some(oid), false);
  }

  /** Round trip: the head and the first 10000 records come back, flagged exactly when there were more. */
  lemma {:induction false} StatusRoundTrip(oid: bytes, headers: seq<bytes>, entries: seq<Entry>)
    requires IsOid(oid) && (forall i :: 0 <= i < |headers| ==> IgnoredLine(headers[i])) && AllWellFormed(entries)
    ensures Parse(Print(oid, headers, entries), false)
         == Ok(Status(oid, Meanings(entries)[..Min(|entries|, GIT_CHECKPOINT_MAX_RECORDS)],
                      |entries| > GIT_CHECKPOINT_MAX_RECORDS))
  {
    var fields := [HEAD_LINE + oid] + (headers + AllFields(entries));
    PrintedFields(oid, headers, entries);
    TerminatedFields(fields, false);
    ScanPrinted(oid, headers, entries);
    ScanEntries(entries, Some(oid), [], false);
    assert [] + Meanings(entries)[..Min(|entries|, GIT_CHECKPOINT_MAX_RECORDS)]
        == Meanings(entries)[..Min(|entries|, GIT_CHECKPOINT_MAX_RECORDS)];
  }

  /**
   A record shows the letters of its entry: absent exactly for a dot, and otherwise the letter itself. So entries with
   different letters have different records, and a worktree status of `M` is never lost.
   */
  lemma {:induction false} LettersComeBack(oid: bytes, headers: seq<bytes>, entries: seq<Entry>, i: nat)
    requires IsOid(oid) && (forall i :: 0 <= i < |headers| ==> IgnoredLine(headers[i])) && AllWellFormed(entries)
    requires i < |entries| <= 10_000 && !entries[i].UntrackedEntry?
    ensures Parse(Print(oid, headers, entries), false).Ok?
    ensures |Parse(Print(oid, headers, entries), false).value.records| == |entries|
    ensures var r, e := Parse(Print(oid, headers, entries), false).value.records[i], entries[i];
            && (r.indexStatus == None <==> e.x == '.') && (e.x != '.' ==> r.indexStatus == Some([e.x]))
            && (r.worktreeStatus == None <==> e.y == '.') && (e.y != '.' ==> r.worktreeStatus == Some([e.y]))
  {
    StatusRoundTrip(oid, headers, entries);
    MeaningAt(entries, i);
    assert Meanings(entries)[..|entries|] == Meanings(entries);
    hide Parse, Print, Meanings, WellFormed;
  }

  lemma {:induction false} MeaningAt(entries: seq<Entry>, i: nat)
    requires AllWellFormed(entries) && i < |entries|
    ensures Meanings(entries)[i] == Meaning(entries[i])
    decreases i
  {
    if i > 0 { MeaningAt(entries[1..], i - 1); }
  }

  // ------------------------------------------------------------ cutting the output

  /** The fields of a cut text are the first fields of the whole one. */
  lemma {:induction false} CutFields(text: bytes, k: nat)
    requires k <= |text| && StatusFields(text, false).Some?
    ensures var cut := StatusFields(text[..k], true);
            cut.Some? && cut.value <= StatusFields(text, false).value
    ensures |StatusFields(text[..k], true).value| == |Split(text[..k], NUL)| - 1
  {
    SplitCut(text, NUL, k);
    SplitLast(text, NUL);
    SplitLast(text[..k], NUL);
  }

  /** Scanning fewer fields of a cut source yields fewer records, never others, and says so. */
  lemma {:induction false} ScanPrefix(fields: seq<bytes>, m: nat, head: Option<bytes>, records: seq<Record>)
    requires m <= |fields| && Scan(fields, head, records, false).Some?
    ensures var whole := Scan(fields, head, records, false).value;
            var cut := Scan(fields[..m], head, records, true);
            && cut.Some? && cut.value.2
            && records <= cut.value.1 <= whole.1
            && (head.Some? ==> cut.value.0 == head && whole.0 == head)
            && (cut.value.0.Some? ==> cut.value.0 == whole.0)
    decreases |fields|
  {
    var cut := fields[..m];
    if fields != [] && |records| < GIT_CHECKPOINT_MAX_RECORDS {
      match ItemOf(fields[0])
      case Bad =>
      case Head(oid) =>
        ScanPrefix(fields[1..], if m > 0 then m - 1 else 0, Some(oid), records);
        assert m > 0 ==> cut[0] == fields[0] && cut[1..] == fields[1..][..m - 1];
      case Skipped =>
        ScanPrefix(fields[1..], if m > 0 then m - 1 else 0, head, records);
        assert m > 0 ==> cut[0] == fields[0] && cut[1..] == fields[1..][..m - 1];
      case Complete(r) =>
        ScanPrefix(fields[1..], if m > 0 then m - 1 else 0, head, records + [r]);
        assert m > 0 ==> cut[0] == fields[0] && cut[1..] == fields[1..][..m - 1];
      case NeedsOriginal(r) =>
        var r' := r.(originalPath := Some(fields[1]));
        ScanPrefix(fields[2..], if m > 1 then m - 2 else 0, head, records + [r']);
        assert m > 0 ==> cut[0] == fields[0];
        assert m > 1 ==> cut[1] == fields[1] && cut[2..] == fields[2..][..m - 2];
    }
  }

  /**
   Prefix stability, for any output the parser accepts and a cut at any byte: the cut is either refused for want of
   a head line, or gives the same head, a prefix of the records, and the truncation flag.
   */
  lemma {:induction false} CutIsPrefix(text: bytes, k: nat)
    requires k <= |text| && Parse(text, false).Ok?
    ensures var cut := Parse(text[..k], true);
            cut.Ok? ==>
              && cut.value.headOid == Parse(text, false).value.headOid
              && cut.value.records <= Parse(text, false).value.records
              && cut.value.truncated
    ensures Parse(text[..k], true).Err? ==>
              Scan(StatusFields(text[..k], true).value, None, [], true).Some?
              && Scan(StatusFields(text[..k], true).value, None, [], true).value.0 == None
  {
    var fields := StatusFields(text, false).value;
    CutFields(text, k);
    var cut := StatusFields(text[..k], true).value;
    ScanPrefix(fields, |cut|, None, []);
    assert fields[..|cut|] == cut;
  }

  /** A head line cut short leaves no field; a whole one is the first field. */
  lemma {:induction false} FirstFieldOfCut(line: bytes, tail: bytes, k: nat)
    requires NUL !in line && k <= |line + [NUL] + tail|
    ensures var cut := Split((line + [NUL] + tail)[..k], NUL);
            if k <= |line| then |cut| == 1 else |cut| > 1 && cut[0] == line
  {
    var text := line + [NUL] + tail;
    if k <= |line| {
      assert text[..k] == line[..k];
      SplitWhole(text[..k], NUL);
    } else {
      assert text[..k] == line + [NUL] + tail[..k - |line| - 1];
      SplitHead(line, NUL, tail[..k - |line| - 1]);
    }
  }

  /** Once the head is known no field of an accepted output can make its cut fail. */
  lemma {:induction false} HeadSeen(fields: seq<bytes>, cut: seq<bytes>, oid: bytes)
    requires cut <= fields && cut != [] && ItemOf(fields[0]) == Head(oid)
    requires Scan(fields, None, [], false).Some?
    ensures Scan(cut, None, [], true).Some? && Scan(cut, None, [], true).value.0 == Some(oid)
  {
    hide ItemOf;
    ScanPrefix(fields[1..], |cut| - 1, Some(oid), []);
    assert cut[0] == fields[0] && cut[1..] == fields[1..][..|cut| - 1];
  }

  /** On a printed status the refusal happens exactly when the head line itself was cut. */
  lemma {:induction false} CutOfStatus(oid: bytes, headers: seq<bytes>, entries: seq<Entry>, k: nat)
    requires IsOid(oid) && (forall i :: 0 <= i < |headers| ==> IgnoredLine(headers[i])) && AllWellFormed(entries)
    requires k <= |Print(oid, headers, entries)|
    ensures var cut := Parse(Print(oid, headers, entries)[..k], true);
            && (cut.Err? <==> k < |HEAD_LINE| + |oid| + 1)
            && (cut.Ok? ==> cut.value.headOid == oid && cut.value.truncated && cut.value.records <= Meanings(entries))
  {
    var text := Print(oid, headers, entries);
    var line := HEAD_LINE + oid;
    var fields := [line] + (headers + AllFields(entries));
    StatusRoundTrip(oid, headers, entries);
    PrintedFields(oid, headers, entries);
    TerminatedFields(fields, false);
    CutFields(text, k);
    CutIsPrefix(text, k);
    OidIsPlain(oid);
    assert text == line + [NUL] + Terminated(fields[1..], NUL);
    FirstFieldOfCut(line, Terminated(fields[1..], NUL), k);
    var cut := StatusFields(text[..k], true).value;
    if k > |line| {
      assert fields[0] == line;
      HeadSeen(fields, cut, oid);
    }
  }
}
