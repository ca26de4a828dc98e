/** Raw commit objects: the header loop, the identity line, the message, and a printer they undo. */
module CommitObject {
  import opened Wrappers
  import opened Bytes
  import opened Utf8
  import opened HistoryText

  const COMMIT_OBJECT_MAX_BYTES: nat := 64 * 1024
  const MESSAGE_BODY_MAX_BYTES: nat := 16 * 1024
  const AUTHOR_NAME_MAX_BYTES: nat := 256
  const SUBJECT_MAX_BYTES: nat := 512

  datatype CommitSummary = CommitSummary(
    oid: bytes, shortOid: bytes, parents: seq<bytes>, authorName: bytes, authorTime: int, committerTime: int,
    subject: bytes, encodingLossy: bool)

  datatype CommitDetail = CommitDetail(summary: CommitSummary, body: bytes, messageTruncated: bool, encodingLossy: bool)

  // ------------------------------------------------------------ numbers and identities

  predicate IsI64(n: int) { -0x8000_0000_0000_0000 <= n <= 0x7FFF_FFFF_FFFF_FFFF }

  /** `str::parse::<i64>`: an optional sign, then digits, within range. */
  function ParseI64(s: bytes): Option<int>
  {
    if s == [] then None
    else
      var signed := s[0] == '-' || s[0] == '+';
      var digits := if signed then s[1..] else s;
      if digits == [] || !AllDigits(digits) then None
      else
        var magnitude: int := Value(digits);
        var n := if s[0] == '-' then -magnitude else magnitude;
        if IsI64(n) then Some(n) else None
  }

  function PrintI64(n: int): bytes { if n < 0 then "-" + Decimal(-n) else Decimal(n) }

  lemma {:induction false} I64RoundTrip(n: int)
    requires IsI64(n)
    ensures ParseI64(PrintI64(n)) == Some(n)
    ensures ' ' !in PrintI64(n) && LF !in PrintI64(n)
  {
    var m: nat := if n < 0 then -n else n;
    DecimalValue(m);
    if n < 0 { assert PrintI64(n)[1..] == Decimal(m); }
  }

  /** Whether " <" starts at `i`. */
  predicate OpensEmail(s: bytes, i: nat) { i + 1 < |s| && s[i] == ' ' && s[i + 1] == '<' }

  /** `windows(2).rposition(" <")`. */
  function LastOpening(s: bytes): (r: Option<nat>)
    ensures r.Some? ==> OpensEmail(s, r.value)
    ensures forall i :: (if r.Some? then r.value + 1 else 0) <= i < |s| ==> !OpensEmail(s, i)
  {
    if |s| < 2 then None
    else if OpensEmail(s, |s| - 2) then Some(|s| - 2)
    else
      var r := LastOpening(s[..|s| - 1]);
      assert forall i :: 0 <= i < |s| - 2 && OpensEmail(s, i) ==> OpensEmail(s[..|s| - 1], i);
      r
  }

  predicate IsZone(z: bytes) { |z| == 5 && (z[0] == '+' || z[0] == '-') && AllDigits(z[1..]) }

  /** The part before the time: a name and a bracketed address. */
  function ParseNameAndEmail(identity: bytes): Option<bytes>
  {
    match LastOpening(identity)
    case None => None
    case Some(e) =>
      if !EndsWith(identity, ">") || e + 3 > |identity| then None
      else if identity[..e] == [] || identity[e + 2..|identity| - 1] == [] then None
      else Some(identity[..e])
  }

  function ParseIdentity(value: bytes): Option<(bytes, int)>
  {
    match LastIndexOf(value, ' ')
    case None => None
    case Some(zoneSpace) =>
      if !IsZone(value[zoneSpace + 1..]) then None
      else
        var before := value[..zoneSpace];
        match LastIndexOf(before, ' ')
        case None => None
        case Some(timeSpace) =>
          match ParseI64(before[timeSpace + 1..])
          case None => None
          case Some(time) =>
            match ParseNameAndEmail(before[..timeSpace])
            case None => None
            case Some(name) => Some((name, time))
  }

  // ------------------------------------------------------------ the header

  datatype HeaderState = HeaderState(
    treeSeen: bool, parents: seq<bytes>, author: Option<(bytes, int)>, committerTime: Option<int>, continuation: bool)

  const Start := HeaderState(false, [], None, None, false)

  /** One header line; `None` is a read failure. */
  function HeaderLine(line: bytes, st: HeaderState): Option<HeaderState>
  {
    if StartsWith(line, " ") then
      if st.continuation then Some(st) else None
    else
      var s := st.(continuation := false);
      if StartsWith(line, "tree ") then
        if s.treeSeen || !IsOid(line[5..]) then None else Some(s.(treeSeen := true))
      else if StartsWith(line, "parent ") then
        if !IsOid(line[7..]) then None else Some(s.(parents := s.parents + [line[7..]]))
      else if StartsWith(line, "author ") then
        if s.author.Some? || ParseIdentity(line[7..]).None? then None else Some(s.(author := ParseIdentity(line[7..])))
      else if StartsWith(line, "committer ") then
        if s.committerTime.Some? || ParseIdentity(line[10..]).None? then None
        else Some(s.(committerTime := Some(ParseIdentity(line[10..]).value.1)))
      else if line == [] || ' ' !in line then None
      else Some(s.(continuation := true))
  }

  function HeaderLines(lines: seq<bytes>, st: HeaderState): Option<HeaderState>
    decreases |lines|
  {
    if lines == [] then Some(st)
    else match HeaderLine(lines[0], st)
      case None => None
      case Some(s) => HeaderLines(lines[1..], s)
  }

  /** The first empty line: `windows(2).position("\n\n")`. */
  function BlankLine(raw: bytes): (r: Option<nat>)
    ensures r.Some? ==> r.value + 1 < |raw| && raw[r.value] == LF && raw[r.value + 1] == LF
  {
    if |raw| < 2 then None
    else if raw[0] == LF && raw[1] == LF then Some(0)
    else match BlankLine(raw[1..])
      case None => None
      case Some(i) => Some(i + 1)
  }

  /** The first line of a message. */
  function SubjectOf(message: bytes): bytes { message[..IndexOf(message, LF)] }

  /** What follows the first line, less one empty line. */
  function BodyOf(message: bytes): bytes
  {
    var i := IndexOf(message, LF);
    var body := if i < |message| then message[i + 1..] else [];
    if StartsWith(body, [LF]) then body[1..] else body
  }

  function Summary(oid: bytes, st: HeaderState, message: bytes): Result<CommitSummary, HistoryError>
    requires IsOid(oid)
  {
    if st.author.None? || st.committerTime.None? || !st.treeSeen then Err(GitReadFailed)
    else
      var (name, time) := st.author.value;
      var subject := SubjectOf(message);
      Ok(CommitSummary(
        oid, oid[..12], st.parents, Shortened(Lossy(name), AUTHOR_NAME_MAX_BYTES), time, st.committerTime.value,
        Shortened(Lossy(subject), SUBJECT_MAX_BYTES), !Valid(name) || !Valid(subject)))
  }

  function ParseSummary(oid: bytes, raw: bytes): Result<CommitSummary, HistoryError>
  {
    if !IsOid(oid) then Err(GitReadFailed)
    else match BlankLine(raw)
      case None => if |raw| > COMMIT_OBJECT_MAX_BYTES then Err(OutputLimitExceeded) else Err(GitReadFailed)
      case Some(end) =>
        if end + 2 > COMMIT_OBJECT_MAX_BYTES then Err(OutputLimitExceeded)
        else match HeaderLines(Split(raw[..end], LF), Start)
          case None => Err(GitReadFailed)
          case Some(st) => Summary(oid, st, raw[end + 2..])
  }

  function Detail(summary: CommitSummary, body: bytes): CommitDetail
  {
    CommitDetail(
      summary, Shortened(Lossy(body), MESSAGE_BODY_MAX_BYTES),
      |body| > MESSAGE_BODY_MAX_BYTES || |Lossy(body)| > MESSAGE_BODY_MAX_BYTES,
      summary.encodingLossy || !Valid(body))
  }

  function ParseDetail(oid: bytes, raw: bytes): Result<CommitDetail, HistoryError>
  {
    match ParseSummary(oid, raw)
    case Err(e) => Err(e)
    case Ok(summary) => Ok(Detail(summary, BodyOf(raw[BlankLine(raw).value + 2..])))
  }

  // ------------------------------------------------------------ the parser itself

  method ParseCommitObject(oid: bytes, raw: bytes) returns (r: Result<CommitSummary, HistoryError>)
    ensures r == ParseSummary(oid, raw)
  {
    if !IsOid(oid) { return Err(GitReadFailed); }
    var blank := BlankLine(raw);
    if blank.None? {
      return if |raw| > COMMIT_OBJECT_MAX_BYTES then Err(OutputLimitExceeded) else Err(GitReadFailed);
    }
    var end := blank.value;
    if end + 2 > COMMIT_OBJECT_MAX_BYTES { return Err(OutputLimitExceeded); }
    var st := ParseHeader(Split(raw[..end], LF));
    if st.None? || st.value.author.None? || st.value.committerTime.None? || !st.value.treeSeen {
      return Err(GitReadFailed);
    }
    var (name, time) := st.value.author.value;
    var subjectBytes := SubjectOf(raw[end + 2..]);
    var authorName, authorLossy := BoundedLossyUtf8(name, AUTHOR_NAME_MAX_BYTES);
    var subject, subjectLossy := BoundedLossyUtf8(subjectBytes, SUBJECT_MAX_BYTES);
    return Ok(CommitSummary(oid, oid[..12], st.value.parents, authorName, time, st.value.committerTime.value,
                            subject, authorLossy || subjectLossy));
  }

  /** The header loop, with its five variables. */
  method ParseHeader(lines: seq<bytes>) returns (r: Option<HeaderState>)
    ensures r == HeaderLines(lines, Start)
  {
    var treeSeen, continuation := false, false;
    var parents: seq<bytes> := [];
    var author: Option<(bytes, int)> := None;
    var committerTime: Option<int> := None;
    assert lines[0..] == lines;
    for i := 0 to |lines|
      invariant HeaderLines(lines, Start)
             == HeaderLines(lines[i..], HeaderState(treeSeen, parents, author, committerTime, continuation))
    {
      var line := lines[i];
      assert lines[i..][0] == line && lines[i..][1..] == lines[i + 1..];
      if StartsWith(line, " ") {
        if !continuation { return None; }
        continue;
      }
      continuation := false;
      if StartsWith(line, "tree ") {
        if treeSeen || !IsOid(line[5..]) { return None; }
        treeSeen := true;
      } else if StartsWith(line, "parent ") {
        if !IsOid(line[7..]) { return None; }
        parents := parents + [line[7..]];
      } else if StartsWith(line, "author ") {
        if author.Some? { return None; }
        author := ParseIdentity(line[7..]);
        if author.None? { return None; }
      } else if StartsWith(line, "committer ") {
        if committerTime.Some? { return None; }
        var identity := ParseIdentity(line[10..]);
        if identity.None? { return None; }
        committerTime := Some(identity.value.1);
      } else {
        if line == [] || ' ' !in line { return None; }
        continuation := true;
      }
    }
    return Some(HeaderState(treeSeen, parents, author, committerTime, continuation));
  }

  method BodyAfterSubject(message: bytes) returns (body: bytes)
    ensures body == BodyOf(message)
  {
    var i := IndexOf(message, LF);
    var bodyStart := if i < |message| then i + 1 else |message|;
    body := message[bodyStart..];
    if StartsWith(body, [LF]) { body := body[1..]; }
  }

  method ParseCommitDetail(oid: bytes, raw: bytes) returns (r: Result<CommitDetail, HistoryError>)
    ensures r == ParseDetail(oid, raw)
  {
    var summary := ParseCommitObject(oid, raw);
    if summary.Err? { return Err(summary.error); }
    assert BlankLine(raw).Some?;
    var message := raw[BlankLine(raw).value + 2..];
    var body := BodyAfterSubject(message);
    var truncated := |body| > MESSAGE_BODY_MAX_BYTES || |Lossy(body)| > MESSAGE_BODY_MAX_BYTES;
    var text, lossy := BoundedLossyUtf8(body, MESSAGE_BODY_MAX_BYTES);
    return Ok(CommitDetail(summary.value, text, truncated, summary.value.encodingLossy || lossy));
  }

  // ------------------------------------------------------------ the printer

  datatype Identity = Identity(name: bytes, email: bytes, time: int, zone: bytes)

  /** A header the parser does not interpret: its line, and the texts of its continuation lines. */
  datatype Extra = Extra(line: bytes, continuations: seq<bytes>)

  datatype Commit = Commit(
    tree: bytes, parents: seq<bytes>, author: Identity, committer: Identity, extras: seq<Extra>, message: bytes)

  function PrintIdentity(id: Identity): bytes
  {
    id.name + " <" + id.email + ">" + " " + PrintI64(id.time) + " " + id.zone
  }

  function ParentLines(parents: seq<bytes>): seq<bytes>
  {
    if parents == [] then [] else ["parent " + parents[0]] + ParentLines(parents[1..])
  }

  function ContinuationLines(texts: seq<bytes>): seq<bytes>
  {
    if texts == [] then [] else [" " + texts[0]] + ContinuationLines(texts[1..])
  }

  function ExtraLines(extras: seq<Extra>): seq<bytes>
  {
    if extras == [] then []
    else [extras[0].line] + (ContinuationLines(extras[0].continuations) + ExtraLines(extras[1..]))
  }

  function NamedLines(c: Commit): seq<bytes>
  {
    ["author " + PrintIdentity(c.author)] + (["committer " + PrintIdentity(c.committer)] + ExtraLines(c.extras))
  }

  function CommitLines(c: Commit): seq<bytes>
  {
    ["tree " + c.tree] + (ParentLines(c.parents) + NamedLines(c))
  }

  function Print(c: Commit): bytes { Terminated(CommitLines(c), LF) + ([LF] + c.message) }

  predicate NoOpening(email: bytes) { forall i :: 0 <= i < |email| ==> !OpensEmail(email, i) }

  /** An identity line: a name and an address, either of them possibly empty, a time and a zone. */
  predicate PrintableIdentity(id: Identity)
  {
    LF !in id.name && LF !in id.email && IsI64(id.time) && IsZone(id.zone)
  }

  /**
   The name an identity line is read back with: cut at the last " <" of the line, wherever that is, and refused when
   either side of the cut is empty.
   */
  function NameRead(name: bytes, email: bytes): Option<bytes>
  {
    match LastOpening(email)
    case None => if name == [] || email == [] then None else Some(name)
    case Some(i) => if i + 2 == |email| then None else Some(name + " <" + email[..i])
  }

  predicate GivesItsName(id: Identity) { id.name != [] && id.email != [] && NoOpening(id.email) }

  predicate CanonicalExtra(x: Extra)
  {
    && x.line != [] && LF !in x.line && ' ' in x.line && x.line[0] != ' '
    && !StartsWith(x.line, "tree ") && !StartsWith(x.line, "parent ")
    && !StartsWith(x.line, "author ") && !StartsWith(x.line, "committer ")
    && forall i :: 0 <= i < |x.continuations| ==> LF !in x.continuations[i]
  }

  predicate PrintableCommit(c: Commit)
  {
    && IsOid(c.tree) && (forall i :: 0 <= i < |c.parents| ==> IsOid(c.parents[i]))
    && PrintableIdentity(c.author) && PrintableIdentity(c.committer)
    && forall i :: 0 <= i < |c.extras| ==> CanonicalExtra(c.extras[i])
  }

  /** The commit the parser takes a printed one for; `None` when it refuses one of its identities. */
  function ReadBack(c: Commit): Option<Commit>
  {
    match NameRead(c.author.name, c.author.email)
    case None => None
    case Some(name) =>
      if NameRead(c.committer.name, c.committer.email).None? then None else Some(c.(author := c.author.(name := name)))
  }

  /** A commit that is read as it was written. Of its committer only the time is read, so any readable line will do. */
  predicate CanonicalCommit(c: Commit)
  {
    PrintableCommit(c) && GivesItsName(c.author) && NameRead(c.committer.name, c.committer.email).Some?
  }

  // ------------------------------------------------------------ identities come back

  /** The last opening of the printed line is the address's own last one, or else the one before it. */
  lemma {:induction false} LastOpeningOfLine(name: bytes, email: bytes)
    ensures LastOpening(name + " <" + email + ">")
         == match LastOpening(email) case None => Some(|name|) case Some(i) => Some(|name| + 2 + i)
  {
    var s := name + " <" + email + ">";
    var at: int := match LastOpening(email) case None => |name| case Some(i) => |name| + 2 + i;
    assert OpensEmail(s, at);
    forall j | at < j < |s| ensures !OpensEmail(s, j) {
      if |name| + 2 <= j < |s| - 1 { assert !OpensEmail(email, j - |name| - 2); }
    }
  }

  lemma {:induction false} NameComesBack(name: bytes, email: bytes)
    ensures ParseNameAndEmail(name + " <" + email + ">") == NameRead(name, email)
    ensures NameRead(name, email) == Some(name) <==> name != [] && email != [] && NoOpening(email)
  {
    var s := name + " <" + email + ">";
    LastOpeningOfLine(name, email);
    assert s[|s| - 1..] == ">";
    match LastOpening(email)
    case None =>
      assert s[..|name|] == name && s[|name| + 2..|s| - 1] == email;
    case Some(i) =>
      assert s[..|name| + 2 + i] == name + " <" + email[..i];
      assert s[|name| + 2 + i + 2..|s| - 1] == email[i + 2..];
      assert |name + " <" + email[..i]| > |name|;
  }

  lemma {:induction false} IdentityTail(front: bytes, time: int, zone: bytes)
    requires IsI64(time) && IsZone(zone)
    ensures var value := front + " " + PrintI64(time) + " " + zone;
            ParseIdentity(value) ==
              (match ParseNameAndEmail(front) case None => None case Some(name) => Some((name, time)))
  {
    I64RoundTrip(time);
    var before := front + " " + PrintI64(time);
    var value := before + " " + zone;
    ZoneHasNoSpace(zone);
    LastIndexOfAppend(before, ' ', zone);
    assert value[|before| + 1..] == zone && value[..|before|] == before;
    LastIndexOfAppend(front, ' ', PrintI64(time));
    assert before[|front| + 1..] == PrintI64(time) && before[..|front|] == front;
    hide PrintI64, IsZone, ParseNameAndEmail;
  }

  lemma {:induction false} ZoneHasNoSpace(zone: bytes)
    requires IsZone(zone)
    ensures ' ' !in zone
  {
    assert zone == [zone[0]] + zone[1..];
  }

  /**
   Every identity line is read with the name its last " <" leaves it, or refused; it gives back its own name and time
   exactly when neither name nor address is empty and the address contains no " <". The name may.
   */
  lemma {:induction false} IdentityRoundTrip(id: Identity)
    requires PrintableIdentity(id)
    ensures ParseIdentity(PrintIdentity(id))
         == match NameRead(id.name, id.email) case None => None case Some(name) => Some((name, id.time))
    ensures ParseIdentity(PrintIdentity(id)) == Some((id.name, id.time))
            <==> id.name != [] && id.email != [] && NoOpening(id.email)
  {
    NameComesBack(id.name, id.email);
    IdentityTail(id.name + " <" + id.email + ">", id.time, id.zone);
    hide NameRead, NoOpening, ParseNameAndEmail, ParseIdentity, PrintI64;
  }

  /** What the equivalence leaves out: an address git does not know is empty, and the line is refused. */
  lemma {:induction false} EmptyAddressIsRefused()
    ensures ParseIdentity("Foo <> 0 +0000") == None
  {
    var id := Identity("Foo", [], 0, "+0000");
    assert AllDigits(id.zone[1..]);
    assert Decimal(0) == "0";
    assert PrintIdentity(id) == "Foo <> 0 +0000";
    IdentityRoundTrip(id);
    hide ParseIdentity;
  }

  lemma {:induction false} IdentityIsOneLine(id: Identity)
    requires PrintableIdentity(id)
    ensures LF !in PrintIdentity(id)
  {
    I64RoundTrip(id.time);
    assert id.zone == [id.zone[0]] + id.zone[1..];
    assert LF !in id.zone;
  }

  // ------------------------------------------------------------ header lines come back

  lemma {:induction false} HeaderLinesAppend(a: seq<bytes>, b: seq<bytes>, st: HeaderState)
    ensures HeaderLines(a + b, st) == match HeaderLines(a, st) case None => None case Some(s) => HeaderLines(b, s)
    decreases |a|
  {
    if a == [] {
      assert a + b == b;
    } else {
      assert (a + b)[1..] == a[1..] + b;
      if HeaderLine(a[0], st).Some? { HeaderLinesAppend(a[1..], b, HeaderLine(a[0], st).value); }
    }
  }

  lemma {:induction false} HeaderLinesCons(line: bytes, rest: seq<bytes>, st: HeaderState)
    requires HeaderLine(line, st).Some?
    ensures HeaderLines([line] + rest, st) == HeaderLines(rest, HeaderLine(line, st).value)
  {
    assert ([line] + rest)[1..] == rest;
  }

  lemma {:induction false} HeaderLinesStop(line: bytes, rest: seq<bytes>, st: HeaderState)
    requires HeaderLine(line, st).None?
    ensures HeaderLines([line] + rest, st) == None
  {
  }

  /** A prefix fixes the first byte, so the four known headers exclude one another and continuation lines. */
  lemma {:induction false} KeyExcludes(line: bytes, key: bytes, other: bytes)
    requires key != [] && other != [] && StartsWith(line, key) && key[0] != other[0]
    ensures !StartsWith(line, other)
  {
    assert line[0] == key[0];
  }

  lemma {:induction false} TreeLine(tree: bytes, st: HeaderState)
    requires IsOid(tree) && !st.treeSeen
    ensures HeaderLine("tree " + tree, st) == Some(st.(continuation := false, treeSeen := true))
  {
    var line := "tree " + tree;
    KeyExcludes(line, "tree ", " ");
    assert line[5..] == tree;
  }

  lemma {:induction false} ParentLine(parent: bytes, st: HeaderState)
    requires IsOid(parent)
    ensures HeaderLine("parent " + parent, st) == Some(st.(continuation := false, parents := st.parents + [parent]))
  {
    var line := "parent " + parent;
    KeyExcludes(line, "parent ", " ");
    KeyExcludes(line, "parent ", "tree ");
    assert line[7..] == parent;
  }

  lemma {:induction false} AuthorLine(id: Identity, st: HeaderState)
    requires PrintableIdentity(id) && st.author.None?
    ensures HeaderLine("author " + PrintIdentity(id), st)
         == match NameRead(id.name, id.email) {
              case None => None
              case Some(name) => Some(st.(continuation := false, author := Some((name, id.time))))
            }
  {
    hide NameRead, ParseIdentity, PrintIdentity, PrintableIdentity, NoOpening, IsOid;
    var line := "author " + PrintIdentity(id);
    KeyExcludes(line, "author ", " ");
    KeyExcludes(line, "author ", "tree ");
    KeyExcludes(line, "author ", "parent ");
    assert line[7..] == PrintIdentity(id);
    IdentityRoundTrip(id);
  }

  lemma {:induction false} CommitterLine(id: Identity, st: HeaderState)
    requires PrintableIdentity(id) && st.committerTime.None?
    ensures HeaderLine("committer " + PrintIdentity(id), st)
         == if NameRead(id.name, id.email).None? then None
            else Some(st.(continuation := false, committerTime := Some(id.time)))
  {
    hide NameRead, ParseIdentity, PrintIdentity, PrintableIdentity, NoOpening, IsOid;
    var line := "committer " + PrintIdentity(id);
    KeyExcludes(line, "committer ", " ");
    KeyExcludes(line, "committer ", "tree ");
    KeyExcludes(line, "committer ", "parent ");
    KeyExcludes(line, "committer ", "author ");
    assert line[10..] == PrintIdentity(id);
    IdentityRoundTrip(id);
  }

  lemma {:induction false} ParentsComeBack(parents: seq<bytes>, st: HeaderState)
    requires forall i :: 0 <= i < |parents| ==> IsOid(parents[i])
    requires !st.continuation
    ensures HeaderLines(ParentLines(parents), st) == Some(st.(parents := st.parents + parents))
    decreases |parents|
  {
    if parents == [] {
      assert st.parents + [] == st.parents;
    } else {
      var s := st.(parents := st.parents + [parents[0]]);
      ParentLine(parents[0], st);
      HeaderLinesCons("parent " + parents[0], ParentLines(parents[1..]), st);
      ParentsComeBack(parents[1..], s);
      assert s.parents + parents[1..] == st.parents + parents;
    }
  }

  lemma {:induction false} ContinuationsAreSkipped(texts: seq<bytes>, st: HeaderState)
    requires st.continuation
    ensures HeaderLines(ContinuationLines(texts), st) == Some(st)
    decreases |texts|
  {
    if texts != [] {
      HeaderLinesCons(" " + texts[0], ContinuationLines(texts[1..]), st);
      ContinuationsAreSkipped(texts[1..], st);
    }
  }

  lemma {:induction false} ExtrasAreSkipped(extras: seq<Extra>, st: HeaderState)
    requires forall i :: 0 <= i < |extras| ==> CanonicalExtra(extras[i])
    ensures var r := HeaderLines(ExtraLines(extras), st);
            r.Some? && r.value.(continuation := false) == st.(continuation := false)
    decreases |extras|
  {
    if extras != [] {
      var x := extras[0];
      var s := st.(continuation := true);
      assert !StartsWith(x.line, " ") by { assert x.line[0] != " "[0]; }
      assert HeaderLine(x.line, st) == Some(s);
      HeaderLinesCons(x.line, ContinuationLines(x.continuations) + ExtraLines(extras[1..]), st);
      HeaderLinesAppend(ContinuationLines(x.continuations), ExtraLines(extras[1..]), s);
      ContinuationsAreSkipped(x.continuations, s);
      ExtrasAreSkipped(extras[1..], s);
    }
  }

  lemma {:induction false} CommitterLinesComeBack(id: Identity, extras: seq<Extra>, st: HeaderState)
    requires PrintableIdentity(id) && st.committerTime.None?
    requires forall i :: 0 <= i < |extras| ==> CanonicalExtra(extras[i])
    ensures var r := HeaderLines(["committer " + PrintIdentity(id)] + ExtraLines(extras), st);
            if NameRead(id.name, id.email).None? then r.None?
            else r.Some? && r.value.(continuation := false)
                            == st.(continuation := false, committerTime := Some(id.time))
  {
    hide HeaderLine, PrintIdentity, CanonicalExtra, NameRead;
    var line, rest := "committer " + PrintIdentity(id), ExtraLines(extras);
    var s := st.(continuation := false, committerTime := Some(id.time));
    CommitterLine(id, st);
    if NameRead(id.name, id.email).None? {
      HeaderLinesStop(line, rest, st);
    } else {
      HeaderLinesCons(line, rest, st);
      ExtrasAreSkipped(extras, s);
    }
  }

  lemma {:induction false} NamedLinesComeBack(c: Commit, st: HeaderState)
    requires PrintableCommit(c) && st.author.None? && st.committerTime.None?
    ensures var r := HeaderLines(NamedLines(c), st);
            match ReadBack(c)
            case None => r.None?
            case Some(d) =>
              r.Some? && r.value.(continuation := false)
                         == st.(continuation := false, author := Some((d.author.name, c.author.time)),
                                committerTime := Some(c.committer.time))
  {
    hide HeaderLine, PrintIdentity, CanonicalExtra, NameRead;
    var line := "author " + PrintIdentity(c.author);
    var rest := ["committer " + PrintIdentity(c.committer)] + ExtraLines(c.extras);
    AuthorLine(c.author, st);
    match NameRead(c.author.name, c.author.email)
    case None => HeaderLinesStop(line, rest, st);
    case Some(name) =>
      HeaderLinesCons(line, rest, st);
      CommitterLinesComeBack(c.committer, c.extras,
                             st.(continuation := false, author := Some((name, c.author.time))));
  }

  /** The header state a commit's lines lead to. */
  lemma {:induction false} CommitLinesComeBack(c: Commit)
    requires PrintableCommit(c)
    ensures var r := HeaderLines(CommitLines(c), Start);
            match ReadBack(c)
            case None => r.None?
            case Some(d) =>
              && r.Some? && r.value.treeSeen && r.value.parents == d.parents
              && r.value.author == Some((d.author.name, d.author.time))
              && r.value.committerTime == Some(d.committer.time)
  {
    hide HeaderLine, NamedLines, NameRead;
    var s1 := Start.(treeSeen := true);
    TreeLine(c.tree, Start);
    HeaderLinesCons("tree " + c.tree, ParentLines(c.parents) + NamedLines(c), Start);
    HeaderLinesAppend(ParentLines(c.parents), NamedLines(c), s1);
    ParentsComeBack(c.parents, s1);
    assert s1.parents + c.parents == c.parents;
    NamedLinesComeBack(c, s1.(parents := c.parents));
  }

  // ------------------------------------------------------------ the header ends where it was ended

  /** Lines that can be printed between line ends: none is empty, none holds one. */
  ghost predicate Lines(lines: seq<bytes>)
  {
    forall i :: 0 <= i < |lines| ==> lines[i] != [] && LF !in lines[i]
  }

  lemma {:induction false} NoBlankInLine(line: bytes, rest: bytes)
    requires LF !in line && rest != [] && rest[0] != LF
    ensures BlankLine(line + [LF] + rest)
         == match BlankLine(rest) case None => None case Some(i) => Some(|line| + 1 + i)
    decreases |line|
  {
    var raw := line + [LF] + rest;
    if line == [] {
      assert raw[1..] == rest;
    } else {
      assert raw[0] == line[0] && raw[1..] == line[1..] + [LF] + rest;
      NoBlankInLine(line[1..], rest);
    }
  }

  lemma {:induction false} LastLineEnds(line: bytes, rest: bytes)
    requires LF !in line
    ensures BlankLine(line + [LF] + ([LF] + rest)) == Some(|line|)
    decreases |line|
  {
    var raw := line + [LF] + ([LF] + rest);
    if line != [] {
      assert raw[0] == line[0] && raw[1..] == line[1..] + [LF] + ([LF] + rest);
      LastLineEnds(line[1..], rest);
    }
  }

  lemma {:induction false} BlankAfterLines(lines: seq<bytes>, rest: bytes)
    requires lines != [] && Lines(lines)
    ensures BlankLine(Terminated(lines, LF) + ([LF] + rest)) == Some(|Terminated(lines, LF)| - 1)
    decreases |lines|
  {
    var more := Terminated(lines[1..], LF) + ([LF] + rest);
    assert Terminated(lines, LF) + ([LF] + rest) == lines[0] + [LF] + more;
    if |lines| == 1 {
      assert more == [LF] + rest;
      LastLineEnds(lines[0], rest);
    } else {
      assert more[0] == lines[1][0];
      NoBlankInLine(lines[0], more);
      BlankAfterLines(lines[1..], rest);
    }
  }

  lemma {:induction false} ParentLinesAreLines(parents: seq<bytes>)
    requires forall i :: 0 <= i < |parents| ==> IsOid(parents[i])
    ensures Lines(ParentLines(parents))
    decreases |parents|
  {
    if parents != [] { ParentLinesAreLines(parents[1..]); }
  }

  lemma {:induction false} ContinuationLinesAreLines(texts: seq<bytes>)
    requires forall i :: 0 <= i < |texts| ==> LF !in texts[i]
    ensures Lines(ContinuationLines(texts))
    decreases |texts|
  {
    if texts != [] { ContinuationLinesAreLines(texts[1..]); }
  }

  lemma {:induction false} ExtraLinesAreLines(extras: seq<Extra>)
    requires forall i :: 0 <= i < |extras| ==> CanonicalExtra(extras[i])
    ensures Lines(ExtraLines(extras))
    decreases |extras|
  {
    if extras != [] {
      ContinuationLinesAreLines(extras[0].continuations);
      ExtraLinesAreLines(extras[1..]);
    }
  }

  lemma {:induction false} NamedLinesAreLines(c: Commit)
    requires PrintableCommit(c)
    ensures Lines(NamedLines(c))
  {
    ExtraLinesAreLines(c.extras);
    IdentityIsOneLine(c.author);
    IdentityIsOneLine(c.committer);
  }

  lemma {:induction false} CommitLinesAreLines(c: Commit)
    requires PrintableCommit(c)
    ensures Lines(CommitLines(c)) && CommitLines(c) != []
  {
    ParentLinesAreLines(c.parents);
    NamedLinesAreLines(c);
  }

  // ------------------------------------------------------------ the round trip

  /** What the parser must return for a canonical commit. */
  function Expected(oid: bytes, c: Commit): CommitSummary
    requires IsOid(oid)
  {
    var subject := SubjectOf(c.message);
    CommitSummary(oid, oid[..12], c.parents,
                  Shortened(Lossy(c.author.name), AUTHOR_NAME_MAX_BYTES), c.author.time, c.committer.time,
                  Shortened(Lossy(subject), SUBJECT_MAX_BYTES), !Valid(c.author.name) || !Valid(subject))
  }

  /** The header of a printed commit, with its blank line, in bytes. */
  function HeaderLength(c: Commit): nat { |Terminated(CommitLines(c), LF)| + 1 }

  /** Where the parser cuts a printed commit, and what it finds on each side. */
  lemma {:induction false} PrintedParts(c: Commit)
    requires PrintableCommit(c)
    ensures var raw := Print(c);
            var end := HeaderLength(c) - 2;
            && 0 <= end && end + 2 <= |raw| && BlankLine(raw) == Some(end)
            && Split(raw[..end], LF) == CommitLines(c)
            && raw[end + 2..] == c.message
  {
    hide CommitLines, PrintableCommit, Split, BlankLine;
    var t := Terminated(CommitLines(c), LF);
    CommitLinesAreLines(c);
    BlankAfterLines(CommitLines(c), c.message);
    SplitUnterminated(CommitLines(c), LF);
    assert Print(c)[..|t| - 1] == t[..|t| - 1];
    assert Print(c)[|t| + 1..] == c.message;
  }

  /** The parser's answer from the parts of a commit object. */
  lemma {:induction false} SummaryFromParts(oid: bytes, raw: bytes, end: nat, lines: seq<bytes>)
    requires IsOid(oid) && end + 2 <= |raw| && BlankLine(raw) == Some(end)
    requires Split(raw[..end], LF) == lines
    ensures ParseSummary(oid, raw)
         == if end + 2 > COMMIT_OBJECT_MAX_BYTES then Err(OutputLimitExceeded)
            else match HeaderLines(lines, Start) {
              case None => Err(GitReadFailed)
              case Some(st) => Summary(oid, st, raw[end + 2..])
            }
    ensures ParseDetail(oid, raw)
         == match ParseSummary(oid, raw) {
              case Err(e) => Err(e)
              case Ok(summary) => Ok(Detail(summary, BodyOf(raw[end + 2..])))
            }
  {
    hide Split, BlankLine, HeaderLines, Summary, Detail, BodyOf;
  }

  lemma {:induction false} ExpectedFromState(oid: bytes, c: Commit, st: HeaderState)
    requires IsOid(oid) && st.treeSeen && st.parents == c.parents
    requires st.author == Some((c.author.name, c.author.time)) && st.committerTime == Some(c.committer.time)
    ensures Summary(oid, st, c.message) == Ok(Expected(oid, c))
  {
    hide Lossy, Shortened, Valid, SubjectOf;
  }

  /**
   Every printed commit: refused as too long when its header exceeds 64 KiB, refused as unreadable when one of its
   identities is, and otherwise read back with everything in it but, where its author's address holds a " <", the name.
   */
  lemma {:induction false} CommitRoundTrip(oid: bytes, c: Commit)
    requires IsOid(oid) && PrintableCommit(c)
    ensures ParseSummary(oid, Print(c))
         == if HeaderLength(c) > COMMIT_OBJECT_MAX_BYTES then Err(OutputLimitExceeded)
            else match ReadBack(c) case None => Err(GitReadFailed) case Some(d) => Ok(Expected(oid, d))
    ensures ParseDetail(oid, Print(c))
         == match ParseSummary(oid, Print(c)) {
              case Err(e) => Err(e)
              case Ok(summary) => Ok(Detail(summary, BodyOf(c.message)))
            }
  {
    PrintedParts(c);
    CommitLinesComeBack(c);
    SameButName(c);
    hide *;
    SummaryFromParts(oid, Print(c), HeaderLength(c) - 2, CommitLines(c));
    if ReadBack(c).Some? { ExpectedFromState(oid, ReadBack(c).value, HeaderLines(CommitLines(c), Start).value); }
  }

  lemma {:induction false} SameButName(c: Commit)
    ensures match ReadBack(c)
            case None => true
            case Some(d) => d == c.(author := c.author.(name := d.author.name)) && d.message == c.message
  {
    hide NameRead;
  }

  /** A printed commit is read as written exactly when its author gives its name and its committer is readable. */
  lemma {:induction false} CanonicalExactly(c: Commit)
    requires PrintableCommit(c)
    ensures ReadBack(c) == Some(c) <==> CanonicalCommit(c)
  {
    NameComesBack(c.author.name, c.author.email);
    hide NameRead, PrintableCommit, NoOpening, ParseNameAndEmail;
  }

  /** Subject and body are split as git writes them: one line, an empty line, the rest. */
  lemma {:induction false} MessageComesBack(subject: bytes, body: bytes)
    requires LF !in subject
    ensures SubjectOf(subject + [LF] + ([LF] + body)) == subject
    ensures BodyOf(subject + [LF] + ([LF] + body)) == body
    ensures SubjectOf(subject) == subject && BodyOf(subject) == []
  {
    var message := subject + [LF] + ([LF] + body);
    IndexOfAppend(subject, LF, [LF] + body);
    IndexOfAbsent(subject, LF);
    assert message[..|subject|] == subject;
    assert message[|subject| + 1..] == [LF] + body;
    assert ([LF] + body)[1..] == body;
  }

  /** Names and subjects that fit come back whole; longer ones as their longest whole-character prefix. */
  lemma {:induction false} ShortTextComesBack(text: bytes, max: nat)
    requires Valid(text)
    ensures LongestPrefix(Shortened(Lossy(text), max), text, max)
    ensures |text| <= max ==> Shortened(Lossy(text), max) == text
  {
    LossyExactly(text);
    ShortenedIsLongest(text, max);
    if |text| <= max { ShortEnough(text, max); }
  }

  /** A whole canonical commit with valid text: everything the caller sees, exactly. */
  lemma {:induction false} TextCommitRoundTrip(oid: bytes, c: Commit, subject: bytes, body: bytes)
    requires IsOid(oid) && CanonicalCommit(c) && HeaderLength(c) <= COMMIT_OBJECT_MAX_BYTES
    requires Valid(c.author.name) && Valid(subject) && Valid(body) && LF !in subject
    requires c.message == subject + [LF] + ([LF] + body)
    ensures var r := ParseDetail(oid, Print(c));
            && r.Ok? && r.value.summary.oid == oid && r.value.summary.parents == c.parents
            && r.value.summary.authorTime == c.author.time && r.value.summary.committerTime == c.committer.time
            && LongestPrefix(r.value.summary.authorName, c.author.name, AUTHOR_NAME_MAX_BYTES)
            && LongestPrefix(r.value.summary.subject, subject, SUBJECT_MAX_BYTES)
            && LongestPrefix(r.value.body, body, MESSAGE_BODY_MAX_BYTES)
            && (r.value.messageTruncated <==> r.value.body != body)
            && !r.value.encodingLossy
  {
    CommitRoundTrip(oid, c);
    CanonicalExactly(c);
    MessageComesBack(subject, body);
    ShortTextComesBack(c.author.name, AUTHOR_NAME_MAX_BYTES);
    ShortTextComesBack(subject, SUBJECT_MAX_BYTES);
    ShortTextComesBack(body, MESSAGE_BODY_MAX_BYTES);
    LossyExactly(body);
  }
}
