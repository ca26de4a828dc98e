/** The language of the commit parser: exactly which objects it reads, whatever the order of their headers. */
module CommitLanguage {
  import opened Wrappers
  import opened Bytes
  import opened Utf8
  import opened HistoryText
  import opened CommitObject

  /** An identity as it stands in a header line, its time as it is spelled. */
  datatype Signature = Signature(name: bytes, email: bytes, sign: bytes, digits: bytes, zone: bytes)

  datatype Line =
    | Tree(oid: bytes)
    | Parent(oid: bytes)
    | Author(signature: Signature)
    | Committer(signature: Signature)
    | Other(text: bytes)
    | More(text: bytes)

  function SignatureText(s: Signature): bytes
  {
    s.name + " <" + s.email + ">" + " " + (s.sign + s.digits) + " " + s.zone
  }

  function Signed(sign: bytes, digits: bytes): int
    requires AllDigits(digits)
  {
    var n: int := Value(digits);
    if sign == "-" then -n else n
  }

  function TimeOf(s: Signature): int
    requires AllDigits(s.digits)
  {
    Signed(s.sign, s.digits)
  }

  /** A time as it is spelled: an optional sign and digits, within 64 bits. */
  predicate Spells(sign: bytes, digits: bytes, n: int)
  {
    && sign in ["", "+", "-"] && digits != [] && AllDigits(digits)
    && n == Signed(sign, digits) && -0x8000_0000_0000_0000 <= n <= 0x7FFF_FFFF_FFFF_FFFF
  }

  predicate Closed(email: bytes) { forall i :: 0 <= i < |email| - 1 ==> email[i] != ' ' || email[i + 1] != '<' }

  /** A name, an address without " <", neither empty, an optionally signed 64-bit time and a four-digit zone. */
  predicate GoodSignature(s: Signature)
  {
    && s.name != [] && s.email != []
    && Closed(s.email) && AllDigits(s.digits) && Spells(s.sign, s.digits, TimeOf(s))
    && |s.zone| == 5 && (s.zone[0] == '+' || s.zone[0] == '-') && (forall i :: 1 <= i < 5 ==> '0' <= s.zone[i] <= '9')
  }

  function TextOf(l: Line): bytes
  {
    match l
    case Tree(oid) => "tree " + oid
    case Parent(oid) => "parent " + oid
    case Author(s) => "author " + SignatureText(s)
    case Committer(s) => "committer " + SignatureText(s)
    case Other(text) => text
    case More(text) => " " + text
  }

  predicate GoodLine(l: Line)
  {
    match l
    case Tree(oid) => IsOid(oid)
    case Parent(oid) => IsOid(oid)
    case Author(s) => GoodSignature(s)
    case Committer(s) => GoodSignature(s)
    case Other(text) =>
      && text != [] && text[0] != ' ' && ' ' in text
      && !StartsWith(text, "tree ") && !StartsWith(text, "parent ")
      && !StartsWith(text, "author ") && !StartsWith(text, "committer ")
    case More(_) => true
  }

  // ------------------------------------------------------------ one identity

  lemma {:induction false} TimeTaken(s: bytes) returns (sign: bytes, digits: bytes)
    requires ParseI64(s).Some?
    ensures s == sign + digits && Spells(sign, digits, ParseI64(s).value)
  {
    hide Value;
    var signed := s[0] == '-' || s[0] == '+';
    sign, digits := if signed then s[..1] else [], if signed then s[1..] else s;
    assert signed ==> sign == [s[0]];
    assert sign == "-" <==> s[0] == '-';
  }

  lemma {:induction false} TimeParses(sign: bytes, digits: bytes, n: int)
    requires Spells(sign, digits, n)
    ensures ParseI64(sign + digits) == Some(n) && ' ' !in sign + digits
  {
    hide Value;
    var s := sign + digits;
    if sign == [] { assert s == digits && IsDigit(digits[0]); } else { assert s[1..] == digits && s[0] == sign[0]; }
  }

  lemma {:induction false} ZoneAgrees(z: bytes)
    ensures IsZone(z)
            <==> |z| == 5 && (z[0] == '+' || z[0] == '-') && (forall i :: 1 <= i < 5 ==> '0' <= z[i] <= '9')
  {
    if |z| == 5 { assert forall i :: 0 <= i < 4 ==> z[1..][i] == z[i + 1]; }
  }

  lemma {:induction false} ClosedAgrees(email: bytes)
    ensures Closed(email) <==> NoOpening(email)
  {
    if Closed(email) {
      forall i | 0 <= i < |email| ensures !OpensEmail(email, i) {
      }
    }
    if NoOpening(email) {
      forall i | 0 <= i < |email| - 1 ensures email[i] != ' ' || email[i + 1] != '<' { assert !OpensEmail(email, i); }
    }
  }

  lemma {:induction false} NameTaken(identity: bytes) returns (email: bytes)
    requires ParseNameAndEmail(identity).Some?
    ensures var name := ParseNameAndEmail(identity).value;
            identity == name + " <" + email + ">" && name != [] && email != [] && NoOpening(email)
  {
    var e := LastOpening(identity).value;
    email := identity[e + 2..|identity| - 1];
    assert identity[|identity| - 1..] == ">";
    assert identity[e..e + 2] == " <";
    forall i | 0 <= i < |email| ensures !OpensEmail(email, i) {
      assert !OpensEmail(identity, e + 2 + i);
    }
  }

  lemma {:induction false} CutAtLast(s: bytes)
    ensures match LastIndexOf(s, ' ')
            case None => true
            case Some(i) => s == s[..i] + " " + s[i + 1..]
  {
  }

  /** The three parts of an identity line, cut at its last two spaces. */
  lemma {:induction false} IdentityParts(value: bytes) returns (front: bytes, time: bytes, zone: bytes)
    requires ParseIdentity(value).Some?
    ensures value == front + " " + time + " " + zone && IsZone(zone)
    ensures ParseI64(time).Some? && ParseNameAndEmail(front).Some?
    ensures ParseIdentity(value) == Some((ParseNameAndEmail(front).value, ParseI64(time).value))
  {
    hide IsZone, ParseI64, ParseNameAndEmail;
    var before := value[..LastIndexOf(value, ' ').value];
    zone := value[LastIndexOf(value, ' ').value + 1..];
    front := before[..LastIndexOf(before, ' ').value];
    time := before[LastIndexOf(before, ' ').value + 1..];
    hide LastIndexOf;
    CutAtLast(value);
    CutAtLast(before);
  }

  lemma {:induction false} PartsParse(front: bytes, time: bytes, zone: bytes)
    requires ' ' !in time && IsZone(zone) && ParseI64(time).Some?
    ensures ParseIdentity(front + " " + time + " " + zone)
         == match ParseNameAndEmail(front) case None => None case Some(name) => Some((name, ParseI64(time).value))
  {
    var before := front + " " + time;
    var value := before + " " + zone;
    ZoneHasNoSpace(zone);
    hide IsZone, ParseI64, ParseNameAndEmail;
    LastIndexOfAppend(before, ' ', zone);
    assert value[|before| + 1..] == zone && value[..|before|] == before;
    LastIndexOfAppend(front, ' ', time);
    assert before[|front| + 1..] == time && before[..|front|] == front;
  }

  /** An identity line is read exactly when it is one name, one address, one time and one zone. */
  lemma {:induction false} SignatureTaken(value: bytes) returns (s: Signature)
    requires ParseIdentity(value).Some?
    ensures GoodSignature(s) && value == SignatureText(s) && ParseIdentity(value) == Some((s.name, TimeOf(s)))
  {
    hide ParseI64, IsZone, ParseNameAndEmail, ParseIdentity, NoOpening;
    var front, time, zone := IdentityParts(value);
    var sign, digits := TimeTaken(time);
    var email := NameTaken(front);
    s := Signature(ParseNameAndEmail(front).value, email, sign, digits, zone);
    ZoneAgrees(zone);
    ClosedAgrees(email);
    hide Closed, Signed;
  }

  lemma {:induction false} SignatureParses(s: Signature)
    requires GoodSignature(s)
    ensures ParseIdentity(SignatureText(s)) == Some((s.name, TimeOf(s)))
  {
    hide ParseI64, IsZone, ParseNameAndEmail, ParseIdentity, NoOpening, Closed, Signed, NameRead;
    TimeParses(s.sign, s.digits, TimeOf(s));
    ZoneAgrees(s.zone);
    ClosedAgrees(s.email);
    NameComesBack(s.name, s.email);
    PartsParse(s.name + " <" + s.email + ">", s.sign + s.digits, s.zone);
  }

  // ------------------------------------------------------------ one line

  /** What a line does to what the loop knows; a second tree, author or committer fails it. */
  function Noted(l: Line, st: HeaderState): Option<HeaderState>
    requires GoodLine(l)
  {
    var s := st.(continuation := false);
    match l
    case Tree(_) => if s.treeSeen then None else Some(s.(treeSeen := true))
    case Parent(oid) => Some(s.(parents := s.parents + [oid]))
    case Author(who) => if s.author.Some? then None else Some(s.(author := Some((who.name, TimeOf(who)))))
    case Committer(who) => if s.committerTime.Some? then None else Some(s.(committerTime := Some(TimeOf(who))))
    case Other(_) => Some(s.(continuation := true))
    case More(_) => if st.continuation then Some(st) else None
  }

  lemma {:induction false} TreeNoted(oid: bytes, st: HeaderState)
    requires IsOid(oid)
    ensures HeaderLine("tree " + oid, st)
         == if st.treeSeen then None else Some(st.(continuation := false, treeSeen := true))
  {
    var line := "tree " + oid;
    KeyExcludes(line, "tree ", " ");
    assert line[5..] == oid;
  }

  lemma {:induction false} AuthorNoted(value: bytes, st: HeaderState)
    ensures HeaderLine("author " + value, st)
         == if st.author.Some? || ParseIdentity(value).None? then None
            else Some(st.(continuation := false, author := ParseIdentity(value)))
  {
    hide ParseIdentity, IsOid;
    var line := "author " + value;
    KeyExcludes(line, "author ", " ");
    KeyExcludes(line, "author ", "tree ");
    KeyExcludes(line, "author ", "parent ");
    assert line[7..] == value;
  }

  lemma {:induction false} CommitterNoted(value: bytes, st: HeaderState)
    ensures HeaderLine("committer " + value, st)
         == if st.committerTime.Some? || ParseIdentity(value).None? then None
            else Some(st.(continuation := false, committerTime := Some(ParseIdentity(value).value.1)))
  {
    hide ParseIdentity, IsOid;
    var line := "committer " + value;
    KeyExcludes(line, "committer ", " ");
    KeyExcludes(line, "committer ", "tree ");
    KeyExcludes(line, "committer ", "parent ");
    KeyExcludes(line, "committer ", "author ");
    assert line[10..] == value;
  }

  lemma {:induction false} OtherNoted(text: bytes, st: HeaderState)
    requires GoodLine(Other(text))
    ensures HeaderLine(text, st) == Some(st.(continuation := true))
  {
    assert !StartsWith(text, " ") by { assert text[0] != " "[0]; }
  }

  lemma {:induction false} LineNoted(l: Line, st: HeaderState)
    requires GoodLine(l)
    ensures HeaderLine(TextOf(l), st) == Noted(l, st)
  {
    match l
    case Tree(oid) => TreeNoted(oid, st);
    case Parent(oid) => ParentLine(oid, st);
    case Author(s) =>
      AuthorNoted(SignatureText(s), st);
      SignatureParses(s);
    case Committer(s) =>
      CommitterNoted(SignatureText(s), st);
      SignatureParses(s);
    case Other(text) => OtherNoted(text, st);
    case More(text) =>
      assert StartsWith(TextOf(l), " ");
    hide HeaderLine, ParseIdentity, SignatureText, GoodSignature, IsOid, TimeOf;
  }

  /** A line the loop goes on from is one of these. */
  lemma {:induction false} LineTaken(line: bytes, st: HeaderState) returns (l: Line)
    requires HeaderLine(line, st).Some?
    ensures GoodLine(l) && TextOf(l) == line
  {
    hide ParseIdentity, SignatureText, GoodSignature, IsOid;
    if StartsWith(line, " ") {
      l := More(line[1..]);
    } else if StartsWith(line, "tree ") {
      l := Tree(line[5..]);
    } else if StartsWith(line, "parent ") {
      l := Parent(line[7..]);
    } else if StartsWith(line, "author ") {
      var s := SignatureTaken(line[7..]);
      l := Author(s);
    } else if StartsWith(line, "committer ") {
      var s := SignatureTaken(line[10..]);
      l := Committer(s);
    } else {
      assert line[0] != " "[0] by { assert line[..1] == [line[0]]; }
      l := Other(line);
    }
  }

  // ------------------------------------------------------------ the header

  function TextsOf(lines: seq<Line>): seq<bytes>
  {
    if lines == [] then [] else [TextOf(lines[0])] + TextsOf(lines[1..])
  }

  ghost predicate GoodLines(lines: seq<Line>) { forall i :: 0 <= i < |lines| ==> GoodLine(lines[i]) }

  /** Continuation lines follow a line the parser does not know, or each other. */
  predicate Follows(lines: seq<Line>, open: bool)
  {
    lines != [] ==> (lines[0].More? ==> open) && Follows(lines[1..], lines[0].Other? || lines[0].More?)
  }

  function ParentsIn(lines: seq<Line>): seq<bytes>
  {
    if lines == [] then [] else (if lines[0].Parent? then [lines[0].oid] else []) + ParentsIn(lines[1..])
  }

  function TreesIn(lines: seq<Line>): seq<bytes>
  {
    if lines == [] then [] else (if lines[0].Tree? then [lines[0].oid] else []) + TreesIn(lines[1..])
  }

  function AuthorsIn(lines: seq<Line>): seq<Signature>
  {
    if lines == [] then [] else (if lines[0].Author? then [lines[0].signature] else []) + AuthorsIn(lines[1..])
  }

  function CommittersIn(lines: seq<Line>): seq<Signature>
  {
    if lines == [] then [] else (if lines[0].Committer? then [lines[0].signature] else []) + CommittersIn(lines[1..])
  }

  /** What a line adds to the state, as far as a header may hold it. */
  lemma {:induction false} NotedFits(l: Line, lines: seq<Line>, st: HeaderState)
    requires GoodLine(l)
    ensures TextsOf([l] + lines) == [TextOf(l)] + TextsOf(lines)
    ensures ParentsIn([l] + lines) == (if l.Parent? then [l.oid] else []) + ParentsIn(lines)
    ensures TreesIn([l] + lines) == (if l.Tree? then [l.oid] else []) + TreesIn(lines)
    ensures AuthorsIn([l] + lines) == (if l.Author? then [l.signature] else []) + AuthorsIn(lines)
    ensures CommittersIn([l] + lines) == (if l.Committer? then [l.signature] else []) + CommittersIn(lines)
    ensures Follows([l] + lines, st.continuation)
            <==> (l.More? ==> st.continuation) && Follows(lines, l.Other? || l.More?)
  {
    assert ([l] + lines)[1..] == lines;
    hide TextOf, GoodLine;
  }

  /** The state after lines that a header may go on with. */
  ghost predicate Reaches(lines: seq<Line>, st: HeaderState, t: HeaderState)
    requires GoodLines(lines)
  {
    && Follows(lines, st.continuation)
    && t.parents == st.parents + ParentsIn(lines)
    && |TreesIn(lines)| + (if st.treeSeen then 1 else 0) == (if t.treeSeen then 1 else 0)
    && Extends(st.author, AuthorsIn(lines), t.author)
    && ExtendsTime(st.committerTime, CommittersIn(lines), t.committerTime)
  }

  ghost predicate Extends(before: Option<(bytes, int)>, more: seq<Signature>, after: Option<(bytes, int)>)
  {
    || (more == [] && after == before)
    || (|more| == 1 && before.None? && AllDigits(more[0].digits) && after == Some((more[0].name, TimeOf(more[0]))))
  }

  ghost predicate ExtendsTime(before: Option<int>, more: seq<Signature>, after: Option<int>)
  {
    || (more == [] && after == before)
    || (|more| == 1 && before.None? && AllDigits(more[0].digits) && after == Some(TimeOf(more[0])))
  }

  lemma {:induction false} ExtendsCons(before: Option<(bytes, int)>, s: Signature, more: seq<Signature>,
                                       after: Option<(bytes, int)>)
    requires AllDigits(s.digits)
    ensures Extends(before, [s] + more, after)
            <==> before.None? && Extends(Some((s.name, TimeOf(s))), more, after)
  {
    hide AllDigits, TimeOf;
  }

  lemma {:induction false} ExtendsTimeCons(before: Option<int>, s: Signature, more: seq<Signature>, after: Option<int>)
    requires AllDigits(s.digits)
    ensures ExtendsTime(before, [s] + more, after) <==> before.None? && ExtendsTime(Some(TimeOf(s)), more, after)
  {
    hide AllDigits, TimeOf;
  }

  /** One line more at the front. */
  lemma {:induction false} ReachesCons(l: Line, lines: seq<Line>, st: HeaderState, t: HeaderState)
    requires GoodLine(l) && GoodLines(lines)
    ensures GoodLines([l] + lines)
    ensures Reaches([l] + lines, st, t) <==> Noted(l, st).Some? && Reaches(lines, Noted(l, st).value, t)
  {
    hide GoodLine, TextOf, ParentsIn, TreesIn, AuthorsIn, CommittersIn, Follows, TimeOf, AllDigits, Extends;
    hide ExtendsTime;
    NotedFits(l, lines, st);
    SignedLine(l);
    assert [] + ParentsIn(lines) == ParentsIn(lines) && [] + TreesIn(lines) == TreesIn(lines);
    assert [] + AuthorsIn(lines) == AuthorsIn(lines) && [] + CommittersIn(lines) == CommittersIn(lines);
    match l
    case Author(s) => ExtendsCons(st.author, s, AuthorsIn(lines), t.author);
    case Committer(s) => ExtendsTimeCons(st.committerTime, s, CommittersIn(lines), t.committerTime);
    case _ =>
  }

  lemma {:induction false} SignedLine(l: Line)
    requires GoodLine(l)
    ensures l.Author? || l.Committer? ==> AllDigits(l.signature.digits)
  {
  }

  lemma {:induction false} ReachesNothing(st: HeaderState, t: HeaderState)
    ensures GoodLines([]) && (Reaches([], st, t) <==> t.(continuation := false) == st.(continuation := false))
  {
    assert st.parents + [] == st.parents;
  }

  /** The lines of a header the loop accepts. */
  lemma {:induction false} HeaderTaken(texts: seq<bytes>, st: HeaderState) returns (lines: seq<Line>)
    requires HeaderLines(texts, st).Some?
    ensures GoodLines(lines) && TextsOf(lines) == texts && Reaches(lines, st, HeaderLines(texts, st).value)
    decreases |texts|
  {
    hide HeaderLine, GoodLine, TextOf, Noted, Reaches;
    if texts == [] {
      lines := [];
      ReachesNothing(st, st);
    } else {
      var l := LineTaken(texts[0], st);
      LineNoted(l, st);
      var next := Noted(l, st).value;
      var tail := HeaderTaken(texts[1..], next);
      lines := [l] + tail;
      NotedFits(l, tail, st);
      ReachesCons(l, tail, st, HeaderLines(texts, st).value);
    }
  }

  /** Lines that a header may hold are accepted, and leave the state they should. */
  lemma {:induction false} HeaderReads(lines: seq<Line>, st: HeaderState, t: HeaderState)
    requires GoodLines(lines) && Reaches(lines, st, t)
    ensures var r := HeaderLines(TextsOf(lines), st);
            r.Some? && r.value.(continuation := false) == t.(continuation := false)
    decreases |lines|
  {
    hide HeaderLine, GoodLine, TextOf, Noted, Reaches;
    if lines == [] {
      ReachesNothing(st, t);
    } else {
      var l, tail := lines[0], lines[1..];
      assert lines == [l] + tail;
      ReachesCons(l, tail, st, t);
      LineNoted(l, st);
      HeaderReads(tail, Noted(l, st).value, t);
    }
  }

  // ------------------------------------------------------------ the whole object

  lemma {:induction false} FirstBlank(raw: bytes)
    ensures match BlankLine(raw)
            case None => forall i :: 0 <= i < |raw| - 1 ==> raw[i] != LF || raw[i + 1] != LF
            case Some(end) => forall i :: 0 <= i < end ==> raw[i] != LF || raw[i + 1] != LF
    decreases |raw|
  {
    if |raw| >= 2 && !(raw[0] == LF && raw[1] == LF) {
      FirstBlank(raw[1..]);
      assert forall i :: 1 <= i < |raw| ==> raw[i] == raw[1..][i - 1];
    }
  }

  /** A message is its first line and, after at most one empty line, the rest. */
  lemma {:induction false} MessageExactly(message: bytes, subject: bytes, body: bytes)
    ensures SubjectOf(message) == subject && BodyOf(message) == body
            <==> LF !in subject
                 && (|| (message == subject && body == [])
                     || message == subject + [LF] + ([LF] + body)
                     || (message == subject + [LF] + body && (body != [] ==> body[0] != LF)))
  {
    var i := IndexOf(message, LF);
    if SubjectOf(message) == subject && BodyOf(message) == body {
      assert LF !in message[..i];
      if i < |message| {
        var rest := message[i + 1..];
        assert message == message[..i] + [LF] + rest;
        if StartsWith(rest, [LF]) { assert rest == [LF] + rest[1..]; }
      }
    }
    if LF !in subject && message == subject { MessageComesBack(subject, []); }
    if LF !in subject && message == subject + [LF] + ([LF] + body) { MessageComesBack(subject, body); }
    if LF !in subject && message == subject + [LF] + body && (body != [] ==> body[0] != LF) {
      IndexOfAppend(subject, LF, body);
      assert message[..|subject|] == subject && message[|subject| + 1..] == body;
    }
  }

  /** The object is these header lines, one of each that is needed, an empty line and the message. */
  ghost predicate Reads(raw: bytes, lines: seq<Line>, message: bytes)
  {
    && raw == Terminated(TextsOf(lines), LF) + ([LF] + message)
    && GoodLines(lines) && SepFree(TextsOf(lines), LF) && Follows(lines, false)
    && |TreesIn(lines)| == 1 && |AuthorsIn(lines)| == 1 && |CommittersIn(lines)| == 1
    && |raw| - |message| <= 65_536
  }

  /** What such an object is shown as. */
  ghost predicate Shows(s: CommitSummary, oid: bytes, lines: seq<Line>, message: bytes)
    requires GoodLines(lines) && |AuthorsIn(lines)| == |CommittersIn(lines)| == 1
  {
    var author, committer, subject := AuthorsIn(lines)[0], CommittersIn(lines)[0], SubjectOf(message);
    && IsOid(oid) && AllDigits(author.digits) && AllDigits(committer.digits)
    && s == CommitSummary(oid, oid[..12], ParentsIn(lines), Shortened(Lossy(author.name), 256), TimeOf(author),
                          TimeOf(committer), Shortened(Lossy(subject), 512), !Valid(author.name) || !Valid(subject))
  }

  lemma {:induction false} RawParts(raw: bytes, end: nat) returns (texts: seq<bytes>)
    requires BlankLine(raw) == Some(end)
    ensures end + 2 <= |raw| && texts == Split(raw[..end], LF) && SepFree(texts, LF)
    ensures raw == Terminated(texts, LF) + ([LF] + raw[end + 2..])
  {
    texts := Split(raw[..end], LF);
    SplitJoins(raw[..end], LF);
    hide Split, Terminated, BlankLine, SepFree;
    var front, last := texts[..|texts| - 1], texts[|texts| - 1];
    assert texts == front + [last];
    TerminatedAppend(front, [last], LF);
    TerminatedOne(last, LF);
    BlankBetween(raw, end, Terminated(front, LF), last);
  }

  lemma {:induction false} BlankBetween(raw: bytes, end: nat, front: bytes, last: bytes)
    requires end + 2 <= |raw| && raw[end] == LF && raw[end + 1] == LF && raw[..end] == front + last
    ensures raw == front + (last + [LF]) + ([LF] + raw[end + 2..])
  {
    assert raw == raw[..end] + [LF] + [LF] + raw[end + 2..];
  }

  /** The state a readable header leaves. */
  lemma {:induction false} StateOf(lines: seq<Line>, st: HeaderState)
    requires GoodLines(lines) && Reaches(lines, Start, st)
    ensures st.treeSeen <==> |TreesIn(lines)| == 1
    ensures st.author.Some? <==> |AuthorsIn(lines)| == 1
    ensures st.committerTime.Some? <==> |CommittersIn(lines)| == 1
    ensures st.parents == ParentsIn(lines) && Follows(lines, false)
    ensures |AuthorsIn(lines)| == 1 ==>
              var a := AuthorsIn(lines)[0]; AllDigits(a.digits) && st.author == Some((a.name, TimeOf(a)))
    ensures |CommittersIn(lines)| == 1 ==>
              var c := CommittersIn(lines)[0]; AllDigits(c.digits) && st.committerTime == Some(TimeOf(c))
  {
    hide GoodLines, AuthorsIn, CommittersIn, TreesIn, ParentsIn, TimeOf, AllDigits, Follows;
  }

  lemma {:induction false} SummaryTaken(oid: bytes, raw: bytes) returns (lines: seq<Line>, message: bytes)
    requires ParseSummary(oid, raw).Ok?
    ensures Reads(raw, lines, message) && Shows(ParseSummary(oid, raw).value, oid, lines, message)
    ensures BlankLine(raw).Some? && BlankLine(raw).value + 2 <= |raw| && message == raw[BlankLine(raw).value + 2..]
  {
    hide IsOid, HeaderLines, BlankLine, Split, Terminated, Lossy, Shortened, Valid, SubjectOf, Reaches, GoodLines;
    hide AuthorsIn, CommittersIn, TreesIn, ParentsIn, TimeOf, AllDigits, Follows, TextsOf, SepFree;
    var end := BlankLine(raw).value;
    var texts := RawParts(raw, end);
    message := raw[end + 2..];
    lines := HeaderTaken(texts, Start);
    StateOf(lines, HeaderLines(texts, Start).value);
  }

  lemma {:induction false} TextsAreLines(lines: seq<Line>)
    requires GoodLines(lines) && SepFree(TextsOf(lines), LF)
    ensures Lines(TextsOf(lines))
    decreases |lines|
  {
    if lines != [] {
      var texts := TextsOf(lines);
      assert TextOf(lines[0]) != [] by { assert GoodLine(lines[0]); }
      assert forall i :: 1 <= i < |texts| ==> texts[i] == texts[1..][i - 1];
      assert texts[1..] == TextsOf(lines[1..]);
      hide TextOf, GoodLine;
      TextsAreLines(lines[1..]);
    }
  }

  /** A header of these lines, read back. */
  lemma {:induction false} ReachableState(lines: seq<Line>) returns (st: HeaderState)
    requires GoodLines(lines) && Follows(lines, false)
    requires |TreesIn(lines)| == 1 && |AuthorsIn(lines)| == 1 && |CommittersIn(lines)| == 1
    ensures Reaches(lines, Start, st)
  {
    SignedLines(lines);
    hide GoodLines, AuthorsIn, CommittersIn, TreesIn, ParentsIn, TimeOf, AllDigits, Follows;
    var a, c := AuthorsIn(lines)[0], CommittersIn(lines)[0];
    st := HeaderState(true, ParentsIn(lines), Some((a.name, TimeOf(a))), Some(TimeOf(c)), false);
    assert [] + ParentsIn(lines) == ParentsIn(lines);
  }

  lemma {:induction false} SignedLines(lines: seq<Line>)
    requires GoodLines(lines)
    ensures forall i :: 0 <= i < |AuthorsIn(lines)| ==> AllDigits(AuthorsIn(lines)[i].digits)
    ensures forall i :: 0 <= i < |CommittersIn(lines)| ==> AllDigits(CommittersIn(lines)[i].digits)
    decreases |lines|
  {
    if lines != [] {
      SignedLine(lines[0]);
      SignedLines(lines[1..]);
    }
    hide GoodLine, AllDigits;
  }

  lemma {:induction false} SummaryShows(oid: bytes, st: HeaderState, lines: seq<Line>, message: bytes)
    requires IsOid(oid) && GoodLines(lines) && st.treeSeen && st.parents == ParentsIn(lines)
    requires |AuthorsIn(lines)| == |CommittersIn(lines)| == 1
    requires var a := AuthorsIn(lines)[0]; AllDigits(a.digits) && st.author == Some((a.name, TimeOf(a)))
    requires var c := CommittersIn(lines)[0]; AllDigits(c.digits) && st.committerTime == Some(TimeOf(c))
    ensures Summary(oid, st, message).Ok? && Shows(Summary(oid, st, message).value, oid, lines, message)
  {
    hide AllDigits, TimeOf, Lossy, Shortened, Valid, SubjectOf, GoodLines, AuthorsIn, CommittersIn, ParentsIn;
  }

  lemma {:induction false} StateRead(lines: seq<Line>) returns (st: HeaderState)
    requires GoodLines(lines) && Follows(lines, false)
    requires |TreesIn(lines)| == 1 && |AuthorsIn(lines)| == 1 && |CommittersIn(lines)| == 1
    ensures HeaderLines(TextsOf(lines), Start) == Some(st) && st.treeSeen && st.parents == ParentsIn(lines)
    ensures var a := AuthorsIn(lines)[0]; AllDigits(a.digits) && st.author == Some((a.name, TimeOf(a)))
    ensures var c := CommittersIn(lines)[0]; AllDigits(c.digits) && st.committerTime == Some(TimeOf(c))
  {
    hide GoodLines, HeaderLines, AuthorsIn, CommittersIn, TreesIn, ParentsIn, TimeOf, AllDigits, Follows, Reaches;
    var reached := ReachableState(lines);
    HeaderReads(lines, Start, reached);
    StateOf(lines, reached);
    st := HeaderLines(TextsOf(lines), Start).value;
  }

  /** Where the parser cuts such an object. */
  lemma {:induction false} ObjectParts(raw: bytes, lines: seq<Line>, message: bytes)
    requires Reads(raw, lines, message)
    ensures var end := |raw| - |message| - 2;
            && 0 <= end && end + 2 <= |raw| && BlankLine(raw) == Some(end)
            && Split(raw[..end], LF) == TextsOf(lines) && raw[end + 2..] == message
  {
    var texts := TextsOf(lines);
    var t := Terminated(texts, LF);
    TextsAreLines(lines);
    SomeLine(lines);
    hide GoodLines, AuthorsIn, CommittersIn, TreesIn, Follows, TextsOf, BlankLine, Terminated, Split;
    BlankAfterLines(texts, message);
    SplitUnterminated(texts, LF);
    assert raw[..|t| - 1] == t[..|t| - 1] && raw[|t| + 1..] == message;
  }

  lemma {:induction false} ObjectReads(oid: bytes, raw: bytes, lines: seq<Line>, message: bytes)
    requires IsOid(oid) && Reads(raw, lines, message)
    ensures ParseSummary(oid, raw).Ok? && Shows(ParseSummary(oid, raw).value, oid, lines, message)
    ensures BlankLine(raw).Some? && BlankLine(raw).value + 2 <= |raw| && message == raw[BlankLine(raw).value + 2..]
  {
    ObjectParts(raw, lines, message);
    var st := StateRead(lines);
    SummaryFromParts(oid, raw, |raw| - |message| - 2, TextsOf(lines));
    SummaryShows(oid, st, lines, message);
    hide GoodLines, AuthorsIn, CommittersIn, TreesIn, ParentsIn, TimeOf, AllDigits, Follows, IsOid, TextsOf, Split;
    hide HeaderLines, Summary, ParseSummary, ParseDetail, Detail, BodyOf, Terminated, BlankLine, Shows;
  }

  lemma {:induction false} SomeLine(lines: seq<Line>)
    requires |TreesIn(lines)| == 1
    ensures TextsOf(lines) != []
  {
  }

  /**
   The language of the commit parser, for any bytes: an object is shown exactly when it is header lines, in any order
   but for continuations, with one tree, one author and one committer, then an empty line within the first 64 KiB, and
   a message; and then it is shown as those lines say.
   */
  lemma {:induction false} SummaryExactly(oid: bytes, raw: bytes, s: CommitSummary)
    ensures ParseSummary(oid, raw) == Ok(s)
            <==> IsOid(oid) && exists lines, message :: Reads(raw, lines, message) && Shows(s, oid, lines, message)
  {
    hide IsOid, GoodLines, AuthorsIn, CommittersIn, TreesIn, ParentsIn, TimeOf, AllDigits, Follows, TextsOf, Terminated;
    hide BlankLine, HeaderLines, Split, Summary, Lossy, Shortened, Valid, SubjectOf;
    if ParseSummary(oid, raw) == Ok(s) {
      var lines, message := SummaryTaken(oid, raw);
    }
    forall lines, message | IsOid(oid) && Reads(raw, lines, message) && Shows(s, oid, lines, message)
      ensures ParseSummary(oid, raw) == Ok(s)
    {
      ObjectReads(oid, raw, lines, message);
    }
  }

  /** Its detail adds the body, whole where it fits 16 KiB, and flags any text that is not UTF-8. */
  lemma {:induction false} DetailExactly(oid: bytes, raw: bytes, d: CommitDetail)
    ensures ParseDetail(oid, raw) == Ok(d)
            <==> IsOid(oid) && exists lines, message ::
                   && Reads(raw, lines, message) && Shows(d.summary, oid, lines, message)
                   && var body := BodyOf(message);
                      && d.body == Shortened(Lossy(body), 16_384)
                      && (d.messageTruncated <==> |body| > 16_384 || |Lossy(body)| > 16_384)
                      && (d.encodingLossy <==> !Valid(AuthorsIn(lines)[0].name) || !Valid(SubjectOf(message))
                                               || !Valid(body))
  {
    hide IsOid, GoodLines, AuthorsIn, CommittersIn, TreesIn, ParentsIn, TimeOf, AllDigits, Follows, TextsOf, Terminated;
    hide BlankLine, HeaderLines, Split, Summary, Lossy, Shortened, Valid, SubjectOf, BodyOf, ParseSummary;
    if ParseDetail(oid, raw) == Ok(d) {
      var lines, message := SummaryTaken(oid, raw);
    }
    forall lines, message | IsOid(oid) && Reads(raw, lines, message)
      ensures ParseSummary(oid, raw).Ok? && Shows(ParseSummary(oid, raw).value, oid, lines, message)
      ensures BlankLine(raw).Some? && BlankLine(raw).value + 2 <= |raw| && message == raw[BlankLine(raw).value + 2..]
    {
      ObjectReads(oid, raw, lines, message);
    }
  }

  /** It is refused as too long exactly when no empty line ends within the first 64 KiB of something longer. */
  lemma {:induction false} TooLongExactly(oid: bytes, raw: bytes)
    requires IsOid(oid)
    ensures ParseSummary(oid, raw) == Err(OutputLimitExceeded)
            <==> |raw| > 65_536 && forall i :: 0 <= i < 65_535 ==> raw[i] != LF || raw[i + 1] != LF
  {
    FirstBlank(raw);
    hide IsOid, HeaderLines, Split, BlankLine;
  }
}
