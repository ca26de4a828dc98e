/** What the artifact directory keeps: the TTL, the order of age, and the oldest-first eviction. */
module Retention {
  import opened Wrappers
  import opened Bytes
  import opened MapSums
  import opened SpoolWriter

  const ARTIFACT_AGGREGATE_CAP_BYTES: nat := 1024 * 1024 * 1024
  const NANOSECONDS: nat := 1_000_000_000
  const ARTIFACT_TTL: nat := 24 * 60 * 60 * NANOSECONDS
  const TARGET_BEFORE_NEW: nat := SatSub(ARTIFACT_AGGREGATE_CAP_BYTES, RAW_SPOOL_SOURCE_CAP_BYTES)

  datatype SpoolError =
    | AuditUnavailable
    | DuplicateExecution
    | InvalidExecutionId
    | InvalidArtifactId
    | InvalidMediaType
    | ArtifactNotFound
    | ArtifactNotRegular
    | ReadLimitExceeded
    | QuotaExceeded
    | Io

  type Name = bytes

  /** A directory entry: whether it is a regular file, its content, and its modification time. */
  datatype Entry = Entry(regular: bool, content: bytes, modified: int)

  type Directory = map<Name, Entry>

  predicate IdByte(b: byte)
  {
    '0' <= b <= '9' || 'a' <= b <= 'z' || 'A' <= b <= 'Z' || b == '_' || b == '-'
  }

  /** `validate_artifact_id`. */
  predicate ArtifactId(name: Name)
  {
    StartsWith(name, "ka_") && |name| > 3 && |name| <= 96 && forall i :: 3 <= i < |name| ==> IdByte(name[i])
  }

  /** A key and 1 to 93 letters, digits, hyphens or underscores, by their ASCII codes. */
  predicate Named(key: bytes, id: bytes)
  {
    && key <= id && 1 <= |id| - |key| <= 93
    && forall i :: |key| <= i < |id| ==>
         var c := id[i] as int; 48 <= c <= 57 || 65 <= c <= 90 || 97 <= c <= 122 || c == 45 || c == 95
  }

  lemma {:induction false} ArtifactIdExactly(id: bytes)
    ensures ArtifactId(id) <==> Named("ka_", id)
  {
  }

  predicate IsArtifact(name: Name, e: Entry) { ArtifactId(name) && e.regular }

  /** At or past the TTL; a time in the future counts as no age. */
  predicate Expired(e: Entry, now: int) { now - e.modified >= ARTIFACT_TTL }

  function SizeOf(e: Entry): nat { |e.content| }

  /** The artifacts no writer is active on. */
  function Completed(files: Directory, active: set<Name>): Directory
  {
    map name | name in files && name !in active && IsArtifact(name, files[name]) :: files[name]
  }

  function Unexpired(completed: Directory, now: int): Directory
  {
    map name | name in completed && !Expired(completed[name], now) :: completed[name]
  }

  /** What the scan keeps as candidates, and the names it removes at once. */
  function Young(files: Directory, active: set<Name>, now: int): Directory { Unexpired(Completed(files, active), now) }

  function Aged(files: Directory, active: set<Name>, now: int): set<Name>
  {
    Completed(files, active).Keys - Young(files, active, now).Keys
  }

  // ------------------------------------------------------------ the order of age

  datatype Candidate = Candidate(modified: int, name: Name, size: nat)

  predicate Older(a: Candidate, b: Candidate)
  {
    a.modified < b.modified || (a.modified == b.modified && BytesLess(a.name, b.name))
  }

  ghost predicate ByAge(s: seq<Candidate>)
  {
    forall i, j :: 0 <= i < j < |s| ==> Older(s[i], s[j])
  }

  function Insert(c: Candidate, s: seq<Candidate>): seq<Candidate>
  {
    if s == [] || Older(c, s[0]) then [c] + s else [s[0]] + Insert(c, s[1..])
  }

  /** `sort_by` age, then name. */
  function SortByAge(s: seq<Candidate>): seq<Candidate>
  {
    if s == [] then [] else Insert(s[0], SortByAge(s[1..]))
  }

  lemma {:induction false} InsertKeepsOrder(c: Candidate, s: seq<Candidate>)
    requires ByAge(s) && forall i :: 0 <= i < |s| ==> s[i].name != c.name
    ensures ByAge(Insert(c, s))
    ensures multiset(Insert(c, s)) == multiset(s) + multiset{c}
    decreases |s|
  {
    if s != [] {
      assert s == [s[0]] + s[1..];
      if Older(c, s[0]) {
        forall i | 0 <= i < |s| ensures Older(c, s[i]) { BytesOrder(c.name, s[0].name, s[i].name); }
      } else {
        BytesOrder(c.name, s[0].name, c.name);
        InsertKeepsOrder(c, s[1..]);
        var t := Insert(c, s[1..]);
        forall j | 0 <= j < |t| ensures Older(s[0], t[j]) {
          assert t[j] in multiset(s[1..]) + multiset{c};
        }
      }
    }
  }

  ghost predicate DistinctNames(s: seq<Candidate>)
  {
    forall i, j :: 0 <= i < j < |s| ==> s[i].name != s[j].name
  }

  lemma {:induction false} SortSorts(s: seq<Candidate>)
    requires DistinctNames(s)
    ensures ByAge(SortByAge(s)) && multiset(SortByAge(s)) == multiset(s)
    decreases |s|
  {
    if s != [] {
      var rest := SortByAge(s[1..]);
      SortSorts(s[1..]);
      assert s == [s[0]] + s[1..];
      forall i | 0 <= i < |rest| ensures rest[i].name != s[0].name {
        assert rest[i] in multiset(s[1..]);
        var j :| 0 <= j < |s[1..]| && s[1..][j] == rest[i];
        assert s[j + 1] == rest[i];
      }
      InsertKeepsOrder(s[0], rest);
    }
  }

  // ------------------------------------------------------------ eviction

  /** How many of the oldest candidates the size loop removes. */
  function Evictions(queue: seq<Candidate>, projected: nat): (k: nat)
    ensures k <= |queue|
  {
    if queue == [] || projected <= TARGET_BEFORE_NEW then 0
    else 1 + Evictions(queue[1..], SatSub(projected, queue[0].size))
  }

  function SizeSum(queue: seq<Candidate>): nat
  {
    if queue == [] then 0 else queue[0].size + SizeSum(queue[1..])
  }

  /** What is left of the projection after the loop. */
  function Remaining(queue: seq<Candidate>, projected: nat): nat
  {
    if queue == [] || projected <= TARGET_BEFORE_NEW then projected
    else Remaining(queue[1..], SatSub(projected, queue[0].size))
  }

  /**
   The victims are the shortest prefix of the queue that brings the projection to the target, or all of it:
   every shorter prefix leaves the projection above.
   */
  lemma {:induction false} EvictsShortestPrefix(queue: seq<Candidate>, projected: nat)
    requires SizeSum(queue) <= projected
    ensures var k := Evictions(queue, projected);
            && Remaining(queue, projected) == projected - SizeSum(queue[..k])
            && (k < |queue| ==> Remaining(queue, projected) <= TARGET_BEFORE_NEW)
            && forall j :: 0 <= j < k ==> projected - SizeSum(queue[..j]) > TARGET_BEFORE_NEW
    decreases |queue|
  {
    var k := Evictions(queue, projected);
    if k > 0 {
      EvictsShortestPrefix(queue[1..], projected - queue[0].size);
      forall j | 0 < j <= k ensures SizeSum(queue[..j]) == queue[0].size + SizeSum(queue[1..][..j - 1]) {
        assert queue[..j][1..] == queue[1..][..j - 1];
      }
    }
  }

  /** The queue's candidates are exactly a directory's entries. */
  ghost predicate Lists(queue: seq<Candidate>, d: Directory)
  {
    && DistinctNames(queue)
    && (forall i :: 0 <= i < |queue| ==>
          queue[i].name in d && queue[i] == CandidateOf(queue[i].name, d[queue[i].name]))
    && forall name :: name in d ==> exists i :: 0 <= i < |queue| && queue[i].name == name
  }

  function CandidateOf(name: Name, e: Entry): Candidate { Candidate(e.modified, name, SizeOf(e)) }

  function NamesOf(queue: seq<Candidate>): set<Name>
  {
    set i | 0 <= i < |queue| :: queue[i].name
  }

  /** Sorting keeps a listing a listing. */
  lemma {:induction false} SortedLists(s: seq<Candidate>, d: Directory)
    requires Lists(s, d)
    ensures Lists(SortByAge(s), d) && ByAge(SortByAge(s))
  {
    var t := SortByAge(s);
    SortSorts(s);
    forall i | 0 <= i < |t| ensures t[i].name in d && t[i] == CandidateOf(t[i].name, d[t[i].name]) {
      assert t[i] in multiset(s);
    }
    forall i, j | 0 <= i < j < |t| ensures t[i].name != t[j].name {
      BytesOrder(t[i].name, t[i].name, t[i].name);
    }
    forall name | name in d ensures exists i :: 0 <= i < |t| && t[i].name == name {
      var i :| 0 <= i < |s| && s[i].name == name;
      assert s[i] in multiset(t);
      var j :| 0 <= j < |t| && t[j] == s[i];
    }
  }

  lemma {:induction false} ListedRest(queue: seq<Candidate>, d: Directory)
    requires queue != [] && Lists(queue, d)
    ensures Lists(queue[1..], d - {queue[0].name})
  {
    var name, rest := queue[0].name, queue[1..];
    assert forall i :: 0 <= i < |rest| ==> rest[i] == queue[i + 1];
    forall n | n in d - {name} ensures exists i :: 0 <= i < |rest| && rest[i].name == n {
      var i :| 0 <= i < |queue| && queue[i].name == n;
      assert rest[i - 1].name == n;
    }
  }

  /** A directory has one listing by age, whatever order it was read in. */
  lemma {:induction false} OneQueue(a: seq<Candidate>, b: seq<Candidate>, d: Directory)
    requires ByAge(a) && ByAge(b) && Lists(a, d) && Lists(b, d)
    ensures a == b
    decreases |a|
  {
    hide *;
    if a == [] {
      ListedCount(a, d);
      ListedCount(b, d);
    } else {
      OldestFirst(a, b, d);
      ListedRest(a, d);
      ListedRest(b, d);
      TailByAge(a);
      TailByAge(b);
      OneQueue(a[1..], b[1..], d - {a[0].name});
      assert a == [a[0]] + a[1..] && b == [b[0]] + b[1..];
    }
  }

  lemma {:induction false} ListedCount(queue: seq<Candidate>, d: Directory)
    requires Lists(queue, d)
    ensures |queue| == |d|
    decreases |queue|
  {
    if queue == [] {
      assert d == map[];
    } else {
      ListedRest(queue, d);
      Shrinks(d, queue[0].name);
      ListedCount(queue[1..], d - {queue[0].name});
    }
  }

  lemma {:induction false} TailByAge(a: seq<Candidate>)
    requires a != [] && ByAge(a)
    ensures ByAge(a[1..])
  {
    assert forall i :: 0 <= i < |a[1..]| ==> a[1..][i] == a[i + 1];
  }

  lemma {:induction false} OldestFirst(a: seq<Candidate>, b: seq<Candidate>, d: Directory)
    requires a != [] && ByAge(a) && ByAge(b) && Lists(a, d) && Lists(b, d)
    ensures b != [] && a[0] == b[0]
  {
    hide BytesLess;
    assert a[0].name in d;
    var i :| 0 <= i < |b| && b[i].name == a[0].name;
    assert b[0].name in d;
    var j :| 0 <= j < |a| && a[j].name == b[0].name;
    BytesOrder(a[0].name, b[0].name, a[0].name);
    assert b[i] == a[0] && a[j] == b[0];
    FirstIsOldest(a, j);
    FirstIsOldest(b, i);
  }

  lemma {:induction false} FirstIsOldest(a: seq<Candidate>, j: nat)
    requires ByAge(a) && j < |a|
    ensures j == 0 || Older(a[0], a[j])
  {
  }

  /** A listing in no particular order. */
  ghost function SomeListing(d: Directory): (s: seq<Candidate>)
    ensures Lists(s, d)
    decreases |d|
  {
    if d == map[] then []
    else
      var name := Pick(d);
      Shrinks(d, name);
      var rest := SomeListing(d - {name});
      ListedMore(rest, d, name);
      [CandidateOf(name, d[name])] + rest
  }

  lemma {:induction false} ListedMore(rest: seq<Candidate>, d: Directory, name: Name)
    requires name in d && Lists(rest, d - {name})
    ensures Lists([CandidateOf(name, d[name])] + rest, d)
  {
    var s := [CandidateOf(name, d[name])] + rest;
    forall n | n in d ensures exists i :: 0 <= i < |s| && s[i].name == n {
      if n == name { assert s[0].name == n; }
      else {
        assert n in d - {name};
        var i :| 0 <= i < |rest| && rest[i].name == n;
        assert s[i + 1].name == n;
      }
    }
  }

  /** The directory's entries, oldest first. */
  ghost function Queue(d: Directory): (q: seq<Candidate>)
    ensures Lists(q, d) && ByAge(q)
  {
    SortedLists(SomeListing(d), d);
    SortByAge(SomeListing(d))
  }

  lemma {:induction false} ListedSum(queue: seq<Candidate>, d: Directory)
    requires Lists(queue, d)
    ensures SizeSum(queue) == Sum(d, SizeOf)
    decreases |queue|
  {
    if queue == [] {
      assert d == map[];
    } else {
      TakeOut(d, SizeOf, queue[0].name);
      ListedRest(queue, d);
      ListedSum(queue[1..], d - {queue[0].name});
    }
  }

  /** After the first `k` were removed the rest of the queue lists the rest of the directory. */
  lemma {:induction false} ListedAfter(queue: seq<Candidate>, d: Directory, k: nat)
    requires Lists(queue, d) && k <= |queue|
    ensures Lists(queue[k..], d - NamesOf(queue[..k]))
    decreases k
  {
    if k == 0 {
      assert queue[0..] == queue && NamesOf(queue[..0]) == {} && d - {} == d;
    } else {
      ListedAfter(queue, d, k - 1);
      NamesOfMore(queue, k);
      hide Lists, NamesOf;
      ListedRest(queue[k - 1..], d - NamesOf(queue[..k - 1]));
      assert queue[k - 1..][1..] == queue[k..] && queue[k - 1..][0] == queue[k - 1];
      assert d - NamesOf(queue[..k - 1]) - {queue[k - 1].name} == d - NamesOf(queue[..k]);
    }
  }

  lemma {:induction false} NamesOfMore(queue: seq<Candidate>, k: nat)
    requires 0 < k <= |queue|
    ensures NamesOf(queue[..k]) == NamesOf(queue[..k - 1]) + {queue[k - 1].name}
  {
    forall n | n in NamesOf(queue[..k]) ensures n in NamesOf(queue[..k - 1]) + {queue[k - 1].name} {
      var i :| 0 <= i < k && queue[..k][i].name == n;
      if i < k - 1 { assert queue[..k - 1][i].name == n; }
    }
    forall n | n in NamesOf(queue[..k - 1]) + {queue[k - 1].name} ensures n in NamesOf(queue[..k]) {
      if n == queue[k - 1].name { assert queue[..k][k - 1].name == n; }
      else {
        var i :| 0 <= i < k - 1 && queue[..k - 1][i].name == n;
        assert queue[..k][i].name == n;
      }
    }
  }

  // ------------------------------------------------------------ one retention pass, as a function

  /** What the projection starts from. */
  ghost function Projection(completed: Directory, active: set<Name>): u64
  {
    SatAdd(Min(Sum(completed, SizeOf), U64_MAX), Min(|active| * RAW_SPOOL_SOURCE_CAP_BYTES, U64_MAX))
  }

  /** The names a pass removes: everything expired, then the oldest while the projection is too high. */
  ghost function Removed(files: Directory, active: set<Name>, now: int): set<Name>
  {
    var young := Young(files, active, now);
    var queue := Queue(young);
    Aged(files, active, now) + NamesOf(queue[..Evictions(queue, Projection(young, active))])
  }

  ghost function Retain(files: Directory, active: set<Name>, now: int): (Directory, Result<(), SpoolError>)
  {
    var young := Young(files, active, now);
    (files - Removed(files, active, now),
     if Remaining(Queue(young), Projection(young, active)) > TARGET_BEFORE_NEW then Err(QuotaExceeded) else Ok(()))
  }

  /** What the completed artifacts and the active reservations amount to. */
  ghost function Committed(files: Directory, active: set<Name>): nat
  {
    Sum(Completed(files, active), SizeOf) + |active| * RAW_SPOOL_SOURCE_CAP_BYTES
  }

  /** Nothing the pass adds up saturates. */
  ghost predicate Unsaturated(files: Directory, active: set<Name>) { Committed(files, active) <= U64_MAX }

  lemma {:induction false} UnexpiredIsPart(completed: Directory, now: int)
    ensures Unexpired(completed, now) == completed - (completed.Keys - Unexpired(completed, now).Keys)
    ensures Sum(Unexpired(completed, now), SizeOf) <= Sum(completed, SizeOf)
  {
    var aged := completed.Keys - Unexpired(completed, now).Keys;
    assert Unexpired(completed, now) == completed - aged;
    SumOfPart(completed, SizeOf, aged);
  }

  lemma {:induction false} ProjectionIsSum(files: Directory, active: set<Name>, now: int)
    requires Unsaturated(files, active)
    ensures var young := Young(files, active, now);
            Projection(young, active) == Sum(young, SizeOf) + |active| * RAW_SPOOL_SOURCE_CAP_BYTES
            <= Committed(files, active)
  {
    UnexpiredIsPart(Completed(files, active), now);
  }

  /** Under the quota no saturating operation saturates. */
  lemma {:induction false} QuotaNeverSaturates(files: Directory, active: set<Name>, now: int)
    requires Committed(files, active) <= ARTIFACT_AGGREGATE_CAP_BYTES
    ensures Unsaturated(files, active)
    ensures var young := Young(files, active, now);
            Projection(young, active) == Sum(young, SizeOf) + |active| * RAW_SPOOL_SOURCE_CAP_BYTES
  {
    ProjectionIsSum(files, active, now);
  }

  /** What is completed after the pass is what was young, less the evicted prefix. */
  lemma {:induction false} RetainedCompleted(files: Directory, active: set<Name>, now: int)
    ensures var young := Young(files, active, now);
            var queue := Queue(young);
            Completed(Retain(files, active, now).0, active)
            == young - NamesOf(queue[..Evictions(queue, Projection(young, active))])
  {
  }

  /** The projection that decides the answer is exactly what is committed after the pass. */
  lemma {:induction false} RemainingIsCommitted(files: Directory, active: set<Name>, now: int)
    requires Unsaturated(files, active)
    ensures var young := Young(files, active, now);
            Remaining(Queue(young), Projection(young, active)) == Committed(Retain(files, active, now).0, active)
  {
    var young := Young(files, active, now);
    var queue := Queue(young);
    var projected := Projection(young, active);
    var k := Evictions(queue, projected);
    UnexpiredIsPart(Completed(files, active), now);
    ListedSum(queue, young);
    EvictsShortestPrefix(queue, projected);
    ListedAfter(queue, young, k);
    ListedSum(queue[k..], young - NamesOf(queue[..k]));
    SizeSumSplit(queue, k);
    RetainedCompleted(files, active, now);
  }

  lemma {:induction false} SizeSumSplit(queue: seq<Candidate>, k: nat)
    requires k <= |queue|
    ensures SizeSum(queue) == SizeSum(queue[..k]) + SizeSum(queue[k..])
    decreases k
  {
    if k > 0 {
      SizeSumSplit(queue[1..], k - 1);
      assert queue[..k][1..] == queue[1..][..k - 1] && queue[k..] == queue[1..][k - 1..];
    } else {
      assert queue[0..] == queue;
    }
  }

  /**
   A pass keeps active artifacts and foreign entries as they are, and every artifact of a day or more goes. Foreign is
   whatever is no regular file or is not named as an artifact.
   */
  lemma {:induction false} RetentionKeeps(files: Directory, active: set<Name>, now: int, name: Name)
    requires name in files
    ensures var kept, e := Retain(files, active, now).0, files[name];
            && (name in active || !Named("ka_", name) || !e.regular ==> name in kept)
            && (name !in active && Named("ka_", name) && e.regular && now - e.modified >= 86_400_000_000_000 ==>
                  name !in kept)
            && (name in kept ==> kept[name] == e)
  {
    ArtifactIdExactly(name);
    var young := Young(files, active, now);
    var queue := Queue(young);
    var victims := queue[..Evictions(queue, Projection(young, active))];
    hide Queue, Evictions, Projection, Lists, ByAge, ArtifactId, Named;
    if name in NamesOf(victims) {
      QueueHas(young, Evictions(queue, Projection(young, active)), name);
    }
  }

  lemma {:induction false} QueueHas(d: Directory, k: nat, name: Name)
    requires k <= |Queue(d)| && name in NamesOf(Queue(d)[..k])
    ensures name in d
  {
    var i :| 0 <= i < k && Queue(d)[..k][i].name == name;
    assert Queue(d)[i].name in d;
  }

  /** The quota is refused exactly when sixteen writers are active: eviction always makes room otherwise. */
  lemma {:induction false} QuotaExactly(files: Directory, active: set<Name>, now: int)
    requires Unsaturated(files, active)
    ensures var (kept, r) := Retain(files, active, now);
            && (r == Err(QuotaExceeded) <==> |active| >= 16)
            && (r.Ok? <==> Committed(kept, active) <= 1_006_632_960)
  {
    var young := Young(files, active, now);
    var queue := Queue(young);
    RemainingIsCommitted(files, active, now);
    ProjectionIsSum(files, active, now);
    ListedSum(queue, young);
    hide *;
    RemainingTooMuch(queue, Projection(young, active));
    QuotaCounts(|active|);
    AnswerOf(files, active, now);
  }

  lemma {:induction false} QuotaCounts(writers: nat)
    ensures writers * RAW_SPOOL_SOURCE_CAP_BYTES > TARGET_BEFORE_NEW <==> writers >= 16
  {
  }

  lemma {:induction false} AnswerOf(files: Directory, active: set<Name>, now: int)
    ensures var young := Young(files, active, now);
            var r := Retain(files, active, now).1;
            && (r == Err(QuotaExceeded) <==> Remaining(Queue(young), Projection(young, active)) > TARGET_BEFORE_NEW)
            && (r.Ok? || r == Err(QuotaExceeded))
  {
  }

  /** Only what cannot be evicted keeps the projection above the target. */
  lemma {:induction false} RemainingTooMuch(queue: seq<Candidate>, projected: nat)
    requires SizeSum(queue) <= projected
    ensures Remaining(queue, projected) > TARGET_BEFORE_NEW <==> projected - SizeSum(queue) > TARGET_BEFORE_NEW
  {
    var k := Evictions(queue, projected);
    EvictsShortestPrefix(queue, projected);
    SizeSumSplit(queue, k);
    if k == |queue| { assert queue[..k] == queue; }
  }

  /** The artifacts of less than a day that no writer is active on. */
  ghost function Recent(files: Directory, active: set<Name>, now: int): Directory
  {
    map name | && name in files && name !in active && Named("ka_", name) && files[name].regular
               && now - files[name].modified < 86_400_000_000_000 :: files[name]
  }

  /** Those that were written before `name`, or at the same time and come before it in byte order. */
  ghost function Before(d: Directory, name: Name): Directory
    requires name in d
  {
    map n | && n in d
            && (|| d[n].modified < d[name].modified
                || (d[n].modified == d[name].modified && exists k: nat :: FirstDifference(n, name, k))) :: d[n]
  }

  lemma {:induction false} RecentIsYoung(files: Directory, active: set<Name>, now: int)
    ensures Recent(files, active, now) == Young(files, active, now)
  {
    forall name ensures ArtifactId(name) <==> Named("ka_", name) { ArtifactIdExactly(name); }
    hide ArtifactId, Named;
  }

  lemma {:induction false} BeforeIsOlder(d: Directory, name: Name)
    requires name in d
    ensures Before(d, name) == OlderThan(d, name)
  {
    forall n ensures BytesLess(n, name) <==> exists k: nat :: FirstDifference(n, name, k) {
      BytesLessExactly(n, name);
    }
    hide BytesLess, FirstDifference;
  }

  /**
   Eviction is exact. An artifact of less than a day goes exactly when taking out all those before it would still leave
   more than 960 MiB: the victims are the shortest oldest-first prefix that is enough.
   */
  lemma {:induction false} EvictionExactly(files: Directory, active: set<Name>, now: int, name: Name)
    requires Unsaturated(files, active) && name in Recent(files, active, now)
    ensures var recent := Recent(files, active, now);
            name !in Retain(files, active, now).0 <==>
              Sum(Before(recent, name), SizeOf) + 1_006_632_960 < Sum(recent, SizeOf) + |active| * 67_108_864
  {
    RecentIsYoung(files, active, now);
    var young := Young(files, active, now);
    UnexpiredIsPart(Completed(files, active), now);
    VictimExactly(young, Projection(young, active), name);
    BeforeIsOlder(young, name);
    YoungIsRemoved(files, active, now, name);
    hide Recent, Before, Older, NamesOf, Queue, Retain, Evictions, Young, Completed;
  }

  /** An artifact within its TTL goes only when it is evicted. */
  lemma {:induction false} YoungIsRemoved(files: Directory, active: set<Name>, now: int, name: Name)
    requires name in Young(files, active, now)
    ensures var young := Young(files, active, now);
            name !in Retain(files, active, now).0
            <==> name in NamesOf(Queue(young)[..Evictions(Queue(young), Projection(young, active))])
  {
    hide Queue, Evictions, Projection, NamesOf, ArtifactId;
  }

  /** The size of everything older than `name`. */
  ghost function OlderSum(d: Directory, name: Name): nat
    requires name in d
  {
    Sum(OlderThan(d, name), SizeOf)
  }

  ghost function OlderThan(d: Directory, name: Name): Directory
    requires name in d
  {
    map n | n in d && Older(CandidateOf(n, d[n]), CandidateOf(name, d[name])) :: d[n]
  }

  /** An artifact is evicted exactly when removing everything older would still leave too much. */
  lemma {:induction false} VictimExactly(d: Directory, projected: nat, name: Name)
    requires name in d && Sum(d, SizeOf) <= projected
    ensures name in NamesOf(Queue(d)[..Evictions(Queue(d), projected)])
       <==> OlderSum(d, name) + TARGET_BEFORE_NEW < projected
  {
    var queue := Queue(d);
    var k := Evictions(queue, projected);
    ListedSum(queue, d);
    EvictsShortestPrefix(queue, projected);
    var i :| 0 <= i < |queue| && queue[i].name == name;
    PrefixIsOlder(queue, d, i);
    InPrefix(queue, d, k, i);
    hide Lists, ByAge, Queue, NamesOf, OlderSum, Evictions, Remaining, SizeSum;
    if i >= k { PrefixGrows(queue, k, i); }
  }

  lemma {:induction false} PrefixGrows(queue: seq<Candidate>, k: nat, i: nat)
    requires k <= i <= |queue|
    ensures SizeSum(queue[..k]) <= SizeSum(queue[..i])
  {
    SizeSumSplit(queue[..i], k);
    assert queue[..i][..k] == queue[..k];
  }

  lemma {:induction false} InPrefix(queue: seq<Candidate>, d: Directory, k: nat, i: nat)
    requires Lists(queue, d) && k <= |queue| && i < |queue|
    ensures queue[i].name in NamesOf(queue[..k]) <==> i < k
  {
    if i < k {
      assert queue[..k][i].name == queue[i].name;
    } else {
      assert forall j :: 0 <= j < k ==> queue[..k][j] == queue[j];
    }
  }

  /** What stands before `i` in the queue is exactly what is older. */
  lemma {:induction false} PrefixIsOlder(queue: seq<Candidate>, d: Directory, i: nat)
    requires Lists(queue, d) && ByAge(queue) && i < |queue|
    ensures SizeSum(queue[..i]) == OlderSum(d, queue[i].name)
  {
    var older := OlderThan(d, queue[i].name);
    var front := queue[..i];
    forall n | n in older ensures exists j :: 0 <= j < |front| && front[j].name == n {
      var j :| 0 <= j < |queue| && queue[j].name == n;
      BytesOrder(queue[i].name, n, queue[i].name);
      BytesOrder(n, n, n);
      assert j < i;
      assert front[j].name == n;
    }
    forall j | 0 <= j < |front|
      ensures front[j].name in older && front[j] == CandidateOf(front[j].name, older[front[j].name])
    {
      assert Older(queue[j], queue[i]);
    }
    ListedSum(front, older);
  }
}
