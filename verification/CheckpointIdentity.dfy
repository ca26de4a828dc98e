/** Current identities of a checkpoint's records, attached in place under one hashing budget. */
module CheckpointIdentity {
  import opened Wrappers
  import opened Bytes
  import opened Porcelain

  const GIT_CHECKPOINT_MAX_HASHED_BYTES: nat := 64 * 1024 * 1024

  datatype PathKind = File | Symlink | Directory | Other

  datatype Identity = Identity(
    present: bool, kind: Option<PathKind>, size: Option<u64>, hash: Option<bytes>, hashTruncated: bool)

  datatype Item = Item(record: Record, identity: Option<Identity>)

  /** What the workspace answers for a path, without and with a hash; `None` is an error. */
  datatype Workspace = Workspace(look: bytes -> Option<Identity>, hash: bytes -> Option<Identity>)

  /** `record_needs_current_identity`. */
  predicate Needs(r: Record) { r.recordType == Untracked || (r.worktreeStatus.Some? && r.worktreeStatus.value != "D") }

  predicate Hashable(i: Identity) { i.present && (i.kind == Some(File) || i.kind == Some(Symlink)) }

  function SizeIn(i: Identity): u64 { if i.size.Some? then i.size.value else 0 }

  /** One record's identity, the bytes it adds to those hashed, and whether it cuts the checkpoint short. */
  datatype Attached = Attached(identity: Identity, hashed: nat, short: bool)

  function Attach(path: bytes, hashed: u64, w: Workspace): Option<Attached>
  {
    match w.look(path)
    case None => None
    case Some(metadata) =>
      if !Hashable(metadata) then Some(Attached(metadata, 0, true))
      else if SatAdd(hashed, SizeIn(metadata)) > GIT_CHECKPOINT_MAX_HASHED_BYTES then
        Some(Attached(metadata.(hashTruncated := true), 0, true))
      else match w.hash(path)
        case None => None
        case Some(identity) =>
          Some(Attached(identity, if identity.hashTruncated then 0 else SizeIn(identity), identity.hashTruncated))
  }

  /** The items after the loop, the bytes hashed in all, and its answer; an error leaves the rest as it was. */
  function AttachAll(items: seq<Item>, hashed: u64, short: bool, w: Workspace): (r: (seq<Item>, u64, Option<bool>))
    ensures |r.0| == |items|
    decreases |items|
  {
    if items == [] then ([], hashed, Some(short))
    else if !Needs(items[0].record) then
      var (rest, h, r) := AttachAll(items[1..], hashed, short, w);
      ([items[0]] + rest, h, r)
    else match Attach(items[0].record.path, hashed, w)
      case None => (items, hashed, None)
      case Some(a) =>
        var (rest, h, r) := AttachAll(items[1..], SatAdd(hashed, a.hashed), short || a.short, w);
        ([items[0].(identity := Some(a.identity))] + rest, h, r)
  }

  /** `attach_current_identities`; `None` is its error. */
  method AttachCurrentIdentities(items: array<Item>, w: Workspace) returns (truncated: Option<bool>)
    modifies items
    ensures var after := AttachAll(old(items[..]), 0, false, w); (items[..], truncated) == (after.0, after.2)
  {
    hide Attach, Needs, AttachAll;
    var hashed: u64 := 0;
    var short := false;
    var n := 0;
    ghost var before := items[..];
    ghost var whole := AttachAll(before, 0, false, w);
    assert before[0..] == before;
    while n < items.Length
      invariant n <= items.Length
      invariant items[n..] == before[n..]
      invariant whole.0 == items[..n] + AttachAll(before[n..], hashed, short, w).0
      invariant whole.2 == AttachAll(before[n..], hashed, short, w).2
    {
      var item := items[n];
      AttachStep(before, n, hashed, short, w);
      assert item == before[n];
      if Needs(item.record) {
        var a := Attach(item.record.path, hashed, w);
        if a.None? {
          assert items[..] == items[..n] + items[n..];
          return None;
        }
        hashed := SatAdd(hashed, a.value.hashed);
        short := short || a.value.short;
        items[n] := item.(identity := Some(a.value.identity));
      }
      n := n + 1;
      assert items[..n] == items[..n - 1] + [items[n - 1]];
    }
    AttachNothing(hashed, short, w);
    assert before[n..] == [] && items[..] == items[..n] + [];
    return Some(short);
  }

  lemma {:induction false} AttachNothing(hashed: u64, short: bool, w: Workspace)
    ensures AttachAll([], hashed, short, w) == ([], hashed, Some(short))
  {
  }

  /** One turn of the loop. */
  lemma {:induction false} AttachStep(items: seq<Item>, n: nat, hashed: u64, short: bool, w: Workspace)
    requires n < |items|
    ensures var r := AttachAll(items[n..], hashed, short, w);
            var a := Attach(items[n].record.path, hashed, w);
            if !Needs(items[n].record) then
              var rest := AttachAll(items[n + 1..], hashed, short, w);
              r.0 == [items[n]] + rest.0 && r.2 == rest.2
            else if a.None? then r.0 == items[n..] && r.2 == None
            else
              var rest := AttachAll(items[n + 1..], SatAdd(hashed, a.value.hashed), short || a.value.short, w);
              r.0 == [items[n].(identity := Some(a.value.identity))] + rest.0 && r.2 == rest.2
  {
    hide Attach, Needs;
    assert items[n..][0] == items[n] && items[n..][1..] == items[n + 1..];
  }

  // ------------------------------------------------------------ what the answer means

  /** Metadata and hash agree on a path's size: the file does not change between the two. */
  ghost predicate Unchanging(items: seq<Item>, w: Workspace)
  {
    forall i :: 0 <= i < |items| ==>
      var path := items[i].record.path;
      w.look(path).Some? && w.hash(path).Some? ==> SizeIn(w.hash(path).value) == SizeIn(w.look(path).value)
  }

  /** The bytes hashed never exceed 64 MiB for files that do not change. */
  lemma {:induction false} BudgetHolds(items: seq<Item>, hashed: u64, short: bool, w: Workspace)
    requires Unchanging(items, w) && hashed <= GIT_CHECKPOINT_MAX_HASHED_BYTES
    ensures hashed <= AttachAll(items, hashed, short, w).1 <= GIT_CHECKPOINT_MAX_HASHED_BYTES
    decreases |items|
  {
    if items != [] {
      assert Unchanging(items[1..], w);
      if !Needs(items[0].record) {
        BudgetHolds(items[1..], hashed, short, w);
      } else {
        var a := Attach(items[0].record.path, hashed, w);
        if a.Some? { BudgetHolds(items[1..], SatAdd(hashed, a.value.hashed), short || a.value.short, w); }
      }
    }
  }

  /** Only identities change; records that need none keep theirs, and after success every other has one. */
  lemma {:induction false} RecordsAreKept(items: seq<Item>, hashed: u64, short: bool, w: Workspace, i: nat)
    requires i < |items|
    ensures var (after, _, r) := AttachAll(items, hashed, short, w);
            && after[i].record == items[i].record
            && (!Needs(items[i].record) ==> after[i] == items[i])
            && (r.Some? && Needs(items[i].record) ==> after[i].identity.Some?)
    decreases |items|
  {
    if !Needs(items[0].record) {
      if i > 0 { RecordsAreKept(items[1..], hashed, short, w, i - 1); }
    } else {
      var a := Attach(items[0].record.path, hashed, w);
      if a.Some? && i > 0 {
        RecordsAreKept(items[1..], SatAdd(hashed, a.value.hashed), short || a.value.short, w, i - 1);
      }
    }
  }

  /** A path whose answer leaves nothing out: a regular file or symbolic link, hashed whole. */
  predicate Whole(path: bytes, w: Workspace)
  {
    && w.look(path).Some? && Hashable(w.look(path).value)
    && w.hash(path).Some? && !w.hash(path).value.hashTruncated
  }

  /** The bytes the records that need an identity have in all. */
  function Needed(items: seq<Item>, w: Workspace): nat
    decreases |items|
  {
    if items == [] then 0
    else
      var path := items[0].record.path;
      (if Needs(items[0].record) && w.look(path).Some? then SizeIn(w.look(path).value) else 0) + Needed(items[1..], w)
  }

  /**
   The checkpoint is reported complete exactly when every record that needs an identity is a file or link hashed whole
   and all of them together fit the budget.
   */
  lemma {:induction false} CompleteExactly(items: seq<Item>, hashed: u64, short: bool, w: Workspace)
    requires Unchanging(items, w) && hashed <= GIT_CHECKPOINT_MAX_HASHED_BYTES
    ensures AttachAll(items, hashed, short, w).2 == Some(false) <==>
              && !short
              && (forall i :: 0 <= i < |items| && Needs(items[i].record) ==> Whole(items[i].record.path, w))
              && hashed + Needed(items, w) <= GIT_CHECKPOINT_MAX_HASHED_BYTES
    decreases |items|
  {
    if items != [] {
      var rest := items[1..];
      assert Unchanging(rest, w);
      assert forall i :: 1 <= i < |items| ==> items[i] == rest[i - 1];
      if !Needs(items[0].record) {
        CompleteExactly(rest, hashed, short, w);
      } else {
        var a := Attach(items[0].record.path, hashed, w);
        if a.Some? {
          BudgetHolds([items[0]], hashed, short, w);
          CompleteExactly(rest, SatAdd(hashed, a.value.hashed), short || a.value.short, w);
        }
      }
    }
  }

  // ------------------------------------------------------------ each record's identity, exactly

  /** A record needs a current identity when its path is untracked, or changed in the worktree and still there. */
  lemma {:induction false} NeedsExactly(e: Entry)
    requires WellFormed(e)
    ensures Needs(Meaning(e)) <==> e.UntrackedEntry? || (e.y != '.' && e.y != 'D')
  {
    if !e.UntrackedEntry? && e.y != '.' && e.y != 'D' { assert [e.y][0] != "D"[0]; }
  }

  /** There is a regular file or a symbolic link at the path. */
  predicate Readable(path: bytes, w: Workspace)
  {
    && w.look(path).Some? && w.look(path).value.present
    && w.look(path).value.kind.Some? && (w.look(path).value.kind.value.File? || w.look(path).value.kind.value.Symlink?)
  }

  /** The size the hash of an item's path reported, where it was hashed whole. */
  function Charge(item: Item, w: Workspace): nat
  {
    if !Needs(item.record) || !Readable(item.record.path, w) || item.identity.None? || item.identity.value.hashTruncated
    then 0
    else match item.identity.value.size case None => 0 case Some(n) => n
  }

  function Charged(items: seq<Item>, w: Workspace): nat
  {
    if items == [] then 0 else Charge(items[0], w) + Charged(items[1..], w)
  }

  function LookedSize(path: bytes, w: Workspace): nat
    requires w.look(path).Some?
  {
    match w.look(path).value.size case None => 0 case Some(n) => n
  }

  /**
   What a record that needs an identity gets after `spent` bytes: the metadata alone for what is not there or is no file
   or link, the metadata marked as cut where its size would exceed 64 MiB, and its hash otherwise.
   */
  function IdentityDue(path: bytes, spent: nat, w: Workspace): Option<Identity>
  {
    match w.look(path)
    case None => None
    case Some(seen) =>
      if !Readable(path, w) then Some(seen)
      else if spent + LookedSize(path, w) > 67_108_864 then
        Some(Identity(seen.present, seen.kind, seen.size, seen.hash, true))
      else w.hash(path)
  }

  /** What one path costs and gives, told by its identity alone. */
  lemma {:induction false} AttachGives(item: Item, hashed: u64, spent: nat, w: Workspace)
    requires hashed == Min(spent, U64_MAX) && Needs(item.record)
    ensures var path := item.record.path;
            var a := Attach(path, hashed, w);
            && (a.None? <==> IdentityDue(path, spent, w).None?)
            && (a.Some? ==>
                var after := item.(identity := Some(a.value.identity));
                && a.value.identity == IdentityDue(path, spent, w).value
                && SatAdd(hashed, a.value.hashed) == Min(spent + Charge(after, w), U64_MAX)
                && (a.value.short <==> !Readable(path, w) || a.value.identity.hashTruncated))
  {
    hide Needs;
  }

  /** After the loop: what every item holds, where it stopped, and whether anything was cut short. */
  ghost predicate AttachedFrom(items: seq<Item>, spent: nat, short: bool, w: Workspace, after: seq<Item>,
                               answer: Option<bool>)
    requires |after| == |items|
  {
    && (answer.Some? ==> forall i :: 0 <= i < |items| ==> Due(items, spent, w, after, i))
    && (answer.Some? ==> (answer.value <==> short || exists i :: 0 <= i < |items| && CutShort(after[i], w)))
    && (answer.None? <==> exists i :: 0 <= i < |items| && FailsAt(items, spent, w, after, i))
  }

  predicate CutShort(item: Item, w: Workspace)
  {
    Needs(item.record)
    && (!Readable(item.record.path, w) || item.identity.None? || item.identity.value.hashTruncated)
  }

  predicate Due(items: seq<Item>, spent: nat, w: Workspace, after: seq<Item>, i: nat)
    requires i < |items| == |after|
  {
    after[i] == if !Needs(items[i].record) then items[i]
                else Item(items[i].record, IdentityDue(items[i].record.path, spent + Charged(after[..i], w), w))
  }

  predicate Given(items: seq<Item>, spent: nat, w: Workspace, after: seq<Item>, i: nat)
    requires i < |items| == |after|
  {
    Due(items, spent, w, after, i) && (Needs(items[i].record) ==> after[i].identity.Some?)
  }

  /** The items before `i` are done, its own identity cannot be had, and nothing is changed from there on. */
  ghost predicate FailsAt(items: seq<Item>, spent: nat, w: Workspace, after: seq<Item>, i: nat)
    requires i < |items| == |after|
  {
    && (forall j :: 0 <= j < i ==> Given(items, spent, w, after, j))
    && Needs(items[i].record) && IdentityDue(items[i].record.path, spent + Charged(after[..i], w), w).None?
    && after[i..] == items[i..]
  }

  lemma {:induction false} DueCons(items: seq<Item>, spent: nat, w: Workspace, after: seq<Item>, i: nat)
    requires 0 < i < |items| == |after|
    ensures var spent' := spent + Charge(after[0], w);
            && (Due(items, spent, w, after, i) <==> Due(items[1..], spent', w, after[1..], i - 1))
            && spent + Charged(after[..i], w) == spent' + Charged(after[1..][..i - 1], w)
  {
    assert after[..i][0] == after[0] && after[..i][1..] == after[1..][..i - 1];
    hide Needs, IdentityDue, Charge;
  }

  lemma {:induction false} FailsCons(items: seq<Item>, spent: nat, w: Workspace, after: seq<Item>, i: nat)
    requires 0 < i < |items| == |after|
    requires Given(items, spent, w, after, 0)
    ensures FailsAt(items, spent, w, after, i)
       <==> FailsAt(items[1..], spent + Charge(after[0], w), w, after[1..], i - 1)
  {
    var spent' := spent + Charge(after[0], w);
    forall j | 0 < j <= i { DueCons(items, spent, w, after, j); }
    assert forall j :: 0 < j < |items| ==> items[j] == items[1..][j - 1] && after[j] == after[1..][j - 1];
    assert after[1..][i - 1..] == after[i..] && items[1..][i - 1..] == items[i..];
    if FailsAt(items[1..], spent', w, after[1..], i - 1) {
      forall j | 0 <= j < i ensures Given(items, spent, w, after, j) {
        if j > 0 { assert Given(items[1..], spent', w, after[1..], j - 1); }
      }
    }
    if FailsAt(items, spent, w, after, i) {
      forall j | 0 <= j < i - 1 ensures Given(items[1..], spent', w, after[1..], j) {
        assert Given(items, spent, w, after, j + 1);
      }
    }
    hide Needs, IdentityDue, Charge, Due, Charged;
  }

  lemma {:induction false} NothingAttached(spent: nat, short: bool, w: Workspace)
    ensures AttachedFrom([], spent, short, w, [], Some(short))
  {
  }

  /** An item that needs nothing, or got its identity, before the rest. */
  lemma {:induction false} AttachedCons(items: seq<Item>, spent: nat, short: bool, w: Workspace, after: seq<Item>,
                                        answer: Option<bool>)
    requires items != [] && |after| == |items|
    requires Given(items, spent, w, after, 0)
    requires AttachedFrom(items[1..], spent + Charge(after[0], w), short || CutShort(after[0], w), w, after[1..],
                          answer)
    ensures AttachedFrom(items, spent, short, w, after, answer)
  {
    var spent' := spent + Charge(after[0], w);
    hide Needs, IdentityDue, Charge, Due, Charged, CutShort, FailsAt;
    forall i | 0 < i < |items|
      ensures Due(items, spent, w, after, i) <==> Due(items[1..], spent', w, after[1..], i - 1)
      ensures FailsAt(items, spent, w, after, i) <==> FailsAt(items[1..], spent', w, after[1..], i - 1)
    {
      DueCons(items, spent, w, after, i);
      FailsCons(items, spent, w, after, i);
    }
    assert forall i :: 0 < i < |items| ==> after[i] == after[1..][i - 1];
    NotFirst(items, spent, w, after);
    if answer == Some(true) && !short && !CutShort(after[0], w) {
      var i :| 0 <= i < |items[1..]| && CutShort(after[1..][i], w);
      assert CutShort(after[i + 1], w);
    }
    if answer.None? {
      var i :| 0 <= i < |items[1..]| && FailsAt(items[1..], spent', w, after[1..], i);
      assert FailsAt(items, spent, w, after, i + 1);
    }
  }

  lemma {:induction false} NotFirst(items: seq<Item>, spent: nat, w: Workspace, after: seq<Item>)
    requires items != [] && |after| == |items|
    requires Given(items, spent, w, after, 0)
    ensures !FailsAt(items, spent, w, after, 0)
  {
    hide Needs, IdentityDue, Charge;
  }

  /**
   The loop for any items and workspace: each record that needs an identity gets the one due to it, the others keep
   theirs; the answer is whether one of them was cut short; and it fails exactly where an identity cannot be had.
   */
  lemma {:induction false} AttachedExactly(items: seq<Item>, spent: nat, short: bool, w: Workspace)
    ensures var (after, _, answer) := AttachAll(items, Min(spent, U64_MAX), short, w);
            AttachedFrom(items, spent, short, w, after, answer)
    decreases |items|
  {
    var hashed: u64 := Min(spent, U64_MAX);
    var (after, _, answer) := AttachAll(items, hashed, short, w);
    hide AttachedFrom;
    if items == [] {
      NothingAttached(spent, short, w);
    } else if !Needs(items[0].record) {
      AttachedExactly(items[1..], spent, short, w);
      assert after[1..] == AttachAll(items[1..], hashed, short, w).0;
      AttachedCons(items, spent, short, w, after, answer);
    } else {
      AttachGives(items[0], hashed, spent, w);
      var a := Attach(items[0].record.path, hashed, w);
      if a.None? {
        FailsNow(items, spent, short, w);
      } else {
        var spent' := spent + Charge(after[0], w);
        AttachedExactly(items[1..], spent', short || a.value.short, w);
        assert after[1..] == AttachAll(items[1..], SatAdd(hashed, a.value.hashed), short || a.value.short, w).0;
        AttachedCons(items, spent, short, w, after, answer);
      }
    }
  }

  lemma {:induction false} FailsNow(items: seq<Item>, spent: nat, short: bool, w: Workspace)
    requires items != [] && Needs(items[0].record) && IdentityDue(items[0].record.path, spent, w).None?
    ensures AttachedFrom(items, spent, short, w, items, None)
  {
    assert items[..0] == [];
    assert FailsAt(items, spent, w, items, 0);
    hide Needs, IdentityDue, Charge;
  }
}
