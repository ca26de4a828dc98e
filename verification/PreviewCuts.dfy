/** Exactly when completion leaves a preview as it was, for reads of any length. */
module PreviewCuts {
  import opened Bytes
  import opened Utf8
  import opened SpoolWriter
  import opened LivePreview

  // ------------------------------------------------------------ texts of replacement characters

  function Replacements(n: nat): (t: bytes)
    ensures |t| == 3 * n
  {
    if n == 0 then [] else Replacement + Replacements(n - 1)
  }

  /** What the conversion shows for the front piece. */
  function Front(s: bytes): (t: bytes)
    requires s != []
    ensures 1 <= |t| <= 4
  {
    if StepAt(s).Char? then s[..PieceAt(s)] else Replacement
  }

  /** A string every piece of which is shown as a replacement character. */
  predicate OnlyReplaced(s: bytes)
  {
    s == [] || (Front(s) == Replacement && OnlyReplaced(s[PieceAt(s)..]))
  }

  lemma {:induction false} ReplacementsJoin(a: nat, b: nat)
    ensures Replacements(a) + Replacements(b) == Replacements(a + b)
    decreases a
  {
    if a == 0 {
      assert [] + Replacements(b) == Replacements(b);
    } else {
      ReplacementsJoin(a - 1, b);
      Associates(Replacement, Replacements(a - 1), Replacements(b));
    }
  }

  lemma {:induction false} OneReplacement()
    ensures Replacements(1) == Replacement
  {
    assert Replacement + [] == Replacement;
  }

  lemma {:induction false} ReplacementsMore(a: nat, b: nat, e: bytes)
    ensures Replacements(a) + (Replacements(b) + e) == Replacements(a + b) + e
  {
    ReplacementsJoin(a, b);
    hide Replacements;
    Associates(Replacements(a), Replacements(b), e);
  }

  /** A text that starts with a replacement character has one in front. */
  lemma {:induction false} FrontIsReplacement(s: bytes, n: nat, e: bytes)
    requires s != [] && n > 0 && Replacements(n) + e == Lossy(s)
    ensures Front(s) == Replacement && Replacements(n - 1) + e == Lossy(s[PieceAt(s)..])
  {
    LossyPiece(s);
    ThreeBytes(s);
    hide Lossy, StepAt, PieceAt;
    Associates(Replacement, Replacements(n - 1), e);
    SameHead(Front(s), Lossy(s[PieceAt(s)..]), Replacements(n - 1) + e);
  }

  lemma {:induction false} ThreeBytes(s: bytes)
    requires s != []
    ensures Front(s)[0] == Replacement[0] ==> |Front(s)| == 3
  {
  }

  lemma {:induction false} SameHead(front: bytes, rest: bytes, more: bytes)
    requires front != [] && (front[0] == Replacement[0] ==> |front| == 3)
    requires Replacement + more == front + rest
    ensures front == Replacement && rest == more
  {
    assert (front + rest)[0] == front[0] && (Replacement + more)[0] == Replacement[0];
    assert (front + rest)[..3] == front && (Replacement + more)[..3] == Replacement;
    assert (front + rest)[3..] == rest && (Replacement + more)[3..] == more;
  }

  lemma {:induction false} NothingShown(s: bytes)
    requires Lossy(s) == []
    ensures s == []
  {
    LossyNeverShrinks(s);
  }

  // ------------------------------------------------------------ the chunks, piece by piece

  /** The chunks without their first `n` bytes. */
  function Drop(chunks: seq<bytes>, n: nat): seq<bytes>
    decreases |chunks|
  {
    if chunks == [] then []
    else if n <= |chunks[0]| then [chunks[0][n..]] + chunks[1..]
    else Drop(chunks[1..], n - |chunks[0]|)
  }

  /** The first `n` bytes are in one chunk. */
  predicate Intact(chunks: seq<bytes>, n: nat)
    decreases |chunks|
  {
    chunks != [] && if chunks[0] == [] then Intact(chunks[1..], n) else n <= |chunks[0]|
  }

  lemma {:induction false} DropConcat(chunks: seq<bytes>, n: nat)
    requires n <= |Concat(chunks)|
    ensures Concat(Drop(chunks, n)) == Concat(chunks)[n..]
    decreases |chunks|
  {
    if chunks == [] {
    } else {
      ConcatParts(chunks);
      if n <= |chunks[0]| {
        ConcatParts([chunks[0][n..]] + chunks[1..]);
      } else {
        DropConcat(chunks[1..], n - |chunks[0]|);
        assert Concat(chunks)[n..] == Concat(chunks[1..])[n - |chunks[0]|..];
      }
    }
  }

  lemma {:induction false} NothingConverted(chunks: seq<bytes>)
    requires Concat(chunks) == []
    ensures EachLossy(chunks) == []
    decreases |chunks|
  {
    if chunks != [] { NothingConverted(chunks[1..]); }
  }

  lemma {:induction false} InRest(s: bytes, chunks: seq<bytes>, j: nat)
    requires chunks != [] && Concat(chunks) <= s && |chunks[0]| + j <= |Concat(chunks)|
    ensures |Concat(chunks[1..])| == |Concat(chunks)| - |chunks[0]|
    ensures forall i :: 0 <= i < j ==> Concat(chunks[1..])[i] == s[|chunks[0]| + i]
  {
    ConcatParts(chunks);
    hide Concat;
    forall i | 0 <= i < j ensures Concat(chunks[1..])[i] == s[|chunks[0]| + i] {
      assert Concat(chunks[1..])[i] == Concat(chunks)[|chunks[0]| + i];
    }
  }

  /** Leftover continuation bytes are shown one by one, wherever the chunks end. */
  lemma {:induction false} Leftovers(chunks: seq<bytes>, m: nat)
    requires m <= |Concat(chunks)| && forall i :: 0 <= i < m ==> Continuation(Concat(chunks)[i])
    ensures EachLossy(chunks) == Replacements(m) + EachLossy(Drop(chunks, m))
    decreases |chunks|
  {
    hide Lossy, EachLossy, Concat, Drop, Replacements, Continuation;
    if chunks == [] {
      NoLeftovers(m);
    } else {
      var c, rest := chunks[0], chunks[1..];
      var j := Min(m, |c|);
      ConcatParts(chunks);
      assert forall i :: 0 <= i < j ==> c[i] == Concat(chunks)[i];
      ContinuationsShown(c, j);
      if m > |c| {
        InRest(Concat(chunks), chunks, m - j);
        Leftovers(rest, m - j);
      }
      LeftoversJoin(chunks, m);
    }
  }

  lemma {:induction false} NoLeftovers(m: nat)
    ensures Concat([]) == [] && Drop([], m) == []
    ensures Replacements(0) + EachLossy([]) == EachLossy([])
  {
  }

  /** The leftovers of the first chunk and those of the others. */
  lemma {:induction false} LeftoversJoin(chunks: seq<bytes>, m: nat)
    requires chunks != []
    requires var j := Min(m, |chunks[0]|); Lossy(chunks[0]) == Replacements(j) + Lossy(chunks[0][j..])
    requires m > |chunks[0]| ==>
               EachLossy(chunks[1..])
               == Replacements(m - |chunks[0]|) + EachLossy(Drop(chunks[1..], m - |chunks[0]|))
    ensures EachLossy(chunks) == Replacements(m) + EachLossy(Drop(chunks, m))
  {
    var c, rest := chunks[0], chunks[1..];
    EmptyIsValid();
    assert c[|c|..] == [] && chunks == [c] + rest;
    EachHead(c, rest);
    if m <= |c| {
      assert Drop(chunks, m) == [c[m..]] + rest;
      hide *;
      EachHead(c[m..], rest);
      Associates(Replacements(m), Lossy(c[m..]), EachLossy(rest));
    } else {
      assert Drop(chunks, m) == Drop(rest, m - |c|);
      hide *;
      assert Replacements(|c|) + [] == Replacements(|c|);
      Associates(Replacements(|c|), Replacements(m - |c|), EachLossy(Drop(rest, m - |c|)));
      ReplacementsJoin(|c|, m - |c|);
    }
  }

  lemma {:induction false} ContinuationsShown(s: bytes, m: nat)
    requires m <= |s| && forall i :: 0 <= i < m ==> Continuation(s[i])
    ensures Lossy(s) == Replacements(m) + Lossy(s[m..])
    decreases m
  {
    if m == 0 {
      assert s[0..] == s && [] + Lossy(s) == Lossy(s);
    } else {
      assert StepAt(s) == Invalid(1);
      assert Lossy(s) == Replacement + Lossy(s[1..]);
      hide Lossy, StepAt;
      assert s[1..][m - 1..] == s[m..];
      ContinuationsShown(s[1..], m - 1);
      Associates(Replacement, Replacements(m - 1), Lossy(s[m..]));
    }
  }

  /** A front piece within one chunk is shown as in the whole. */
  lemma {:induction false} IntactPiece(s: bytes, chunks: seq<bytes>)
    requires s != [] && Concat(chunks) <= s && Intact(chunks, PieceAt(s))
    ensures PieceAt(s) <= |Concat(chunks)|
    ensures EachLossy(chunks) == Front(s) + EachLossy(Drop(chunks, PieceAt(s)))
    decreases |chunks|
  {
    var c, n := chunks[0], PieceAt(s);
    ConcatParts(chunks);
    if c == [] {
      IntactPiece(s, chunks[1..]);
      EmptyHead(chunks, n);
      hide Lossy, EachLossy, Drop, Concat;
    } else {
      assert s[..|c|] == c;
      WholePiece(s, |c|);
      hide Lossy, PieceAt, StepAt, Concat;
      assert s[n..|c|] == c[n..];
      EachHead(c[n..], chunks[1..]);
      Associates(Front(s), Lossy(c[n..]), EachLossy(chunks[1..]));
    }
  }

  /** The length of the first chunk that holds anything. */
  function FirstLength(chunks: seq<bytes>): nat
    decreases |chunks|
  {
    if chunks == [] then 0 else if chunks[0] == [] then FirstLength(chunks[1..]) else |chunks[0]|
  }

  /**
   How many replacements the first `m` bytes show when the first chunk ends inside a piece: it, and each byte after.
   */
  function SplitParts(chunks: seq<bytes>, m: nat): nat
  {
    if FirstLength(chunks) <= m then 1 + m - FirstLength(chunks) else 0
  }

  /** A split one as replacements: more than one, unless the chunks end inside it. */
  lemma {:induction false} SplitPiece(s: bytes, chunks: seq<bytes>) returns (k: nat)
    requires s != [] && Concat(chunks) <= s && Concat(chunks) != [] && !Intact(chunks, PieceAt(s))
    ensures k == SplitParts(chunks, Min(PieceAt(s), |Concat(chunks)|)) > 0
    ensures EachLossy(chunks) == Replacements(k) + EachLossy(Drop(chunks, Min(PieceAt(s), |Concat(chunks)|)))
    ensures k == 1 ==> |Concat(chunks)| <= PieceAt(s)
    decreases |chunks|
  {
    hide Lossy, EachLossy, PieceAt, StepAt, Drop, Replacements, Continuation;
    var c, rest := chunks[0], chunks[1..];
    var m := Min(PieceAt(s), |Concat(chunks)|);
    ConcatParts(chunks);
    hide Concat;
    if c == [] {
      k := SplitPiece(s, rest);
      EmptyHead(chunks, m);
    } else {
      var j := m - |c|;
      k := 1 + j;
      assert s[..|c|] == c && chunks == [c] + rest;
      CutPiece(s, |c|);
      ContinuationsInside(s);
      InRest(s, chunks, j);
      Leftovers(rest, j);
      EachHead(c, rest);
      DropMore(chunks, m);
      OneReplacement();
      ReplacementsMore(1, j, EachLossy(Drop(rest, j)));
    }
  }

  lemma {:induction false} ContinuationsInside(s: bytes)
    requires s != []
    ensures forall i :: 1 <= i < PieceAt(s) ==> Continuation(s[i])
  {
  }

  lemma {:induction false} EmptyHead(chunks: seq<bytes>, m: nat)
    requires chunks != [] && chunks[0] == []
    ensures EachLossy(chunks) == EachLossy(chunks[1..])
    ensures EachLossy(Drop(chunks, m)) == EachLossy(Drop(chunks[1..], m))
  {
    EmptyIsValid();
    assert [] + EachLossy(chunks[1..]) == EachLossy(chunks[1..]);
    if m == 0 { DropNothing(chunks); DropNothing(chunks[1..]); }
  }

  lemma {:induction false} DropNothing(chunks: seq<bytes>)
    ensures Drop(chunks, 0) == chunks
  {
    if chunks != [] { assert chunks[0][0..] == chunks[0] && [chunks[0]] + chunks[1..] == chunks; }
  }

  lemma {:induction false} DropMore(chunks: seq<bytes>, m: nat)
    requires chunks != [] && m >= |chunks[0]|
    ensures EachLossy(Drop(chunks, m)) == EachLossy(Drop(chunks[1..], m - |chunks[0]|))
  {
    if m == |chunks[0]| {
      assert chunks[0][m..] == [];
      EachHead([], chunks[1..]);
      EmptyIsValid();
      assert [] + EachLossy(chunks[1..]) == EachLossy(chunks[1..]);
      DropNothing(chunks[1..]);
    }
  }

  lemma {:induction false} DroppedIsRest(s: bytes, chunks: seq<bytes>)
    requires s != [] && Concat(chunks) <= s
    ensures var n := Min(PieceAt(s), |Concat(chunks)|);
            Concat(Drop(chunks, n)) == Concat(chunks)[n..] && Concat(Drop(chunks, n)) <= s[PieceAt(s)..]
  {
    DropConcat(chunks, Min(PieceAt(s), |Concat(chunks)|));
    hide Drop, Concat;
  }

  // ------------------------------------------------------------ when a cut makes no difference

  /** Once the chunks' text is behind by a replacement it can only catch up where nothing else is shown. */
  lemma {:induction false} OnlyThenCatchesUp(s: bytes, n: nat, chunks: seq<bytes>)
    requires n > 0 && Concat(chunks) <= s && Replacements(n) + EachLossy(chunks) == Lossy(s)
    ensures OnlyReplaced(s)
    decreases |s|
  {
    hide Lossy, EachLossy, Concat, PieceAt, Front, Intact, Drop, Replacements;
    EmptyIsValid();
    assert |Replacements(n) + EachLossy(chunks)| > 0;
    FrontIsReplacement(s, n, EachLossy(chunks));
    DroppedIsRest(s, chunks);
    var rest, left := s[PieceAt(s)..], Drop(chunks, Min(PieceAt(s), |Concat(chunks)|));
    if Concat(chunks) == [] {
      NothingConverted(chunks);
      if n > 1 { OnlyThenCatchesUp(rest, n - 1, chunks); } else { NothingShown(rest); }
    } else if Intact(chunks, PieceAt(s)) {
      IntactPiece(s, chunks);
      OneReplacement();
      ReplacementsMore(n - 1, 1, EachLossy(left));
      OnlyThenCatchesUp(rest, n, left);
    } else {
      var k := SplitPiece(s, chunks);
      ReplacementsMore(n - 1, k, EachLossy(left));
      OnlyThenCatchesUp(rest, n - 1 + k, left);
    }
  }

  /** How many pieces a string has. */
  function Pieces(s: bytes): nat { if s == [] then 0 else 1 + Pieces(s[PieceAt(s)..]) }

  /** How many parts the chunks make of the pieces: one of each they hold whole, more of one they split. */
  function Parts(s: bytes, chunks: seq<bytes>): nat
    decreases |s|
  {
    if s == [] || Concat(chunks) == [] then 0
    else
      var m := Min(PieceAt(s), |Concat(chunks)|);
      (if Intact(chunks, PieceAt(s)) then 1 else SplitParts(chunks, m)) + Parts(s[PieceAt(s)..], Drop(chunks, m))
  }

  /** Where only replacements are shown, each part of a piece shows one. */
  lemma {:induction false} EachPartShown(s: bytes, chunks: seq<bytes>)
    requires OnlyReplaced(s) && Concat(chunks) <= s
    ensures EachLossy(chunks) == Replacements(Parts(s, chunks))
    decreases |s|
  {
    hide Lossy, EachLossy, Concat, PieceAt, Front, Intact, Drop, Replacements, SplitParts;
    if Concat(chunks) == [] {
      NothingConverted(chunks);
      NoReplacements();
    } else {
      var left := Drop(chunks, Min(PieceAt(s), |Concat(chunks)|));
      DroppedIsRest(s, chunks);
      EachPartShown(s[PieceAt(s)..], left);
      var more := Parts(s[PieceAt(s)..], left);
      if Intact(chunks, PieceAt(s)) {
        IntactPiece(s, chunks);
        OneReplacement();
        ReplacementsJoin(1, more);
      } else {
        var first := SplitPiece(s, chunks);
        ReplacementsJoin(first, more);
      }
    }
  }

  lemma {:induction false} NoReplacements()
    ensures Replacements(0) == []
  {
  }

  lemma {:induction false} EachPieceShown(s: bytes)
    requires OnlyReplaced(s)
    ensures Lossy(s) == Replacements(Pieces(s))
    decreases |s|
  {
    hide Lossy, PieceAt, Front, Replacements;
    if s == [] {
      NoReplacements();
      EmptyIsValid();
    } else {
      EachPieceShown(s[PieceAt(s)..]);
      FrontOfLossy(s);
      OneReplacement();
      ReplacementsJoin(1, Pieces(s[PieceAt(s)..]));
    }
  }

  lemma {:induction false} FrontOfLossy(s: bytes)
    requires s != []
    ensures Lossy(s) == Front(s) + Lossy(s[PieceAt(s)..])
  {
    LossyPiece(s);
    hide Lossy, PieceAt;
  }

  /** Where the first piece starts that the chunks split or end inside; the end of `s` when there is none. */
  function FirstSplit(s: bytes, chunks: seq<bytes>): (i: nat)
    ensures i <= |s|
    decreases |s|
  {
    if s == [] || Concat(chunks) == [] then |s|
    else if !Intact(chunks, PieceAt(s)) then 0
    else PieceAt(s) + FirstSplit(s[PieceAt(s)..], Drop(chunks, PieceAt(s)))
  }

  /**
   Chunks of a beginning of `s`, converted one by one, give the conversion of `s` exactly when they make as many parts
   as it has pieces and nothing but replacement characters is shown from the first piece on that they split.
   */
  lemma {:induction false} ChunksShowExactly(s: bytes, chunks: seq<bytes>)
    requires Concat(chunks) <= s
    ensures EachLossy(chunks) == Lossy(s)
            <==> Parts(s, chunks) == Pieces(s) && OnlyReplaced(s[FirstSplit(s, chunks)..])
    decreases |s|
  {
    hide Lossy, EachLossy, Concat, PieceAt, Front, Intact, Drop, Replacements, OnlyReplaced;
    NothingReplaced(s);
    if Concat(chunks) == [] {
      NothingConverted(chunks);
      LossyNeverShrinks(s);
      assert s[|s|..] == [];
      EmptyIsValid();
    } else if Intact(chunks, PieceAt(s)) {
      var n := PieceAt(s);
      IntactPiece(s, chunks);
      DroppedIsRest(s, chunks);
      ChunksShowExactly(s[n..], Drop(chunks, n));
      FrontOfLossy(s);
      assert s[n..][FirstSplit(s[n..], Drop(chunks, n))..] == s[FirstSplit(s, chunks)..];
      SameAfter(Front(s), EachLossy(Drop(chunks, n)), Lossy(s[n..]));
    } else {
      assert s[0..] == s;
      SplitShowsExactly(s, chunks);
    }
  }

  lemma {:induction false} NothingReplaced(s: bytes)
    ensures OnlyReplaced([])
  {
  }

  lemma {:induction false} SameAfter(head: bytes, a: bytes, b: bytes)
    ensures head + a == head + b <==> a == b
  {
    assert (head + a)[|head|..] == a && (head + b)[|head|..] == b;
  }

  lemma {:induction false} SplitShowsExactly(s: bytes, chunks: seq<bytes>)
    requires s != [] && Concat(chunks) <= s && Concat(chunks) != [] && !Intact(chunks, PieceAt(s))
    ensures EachLossy(chunks) == Lossy(s) <==> Parts(s, chunks) == Pieces(s) && OnlyReplaced(s)
  {
    hide Lossy, EachLossy, Concat, PieceAt, Front, Intact, Drop, Replacements, Parts, Pieces;
    if EachLossy(chunks) == Lossy(s) {
      var left := Drop(chunks, Min(PieceAt(s), |Concat(chunks)|));
      var k := SplitPiece(s, chunks);
      DroppedIsRest(s, chunks);
      FrontIsReplacement(s, k, EachLossy(left));
      if k > 1 {
        OnlyThenCatchesUp(s[PieceAt(s)..], k - 1, left);
      } else {
        NothingConverted(left);
        NothingShown(s[PieceAt(s)..]);
      }
    }
    if OnlyReplaced(s) {
      EachPartShown(s, chunks);
      EachPieceShown(s);
    }
  }

  // ------------------------------------------------------------ the exact condition

  /** Completion will find the preview as it is. */
  predicate Stays(chunks: seq<bytes>)
  {
    var all := Concat(chunks);
    if |all| <= PREVIEW_MAX_BYTES then Aligned(chunks) && Fits(chunks, 0)
    else
      var taken, shown := Taken(chunks, 0), all[..PREVIEW_MAX_BYTES];
      Parts(shown, taken) == Pieces(shown) && OnlyReplaced(shown[FirstSplit(shown, taken)..])
  }

  /**
   For every chunk sequence: completion changes neither text nor flag exactly when, of output no longer than a
   preview, no chunk splits a piece and each fits the room left; and of longer output, the chunks taken live make as
   many parts as what was captured has pieces and only replacement characters are shown from the first piece on that
   was split.
   */
  lemma {:induction false} CompletionExactly(chunks: seq<bytes>)
    ensures LiveAll(Nothing, chunks) == LivePreview.Completed(RawAll(Nothing, chunks)) <==> Stays(chunks)
  {
    var all, taken := Concat(chunks), Taken(chunks, 0);
    if |all| <= PREVIEW_MAX_BYTES {
      ShortOutputExactly(chunks);
      hide LiveAll, RawAll, LivePreview.Completed, Aligned, Fits;
    } else {
      LongOutputExactly(chunks);
      Both(chunks);
      TakenIsBeginning(chunks, 0);
      hide LiveAll, RawAll, LivePreview.Completed, Taken, EachLossy, Lossy, Concat, OnlyReplaced;
      hide FirstSplit, Parts, Pieces;
      assert Concat(taken) <= all[..PREVIEW_MAX_BYTES];
      ChunksShowExactly(all[..PREVIEW_MAX_BYTES], taken);
    }
  }
}
