/** The live preview of a running process against the preview its completion reports. */
module LivePreview {
  import opened Bytes
  import opened Utf8
  import opened SpoolWriter
  import Capture

  const PREVIEW_MAX_BYTES: nat := Capture.PREVIEW_MAX_BYTES

  datatype Shown = Shown(text: bytes, truncated: bool)

  const Nothing := Shown([], false)

  /** `append_live_preview`: what fits the text's byte length is appended, lossily decoded on its own. */
  function AppendLive(s: Shown, chunk: bytes): Shown
  {
    var accepted := Min(SatSub(PREVIEW_MAX_BYTES, |s.text|), |chunk|);
    Shown(s.text + Lossy(chunk[..accepted]), s.truncated || accepted < |chunk|)
  }

  function LiveAll(s: Shown, chunks: seq<bytes>): Shown
    decreases |chunks|
  {
    if chunks == [] then s else LiveAll(AppendLive(s, chunks[0]), chunks[1..])
  }

  /** `append_preview`: the raw bytes that fit. */
  function AppendRaw(s: Shown, chunk: bytes): Shown
  {
    var (text, truncated) := Capture.Preview(s.text, s.truncated, chunk, PREVIEW_MAX_BYTES);
    Shown(text, truncated)
  }

  function RawAll(s: Shown, chunks: seq<bytes>): Shown
    decreases |chunks|
  {
    if chunks == [] then s else RawAll(AppendRaw(s, chunks[0]), chunks[1..])
  }

  /** What completion puts in the record. */
  function Completed(raw: Shown): Shown { Shown(Lossy(raw.text), raw.truncated) }

  /** A replacement character can triple a byte, and nothing is appended past the limit. */
  lemma {:induction false} LiveBound(s: Shown, chunks: seq<bytes>)
    requires |s.text| <= 3 * PREVIEW_MAX_BYTES
    ensures |LiveAll(s, chunks).text| <= 3 * PREVIEW_MAX_BYTES
    decreases |chunks|
  {
    if chunks != [] { LiveBound(AppendLive(s, chunks[0]), chunks[1..]); }
  }

  // ------------------------------------------------------------ what the live preview takes

  /** The part of each chunk the live preview takes, once `n` bytes of text are shown. */
  function Taken(chunks: seq<bytes>, n: nat): seq<bytes>
    decreases |chunks|
  {
    if chunks == [] then []
    else
      var piece := chunks[0][..Min(SatSub(PREVIEW_MAX_BYTES, n), |chunks[0]|)];
      [piece] + Taken(chunks[1..], n + |Lossy(piece)|)
  }

  /** Every chunk fits the room the text before it leaves. */
  predicate Fits(chunks: seq<bytes>, n: nat)
    decreases |chunks|
  {
    chunks == [] || (|chunks[0]| <= SatSub(PREVIEW_MAX_BYTES, n) && Fits(chunks[1..], n + |Lossy(chunks[0])|))
  }

  /** Every chunk ends where one of the pieces of the whole output ends: no character and no invalid piece is split. */
  predicate Aligned(chunks: seq<bytes>)
    decreases |chunks|
  {
    chunks == [] || (HeadAligned(chunks) && Aligned(chunks[1..]))
  }

  predicate HeadAligned(chunks: seq<bytes>)
    requires chunks != []
  {
    assert |Concat(chunks)| == |chunks[0]| + |Concat(chunks[1..])|;
    Boundary(Concat(chunks), |chunks[0]|)
  }

  /** Each chunk converted on its own. */
  function EachLossy(chunks: seq<bytes>): bytes
    decreases |chunks|
  {
    if chunks == [] then [] else Lossy(chunks[0]) + EachLossy(chunks[1..])
  }

  lemma {:induction false} LiveIsTaken(s: Shown, chunks: seq<bytes>)
    ensures var taken := Taken(chunks, |s.text|);
            LiveAll(s, chunks) == Shown(s.text + EachLossy(taken), s.truncated || taken != chunks)
    decreases |chunks|
  {
    if chunks == [] {
      assert s.text + [] == s.text;
    } else {
      var n := Min(SatSub(PREVIEW_MAX_BYTES, |s.text|), |chunks[0]|);
      var piece := chunks[0][..n];
      var rest := Taken(chunks[1..], |s.text| + |Lossy(piece)|);
      LiveIsTaken(AppendLive(s, chunks[0]), chunks[1..]);
      PieceIsWhole(chunks[0], n);
      ConsSame(piece, rest, chunks);
      EachHead(piece, rest);
      Associates(s.text, Lossy(piece), EachLossy(rest));
      assert Taken(chunks, |s.text|) == [piece] + rest;
      assert LiveAll(s, chunks) == LiveAll(AppendLive(s, chunks[0]), chunks[1..]);
      hide Lossy, EachLossy, LiveAll, Taken;
    }
  }

  lemma {:induction false} EachHead(piece: bytes, rest: seq<bytes>)
    ensures EachLossy([piece] + rest) == Lossy(piece) + EachLossy(rest)
  {
    assert ([piece] + rest)[0] == piece && ([piece] + rest)[1..] == rest;
  }

  lemma {:induction false} Associates(a: bytes, b: bytes, c: bytes)
    ensures a + (b + c) == (a + b) + c
  {
  }

  lemma {:induction false} PieceIsWhole(chunk: bytes, n: nat)
    requires n <= |chunk|
    ensures chunk[..n] == chunk <==> n == |chunk|
  {
  }

  lemma {:induction false} ConsSame(piece: bytes, rest: seq<bytes>, chunks: seq<bytes>)
    requires chunks != []
    ensures [piece] + rest == chunks <==> piece == chunks[0] && rest == chunks[1..]
  {
    assert chunks == [chunks[0]] + chunks[1..];
    if [piece] + rest == chunks {
      assert ([piece] + rest)[0] == piece && ([piece] + rest)[1..] == rest;
    }
  }

  lemma {:induction false} TakenHead(chunks: seq<bytes>, n: nat, m: nat)
    requires chunks != [] && m == Min(SatSub(PREVIEW_MAX_BYTES, n), |chunks[0]|)
    ensures Taken(chunks, n) == [chunks[0][..m]] + Taken(chunks[1..], n + |Lossy(chunks[0][..m])|)
    ensures |Concat(chunks)| == |chunks[0]| + |Concat(chunks[1..])|
  {
  }

  lemma {:induction false} NothingTaken(n: nat)
    ensures Taken([], n) == [] && Aligned([]) && Concat([]) == []
  {
  }

  /** What is taken is a beginning of the output, and never more than the room. */
  lemma {:induction false} TakenIsBeginning(chunks: seq<bytes>, n: nat)
    ensures Concat(Taken(chunks, n)) <= Concat(chunks)
    ensures |Concat(Taken(chunks, n))| <= SatSub(PREVIEW_MAX_BYTES, n)
    decreases |chunks|
  {
    hide Lossy, Taken, Concat;
    if chunks == [] {
      NothingTaken(n);
    } else {
      var m := Min(SatSub(PREVIEW_MAX_BYTES, n), |chunks[0]|);
      var piece := chunks[0][..m];
      var next := n + |Lossy(piece)|;
      TakenIsBeginning(chunks[1..], next);
      LossyNeverShrinks(piece);
      TakenHead(chunks, n, m);
      ConcatParts(chunks);
      ConcatParts([piece] + Taken(chunks[1..], next));
      assert ([piece] + Taken(chunks[1..], next))[1..] == Taken(chunks[1..], next);
      PrefixGrows(chunks[0], m, Concat(Taken(chunks[1..], next)), Concat(chunks[1..]));
    }
  }

  lemma {:induction false} PrefixGrows(c: bytes, m: nat, a: bytes, b: bytes)
    requires m <= |c| && a <= b && (m < |c| ==> a == [])
    ensures c[..m] + a <= c + b
  {
    if m == |c| { assert c[..m] == c; } else { assert c[..m] + [] == c[..m]; }
  }

  lemma {:induction false} FitsExactly(chunks: seq<bytes>, n: nat)
    ensures Fits(chunks, n) <==> Taken(chunks, n) == chunks
    decreases |chunks|
  {
    if chunks != [] {
      var m := Min(SatSub(PREVIEW_MAX_BYTES, n), |chunks[0]|);
      var piece := chunks[0][..m];
      PieceIsWhole(chunks[0], m);
      ConsSame(piece, Taken(chunks[1..], n + |Lossy(piece)|), chunks);
      if piece == chunks[0] { FitsExactly(chunks[1..], n + |Lossy(piece)|); }
      hide Lossy;
    }
  }

  /** Output below a third of the limit always fits, whatever it is. */
  lemma {:induction false} ShortFits(chunks: seq<bytes>, n: nat)
    requires n + 3 * |Concat(chunks)| <= PREVIEW_MAX_BYTES
    ensures Fits(chunks, n)
    decreases |chunks|
  {
    if chunks != [] { ShortFits(chunks[1..], n + |Lossy(chunks[0])|); }
  }

  /**
   Converting chunks one by one gives the conversion of the whole exactly when they are aligned, and more otherwise.
   */
  lemma {:induction false} EachJoins(chunks: seq<bytes>)
    ensures EachLossy(chunks) == Lossy(Concat(chunks)) <==> Aligned(chunks)
    ensures |EachLossy(chunks)| >= |Lossy(Concat(chunks))|
    ensures !Aligned(chunks) ==> |EachLossy(chunks)| > |Lossy(Concat(chunks))|
    decreases |chunks|
  {
    if chunks == [] {
      EmptyIsValid();
    } else {
      var all, k := Concat(chunks), |chunks[0]|;
      EachJoins(chunks[1..]);
      ConcatParts(chunks);
      LossyJoins(all, k);
      hide Lossy, Boundary;
      JoinsMore(Lossy(chunks[0]), EachLossy(chunks[1..]), Lossy(Concat(chunks[1..])), Lossy(all));
    }
  }

  lemma {:induction false} ConcatParts(chunks: seq<bytes>)
    requires chunks != []
    ensures Concat(chunks) == chunks[0] + Concat(chunks[1..])
    ensures Concat(chunks)[..|chunks[0]|] == chunks[0] && Concat(chunks)[|chunks[0]|..] == Concat(chunks[1..])
  {
  }

  /** Growing a second part can only make a joint text that was at least as long as it should be longer. */
  lemma {:induction false} JoinsMore(head: bytes, each: bytes, part: bytes, whole: bytes)
    requires |each| >= |part| && |head| + |part| >= |whole|
    requires each != part ==> |each| > |part|
    requires head + part != whole ==> |head| + |part| > |whole|
    ensures head + each == whole <==> each == part && head + part == whole
    ensures |head + each| >= |whole|
    ensures head + each != whole ==> |head + each| > |whole|
  {
  }

  lemma {:induction false} EmptyIsValid()
    ensures Valid([]) && Lossy([]) == []
  {
  }

  // ------------------------------------------------------------ what completion changes

  /** What is shown of `all`: its exact beginning. */
  function Beginning(all: bytes): Shown
  {
    Shown(all[..Min(|all|, PREVIEW_MAX_BYTES)], |all| > PREVIEW_MAX_BYTES)
  }

  lemma {:induction false} RawIsBeginning(all: bytes, chunks: seq<bytes>)
    ensures RawAll(Beginning(all), chunks) == Beginning(all + Concat(chunks))
    decreases |chunks|
  {
    if chunks == [] {
      assert all + [] == all;
    } else {
      ConcatHead(all, chunks);
      RawExtends(all, chunks[0]);
      RawIsBeginning(all + chunks[0], chunks[1..]);
    }
  }

  lemma {:induction false} RawExtends(all: bytes, chunk: bytes)
    ensures AppendRaw(Beginning(all), chunk) == Beginning(all + chunk)
  {
    var accepted := Min(PREVIEW_MAX_BYTES - Min(|all|, PREVIEW_MAX_BYTES), |chunk|);
    assert Beginning(all + chunk).text == Beginning(all).text + chunk[..accepted];
  }

  /**
   While the output is no longer than a preview, completion changes nothing exactly when no chunk splits a piece and
   every chunk fitted the room its predecessors' text had left.
   */
  lemma {:induction false} ShortOutputExactly(chunks: seq<bytes>)
    requires |Concat(chunks)| <= PREVIEW_MAX_BYTES
    ensures LiveAll(Nothing, chunks) == Completed(RawAll(Nothing, chunks)) <==> Aligned(chunks) && Fits(chunks, 0)
  {
    Both(chunks);
    FitsExactly(chunks, 0);
    EachJoins(chunks);
    assert Concat(chunks)[..|Concat(chunks)|] == Concat(chunks);
    hide Lossy, Aligned, Fits, Taken, EachLossy;
  }

  /** Below a third of the limit splitting is all that matters. */
  lemma {:induction false} SplitsExactly(chunks: seq<bytes>)
    requires 3 * |Concat(chunks)| <= PREVIEW_MAX_BYTES
    ensures LiveAll(Nothing, chunks) == Completed(RawAll(Nothing, chunks)) <==> Aligned(chunks)
  {
    ShortOutputExactly(chunks);
    ShortFits(chunks, 0);
  }

  /**
   Longer output is flagged by both. When the live preview has taken as many bytes as the captured one, completion
   changes nothing exactly when no part it took splits a piece.
   */
  lemma {:induction false} LongOutputExactly(chunks: seq<bytes>)
    requires |Concat(chunks)| > PREVIEW_MAX_BYTES
    ensures LiveAll(Nothing, chunks).truncated && Completed(RawAll(Nothing, chunks)).truncated
    ensures |Concat(Taken(chunks, 0))| == PREVIEW_MAX_BYTES ==>
              (LiveAll(Nothing, chunks) == Completed(RawAll(Nothing, chunks)) <==> Aligned(Taken(chunks, 0)))
  {
    var taken := Taken(chunks, 0);
    Both(chunks);
    TakenIsBeginning(chunks, 0);
    EachJoins(taken);
    hide *;
    if |Concat(taken)| == PREVIEW_MAX_BYTES {
      assert Concat(taken) == Concat(chunks)[..PREVIEW_MAX_BYTES];
    }
  }

  /** Both previews, from the chunks. */
  lemma {:induction false} Both(chunks: seq<bytes>)
    ensures LiveAll(Nothing, chunks) == Shown(EachLossy(Taken(chunks, 0)), Taken(chunks, 0) != chunks)
    ensures var all := Concat(chunks);
            Completed(RawAll(Nothing, chunks))
            == Shown(Lossy(all[..Min(|all|, PREVIEW_MAX_BYTES)]), |all| > PREVIEW_MAX_BYTES)
  {
    LiveIsTaken(Nothing, chunks);
    RawIsBeginning([], chunks);
    hide LiveAll, RawAll, Taken, EachLossy, Lossy;
    assert [] + Concat(chunks) == Concat(chunks);
    assert [] + EachLossy(Taken(chunks, 0)) == EachLossy(Taken(chunks, 0));
  }

  lemma {:induction false} ValidHead(a: bytes, b: bytes)
    requires Valid(a)
    ensures Boundary(a + b, |a|)
    decreases |a|
  {
    if a != [] && b != [] {
      var w := StepAt(a).width;
      StepOfExtension(a, b);
      assert (a + b)[w..] == a[w..] + b;
      ValidHead(a[w..], b);
    }
  }

  /** Once nothing fits, the parts taken are empty. */
  lemma {:induction false} NothingMore(chunks: seq<bytes>, n: nat)
    requires n >= PREVIEW_MAX_BYTES
    ensures Concat(Taken(chunks, n)) == [] && Aligned(Taken(chunks, n))
    decreases |chunks|
  {
    if chunks != [] {
      TakenHead(chunks, n, 0);
      var next := n + |Lossy(chunks[0][..0])|;
      NothingMore(chunks[1..], next);
      AlignedHead([], Taken(chunks[1..], next));
    }
  }

  lemma {:induction false} AlignedHead(piece: bytes, rest: seq<bytes>)
    requires Aligned(rest) && Boundary(piece + Concat(rest), |piece|)
    ensures Aligned([piece] + rest) && |Concat([piece] + rest)| == |piece| + |Concat(rest)|
  {
    assert ([piece] + rest)[0] == piece && ([piece] + rest)[1..] == rest;
    ConcatParts([piece] + rest);
    hide Boundary;
  }

  lemma {:induction false} ValidTaken(chunks: seq<bytes>, n: nat)
    requires forall i :: 0 <= i < |chunks| ==> Valid(chunks[i])
    ensures Aligned(Taken(chunks, n))
    ensures |Concat(Taken(chunks, n))| == Min(|Concat(chunks)|, SatSub(PREVIEW_MAX_BYTES, n))
    decreases |chunks|
  {
    hide Lossy, Valid, Aligned, Taken, Concat, Boundary;
    if chunks == [] {
      NothingTaken(n);
    } else {
      var m := Min(SatSub(PREVIEW_MAX_BYTES, n), |chunks[0]|);
      var piece := chunks[0][..m];
      var next := n + |Lossy(piece)|;
      TakenHead(chunks, n, m);
      LossyNeverShrinks(piece);
      if m == |chunks[0]| {
        assert piece == chunks[0];
        LossyExactly(piece);
        ValidTaken(chunks[1..], next);
        ValidHead(piece, Concat(Taken(chunks[1..], next)));
      } else {
        NothingMore(chunks[1..], next);
        WholeHead(piece);
      }
      AlignedHead(piece, Taken(chunks[1..], next));
    }
  }

  lemma {:induction false} WholeHead(piece: bytes)
    ensures Boundary(piece + [], |piece|)
  {
  }

  /** Whenever every chunk is text of its own, completion changes neither the text nor the flag, at any length. */
  lemma {:induction false} CompletionChangesNothing(chunks: seq<bytes>)
    requires forall i :: 0 <= i < |chunks| ==> Valid(chunks[i])
    ensures LiveAll(Nothing, chunks) == Completed(RawAll(Nothing, chunks))
  {
    var taken := Taken(chunks, 0);
    Both(chunks);
    ValidTaken(chunks, 0);
    TakenIsBeginning(chunks, 0);
    EachJoins(taken);
    SameLengthSame(chunks);
    hide *;
    assert Concat(taken) == Concat(chunks)[..|Concat(taken)|];
  }

  /** What is taken is everything exactly when its bytes are. */
  lemma {:induction false} SameLengthSame(chunks: seq<bytes>)
    ensures Taken(chunks, 0) == chunks <==> |Concat(Taken(chunks, 0))| == |Concat(chunks)|
  {
    TakenShorter(chunks, 0);
  }

  lemma {:induction false} TakenShorter(chunks: seq<bytes>, n: nat)
    ensures |Concat(Taken(chunks, n))| <= |Concat(chunks)|
    ensures Taken(chunks, n) != chunks ==> |Concat(Taken(chunks, n))| < |Concat(chunks)|
    decreases |chunks|
  {
    if chunks != [] {
      var m := Min(SatSub(PREVIEW_MAX_BYTES, n), |chunks[0]|);
      var piece := chunks[0][..m];
      var rest := Taken(chunks[1..], n + |Lossy(piece)|);
      assert ([piece] + rest)[0] == piece && ([piece] + rest)[1..] == rest;
      TakenShorter(chunks[1..], n + |Lossy(piece)|);
      PieceIsWhole(chunks[0], m);
      ConsSame(piece, rest, chunks);
      hide Lossy;
    }
  }

  /**
   For ASCII output the live preview is, at every step, the exact beginning of the output, as completion reports it.
   */
  lemma {:induction false} AsciiIsExact(chunks: seq<bytes>)
    requires Ascii(Concat(chunks))
    ensures LiveAll(Nothing, chunks) == Beginning(Concat(chunks)) == Completed(RawAll(Nothing, chunks))
  {
    AsciiChunks(chunks);
    CompletionChangesNothing(chunks);
    RawIsBeginning([], chunks);
    assert [] + Concat(chunks) == Concat(chunks);
    AsciiIsValid(Beginning(Concat(chunks)).text);
    LossyExactly(Beginning(Concat(chunks)).text);
  }

  lemma {:induction false} AsciiChunks(chunks: seq<bytes>)
    requires Ascii(Concat(chunks))
    ensures forall i :: 0 <= i < |chunks| ==> Valid(chunks[i])
    decreases |chunks|
  {
    if chunks != [] {
      var all := Concat(chunks);
      assert forall i :: 0 <= i < |chunks[0]| ==> chunks[0][i] == all[i];
      assert forall i :: 0 <= i < |Concat(chunks[1..])| ==> Concat(chunks[1..])[i] == all[|chunks[0]| + i];
      AsciiIsValid(chunks[0]);
      AsciiChunks(chunks[1..]);
    }
  }

  /** A character split between two reads is shown as two replacements until the process completes. */
  lemma {:induction false} SplitCharacterDiffers()
    ensures var chunks := [[0xC3 as char], [0xA9 as char]];
            && LiveAll(Nothing, chunks).text == Replacement + Replacement
            && Completed(RawAll(Nothing, chunks)).text == [0xC3 as char, 0xA9 as char]
  {
    var a, b: bytes := [0xC3 as char], [0xA9 as char];
    assert [a, b][1..] == [b] && [b][1..] == [];
    assert a[..1] == a && b[..1] == b && a + b == [0xC3 as char, 0xA9 as char];
    assert StepAt(a).Incomplete? && StepAt(b) == Invalid(1) && StepAt(a + b) == Char(2);
    assert Lossy(a) == Replacement;
    assert b[1..] == [] && Lossy(b) == Replacement + Lossy([]) == Replacement;
    assert (a + b)[2..] == [] && Lossy(a + b) == (a + b)[..2] + Lossy([]) == a + b;
    assert [] + Replacement == Replacement && [] + a == a;
    assert LiveAll(Nothing, [a, b]) == LiveAll(AppendLive(Nothing, a), [b]) == AppendLive(AppendLive(Nothing, a), b);
    assert RawAll(Nothing, [a, b]) == RawAll(AppendRaw(Nothing, a), [b]) == AppendRaw(AppendRaw(Nothing, a), b);
  }

  /** A byte that starts nothing. */
  const BAD: byte := 0xFF as char

  lemma {:induction false} BadBytes(s: bytes, k: nat)
    requires (forall i :: 0 <= i < |s| ==> s[i] == BAD) && k <= |s|
    ensures |Lossy(s)| == 3 * |s| && Boundary(s, k)
    decreases |s|
  {
    if s != [] {
      assert StepAt(s) == Invalid(1);
      BadBytes(s[1..], if k == 0 then 0 else k - 1);
    }
  }

  /**
   Forty-eight KiB of bytes that are no text, in three reads: nothing is split and everything would fit, but each byte
   is shown as three, so the live preview is full after the second read and flagged at the third. Completion takes both
   back: it shows more text, and no flag.
   */
  lemma {:induction false} InvalidBytesOverflow(chunk: bytes)
    requires |chunk| == 16384 && forall i :: 0 <= i < |chunk| ==> chunk[i] == BAD
    ensures var chunks := [chunk, chunk, chunk];
            && Aligned(chunks) && !Fits(chunks, 0)
            && LiveAll(Nothing, chunks).truncated && !Completed(RawAll(Nothing, chunks)).truncated
            && |LiveAll(Nothing, chunks).text| < |Completed(RawAll(Nothing, chunks)).text|
  {
    var chunks := [chunk, chunk, chunk];
    Repeated(chunk);
    RepeatedTaken(chunk);
    hide *;
    Both(chunks);
    FitsExactly(chunks, 0);
    assert Concat(chunks)[..|Concat(chunks)|] == Concat(chunks);
  }

  lemma {:induction false} RepeatedTaken(chunk: bytes)
    requires |chunk| == 16384 && forall i :: 0 <= i < |chunk| ==> chunk[i] == BAD
    ensures var chunks := [chunk, chunk, chunk];
            Taken(chunks, 0) != chunks && |EachLossy(Taken(chunks, 0))| == 98304
  {
    var none: seq<bytes> := [[]];
    var chunks := [chunk, chunk, chunk];
    BadBytes(chunk, 0);
    EmptyIsValid();
    hide Lossy;
    assert chunk[..16384] == chunk && chunk[..0] == [];
    assert chunks[1..] == [chunk, chunk] && [chunk, chunk][1..] == [chunk] && [chunk][1..] == [];
    assert Taken([chunk], 98304) == none;
    assert Taken([chunk, chunk], 49152) == [chunk] + none;
    assert Taken(chunks, 0) == [chunk] + ([chunk] + none);
    assert ([chunk] + ([chunk] + none))[2] != chunks[2];
    EachHead(chunk, [chunk] + none);
    EachHead(chunk, none);
    assert EachLossy(none) == [];
  }

  lemma {:induction false} Repeated(chunk: bytes)
    requires |chunk| == 16384 && forall i :: 0 <= i < |chunk| ==> chunk[i] == BAD
    ensures var chunks := [chunk, chunk, chunk];
            Aligned(chunks) && |Concat(chunks)| == 49152 && |Lossy(Concat(chunks))| == 147456
  {
    var two, chunks := [chunk, chunk], [chunk, chunk, chunk];
    assert chunks[1..] == two && two[1..] == [chunk] && [chunk][1..] == [];
    assert Concat([chunk]) == chunk + [] == chunk;
    assert Concat(two) == chunk + chunk && Concat(chunks) == chunk + (chunk + chunk);
    BadBytes(Concat([chunk]), |chunk|);
    BadBytes(Concat(two), |chunk|);
    BadBytes(Concat(chunks), |chunk|);
    hide Lossy, Boundary;
    assert Aligned([chunk]) && Aligned(two);
  }
}
