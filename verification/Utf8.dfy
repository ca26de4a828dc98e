/**
 UTF-8 as the standard library checks it, against section 4 of RFC 3629.
 `StepAt` is the validator's automaton for one character; `Encode` is the code itself.
 */
module Utf8 {
  import opened Bytes

  /** What the validator finds at the front of a non-empty string. */
  datatype Step =
    | Char(width: nat)
    | Invalid(length: nat)   // `error_len() == Some(length)`
    | Incomplete             // `error_len() == None`

  predicate Continuation(b: byte) { 0x80 <= b as int <= 0xBF }

  /** The second bytes allowed after each lead byte: no overlong form, no surrogate, at most 10FFFF. */
  predicate SecondByte(lead: byte, b: byte)
  {
    var l := lead as int;
    if l == 0xE0 then 0xA0 <= b as int <= 0xBF
    else if l == 0xED then 0x80 <= b as int <= 0x9F
    else if l == 0xF0 then 0x90 <= b as int <= 0xBF
    else if l == 0xF4 then 0x80 <= b as int <= 0x8F
    else Continuation(b)
  }

  /** The width a lead byte announces, 0 for a byte that cannot start a character. */
  function Announced(lead: byte): (w: nat)
    ensures w <= 4
  {
    var l := lead as int;
    if l < 0x80 then 1
    else if 0xC2 <= l <= 0xDF then 2
    else if 0xE0 <= l <= 0xEF then 3
    else if 0xF0 <= l <= 0xF4 then 4
    else 0
  }

  function StepAt(s: bytes): (r: Step)
    requires s != []
    ensures r.Char? ==> 1 <= r.width <= 4 && r.width <= |s|
    ensures r.Invalid? ==> 1 <= r.length <= 3 && r.length <= |s|
    ensures r.Incomplete? ==> |s| <= 3
  {
    var w := Announced(s[0]);
    if w == 0 then Invalid(1)
    else if w == 1 then Char(1)
    else if |s| < 2 then Incomplete
    else if !SecondByte(s[0], s[1]) then Invalid(1)
    else if w == 2 then Char(2)
    else if |s| < 3 then Incomplete
    else if !Continuation(s[2]) then Invalid(2)
    else if w == 3 then Char(3)
    else if |s| < 4 then Incomplete
    else if !Continuation(s[3]) then Invalid(3)
    else Char(4)
  }

  /** `from_utf8(s).is_ok()`. */
  predicate Valid(s: bytes)
  {
    s == [] || (StepAt(s).Char? && Valid(s[StepAt(s).width..]))
  }

  /** `Utf8Error::valid_up_to`. */
  function ValidUpTo(s: bytes): (v: nat)
    ensures v <= |s|
  {
    if s == [] || !StepAt(s).Char? then 0
    else StepAt(s).width + ValidUpTo(s[StepAt(s).width..])
  }

  const Replacement: bytes := [0xEF as char, 0xBF as char, 0xBD as char]

  /** `String::from_utf8_lossy`: one replacement character for each maximal invalid piece. */
  function Lossy(s: bytes): (t: bytes)
    ensures |t| <= 3 * |s|
  {
    if s == [] then []
    else match StepAt(s)
      case Char(n) => s[..n] + Lossy(s[n..])
      case Invalid(n) => Replacement + Lossy(s[n..])
      case Incomplete => Replacement
  }

  // ------------------------------------------------------------ the code itself

  predicate Scalar(c: nat) { c <= 0x10FFFF && !(0xD800 <= c <= 0xDFFF) }

  function Byte(n: nat): byte
    requires n < 256
  {
    n as char
  }

  /** The table of section 3 of RFC 3629. */
  function EncodeOne(c: nat): (s: bytes)
    requires Scalar(c)
    ensures 1 <= |s| <= 4
  {
    if c < 0x80 then [Byte(c)]
    else if c < 0x800 then [Byte(0xC0 + c / 64), Byte(0x80 + c % 64)]
    else if c < 0x10000 then
      [Byte(0xE0 + c / 4096), Byte(0x80 + c / 64 % 64), Byte(0x80 + c % 64)]
    else
      [Byte(0xF0 + c / 262144), Byte(0x80 + c / 4096 % 64), Byte(0x80 + c / 64 % 64), Byte(0x80 + c % 64)]
  }

  predicate Scalars(cs: seq<nat>) { forall i :: 0 <= i < |cs| ==> Scalar(cs[i]) }

  function Encode(cs: seq<nat>): bytes
    requires Scalars(cs)
  {
    if cs == [] then [] else EncodeOne(cs[0]) + Encode(cs[1..])
  }

  /** The payload of a continuation byte. */
  function Payload(b: byte): (p: nat)
    requires Continuation(b)
    ensures p < 64
  {
    b as int - 0x80
  }

  function ScalarOfTwo(s: bytes): (c: nat)
    requires |s| == 2 && StepAt(s) == Char(2)
    ensures Scalar(c) && EncodeOne(c) == s
  {
    (s[0] as int - 0xC0) * 64 + Payload(s[1])
  }

  lemma {:induction false} SixBits(h: nat, p: nat)
    requires p < 64
    ensures (h * 64 + p) / 64 == h && (h * 64 + p) % 64 == p
  {
  }

  function ScalarOfThree(s: bytes): (c: nat)
    requires |s| == 3 && StepAt(s) == Char(3)
    ensures Scalar(c) && EncodeOne(c) == s
  {
    var a := s[0] as int - 0xE0;
    var b := a * 64 + Payload(s[1]);
    var c := b * 64 + Payload(s[2]);
    SixBits(a, Payload(s[1])); SixBits(b, Payload(s[2]));
    assert c / 4096 == a;
    c
  }

  function ScalarOfFour(s: bytes): (c: nat)
    requires |s| == 4 && StepAt(s) == Char(4)
    ensures Scalar(c) && EncodeOne(c) == s
  {
    var a := s[0] as int - 0xF0;
    var b := a * 64 + Payload(s[1]);
    var c := b * 64 + Payload(s[2]);
    var d := c * 64 + Payload(s[3]);
    SixBits(a, Payload(s[1])); SixBits(b, Payload(s[2])); SixBits(c, Payload(s[3]));
    assert d / 4096 == b && d / 262144 == a;
    d
  }

  /** The scalar value whose code the front character is. */
  function ScalarAt(s: bytes): (c: nat)
    requires s != [] && StepAt(s).Char?
    ensures Scalar(c)
    ensures EncodeOne(c) == s[..StepAt(s).width]
  {
    var n := StepAt(s).width;
    StepOfPrefix(s, n);
    match n
    case 1 => s[0] as int
    case 2 => ScalarOfTwo(s[..2])
    case 3 => ScalarOfThree(s[..3])
    case _ => ScalarOfFour(s[..4])
  }

  lemma {:induction false} StepOfEncodeOne(c: nat, rest: bytes)
    requires Scalar(c)
    ensures StepAt(EncodeOne(c) + rest) == Char(|EncodeOne(c)|)
  {
  }

  function Decode(s: bytes): (cs: seq<nat>)
    requires Valid(s)
    ensures Scalars(cs) && Encode(cs) == s
  {
    if s == [] then []
    else
      var n := StepAt(s).width;
      assert s == s[..n] + s[n..];
      [ScalarAt(s)] + Decode(s[n..])
  }

  lemma {:induction false} EncodeIsValid(cs: seq<nat>)
    requires Scalars(cs)
    ensures Valid(Encode(cs))
    decreases |cs|
  {
    if cs != [] {
      StepOfEncodeOne(cs[0], Encode(cs[1..]));
      EncodeIsValid(cs[1..]);
      assert Encode(cs)[|EncodeOne(cs[0])|..] == Encode(cs[1..]);
    }
  }

  /** The validator accepts exactly the encodings of sequences of scalar values. */
  lemma {:induction false} ValidExactly(s: bytes)
    ensures Valid(s) <==> exists cs: seq<nat> :: Scalars(cs) && Encode(cs) == s
  {
    if Valid(s) {
      assert Encode(Decode(s)) == s;
    }
    forall cs: seq<nat> | Scalars(cs) && Encode(cs) == s ensures Valid(s) {
      EncodeIsValid(cs);
    }
  }

  // ------------------------------------------------------------ joining and cutting

  lemma {:induction false} StepOfPrefix(s: bytes, k: nat)
    requires s != [] && StepAt(s).Char? && 0 < k <= |s|
    ensures StepAt(s[..k]) == if k < StepAt(s).width then Incomplete else StepAt(s)
  {
  }

  lemma {:induction false} StepOfExtension(s: bytes, t: bytes)
    requires s != [] && !StepAt(s).Incomplete?
    ensures StepAt(s + t) == StepAt(s)
  {
  }

  lemma {:induction false} ValidAppend(a: bytes, b: bytes)
    requires Valid(a)
    ensures Valid(a + b) <==> Valid(b)
    decreases |a|
  {
    if a == [] {
      assert a + b == b;
    } else {
      var n := StepAt(a).width;
      StepOfExtension(a, b);
      assert (a + b)[n..] == a[n..] + b;
      ValidAppend(a[n..], b);
    }
  }

  lemma {:induction false} ValidUpToIsValid(s: bytes)
    ensures Valid(s[..ValidUpTo(s)])
    ensures ValidUpTo(s) < |s| ==> !StepAt(s[ValidUpTo(s)..]).Char?
    decreases |s|
  {
    if s != [] && StepAt(s).Char? {
      var n := StepAt(s).width;
      var v := ValidUpTo(s);
      ValidUpToIsValid(s[n..]);
      StepOfPrefix(s, v);
      assert s[..v][n..] == s[n..][..v - n];
      assert s[v..] == s[n..][v - n..];
    } else {
      assert s[0..] == s;
    }
  }

  lemma {:induction false} ValidPrefixIsWithin(s: bytes, j: nat)
    requires j <= |s| && Valid(s[..j])
    ensures j <= ValidUpTo(s)
    decreases |s|
  {
    if j > 0 {
      var n := StepAt(s[..j]).width;
      StepOfExtension(s[..j], s[j..]);
      assert s[..j] + s[j..] == s;
      assert s[..j][n..] == s[n..][..j - n];
      ValidPrefixIsWithin(s[n..], j - n);
    }
  }

  /** `valid_up_to` is the length of the longest valid prefix, and what stops it is not a character. */
  lemma {:induction false} ValidUpToIsLongest(s: bytes)
    ensures Valid(s[..ValidUpTo(s)])
    ensures forall j :: 0 <= j <= |s| && Valid(s[..j]) ==> j <= ValidUpTo(s)
    ensures ValidUpTo(s) < |s| ==> !StepAt(s[ValidUpTo(s)..]).Char?
    ensures Valid(s) <==> ValidUpTo(s) == |s|
  {
    ValidUpToIsValid(s);
    forall j | 0 <= j <= |s| && Valid(s[..j]) ensures j <= ValidUpTo(s) {
      ValidPrefixIsWithin(s, j);
    }
    assert s[..|s|] == s;
  }

  /** A byte cut of valid text leaves at most three bytes of an unfinished character. */
  lemma {:induction false} CutOfValid(s: bytes, k: nat)
    requires Valid(s) && k <= |s|
    ensures var v := ValidUpTo(s[..k]);
            v + 3 >= k && (v < k ==> StepAt(s[..k][v..]).Incomplete?)
    decreases |s|
  {
    if k > 0 {
      var n := StepAt(s).width;
      StepOfPrefix(s, k);
      if n <= k {
        CutOfValid(s[n..], k - n);
        var v := ValidUpTo(s[n..][..k - n]);
        assert s[..k][n..] == s[n..][..k - n];
        assert s[..k][n + v..] == s[n..][..k - n][v..];
      } else {
        assert s[..k][0..] == s[..k];
      }
    }
  }

  /** `str::is_char_boundary` on valid text. */
  predicate CharBoundary(s: bytes, k: nat)
  {
    k == 0 || k == |s| || (k < |s| && !Continuation(s[k]))
  }

  /** Looking at one byte decides whether the text before it is whole. */
  lemma {:induction false} CharBoundaryExactly(s: bytes, k: nat)
    requires Valid(s) && k <= |s|
    ensures CharBoundary(s, k) <==> Valid(s[..k])
    decreases |s|
  {
    assert s[..|s|] == s;
    if 0 < k < |s| {
      var n := StepAt(s).width;
      StepOfPrefix(s, k);
      if k >= n {
        assert s[..k][n..] == s[n..][..k - n];
        CharBoundaryExactly(s[n..], k - n);
      }
    }
  }

  /** Text cut at an ASCII byte is text on both sides of it. */
  lemma {:induction false} ValidAround(a: bytes, b: byte, c: bytes)
    requires b as int < 0x80
    ensures Valid(a + [b] + c) <==> Valid(a) && Valid(c)
  {
    var s := a + [b] + c;
    assert s[..|a|] == a && s == a + ([b] + c) && ([b] + c)[1..] == c;
    if Valid(s) {
      CharBoundaryExactly(s, |a|);
      assert s[|a|] == b;
    }
    if Valid(a) {
      ValidAppend(a, [b] + c);
      assert StepAt([b] + c) == Char(1);
    }
  }

  /** The longest whole-character prefix of at most `max` bytes. */
  ghost predicate LongestPrefix(p: bytes, s: bytes, max: nat)
  {
    && p <= s && |p| <= max && Valid(p)
    && forall j :: |p| < j <= Min(|s|, max) ==> !Valid(s[..j])
  }

  // ------------------------------------------------------------ lossy conversion

  lemma {:induction false} LossyIsValid(s: bytes)
    ensures Valid(Lossy(s))
    decreases |s|
  {
    if s != [] {
      var step := StepAt(s);
      assert Valid(Replacement) by { assert StepAt(Replacement) == Char(3); assert Replacement[3..] == []; }
      match step
      case Char(n) =>
        LossyIsValid(s[n..]);
        StepOfPrefix(s, n);
        assert s[..n][n..] == [];
        ValidAppend(s[..n], Lossy(s[n..]));
      case Invalid(n) =>
        LossyIsValid(s[n..]);
        ValidAppend(Replacement, Lossy(s[n..]));
      case Incomplete =>
    }
  }

  /** The conversion changes exactly the strings that are not UTF-8. */
  lemma {:induction false} LossyExactly(s: bytes)
    ensures Valid(s) <==> Lossy(s) == s
  {
    LossyIsValid(s);
    if Valid(s) { ValidIsKept(s); }
    hide *;
  }

  lemma {:induction false} ValidIsKept(s: bytes)
    requires Valid(s)
    ensures Lossy(s) == s
    decreases |s|
  {
    if s != [] {
      ValidIsKept(s[StepAt(s).width..]);
      hide StepAt;
    }
  }

  /**
   Whether one of the pieces the conversion treats separately ends at `k`: a character, or a maximal invalid piece.
   */
  predicate Boundary(s: bytes, k: nat)
    requires k <= |s|
  {
    if k == 0 || k == |s| then true
    else match StepAt(s)
      case Char(w) => w <= k && Boundary(s[w..], k - w)
      case Invalid(n) => n <= k && Boundary(s[n..], k - n)
      case Incomplete => false
  }

  /** The number of bytes the front piece takes. */
  function PieceAt(s: bytes): (n: nat)
    requires s != []
    ensures 1 <= n <= |s| && n <= 4
  {
    match StepAt(s)
    case Char(w) => w
    case Invalid(n) => n
    case Incomplete => |s|
  }

  lemma {:induction false} LossyPiece(s: bytes)
    requires s != []
    ensures Lossy(s) == (if StepAt(s).Char? then s[..PieceAt(s)] else Replacement) + Lossy(s[PieceAt(s)..])
  {
    if StepAt(s).Incomplete? { assert s[|s|..] == [] && Replacement + [] == Replacement; }
  }

  lemma {:induction false} LossyNeverShrinks(s: bytes)
    ensures |Lossy(s)| >= |s|
    decreases |s|
  {
    if s != [] {
      match StepAt(s)
      case Char(w) => LossyNeverShrinks(s[w..]);
      case Invalid(n) => LossyNeverShrinks(s[n..]);
      case Incomplete =>
    }
  }

  /** A piece cut before its end is an unfinished character, and each byte left over is a piece of its own. */
  lemma {:induction false} CutPiece(s: bytes, k: nat)
    requires s != [] && 0 < k < PieceAt(s)
    ensures Lossy(s[..k]) == Replacement
    ensures |Lossy(s[k..])| == 3 * (PieceAt(s) - k) + |Lossy(s[PieceAt(s)..])|
  {
    var n := PieceAt(s);
    assert StepAt(s[..k]).Incomplete?;
    assert forall i :: k <= i < n ==> Continuation(s[i]);
    assert s[k..][n - k..] == s[n..];
    ContinuationsAlone(s[k..], n - k);
  }

  lemma {:induction false} ContinuationsAlone(s: bytes, m: nat)
    requires m <= |s| && forall i :: 0 <= i < m ==> Continuation(s[i])
    ensures |Lossy(s)| == 3 * m + |Lossy(s[m..])|
    decreases m
  {
    if m == 0 {
      assert s[0..] == s;
    } else {
      assert StepAt(s) == Invalid(1);
      assert s[1..][m - 1..] == s[m..];
      ContinuationsAlone(s[1..], m - 1);
    }
  }

  /** A cut at the end of a piece or after it leaves that piece's conversion as it was. */
  lemma {:induction false} WholePiece(s: bytes, k: nat)
    requires s != [] && PieceAt(s) <= k <= |s|
    ensures Lossy(s[..k]) == (if StepAt(s).Char? then s[..PieceAt(s)] else Replacement) + Lossy(s[PieceAt(s)..k])
  {
    var n := PieceAt(s);
    var p := s[..k];
    assert p[n..] == s[n..k] && p[..n] == s[..n];
    LossyPiece(p);
    if k == n && !StepAt(s).Char? {
      assert p[n..] == [] && s[n..k] == [];
      assert StepAt(p).Incomplete? || StepAt(p) == StepAt(s);
      assert PieceAt(p) == n;
    } else {
      assert StepAt(p) == StepAt(s);
    }
  }

  /**
   Converting two parts separately gives the conversion of the whole exactly when they meet at the end of a piece;
   otherwise the parts come out strictly longer.
   */
  lemma {:induction false} LossyJoins(s: bytes, k: nat)
    requires k <= |s|
    ensures Boundary(s, k) <==> Lossy(s[..k]) + Lossy(s[k..]) == Lossy(s)
    ensures !Boundary(s, k) ==> |Lossy(s[..k])| + |Lossy(s[k..])| > |Lossy(s)|
    decreases |s|
  {
    if k == 0 || k == |s| {
      assert s[..0] == [] && s[|s|..] == [] && s[0..] == s && s[..|s|] == s;
      assert [] + Lossy(s) == Lossy(s) && Lossy(s) + [] == Lossy(s);
      hide StepAt;
    } else if k < PieceAt(s) {
      CutPiece(s, k);
      LossyPiece(s);
      hide Lossy;
    } else {
      var n := PieceAt(s);
      LossyPiece(s);
      WholePiece(s, k);
      LossyJoins(s[n..], k - n);
      JoinedPieces(s, n, k);
      BoundaryPiece(s, k);
      hide *;
      AppendSame(if StepAt(s).Char? then s[..n] else Replacement, Lossy(s[n..k]), Lossy(s[k..]), Lossy(s[n..]));
    }
  }

  lemma {:induction false} BoundaryPiece(s: bytes, k: nat)
    requires s != [] && PieceAt(s) <= k < |s|
    ensures Boundary(s, k) <==> Boundary(s[PieceAt(s)..], k - PieceAt(s))
  {
  }

  lemma {:induction false} JoinedPieces(s: bytes, n: nat, k: nat)
    requires n <= k <= |s|
    ensures s[n..][..k - n] == s[n..k] && s[n..][k - n..] == s[k..]
  {
  }

  lemma {:induction false} AppendSame(head: bytes, a: bytes, b: bytes, c: bytes)
    ensures (head + a) + b == head + c <==> a + b == c
  {
    assert (head + a) + b == head + (a + b);
    if head + (a + b) == head + c {
      assert (head + (a + b))[|head|..] == a + b && (head + c)[|head|..] == c;
    }
  }

  predicate Ascii(s: bytes) { forall i :: 0 <= i < |s| ==> s[i] as int < 0x80 }

  lemma {:induction false} AsciiIsValid(s: bytes)
    requires Ascii(s)
    ensures Valid(s)
    decreases |s|
  {
    if s != [] { AsciiIsValid(s[1..]); }
  }
}
