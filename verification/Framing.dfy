/** Content-Length frames: a byte-at-a-time reader and a writer, and the language they share. */
module Framing {
  import opened Wrappers
  import opened Bytes

  const MAX_FRAME_BYTES: nat := 8 * 1024 * 1024
  const MAX_HEADER_BYTES: nat := 64
  const HEADER_PREFIX: bytes := "Content-Length: "
  const HEADER_END: bytes := "\r\n\r\n"

  datatype FrameError = InvalidHeader | TooLarge | Truncated

  /** The body stands for the JSON value it spells. */
  datatype ReadResult = EndOfStream | Frame(body: bytes) | Failed(error: FrameError)

  // ------------------------------------------------------------ the language

  /** What `write_frame` puts on the wire. */
  function Encode(body: bytes): bytes
  {
    HEADER_PREFIX + Decimal(|body|) + HEADER_END + body
  }

  function EncodeAll(bodies: seq<bytes>): bytes
  {
    if bodies == [] then [] else Encode(bodies[0]) + EncodeAll(bodies[1..])
  }

  // ------------------------------------------------------------ the reader, as a function

  datatype Scan = Stopped(result: ReadResult, used: nat) | Header(length: nat)

  /** The checks made when a byte has just been pushed onto the header. */
  predicate Refused(header: bytes)
    requires header != []
  {
    var index := |header| - 1;
    || |header| > MAX_HEADER_BYTES
    || (index < |HEADER_PREFIX| && header[index] != HEADER_PREFIX[index])
    || (header[index] == '\n' && !(index >= 1 && header[index - 1] == '\r'))
  }

  /** The header loop when the first `k` bytes are already in the buffer. */
  function ScanHeader(input: bytes, k: nat): (r: Scan)
    requires k <= |input|
    ensures r.Stopped? ==> r.used <= |input| && !r.result.Frame?
    ensures r.Header? ==> k < r.length <= |input|
    decreases |input| - k
  {
    if k == |input| then Stopped(if k == 0 then EndOfStream else Failed(Truncated), k)
    else
      var header := input[..k + 1];
      if Refused(header) then Stopped(Failed(InvalidHeader), k + 1)
      else if EndsWith(header, HEADER_END) then Header(k + 1)
      else ScanHeader(input, k + 1)
  }

  /** The checks on the whole header once its end was seen. */
  function DeclaredLength(header: bytes): Result<nat, FrameError>
  {
    if !StartsWith(header, HEADER_PREFIX) || |header| < |HEADER_PREFIX| + |HEADER_END| || !EndsWith(header, HEADER_END)
    then Err(InvalidHeader)
    else
      var text := header[|HEADER_PREFIX|..|header| - |HEADER_END|];
      if text == [] || !AllDigits(text) || (|text| > 1 && text[0] == '0') then Err(InvalidHeader)
      else match ParseU64(text)
        case None => Err(InvalidHeader)
        case Some(n) => if n > MAX_FRAME_BYTES then Err(TooLarge) else Ok(n)
  }

  /** One `read_frame`: its result and the input it leaves. */
  function ReadOne(input: bytes): (r: (ReadResult, bytes))
  {
    match ScanHeader(input, 0)
    case Stopped(result, used) => (result, input[used..])
    case Header(n) =>
      match DeclaredLength(input[..n])
      case Err(e) => (Failed(e), input[n..])
      case Ok(length) =>
        if n + length <= |input| then (Frame(input[n..n + length]), input[n + length..])
        else (Failed(Truncated), [])
  }

  lemma {:induction false} RefusedWhen(header: bytes)
    requires header != []
    ensures var index := |header| - 1;
            Refused(header) <==>
              || |header| > MAX_HEADER_BYTES
              || (index < |HEADER_PREFIX| && header[index] != HEADER_PREFIX[index])
              || (header[index] == '\n' && !(index >= 1 && header[index - 1] == '\r'))
  {
  }

  /** What one turn of the header loop comes to. */
  lemma {:induction false} ScanOnce(input: bytes, k: nat)
    requires k <= |input|
    ensures k == |input| ==> ScanHeader(input, k) == Stopped(if k == 0 then EndOfStream else Failed(Truncated), k)
    ensures k < |input| ==>
              ScanHeader(input, k)
              == if Refused(input[..k + 1]) then Stopped(Failed(InvalidHeader), k + 1)
                 else if EndsWith(input[..k + 1], HEADER_END) then Header(k + 1)
                 else ScanHeader(input, k + 1)
  {
  }

  // ------------------------------------------------------------ reader and writer

  class FrameReader {
    var input: bytes

    constructor (source: bytes)
      ensures input == source
    {
      input := source;
    }

    /** The header loop: pushes bytes onto `header` until its end, or says why it stopped. */
    method ReadHeader() returns (header: bytes, stopped: Option<ReadResult>)
      modifies this
      ensures old(input) == header + input
      ensures stopped.None? ==> ScanHeader(old(input), 0) == Header(|header|)
      ensures stopped.Some? ==> ScanHeader(old(input), 0) == Stopped(stopped.value, |header|)
    {
      hide *;
      header := [];
      ghost var source := input;
      while true
        invariant source == header + input
        invariant ScanHeader(source, |header|) == ScanHeader(source, 0)
        decreases |input|
      {
        ScanOnce(source, |header|);
        if input == [] {
          return header, Some(if header == [] then EndOfStream else Failed(Truncated));
        }
        var value := input[0];
        var index := |header|;
        assert source == (header + [value]) + input[1..];
        header := header + [value];
        input := input[1..];
        assert source[..index + 1] == header;
        RefusedWhen(header);
        if |header| > MAX_HEADER_BYTES { return header, Some(Failed(InvalidHeader)); }
        if index < |HEADER_PREFIX| && value != HEADER_PREFIX[index] { return header, Some(Failed(InvalidHeader)); }
        if value == '\n' && !(index >= 1 && header[index - 1] == '\r') { return header, Some(Failed(InvalidHeader)); }
        if EndsWith(header, HEADER_END) { return header, None; }
      }
    }

    method ReadFrame() returns (r: ReadResult)
      modifies this
      ensures (r, input) == ReadOne(old(input))
    {
      ghost var source := input;
      var header, stopped := ReadHeader();
      assert source[..|header|] == header && source[|header|..] == input;
      if stopped.Some? { return stopped.value; }
      var declared := DeclaredLength(header);
      if declared.Err? { return Failed(declared.error); }
      var length := declared.value;
      if |input| < length {
        input := [];
        return Failed(Truncated);
      }
      r := Frame(input[..length]);
      input := input[length..];
      assert r.body == source[|header|..|header| + length] && input == source[|header| + length..];
    }
  }

  class FrameWriter {
    var output: bytes

    constructor ()
      ensures output == []
    {
      output := [];
    }

    method WriteFrame(body: bytes) returns (r: Result<(), FrameError>)
      modifies this
      ensures |body| <= MAX_FRAME_BYTES ==> r == Ok(()) && output == old(output) + Encode(body)
      ensures |body| > MAX_FRAME_BYTES ==> r == Err(TooLarge) && output == old(output)
    {
      if |body| > MAX_FRAME_BYTES { return Err(TooLarge); }
      output := output + (HEADER_PREFIX + Decimal(|body|) + HEADER_END);
      output := output + body;
      return Ok(());
    }
  }

  // ------------------------------------------------------------ the two agree

  /** `h` is a header whose only line end is the final pair, short enough for the incremental checks. */
  predicate PlainHeader(h: bytes)
  {
    && |HEADER_PREFIX| + |HEADER_END| <= |h| <= MAX_HEADER_BYTES
    && StartsWith(h, HEADER_PREFIX) && EndsWith(h, HEADER_END)
    && forall i :: 0 <= i < |h| - |HEADER_END| ==> h[i] != '\n' && h[i] != '\r'
  }

  lemma {:induction false} EndsInHeaderEnd(s: bytes)
    ensures EndsWith(s, HEADER_END) <==>
            |s| >= 4 && s[|s| - 4] == '\r' && s[|s| - 3] == '\n' && s[|s| - 2] == '\r' && s[|s| - 1] == '\n'
  {
    if |s| >= 4 {
      assert s[|s| - 4..] == [s[|s| - 4], s[|s| - 3], s[|s| - 2], s[|s| - 1]];
    }
  }

  /** The scan goes past a header in the making. */
  predicate Passes(input: bytes, i: nat)
    requires 0 < i <= |input|
  {
    !Refused(input[..i]) && !EndsWith(input[..i], HEADER_END)
  }

  lemma {:induction false} ScanPasses(input: bytes, k: nat, n: nat)
    requires k <= n <= |input|
    requires forall i :: k < i <= n ==> Passes(input, i)
    ensures ScanHeader(input, k) == ScanHeader(input, n)
    decreases n - k
  {
    if k < n {
      assert Passes(input, k + 1);
      ScanPasses(input, k + 1, n);
    }
  }

  /** Inside a plain header no byte is refused, and the end is seen at the last byte and not before. */
  lemma {:induction false} PlainHeaderPasses(h: bytes, i: nat)
    requires PlainHeader(h) && 0 < i <= |h|
    ensures !Refused(h[..i])
    ensures EndsWith(h[..i], HEADER_END) <==> i == |h|
  {
    EndsInHeaderEnd(h);
    EndsInHeaderEnd(h[..i]);
    assert h[..|HEADER_PREFIX|] == HEADER_PREFIX;
    assert i <= |HEADER_PREFIX| ==> h[i - 1] == HEADER_PREFIX[i - 1];
    assert h[..|h|] == h;
  }

  /** The incremental checks let every plain header through, and stop exactly at its end. */
  lemma {:induction false} PlainHeaderScans(h: bytes, input: bytes)
    requires PlainHeader(h) && h <= input
    ensures ScanHeader(input, 0) == Header(|h|)
  {
    var n := |h| - 1;
    forall i | 0 < i <= n ensures Passes(input, i) {
      assert input[..i] == h[..i];
      PlainHeaderPasses(h, i);
    }
    ScanPasses(input, 0, n);
    assert input[..n + 1] == h[..n + 1];
    PlainHeaderPasses(h, n + 1);
  }

  /** A proper, non-empty prefix of a plain header is reported as truncated. */
  lemma {:induction false} CutHeaderScans(h: bytes, cut: nat)
    requires PlainHeader(h) && 0 < cut < |h|
    ensures ScanHeader(h[..cut], 0) == Stopped(Failed(Truncated), cut)
  {
    var input := h[..cut];
    forall i | 0 < i <= cut ensures Passes(input, i) {
      assert input[..i] == h[..i];
      PlainHeaderPasses(h, i);
    }
    ScanPasses(input, 0, cut);
  }

  lemma {:induction false} NumeralLength(n: nat)
    requires n <= U64_MAX
    ensures |Decimal(n)| <= 20
  {
    assert Pow10(7) == 10_000_000;
    assert Pow10(14) == 100_000_000_000_000;
    assert Pow10(20) == 100_000_000_000_000_000_000;
    DecimalLength(n, 20, Pow10(20));
  }

  lemma {:induction false} EncodedHeader(n: nat)
    requires n <= U64_MAX
    ensures PlainHeader(HEADER_PREFIX + Decimal(n) + HEADER_END)
    ensures DeclaredLength(HEADER_PREFIX + Decimal(n) + HEADER_END) == if n <= 8_388_608 then Ok(n) else Err(TooLarge)
  {
    var h := HEADER_PREFIX + Decimal(n) + HEADER_END;
    DecimalValue(n);
    NumeralLength(n);
    assert h[|HEADER_PREFIX|..|h| - |HEADER_END|] == Decimal(n);
    hide Value, Decimal;
    forall i | 0 <= i < |h| - |HEADER_END| ensures h[i] != '\n' && h[i] != '\r' {
      if i < |HEADER_PREFIX| { assert h[i] == HEADER_PREFIX[i]; }
      else { assert h[i] == Decimal(n)[i - |HEADER_PREFIX|]; }
    }
  }

  /** Reading what was written gives the body back and leaves what follows. */
  lemma {:induction false} RoundTrip(body: bytes, rest: bytes)
    requires |body| <= MAX_FRAME_BYTES
    ensures ReadOne(Encode(body) + rest) == (Frame(body), rest)
  {
    var h := HEADER_PREFIX + Decimal(|body|) + HEADER_END;
    var input := Encode(body) + rest;
    EncodedHeader(|body|);
    assert input == h + (body + rest);
    PlainHeaderScans(h, input);
    assert input[..|h|] == h;
  }

  /** A frame is accepted only if it is spelled exactly as the writer spells it. */
  lemma {:induction false} AcceptedIsEncoded(input: bytes)
    requires ReadOne(input).0.Frame?
    ensures var (r, rest) := ReadOne(input);
            input == Encode(r.body) + rest && |r.body| <= MAX_FRAME_BYTES
  {
    var n := ScanHeader(input, 0).length;
    var header := input[..n];
    var text := header[|HEADER_PREFIX|..|header| - |HEADER_END|];
    var length := DeclaredLength(header).value;
    ValueDecimal(text);
    assert header == HEADER_PREFIX + text + HEADER_END;
    assert input == header + input[n..n + length] + input[n + length..];
  }

  /** The accepted language, both ways: the incremental checks reject nothing the grammar allows. */
  lemma {:induction false} AcceptedExactly(input: bytes, body: bytes, rest: bytes)
    ensures ReadOne(input) == (Frame(body), rest) <==> |body| <= MAX_FRAME_BYTES && input == Encode(body) + rest
  {
    if ReadOne(input) == (Frame(body), rest) {
      AcceptedIsEncoded(input);
    }
    if |body| <= MAX_FRAME_BYTES && input == Encode(body) + rest {
      RoundTrip(body, rest);
    }
  }

  /** A cut strictly inside a frame is reported as truncation, wherever it falls. */
  lemma {:induction false} CutIsTruncated(body: bytes, k: nat)
    requires |body| <= MAX_FRAME_BYTES && 0 < k < |Encode(body)|
    ensures ReadOne(Encode(body)[..k]).0 == Failed(Truncated)
  {
    var h := HEADER_PREFIX + Decimal(|body|) + HEADER_END;
    EncodedHeader(|body|);
    assert Encode(body) == h + body;
    if k < |h| {
      assert Encode(body)[..k] == h[..k];
      CutHeaderScans(h, k);
    } else {
      var input := Encode(body)[..k];
      assert h <= input;
      PlainHeaderScans(h, input);
      assert input[..|h|] == h;
    }
  }

  /** Reading until something other than a frame: the bodies and what stopped the reader. */
  function ReadAll(input: bytes): (r: (seq<bytes>, ReadResult))
    decreases |input|
  {
    var (one, rest) := ReadOne(input);
    if one.Frame? then
      AcceptedIsEncoded(input);
      var (bodies, last) := ReadAll(rest);
      ([one.body] + bodies, last)
    else ([], one)
  }

  lemma {:induction false} ReadAllOfFrame(body: bytes, rest: bytes)
    requires |body| <= MAX_FRAME_BYTES
    ensures ReadAll(Encode(body) + rest) == ([body] + ReadAll(rest).0, ReadAll(rest).1)
  {
    RoundTrip(body, rest);
  }

  predicate Sendable(bodies: seq<bytes>) { forall i :: 0 <= i < |bodies| ==> |bodies[i]| <= MAX_FRAME_BYTES }

  lemma {:induction false} EncodeAllHead(body: bytes, more: seq<bytes>, tail: bytes)
    ensures EncodeAll([body] + more) + tail == Encode(body) + (EncodeAll(more) + tail)
  {
    assert ([body] + more)[1..] == more;
  }

  lemma {:induction false} ConsAppend(body: bytes, more: seq<bytes>, others: seq<bytes>)
    ensures [body] + (more + others) == ([body] + more) + others
  {
  }

  lemma {:induction false} ReadAllOfStream(bodies: seq<bytes>, tail: bytes)
    requires Sendable(bodies)
    ensures ReadAll(EncodeAll(bodies) + tail).0 == bodies + ReadAll(tail).0
    ensures ReadAll(EncodeAll(bodies) + tail).1 == ReadAll(tail).1
    decreases |bodies|
  {
    if bodies == [] {
      assert EncodeAll(bodies) + tail == tail;
    } else {
      var body, more := bodies[0], bodies[1..];
      var rest := EncodeAll(more) + tail;
      ConsAppend(body, more, ReadAll(tail).0);
      assert bodies == [body] + more;
      EncodeAllHead(body, more, tail);
      ReadAllOfFrame(body, rest);
      ReadAllOfStream(more, tail);
    }
  }

  /** A stream of whole frames, then a cut one or nothing, reads back as those frames, then truncation or the end. */
  lemma {:induction false} StreamRoundTrip(bodies: seq<bytes>, last: bytes, k: nat)
    requires Sendable(bodies)
    requires |last| <= MAX_FRAME_BYTES && k < |Encode(last)|
    ensures ReadAll(EncodeAll(bodies) + Encode(last)[..k])
         == (bodies, if k == 0 then EndOfStream else Failed(Truncated))
  {
    var tail := Encode(last)[..k];
    ReadAllOfStream(bodies, tail);
    if k > 0 { CutIsTruncated(last, k); }
    assert ReadAll(tail).0 == [];
    assert bodies + [] == bodies;
  }

  // ------------------------------------------------------------ every input that is no frame

  /** The header of a frame of `n` bytes, however large. */
  function HeaderOf(n: nat): bytes { "Content-Length: " + Decimal(n) + "\r\n\r\n" }

  /** A header may begin so: up to 64 bytes that agree with its key, every line feed after a return, and no end yet. */
  predicate InTheMaking(s: bytes)
  {
    && 0 < |s| <= 64
    && (forall i :: 0 <= i < Min(|s|, 16) ==> s[i] == "Content-Length: "[i])
    && (forall i :: 0 <= i < |s| && s[i] == '\n' ==> i > 0 && s[i - 1] == '\r')
    && forall i :: 4 <= i <= |s| ==> !EndsAt(s, i)
  }

  predicate EndsAt(s: bytes, i: int) { 4 <= i <= |s| && s[i - 4..i] == "\r\n\r\n" }

  lemma {:induction false} PassesExactly(input: bytes, i: nat)
    requires 0 < i <= |input|
    ensures Passes(input, i)
            <==> && i <= 64 && (i <= 16 ==> input[i - 1] == "Content-Length: "[i - 1])
                 && (input[i - 1] == '\n' ==> i > 1 && input[i - 2] == '\r')
                 && !EndsAt(input, i)
  {
    var header := input[..i];
    assert i >= 4 ==> header[i - 4..] == input[i - 4..i];
    assert i > 1 ==> header[i - 2] == input[i - 2];
  }

  /** The scan runs off the input exactly when every beginning of it passes. */
  lemma {:induction false} RunsOffExactly(input: bytes)
    ensures InTheMaking(input)
            <==> input != [] && forall i :: 0 < i <= |input| ==> Passes(input, i)
  {
    hide Passes;
    forall i | 0 < i <= |input|
      ensures Passes(input, i)
              <==> && i <= 64 && (i <= 16 ==> input[i - 1] == "Content-Length: "[i - 1])
                   && (input[i - 1] == '\n' ==> i > 1 && input[i - 2] == '\r')
                   && !EndsAt(input, i)
    {
      PassesExactly(input, i);
    }
    if input != [] && forall i :: 0 < i <= |input| ==> Passes(input, i) {
      assert Passes(input, |input|);
      forall i | 0 <= i < Min(|input|, 16) ensures input[i] == "Content-Length: "[i] { assert Passes(input, i + 1); }
      forall i | 0 <= i < |input| && input[i] == '\n' ensures i > 0 && input[i - 1] == '\r' {
        assert Passes(input, i + 1);
      }
      forall i | 4 <= i <= |input| ensures !EndsAt(input, i) { assert Passes(input, i); }
    }
  }

  /** Where the scan stops, and that everything before passed. */
  lemma {:induction false} ScanStopsAt(input: bytes, k: nat)
    requires k <= |input|
    ensures match ScanHeader(input, k)
            case Header(n) => k < n && EndsWith(input[..n], HEADER_END) && !Refused(input[..n])
            case Stopped(r, used) =>
              if r == Failed(InvalidHeader) then k < used && Refused(input[..used])
              else used == |input| && r == (if |input| == 0 then EndOfStream else Failed(Truncated))
                   && forall i :: k < i <= |input| ==> Passes(input, i)
    decreases |input| - k
  {
    hide ScanHeader, EndsWith, Refused;
    ScanOnce(input, k);
    if k < |input| { ScanStopsAt(input, k + 1); }
  }

  /** A header that declares a length is the one the writer would spell for it. */
  lemma {:induction false} DeclaresExactly(header: bytes) returns (n: nat)
    requires DeclaredLength(header) != Err(InvalidHeader)
    ensures n <= U64_MAX && header == HeaderOf(n)
    ensures DeclaredLength(header) == if n <= 8_388_608 then Ok(n) else Err(TooLarge)
  {
    var text := header[|HEADER_PREFIX|..|header| - |HEADER_END|];
    n := Value(text);
    ValueDecimal(text);
    assert header == HEADER_PREFIX + text + HEADER_END;
    hide Value, Decimal;
  }

  /** What is read behind a header. */
  lemma {:induction false} AfterHeader(n: nat, rest: bytes)
    requires n <= U64_MAX
    ensures ReadOne(HeaderOf(n) + rest)
         == if n > 8_388_608 then (Failed(TooLarge), rest)
            else if |rest| < n then (Failed(Truncated), []) else (Frame(rest[..n]), rest[n..])
  {
    var h := HeaderOf(n);
    var input := h + rest;
    EncodedHeader(n);
    hide PlainHeader, DeclaredLength, ScanHeader;
    PlainHeaderScans(h, input);
    assert input[..|h|] == h && input[|h|..] == rest;
    if n <= |rest| { assert input[|h|..|h| + n] == rest[..n] && input[|h| + n..] == rest[n..]; }
  }

  /** Which answers can follow a whole header. */
  predicate Answers(n: nat, rest: bytes, r: ReadResult)
  {
    && (r == Failed(TooLarge) <==> n > 8_388_608)
    && (r == Failed(Truncated) <==> |rest| < n <= 8_388_608)
    && r != EndOfStream && r != Failed(InvalidHeader)
  }

  /** Nothing, a header in the making, a whole header, or an invalid one. */
  lemma {:induction false} InputIs(input: bytes)
    ensures input == [] ==> ReadOne(input).0 == EndOfStream
    ensures InTheMaking(input) ==> ReadOne(input).0 == Failed(Truncated)
    ensures input != [] && !InTheMaking(input) ==>
              || ReadOne(input).0 == Failed(InvalidHeader)
              || exists n: nat, rest :: n <= U64_MAX && input == HeaderOf(n) + rest
  {
    hide ScanHeader, InTheMaking, Passes, DeclaredLength, HeaderOf, EndsWith, Refused;
    ScanStopsAt(input, 0);
    RunsOffExactly(input);
    match ScanHeader(input, 0)
    case Stopped(r, used) => Refuses(input, used);
    case Header(k) =>
      Refuses(input, k);
      var header := input[..k];
      if DeclaredLength(header) != Err(InvalidHeader) {
        var n := DeclaresExactly(header);
        assert input == HeaderOf(n) + input[k..];
      }
  }

  lemma {:induction false} Refuses(input: bytes, i: nat)
    requires i <= |input|
    ensures 0 < i && (Refused(input[..i]) || EndsWith(input[..i], HEADER_END)) ==> !Passes(input, i)
  {
  }

  /**
   The answer to any input that holds no frame: the end for nothing, truncation exactly for a header in the making or a
   body that is too short, and `TooLarge` exactly for a well-spelled header of more than 8 MiB. All else is invalid.
   */
  lemma {:induction false} ErrorsExactly(input: bytes)
    ensures ReadOne(input).0 == EndOfStream <==> input == []
    ensures ReadOne(input).0 == Failed(Truncated)
            <==> InTheMaking(input)
                 || exists n, part :: |part| < n <= 8_388_608 && input == HeaderOf(n) + part
    ensures ReadOne(input).0 == Failed(TooLarge)
            <==> exists n, rest :: 8_388_608 < n <= U64_MAX && input == HeaderOf(n) + rest
  {
    hide ReadOne, InTheMaking, HeaderOf;
    InputIs(input);
    forall n: nat, rest | n <= U64_MAX && input == HeaderOf(n) + rest ensures Answers(n, rest, ReadOne(input).0) {
      AfterHeader(n, rest);
    }
  }
}
