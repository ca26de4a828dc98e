/** The two ways the history reader bounds text it did not write: strict for patches, lossy for names. */
module HistoryText {
  import opened Wrappers
  import opened Bytes
  import opened Utf8

  /** The failures of history reads that come from reading git's output. */
  datatype HistoryError = GitReadFailed | OutputLimitExceeded | Timeout

  /** `bounded_utf8_prefix`; `None` is its read failure. */
  function BoundedUtf8Prefix(source: bytes, max: nat): Option<bytes>
  {
    var cut := source[..Min(|source|, max)];
    var v := ValidUpTo(cut);
    if v == |cut| then Some(cut)
    else if StepAt(cut[v..]).Incomplete? then Some(cut[..v])
    else None
  }

  /** On valid text the strict bound never fails and loses at most three bytes below the cut. */
  lemma {:induction false} StrictBoundOnText(source: bytes, max: nat)
    requires Valid(source)
    ensures BoundedUtf8Prefix(source, max).Some?
    ensures LongestPrefix(BoundedUtf8Prefix(source, max).value, source, max)
    ensures |BoundedUtf8Prefix(source, max).value| + 3 >= Min(|source|, max)
  {
    var k := Min(|source|, max);
    var cut := source[..k];
    CutOfValid(source, k);
    ValidUpToIsLongest(cut);
    assert cut[..|cut|] == cut;
    forall j | ValidUpTo(cut) < j <= k ensures !Valid(source[..j]) {
      assert source[..j] == cut[..j];
    }
  }

  /** On arbitrary bytes whatever is returned is a valid prefix, short of the cut by an unfinished character. */
  lemma {:induction false} StrictBoundOnBytes(source: bytes, max: nat)
    requires BoundedUtf8Prefix(source, max).Some?
    ensures var p := BoundedUtf8Prefix(source, max).value;
            LongestPrefix(p, source, max) && |p| + 3 >= Min(|source|, max)
  {
    var k := Min(|source|, max);
    var cut := source[..k];
    ValidUpToIsLongest(cut);
    assert cut[..|cut|] == cut;
    forall j | ValidUpTo(cut) < j <= k ensures !Valid(source[..j]) {
      assert source[..j] == cut[..j];
    }
  }

  /** The longest whole-character prefix of valid text, as a value. */
  function Shortened(s: bytes, max: nat): bytes
  {
    s[..ValidUpTo(s[..Min(|s|, max)])]
  }

  lemma {:induction false} ShortenedIsLongest(s: bytes, max: nat)
    ensures LongestPrefix(Shortened(s, max), s, max)
  {
    var cut := s[..Min(|s|, max)];
    var v := ValidUpTo(cut);
    ValidUpToIsLongest(cut);
    assert s[..v] == cut[..v];
    forall j | v < j <= Min(|s|, max) ensures !Valid(s[..j]) {
      assert s[..j] == cut[..j];
    }
  }

  lemma {:induction false} ShortEnough(s: bytes, max: nat)
    requires Valid(s) && |s| <= max
    ensures Shortened(s, max) == s
  {
    ValidUpToIsLongest(s);
    assert s[..|s|] == s;
  }

  /** `bounded_lossy_utf8`: step back from the byte limit to a character boundary. */
  method BoundedLossyUtf8(source: bytes, max: nat) returns (text: bytes, lossy: bool)
    ensures text == Shortened(Lossy(source), max)
    ensures lossy <==> !Valid(source)
  {
    hide Lossy, ValidUpTo, StepAt;
    lossy := !Valid(source);
    var converted := Lossy(source);
    LossyIsValid(source);
    var end: nat := Min(|converted|, max);
    while end > 0 && !CharBoundary(converted, end)
      invariant end <= Min(|converted|, max)
      invariant forall j :: end < j <= Min(|converted|, max) ==> !Valid(converted[..j])
    {
      CharBoundaryExactly(converted, end);
      end := end - 1;
    }
    text := converted[..end];
    CharBoundaryExactly(converted, end);
    ShortenedIsLongest(converted, max);
    var other := Shortened(converted, max);
    assert converted[..|other|] == other;
  }
}
