/** Byte strings: splitting, searching, decimal numerals and saturating arithmetic. */
module Bytes {
  import opened Wrappers

  /** A byte is written as the character with the same code, so that ASCII literals read as such. */
  type byte = c: char | c as int < 256
  type bytes = seq<byte>

  const U64_MAX: nat := 0xFFFF_FFFF_FFFF_FFFF
  type u64 = n: nat | n <= U64_MAX

  function Min(a: nat, b: nat): nat { if a <= b then a else b }

  /** `saturating_add` and `saturating_sub` at 64 bits. */
  function SatAdd(a: nat, b: nat): u64 { Min(a + b, U64_MAX) }

  function SatSub(a: nat, b: nat): nat { if a <= b then 0 else a - b }

  const LF: byte := '\n'

  predicate StartsWith(s: bytes, p: bytes) { p <= s }

  predicate EndsWith(s: bytes, p: bytes) { |p| <= |s| && s[|s| - |p|..] == p }

  /** Nothing, or whole lines. */
  predicate LineEnded(s: bytes) { s == [] || s[|s| - 1] == LF }

  // ---------------------------------------------------------------- searching

  /** First position of `b`, or the length when there is none. */
  function IndexOf(s: bytes, b: byte): (i: nat)
    ensures i <= |s|
    ensures forall j :: 0 <= j < i ==> s[j] != b
    ensures i < |s| ==> s[i] == b
  {
    if s == [] || s[0] == b then 0 else IndexOf(s[1..], b) + 1
  }

  lemma {:induction false} IndexOfAppend(f: bytes, b: byte, rest: bytes)
    requires b !in f
    ensures IndexOf(f + [b] + rest, b) == |f|
  {
    assert (f + [b] + rest)[|f|] == b;
  }

  lemma {:induction false} IndexOfAbsent(s: bytes, b: byte)
    ensures b !in s <==> IndexOf(s, b) == |s|
  {
    if IndexOf(s, b) < |s| { assert s[IndexOf(s, b)] == b; }
  }

  /** `rposition`: the last position of `b`. */
  function LastIndexOf(s: bytes, b: byte): (i: Option<nat>)
    ensures i.None? <==> b !in s
    ensures i.Some? ==> i.value < |s| && s[i.value] == b
    ensures i.Some? ==> forall j :: i.value < j < |s| ==> s[j] != b
  {
    if s == [] then None
    else if s[|s| - 1] == b then Some(|s| - 1)
    else LastIndexOf(s[..|s| - 1], b)
  }

  lemma {:induction false} LastIndexOfAppend(front: bytes, b: byte, tail: bytes)
    requires b !in tail
    ensures LastIndexOf(front + [b] + tail, b) == Some(|front|)
  {
    assert (front + [b] + tail)[|front|] == b;
  }

  // ---------------------------------------------------------------- splitting

  /** Every separator splits; `n` separators give `n + 1` parts. */
  function Split(s: bytes, sep: byte): (parts: seq<bytes>)
    ensures |parts| >= 1
    decreases |s|
  {
    var i := IndexOf(s, sep);
    if i == |s| then [s] else [s[..i]] + Split(s[i + 1..], sep)
  }

  /** At most `n` parts, the last of which keeps its separators. */
  function SplitN(s: bytes, n: nat, sep: byte): (parts: seq<bytes>)
    ensures |parts| <= n
    decreases n
  {
    if n == 0 then []
    else if n == 1 || IndexOf(s, sep) == |s| then [s]
    else [s[..IndexOf(s, sep)]] + SplitN(s[IndexOf(s, sep) + 1..], n - 1, sep)
  }

  /** Each part followed by the separator. */
  function Terminated(parts: seq<bytes>, sep: byte): bytes
  {
    if parts == [] then [] else parts[0] + [sep] + Terminated(parts[1..], sep)
  }

  predicate SepFree(parts: seq<bytes>, sep: byte)
  {
    forall i :: 0 <= i < |parts| ==> sep !in parts[i]
  }

  lemma {:induction false} SplitHead(f: bytes, sep: byte, rest: bytes)
    requires sep !in f
    ensures Split(f + [sep] + rest, sep) == [f] + Split(rest, sep)
  {
    var s := f + [sep] + rest;
    IndexOfAppend(f, sep, rest);
    assert s[..|f|] == f && s[|f| + 1..] == rest;
  }

  lemma {:induction false} SplitWhole(f: bytes, sep: byte)
    requires sep !in f
    ensures Split(f, sep) == [f]
  {
    IndexOfAbsent(f, sep);
  }

  lemma {:induction false} SplitNHead(f: bytes, n: nat, sep: byte, rest: bytes)
    requires sep !in f && n >= 2
    ensures SplitN(f + [sep] + rest, n, sep) == [f] + SplitN(rest, n - 1, sep)
  {
    var s := f + [sep] + rest;
    IndexOfAppend(f, sep, rest);
    assert s[..|f|] == f && s[|f| + 1..] == rest;
  }

  /** Splitting undoes termination; the last part is what follows the last separator. */
  lemma {:induction false} SplitTerminated(parts: seq<bytes>, sep: byte, tail: bytes)
    requires SepFree(parts, sep)
    requires sep !in tail
    ensures Split(Terminated(parts, sep) + tail, sep) == parts + [tail]
    decreases |parts|
  {
    if parts == [] {
      assert Terminated(parts, sep) + tail == tail;
      SplitWhole(tail, sep);
    } else {
      var rest := Terminated(parts[1..], sep) + tail;
      assert Terminated(parts, sep) + tail == parts[0] + [sep] + rest;
      SplitHead(parts[0], sep, rest);
      SplitTerminated(parts[1..], sep, tail);
      assert parts == [parts[0]] + parts[1..];
    }
  }

  lemma {:induction false} TerminatedOne(last: bytes, sep: byte)
    ensures Terminated([last], sep) == last + [sep]
  {
    var one := [last];
    assert one[1..] == [];
  }

  /** Without its final separator a terminated string splits into its parts. */
  lemma {:induction false} SplitUnterminated(parts: seq<bytes>, sep: byte)
    requires parts != []
    requires SepFree(parts, sep)
    ensures var t := Terminated(parts, sep);
            |t| > 0 && t[|t| - 1] == sep && Split(t[..|t| - 1], sep) == parts
  {
    var front, last := parts[..|parts| - 1], parts[|parts| - 1];
    assert parts == front + [last];
    SplitTerminated(front, sep, last);
    TerminatedAppend(front, [last], sep);
    TerminatedOne(last, sep);
    hide Terminated, Split;
    var t := Terminated(parts, sep);
    assert t[..|t| - 1] == Terminated(front, sep) + last;
  }

  lemma {:induction false} FirstSeparator(s: bytes, sep: byte)
    requires IndexOf(s, sep) < |s|
    ensures var i := IndexOf(s, sep); s == s[..i] + [sep] + s[i + 1..] && sep !in s[..i]
  {
  }

  lemma {:induction false} OnePart(s: bytes, sep: byte)
    ensures Terminated([s][..0], sep) + [s][0] == s
    ensures SepFree([s][..0], sep) && (IndexOf(s, sep) == |s| ==> SepFree([s], sep))
  {
    assert [s][..0] == [] && [] + s == s;
  }

  lemma {:induction false} JoinsCons(head: bytes, parts: seq<bytes>, sep: byte)
    requires parts != []
    ensures var all := [head] + parts;
            && Terminated(all[..|all| - 1], sep) + all[|all| - 1]
               == head + [sep] + (Terminated(parts[..|parts| - 1], sep) + parts[|parts| - 1])
            && (sep !in head && SepFree(parts, sep) ==> SepFree(all, sep))
  {
    var all := [head] + parts;
    assert all[..|all| - 1] == [head] + parts[..|parts| - 1];
    assert ([head] + parts[..|parts| - 1])[1..] == parts[..|parts| - 1];
  }

  lemma {:induction false} SplitStep(s: bytes, sep: byte)
    ensures var i := IndexOf(s, sep);
            Split(s, sep) == if i == |s| then [s] else [s[..i]] + Split(s[i + 1..], sep)
  {
  }

  lemma {:induction false} SplitNStep(s: bytes, n: nat, sep: byte)
    requires n > 0
    ensures var i := IndexOf(s, sep);
            SplitN(s, n, sep) == if n == 1 || i == |s| then [s] else [s[..i]] + SplitN(s[i + 1..], n - 1, sep)
  {
  }

  /** Every string is its parts, each but the last followed by the separator. */
  lemma {:induction false} SplitJoins(s: bytes, sep: byte)
    ensures var parts := Split(s, sep);
            && SepFree(parts, sep)
            && s == Terminated(parts[..|parts| - 1], sep) + parts[|parts| - 1]
    decreases |s|
  {
    hide *;
    var i := IndexOf(s, sep);
    SplitStep(s, sep);
    if i == |s| {
      OnePart(s, sep);
    } else {
      FirstSeparator(s, sep);
      SplitJoins(s[i + 1..], sep);
      JoinsCons(s[..i], Split(s[i + 1..], sep), sep);
    }
  }

  /** The same for at most `n` parts: all but the last are free of the separator. */
  lemma {:induction false} SplitNJoins(s: bytes, n: nat, sep: byte)
    requires n > 0
    ensures var parts := SplitN(s, n, sep);
            && parts != [] && SepFree(parts[..|parts| - 1], sep)
            && s == Terminated(parts[..|parts| - 1], sep) + parts[|parts| - 1]
    decreases n
  {
    hide *;
    var i := IndexOf(s, sep);
    SplitNStep(s, n, sep);
    if n == 1 || i == |s| {
      OnePart(s, sep);
    } else {
      var parts := SplitN(s[i + 1..], n - 1, sep);
      FirstSeparator(s, sep);
      SplitNJoins(s[i + 1..], n - 1, sep);
      JoinsCons(s[..i], parts, sep);
      FrontOfCons(s[..i], parts, sep);
    }
  }

  lemma {:induction false} FrontOfCons(head: bytes, parts: seq<bytes>, sep: byte)
    requires parts != [] && sep !in head && SepFree(parts[..|parts| - 1], sep)
    ensures SepFree(([head] + parts)[..|parts|], sep)
  {
    assert ([head] + parts)[..|parts|] == [head] + parts[..|parts| - 1];
  }

  lemma {:induction false} TerminatedAppend(a: seq<bytes>, b: seq<bytes>, sep: byte)
    ensures Terminated(a + b, sep) == Terminated(a, sep) + Terminated(b, sep)
    decreases |a|
  {
    if a == [] {
      assert a + b == b;
    } else {
      assert (a + b)[1..] == a[1..] + b;
      TerminatedAppend(a[1..], b, sep);
    }
  }

  /** The last part is empty exactly when nothing follows the last separator. */
  lemma {:induction false} SplitLast(s: bytes, sep: byte)
    ensures var parts := Split(s, sep); parts[|parts| - 1] == [] <==> s == [] || s[|s| - 1] == sep
    decreases |s|
  {
    var i := IndexOf(s, sep);
    if i < |s| {
      var rest := s[i + 1..];
      SplitLast(rest, sep);
      assert Split(s, sep) == [s[..i]] + Split(rest, sep);
      assert rest != [] ==> rest[|rest| - 1] == s[|s| - 1];
    }
  }

  /** `cut` is `parts` stopped inside, or at the end of, one of its parts. */
  ghost predicate Stops(cut: seq<bytes>, parts: seq<bytes>)
  {
    && 1 <= |cut| <= |parts|
    && cut[..|cut| - 1] == parts[..|cut| - 1]
    && cut[|cut| - 1] <= parts[|cut| - 1]
  }

  lemma {:induction false} ConsStops(f: bytes, cut: seq<bytes>, parts: seq<bytes>)
    requires Stops(cut, parts)
    ensures Stops([f] + cut, [f] + parts)
  {
    assert ([f] + cut)[..|cut|] == [f] + cut[..|cut| - 1];
    assert ([f] + parts)[..|cut|] == [f] + parts[..|cut| - 1];
  }

  /** Cutting a string cuts its split: whole parts are kept, the last one is shortened. */
  lemma {:induction false} SplitCut(s: bytes, sep: byte, k: nat)
    requires k <= |s|
    ensures Stops(Split(s[..k], sep), Split(s, sep))
    decreases |s|
  {
    hide Split, Stops, IndexOf;
    var i := IndexOf(s, sep);
    SplitStep(s, sep);
    if k <= i {
      CutOfPart(s, sep, k);
    } else {
      var rest := s[i + 1..];
      FirstSeparator(s, sep);
      assert s[..k] == s[..i] + [sep] + rest[..k - i - 1];
      SplitHead(s[..i], sep, rest[..k - i - 1]);
      SplitCut(rest, sep, k - i - 1);
      ConsStops(s[..i], Split(rest[..k - i - 1], sep), Split(rest, sep));
    }
  }

  /** A cut within the first part. */
  lemma {:induction false} CutOfPart(s: bytes, sep: byte, k: nat)
    requires k <= IndexOf(s, sep)
    ensures Stops(Split(s[..k], sep), Split(s, sep))
  {
    assert s[..k] == s[..IndexOf(s, sep)][..k];
    SplitWhole(s[..k], sep);
  }

  // ---------------------------------------------------------------- decimals

  predicate IsDigit(b: byte) { '0' <= b <= '9' }

  predicate AllDigits(s: bytes) { forall i :: 0 <= i < |s| ==> IsDigit(s[i]) }

  predicate LowerHex(b: byte) { IsDigit(b) || 'a' <= b <= 'f' }

  /** A whole object identifier: 40 or 64 lower-case hexadecimal digits. */
  predicate IsOid(s: bytes) { (|s| == 40 || |s| == 64) && forall i :: 0 <= i < |s| ==> LowerHex(s[i]) }

  function DigitOf(n: nat): (b: byte)
    requires n < 10
    ensures IsDigit(b)
  {
    (n + '0' as int) as char
  }

  /** The number a string of digits denotes. */
  function Value(s: bytes): nat
    requires AllDigits(s)
  {
    if s == [] then 0 else 10 * Value(s[..|s| - 1]) + (s[|s| - 1] as int - '0' as int)
  }

  /** The shortest numeral. */
  function Decimal(n: nat): (s: bytes)
    ensures AllDigits(s) && s != []
  {
    if n < 10 then [DigitOf(n)] else Decimal(n / 10) + [DigitOf(n % 10)]
  }

  /** No leading zero unless the numeral is "0". */
  predicate Canonical(s: bytes) { s != [] && AllDigits(s) && (|s| > 1 ==> s[0] != '0') }

  lemma {:induction false} DecimalValue(n: nat)
    ensures Value(Decimal(n)) == n
    ensures Canonical(Decimal(n))
    ensures n > 0 ==> Decimal(n)[0] != '0'
    decreases n
  {
    if n >= 10 {
      DecimalValue(n / 10);
      var s := Decimal(n);
      assert s[..|s| - 1] == Decimal(n / 10);
    }
  }

  /** Canonical numerals and natural numbers correspond one to one. */
  lemma {:induction false} ValueDecimal(s: bytes)
    requires Canonical(s)
    ensures Decimal(Value(s)) == s
    ensures |s| > 1 ==> Value(s) >= 10
    decreases |s|
  {
    if |s| == 1 {
      assert s[..0] == [];
    } else {
      var front := s[..|s| - 1];
      var d := s[|s| - 1] as int - '0' as int;
      ValueDecimal(front);
      if |front| == 1 { assert front[..0] == []; }
      assert Value(s) / 10 == Value(front) && Value(s) % 10 == d;
      assert s == front + [s[|s| - 1]];
    }
  }

  lemma {:induction false} DecimalLength(n: nat, k: nat, bound: nat)
    requires n < bound && bound == Pow10(k) && k >= 1
    ensures |Decimal(n)| <= k
    decreases k
  {
    if n >= 10 {
      assert k >= 2;
      DecimalLength(n / 10, k - 1, Pow10(k - 1));
    }
  }

  function Pow10(k: nat): nat { if k == 0 then 1 else 10 * Pow10(k - 1) }

  /** `str::parse::<u64>` on a string already known to hold digits only: fails on overflow. */
  function ParseU64(s: bytes): (r: Option<u64>)
    requires AllDigits(s) && s != []
  {
    if Value(s) <= U64_MAX then Some(Value(s)) else None
  }

  // ---------------------------------------------------------------- order

  /** Byte order. */
  predicate BytesLess(a: bytes, b: bytes)
  {
    if b == [] then false
    else if a == [] then true
    else a[0] < b[0] || (a[0] == b[0] && BytesLess(a[1..], b[1..]))
  }

  lemma {:induction false} BytesOrder(a: bytes, b: bytes, c: bytes)
    ensures !BytesLess(a, a)
    ensures BytesLess(a, b) && BytesLess(b, c) ==> BytesLess(a, c)
    ensures a == b || BytesLess(a, b) || BytesLess(b, a)
    decreases |a| + |b| + |c|
  {
    if a != [] {
      BytesOrder(a[1..], if b == [] then [] else b[1..], if c == [] then [] else c[1..]);
      if b != [] { assert a == [a[0]] + a[1..] && b == [b[0]] + b[1..]; }
    }
  }

  /** The order is that of the first difference, and a beginning comes before what it begins. */
  lemma {:induction false} BytesLessExactly(a: bytes, b: bytes)
    ensures BytesLess(a, b) <==> exists k: nat :: FirstDifference(a, b, k)
    decreases |a|
  {
    if b != [] && a != [] {
      BytesLessExactly(a[1..], b[1..]);
      if a[0] == b[0] {
        forall k: nat | 0 < k ensures FirstDifference(a, b, k) <==> FirstDifference(a[1..], b[1..], k - 1) {
          DifferenceRest(a, b, k);
        }
        if k: nat :| FirstDifference(a[1..], b[1..], k) { assert FirstDifference(a, b, k + 1); }
        if k: nat :| FirstDifference(a, b, k) { assert FirstDifference(a[1..], b[1..], k - 1); }
      } else {
        assert FirstDifference(a, b, 0) <==> a[0] < b[0];
      }
    } else {
      assert FirstDifference(a, b, 0) <==> b != [];
    }
  }

  predicate FirstDifference(a: bytes, b: bytes, k: nat)
  {
    k < |b| && k <= |a| && a[..k] == b[..k] && (k < |a| ==> a[k] < b[k])
  }

  lemma {:induction false} DifferenceRest(a: bytes, b: bytes, k: nat)
    requires a != [] && b != [] && a[0] == b[0] && k > 0
    ensures FirstDifference(a, b, k) <==> FirstDifference(a[1..], b[1..], k - 1)
  {
    if k <= |a| && k <= |b| {
      assert a[..k] == [a[0]] + a[1..][..k - 1] && b[..k] == [b[0]] + b[1..][..k - 1];
      if a[..k] == b[..k] { assert a[1..][..k - 1] == a[..k][1..] && b[1..][..k - 1] == b[..k][1..]; }
    }
  }
}
