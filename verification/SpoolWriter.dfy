/** The writer of one execution's raw output: it keeps the first 64 MiB and says when there was more. */
module SpoolWriter {
  import opened Wrappers
  import opened Bytes

  const RAW_SPOOL_SOURCE_CAP_BYTES: nat := 64 * 1024 * 1024

  /** What the disk does with a write: takes it, or fails after keeping some of it. */
  datatype Disk = Stored | Torn(kept: nat)

  datatype WriterState = WriterState(file: bytes, bytesWritten: nat, sourceTruncated: bool)

  const FRESH_WRITER := WriterState([], 0, false)

  /** The state after `write_source` and the count it returns, `None` for an I/O error. */
  function Write(w: WriterState, source: bytes, disk: Disk): (WriterState, Option<nat>)
  {
    var accepted := Min(SatSub(RAW_SPOOL_SOURCE_CAP_BYTES, w.bytesWritten), |source|);
    var marked := if accepted < |source| then w.(sourceTruncated := true) else w;
    if accepted == 0 then (marked, Some(0))
    else match disk
      case Torn(kept) => (marked.(file := w.file + source[..Min(kept, accepted)]), None)
      case Stored =>
        (marked.(file := w.file + source[..accepted], bytesWritten := w.bytesWritten + accepted), Some(accepted))
  }

  class RawSpoolWriter {
    var file: bytes
    var bytesWritten: nat
    var sourceTruncated: bool

    constructor ()
      ensures State() == FRESH_WRITER
    {
      file, bytesWritten, sourceTruncated := [], 0, false;
    }

    function State(): WriterState
      reads this
    {
      WriterState(file, bytesWritten, sourceTruncated)
    }

    method WriteSource(source: bytes, disk: Disk) returns (r: Option<nat>)
      modifies this
      ensures (State(), r) == Write(old(State()), source, disk)
    {
      var remaining := SatSub(RAW_SPOOL_SOURCE_CAP_BYTES, bytesWritten);
      var accepted := Min(remaining, |source|);
      if accepted < |source| { sourceTruncated := true; }
      if accepted == 0 { return Some(0); }
      match disk
      case Torn(kept) =>
        file := file + source[..Min(kept, accepted)];
        return None;
      case Stored =>
        file := file + source[..accepted];
        bytesWritten := bytesWritten + accepted;
        return Some(accepted);
    }
  }

  // ------------------------------------------------------------ many writes

  function Concat(sources: seq<bytes>): bytes
  {
    if sources == [] then [] else sources[0] + Concat(sources[1..])
  }

  function WriteAll(w: WriterState, sources: seq<bytes>): WriterState
    decreases |sources|
  {
    if sources == [] then w else WriteAll(Write(w, sources[0], Stored).0, sources[1..])
  }

  /** What a writer holds after taking `all`, however it was cut into writes. */
  function Holding(all: bytes): WriterState
  {
    var kept := Min(|all|, RAW_SPOOL_SOURCE_CAP_BYTES);
    WriterState(all[..kept], kept, |all| > RAW_SPOOL_SOURCE_CAP_BYTES)
  }

  lemma {:induction false} WriteExtends(all: bytes, source: bytes)
    ensures Write(Holding(all), source, Stored).0 == Holding(all + source)
  {
    var w := Write(Holding(all), source, Stored).0;
    var accepted := Min(RAW_SPOOL_SOURCE_CAP_BYTES - Min(|all|, RAW_SPOOL_SOURCE_CAP_BYTES), |source|);
    assert Holding(all + source).file == Holding(all).file + source[..accepted];
  }

  lemma {:induction false} ConcatHead(all: bytes, sources: seq<bytes>)
    requires sources != []
    ensures all + sources[0] + Concat(sources[1..]) == all + Concat(sources)
  {
  }

  /** The cap is exact and the flag deterministic: only the concatenation of the writes matters. */
  lemma {:induction false} WritesConcatenate(all: bytes, sources: seq<bytes>)
    ensures WriteAll(Holding(all), sources) == Holding(all + Concat(sources))
    decreases |sources|
  {
    if sources == [] {
      assert all + [] == all;
    } else {
      ConcatHead(all, sources);
      WriteExtends(all, sources[0]);
      WritesConcatenate(all + sources[0], sources[1..]);
    }
  }

  /** Whatever the disk does, a file never outgrows the cap while its writer is used only after successes. */
  lemma {:induction false} WriteStaysCapped(w: WriterState, source: bytes, disk: Disk)
    requires |w.file| == w.bytesWritten <= RAW_SPOOL_SOURCE_CAP_BYTES
    ensures var (w', r) := Write(w, source, disk);
            && w.file <= w'.file && |w'.file| <= RAW_SPOOL_SOURCE_CAP_BYTES
            && (r.Some? ==> |w'.file| == w'.bytesWritten)
            && (r.None? ==> disk.Torn? && w'.bytesWritten == w.bytesWritten)
  {
  }
}
