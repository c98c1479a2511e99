/**
 What the validator reports, in order: the lines it prints for every chunk and
 every decoded header, and the defects it flags. Only the defects bear on
 whether the stream is well formed; the other events carry the decoded values.
 */
module Events {
  import opened Bytes
  import opened Chunks
  import opened Ihdr
  import opened Zlib

  datatype Event =
      /** Byte `index` (0-based) of the signature is `found` instead of `want`. */
    | SignatureMismatch(index: nat, want: byte, found: byte)
      /** The summary line printed for every chunk. */
    | ChunkSummary(kind: seq<byte>, flags: Flags, length: u32, storedCrc: u32, computedCrc: u32)
    | CrcMismatch
    | HeaderFields(header: ImageHeader)
      /** An IHDR chunk too short to hold the 13 header bytes. */
    | MalformedIhdr(length: u32)
      /** The zlib header lines; `flevel` is the FLEVEL value printed, which is `ZlibHeader.LevelAsWritten`. */
    | ZlibFields(zlib: ZlibHeader, flevel: nat)
    | FcheckMismatch
    | BlockFields(block: BlockHeader)
    | StoredFields(len: u16, nlen: u16)
    | NlenMismatch(complement: u16, nlen: u16)
    | StoredLengthMismatch(len: u16, expectedLen: nat)
    | AdlerFields(stored: u32, computed: u32)
    | AdlerMismatch
      /** An IDAT chunk whose `length` data bytes do not reach the `needed`-th byte it must read. */
    | MalformedIdat(needed: nat, length: u32)
    | PrematureEof

  predicate IsDefect(e: Event) {
    !(e.ChunkSummary? || e.HeaderFields? || e.ZlibFields? || e.BlockFields? || e.StoredFields? || e.AdlerFields?)
  }

  /** The defects among `es`, in order. */
  function Defects(es: seq<Event>): seq<Event>
  {
    if es == [] then []
    else if IsDefect(es[0]) then [es[0]] + Defects(es[1..])
    else Defects(es[1..])
  }

  /** `Defects` keeps every defect of `es` and nothing else. */
  lemma {:induction false} DefectsFilter(es: seq<Event>)
    ensures |Defects(es)| <= |es|
    ensures forall i | 0 <= i < |Defects(es)| :: IsDefect(Defects(es)[i]) && Defects(es)[i] in es
    ensures forall e | e in es && IsDefect(e) :: e in Defects(es)
  {
    if es != [] {
      DefectsFilter(es[1..]);
      assert forall e | e in es[1..] :: e in es;
      assert forall e | e in es :: e == es[0] || e in es[1..];
    }
  }

  lemma {:induction false} DefectsAppend(a: seq<Event>, b: seq<Event>)
    ensures Defects(a + b) == Defects(a) + Defects(b)
  {
    if a == [] {
      assert a + b == b;
    } else {
      assert (a + b)[1..] == a[1..] + b;
      DefectsAppend(a[1..], b);
    }
  }

  lemma {:induction false} NoDefects(es: seq<Event>)
    requires forall e | e in es :: !IsDefect(e)
    ensures Defects(es) == []
  {
    if es != [] {
      assert es[0] in es;
      NoDefects(es[1..]);
    }
  }
}
