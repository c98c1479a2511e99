/**
 The stream driver: check the signature, then read chunk after chunk, report
 each one, hand IHDR and IDAT chunks to their decoders, and stop after the
 first IEND chunk (success) or when the stream ends too early (failure).
 Defects other than a premature end never stop the walk.
 */
module Walker {
  import opened Bytes
  import opened Wrappers
  import opened Checksums
  import opened Chunks
  import opened Ihdr
  import opened Events
  import opened Idat
  import opened Signature

  datatype Status = Done | Aborted

  /** Everything a run reports, in order, and how it ended. */
  datatype Outcome = Outcome(events: seq<Event>, status: Status)

  /** What one chunk reports, and the image header in force after it. */
  datatype Step = Step(events: seq<Event>, header: Option<ImageHeader>)

  /** The CRC-32 the validator computes: over the type and data, `length + 4` bytes. */
  function ComputedCrc(c: Chunk, sums: Provider): u32 {
    sums.crc32(c.kind + c.data)
  }

  /** The events after the CRC check: the IHDR fields, or the IDAT checks, or nothing. */
  function Dispatch(c: Chunk, header: Option<ImageHeader>, sums: Provider): (body: seq<Event>)
    requires c.Valid()
    ensures Defects(body) ==
      (if c.IsHeader() && |c.data| < HeaderSize then [MalformedIhdr(c.Length())] else [])
      + (if c.IsData() then Defects(ValidateIdat(c.data, header, sums)) else [])
    ensures CrcMismatch !in body && PrematureEof !in body
  {
    if c.IsHeader() then
      match DecodeHeader(c.data)
      case Some(h) => [HeaderFields(h)]
      case None => [MalformedIhdr(c.Length())]
    else if c.IsData() then
      assert c.kind != IHDR;
      var r := ValidateIdat(c.data, header, sums);
      IdatDefectKinds(c.data, header, sums);
      assert IsDefect(CrcMismatch) && IsDefect(PrematureEof);
      r
    else
      []
  }

  /** The CRC finding of one chunk: a mismatch between the stored and the computed CRC-32. */
  function CrcCheck(c: Chunk, sums: Provider): (r: seq<Event>)
    ensures Defects(r) == r
    ensures CrcMismatch in r <==> c.storedCrc != sums.crc32(c.kind + c.data)
    ensures PrematureEof !in r
  {
    if c.storedCrc == ComputedCrc(c, sums) then [] else [CrcMismatch]
  }

  /** The header in force after a chunk: a decodable IHDR chunk replaces it. */
  function NextHeader(c: Chunk, header: Option<ImageHeader>): (h: Option<ImageHeader>)
    ensures c.IsHeader() && |c.data| >= HeaderSize ==> h.Some? && EncodeHeader(h.value) == c.data[..HeaderSize]
    ensures !(c.IsHeader() && |c.data| >= HeaderSize) ==> h == header
  {
    if c.IsHeader() && DecodeHeader(c.data).Some? then DecodeHeader(c.data) else header
  }

  /**
   Reports one chunk: its summary line, a CRC mismatch, then the IHDR fields or
   the IDAT checks. An IHDR chunk replaces the header in force; no other chunk
   changes it.
   */
  function ProcessChunk(c: Chunk, header: Option<ImageHeader>, sums: Provider): (r: Step)
    requires c.Valid()
    ensures |r.events| > 0
    ensures r.events[0] == ChunkSummary(c.kind, PropertyFlags(c.kind), c.Length(), c.storedCrc, sums.crc32(c.kind + c.data))
    ensures CrcMismatch in r.events <==> c.storedCrc != sums.crc32(c.kind + c.data)
    ensures r.header == NextHeader(c, header)
    ensures PrematureEof !in r.events
  {
    var summary := ChunkSummary(c.kind, PropertyFlags(c.kind), c.Length(), c.storedCrc, ComputedCrc(c, sums));
    var crcCheck := CrcCheck(c, sums);
    var body := Dispatch(c, header, sums);
    assert forall e | e in [summary] + crcCheck + body :: e == summary || e in crcCheck || e in body;
    Step([summary] + crcCheck + body, NextHeader(c, header))
  }

  /** The defects of one chunk: its CRC finding first, then those of the IHDR or IDAT checks. */
  lemma ProcessChunkDefects(c: Chunk, header: Option<ImageHeader>, sums: Provider)
    requires c.Valid()
    ensures Defects(ProcessChunk(c, header, sums).events) == CrcCheck(c, sums) + Defects(Dispatch(c, header, sums))
  {
    var summary := ChunkSummary(c.kind, PropertyFlags(c.kind), c.Length(), c.storedCrc, ComputedCrc(c, sums));
    SummaryThenDefects(summary, CrcCheck(c, sums), Dispatch(c, header, sums));
  }

  lemma SummaryThenDefects(summary: Event, crcCheck: seq<Event>, body: seq<Event>)
    requires !IsDefect(summary) && Defects(crcCheck) == crcCheck
    ensures Defects([summary] + crcCheck + body) == crcCheck + Defects(body)
  {
    DefectsAppend([summary], crcCheck);
    DefectsAppend([summary] + crcCheck, body);
  }

  /** Validates a list of chunks in order, threading the header from each chunk to the next. */
  function ValidateAll(cs: seq<Chunk>, header: Option<ImageHeader>, sums: Provider): (r: Step)
    requires forall i | 0 <= i < |cs| :: cs[i].Valid()
  {
    if cs == [] then
      Step([], header)
    else
      var first := ProcessChunk(cs[0], header, sums);
      var rest := ValidateAll(cs[1..], first.header, sums);
      Step(first.events + rest.events, rest.header)
  }

  /** The bytes a list of chunks occupies, one after the other. */
  function EncodeAll(cs: seq<Chunk>): seq<byte>
    requires forall i | 0 <= i < |cs| :: cs[i].Valid()
  {
    if cs == [] then [] else Encode(cs[0]) + EncodeAll(cs[1..])
  }

  lemma EncodeAllCons(c: Chunk, cs: seq<Chunk>)
    requires c.Valid() && forall i | 0 <= i < |cs| :: cs[i].Valid()
    ensures forall i | 0 <= i < |[c] + cs| :: ([c] + cs)[i].Valid()
    ensures EncodeAll([c] + cs) == Encode(c) + EncodeAll(cs)
  {
    assert ([c] + cs)[1..] == cs;
  }

  lemma PrefixCons(a: seq<byte>, rest: seq<byte>, b: seq<byte>)
    requires |b| <= |rest| && rest[..|b|] == b
    ensures |a + b| <= |a + rest| && (a + rest)[..|a + b|] == a + b
    ensures (a + rest)[|a + b|..] == rest[|b|..]
  {
  }

  /** The chunks of a stream as framing alone delimits them, and how the stream ends. */
  datatype Frames = Frames(chunks: seq<Chunk>, status: Status)

  /**
   Cuts a stream into chunks up to and including the first IEND. The result
   does not depend on any checksum: a CRC or IDAT defect never changes where
   the walk goes or how it ends.
   */
  function Split(s: seq<byte>): (f: Frames)
    decreases |s|
    ensures forall i | 0 <= i < |f.chunks| :: f.chunks[i].Valid()
    ensures |EncodeAll(f.chunks)| <= |s| && s[..|EncodeAll(f.chunks)|] == EncodeAll(f.chunks)
  {
    match ReadChunk(s)
    case Truncated => Frames([], Aborted)
    case Read(c, rest) =>
      if c.IsEnd() then
        assert EncodeAll([c]) == Encode(c);
        Frames([c], Done)
      else
        var f := Split(rest);
        EncodeAllCons(c, f.chunks);
        PrefixCons(Encode(c), rest, EncodeAll(f.chunks));
        Frames([c] + f.chunks, f.status)
  }

  /**
   The framing stops at the first IEND chunk, and succeeds exactly when there
   is one; otherwise the bytes after the last chunk are too few for another.
   */
  lemma {:induction false} SplitStops(s: seq<byte>)
    decreases |s|
    ensures var f := Split(s);
      && (f.status == Done <==> EndsAtLast(f.chunks))
      && (forall i | 0 <= i < |f.chunks| - 1 :: !f.chunks[i].IsEnd())
      && (f.status == Aborted ==>
            var rest := s[|EncodeAll(f.chunks)|..]; |rest| < 4 || |rest| < 12 + BigEndian32(rest[..4]))
  {
    match ReadChunk(s)
    case Truncated =>
      assert Split(s) == Frames([], Aborted);
    case Read(c, rest) =>
      if c.IsEnd() {
        assert Split(s) == Frames([c], Done);
      } else {
        var f := Split(rest);
        SplitStops(rest);
        assert Split(s) == Frames([c] + f.chunks, f.status);
        SplitStopsStep(s, c, rest, f);
      }
  }

  lemma SplitStopsStep(s: seq<byte>, c: Chunk, rest: seq<byte>, f: Frames)
    requires ReadChunk(s) == Read(c, rest) && !c.IsEnd() && f == Split(rest)
    requires f.status == Done <==> EndsAtLast(f.chunks)
    requires forall i | 0 <= i < |f.chunks| - 1 :: !f.chunks[i].IsEnd()
    requires f.status == Aborted ==>
      var tail := rest[|EncodeAll(f.chunks)|..]; |tail| < 4 || |tail| < 12 + BigEndian32(tail[..4])
    ensures forall i | 0 <= i < |[c] + f.chunks| :: ([c] + f.chunks)[i].Valid()
    ensures var g := Frames([c] + f.chunks, f.status);
      && (g.status == Done <==> EndsAtLast(g.chunks))
      && (forall i | 0 <= i < |g.chunks| - 1 :: !g.chunks[i].IsEnd())
      && (g.status == Aborted ==>
            var tail := s[|EncodeAll(g.chunks)|..]; |tail| < 4 || |tail| < 12 + BigEndian32(tail[..4]))
  {
    NoEndBeforeLast(c, f.chunks);
    EncodeAllCons(c, f.chunks);
    RestAfterCons(s, c, rest, f.chunks);
  }

  /** Putting a chunk other than IEND in front keeps IEND last, and only last. */
  lemma NoEndBeforeLast(c: Chunk, cs: seq<Chunk>)
    requires !c.IsEnd() && forall i | 0 <= i < |cs| - 1 :: !cs[i].IsEnd()
    ensures forall i | 0 <= i < |[c] + cs| - 1 :: !([c] + cs)[i].IsEnd()
    ensures EndsAtLast([c] + cs) <==> EndsAtLast(cs)
  {
    var ds := [c] + cs;
    forall i | 0 <= i < |ds| - 1
      ensures !ds[i].IsEnd()
    {
      if i > 0 {
        assert ds[i] == cs[i - 1];
      }
    }
    if |cs| > 0 {
      assert ds[|ds| - 1] == cs[|cs| - 1];
    }
  }

  /** What follows the chunks read after `c` follows `c` and those chunks in the whole stream. */
  lemma RestAfterCons(s: seq<byte>, c: Chunk, rest: seq<byte>, cs: seq<Chunk>)
    requires ReadChunk(s) == Read(c, rest)
    requires forall i | 0 <= i < |cs| :: cs[i].Valid()
    requires |EncodeAll(cs)| <= |rest|
    ensures forall i | 0 <= i < |[c] + cs| :: ([c] + cs)[i].Valid()
    ensures |EncodeAll([c] + cs)| <= |s| && s[|EncodeAll([c] + cs)|..] == rest[|EncodeAll(cs)|..]
  {
    EncodeAllCons(c, cs);
  }

  predicate EndsAtLast(cs: seq<Chunk>) {
    && |cs| > 0
    && cs[|cs| - 1].IsEnd()
    && forall i | 0 <= i < |cs| - 1 :: !cs[i].IsEnd()
  }

  /** Chunks encoded one after the other, the last one IEND, are split back into exactly those chunks. */
  lemma {:induction false} SplitEncoded(cs: seq<Chunk>, rest: seq<byte>)
    requires forall i | 0 <= i < |cs| :: cs[i].Valid()
    requires EndsAtLast(cs)
    ensures Split(EncodeAll(cs) + rest) == Frames(cs, Done)
  {
    var c, more := cs[0], cs[1..];
    assert cs == [c] + more;
    ReadsFirst(c, more, rest);
    if more != [] {
      assert !c.IsEnd();
      SplitEncoded(more, rest);
    }
  }

  /**
   Chunks without IEND followed by too few bytes for the next chunk are split
   into exactly those chunks, and the walk aborts.
   */
  lemma {:induction false} SplitEncodedTruncated(cs: seq<Chunk>, rest: seq<byte>)
    requires forall i | 0 <= i < |cs| :: cs[i].Valid() && !cs[i].IsEnd()
    requires |rest| < 4 || |rest| < 12 + BigEndian32(rest[..4])
    ensures Split(EncodeAll(cs) + rest) == Frames(cs, Aborted)
  {
    if cs == [] {
      assert EncodeAll(cs) + rest == rest;
      assert ReadChunk(rest).Truncated?;
    } else {
      var c, more := cs[0], cs[1..];
      assert cs == [c] + more;
      ReadsFirst(c, more, rest);
      SplitEncodedTruncated(more, rest);
    }
  }

  /** The first chunk of an encoded list is read back, and the reading goes on at the second. */
  lemma ReadsFirst(c: Chunk, more: seq<Chunk>, rest: seq<byte>)
    requires c.Valid() && forall i | 0 <= i < |more| :: more[i].Valid()
    ensures forall i | 0 <= i < |[c] + more| :: ([c] + more)[i].Valid()
    ensures ReadChunk(EncodeAll([c] + more) + rest) == Read(c, EncodeAll(more) + rest)
  {
    EncodeAllCons(c, more);
    var tail := EncodeAll(more) + rest;
    assert EncodeAll([c] + more) + rest == Encode(c) + tail;
    ReadEncoded(c, tail);
  }

  /** The chunk loop: reads a chunk, reports it, and goes on unless it was IEND. */
  function WalkChunks(s: seq<byte>, header: Option<ImageHeader>, sums: Provider): (r: Outcome)
    decreases |s|
    ensures r.status == Split(s).status
    ensures |r.events| > 0
    ensures r.status == Aborted <==> r.events[|r.events| - 1] == PrematureEof
    ensures EofOnlyLast(r.events)
  {
    match ReadChunk(s)
    case Truncated => Outcome([PrematureEof], Aborted)
    case Read(c, rest) =>
      var step := ProcessChunk(c, header, sums);
      if c.IsEnd() then
        assert step.events[|step.events| - 1] in step.events;
        Outcome(step.events, Done)
      else
        var tail := WalkChunks(rest, step.header, sums);
        EofStaysLast(step.events, tail.events);
        Outcome(step.events + tail.events, tail.status)
  }

  /** A premature-end report, if any, is the last event. */
  predicate EofOnlyLast(es: seq<Event>) {
    forall i | 0 <= i < |es| - 1 :: es[i] != PrematureEof
  }

  lemma EofStaysLast(a: seq<Event>, b: seq<Event>)
    requires PrematureEof !in a && |b| > 0 && EofOnlyLast(b)
    ensures (a + b)[|a + b| - 1] == b[|b| - 1]
    ensures EofOnlyLast(a + b)
  {
    forall i | 0 <= i < |a + b| - 1
      ensures (a + b)[i] != PrematureEof
    {
      if i < |a| {
        assert (a + b)[i] == a[i];
        assert a[i] in a;
      } else {
        assert (a + b)[i] == b[i - |a|];
      }
    }
  }

  /** The loop is framing first, then validating every framed chunk in order, then a premature-end report. */
  lemma {:induction false} WalkIsSplitThenValidate(s: seq<byte>, header: Option<ImageHeader>, sums: Provider)
    decreases |s|
    ensures var f := Split(s);
      WalkChunks(s, header, sums).events
        == ValidateAll(f.chunks, header, sums).events + (if f.status == Aborted then [PrematureEof] else [])
  {
    match ReadChunk(s)
    case Truncated =>
      WalkStops(s, header, sums);
    case Read(c, rest) =>
      if c.IsEnd() {
        WalkEnds(s, c, rest, header, sums);
      } else {
        var step := ProcessChunk(c, header, sums);
        WalkUnfolds(s, c, rest, header, sums);
        WalkIsSplitThenValidate(rest, step.header, sums);
        ValidateAllCons(c, Split(rest).chunks, header, sums);
        AppendAssociates(step.events, ValidateAll(Split(rest).chunks, step.header, sums).events,
          if Split(rest).status == Aborted then [PrematureEof] else []);
      }
  }

  /** A stream too short for a chunk ends the loop with a premature-end report. */
  lemma WalkStops(s: seq<byte>, header: Option<ImageHeader>, sums: Provider)
    requires ReadChunk(s).Truncated?
    ensures Split(s) == Frames([], Aborted)
    ensures WalkChunks(s, header, sums).events == [PrematureEof]
  {
  }

  /** An IEND chunk is reported and ends the loop. */
  lemma WalkEnds(s: seq<byte>, c: Chunk, rest: seq<byte>, header: Option<ImageHeader>, sums: Provider)
    requires ReadChunk(s) == Read(c, rest) && c.IsEnd()
    ensures c.Valid()
    ensures Split(s) == Frames([c], Done)
    ensures WalkChunks(s, header, sums).events == ValidateAll([c], header, sums).events
  {
    ValidateAllCons(c, [], header, sums);
    assert [c] + [] == [c];
  }

  /** An IEND chunk ends the loop with success, after reporting that chunk alone. */
  lemma WalkEndsAt(s: seq<byte>, c: Chunk, rest: seq<byte>, header: Option<ImageHeader>, sums: Provider)
    requires ReadChunk(s) == Read(c, rest) && c.IsEnd()
    ensures c.Valid()
    ensures WalkChunks(s, header, sums) == Outcome(ProcessChunk(c, header, sums).events, Done)
  {
  }

  /** One step of the loop past a chunk other than IEND, for framing and walking alike. */
  lemma WalkUnfolds(s: seq<byte>, c: Chunk, rest: seq<byte>, header: Option<ImageHeader>, sums: Provider)
    requires ReadChunk(s) == Read(c, rest) && !c.IsEnd()
    ensures c.Valid()
    ensures Split(s) == Frames([c] + Split(rest).chunks, Split(rest).status)
    ensures var step := ProcessChunk(c, header, sums);
      WalkChunks(s, header, sums).events == step.events + WalkChunks(rest, step.header, sums).events
  {
  }

  lemma AppendAssociates<T>(a: seq<T>, b: seq<T>, c: seq<T>)
    ensures a + (b + c) == (a + b) + c
  {
  }

  lemma ValidateAllCons(c: Chunk, cs: seq<Chunk>, header: Option<ImageHeader>, sums: Provider)
    requires c.Valid() && forall i | 0 <= i < |cs| :: cs[i].Valid()
    ensures forall i | 0 <= i < |[c] + cs| :: ([c] + cs)[i].Valid()
    ensures var step := ProcessChunk(c, header, sums);
      ValidateAll([c] + cs, header, sums).events == step.events + ValidateAll(cs, step.header, sums).events
  {
    assert ([c] + cs)[0] == c;
    assert ([c] + cs)[1..] == cs;
  }

  /** Where the chunks start: after the 8 signature bytes, or at the end of a shorter stream. */
  function ChunkStart(file: seq<byte>): nat {
    if |file| < 8 then |file| else 8
  }

  /**
   A whole run: the signature findings first, then the chunk walk, which starts
   whatever the signature check found.
   */
  function Walk(file: seq<byte>, sums: Provider): (r: Outcome)
    ensures r.status == Split(file[ChunkStart(file)..]).status
    ensures Defects(r.events) == CheckSignature(file) + Defects(WalkChunks(file[ChunkStart(file)..], None, sums).events)
  {
    var signature := CheckSignature(file);
    var walk := WalkChunks(file[ChunkStart(file)..], None, sums);
    DefectsAppend(signature, walk.events);
    assert Defects(signature) == signature by { AllDefects(signature); }
    Outcome(signature + walk.events, walk.status)
  }

  lemma {:induction false} AllDefects(es: seq<Event>)
    requires forall e | e in es :: IsDefect(e)
    ensures Defects(es) == es
  {
    if es != [] {
      assert es[0] in es;
      AllDefects(es[1..]);
    }
  }

  /** Two streams that differ only in their signature bytes are walked alike after the signature. */
  lemma SignatureDoesNotStopWalk(file1: seq<byte>, file2: seq<byte>, sums: Provider)
    requires |file1| >= 8 && |file2| >= 8 && file1[8..] == file2[8..]
    ensures Walk(file1, sums).status == Walk(file2, sums).status
    ensures Defects(Walk(file1, sums).events)[|CheckSignature(file1)|..]
         == Defects(Walk(file2, sums).events)[|CheckSignature(file2)|..]
  {
  }
}
