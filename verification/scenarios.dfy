/**
 Whole runs over concrete streams: a minimal well-formed PNG (a 1x1 greyscale
 image at depth 8 in one stored block), the same stream with one signature
 byte corrupted, and the same stream cut inside the IDAT chunk's length.
 Every result holds for any checksum provider: the chunks carry whatever
 CRC-32 and Adler-32 the provider computes for them.
 */
module Scenarios {
  import opened Bytes
  import opened Wrappers
  import opened Checksums
  import opened Chunks
  import opened Ihdr
  import opened Zlib
  import opened Scanlines
  import opened Events
  import opened Idat
  import opened Signature
  import opened Walker

  /** Width 1, height 1, depth 8, greyscale, no interlacing. */
  const MinimalHeader: ImageHeader := ImageHeader(1, 1, 8, 0, 0, 0, 0)

  /** The one row: filter type 0 and one grey sample. */
  const MinimalRows: seq<byte> := [0, 0]

  /** The zlib header a writer puts before stored blocks: deflate, 32K window, fastest level. */
  const StoredZlib: ZlibHeader := ZlibHeader(0x78, 0x01)

  /** A chunk carrying the CRC-32 of its type and data. */
  function Sealed(kind: seq<byte>, data: seq<byte>, sums: Provider): (c: Chunk)
    requires |kind| == 4 && |data| < 0x1_0000_0000
    ensures c.Valid() && c.kind == kind && c.data == data
    ensures c.storedCrc == sums.crc32(c.kind + c.data)
  {
    Chunk(kind, data, sums.crc32(kind + data))
  }

  function HeaderChunk(sums: Provider): Chunk {
    Sealed(IHDR, EncodeHeader(MinimalHeader), sums)
  }

  function DataChunk(sums: Provider): Chunk {
    Sealed(IDAT, EncodeStoredIdat(StoredZlib, MinimalRows, sums), sums)
  }

  function EndChunk(sums: Provider): Chunk {
    Sealed(IEND, [], sums)
  }

  /** The signature followed by the IHDR, IDAT and IEND chunks. */
  function MinimalPng(sums: Provider): seq<byte> {
    PngSignature + MinimalChunks(sums)
  }

  /** The three chunks of the minimal stream, one after the other. */
  function MinimalChunks(sums: Provider): seq<byte> {
    Encode(HeaderChunk(sums)) + (Encode(DataChunk(sums)) + Encode(EndChunk(sums)))
  }

  /** The minimal image's one stored block is exactly as long as its header calls for. */
  lemma MinimalRowsFit()
    ensures ExpectedStoredLength(MinimalHeader) == |MinimalRows|
    ensures StoredZlib.CheckPasses()
  {
  }

  /** A chunk with the right CRC whose IHDR or IDAT checks find nothing draws no defect. */
  lemma CleanChunk(c: Chunk, header: Option<ImageHeader>, sums: Provider)
    requires c.Valid() && c.storedCrc == sums.crc32(c.kind + c.data)
    requires Defects(Dispatch(c, header, sums)) == []
    ensures Defects(ProcessChunk(c, header, sums).events) == []
  {
    ProcessChunkDefects(c, header, sums);
  }

  /** Framing reads a chunk other than IEND and goes on with what follows it. */
  lemma SplitStep(c: Chunk, rest: seq<byte>)
    requires c.Valid() && !c.IsEnd()
    ensures Split(Encode(c) + rest) == Frames([c] + Split(rest).chunks, Split(rest).status)
  {
    ReadEncoded(c, rest);
  }

  /** Framing reads an IEND chunk and stops with success. */
  lemma SplitEnd(c: Chunk)
    requires c.Valid() && c.IsEnd()
    ensures Split(Encode(c)) == Frames([c], Done)
  {
    assert Encode(c) + [] == Encode(c);
    ReadEncoded(c, []);
  }

  /** Past a chunk other than IEND that draws no defect, the walk draws the defects of the walk of what follows it. */
  lemma CleanStep(c: Chunk, rest: seq<byte>, header: Option<ImageHeader>, sums: Provider)
    requires c.Valid() && !c.IsEnd()
    requires Defects(ProcessChunk(c, header, sums).events) == []
    ensures Defects(WalkChunks(Encode(c) + rest, header, sums).events)
      == Defects(WalkChunks(rest, ProcessChunk(c, header, sums).header, sums).events)
  {
    var step := ProcessChunk(c, header, sums);
    ReadEncoded(c, rest);
    WalkUnfolds(Encode(c) + rest, c, rest, header, sums);
    DefectsAppend(step.events, WalkChunks(rest, step.header, sums).events);
  }

  /** A chunk other than IEND that draws no defect, before a rest whose walk draws none in the header it leaves, draws none. */
  lemma CleanBefore(c: Chunk, rest: seq<byte>, header: Option<ImageHeader>, next: Option<ImageHeader>, sums: Provider)
    requires c.Valid() && !c.IsEnd()
    requires Defects(ProcessChunk(c, header, sums).events) == [] && ProcessChunk(c, header, sums).header == next
    requires Defects(WalkChunks(rest, next, sums).events) == []
    ensures Defects(WalkChunks(Encode(c) + rest, header, sums).events) == []
  {
    CleanStep(c, rest, header, sums);
  }

  /** A chunk other than IEND that draws no defect, before too few bytes for another chunk, leaves only the premature end. */
  lemma CleanBeforeEnd(c: Chunk, rest: seq<byte>, header: Option<ImageHeader>, sums: Provider)
    requires c.Valid() && !c.IsEnd() && |rest| < 4
    requires Defects(ProcessChunk(c, header, sums).events) == []
    ensures Defects(WalkChunks(Encode(c) + rest, header, sums).events) == [PrematureEof]
  {
    CleanStep(c, rest, header, sums);
    OnlyEof(rest, ProcessChunk(c, header, sums).header, sums);
  }

  /** Too few bytes for a length field draw the premature end alone. */
  lemma OnlyEof(rest: seq<byte>, header: Option<ImageHeader>, sums: Provider)
    requires |rest| < 4
    ensures Defects(WalkChunks(rest, header, sums).events) == [PrematureEof]
  {
    WalkStops(rest, header, sums);
    assert [PrematureEof][1..] == [];
  }

  /** An IEND chunk that draws no defect ends the walk with no defect. */
  lemma CleanEnd(c: Chunk, header: Option<ImageHeader>, sums: Provider)
    requires c.Valid() && c.IsEnd()
    requires Defects(ProcessChunk(c, header, sums).events) == []
    ensures Defects(WalkChunks(Encode(c), header, sums).events) == []
  {
    assert Encode(c) + [] == Encode(c);
    ReadEncoded(c, []);
    WalkEndsAt(Encode(c), c, [], header, sums);
  }

  /** The IHDR chunk draws no defect and puts the minimal header in force. */
  lemma HeaderChunkClean(sums: Provider)
    ensures var step := ProcessChunk(HeaderChunk(sums), None, sums);
      Defects(step.events) == [] && step.header == Some(MinimalHeader)
  {
    DecodeEncoded(MinimalHeader, []);
    assert EncodeHeader(MinimalHeader) + [] == EncodeHeader(MinimalHeader);
    CleanChunk(HeaderChunk(sums), None, sums);
  }

  /** Under the minimal header, the IDAT chunk draws no defect. */
  lemma DataChunkClean(sums: Provider)
    ensures Defects(ProcessChunk(DataChunk(sums), Some(MinimalHeader), sums).events) == []
  {
    MinimalRowsFit();
    StoredIdatAccepted(StoredZlib, MinimalRows, MinimalHeader, sums);
    CleanChunk(DataChunk(sums), Some(MinimalHeader), sums);
  }

  lemma EndChunkClean(header: Option<ImageHeader>, sums: Provider)
    ensures Defects(ProcessChunk(EndChunk(sums), header, sums).events) == []
  {
    CleanChunk(EndChunk(sums), header, sums);
  }

  /** A chunk other than IEND and then an IEND chunk are framed back exactly, with success. */
  lemma SplitTwo(b: Chunk, c: Chunk)
    requires b.Valid() && c.Valid() && !b.IsEnd() && c.IsEnd()
    ensures Split(Encode(b) + Encode(c)) == Frames([b, c], Done)
  {
    SplitEnd(c);
    SplitStep(b, Encode(c));
  }

  /** Two chunks other than IEND and then an IEND chunk are framed back exactly, with success. */
  lemma SplitThree(a: Chunk, b: Chunk, c: Chunk)
    requires a.Valid() && b.Valid() && c.Valid() && !a.IsEnd() && !b.IsEnd() && c.IsEnd()
    ensures Split(Encode(a) + (Encode(b) + Encode(c))) == Frames([a, b, c], Done)
  {
    SplitTwo(b, c);
    SplitStep(a, Encode(b) + Encode(c));
    assert [a] + [b, c] == [a, b, c];
  }

  /** The chunks of the minimal stream are framed back exactly, with success. */
  lemma MinimalChunksSplit(sums: Provider)
    ensures Split(MinimalChunks(sums)) == Frames([HeaderChunk(sums), DataChunk(sums), EndChunk(sums)], Done)
  {
    SplitThree(HeaderChunk(sums), DataChunk(sums), EndChunk(sums));
  }

  /** Walking the IEND chunk draws no defect, whatever header is in force. */
  lemma EndPartClean(header: Option<ImageHeader>, sums: Provider)
    ensures Defects(WalkChunks(Encode(EndChunk(sums)), header, sums).events) == []
  {
    EndChunkClean(header, sums);
    CleanEnd(EndChunk(sums), header, sums);
  }

  /** Walking the IDAT and IEND chunks under the minimal header draws no defect. */
  lemma DataPartClean(sums: Provider)
    ensures Defects(WalkChunks(Encode(DataChunk(sums)) + Encode(EndChunk(sums)), Some(MinimalHeader), sums).events) == []
  {
    var h := ProcessChunk(DataChunk(sums), Some(MinimalHeader), sums).header;
    DataChunkClean(sums);
    EndPartClean(h, sums);
    CleanBefore(DataChunk(sums), Encode(EndChunk(sums)), Some(MinimalHeader), h, sums);
  }

  /** Walking the chunks of the minimal stream draws no defect. */
  lemma MinimalChunksClean(sums: Provider)
    ensures Defects(WalkChunks(MinimalChunks(sums), None, sums).events) == []
  {
    HeaderChunkClean(sums);
    DataPartClean(sums);
    CleanBefore(HeaderChunk(sums), Encode(DataChunk(sums)) + Encode(EndChunk(sums)), None, Some(MinimalHeader), sums);
  }

  /** Scenario A: the minimal PNG is walked to its IEND chunk with no finding. */
  lemma MinimalPngAccepted(sums: Provider)
    ensures Walk(MinimalPng(sums), sums).status == Done
    ensures Defects(Walk(MinimalPng(sums), sums).events) == []
  {
    var file := MinimalPng(sums);
    assert file[..8] == PngSignature && file[8..] == MinimalChunks(sums);
    SignatureAccepted(file);
    MinimalChunksSplit(sums);
    MinimalChunksClean(sums);
  }

  /**
   Scenario B: with its third signature byte replaced, the minimal PNG draws
   exactly one finding, for that byte, and is still walked to its IEND chunk.
   */
  lemma CorruptSignatureReported(sums: Provider, x: byte)
    requires x != PngSignature[2]
    ensures var file := MinimalPng(sums)[2 := x];
      && Walk(file, sums).status == Done
      && Defects(Walk(file, sums).events) == [SignatureMismatch(2, PngSignature[2], x)]
  {
    var file := MinimalPng(sums)[2 := x];
    assert file[8..] == MinimalChunks(sums);
    forall i | 0 <= i < 8 && i != 2
      ensures file[i] == PngSignature[i]
    {
      assert file[i] == MinimalPng(sums)[i];
    }
    OneCorruptByte(file, 2);
    MinimalChunksSplit(sums);
    MinimalChunksClean(sums);
  }

  /** The minimal stream cut `j` bytes into the IDAT chunk: the signature, the IHDR chunk and those `j` bytes. */
  function TruncatedPng(sums: Provider, j: nat): seq<byte>
    requires j < 4
  {
    PngSignature + (Encode(HeaderChunk(sums)) + Encode(DataChunk(sums))[..j])
  }

  /** The truncated stream is a proper prefix of the minimal one, cut before the IDAT chunk's length is complete. */
  lemma TruncatedIsPrefix(sums: Provider, j: nat)
    requires j < 4
    ensures var t := TruncatedPng(sums, j);
      |t| == |PngSignature| + |Encode(HeaderChunk(sums))| + j
      && |t| < |MinimalPng(sums)| && MinimalPng(sums)[..|t|] == t
  {
  }

  /** The IHDR chunk is framed, and the cut IDAT length ends the framing without success. */
  lemma TruncatedSplit(sums: Provider, j: nat)
    requires j < 4
    ensures var file := TruncatedPng(sums, j);
      Split(file[ChunkStart(file)..]) == Frames([HeaderChunk(sums)], Aborted)
  {
    var hc := HeaderChunk(sums);
    var file := TruncatedPng(sums, j);
    var cut := Encode(DataChunk(sums))[..j];
    assert file[8..] == Encode(hc) + cut;
    SplitStep(hc, cut);
    assert ReadChunk(cut).Truncated?;
    assert [hc] + [] == [hc];
  }

  /** Walking the IHDR chunk and the cut IDAT length draws the premature end and nothing else. */
  lemma TruncatedWalk(sums: Provider, j: nat)
    requires j < 4
    ensures var file := TruncatedPng(sums, j);
      Defects(WalkChunks(file[ChunkStart(file)..], None, sums).events) == [PrematureEof]
  {
    var hc := HeaderChunk(sums);
    var file := TruncatedPng(sums, j);
    var cut := Encode(DataChunk(sums))[..j];
    assert file[8..] == Encode(hc) + cut;
    HeaderChunkClean(sums);
    CleanBeforeEnd(hc, cut, None, sums);
  }

  /**
   Scenario C: the minimal PNG cut inside the IDAT chunk's length field draws
   exactly one finding, the premature end, and aborts with only the IHDR chunk
   framed, before any IEND chunk.
   */
  lemma TruncatedLengthAborts(sums: Provider, j: nat)
    requires j < 4
    ensures var file := TruncatedPng(sums, j);
      && Split(file[ChunkStart(file)..]) == Frames([HeaderChunk(sums)], Aborted)
      && Walk(file, sums).status == Aborted
      && Defects(Walk(file, sums).events) == [PrematureEof]
  {
    var file := TruncatedPng(sums, j);
    assert file[..8] == PngSignature;
    SignatureAccepted(file);
    TruncatedSplit(sums, j);
    TruncatedWalk(sums, j);
  }
}
