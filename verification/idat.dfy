/**
 The IDAT validator. The chunk's data is read as a zlib header (CMF, FLG), the
 first byte of a DEFLATE block and, for a stored block, LEN, NLEN, LEN data
 bytes and, in the chunk's last 4 bytes, the big-endian Adler-32 of the data.
 Every check reports its own finding and none stops the others.
 */
module Idat {
  import opened Bytes
  import opened Wrappers
  import opened Checksums
  import opened Ihdr
  import opened Zlib
  import opened Scanlines
  import opened Events

  /** Offset of the first stored byte: CMF, FLG, the block byte, LEN and NLEN come before it. */
  const StoredStart: nat := 7

  function ZlibOf(data: seq<byte>): ZlibHeader
    requires |data| >= 2
  {
    ZlibHeader(data[0], data[1])
  }

  function BlockOf(data: seq<byte>): BlockHeader
    requires |data| >= 3
  {
    BlockHeader(data[2])
  }

  /** A stored block whose LEN and NLEN lie inside the data. */
  predicate HasStoredLengths(data: seq<byte>) {
    |data| >= StoredStart && BlockOf(data).IsStored()
  }

  function LenOf(data: seq<byte>): u16
    requires |data| >= StoredStart
  {
    LittleEndian16(data[3], data[4])
  }

  function NlenOf(data: seq<byte>): u16
    requires |data| >= StoredStart
  {
    LittleEndian16(data[5], data[6])
  }

  /** The LEN stored bytes fit in the data. */
  predicate HasStoredData(data: seq<byte>) {
    HasStoredLengths(data) && StoredStart + LenOf(data) <= |data|
  }

  function StoredData(data: seq<byte>): seq<byte>
    requires HasStoredData(data)
  {
    data[StoredStart..StoredStart + LenOf(data)]
  }

  /** The Adler-32 trailer: the chunk's last 4 data bytes, big-endian. */
  function Trailer(data: seq<byte>): u32
    requires |data| >= 4
  {
    BigEndian32(data[|data| - 4..])
  }

  /** The LEN/NLEN, length and Adler-32 checks of a stored block. */
  function StoredChecks(data: seq<byte>, header: Option<ImageHeader>, sums: Provider): seq<Event>
    requires HasStoredLengths(data) && |data| < 0x1_0000_0000
  {
    var len, nlen := LenOf(data), NlenOf(data);
    var complement := OnesComplement(len);
    var nlenCheck := if complement == nlen then [] else [NlenMismatch(complement, nlen)];
    var lengthCheck :=
      match header
      case None => []
      case Some(h) =>
        var expected := ExpectedStoredLength(h);
        if len == expected then [] else [StoredLengthMismatch(len, expected)];
    var adlerCheck :=
      if !HasStoredData(data) then
        [MalformedIdat(StoredStart + len, |data|)]
      else
        var stored, computed := Trailer(data), sums.adler32(StoredData(data));
        [AdlerFields(stored, computed)] + (if stored == computed then [] else [AdlerMismatch]);
    [StoredFields(len, nlen)] + nlenCheck + lengthCheck + adlerCheck
  }

  /** The checks after the block's first byte: those of a stored block, and none for a Huffman block. */
  function BlockChecks(data: seq<byte>, header: Option<ImageHeader>, sums: Provider): seq<Event>
    requires 3 <= |data| < 0x1_0000_0000
  {
    if !BlockOf(data).IsStored() then []
    else if |data| < StoredStart then [MalformedIdat(StoredStart, |data|)]
    else StoredChecks(data, header, sums)
  }

  /**
   Validates the data of one IDAT chunk against the image header seen so far:
   the zlib header fields come first; data too short for them is malformed.
   */
  function ValidateIdat(data: seq<byte>, header: Option<ImageHeader>, sums: Provider): (r: seq<Event>)
    requires |data| < 0x1_0000_0000
    ensures |r| > 0
    ensures |data| >= 3 ==> r[0] == ZlibFields(ZlibOf(data), ZlibOf(data).LevelAsWritten())
    ensures |data| < 3 ==> r == [MalformedIdat(3, |data|)]
  {
    if |data| < 3 then
      [MalformedIdat(3, |data|)]
    else
      var z := ZlibOf(data);
      [ZlibFields(z, z.LevelAsWritten())] + (if z.CheckPasses() then [] else [FcheckMismatch]) + [BlockFields(BlockOf(data))]
        + BlockChecks(data, header, sums)
  }

  /**
   The FLEVEL the report prints is the mask-129 value: twice the high bit of
   the header's FLEVEL, so 0 or 2 whatever the header says.
   */
  lemma ReportedLevel(data: seq<byte>, header: Option<ImageHeader>, sums: Provider)
    requires 3 <= |data| < 0x1_0000_0000
    ensures ValidateIdat(data, header, sums)[0].flevel == 2 * (ZlibOf(data).Level() / 2)
    ensures ValidateIdat(data, header, sums)[0].flevel in {0, 2}
  {
    LevelAsWrittenDropsLowBit(ZlibOf(data));
  }

  /** Behind the passing header 0x78 0xDA, whose FLEVEL is 3, the report prints FLEVEL 2 and no FCHECK finding. */
  lemma ReportedLevelMisreports(rest: seq<byte>, header: Option<ImageHeader>, sums: Provider)
    requires 1 <= |rest| < 0xFFFF_FFFE
    ensures var r := ValidateIdat([0x78, 0xDA] + rest, header, sums);
      r[0].flevel == 2 && r[0].zlib.Level() == 3 && FcheckMismatch !in r
  {
    var data := [0x78, 0xDA] + rest;
    ReportedLevel(data, header, sums);
    FcheckFinding(data, header, sums);
    LevelAsWrittenMisreports();
  }

  /** An FCHECK finding is reported exactly when the zlib header is there and CMF * 256 + FLG is no multiple of 31. */
  lemma FcheckFinding(data: seq<byte>, header: Option<ImageHeader>, sums: Provider)
    requires |data| < 0x1_0000_0000
    ensures FcheckMismatch in ValidateIdat(data, header, sums) <==> |data| >= 3 && !ZlibOf(data).CheckPasses()
  {
    if |data| >= 3 && BlockOf(data).IsStored() && |data| >= StoredStart {
      assert FcheckMismatch !in StoredChecks(data, header, sums);
    }
  }

  /**
   An IDAT chunk whose zlib header is a passing one with a single FLG bit
   flipped draws the FCHECK finding, whatever follows the header.
   */
  lemma FlgFlipReported(z: ZlibHeader, k: nat, rest: seq<byte>, header: Option<ImageHeader>, sums: Provider)
    requires z.CheckPasses() && k < 8 && 1 <= |rest| < 0xFFFF_FFFE
    ensures Flip(z.flg, k) < 0x100
    ensures FcheckMismatch in ValidateIdat([z.cmf, Flip(z.flg, k)] + rest, header, sums)
  {
    FlgBitFlipFailsCheck(z, k);
    var data := [z.cmf, Flip(z.flg, k)] + rest;
    FcheckFinding(data, header, sums);
  }

  /** Likewise for a single CMF bit flipped. */
  lemma CmfFlipReported(z: ZlibHeader, k: nat, rest: seq<byte>, header: Option<ImageHeader>, sums: Provider)
    requires z.CheckPasses() && k < 8 && 1 <= |rest| < 0xFFFF_FFFE
    ensures Flip(z.cmf, k) < 0x100
    ensures FcheckMismatch in ValidateIdat([Flip(z.cmf, k), z.flg] + rest, header, sums)
  {
    CmfBitFlipFailsCheck(z, k);
    var data := [Flip(z.cmf, k), z.flg] + rest;
    FcheckFinding(data, header, sums);
  }

  /** An NLEN finding is reported exactly when a stored block's NLEN is not the complement of its LEN. */
  lemma NlenFinding(data: seq<byte>, header: Option<ImageHeader>, sums: Provider)
    requires |data| < 0x1_0000_0000
    ensures var r := ValidateIdat(data, header, sums);
      (exists e | e in r :: e.NlenMismatch?) <==> HasStoredLengths(data) && OnesComplement(LenOf(data)) != NlenOf(data)
    ensures HasStoredLengths(data) && OnesComplement(LenOf(data)) != NlenOf(data) ==>
      NlenMismatch(OnesComplement(LenOf(data)), NlenOf(data)) in ValidateIdat(data, header, sums)
  {
    var r := ValidateIdat(data, header, sums);
    if HasStoredLengths(data) && OnesComplement(LenOf(data)) != NlenOf(data) {
      var s := StoredChecks(data, header, sums);
      assert s[1] == NlenMismatch(OnesComplement(LenOf(data)), NlenOf(data));
      assert s[1] in r;
    }
  }

  /** A length finding is reported exactly when a stored block's LEN is not what the image header calls for. */
  lemma LengthFinding(data: seq<byte>, header: Option<ImageHeader>, sums: Provider)
    requires |data| < 0x1_0000_0000
    ensures var r := ValidateIdat(data, header, sums);
      (exists e | e in r :: e.StoredLengthMismatch?) <==>
        HasStoredLengths(data) && header.Some? && LenOf(data) != ExpectedStoredLength(header.value)
  {
    var r := ValidateIdat(data, header, sums);
    if HasStoredLengths(data) && header.Some? && LenOf(data) != ExpectedStoredLength(header.value) {
      var e := StoredLengthMismatch(LenOf(data), ExpectedStoredLength(header.value));
      assert e in StoredChecks(data, header, sums);
      assert e in r;
    }
  }

  /** An Adler-32 finding is reported exactly when the stored data is there and the trailer is not its Adler-32. */
  lemma AdlerFinding(data: seq<byte>, header: Option<ImageHeader>, sums: Provider)
    requires |data| < 0x1_0000_0000
    ensures AdlerMismatch in ValidateIdat(data, header, sums) <==>
      HasStoredData(data) && Trailer(data) != sums.adler32(StoredData(data))
  {
  }

  /** The data is reported malformed exactly when a byte the validator must read lies past its end. */
  lemma MalformedFinding(data: seq<byte>, header: Option<ImageHeader>, sums: Provider)
    requires |data| < 0x1_0000_0000
    ensures var r := ValidateIdat(data, header, sums);
      (exists e | e in r :: e.MalformedIdat?) <==> |data| < 3 || (BlockOf(data).IsStored() && !HasStoredData(data))
  {
    var r := ValidateIdat(data, header, sums);
    if |data| < 3 {
      assert r[0] in r;
    } else if BlockOf(data).IsStored() && !HasStoredData(data) {
      var b := BlockChecks(data, header, sums);
      assert b[|b| - 1].MalformedIdat?;
      assert b[|b| - 1] in r;
    }
  }

  /** These five findings are the only defects an IDAT chunk can draw. */
  lemma IdatDefectKinds(data: seq<byte>, header: Option<ImageHeader>, sums: Provider)
    requires |data| < 0x1_0000_0000
    ensures forall e | e in ValidateIdat(data, header, sums) && IsDefect(e) ::
      e.FcheckMismatch? || e.NlenMismatch? || e.StoredLengthMismatch? || e.AdlerMismatch? || e.MalformedIdat?
  {
  }

  /** The data of an IDAT chunk holding `rows` as one final stored block, as a zlib writer lays it out. */
  function EncodeStoredIdat(z: ZlibHeader, rows: seq<byte>, sums: Provider): (data: seq<byte>)
    requires |rows| < 0x1_0000
    ensures |data| == StoredStart + |rows| + 4
  {
    [z.cmf, z.flg, 1] + StoredLengthBytes(|rows|) + rows + BigEndian32Bytes(sums.adler32(rows))
  }

  /** The views of an encoded stored block give back what was encoded. */
  lemma StoredIdatViews(z: ZlibHeader, rows: seq<byte>, sums: Provider)
    requires |rows| < 0x1_0000
    ensures var data := EncodeStoredIdat(z, rows, sums);
      && ZlibOf(data) == z
      && BlockOf(data).Final() == 1 && BlockOf(data).IsStored()
      && LenOf(data) == |rows|
      && NlenOf(data) == OnesComplement(|rows|)
      && HasStoredData(data) && StoredData(data) == rows
      && Trailer(data) == sums.adler32(rows)
  {
    StoredLengthViews(z, rows, sums);
    StoredBodyViews(z, rows, sums);
  }

  lemma StoredLengthViews(z: ZlibHeader, rows: seq<byte>, sums: Provider)
    requires |rows| < 0x1_0000
    ensures var data := EncodeStoredIdat(z, rows, sums);
      && ZlibOf(data) == z
      && BlockOf(data) == BlockHeader(1)
      && LenOf(data) == |rows|
      && NlenOf(data) == OnesComplement(|rows|)
  {
    var data := EncodeStoredIdat(z, rows, sums);
    var n := |rows|;
    LittleEndian16RoundTrip(n);
    LittleEndian16RoundTrip(OnesComplement(n));
    assert data[3..5] == LittleEndian16Bytes(n);
    assert data[5..7] == LittleEndian16Bytes(OnesComplement(n));
  }

  lemma StoredBodyViews(z: ZlibHeader, rows: seq<byte>, sums: Provider)
    requires |rows| < 0x1_0000
    ensures var data := EncodeStoredIdat(z, rows, sums);
      |data| >= StoredStart + |rows| && data[StoredStart..StoredStart + |rows|] == rows
      && Trailer(data) == sums.adler32(rows)
  {
    var data := EncodeStoredIdat(z, rows, sums);
    var n := |rows|;
    assert data[StoredStart..StoredStart + n] == rows;
    assert data[|data| - 4..] == BigEndian32Bytes(sums.adler32(rows));
    BigEndian32RoundTrip(sums.adler32(rows));
  }

  /**
   A stored block whose FCHECK is right, whose NLEN complements LEN, whose LEN
   is the length the image header calls for and whose trailer is the Adler-32
   of its data draws no defect.
   */
  lemma StoredIdatAccepted(z: ZlibHeader, rows: seq<byte>, h: ImageHeader, sums: Provider)
    requires z.CheckPasses()
    requires |rows| == ExpectedStoredLength(h) && |rows| < 0x1_0000
    ensures Defects(ValidateIdat(EncodeStoredIdat(z, rows, sums), Some(h), sums)) == []
  {
    var data := EncodeStoredIdat(z, rows, sums);
    StoredIdatViews(z, rows, sums);
    OnesComplementIsDifference(|rows|);
    var r := ValidateIdat(data, Some(h), sums);
    IdatDefectKinds(data, Some(h), sums);
    FcheckFinding(data, Some(h), sums);
    NlenFinding(data, Some(h), sums);
    LengthFinding(data, Some(h), sums);
    AdlerFinding(data, Some(h), sums);
    MalformedFinding(data, Some(h), sums);
    forall e | e in r
      ensures !IsDefect(e)
    {
    }
    NoDefects(r);
  }
}
