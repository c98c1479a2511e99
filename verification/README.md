# png_reader validator, modelled in Dafny

`png_reader.c` reads a PNG file and reports what it finds. It proceeds in this order:

- It checks the 8-byte signature.
- It walks the chunks: length, type, data, CRC.
- For each chunk it prints the four property bits and compares the stored CRC-32 with the computed one.
- It decodes the IHDR image header.
- For an IDAT chunk, it decodes the zlib header (CMF/FLG and the FCHECK test) and the first DEFLATE block header (BFINAL/BTYPE).
- For a stored block, it checks three more things:
  - that NLEN is the ones' complement of LEN;
  - that LEN is the scanline byte count the image header calls for;
  - that the Adler-32 trailer matches the stored bytes.

Every mismatch is reported and the walk goes on. The walk stops after the first IEND chunk, or when the file ends too early.

This project models that validator as pure functions over a byte sequence. The result is the ordered list of events the program prints (`Events.Event`) and a terminal status, `Done` or `Aborted`. The modules are:

- `Bits`: C's `&`, `^`, `>>` and `<<` on non-negative integers, with lemmas turning masks and shifts into quotients and remainders.
- `Bytes`: bytes, the 16- and 32-bit unsigned types, and the big-endian 32-bit and little-endian 16-bit readings, with their encoders.
- `Checksums`: the CRC-32 / Adler-32 provider, a parameter of the model.
- `Chunks`: chunk framing, the property bits and chunk reading.
- `Ihdr`: the 13-byte image header.
- `Zlib`: the CMF/FLG fields, the FCHECK test, the block header and the 16-bit complement.
- `Scanlines`: the stored length the image header calls for.
- `Idat`: the IDAT validator.
- `Events`: what is reported, and which reports are defects.
- `Signature`: the signature check.
- `Walker`: the chunk loop and the whole run. `Walker.Split` is an independent framing-only reference for the loop.
- `Scenarios`: three end-to-end runs — a minimal valid PNG, a corrupt signature byte, and a file cut inside a chunk length.

`crc32` and `adler32` live in `png_utils.h`, which is not part of this model. Every function that needs them takes a `Checksums.Provider` holding two arbitrary total functions, so every result holds for any implementation. `swap_uint32` applied after `fread` is the big-endian reading `Bytes.BigEndian32`.

## Model

| member | source | states |
|---|---|---|
| Bytes.BigEndian32 | png_reader.c:61-66 | The 32-bit reading `fread` followed by `swap_uint32` performs, used for the chunk length (66), the CRC (76), IHDR width and height (92-93) and the Adler-32 trailer (196). Its meaning is stated by `Bytes.BigEndian32RoundTrip` and `Bytes.BigEndian32Inverse`: it is the inverse of the 4-byte big-endian encoding. |
| Bytes.BigEndian32RoundTrip | png_reader.c:61-66 | Reading 4 big-endian bytes back gives the 32-bit value they encode. |
| Bytes.BigEndian32Inverse | png_reader.c:61-66 | Every 4 bytes are the big-endian encoding of what they read as, so the reading is injective. |
| Bytes.LittleEndian16 | png_reader.c:141-142 | `buffer[i] + buffer[i+1] * 256`, the LEN and NLEN reading. `Bytes.LittleEndian16RoundTrip` and `Bytes.LittleEndian16Inverse` state that it inverts the 2-byte little-endian encoding. |
| Bytes.LittleEndian16RoundTrip | png_reader.c:141-142 | `lo + hi * 256` recovers the 16-bit value from its two little-endian bytes. |
| Bytes.LittleEndian16Inverse | png_reader.c:141-142 | Every pair of bytes is the little-endian encoding of its `lo + hi * 256` reading. |
| Chunks.PropertyFlags | png_reader.c:78-81 | Ancillary, private, reserved and safe-to-copy are bit 5 of type bytes 0, 1, 2 and 3. `Chunks.PropertyBitIsMask` states that each is the C's `(buffer[k] & 32) >> 5`, and `Chunks.PropertyBitIsLowerCase` that on letters it is 1 exactly for lower case. |
| Chunks.PropertyBitIsMask | png_reader.c:78-81 | The property bit of a type byte is the C's `(b & 32) >> 5`, bit 5 of the byte. |
| Chunks.PropertyBitIsLowerCase | png_reader.c:78-81 | On an ASCII letter, the property bit is 1 exactly for lower case and 0 exactly for upper case. |
| Chunks.Encode | png_reader.c:60-76 | A chunk occupies `4 + (4 + length) + 4` bytes of the stream. |
| Chunks.ReadChunk | png_reader.c:59-76 | The read fails exactly when fewer than 4 bytes remain, or fewer than the declared `12 + length`. Otherwise the stream is exactly the encoded chunk followed by the rest. |
| Chunks.ReadFrames | png_reader.c:66-76 | Length, type, data and CRC, cut at the offsets the C reads them from, reassemble the stream. |
| Chunks.ReadEncoded | png_reader.c:59-76 | Reading an encoded chunk gives that chunk back and leaves exactly the bytes after it. |
| Ihdr.DecodeHeader | png_reader.c:89-101 | Data holding 13 bytes decodes: width and height are big-endian at offsets 0 and 4, then depth, colour type, compression, filter and interlace. Shorter data does not decode. |
| Ihdr.DecodeEncoded | png_reader.c:89-101 | Decoding an encoded header gives it back, whatever bytes follow the 13th. |
| Zlib.CmfFields | png_reader.c:110-111 | CMF is exactly CINFO in the high nibble over CM in the low one. |
| Zlib.CmfMasks | png_reader.c:110-111 | CM and CINFO are the C's `cmf & 15` and `(cmf & 240) >> 4`. |
| Zlib.FlgFields | png_reader.c:118-120 | FLG is exactly FLEVEL (bits 6-7), FDICT (bit 5) and FCHECK (bits 0-4). |
| Zlib.FlgMasks | png_reader.c:118-120 | FCHECK and FDICT are the C's `flg & 31` and `(flg & 32) >> 5`. The corrected FLEVEL is `flg >> 6`. |
| Zlib.LevelMask | png_reader.c:120 | FLEVEL, bits 6-7 of FLG, is `(flg & 192) >> 6`, which for a byte is `flg >> 6`. |
| Zlib.ZlibHeader.LevelAsWritten | png_reader.c:120 | FLEVEL as the C computes it, `(flg & 129) >> 6`, the as-written half of the finding below. `Zlib.LevelAsWrittenDropsLowBit` states it is always twice FLEVEL's high bit; `Zlib.LevelAsWrittenMisreports` gives headers it misreports. |
| Zlib.LevelAsWrittenDropsLowBit | png_reader.c:120 | The C's `(flg & 129) >> 6` is always 0 or 2: twice FLEVEL's high bit. |
| Zlib.LevelAsWrittenMisreports | png_reader.c:120 | Headers 0x78 0xDA and 0x78 0x5E pass FCHECK and have FLEVEL 3 and 1, yet are reported with FLEVEL 2 and 0. |
| Zlib.DefaultHeaderPasses | png_reader.c:124-127 | 0x78 0x9C passes FCHECK: deflate, 32K window, no dictionary, FLEVEL 2. |
| Zlib.FlgBitFlipFailsCheck | png_reader.c:124-127 | Flipping any one bit of FLG in a header that passes FCHECK gives a byte for which it fails. |
| Zlib.CmfBitFlipFailsCheck | png_reader.c:124-127 | Flipping any one bit of CMF in a header that passes FCHECK gives a byte for which it fails. |
| Zlib.BlockHeaderFields | png_reader.c:132-138 | BFINAL is in 0..1 and BTYPE in 0..3, and together they are exactly the low three bits of the block's first byte. |
| Zlib.BlockHeaderMasks | png_reader.c:134-140 | BFINAL and BTYPE are the C's `b & 1` and `(b & 6) >> 1`. The block is stored exactly when `b & 6` is 0. |
| Zlib.OnesComplement | png_reader.c:147 | `(uint16_t) ~len`: the complement of `len` promoted to `int`, kept modulo 2^16. `Zlib.OnesComplementIsDifference` states it is `0xFFFF - len` and undoes itself. |
| Zlib.OnesComplementIsDifference | png_reader.c:147-149 | `(uint16_t) ~len` is `0xFFFF - len`, and applying it twice gives `len` back. |
| Zlib.OnesComplementBytewise | png_reader.c:141-149 | The complement of a little-endian LEN complements each of its two bytes. |
| Scanlines.SamplesPerPixel | png_reader.c:153-159 | Colour types 2, 4 and 6 carry 3, 2 and 4 samples per pixel. Every other type carries 1. |
| Scanlines.PackedBytes | png_reader.c:161-182 | The bytes a row's samples take at the header's bit depth, filler byte included. `Scanlines.PackedBytesIsBitsRoundedUp` states it is the bit count rounded up to whole bytes at every legal depth, and `Scanlines.PackedBytesOtherDepths` that other depths count a byte per sample. |
| Scanlines.PackedBytesIsBitsRoundedUp | png_reader.c:161-182 | At depths 1, 2, 4, 8 and 16, shifting and adding the filler byte gives the row's bit count rounded up to whole bytes. |
| Scanlines.PackedBytesOtherDepths | png_reader.c:178-179 | At any other depth, each sample counts as one byte. |
| Scanlines.ExpectedStoredLength | png_reader.c:153-184 | The LEN a single stored block must have: `height` rows, each one filter byte followed by the packed samples of `width` pixels. `Scanlines.ExpectedLengthTruecolour8` and `Scanlines.ExpectedLengthGreyscale1` state it for two image kinds, and `Idat.LengthFinding` that LEN is compared with it. |
| Scanlines.ExpectedLengthTruecolour8 | png_reader.c:153-184 | An 8-bit truecolour image needs `H * (1 + 3W)` bytes. |
| Scanlines.ExpectedLengthGreyscale1 | png_reader.c:153-184 | A 1-bit greyscale image needs `H * (1 + ceil(W / 8))` bytes. |
| Idat.ValidateIdat | png_reader.c:103-204 | IDAT data of 3 bytes or more starts its report with the CMF/FLG fields and the FLEVEL value the C prints, `ZlibHeader.LevelAsWritten`. Shorter data is reported malformed and nothing else. |
| Idat.BlockChecks | png_reader.c:132-140 | After the block byte, a stored block gets the LEN/NLEN, length and Adler-32 checks, and a Huffman block none. A stored block too short for LEN and NLEN is reported malformed. Its findings are stated by `Idat.NlenFinding`, `Idat.LengthFinding`, `Idat.AdlerFinding` and `Idat.MalformedFinding`. |
| Idat.StoredChecks | png_reader.c:140-204 | The checks of a stored block, each reporting its own finding without stopping the others: NLEN against `~LEN`, LEN against the expected length when a header is known, and the trailer against the Adler-32 of the LEN data bytes. The if-and-only-if lemmas `Idat.NlenFinding`, `Idat.LengthFinding` and `Idat.AdlerFinding` state when each finding appears. |
| Idat.ReportedLevel | png_reader.c:120-130 | The FLEVEL the report prints is twice the high bit of the header's FLEVEL, so always 0 or 2. |
| Idat.ReportedLevelMisreports | png_reader.c:120-130 | Behind the passing header 0x78 0xDA, whose FLEVEL is 3, the report prints FLEVEL 2 and no FCHECK finding. |
| Idat.FcheckFinding | png_reader.c:124-127 | An FCHECK finding appears exactly when the header is present and `(cmf * 256 + flg) % 31 != 0`. |
| Idat.FlgFlipReported | png_reader.c:124-127 | IDAT data whose zlib header is a passing one with any single FLG bit flipped, followed by at least a block byte, draws the FCHECK finding. |
| Idat.CmfFlipReported | png_reader.c:124-127 | Likewise for any single CMF bit flipped. |
| Idat.NlenFinding | png_reader.c:140-151 | An NLEN finding appears exactly when the block is stored and NLEN is not the 16-bit complement of LEN, and it carries both values. |
| Idat.LengthFinding | png_reader.c:153-188 | A length finding appears exactly when the block is stored, an image header is known, and LEN differs from the expected length. |
| Idat.AdlerFinding | png_reader.c:194-202 | An Adler-32 finding appears exactly when the trailer (the data's last 4 bytes, big-endian) differs from the Adler-32 of the LEN bytes at offset 7. |
| Idat.MalformedFinding | png_reader.c:104-197 | The data is reported malformed exactly when a byte the validator must read lies past its end. |
| Idat.IdatDefectKinds | png_reader.c:103-204 | An IDAT chunk's only defects are FCHECK, NLEN, length, Adler-32 and malformed-data findings. |
| Idat.StoredIdatViews | png_reader.c:140-197 | In a stored block laid out as a writer lays it out, the C's offsets read back: CMF/FLG, the block byte, LEN and NLEN, the data, and the trailer. |
| Idat.StoredIdatAccepted | png_reader.c:140-202 | A stored block with NLEN = ~LEN, LEN = the expected length and the right Adler-32, behind a header that passes FCHECK, draws no defect. |
| Signature.CheckFrom | png_reader.c:50-55 | From index `i` on, exactly the mismatching signature bytes are reported, in increasing order, with the expected and found values. |
| Signature.CheckSignature | png_reader.c:47-55 | All 8 bytes are compared: one finding for each mismatching index and for no other. Bytes past a shorter file read as 0. |
| Signature.SignatureAccepted | png_reader.c:47-55 | A file that starts with the signature draws no signature finding. |
| Signature.OneCorruptByte | png_reader.c:50-55 | A signature wrong at one index only draws exactly one finding, for that index. |
| Walker.Dispatch | png_reader.c:89-206 | After the CRC line, the defects are a malformed-IHDR finding or the IDAT findings. The CRC and premature-end findings never come from here. |
| Walker.CrcCheck | png_reader.c:73-87 | A CRC finding appears exactly when the stored CRC differs from `crc32(type ++ data)`. |
| Walker.NextHeader | png_reader.c:89-101 | A decodable IHDR chunk replaces the header in force with its own. No other chunk changes it. |
| Walker.ProcessChunk | png_reader.c:68-206 | Each chunk reports its summary line first (type, flags, length, stored and computed CRC), then the CRC finding exactly on mismatch. It never reports a premature end. |
| Walker.ProcessChunkDefects | png_reader.c:83-206 | A chunk's defects are its CRC finding, then those of its IHDR or IDAT checks. |
| Walker.Split | png_reader.c:59-76 | Framing only: the framed chunks are valid and their encodings are a prefix of the stream. |
| Walker.SplitStops | png_reader.c:59-210 | Framing succeeds exactly when the last framed chunk is the first IEND. On failure, the bytes left are too few for another chunk. |
| Walker.SplitEncoded | png_reader.c:59-210 | Chunks encoded back to back and ending at their only IEND frame back into exactly those chunks, with success. |
| Walker.SplitEncodedTruncated | png_reader.c:59-76 | Chunks without IEND, followed by too few bytes, frame back into those chunks and abort. |
| Walker.WalkChunks | png_reader.c:59-210 | The loop ends as framing does. It aborts exactly when its last event is the premature end, and that event is never reported earlier. |
| Walker.WalkIsSplitThenValidate | png_reader.c:59-210 | The loop's report is every framed chunk validated in order, header threaded through, then a premature end if framing failed. |
| Walker.WalkStops | png_reader.c:60-65 | A stream too short for a chunk ends the loop with the premature end alone. |
| Walker.WalkEnds | png_reader.c:206-210 | An IEND chunk is reported and ends the loop with success. |
| Walker.WalkEndsAt | png_reader.c:208-210 | Reading an IEND chunk ends the loop with that chunk's report alone. |
| Walker.WalkUnfolds | png_reader.c:59-210 | Past a chunk other than IEND, framing and walking both go on at the bytes after it. |
| Walker.Walk | png_reader.c:47-59 | A run reports the signature findings, then walks the chunks whatever the signature check found. Its defects are the signature's followed by the walk's. |
| Walker.SignatureDoesNotStopWalk | png_reader.c:47-59 | Two files that differ only in their signature bytes end alike and draw the same defects after the signature findings. |
| Scenarios.MinimalRowsFit | png_reader.c:124-184 | The 1x1 8-bit greyscale image needs 2 stored bytes, and the zlib header 0x78 0x01 passes FCHECK. |
| Scenarios.MinimalPngAccepted | png_reader.c:47-210 | The minimal PNG reaches `Done` with no finding. It has the signature, a 1x1 8-bit greyscale IHDR, one stored 2-byte IDAT block with the right NLEN and Adler-32, and IEND, all with the right CRCs. |
| Scenarios.CorruptSignatureReported | png_reader.c:47-210 | The same file with its third byte changed draws exactly one finding, for that byte, and still reaches `Done`. |
| Scenarios.TruncatedLengthAborts | png_reader.c:47-65 | The same file cut inside the IDAT chunk's length field frames only the IHDR chunk, draws exactly one finding, the premature end, and ends `Aborted`. |
| Scenarios.TruncatedIsPrefix | png_reader.c:59-65 | That cut file is a proper prefix of the minimal PNG that stops inside the IDAT length field. |

## Left out

- Command line and file handling (png_reader.c:34-45): argument checks, `fopen` failures and exit codes are I/O, so the model starts from the file's bytes.
- Output text: the `printf` lines and bell characters are modelled as `Events.Event` values. The values a group of lines prints travel in one event, placed where the group's first line is printed; the defects keep the order in which the C prints them. One group is split by a defect in the C: the zlib header's FDICT and FLEVEL lines (png_reader.c:129-130) are printed after the FCHECK error (png_reader.c:126), while `Events.ZlibFields`, which carries them, comes before `Events.FcheckMismatch`. FDICT is carried as the header's `Dict()`; FLEVEL is carried as the value the C prints, `ZlibHeader.LevelAsWritten`, in the event's `flevel` field.
- Signature index: the C prints the index 1-based; `SignatureMismatch.index` is 0-based.
- Memory management: `malloc` and `free` (png_reader.c:68, 208) have no counterpart; each chunk's bytes are a sequence.
- Checksum algorithms: the bodies of `crc32` and `adler32` are in `png_utils.h`, which is not part of this model. They are arbitrary functions of a `Checksums.Provider`.
- Chunks.ReadChunk short reads: the C checks only the length read (png_reader.c:61-65) and ignores a short read of the type and data (png_reader.c:70) or of the CRC (png_reader.c:75). Type and data bytes past the end of the file are whatever `malloc` left in the buffer; CRC bytes past the end stay as the zero `crc_file` starts with (png_reader.c:74). The model does not frame such a last, cut chunk: it ends the walk with the premature-end report alone. That differs from the C in two visible ways. (1) A file cut after the type of an IEND chunk: the C prints that chunk's summary, usually with a CRC mismatch, and leaves the loop at png_reader.c:210 the normal way, with no premature-end message; the model reports the premature end and `Aborted`. (2) A file cut inside any other chunk: the C prints that chunk's summary and its IHDR or IDAT checks on the bytes it has, then reports the premature end on the next length read; the model reports only the premature end.
- Ihdr.DecodeHeader short IHDR: the C copies `length` bytes over the header struct, partly overwriting it or overflowing it. The model decodes only the first 13 bytes. With fewer than 13 it reports `MalformedIhdr` and keeps the previous header.
- Idat.ValidateIdat out-of-bounds reads: the C reads bytes 0-2, 3-6 and `7 .. 7+LEN` of the data without checking the chunk length (png_reader.c:104-106, 141-142, 197). The model reports `MalformedIdat` instead of reading past the end: with fewer than 3 bytes it reports nothing else; for a stored block with fewer than 7 bytes it skips the LEN checks; when `7 + LEN` exceeds the data it skips the Adler-32 comparison.
- IDAT before any IHDR: the C uses an uninitialised header. The model keeps the header as an `Option` and skips the expected-length check when there is none.
- Scanlines.ExpectedStoredLength integer width: the C computes the expected length in a signed `int`, which overflows for large images. The model uses unbounded integers.
- Chunk length wrap-around: `length + 4` in a 32-bit `uint32_t` wraps for lengths near 2^32. The model does not reproduce it; the data length is bounded below 2^32 and the sum is exact.
- Interlacing: ignored by the expected-length computation, as in the source.
- Huffman blocks (BTYPE 1 and 2), image data split over several IDAT chunks or several DEFLATE blocks, and bit-depth/colour-type legality: the source checks none of these, and neither does the model.
- CRC sensitivity to a single flipped bit is a property of the CRC-32 algorithm, which is not part of this model. `Walker.CrcCheck` states that a finding appears exactly when the computed and stored values differ, and `Walker.Split` shows that such a finding never changes the rest of the walk.

## Findings

| source | as written | input that shows it | evidently intended | confidence | as-written member | corrected member |
|---|---|---|---|---|---|---|
| png_reader.c:120 | `flevel = (flg & 129) >> 6`. Mask 129 (0x81) keeps bits 0 and 7, so bit 6 is lost and the value is 0 or 2. | FLG 0xDA (header 0x78 0xDA, zlib's best-compression header, which passes FCHECK) prints FLEVEL 2 instead of 3. FLG 0x5E prints 0 instead of 1. | `(flg & 192) >> 6`, bits 6-7 as the comment on that line says (section 2.2 of RFC 1950). | not executed | Zlib.LevelAsWrittenMisreports | Zlib.LevelMask |
