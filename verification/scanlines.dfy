/**
 The number of bytes a stored DEFLATE block must carry for the whole image:
 every row is one filter-type byte (section 9.1 of the PNG specification)
 followed by the row's samples packed at the header's bit depth, each row
 starting on a byte boundary (section 7.2).
 */
module Scanlines {
  import opened Bytes
  import opened Bits
  import opened Ihdr

  /**
   Samples per pixel by colour type: 3 for truecolour (2), 2 for greyscale with
   alpha (4), 4 for truecolour with alpha (6), and 1 for every other value.
   */
  function SamplesPerPixel(colorType: byte): (n: nat)
    ensures 1 <= n <= 4
  {
    if colorType == 2 then 3
    else if colorType == 4 then 2
    else if colorType == 6 then 4
    else 1
  }

  /** 1 when `n` samples leave a partly filled last byte at `perByte` samples per byte. */
  function Filler(n: nat, perByte: nat): nat
    requires perByte > 0
  {
    if n % perByte != 0 then 1 else 0
  }

  /**
   Bytes for `n` samples as png_reader.c packs them: depths 1, 2 and 4 shift
   right by 3, 2 and 1 (a division, the value being non-negative) and add a
   filler byte for a partial last byte; depth 16 doubles; any other depth,
   8 included, takes one byte per sample.
   */
  function PackedBytes(n: nat, bitDepth: byte): nat
  {
    if bitDepth == 1 then n / 8 + Filler(n, 8)
    else if bitDepth == 2 then n / 4 + Filler(n, 4)
    else if bitDepth == 4 then n / 2 + Filler(n, 2)
    else if bitDepth == 16 then 2 * n
    else n
  }

  /** The LEN a single stored block must have: `height` rows of one filter byte and the packed samples. */
  function ExpectedStoredLength(h: ImageHeader): nat
  {
    (PackedBytes(h.width * SamplesPerPixel(h.colorType), h.bitDepth) + 1) * h.height
  }

  /** The bit depths the PNG specification allows. */
  predicate LegalBitDepth(bitDepth: byte) {
    bitDepth == 1 || bitDepth == 2 || bitDepth == 4 || bitDepth == 8 || bitDepth == 16
  }

  /** Division rounding up. */
  function CeilDiv(a: nat, d: nat): nat
    requires d > 0
  {
    (a + d - 1) / d
  }

  /** At every legal depth, the packed size is the row's bit count rounded up to whole bytes. */
  lemma PackedBytesIsBitsRoundedUp(n: nat, bitDepth: byte)
    requires LegalBitDepth(bitDepth)
    ensures PackedBytes(n, bitDepth) == CeilDiv(n * bitDepth as int, 8)
  {
    if bitDepth == 1 {
      assert bitDepth as int == 1;
      RoundUp(n, 1, 8);
    } else if bitDepth == 2 {
      assert bitDepth as int == 2;
      RoundUp(n, 2, 4);
    } else if bitDepth == 4 {
      assert bitDepth as int == 4;
      RoundUp(n, 4, 2);
    } else if bitDepth == 8 {
      assert bitDepth as int == 8;
      QuotientOf(n * 8 + 7, n, 7, 8);
    } else {
      assert bitDepth as int == 16;
      QuotientOf(n * 16 + 7, 2 * n, 7, 8);
    }
  }

  /** With `perByte` samples of `bits` bits to a byte, shifting and adding a filler byte rounds up. */
  lemma RoundUp(n: nat, bits: nat, perByte: nat)
    requires bits * perByte == 8 && 1 <= bits
    ensures n / perByte + Filler(n, perByte) == CeilDiv(n * bits, 8)
  {
    var q, r := n / perByte, n % perByte;
    assert n * bits == q * 8 + r * bits by {
      assert n == q * perByte + r;
      assert n * bits == q * (perByte * bits) + r * bits;
    }
    assert r * bits <= (perByte - 1) * bits;
    if r == 0 {
      QuotientOf(n * bits + 7, q, 7, 8);
    } else {
      assert r * bits >= bits;
      QuotientOf(n * bits + 7, q + 1, r * bits - 1, 8);
    }
  }

  /** At any depth the PNG specification does not allow, every sample counts as one byte. */
  lemma PackedBytesOtherDepths(n: nat, bitDepth: byte)
    requires !LegalBitDepth(bitDepth)
    ensures PackedBytes(n, bitDepth) == n
  {
  }

  /** An 8-bit truecolour image needs H * (1 + 3W) bytes. */
  lemma ExpectedLengthTruecolour8(h: ImageHeader)
    requires h.bitDepth == 8 && h.colorType == 2
    ensures ExpectedStoredLength(h) == h.height * (1 + 3 * h.width)
  {
  }

  /** A 1-bit greyscale image needs H * (1 + ceil(W / 8)) bytes. */
  lemma ExpectedLengthGreyscale1(h: ImageHeader)
    requires h.bitDepth == 1 && h.colorType == 0
    ensures ExpectedStoredLength(h) == h.height * (1 + CeilDiv(h.width, 8))
  {
    PackedBytesIsBitsRoundedUp(h.width, 1);
  }
}
