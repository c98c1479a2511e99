/**
 The zlib stream header (section 2.2 of RFC 1950) and the DEFLATE block header
 (sections 3.2.3 and 3.2.4 of RFC 1951) at the start of an IDAT chunk's data.
 */
module Zlib {
  import opened Bytes
  import opened Bits

  /** CMF and FLG, the two bytes of the zlib header. */
  datatype ZlibHeader = ZlibHeader(cmf: byte, flg: byte) {

    /** CM, bits 0-3 of CMF; 8 is deflate. */
    function Method(): nat {
      cmf % 16
    }

    /** CINFO, bits 4-7 of CMF; 7 is a 32K window. */
    function Info(): nat {
      cmf / 16
    }

    /** FCHECK, bits 0-4 of FLG. */
    function Check(): nat {
      flg % 32
    }

    /** FDICT, bit 5 of FLG. */
    function Dict(): nat {
      flg / 32 % 2
    }

    /** FLEVEL, bits 6-7 of FLG. */
    function Level(): nat {
      flg / 64
    }

    /** FLEVEL as png_reader.c computes it, `(flg & 129) >> 6`: the mask 129 keeps bits 0 and 7. */
    function LevelAsWritten(): nat {
      ShiftRight(BitAnd(flg, 129), 6)
    }

    /** FCHECK is right when CMF * 256 + FLG is a multiple of 31. */
    predicate CheckPasses() {
      FcheckHolds(cmf, flg)
    }
  }

  predicate FcheckHolds(cmf: int, flg: int) {
    (cmf * 256 + flg) % 31 == 0
  }

  /** CMF is exactly CINFO in the high nibble and CM in the low one. */
  lemma CmfFields(z: ZlibHeader)
    ensures z.Method() < 16 && z.Info() < 16
    ensures z.cmf == 16 * z.Info() + z.Method()
  {
  }

  /** FLG is exactly FLEVEL in bits 6-7, FDICT in bit 5 and FCHECK in bits 0-4. */
  lemma FlgFields(z: ZlibHeader)
    ensures z.Check() < 32 && z.Dict() < 2 && z.Level() < 4
    ensures z.flg == 64 * z.Level() + 32 * z.Dict() + z.Check()
  {
  }

  /** CM and CINFO are what the C's `cmf & 15` and `(cmf & 240) >> 4` extract. */
  lemma CmfMasks(z: ZlibHeader)
    ensures z.Method() == BitAnd(z.cmf, 15)
    ensures z.Info() == ShiftRight(BitAnd(z.cmf, 240), 4)
  {
    LowMask(z.cmf, 4);
    ExtractField(z.cmf, 15, 4);
    var hi := z.cmf / 16;
    ShiftRightIsQuotient(z.cmf, 4);
    LowMask(hi, 4);
    QuotientOf(hi, 0, hi, 16);
  }

  /** FCHECK, FDICT and FLEVEL are what the C's `flg & 31`, `(flg & 32) >> 5` and `flg >> 6` extract. */
  lemma FlgMasks(z: ZlibHeader)
    ensures z.Check() == BitAnd(z.flg, 31)
    ensures z.Dict() == ShiftRight(BitAnd(z.flg, 32), 5)
    ensures z.Level() == ShiftRight(z.flg, 6)
  {
    LowMask(z.flg, 5);
    ExtractField(z.flg, 1, 5);
    ShiftRightIsQuotient(z.flg, 5);
    LowMask(z.flg / 32, 1);
    ShiftRightIsQuotient(z.flg, 6);
  }

  /** FLEVEL is what the mask of bits 6-7 extracts, `(flg & 192) >> 6`, and on a byte that is `flg >> 6`. */
  lemma LevelMask(z: ZlibHeader)
    ensures z.Level() == ShiftRight(BitAnd(z.flg, 192), 6)
    ensures z.Level() == ShiftRight(z.flg, 6)
  {
    var top := ShiftRight(z.flg, 6);
    ShiftRightIsQuotient(z.flg, 6);
    ShiftLeftIsProduct(3, 6);
    ExtractField(z.flg, 3, 6);
    LowMask(top, 2);
  }

  /** The mask 129 drops bit 6 of FLEVEL: the value printed is 0 or 2, twice FLEVEL's high bit. */
  lemma LevelAsWrittenDropsLowBit(z: ZlibHeader)
    ensures z.LevelAsWritten() == 2 * (z.Level() / 2)
    ensures z.LevelAsWritten() == 0 || z.LevelAsWritten() == 2
  {
    var f := z.flg;
    var t := f / 128;
    var low := f % 2;
    QuotientOf(f / 64, t, f / 64 % 2, 2);
    if f > 0 {
      assert BitAnd(f, 129) == low + 2 * BitAnd(f / 2, 64);
      ShiftedMask(f / 2, 1, 6);
      ShiftRightIsQuotient(f / 2, 6);
      HalveThenDivide(f, 7);
      LowMask(t, 1);
      ShiftLeftIsProduct(t % 2, 6);
      assert BitAnd(f / 2, 64) == 64 * t;
      QuotientOf(low + 128 * t, 2 * t, low, 64);
    }
    ShiftRightIsQuotient(BitAnd(f, 129), 6);
  }

  /**
   A header zlib writes at its best compression level, 0x78 0xDA, passes the
   FCHECK test, has FLEVEL 3, and is reported with FLEVEL 2; 0x78 0x5E has
   FLEVEL 1 and is reported with FLEVEL 0.
   */
  lemma LevelAsWrittenMisreports()
    ensures var z := ZlibHeader(0x78, 0xDA); z.CheckPasses() && z.Level() == 3 && z.LevelAsWritten() == 2
    ensures var z := ZlibHeader(0x78, 0x5E); z.CheckPasses() && z.Level() == 1 && z.LevelAsWritten() == 0
  {
    LevelAsWrittenDropsLowBit(ZlibHeader(0x78, 0xDA));
    LevelAsWrittenDropsLowBit(ZlibHeader(0x78, 0x5E));
  }

  /** The default header zlib writes, 0x78 0x9C: deflate, 32K window, no dictionary, FLEVEL 2, FCHECK right. */
  lemma DefaultHeaderPasses()
    ensures var z := ZlibHeader(0x78, 0x9C);
      z.CheckPasses() && z.Method() == 8 && z.Info() == 7 && z.Dict() == 0 && z.Level() == 2
  {
  }

  /** `x ^ (1 << k)`: byte `x` with bit `k` flipped. */
  function Flip(x: byte, k: nat): nat {
    BitXor(x, Pow2(k))
  }

  /** Flipping any single bit of FLG in a header that passes gives a byte for which FCHECK fails. */
  lemma FlgBitFlipFailsCheck(z: ZlibHeader, k: nat)
    requires z.CheckPasses() && k < 8
    ensures Flip(z.flg, k) < 0x100
    ensures !FcheckHolds(z.cmf, Flip(z.flg, k))
  {
    var f, g := z.flg, Flip(z.flg, k);
    FlipMoves(f, k);
    FlipStaysByte(f, k);
    NotMultiple(z.cmf * 256 + f, k, g - f, 1);
  }

  /** Flipping any single bit of CMF in a header that passes gives a byte for which FCHECK fails. */
  lemma CmfBitFlipFailsCheck(z: ZlibHeader, k: nat)
    requires z.CheckPasses() && k < 8
    ensures Flip(z.cmf, k) < 0x100
    ensures !FcheckHolds(Flip(z.cmf, k), z.flg)
  {
    var c, h := z.cmf, Flip(z.cmf, k);
    FlipMoves(c, k);
    FlipStaysByte(c, k);
    NotMultiple(c * 256 + z.flg, k, h - c, 256);
    assert h * 256 == c * 256 + (h - c) * 256;
  }

  /** A clear bit `k` below bit 8 can be set without leaving the byte range. */
  lemma FlipStaysByte(x: byte, k: nat)
    requires k < 8
    ensures Flip(x, k) < 0x100
  {
    FlipBit(x, k);
    if x / Pow2(k) % 2 == 0 {
      PowerOfTwoBelow256(k);
      ClearBitRoom(x, Pow2(k));
    }
  }

  lemma PowerOfTwoBelow256(k: nat)
    requires k < 8
    ensures var p := Pow2(k); p == 1 || p == 2 || p == 4 || p == 8 || p == 16 || p == 32 || p == 64 || p == 128
  {
    if k == 0 {} else if k == 1 {} else if k == 2 {} else if k == 3 {}
    else if k == 4 {} else if k == 5 {} else if k == 6 {} else {}
  }

  /** Below 256, a byte whose bit of value `p` is clear stays below 256 when that bit is set. */
  lemma ClearBitRoom(x: byte, p: nat)
    requires p == 1 || p == 2 || p == 4 || p == 8 || p == 16 || p == 32 || p == 64 || p == 128
    requires x / p % 2 == 0
    ensures x + p < 0x100
  {
    if p == 1 {} else if p == 2 {} else if p == 4 {} else if p == 8 {}
    else if p == 16 {} else if p == 32 {} else if p == 64 {} else {}
  }

  /** A flip moves a byte by exactly the flipped bit's value, up or down. */
  lemma FlipMoves(x: byte, k: nat)
    ensures Flip(x, k) - x == Pow2(k) || x - Flip(x, k) == Pow2(k)
  {
    FlipBit(x, k);
  }

  /**
   Adding plus or minus one bit's value, at weight 1 or 256, to a multiple of 31
   never gives a multiple of 31: 31 is prime and divides neither 2^k nor 256.
   */
  lemma NotMultiple(a: int, k: nat, d: int, weight: int)
    requires a % 31 == 0 && k < 8 && (d == Pow2(k) || -d == Pow2(k))
    requires weight == 1 || weight == 256
    ensures (a + d * weight) % 31 != 0
  {
    var e := Pow2(k) * weight;
    PowerNotMultiple(k, weight);
    var q := a / 31;
    if d == Pow2(k) {
      assert a + d * weight == 31 * q + e;
      QuotientOf(31 * q + e, q + e / 31, e % 31, 31);
    } else {
      assert a + d * weight == 31 * q - e;
      QuotientOf(31 * q - e, q - e / 31 - 1, 31 - e % 31, 31);
    }
  }

  lemma PowerNotMultiple(k: nat, weight: int)
    requires k < 8 && (weight == 1 || weight == 256)
    ensures (Pow2(k) * weight) % 31 != 0
  {
    if k == 0 {} else if k == 1 {} else if k == 2 {} else if k == 3 {}
    else if k == 4 {} else if k == 5 {} else if k == 6 {} else {}
  }

  /** The first byte of a DEFLATE block: BFINAL in bit 0, BTYPE in bits 1-2. */
  datatype BlockHeader = BlockHeader(first: byte) {

    /** BFINAL: 1 on the last block of the stream. */
    function Final(): nat {
      first % 2
    }

    /** BTYPE: 0 stored, 1 fixed Huffman, 2 dynamic Huffman, 3 reserved. */
    function Type(): nat {
      first / 2 % 4
    }

    predicate IsStored() {
      Type() == 0
    }
  }

  /** BFINAL and BTYPE are the three low bits of the block's first byte, and nothing else. */
  lemma BlockHeaderFields(b: BlockHeader)
    ensures b.Final() < 2 && b.Type() < 4
    ensures b.first % 8 == b.Final() + 2 * b.Type()
  {
  }

  /** BFINAL and BTYPE are what the C's `first & 1` and `(first & 6) >> 1` extract. */
  lemma BlockHeaderMasks(b: BlockHeader)
    ensures b.Final() == BitAnd(b.first, 1)
    ensures b.Type() == ShiftRight(BitAnd(b.first, 6), 1)
    ensures b.IsStored() <==> BitAnd(b.first, 6) == 0
  {
    LowMask(b.first, 1);
    ExtractField(b.first, 3, 1);
    ShiftRightIsQuotient(b.first, 1);
    LowMask(b.first / 2, 2);
    ShiftedMask(b.first, 3, 1);
  }

  /**
   `(uint16_t) ~len`, the value NLEN must hold: `len` is promoted to `int`,
   whose complement is `-len - 1`, and the conversion back to 16 bits keeps
   it modulo 2^16.
   */
  function OnesComplement(len: u16): u16
  {
    (-(len as int) - 1) % 0x1_0000
  }

  /** The 16-bit complement is the distance to 0xFFFF, so it undoes itself. */
  lemma OnesComplementIsDifference(len: u16)
    ensures OnesComplement(len) == 0xFFFF - len
    ensures OnesComplement(OnesComplement(len)) == len
  {
    assert -(len as int) - 1 == -1 * 0x1_0000 + (0xFFFF - len);
    var c: int := 0xFFFF - len;
    assert -c - 1 == -1 * 0x1_0000 + len;
  }

  /** Complementing a little-endian 16-bit value complements each of its two bytes. */
  lemma OnesComplementBytewise(lo: byte, hi: byte)
    ensures OnesComplement(LittleEndian16(lo, hi)) == LittleEndian16(0xFF - lo, 0xFF - hi)
  {
    OnesComplementIsDifference(LittleEndian16(lo, hi));
  }

  /** LEN and NLEN as they follow the block's first byte, little-endian (section 3.2.4 of RFC 1951). */
  function StoredLengthBytes(len: u16): (s: seq<byte>)
    ensures |s| == 4
  {
    LittleEndian16Bytes(len) + LittleEndian16Bytes(OnesComplement(len))
  }
}
