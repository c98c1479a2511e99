/**
 Bytes, fixed-width unsigned integers and the two byte orders the validator reads.

 A PNG stream stores its 32-bit quantities (chunk length, CRC, Adler-32 trailer)
 big-endian; the DEFLATE stored-block header stores LEN and NLEN little-endian.
 */
module Bytes {
  import opened Bits

  /** One byte of the input, as the C `unsigned char`. */
  type byte = x: int | 0 <= x < 0x100

  type u16 = x: int | 0 <= x < 0x1_0000
  type u32 = x: int | 0 <= x < 0x1_0000_0000

  /** Decodes 4 bytes as a big-endian unsigned 32-bit value (`fread` followed by `swap_uint32`). */
  function BigEndian32(s: seq<byte>): (v: u32)
    requires |s| == 4
  {
    s[0] as int * 0x100_0000 + s[1] as int * 0x1_0000 + s[2] as int * 0x100 + s[3]
  }

  /** The 4 bytes that store `v` big-endian. */
  function BigEndian32Bytes(v: u32): (s: seq<byte>)
    ensures |s| == 4
  {
    [v / 0x100_0000, v / 0x1_0000 % 0x100, v / 0x100 % 0x100, v % 0x100]
  }

  /** Decoding what was encoded gives the value back. */
  lemma BigEndian32RoundTrip(v: u32)
    ensures BigEndian32(BigEndian32Bytes(v)) == v
  {
    Base256Digits(v);
  }

  /** Encoding what was decoded gives the bytes back: the big-endian reading is injective. */
  lemma BigEndian32Inverse(s: seq<byte>)
    requires |s| == 4
    ensures BigEndian32Bytes(BigEndian32(s)) == s
  {
    Base256Unique(s[0], s[1], s[2], s[3]);
  }

  /** A non-negative value is the sum of its base-256 digits (the top one unbounded). */
  lemma Base256Digits(v: int)
    requires 0 <= v
    ensures v == v / 0x100_0000 * 0x100_0000 + v / 0x1_0000 % 0x100 * 0x1_0000 + v / 0x100 % 0x100 * 0x100 + v % 0x100
  {
    var q1, d := v / 0x100, v % 0x100;
    var q2, c := q1 / 0x100, q1 % 0x100;
    var q3, b := q2 / 0x100, q2 % 0x100;
    QuotientOf(v, q2, c * 0x100 + d, 0x1_0000);
    QuotientOf(v, q3, b * 0x1_0000 + c * 0x100 + d, 0x100_0000);
  }

  /** Reading the base-256 digits of a four-digit value gives the digits back. */
  lemma Base256Unique(a: int, b: int, c: int, d: int)
    requires 0 <= a < 0x100 && 0 <= b < 0x100 && 0 <= c < 0x100 && 0 <= d < 0x100
    ensures var v := a * 0x100_0000 + b * 0x1_0000 + c * 0x100 + d;
      v / 0x100_0000 == a && v / 0x1_0000 % 0x100 == b && v / 0x100 % 0x100 == c && v % 0x100 == d
  {
    var v := a * 0x100_0000 + b * 0x1_0000 + c * 0x100 + d;
    QuotientOf(v, a, b * 0x1_0000 + c * 0x100 + d, 0x100_0000);
    QuotientOf(v, a * 0x100 + b, c * 0x100 + d, 0x1_0000);
    QuotientOf(a * 0x100 + b, a, b, 0x100);
    QuotientOf(v, a * 0x1_0000 + b * 0x100 + c, d, 0x100);
    QuotientOf(a * 0x1_0000 + b * 0x100 + c, a * 0x100 + b, c, 0x100);
  }

  /** `lo + hi * 256`: a little-endian 16-bit field, as the C reads LEN and NLEN. */
  function LittleEndian16(lo: byte, hi: byte): (v: u16)
  {
    lo + hi as int * 0x100
  }

  /** The two bytes that store `v` little-endian. */
  function LittleEndian16Bytes(v: u16): (s: seq<byte>)
    ensures |s| == 2
  {
    [v % 0x100, v / 0x100]
  }

  lemma LittleEndian16RoundTrip(v: u16)
    ensures var s := LittleEndian16Bytes(v); LittleEndian16(s[0], s[1]) == v
  {
  }

  lemma LittleEndian16Inverse(lo: byte, hi: byte)
    ensures LittleEndian16Bytes(LittleEndian16(lo, hi)) == [lo, hi]
  {
    QuotientOf(LittleEndian16(lo, hi), hi, lo, 0x100);
  }
}
