/**
 PNG chunk framing (section 5.3 of the PNG specification, W3C second edition):
 a big-endian 32-bit length, a 4-byte type, `length` data bytes and a
 big-endian CRC-32 of the type and data. The property bits of the type
 (section 5.4) are bit 5 of each of its four bytes.
 */
module Chunks {
  import opened Bytes
  import opened Bits

  /** The type tags the validator dispatches on, as ASCII bytes. */
  const IHDR: seq<byte> := [73, 72, 68, 82]
  const IDAT: seq<byte> := [73, 68, 65, 84]
  const IEND: seq<byte> := [73, 69, 78, 68]

  /** One chunk as read from the stream; its length is the length of `data`. */
  datatype Chunk = Chunk(kind: seq<byte>, data: seq<byte>, storedCrc: u32) {

    /** Four type bytes, and a data length the 32-bit length field can hold. */
    predicate Valid() {
      |kind| == 4 && |data| < 0x1_0000_0000
    }

    function Length(): u32
      requires Valid()
    {
      |data|
    }

    /** The C compares the NUL-terminated 4-byte type with `strcmp`, which is byte equality here. */
    predicate IsHeader() { kind == IHDR }
    predicate IsData() { kind == IDAT }
    predicate IsEnd() { kind == IEND }
  }

  type bit = x: nat | x < 2

  /** The four property bits: ancillary, private, reserved, safe-to-copy. */
  datatype Flags = Flags(ancillary: bit, private: bit, reserved: bit, safeToCopy: bit)

  /** Bit 5 of one type byte. */
  function PropertyBit(b: byte): bit
  {
    b / 32 % 2
  }

  /** The property bit is what the C's `(b & 32) >> 5` extracts. */
  lemma PropertyBitIsMask(b: byte)
    ensures PropertyBit(b) == ShiftRight(BitAnd(b, 32), 5)
  {
    ExtractField(b, 1, 5);
    ShiftRightIsQuotient(b, 5);
    LowMask(b / 32, 1);
  }

  function PropertyFlags(kind: seq<byte>): Flags
    requires |kind| == 4
  {
    Flags(PropertyBit(kind[0]), PropertyBit(kind[1]), PropertyBit(kind[2]), PropertyBit(kind[3]))
  }

  predicate IsAsciiLetter(b: byte) {
    65 <= b <= 90 || 97 <= b <= 122
  }

  /** On an ASCII letter, the property bit is set exactly when the letter is lower case. */
  lemma PropertyBitIsLowerCase(b: byte)
    requires IsAsciiLetter(b)
    ensures PropertyBit(b) == 1 <==> 97 <= b <= 122
    ensures PropertyBit(b) == 0 <==> 65 <= b <= 90
  {
  }

  /** The bytes a chunk occupies in the stream: `4 + (4 + length) + 4` of them. */
  function Encode(c: Chunk): (s: seq<byte>)
    requires c.Valid()
    ensures |s| == 12 + c.Length()
  {
    BigEndian32Bytes(c.Length()) + c.kind + c.data + BigEndian32Bytes(c.storedCrc)
  }

  datatype ReadResult = Read(chunk: Chunk, rest: seq<byte>) | Truncated

  /**
   Reads the next chunk. The stream ends prematurely when fewer than 4 bytes
   remain for the length, or fewer than the declared type, data and CRC.
   */
  function ReadChunk(s: seq<byte>): (r: ReadResult)
    ensures r.Truncated? <==> |s| < 4 || |s| < 12 + BigEndian32(s[..4])
    ensures r.Read? ==> r.chunk.Valid() && s == Encode(r.chunk) + r.rest
  {
    if |s| < 4 then
      Truncated
    else
      var n := BigEndian32(s[..4]);
      if |s| < 12 + n then
        Truncated
      else
        ReadFrames(s, n);
        Read(Framed(s, n), s[12 + n..])
  }

  /** The chunk whose length field `n` has been read from the first 4 bytes of `s`. */
  function Framed(s: seq<byte>, n: nat): Chunk
    requires |s| >= 12 + n
  {
    Chunk(s[4..8], s[8..8 + n], BigEndian32(s[8 + n..12 + n]))
  }

  /** The pieces `ReadChunk` cuts out of the stream put back together give the stream. */
  lemma ReadFrames(s: seq<byte>, n: nat)
    requires |s| >= 12 + n && n == BigEndian32(s[..4])
    ensures Framed(s, n).Valid() && s == Encode(Framed(s, n)) + s[12 + n..]
  {
    var c := Framed(s, n);
    BigEndian32Inverse(s[..4]);
    BigEndian32Inverse(s[8 + n..12 + n]);
    assert BigEndian32Bytes(c.Length()) == s[..4];
    assert BigEndian32Bytes(c.storedCrc) == s[8 + n..12 + n];
    assert s == s[..4] + s[4..8] + s[8..8 + n] + s[8 + n..12 + n] + s[12 + n..];
  }

  /** Reading an encoded chunk gives the chunk back and leaves exactly the bytes after it. */
  lemma ReadEncoded(c: Chunk, rest: seq<byte>)
    requires c.Valid()
    ensures ReadChunk(Encode(c) + rest) == Read(c, rest)
  {
    var s := Encode(c) + rest;
    var n := c.Length();
    assert s[..4] == BigEndian32Bytes(n);
    BigEndian32RoundTrip(n);
    assert s[4..8] == c.kind;
    assert s[8..8 + n] == c.data;
    assert s[8 + n..12 + n] == BigEndian32Bytes(c.storedCrc);
    BigEndian32RoundTrip(c.storedCrc);
    assert s[12 + n..] == rest;
  }
}
