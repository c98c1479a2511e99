/**
 The image header (section 11.2.2 of the PNG specification): width and height
 as big-endian 32-bit values, then bit depth, colour type, compression method,
 filter method and interlace method as single bytes, 13 bytes in all.
 */
module Ihdr {
  import opened Bytes
  import opened Wrappers

  const HeaderSize: nat := 13

  datatype ImageHeader = ImageHeader(
    width: u32,
    height: u32,
    bitDepth: byte,
    colorType: byte,
    compression: byte,
    filter: byte,
    interlace: byte)

  /** The 13 bytes that store a header. */
  function EncodeHeader(h: ImageHeader): (s: seq<byte>)
    ensures |s| == HeaderSize
  {
    BigEndian32Bytes(h.width) + BigEndian32Bytes(h.height)
      + [h.bitDepth, h.colorType, h.compression, h.filter, h.interlace]
  }

  /**
   Decodes the first 13 data bytes of an IHDR chunk; bytes after the 13th are
   ignored, and shorter data decodes to nothing.
   */
  function DecodeHeader(data: seq<byte>): (r: Option<ImageHeader>)
    ensures r.Some? <==> |data| >= HeaderSize
    ensures r.Some? ==> EncodeHeader(r.value) == data[..HeaderSize]
  {
    if |data| < HeaderSize then
      None
    else
      var h := ImageHeader(BigEndian32(data[..4]), BigEndian32(data[4..8]),
                           data[8], data[9], data[10], data[11], data[12]);
      BigEndian32Inverse(data[..4]);
      BigEndian32Inverse(data[4..8]);
      assert EncodeHeader(h) == data[..HeaderSize];
      Some(h)
  }

  /** Decoding an encoded header gives it back, whatever follows it. */
  lemma DecodeEncoded(h: ImageHeader, rest: seq<byte>)
    ensures DecodeHeader(EncodeHeader(h) + rest) == Some(h)
  {
    var s := EncodeHeader(h) + rest;
    assert s[..4] == BigEndian32Bytes(h.width);
    assert s[4..8] == BigEndian32Bytes(h.height);
    BigEndian32RoundTrip(h.width);
    BigEndian32RoundTrip(h.height);
  }
}
