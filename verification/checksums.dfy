/**
 The checksum provider the validator consumes: CRC-32 over a chunk's type and
 data, and Adler-32 over a stored block's data. Their algorithms live in
 `png_utils.h`, which is not part of this model, so they are taken as
 arbitrary total functions and every result of the model holds for all of them.
 */
module Checksums {
  import opened Bytes

  datatype Provider = Provider(crc32: seq<byte> -> u32, adler32: seq<byte> -> u32)
}
