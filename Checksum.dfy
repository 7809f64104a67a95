/**
 * CRC-32C (Castagnoli polynomial), the checksum the TFRecord codec obtains from
 * Guava's Hashing.crc32c(): reflected, initial value and final xor 0xFFFFFFFF.
 */
module Checksum {

  /** The Castagnoli polynomial 0x1EDC6F41, bit-reversed for the reflected algorithm. */
  const Polynomial: bv32 := 0x82F6_3B78

  /** One shift of the reflected division register. */
  function ShiftBit(c: bv32): bv32
  {
    if c & 1 == 1 then (c >> 1) ^ Polynomial else c >> 1
  }

  /** The register after feeding one byte, low bit first. */
  function UpdateByte(c: bv32, b: bv8): bv32
  {
    var x := c ^ (b as bv32);
    ShiftBit(ShiftBit(ShiftBit(ShiftBit(ShiftBit(ShiftBit(ShiftBit(ShiftBit(x))))))))
  }

  /** The register after feeding `s` from left to right. */
  function Update(c: bv32, s: seq<bv8>): bv32
    decreases |s|
  {
    if |s| == 0 then c else Update(UpdateByte(c, s[0]), s[1..])
  }

  /**
   * CRC-32C of the byte string `s`. The register starts at all ones and is inverted at the
   * end, so the empty string checks to 0 (CheckValue gives the standard check value).
   */
  function Crc32c(s: seq<bv8>): (r: bv32)
    ensures |s| == 0 ==> r == 0
  {
    !Update(0xFFFF_FFFF, s)
  }

  /** The standard CRC-32C check value: the checksum of the ASCII digits "123456789". */
  lemma CheckValue()
    ensures Crc32c([0x31, 0x32, 0x33, 0x34, 0x35, 0x36, 0x37, 0x38, 0x39]) == 0xE306_9283
  {
    var s: seq<bv8> := [0x31, 0x32, 0x33, 0x34, 0x35, 0x36, 0x37, 0x38, 0x39];
    assert UpdateByte(0xFFFF_FFFF, s[0]) == 0x6f0a661c;
    assert UpdateByte(0x6f0a661c, s[1]) == 0x8caa3b9f;
    assert UpdateByte(0x8caa3b9f, s[2]) == 0xef84d04d;
    assert UpdateByte(0xef84d04d, s[3]) == 0x09c50b11;
    assert UpdateByte(0x09c50b11, s[4]) == 0xe72edcca;
    assert UpdateByte(0xe72edcca, s[5]) == 0xbeca8e79;
    assert UpdateByte(0xbeca8e79, s[6]) == 0xedbd6815;
    assert UpdateByte(0xedbd6815, s[7]) == 0x9f787f65;
    assert UpdateByte(0x9f787f65, s[8]) == 0x1cf96d7c;
    assert Update(0x9f787f65, s[8..]) == 0x1cf96d7c;
    assert Update(0xedbd6815, s[7..]) == 0x1cf96d7c;
    assert Update(0xbeca8e79, s[6..]) == 0x1cf96d7c;
    assert Update(0xe72edcca, s[5..]) == 0x1cf96d7c;
    assert Update(0x09c50b11, s[4..]) == 0x1cf96d7c;
    assert Update(0xef84d04d, s[3..]) == 0x1cf96d7c;
    assert Update(0x8caa3b9f, s[2..]) == 0x1cf96d7c;
    assert Update(0x6f0a661c, s[1..]) == 0x1cf96d7c;
    assert Update(0xFFFF_FFFF, s[0..]) == 0x1cf96d7c;
  }
}
