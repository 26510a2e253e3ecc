/**
 * The content checksum of utils::CalculateHash: boost::crc_32_type, i.e. the
 * standard CRC-32 (reflected polynomial 0xEDB88320, initial value and final
 * xor 0xFFFFFFFF), computed bit by bit over the bytes of a string.
 */
module Checksum {
  import opened Common

  const Polynomial: bv32 := 0xEDB8_8320

  /** Eight (or `k`) shift steps of the reflected CRC register. */
  function ShiftBits(crc: bv32, k: nat): bv32
    decreases k
  {
    if k == 0 then crc
    else ShiftBits(if crc & 1 == 1 then (crc >> 1) ^ Polynomial else crc >> 1, k - 1)
  }

  /** The register after feeding `data` into a register holding `crc`. */
  function Feed(crc: bv32, data: Bytes): bv32
    decreases |data|
  {
    if data == [] then crc
    else Feed(ShiftBits(crc ^ (data[0] as int as bv32), 8), data[1..])
  }

  /** CRC-32 of `data`; a 32-bit value, a function of the bytes alone. */
  function CalculateHash(data: Bytes): (h: Hash)
    ensures h < 0x1_0000_0000
  {
    (Feed(0xFFFF_FFFF, data) ^ 0xFFFF_FFFF) as int
  }

  /** The checksum of the one-byte text "0", computed shift by shift. */
  lemma ChecksumOfZeroText()
    ensures CalculateHash([48]) == 0xF4DBDF21
  {
    assert ShiftBits(0xFFFFFFCF, 8) == ShiftBits(0x92477CC7, 7);
    assert ShiftBits(0x92477CC7, 7) == ShiftBits(0xA49B3D43, 6);
    assert ShiftBits(0xA49B3D43, 6) == ShiftBits(0xBFF51D81, 5);
    assert ShiftBits(0xBFF51D81, 5) == ShiftBits(0xB2420DE0, 4);
    assert ShiftBits(0xB2420DE0, 4) == ShiftBits(0x592106F0, 3);
    assert ShiftBits(0x592106F0, 3) == ShiftBits(0x2C908378, 2);
    assert ShiftBits(0x2C908378, 2) == ShiftBits(0x164841BC, 1);
    assert ShiftBits(0x164841BC, 1) == ShiftBits(0x0B2420DE, 0);
    var data: Bytes := [48];
    assert data[0] as int as bv32 == 48;
    assert (0xFFFF_FFFF as bv32) ^ 48 == 0xFFFFFFCF;
    assert data[1..] == [];
    assert Feed(0xFFFF_FFFF, data) == Feed(0x0B2420DE, []);
  }

  /** The checksum of the one-byte text "1", computed shift by shift. */
  lemma ChecksumOfOneText()
    ensures CalculateHash([49]) == 0x83DCEFB7
  {
    assert ShiftBits(0xFFFFFFCE, 8) == ShiftBits(0x7FFFFFE7, 7);
    assert ShiftBits(0x7FFFFFE7, 7) == ShiftBits(0xD2477CD3, 6);
    assert ShiftBits(0xD2477CD3, 6) == ShiftBits(0x849B3D49, 5);
    assert ShiftBits(0x849B3D49, 5) == ShiftBits(0xAFF51D84, 4);
    assert ShiftBits(0xAFF51D84, 4) == ShiftBits(0x57FA8EC2, 3);
    assert ShiftBits(0x57FA8EC2, 3) == ShiftBits(0x2BFD4761, 2);
    assert ShiftBits(0x2BFD4761, 2) == ShiftBits(0xF8462090, 1);
    assert ShiftBits(0xF8462090, 1) == ShiftBits(0x7C231048, 0);
    var data: Bytes := [49];
    assert data[0] as int as bv32 == 49;
    assert (0xFFFF_FFFF as bv32) ^ 49 == 0xFFFFFFCE;
    assert data[1..] == [];
    assert Feed(0xFFFF_FFFF, data) == Feed(0x7C231048, []);
  }
}
