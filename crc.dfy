/** The Modbus CRC-16 that both drivers append to every request frame.
    The drivers call minimalmodbus._calculate_crc_string (mercury/mercury206.py:3,
    mercury/mercury236.py:3), whose code is not part of this model; this module
    is written from section 6.2.2 of the MODBUS over Serial Line Specification
    and Implementation Guide V1.02: a 16-bit register preset to 0xFFFF, each
    byte XORed into its low end and shifted out least significant bit first,
    with the reflected polynomial 0xA001 XORed in whenever a 1 is shifted out,
    and no final XOR; the two bytes are sent low byte first. */
module Crc {
  import opened Utils

  const Polynomial: bv16 := 0xA001

  /** One shift of the register: the polynomial is XORed in exactly when the
      bit shifted out is 1 (the mask 0 - (crc & 1) is all ones or all zeros). */
  function Shift(crc: bv16): bv16
  {
    (crc >> 1) ^ ((0 - (crc & 1)) & Polynomial)
  }

  /** XOR a byte (given as a 16-bit value below 256) into the register and
      shift eight times. */
  function AddByte(crc: bv16, b: bv16): bv16
  {
    var c := crc ^ b;
    Shift(Shift(Shift(Shift(Shift(Shift(Shift(Shift(c))))))))
  }

  /** The register after processing all of data, from the preset 0xFFFF. */
  function Register(data: seq<byte>): bv16
    decreases |data|
  {
    if data == [] then 0xFFFF else AddByte(Register(data[..|data| - 1]), data[|data| - 1] as bv16)
  }

  /** A register value as two bytes, low byte first. */
  function LowHigh(v: bv16): (r: seq<byte>)
    ensures |r| == 2
    ensures r[0] as int + 256 * (r[1] as int) == v as int
  {
    [(v & 0xFF) as int, (v >> 8) as int]
  }

  /** The two checksum bytes to append to data: low byte, then high byte. */
  function Crc16(data: seq<byte>): (r: seq<byte>)
    ensures |r| == 2
    ensures r[0] as int + 256 * (r[1] as int) == Register(data) as int
  {
    LowHigh(Register(data))
  }

  /** Converting a register value to an integer and back loses nothing. */
  lemma BvRoundTrip(x: bv16)
    ensures (x as int) as bv16 == x
  {
  }

  /** Feeding a register's own low and high bytes through it clears it. */
  lemma RegisterResidue(v: bv16)
    ensures AddByte(AddByte(v, v & 0xFF), v >> 8) == 0
  {
  }

  /** The register after each byte is the register before it, updated by that byte. */
  lemma RegisterSnoc(data: seq<byte>, b: byte)
    ensures Register(data + [b]) == AddByte(Register(data), b as bv16)
  {
    assert (data + [b])[..|data|] == data;
  }

  /** One step of a worked example: from a known register, a known update. */
  lemma Step(data: seq<byte>, b: byte, before: bv16, after: bv16)
    requires Register(data) == before
    requires AddByte(before, b as bv16) == after
    ensures Register(data + [b]) == after
  {
    RegisterSnoc(data, b);
  }

  /** A frame followed by its own checksum leaves the register at zero, which
      is how a receiver checks a frame. */
  lemma CrcResidue(data: seq<byte>)
    ensures Register(data + Crc16(data)) == 0
  {
    var v := Register(data);
    var c := LowHigh(v);
    BvRoundTrip(v & 0xFF);
    BvRoundTrip(v >> 8);
    RegisterSnoc(data, c[0]);
    RegisterSnoc(data + [c[0]], c[1]);
    assert data + [c[0]] + [c[1]] == data + c;
    RegisterResidue(v);
  }

  /** The checksums in the documentation of pack_msg (mercury/mercury206.py:83-90):
      the 206 request for address 10925856 (00 A6 B7 20) with command 0x28 ends
      in AF 70, with command 0x2B in EF 71, and the bytes address b'123' padded
      to 00 31 32 33 ends in 04 9E. Each example walks the register one byte at
      a time. */
  lemma CrcExample28()
    ensures Crc16([0x00, 0xA6, 0xB7, 0x20, 0x28]) == [0xAF, 0x70]
  {
    RegisterAddress();
    assert AddByte(0x2F96, 0x28) == 0x70AF;
    Step([0x00, 0xA6, 0xB7, 0x20], 0x28, 0x2F96, 0x70AF);
    assert [0x00, 0xA6, 0xB7, 0x20] + [0x28] == [0x00, 0xA6, 0xB7, 0x20, 0x28];
  }

  lemma CrcExample2B()
    ensures Crc16([0x00, 0xA6, 0xB7, 0x20, 0x2B]) == [0xEF, 0x71]
  {
    RegisterAddress();
    assert AddByte(0x2F96, 0x2B) == 0x71EF;
    Step([0x00, 0xA6, 0xB7, 0x20], 0x2B, 0x2F96, 0x71EF);
    assert [0x00, 0xA6, 0xB7, 0x20] + [0x2B] == [0x00, 0xA6, 0xB7, 0x20, 0x2B];
  }

  lemma CrcExampleBytes123()
    ensures Crc16([0x00, 0x31, 0x32, 0x33]) == [0x04, 0x9E]
  {
    RegisterBytes12();
    assert AddByte(0x85E5, 0x33) == 0x9E04;
    Step([0x00, 0x31, 0x32], 0x33, 0x85E5, 0x9E04);
    assert [0x00, 0x31, 0x32] + [0x33] == [0x00, 0x31, 0x32, 0x33];
  }

  /** The register after the single byte 00. */
  lemma RegisterZero()
    ensures Register([0x00]) == 0x40BF
  {
    assert AddByte(0xFFFF, 0x00) == 0x40BF;
    Step([], 0x00, 0xFFFF, 0x40BF);
    assert [] + [0x00] == [0x00];
  }

  /** The register after the address bytes 00 A6 B7 20, one byte at a time. */
  lemma RegisterAddress()
    ensures Register([0x00, 0xA6, 0xB7, 0x20]) == 0x2F96
  {
    RegisterZero();
    assert AddByte(0x40BF, 0xA6) == 0xCA81;
    Step([0x00], 0xA6, 0x40BF, 0xCA81);
    assert [0x00] + [0xA6] == [0x00, 0xA6];
    assert AddByte(0xCA81, 0xB7) == 0x164A;
    Step([0x00, 0xA6], 0xB7, 0xCA81, 0x164A);
    assert [0x00, 0xA6] + [0xB7] == [0x00, 0xA6, 0xB7];
    assert AddByte(0x164A, 0x20) == 0x2F96;
    Step([0x00, 0xA6, 0xB7], 0x20, 0x164A, 0x2F96);
    assert [0x00, 0xA6, 0xB7] + [0x20] == [0x00, 0xA6, 0xB7, 0x20];
  }

  /** The register after 00 31 32. */
  lemma RegisterBytes12()
    ensures Register([0x00, 0x31, 0x32]) == 0x85E5
  {
    RegisterZero();
    assert AddByte(0x40BF, 0x31) == 0x64C0;
    Step([0x00], 0x31, 0x40BF, 0x64C0);
    assert [0x00] + [0x31] == [0x00, 0x31];
    assert AddByte(0x64C0, 0x32) == 0x85E5;
    Step([0x00, 0x31], 0x32, 0x64C0, 0x85E5);
    assert [0x00, 0x31] + [0x32] == [0x00, 0x31, 0x32];
  }
}
