/**
 * The constant tables of the cipher (class LOOKUPS): the S-box and its
 * inverse (FIPS-197 figures 7 and 14), the round constants Rcon (FIPS-197
 * section 5.2) and the matrix of InvMixColumns (FIPS-197 section 5.3.3).
 * The S-boxes are kept as 16 rows of 16, indexed by the high and the low
 * nibble of the byte, which is the figures' layout and the same 256 bytes as
 * the flat arrays of the library.
 */
module Lookups {
  import opened Bytes
  import Gf

  const SBOX: seq<seq<Byte>> := [
    [0x63, 0x7c, 0x77, 0x7b, 0xf2, 0x6b, 0x6f, 0xc5, 0x30, 0x01, 0x67, 0x2b, 0xfe, 0xd7, 0xab, 0x76],
    [0xca, 0x82, 0xc9, 0x7d, 0xfa, 0x59, 0x47, 0xf0, 0xad, 0xd4, 0xa2, 0xaf, 0x9c, 0xa4, 0x72, 0xc0],
    [0xb7, 0xfd, 0x93, 0x26, 0x36, 0x3f, 0xf7, 0xcc, 0x34, 0xa5, 0xe5, 0xf1, 0x71, 0xd8, 0x31, 0x15],
    [0x04, 0xc7, 0x23, 0xc3, 0x18, 0x96, 0x05, 0x9a, 0x07, 0x12, 0x80, 0xe2, 0xeb, 0x27, 0xb2, 0x75],
    [0x09, 0x83, 0x2c, 0x1a, 0x1b, 0x6e, 0x5a, 0xa0, 0x52, 0x3b, 0xd6, 0xb3, 0x29, 0xe3, 0x2f, 0x84],
    [0x53, 0xd1, 0x00, 0xed, 0x20, 0xfc, 0xb1, 0x5b, 0x6a, 0xcb, 0xbe, 0x39, 0x4a, 0x4c, 0x58, 0xcf],
    [0xd0, 0xef, 0xaa, 0xfb, 0x43, 0x4d, 0x33, 0x85, 0x45, 0xf9, 0x02, 0x7f, 0x50, 0x3c, 0x9f, 0xa8],
    [0x51, 0xa3, 0x40, 0x8f, 0x92, 0x9d, 0x38, 0xf5, 0xbc, 0xb6, 0xda, 0x21, 0x10, 0xff, 0xf3, 0xd2],
    [0xcd, 0x0c, 0x13, 0xec, 0x5f, 0x97, 0x44, 0x17, 0xc4, 0xa7, 0x7e, 0x3d, 0x64, 0x5d, 0x19, 0x73],
    [0x60, 0x81, 0x4f, 0xdc, 0x22, 0x2a, 0x90, 0x88, 0x46, 0xee, 0xb8, 0x14, 0xde, 0x5e, 0x0b, 0xdb],
    [0xe0, 0x32, 0x3a, 0x0a, 0x49, 0x06, 0x24, 0x5c, 0xc2, 0xd3, 0xac, 0x62, 0x91, 0x95, 0xe4, 0x79],
    [0xe7, 0xc8, 0x37, 0x6d, 0x8d, 0xd5, 0x4e, 0xa9, 0x6c, 0x56, 0xf4, 0xea, 0x65, 0x7a, 0xae, 0x08],
    [0xba, 0x78, 0x25, 0x2e, 0x1c, 0xa6, 0xb4, 0xc6, 0xe8, 0xdd, 0x74, 0x1f, 0x4b, 0xbd, 0x8b, 0x8a],
    [0x70, 0x3e, 0xb5, 0x66, 0x48, 0x03, 0xf6, 0x0e, 0x61, 0x35, 0x57, 0xb9, 0x86, 0xc1, 0x1d, 0x9e],
    [0xe1, 0xf8, 0x98, 0x11, 0x69, 0xd9, 0x8e, 0x94, 0x9b, 0x1e, 0x87, 0xe9, 0xce, 0x55, 0x28, 0xdf],
    [0x8c, 0xa1, 0x89, 0x0d, 0xbf, 0xe6, 0x42, 0x68, 0x41, 0x99, 0x2d, 0x0f, 0xb0, 0x54, 0xbb, 0x16]
  ]

  const INV_SBOX: seq<seq<Byte>> := [
    [0x52, 0x09, 0x6a, 0xd5, 0x30, 0x36, 0xa5, 0x38, 0xbf, 0x40, 0xa3, 0x9e, 0x81, 0xf3, 0xd7, 0xfb],
    [0x7c, 0xe3, 0x39, 0x82, 0x9b, 0x2f, 0xff, 0x87, 0x34, 0x8e, 0x43, 0x44, 0xc4, 0xde, 0xe9, 0xcb],
    [0x54, 0x7b, 0x94, 0x32, 0xa6, 0xc2, 0x23, 0x3d, 0xee, 0x4c, 0x95, 0x0b, 0x42, 0xfa, 0xc3, 0x4e],
    [0x08, 0x2e, 0xa1, 0x66, 0x28, 0xd9, 0x24, 0xb2, 0x76, 0x5b, 0xa2, 0x49, 0x6d, 0x8b, 0xd1, 0x25],
    [0x72, 0xf8, 0xf6, 0x64, 0x86, 0x68, 0x98, 0x16, 0xd4, 0xa4, 0x5c, 0xcc, 0x5d, 0x65, 0xb6, 0x92],
    [0x6c, 0x70, 0x48, 0x50, 0xfd, 0xed, 0xb9, 0xda, 0x5e, 0x15, 0x46, 0x57, 0xa7, 0x8d, 0x9d, 0x84],
    [0x90, 0xd8, 0xab, 0x00, 0x8c, 0xbc, 0xd3, 0x0a, 0xf7, 0xe4, 0x58, 0x05, 0xb8, 0xb3, 0x45, 0x06],
    [0xd0, 0x2c, 0x1e, 0x8f, 0xca, 0x3f, 0x0f, 0x02, 0xc1, 0xaf, 0xbd, 0x03, 0x01, 0x13, 0x8a, 0x6b],
    [0x3a, 0x91, 0x11, 0x41, 0x4f, 0x67, 0xdc, 0xea, 0x97, 0xf2, 0xcf, 0xce, 0xf0, 0xb4, 0xe6, 0x73],
    [0x96, 0xac, 0x74, 0x22, 0xe7, 0xad, 0x35, 0x85, 0xe2, 0xf9, 0x37, 0xe8, 0x1c, 0x75, 0xdf, 0x6e],
    [0x47, 0xf1, 0x1a, 0x71, 0x1d, 0x29, 0xc5, 0x89, 0x6f, 0xb7, 0x62, 0x0e, 0xaa, 0x18, 0xbe, 0x1b],
    [0xfc, 0x56, 0x3e, 0x4b, 0xc6, 0xd2, 0x79, 0x20, 0x9a, 0xdb, 0xc0, 0xfe, 0x78, 0xcd, 0x5a, 0xf4],
    [0x1f, 0xdd, 0xa8, 0x33, 0x88, 0x07, 0xc7, 0x31, 0xb1, 0x12, 0x10, 0x59, 0x27, 0x80, 0xec, 0x5f],
    [0x60, 0x51, 0x7f, 0xa9, 0x19, 0xb5, 0x4a, 0x0d, 0x2d, 0xe5, 0x7a, 0x9f, 0x93, 0xc9, 0x9c, 0xef],
    [0xa0, 0xe0, 0x3b, 0x4d, 0xae, 0x2a, 0xf5, 0xb0, 0xc8, 0xeb, 0xbb, 0x3c, 0x83, 0x53, 0x99, 0x61],
    [0x17, 0x2b, 0x04, 0x7e, 0xba, 0x77, 0xd6, 0x26, 0xe1, 0x69, 0x14, 0x63, 0x55, 0x21, 0x0c, 0x7d]
  ]

  /** LOOKUPS::SBOX[n] */
  function SubByte(b: Byte): Byte
  {
    SBOX[(b >> 4) as int][(b & 0xf) as int]
  }

  /** LOOKUPS::INV_SBOX[n] */
  function InvSubByte(b: Byte): Byte
  {
    INV_SBOX[(b >> 4) as int][(b & 0xf) as int]
  }

  /** The inverse S-box undoes the S-box. */
  lemma InvSubByteOfSubByte(b: Byte)
    ensures InvSubByte(SubByte(b)) == b
  {
    if b < 0x40 {
      InvSubByteRows0(b);
    } else if b < 0x80 {
      InvSubByteRows1(b);
    } else if b < 0xc0 {
      InvSubByteRows2(b);
    } else {
      InvSubByteRows3(b);
    }
  }

  /** Rows 0 to 3 of the S-box table. */
  lemma InvSubByteRows0(b: Byte)
    requires b < 0x40
    ensures InvSubByte(SubByte(b)) == b
  {
    var hi, lo := b >> 4, b & 0xf;
    assert hi == 0 || hi == 1 || hi == 2 || hi == 3;
    assert lo == 0 || lo == 1 || lo == 2 || lo == 3 || lo == 4 || lo == 5 || lo == 6 || lo == 7 || lo == 8 || lo == 9 || lo == 10 || lo == 11 || lo == 12 || lo == 13 || lo == 14 || lo == 15;
  }

  /** Rows 4 to 7 of the S-box table. */
  lemma InvSubByteRows1(b: Byte)
    requires 0x40 <= b < 0x80
    ensures InvSubByte(SubByte(b)) == b
  {
    var hi, lo := b >> 4, b & 0xf;
    assert hi == 4 || hi == 5 || hi == 6 || hi == 7;
    assert lo == 0 || lo == 1 || lo == 2 || lo == 3 || lo == 4 || lo == 5 || lo == 6 || lo == 7 || lo == 8 || lo == 9 || lo == 10 || lo == 11 || lo == 12 || lo == 13 || lo == 14 || lo == 15;
  }

  /** Rows 8 to b of the S-box table. */
  lemma InvSubByteRows2(b: Byte)
    requires 0x80 <= b < 0xc0
    ensures InvSubByte(SubByte(b)) == b
  {
    var hi, lo := b >> 4, b & 0xf;
    assert hi == 8 || hi == 9 || hi == 10 || hi == 11;
    assert lo == 0 || lo == 1 || lo == 2 || lo == 3 || lo == 4 || lo == 5 || lo == 6 || lo == 7 || lo == 8 || lo == 9 || lo == 10 || lo == 11 || lo == 12 || lo == 13 || lo == 14 || lo == 15;
  }

  /** Rows c to f of the S-box table. */
  lemma InvSubByteRows3(b: Byte)
    requires 0xc0 <= b
    ensures InvSubByte(SubByte(b)) == b
  {
    var hi, lo := b >> 4, b & 0xf;
    assert hi == 12 || hi == 13 || hi == 14 || hi == 15;
    assert lo == 0 || lo == 1 || lo == 2 || lo == 3 || lo == 4 || lo == 5 || lo == 6 || lo == 7 || lo == 8 || lo == 9 || lo == 10 || lo == 11 || lo == 12 || lo == 13 || lo == 14 || lo == 15;
  }

  /** The S-box undoes the inverse S-box: together they are a bijection of the bytes. */
  lemma SubByteOfInvSubByte(b: Byte)
    ensures SubByte(InvSubByte(b)) == b
  {
    if b < 0x40 {
      SubByteRows0(b);
    } else if b < 0x80 {
      SubByteRows1(b);
    } else if b < 0xc0 {
      SubByteRows2(b);
    } else {
      SubByteRows3(b);
    }
  }

  /** Rows 0 to 3 of the inverse S-box table. */
  lemma SubByteRows0(b: Byte)
    requires b < 0x40
    ensures SubByte(InvSubByte(b)) == b
  {
    var hi, lo := b >> 4, b & 0xf;
    assert hi == 0 || hi == 1 || hi == 2 || hi == 3;
    assert lo == 0 || lo == 1 || lo == 2 || lo == 3 || lo == 4 || lo == 5 || lo == 6 || lo == 7 || lo == 8 || lo == 9 || lo == 10 || lo == 11 || lo == 12 || lo == 13 || lo == 14 || lo == 15;
  }

  /** Rows 4 to 7 of the inverse S-box table. */
  lemma SubByteRows1(b: Byte)
    requires 0x40 <= b < 0x80
    ensures SubByte(InvSubByte(b)) == b
  {
    var hi, lo := b >> 4, b & 0xf;
    assert hi == 4 || hi == 5 || hi == 6 || hi == 7;
    assert lo == 0 || lo == 1 || lo == 2 || lo == 3 || lo == 4 || lo == 5 || lo == 6 || lo == 7 || lo == 8 || lo == 9 || lo == 10 || lo == 11 || lo == 12 || lo == 13 || lo == 14 || lo == 15;
  }

  /** Rows 8 to b of the inverse S-box table. */
  lemma SubByteRows2(b: Byte)
    requires 0x80 <= b < 0xc0
    ensures SubByte(InvSubByte(b)) == b
  {
    var hi, lo := b >> 4, b & 0xf;
    assert hi == 8 || hi == 9 || hi == 10 || hi == 11;
    assert lo == 0 || lo == 1 || lo == 2 || lo == 3 || lo == 4 || lo == 5 || lo == 6 || lo == 7 || lo == 8 || lo == 9 || lo == 10 || lo == 11 || lo == 12 || lo == 13 || lo == 14 || lo == 15;
  }

  /** Rows c to f of the inverse S-box table. */
  lemma SubByteRows3(b: Byte)
    requires 0xc0 <= b
    ensures SubByte(InvSubByte(b)) == b
  {
    var hi, lo := b >> 4, b & 0xf;
    assert hi == 12 || hi == 13 || hi == 14 || hi == 15;
    assert lo == 0 || lo == 1 || lo == 2 || lo == 3 || lo == 4 || lo == 5 || lo == 6 || lo == 7 || lo == 8 || lo == 9 || lo == 10 || lo == 11 || lo == 12 || lo == 13 || lo == 14 || lo == 15;
  }

  /** LOOKUPS::RCON: Rcon[i + 1] = [x^i, 00, 00, 00], as words. */
  const RCON: seq<Word> := [
    0x0100_0000, 0x0200_0000, 0x0400_0000, 0x0800_0000, 0x1000_0000,
    0x2000_0000, 0x4000_0000, 0x8000_0000, 0x1b00_0000, 0x3600_0000
  ]

  /** x^i in GF(2^8): i doublings of 1. */
  function PowX(i: nat): Byte
  {
    if i == 0 then 1 else Gf.XTime(PowX(i - 1))
  }

  /** Each round constant is the power of x FIPS-197 prescribes, in the top byte of the word. */
  lemma RconIsPowerOfX(i: nat)
    requires i < |RCON|
    ensures RCON[i] == (PowX(i) as Word) << 24
  {
    assert PowX(1) == 0x02 && PowX(2) == 0x04 && PowX(3) == 0x08 && PowX(4) == 0x10;
    assert PowX(5) == 0x20 && PowX(6) == 0x40 && PowX(7) == 0x80 && PowX(8) == 0x1b && PowX(9) == 0x36;
  }

  /**
   * LOOKUPS::INV_MIX_COLUMNS_MATRIX, row by row: the entry of row r and
   * column c is at index c + 4 r, which is where invMixColumns reads it.
   */
  const INV_MIX_COLUMNS_MATRIX: seq<Byte> := [
    0x0e, 0x0b, 0x0d, 0x09,
    0x09, 0x0e, 0x0b, 0x0d,
    0x0d, 0x09, 0x0e, 0x0b,
    0x0b, 0x0d, 0x09, 0x0e
  ]
}
