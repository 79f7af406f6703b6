/**
 * The conversions of src/types.cpp: a 128-bit unsigned integer (boost's
 * uint128_t, the qword_t of include/types.hpp) to and from big-endian
 * bytes, and hexadecimal text to bytes. The hex renderings of the same file
 * are the code of libaes/types_helper.cpp and are modelled there
 * (TypesHelper.BytesToHexString, TypesHelper.WordToHexString).
 */
module Types {
  import opened Bytes
  import Hex

  /** 2^128: a qword_t holds the integers below it, and its shifts drop what passes it. */
  const QWORD_MODULUS: nat := 0x1_0000_0000_0000_0000_0000_0000_0000_0000

  lemma Pow256Sixteen()
    ensures Pow256(16) == QWORD_MODULUS
  {
    assert Pow256(4) == 0x1_0000_0000;
    assert Pow256(8) == 0x1_0000_0000 * Pow256(4);
    assert Pow256(12) == 0x1_0000_0000 * Pow256(8);
    assert Pow256(16) == 0x1_0000_0000 * Pow256(12);
  }

  // ---------------------------------------------------------------------------
  // qword_t <-> bytes
  // ---------------------------------------------------------------------------

  /** qwordToByteArray: byte i of the buffer is (input >> 8 (15 - i)) & 0xff, most significant byte first. */
  method QwordToByteArray(input: nat, buffer: array<Byte>)
    requires input < QWORD_MODULUS && 16 <= buffer.Length
    modifies buffer
    ensures buffer[..16] == ToBigEndian(input, 16)
    ensures buffer[16..] == old(buffer[16..])
  {
    ghost var e := ToBigEndian(input, 16);
    var i := 0;
    while i < 16
      invariant 0 <= i <= 16
      invariant forall j | 0 <= j < i :: buffer[j] == e[j]
      invariant buffer[16..] == old(buffer[16..])
    {
      buffer[i] := ByteOf(input / Pow256(15 - i) % 256);
      i := i + 1;
    }
    assert buffer[..16] == e;
  }

  /** Shifting a residue left by one byte and reducing is shifting before reducing. */
  lemma ShiftInByte(a: nat, b: nat)
    ensures ((a % QWORD_MODULUS) * 256 + b) % QWORD_MODULUS == (a * 256 + b) % QWORD_MODULUS
  {
    var m := QWORD_MODULUS;
    var q, r := a / m, a % m;
    var x := r * 256 + b;
    assert a * 256 + b == (q * 256) * m + x;
    DivModUnique(a * 256 + b, m, q * 256 + x / m, x % m);
  }

  /**
   * byteArrayToQword(buffer, size): the first size bytes read big-endian,
   * shifted in one byte at a time through a 128-bit integer, so that only
   * the last sixteen count. A size of zero or less gives zero.
   */
  method ByteArrayToQword(buffer: array<Byte>, size: int) returns (n: nat)
    requires size <= buffer.Length
    ensures size <= 0 ==> n == 0
    ensures 0 <= size ==> n == BigEndian(buffer[..size]) % QWORD_MODULUS
    ensures 0 <= size <= 16 ==> n == BigEndian(buffer[..size])
  {
    n := 0;
    var i := 0;
    while i < size
      invariant 0 <= i && (i == 0 || i <= size)
      invariant n == BigEndian(buffer[..i]) % QWORD_MODULUS
    {
      ghost var before := buffer[..i];
      assert buffer[..i + 1][..i] == before;
      ShiftInByte(BigEndian(before), buffer[i] as nat);
      n := (n * 256 + buffer[i] as nat) % QWORD_MODULUS;
      i := i + 1;
    }
    if 0 <= size <= 16 {
      BigEndianBound(buffer[..size]);
      Pow256Sixteen();
      assert Pow256(size) <= Pow256(16) by {
        Pow256Grows(size, 16);
      }
      DivModUnique(BigEndian(buffer[..size]), QWORD_MODULUS, 0, BigEndian(buffer[..size]));
    }
  }

  lemma {:induction false} Pow256Grows(a: nat, b: nat)
    requires a <= b
    ensures Pow256(a) <= Pow256(b)
    decreases b - a
  {
    if a < b {
      Pow256Grows(a + 1, b);
    }
  }

  /**
   * The round trip of the two conversions: byteArrayToQword of the sixteen
   * bytes qwordToByteArray writes for x is x, and the bytes written for the
   * value of any sixteen bytes are those bytes.
   */
  lemma QwordRoundTrip(x: nat, s: seq<Byte>)
    requires x < QWORD_MODULUS && |s| == 16
    ensures BigEndian(ToBigEndian(x, 16)) % QWORD_MODULUS == x
    ensures ToBigEndian(BigEndian(s) % QWORD_MODULUS, 16) == s
  {
    Pow256Sixteen();
    BigEndianOfToBigEndian(x, 16);
    DivModUnique(x, QWORD_MODULUS, 0, x);
    BigEndianOfToBigEndian(x, 16);
    BigEndianBound(s);
    DivModUnique(BigEndian(s), QWORD_MODULUS, 0, BigEndian(s));
    ToBigEndianOfBigEndian(s);
  }

  // ---------------------------------------------------------------------------
  // Hex text -> bytes
  // ---------------------------------------------------------------------------

  /**
   * stringToBytes: each pair of characters, read by std::stoi as one hex
   * digit each, becomes one byte of a new buffer of |str| / 2 bytes. ok is
   * false where std::stoi throws: on a character that is not a hex digit,
   * or on the NUL that std::string yields one past the end of a string of
   * odd length.
   */
  method StringToBytes(str: string) returns (ok: bool, buffer: array<Byte>)
    ensures buffer.Length == |str| / 2
    ensures ok <==> Hex.IsHexString(str)
    ensures ok ==> Hex.HexDecode(str) == Some(buffer[..])
  {
    buffer := new Byte[|str| / 2];
    var i := 0;
    while i < |str|
      invariant 0 <= i <= |str| && i % 2 == 0
      invariant forall j | 0 <= j < i :: Hex.IsHexChar(str[j])
      invariant forall k | 0 <= k < i / 2 :: buffer[k] == ByteOf(16 * Hex.HexValue(str[2 * k]) + Hex.HexValue(str[2 * k + 1]))
    {
      var next := if i + 1 < |str| then str[i + 1] else 0 as char;
      if !Hex.IsHexChar(str[i]) || !Hex.IsHexChar(next) {
        assert !Hex.IsHexChar(str[i]) || i + 1 == |str| || !Hex.IsHexChar(str[i + 1]);
        return false, buffer;
      }
      buffer[i / 2] := ByteOf(16 * Hex.HexValue(str[i]) + Hex.HexValue(next));
      assert (i + 2) / 2 == i / 2 + 1 && 2 * (i / 2) == i;
      i := i + 2;
    }
    assert Hex.IsHexString(str);
    assert buffer[..] == Hex.HexDecode(str).value;
    ok := true;
  }
}
