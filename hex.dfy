/**
 * Hexadecimal text: the "%02X" rendering of bytes (two upper-case digits per
 * byte) and the digit values `std::stoi(.., 16)` accepts for a one-character
 * string.
 */
module Hex {
  import opened Bytes

  const HEX_DIGITS: string := "0123456789ABCDEF"

  /** The upper-case digit of a value below 16. */
  function HexDigit(v: nat): char
    requires v < 16
  {
    HEX_DIGITS[v]
  }

  /** The characters a one-character `std::stoi(s, nullptr, 16)` accepts. */
  predicate IsHexChar(c: char)
  {
    '0' <= c <= '9' || 'a' <= c <= 'f' || 'A' <= c <= 'F'
  }

  /** The value `std::stoi(s, nullptr, 16)` gives a one-character hex string. */
  function HexValue(c: char): (v: nat)
    requires IsHexChar(c)
    ensures v < 16
  {
    if '0' <= c <= '9' then c as nat - '0' as nat
    else if 'a' <= c <= 'f' then c as nat - 'a' as nat + 10
    else c as nat - 'A' as nat + 10
  }

  /** Every upper-case digit is accepted back, with its value. */
  lemma HexValueOfDigit(v: nat)
    requires v < 16
    ensures IsHexChar(HexDigit(v)) && HexValue(HexDigit(v)) == v
  {
    assert v == 0 || v == 1 || v == 2 || v == 3 || v == 4 || v == 5 || v == 6 || v == 7
      || v == 8 || v == 9 || v == 10 || v == 11 || v == 12 || v == 13 || v == 14 || v == 15;
  }

  /** "%02X": the two upper-case digits of a byte. */
  function ByteToHex(b: Byte): string
  {
    [HexDigit(b as nat / 16), HexDigit(b as nat % 16)]
  }

  /** The bytes written out one after the other, two digits each. */
  function HexString(bytes: seq<Byte>): (s: string)
    ensures |s| == 2 * |bytes|
  {
    if |bytes| == 0 then "" else HexString(bytes[..|bytes| - 1]) + ByteToHex(bytes[|bytes| - 1])
  }

  /** Byte k of `bytes` is rendered at positions 2k (high digit) and 2k+1 (low digit). */
  lemma {:induction false} HexStringAt(bytes: seq<Byte>, k: nat)
    requires k < |bytes|
    ensures HexString(bytes)[2 * k] == HexDigit(bytes[k] as nat / 16)
    ensures HexString(bytes)[2 * k + 1] == HexDigit(bytes[k] as nat % 16)
  {
    var n := |bytes|;
    if k < n - 1 {
      HexStringAt(bytes[..n - 1], k);
    }
  }

  /** A string `stringToBytes` decodes without throwing: even length, hex digits only. */
  predicate IsHexString(s: string)
  {
    |s| % 2 == 0 && forall j | 0 <= j < |s| :: IsHexChar(s[j])
  }

  /** The bytes `stringToBytes` makes of a string, or None where it throws. */
  function HexDecode(s: string): (r: Option<seq<Byte>>)
    ensures r.Some? <==> IsHexString(s)
    ensures r.Some? ==> |r.value| == |s| / 2
  {
    if IsHexString(s) then
      Some(seq(|s| / 2, k requires 0 <= k < |s| / 2 => ByteOf(16 * HexValue(s[2 * k]) + HexValue(s[2 * k + 1]))))
    else
      None
  }

  lemma NatOfByte(n: nat, b: Byte)
    requires n == b as nat
    ensures ByteOf(n) == b
  {
  }

  /** The two digits of byte k read back as that byte. */
  lemma {:induction false} HexStringPair(bytes: seq<Byte>, k: nat)
    requires k < |bytes|
    ensures IsHexChar(HexString(bytes)[2 * k]) && IsHexChar(HexString(bytes)[2 * k + 1])
    ensures ByteOf(16 * HexValue(HexString(bytes)[2 * k]) + HexValue(HexString(bytes)[2 * k + 1])) == bytes[k]
  {
    var s, b := HexString(bytes), bytes[k] as nat;
    HexStringAt(bytes, k);
    HexValueOfDigit(b / 16);
    HexValueOfDigit(b % 16);
    var hi, lo := HexValue(s[2 * k]), HexValue(s[2 * k + 1]);
    assert hi == b / 16 && lo == b % 16;
    NatOfByte(16 * hi + lo, bytes[k]);
  }

  /** The hex rendering of any bytes is a string `stringToBytes` accepts. */
  lemma HexStringIsHex(bytes: seq<Byte>)
    ensures IsHexString(HexString(bytes))
  {
    var s := HexString(bytes);
    forall j | 0 <= j < |s|
      ensures IsHexChar(s[j])
    {
      var k := j / 2;
      HexStringPair(bytes, k);
      assert j == 2 * k || j == 2 * k + 1;
    }
  }

  /** Byte k of a decoded string comes from characters 2k and 2k+1. */
  lemma DecodedAt(s: string, k: nat)
    requires IsHexString(s) && k < |s| / 2
    ensures HexDecode(s).value[k] == ByteOf(16 * HexValue(s[2 * k]) + HexValue(s[2 * k + 1]))
  {
  }

  /** Decoding the hex rendering of bytes gives the bytes back. */
  lemma DecodeHexString(bytes: seq<Byte>)
    ensures HexDecode(HexString(bytes)) == Some(bytes)
  {
    var s := HexString(bytes);
    HexStringIsHex(bytes);
    var r := HexDecode(s);
    forall k | 0 <= k < |bytes|
      ensures r.value[k] == bytes[k]
    {
      HexStringPair(bytes, k);
      DecodedAt(s, k);
    }
    assert r.value == bytes;
  }

  /** Every character of a hex rendering is an upper-case digit. */
  lemma HexStringIsUpperCase(bytes: seq<Byte>, j: nat)
    requires j < 2 * |bytes|
    ensures HexString(bytes)[j] in HEX_DIGITS
  {
    HexStringAt(bytes, j / 2);
    assert j == 2 * (j / 2) || j == 2 * (j / 2) + 1;
  }
}
