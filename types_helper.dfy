/**
 * The helpers of libaes/types_helper.cpp and of the inline functions in
 * include/types.hpp: bit/byte counting on C `int`s, packing four bytes
 * into a big-endian word, and the in-place operations on a 16-byte
 * `qword_t` (zero, copy, xor, one-bit shifts, big-endian increment).
 */
module TypesHelper {
  import opened Bytes
  import Hex
  import Mem

  // ---------------------------------------------------------------------------
  // C `int` arithmetic
  // ---------------------------------------------------------------------------

  const INT_MIN: int := -0x8000_0000
  const INT_MAX: int := 0x7fff_ffff

  predicate IsInt(x: int)
  {
    INT_MIN <= x <= INT_MAX
  }

  /** C++ `a / b` for b > 0: the quotient truncated toward zero. */
  function CDiv(a: int, b: int): int
    requires b > 0
  {
    if a >= 0 then a / b else -((-a) / b)
  }

  /** C++ `a % b` for b > 0: the remainder takes the sign of a. */
  function CRem(a: int, b: int): int
    requires b > 0
  {
    a - b * CDiv(a, b)
  }

  /** bitInByte: the number of bytes `bits` bits occupy, rounded up. */
  function BitInByte(bits: int): (bytes: int)
    requires IsInt(bits)
    ensures bits >= 0 ==> bytes >= 0 && 8 * (bytes - 1) < bits <= 8 * bytes
  {
    CDiv(bits, 8) + (if CRem(bits, 8) == 0 then 0 else 1)
  }

  /** byteInBit: the number of bits in `bytes` bytes (the product must fit an int). */
  function ByteInBit(bytes: int): (bits: int)
    requires IsInt(bytes * 8)
    ensures bytes >= 0 ==> bits >= 0 && IsInt(bits) && BitInByte(bits) == bytes
    ensures bits % 8 == 0
  {
    bytes * 8
  }

  /** bitInWord: the number of 32-bit words `bits` bits occupy, rounded up. */
  function BitInWord(bits: int): (words: int)
    requires IsInt(bits)
    ensures bits >= 0 ==> words >= 0 && 32 * (words - 1) < bits <= 32 * words
  {
    CDiv(bits, 32) + (if CRem(bits, 32) == 0 then 0 else 1)
  }

  // ---------------------------------------------------------------------------
  // Words
  // ---------------------------------------------------------------------------

  /** bytesToWord: b1 is the most significant byte. */
  function BytesToWord(b1: Byte, b2: Byte, b3: Byte, b4: Byte): Word
  {
    (b1 as Word << 24) | (b2 as Word << 16) | (b3 as Word << 8) | b4 as Word
  }

  /** The four bytes of a word, most significant first (the layout copyUIntToBuf writes). */
  function WordToBytes(w: Word): (b: seq<Byte>)
    ensures |b| == 4
  {
    [(w >> 24) as Byte, ((w >> 16) & 0xff) as Byte, ((w >> 8) & 0xff) as Byte, (w & 0xff) as Byte]
  }

  /** The packed word is worth b1 b2 b3 b4 read as a big-endian number. */
  lemma PackedValue(b1: Byte, b2: Byte, b3: Byte, b4: Byte)
    ensures ((b1 as Word << 24) | (b2 as Word << 16) | (b3 as Word << 8) | b4 as Word) as int
         == b1 as int * 0x100_0000 + b2 as int * 0x1_0000 + b3 as int * 0x100 + b4 as int
  {
  }

  lemma PackWordBytes(w: Word)
    ensures var b := WordToBytes(w); BytesToWord(b[0], b[1], b[2], b[3]) == w
  {
  }

  /** Packing four bytes and splitting the word gives the bytes back. */
  lemma SplitBytesToWord(b1: Byte, b2: Byte, b3: Byte, b4: Byte)
    ensures WordToBytes(BytesToWord(b1, b2, b3, b4)) == [b1, b2, b3, b4]
  {
  }

  lemma BigEndianOfFour(b: seq<Byte>)
    requires |b| == 4
    ensures BigEndian(b) == b[0] as nat * 0x100_0000 + b[1] as nat * 0x1_0000 + b[2] as nat * 0x100 + b[3] as nat
  {
    var v0, v1, v2, v3 := b[0] as nat, b[1] as nat, b[2] as nat, b[3] as nat;
    var p1, p2, p3 := b[..1], b[..2], b[..3];
    assert p2[..1] == p1 && p3[..2] == p2 && b[..3] == p3;
    assert p1[0] == b[0] && p2[1] == b[1] && p3[2] == b[2];
    var e1 := BigEndian(p1);
    assert e1 == v0 by {
      assert p1[..0] == [];
      assert BigEndian(p1) == BigEndian(p1[..0]) * 256 + p1[0] as nat;
    }
    var e2 := BigEndian(p2);
    assert e2 == e1 * 256 + v1;
    var e3 := BigEndian(p3);
    assert e3 == e2 * 256 + v2;
    assert BigEndian(b) == e3 * 256 + v3;
  }

  /** The four bytes of w, read big-endian, are worth w. */
  lemma BigEndianOfWord(w: Word)
    ensures BigEndian(WordToBytes(w)) == w as nat
  {
    var b := WordToBytes(w);
    PackWordBytes(w);
    BigEndianOfFour(b);
    PackedValue(b[0], b[1], b[2], b[3]);
  }

  // ---------------------------------------------------------------------------
  // Specifications of the qword operations
  // ---------------------------------------------------------------------------

  /** One-bit right shift of the big-endian string: bit 0 of byte i-1 becomes bit 7 of byte i. */
  function ShiftRight(s: seq<Byte>): (r: seq<Byte>)
    ensures |r| == |s|
  {
    seq(|s|, i requires 0 <= i < |s| => ShiftRightAt(s, i))
  }

  function ShiftRightAt(s: seq<Byte>, i: nat): Byte
    requires i < |s|
  {
    (s[i] >> 1) | (if i == 0 then 0 else (s[i - 1] & 1) << 7)
  }

  /** One-bit left shift of the big-endian string: bit 7 of byte i+1 becomes bit 0 of byte i. */
  function ShiftLeft(s: seq<Byte>): (r: seq<Byte>)
    ensures |r| == |s|
  {
    seq(|s|, i requires 0 <= i < |s| => ShiftLeftAt(s, i))
  }

  function ShiftLeftAt(s: seq<Byte>, i: nat): Byte
    requires i < |s|
  {
    (s[i] << 1) | (if i + 1 < |s| then (s[i + 1] & 0x80) >> 7 else 0)
  }

  /** The block whose last n bytes, read big-endian, are one more modulo 256^n. */
  function IncSuffix(b: Block, n: nat): (r: Block)
    requires 1 <= n <= 16
  {
    b[..16 - n] + ToBigEndian(BigEndian(b[16 - n..]) + 1, n)
  }

  // ---------------------------------------------------------------------------
  // Bit-level facts
  // ---------------------------------------------------------------------------

  lemma HalfByte(x: Byte)
    ensures (x >> 1) as nat == x as nat / 2
  {
  }

  lemma LowBitToTop(y: Byte)
    ensures ((y & 1) << 7) as nat == 128 * (y as nat % 2)
  {
  }

  lemma OrIsAdd(x: Byte, y: Byte)
    ensures (x >> 1) | ((y & 1) << 7) == (x >> 1) + ((y & 1) << 7)
  {
  }

  lemma AddNoCarry(a: Byte, b: Byte)
    requires a < 128 && b & 127 == 0
    ensures (a + b) as nat == a as nat + b as nat
  {
  }

  /** The byte ShiftRight puts at position i, as a number. */
  lemma ShiftRightByte(x: Byte, y: Byte)
    ensures ((x >> 1) | ((y & 1) << 7)) as nat == x as nat / 2 + 128 * (y as nat % 2)
  {
    HalfByte(x);
    LowBitToTop(y);
    OrIsAdd(x, y);
    AddNoCarry(x >> 1, (y & 1) << 7);
  }

  lemma TopBit(y: Byte)
    ensures ((y & 0x80) >> 7) as nat == y as nat / 128
  {
  }

  /** The byte ShiftLeft puts at position i, as a number. */
  lemma ShiftLeftByte(x: Byte, c: Byte)
    requires c <= 1
    ensures ((x << 1) | c) as nat == 2 * x as nat - 256 * (x as nat / 128) + c as nat
  {
    DoubleByte(x);
    OrLowBit(x << 1, c);
  }

  lemma DoubleByte(x: Byte)
    ensures (x << 1) as nat == 2 * x as nat - 256 * (x as nat / 128)
    ensures (x << 1) & 1 == 0
  {
  }

  lemma OrLowBit(y: Byte, c: Byte)
    requires c <= 1 && y & 1 == 0
    ensures (y | c) as nat == y as nat + c as nat
  {
  }

  // ---------------------------------------------------------------------------
  // What the shifts do to the 128-bit number
  // ---------------------------------------------------------------------------

  /** ShiftRight halves the number; the bit shifted out is the low bit of the last byte. */
  lemma {:induction false} ShiftRightExact(s: seq<Byte>)
    requires |s| >= 1
    ensures 2 * BigEndian(ShiftRight(s)) + s[|s| - 1] as nat % 2 == BigEndian(s)
  {
    var n := |s|;
    var r := ShiftRight(s);
    if n == 1 {
      HalfByte(s[0]);
      assert r[..0] == [];
      assert r[0] == s[0] >> 1;
    } else {
      var s' := s[..n - 1];
      assert r[..n - 1] == ShiftRight(s');
      ShiftRightExact(s');
      ShiftRightByte(s[n - 1], s[n - 2]);
      assert BigEndian(s) == BigEndian(s') * 256 + s[n - 1] as nat;
      assert BigEndian(r) == BigEndian(ShiftRight(s')) * 256 + r[n - 1] as nat;
      HalveStep(BigEndian(s), BigEndian(s'), s[n - 1] as nat, s[n - 2] as nat % 2,
                BigEndian(r), BigEndian(ShiftRight(s')), r[n - 1] as nat);
    }
  }

  /** The arithmetic of ShiftRightExact's inductive step. */
  lemma HalveStep(v: int, v': int, last: int, carry: int, h: int, h': int, top: int)
    requires v == v' * 256 + last && h == h' * 256 + top
    requires 2 * h' + carry == v' && top == last / 2 + 128 * carry
    ensures 2 * h + last % 2 == v
  {
  }

  /** qwordShiftRight maps the big-endian value v to v / 2. */
  lemma ShiftRightValue(s: seq<Byte>)
    ensures BigEndian(ShiftRight(s)) == BigEndian(s) / 2
  {
    if |s| >= 1 {
      ShiftRightExact(s);
      DivModUnique(BigEndian(s), 2, BigEndian(ShiftRight(s)), s[|s| - 1] as nat % 2);
    }
  }

  lemma Ring(p: int, sl: int, x: int, c: int, rest: int, restR: int, rc: int)
    requires sl == 2 * x - 256 * c + rc
    requires rest + rc * p == 2 * restR
    ensures (sl * p + rest) + c * (256 * p) == 2 * (x * p + restR)
  {
  }

  lemma ShiftLeftHead(s: seq<Byte>)
    requires |s| >= 2
    ensures ShiftLeft(s)[0] as nat == 2 * s[0] as nat - 256 * (s[0] as nat / 128) + s[1] as nat / 128
  {
    TopBit(s[1]);
    ShiftLeftByte(s[0], (s[1] & 0x80) >> 7);
    assert ShiftLeft(s)[0] == (s[0] << 1) | ((s[1] & 0x80) >> 7);
  }

  lemma ShiftLeftOne(s: seq<Byte>)
    requires |s| == 1
    ensures BigEndian(ShiftLeft(s)) + (s[0] as nat / 128) * 256 == 2 * BigEndian(s)
  {
    var l := ShiftLeft(s);
    ShiftLeftByte(s[0], 0);
    assert l[..0] == [] && s[..0] == [];
    assert l[0] == (s[0] << 1) | 0;
  }

  /** The inductive step of ShiftLeftExact, for any l whose head and tail behave as ShiftLeft's. */
  lemma DoubleFront(s: seq<Byte>, l: seq<Byte>)
    requires |s| >= 2 && |l| == |s|
    requires l[0] as nat == 2 * s[0] as nat - 256 * (s[0] as nat / 128) + s[1] as nat / 128
    requires BigEndian(l[1..]) + (s[1] as nat / 128) * Pow256(|s| - 1) == 2 * BigEndian(s[1..])
    ensures BigEndian(l) + (s[0] as nat / 128) * Pow256(|s|) == 2 * BigEndian(s)
  {
    var n := |s|;
    BigEndianFront(s);
    BigEndianFront(l);
    Ring(Pow256(n - 1), l[0] as nat, s[0] as nat, s[0] as nat / 128,
         BigEndian(l[1..]), BigEndian(s[1..]), s[1] as nat / 128);
  }

  /** ShiftLeft doubles the number; the bit shifted out is the top bit of the first byte. */
  lemma {:induction false} ShiftLeftExact(s: seq<Byte>)
    requires |s| >= 1
    ensures BigEndian(ShiftLeft(s)) + (s[0] as nat / 128) * Pow256(|s|) == 2 * BigEndian(s)
  {
    if |s| == 1 {
      ShiftLeftOne(s);
    } else {
      ShiftLeftExact(s[1..]);
      assert ShiftLeft(s)[1..] == ShiftLeft(s[1..]);
      ShiftLeftHead(s);
      DoubleFront(s, ShiftLeft(s));
    }
  }

  /** qwordShiftLeft maps the big-endian value v to 2 v modulo 2^(8 |s|). */
  lemma ShiftLeftValue(s: seq<Byte>)
    ensures BigEndian(ShiftLeft(s)) == (2 * BigEndian(s)) % Pow256(|s|)
  {
    if |s| >= 1 {
      ShiftLeftExact(s);
      BigEndianBound(ShiftLeft(s));
      DivModUnique(2 * BigEndian(s), Pow256(|s|), s[0] as nat / 128, BigEndian(ShiftLeft(s)));
    } else {
      DivModUnique(0, 1, 0, 0);
    }
  }

  // ---------------------------------------------------------------------------
  // The qword operations, in place
  // ---------------------------------------------------------------------------

  /** copyUIntToBuf(i, buffer + offset): writes the four bytes of i, most significant first. */
  method CopyUIntToBuf(i: Word, buffer: array<Byte>, offset: nat)
    requires offset + 4 <= buffer.Length
    modifies buffer
    ensures buffer[..] == old(buffer[..offset]) + WordToBytes(i) + old(buffer[offset + 4..])
    ensures BytesToWord(buffer[offset], buffer[offset + 1], buffer[offset + 2], buffer[offset + 3]) == i
  {
    buffer[offset + 3] := (i & 0xff) as Byte;
    buffer[offset + 2] := ((i >> 8) & 0xff) as Byte;
    buffer[offset + 1] := ((i >> 16) & 0xff) as Byte;
    buffer[offset + 0] := ((i >> 24) & 0xff) as Byte;
    assert buffer[..] == old(buffer[..offset]) + WordToBytes(i) + old(buffer[offset + 4..]);
    PackWordBytes(i);
  }

  /** qwordZero */
  method QwordZero(q: array<Byte>)
    requires q.Length == 16
    modifies q
    ensures q[..] == ZERO_BLOCK
  {
    Mem.Fill(q, 0, 0, 16);
    assert q[..] == ZERO_BLOCK;
  }

  /**
   * qwordCopy, all four overloads: 16 bytes from `from + fromOffset` to
   * `to + toOffset` (a `qword_t` is the case offset 0, length 16).
   */
  method QwordCopy(from: array<Byte>, fromOffset: nat, to: array<Byte>, toOffset: nat)
    requires from != to
    requires fromOffset + 16 <= from.Length && toOffset + 16 <= to.Length
    modifies to
    ensures to[..] == old(to[..toOffset]) + from[fromOffset..fromOffset + 16] + old(to[toOffset + 16..])
    ensures fromOffset == 0 && toOffset == 0 && from.Length == 16 && to.Length == 16 ==> to[..] == from[..]
  {
    Mem.Copy(to, toOffset, from, fromOffset, 16);
    if fromOffset == 0 && toOffset == 0 && from.Length == 16 && to.Length == 16 {
      assert to[..] == from[0..16];
    }
  }

  /** qwordCopy(const byte_t* from, qword_t& to) from a buffer the caller only reads. */
  method QwordLoad(from: seq<Byte>, fromOffset: nat, to: array<Byte>)
    requires to.Length == 16 && fromOffset + 16 <= |from|
    modifies to
    ensures to[..] == from[fromOffset..fromOffset + 16]
  {
    Mem.CopyFrom(to, 0, from, fromOffset, 16);
  }

  /** qwordXor(q1, q2): q2 ^= q1, byte by byte; q1 may be q2 itself. */
  method QwordXor(q1: array<Byte>, q2: array<Byte>)
    requires q1.Length == 16 && q2.Length == 16
    modifies q2
    ensures q2[..] == Xor(old(q2[..]), old(q1[..]))
  {
    var i := 0;
    while i < 16
      invariant 0 <= i <= 16
      invariant forall j | i <= j < 16 :: q1[j] == old(q1[j]) && q2[j] == old(q2[j])
      invariant forall j | 0 <= j < i :: q2[j] == old(q2[j]) ^ old(q1[j])
    {
      q2[i] := q2[i] ^ q1[i];
      i := i + 1;
    }
  }

  /** qwordShiftRight */
  method QwordShiftRight(q: array<Byte>)
    requires q.Length == 16
    modifies q
    ensures q[..] == ShiftRight(old(q[..]))
  {
    ghost var q0 := q[..];
    var carry: Byte := 0;
    var i := 0;
    while i < 16
      invariant 0 <= i <= 16
      invariant q[..i] == ShiftRight(q0)[..i] && q[i..] == q0[i..]
      invariant carry == if i == 0 then 0 else (q0[i - 1] & 1) << 7
    {
      var tmp := q[i];
      q[i] := (tmp >> 1) | carry;
      carry := (tmp & 1) << 7;
      i := i + 1;
    }
  }

  /** qwordShiftLeft */
  method QwordShiftLeft(q: array<Byte>)
    requires q.Length == 16
    modifies q
    ensures q[..] == ShiftLeft(old(q[..]))
  {
    ghost var q0 := q[..];
    var carry: Byte := 0;
    var i := 15;
    while i >= 0
      invariant -1 <= i <= 15
      invariant q[i + 1..] == ShiftLeft(q0)[i + 1..] && q[..i + 1] == q0[..i + 1]
      invariant carry == if i == 15 then 0 else (q0[i + 1] & 0x80) >> 7
    {
      var tmp := q[i];
      q[i] := (tmp << 1) | carry;
      carry := (tmp & 0x80) >> 7;
      i := i - 1;
    }
  }

  lemma IncStep(p: int, qi: int, carry: int, c2: int, qOld: int, rest: int, restOld: int)
    requires qi + 256 * c2 == carry + qOld
    requires rest + carry * p == restOld + 1
    ensures (qi * p + rest) + c2 * (256 * p) == (qOld * p + restOld) + 1
  {
  }

  /** One step of the carry loop of qwordInc keeps "suffix + carry * 256^k = old suffix + 1". */
  lemma IncCarry(q: seq<Byte>, q0: seq<Byte>, i: nat, carryIn: nat, carryOut: nat)
    requires |q| == |q0| == 16 && i < 16
    requires q[i] as nat + 256 * carryOut == carryIn + q0[i] as nat
    requires BigEndian(q[i + 1..]) + carryIn * Pow256(15 - i) == BigEndian(q0[i + 1..]) + 1
    ensures BigEndian(q[i..]) + carryOut * Pow256(16 - i) == BigEndian(q0[i..]) + 1
  {
    assert q[i..][1..] == q[i + 1..];
    assert q0[i..][1..] == q0[i + 1..];
    BigEndianFront(q[i..]);
    BigEndianFront(q0[i..]);
    IncStep(Pow256(15 - i), q[i] as nat, carryIn, carryOut, q0[i] as nat, BigEndian(q[i + 1..]), BigEndian(q0[i + 1..]));
  }

  /**
   * qwordInc(q, nBytes): adds one to the big-endian number formed by the last
   * nBytes bytes, modulo 256^nBytes, propagating the carry from byte 15
   * towards byte 0; the other bytes are left alone.
   */
  method QwordInc(q: array<Byte>, nBytes: int)
    requires q.Length == 16 && 1 <= nBytes <= 16
    modifies q
    ensures q[..] == IncSuffix(old(q[..]), nBytes)
  {
    ghost var q0 := q[..];
    var n := nBytes;
    var i := 15;
    var carry: nat := 1;
    while true
      invariant 1 <= n <= nBytes && i == 15 - (nBytes - n)
      invariant carry <= 1
      invariant q[..i + 1] == q0[..i + 1]
      invariant BigEndian(q[i + 1..]) + carry * Pow256(15 - i) == BigEndian(q0[i + 1..]) + 1
      decreases n
    {
      n := n - 1;
      ghost var carryIn, before := carry, q[..];
      assert before[i] == q0[i] by { assert before[..i + 1][i] == q0[..i + 1][i]; }
      carry := carry + q[i] as nat;
      q[i] := Bytes.ByteOf(carry % 256);
      carry := carry / 256;
      assert q[..][i + 1..] == before[i + 1..];
      IncCarry(q[..], q0, i, carryIn, carry);
      i := i - 1;
      if n == 0 {
        break;
      }
    }
    assert i + 1 == 16 - nBytes && 15 - i == nBytes;
    IncDone(q[..], q0, nBytes, carry);
  }

  /** When the carry loop of qwordInc stops, the suffix holds old suffix + 1 modulo 256^m. */
  lemma IncDone(q: seq<Byte>, q0: Block, m: nat, carry: nat)
    requires |q| == 16 && 1 <= m <= 16 && carry <= 1
    requires q[..16 - m] == q0[..16 - m]
    requires BigEndian(q[16 - m..]) + carry * Pow256(m) == BigEndian(q0[16 - m..]) + 1
    ensures q == IncSuffix(q0, m)
  {
    var suffix := q[16 - m..];
    var v := BigEndian(q0[16 - m..]) + 1;
    BigEndianBound(suffix);
    DivModUnique(v, Pow256(m), carry, BigEndian(suffix));
    BigEndianOfToBigEndian(v, m);
    BigEndianInjective(suffix, ToBigEndian(v, m));
    assert q == q[..16 - m] + suffix;
  }

  // ---------------------------------------------------------------------------
  // Hex rendering
  // ---------------------------------------------------------------------------

  /**
   * bytesToHexString(bytes, byteSize): two upper-case digits per byte, in
   * order; the loop does not run for a size of zero or below.
   */
  method BytesToHexString(bytes: array<Byte>, byteSize: int) returns (s: string)
    requires byteSize <= bytes.Length
    ensures byteSize <= 0 ==> s == ""
    ensures 0 <= byteSize ==> s == Hex.HexString(bytes[..byteSize]) && |s| == 2 * byteSize
    ensures 0 <= byteSize ==> Hex.HexDecode(s) == Some(bytes[..byteSize])
  {
    s := "";
    var i := 0;
    while i < byteSize
      invariant 0 <= i && (i <= byteSize || i == 0)
      invariant s == Hex.HexString(bytes[..i])
    {
      assert bytes[..i + 1][..i] == bytes[..i];
      s := s + Hex.ByteToHex(bytes[i]);
      i := i + 1;
    }
    if 0 <= byteSize {
      assert bytes[..byteSize] == bytes[..i];
      Hex.DecodeHexString(bytes[..byteSize]);
    }
  }

  /** wordToHexString: "%08X", the eight upper-case, zero-padded digits of w. */
  function WordToHexString(w: Word): (s: string)
    ensures |s| == 8
    ensures Hex.HexDecode(s) == Some(WordToBytes(w))
    ensures forall j | 0 <= j < 8 :: s[j] in Hex.HEX_DIGITS
  {
    Hex.DecodeHexString(WordToBytes(w));
    forall j | 0 <= j < 8
      ensures Hex.HexString(WordToBytes(w))[j] in Hex.HEX_DIGITS
    {
      Hex.HexStringIsUpperCase(WordToBytes(w), j);
    }
    Hex.HexString(WordToBytes(w))
  }
}
