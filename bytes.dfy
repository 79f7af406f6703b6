/**
 * Bytes, 32-bit words and 16-byte blocks, and the big-endian reading of a
 * byte string as a number (byte 0 most significant), which is how every
 * multi-byte quantity of the library is laid out.
 */
module Bytes {

  datatype Option<T> = None | Some(value: T)

  type Byte = bv8
  type Word = bv32

  /** `unsigned int`: sizes and offsets of the library. */
  type U32 = x: int | 0 <= x < 0x1_0000_0000

  /** AES::BLOCKSIZE: 16 bytes = 128 bits. */
  const BLOCK_SIZE: nat := 16

  /** A `qword_t`: the 16 bytes b[0..16). */
  type Block = s: seq<Byte> | |s| == 16
    witness [0, 0, 0, 0, 0, 0, 0, 0, 0, 0, 0, 0, 0, 0, 0, 0]

  /** QWORD_STATIC_ZERO */
  const ZERO_BLOCK: Block := [0, 0, 0, 0, 0, 0, 0, 0, 0, 0, 0, 0, 0, 0, 0, 0]

  /** Byte-wise exclusive or of two strings of the same length. */
  function Xor(a: seq<Byte>, b: seq<Byte>): (r: seq<Byte>)
    requires |a| == |b|
    ensures |r| == |a|
  {
    seq(|a|, i requires 0 <= i < |a| => a[i] ^ b[i])
  }

  /** Xor-ing the same string twice gives back the original one. */
  lemma XorInvolution(a: seq<Byte>, b: seq<Byte>)
    requires |a| == |b|
    ensures Xor(Xor(a, b), b) == a
  {
    forall i | 0 <= i < |a|
      ensures Xor(Xor(a, b), b)[i] == a[i]
    {
      assert Xor(a, b)[i] == a[i] ^ b[i];
    }
  }

  /** Xor is commutative. */
  lemma XorCommutes(a: seq<Byte>, b: seq<Byte>)
    requires |a| == |b|
    ensures Xor(a, b) == Xor(b, a)
  {
  }

  /** 256^n */
  function Pow256(n: nat): (p: nat)
    ensures p >= 1
  {
    if n == 0 then 1 else 256 * Pow256(n - 1)
  }

  /** The number denoted by `s`, most significant byte first. */
  function BigEndian(s: seq<Byte>): nat
  {
    if |s| == 0 then 0 else BigEndian(s[..|s| - 1]) * 256 + s[|s| - 1] as nat
  }

  /** The byte whose value is k, k < 256: `(byte_t)k`, built by counting up. */
  function ByteOf(k: nat): (b: Byte)
    requires k < 256
    ensures b as int == k
  {
    if k == 0 then 0 else ByteOf(k - 1) + 1
  }

  /**
   * The n-byte big-endian encoding of v, reduced modulo 256^n:
   * byte i is (v >> 8(n-1-i)) & 0xff.
   */
  function ToBigEndian(v: nat, n: nat): (s: seq<Byte>)
    ensures |s| == n
  {
    seq(n, i requires 0 <= i < n => ByteOf((v / Pow256(n - 1 - i)) % 256))
  }

  // ---------------------------------------------------------------------------
  // Arithmetic facts used below
  // ---------------------------------------------------------------------------

  /** Quotient and remainder are unique. */
  lemma DivModUnique(v: int, d: int, q: int, r: int)
    requires d > 0 && 0 <= r < d && v == q * d + r
    ensures v / d == q && v % d == r
  {
    var q', r' := v / d, v % d;
    assert v == q' * d + r';
    assert (q - q') * d == r' - r;
    if q > q' {
      MulAtLeast(q - q', d);
    } else if q < q' {
      MulAtLeast(q' - q, d);
    }
  }

  lemma MulAtLeast(k: int, d: int)
    requires k >= 1 && d > 0
    ensures k * d >= d
  {
  }

  lemma Regroup(x: int, p: int, y: int, l: int)
    ensures (x * p + y) * 256 + l == x * (p * 256) + (y * 256 + l)
  {
  }


  /** Dividing by 256 and then by q is dividing by 256 q. */
  lemma DivDiv256(v: nat, q: nat)
    requires q > 0
    ensures v / (256 * q) == (v / 256) / q
    ensures v % (256 * q) == ((v / 256) % q) * 256 + v % 256
  {
    var a, r1 := v / 256, v % 256;
    var b, r2 := a / q, a % q;
    assert a == b * q + r2;
    assert v == b * (256 * q) + (r2 * 256 + r1);
    DivModUnique(v, 256 * q, b, r2 * 256 + r1);
  }

  // ---------------------------------------------------------------------------
  // Big-endian value
  // ---------------------------------------------------------------------------

  /** An n-byte string denotes a number below 256^n. */
  lemma {:induction false} BigEndianBound(s: seq<Byte>)
    ensures BigEndian(s) < Pow256(|s|)
  {
    if |s| > 0 {
      BigEndianBound(s[..|s| - 1]);
    }
  }

  /** Concatenation: the bytes of `a` are worth 256^|b| times more. */
  lemma {:induction false} BigEndianAppend(a: seq<Byte>, b: seq<Byte>)
    ensures BigEndian(a + b) == BigEndian(a) * Pow256(|b|) + BigEndian(b)
  {
    if |b| == 0 {
      assert a + b == a;
    } else {
      var b' := b[..|b| - 1];
      var ab := a + b;
      assert ab[..|ab| - 1] == a + b' && ab[|ab| - 1] == b[|b| - 1];
      BigEndianAppend(a, b');
      Regroup(BigEndian(a), Pow256(|b'|), BigEndian(b'), b[|b| - 1] as nat);
    }
  }

  /** Reading the first byte off the front. */
  lemma BigEndianFront(s: seq<Byte>)
    requires |s| > 0
    ensures BigEndian(s) == s[0] as nat * Pow256(|s| - 1) + BigEndian(s[1..])
  {
    assert s == [s[0]] + s[1..];
    BigEndianAppend([s[0]], s[1..]);
    assert BigEndian([s[0]]) == s[0] as nat by {
      assert [s[0]][..0] == [];
    }
  }

  /** Byte i of an n-byte encoding of v, not the last, is byte i of the (n - 1)-byte encoding of v / 256. */
  lemma ToBigEndianDigit(v: nat, n: nat, i: nat)
    requires i + 1 < n
    ensures ToBigEndian(v, n)[i] == ToBigEndian(v / 256, n - 1)[i]
  {
    var q := Pow256(n - 2 - i);
    DivDiv256(v, q);
    assert Pow256(n - 1 - i) == 256 * q;
  }

  /** The encoding of v is the encoding of v / 256 followed by v's low byte. */
  lemma ToBigEndianStep(v: nat, n: nat)
    requires n >= 1
    ensures ToBigEndian(v, n) == ToBigEndian(v / 256, n - 1) + [ByteOf(v % 256)]
  {
    var s, t := ToBigEndian(v, n), ToBigEndian(v / 256, n - 1) + [ByteOf(v % 256)];
    forall i | 0 <= i < n
      ensures s[i] == t[i]
    {
      if i < n - 1 {
        ToBigEndianDigit(v, n, i);
      } else {
        assert Pow256(0) == 1;
      }
    }
  }

  /** Decoding an encoding gives the number back, modulo 256^n. */
  lemma {:induction false} BigEndianOfToBigEndian(v: nat, n: nat)
    ensures BigEndian(ToBigEndian(v, n)) == v % Pow256(n)
  {
    if n > 0 {
      ToBigEndianStep(v, n);
      var s := ToBigEndian(v, n);
      assert s[..n - 1] == ToBigEndian(v / 256, n - 1);
      assert s[n - 1] == ByteOf(v % 256);
      BigEndianOfToBigEndian(v / 256, n - 1);
      DivDiv256(v, Pow256(n - 1));
      assert BigEndian(s) == BigEndian(s[..n - 1]) * 256 + s[n - 1] as nat;
    } else {
      DivModUnique(v, 1, v, 0);
    }
  }

  /** The last byte of a string is its number's remainder modulo 256, the rest its quotient. */
  lemma BigEndianLast(s: seq<Byte>)
    requires |s| > 0
    ensures BigEndian(s) / 256 == BigEndian(s[..|s| - 1])
    ensures BigEndian(s) % 256 == s[|s| - 1] as nat
  {
    DivModUnique(BigEndian(s), 256, BigEndian(s[..|s| - 1]), s[|s| - 1] as nat);
  }

  /** Two strings of the same length denoting the same number are equal. */
  lemma {:induction false} BigEndianInjective(a: seq<Byte>, b: seq<Byte>)
    requires |a| == |b| && BigEndian(a) == BigEndian(b)
    ensures a == b
  {
    if |a| > 0 {
      var n := |a|;
      BigEndianLast(a);
      BigEndianLast(b);
      BigEndianInjective(a[..n - 1], b[..n - 1]);
      assert a == a[..n - 1] + [a[n - 1]];
      assert b == b[..n - 1] + [b[n - 1]];
    }
  }

  /** Encoding the number a string denotes gives the string back. */
  lemma {:induction false} ToBigEndianOfBigEndian(s: seq<Byte>)
    ensures ToBigEndian(BigEndian(s), |s|) == s
  {
    BigEndianBound(s);
    BigEndianOfToBigEndian(BigEndian(s), |s|);
    DivModUnique(BigEndian(s), Pow256(|s|), 0, BigEndian(s));
    BigEndianInjective(ToBigEndian(BigEndian(s), |s|), s);
  }
}
