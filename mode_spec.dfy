/**
 * The modes of operation of aes_mode.cpp as functions on byte strings:
 * ECB and CBC (NIST SP 800-38A, sections 6.1 and 6.2), the counter
 * keystream that CTR (SP 800-38A section 6.5, the whole block incremented)
 * and GCTR (NIST SP 800-38D section 6.5, the low 32 bits incremented)
 * share, multiplication in GF(2^128) and GHASH (SP 800-38D sections 6.3 and
 * 6.4), and the pre-counter block and the tag of GCM (SP 800-38D section 7).
 *
 * Blocks are the 16 bytes of a `qword_t`, in the array layout of the cipher;
 * byte 0 holds the leftmost bits of the standards' bit strings.
 */
module ModeSpec {
  import opened Bytes
  import CS = CipherSpec
  import TH = TypesHelper
  import AesCore

  // ---------------------------------------------------------------------------
  // The block cipher on sixteen bytes
  // ---------------------------------------------------------------------------

  /** cipherBlock on a 16-byte buffer. */
  function Encrypt(ks: seq<Word>, nr: nat, b: Block): Block
    requires CS.HasRoundKey(ks, nr)
  {
    CS.ToCells(CS.Cipher(CS.FromCells(b), ks, nr))
  }

  /** decipherBlock on a 16-byte buffer. */
  function Decrypt(ks: seq<Word>, nr: nat, b: Block): Block
    requires CS.HasRoundKey(ks, nr)
  {
    CS.ToCells(CS.Decipher(CS.FromCells(b), ks, nr))
  }

  /** decipherBlock undoes cipherBlock on the buffer. */
  lemma DecryptEncrypt(ks: seq<Word>, nr: nat, b: Block)
    requires CS.HasRoundKey(ks, nr)
    ensures Decrypt(ks, nr, Encrypt(ks, nr, b)) == b
  {
    var s := CS.Cipher(CS.FromCells(b), ks, nr);
    CS.FromCellsToCells(s);
    CS.DecipherCipher(CS.FromCells(b), ks, nr);
    CS.ToCellsFromCells(b);
  }

  /**
   * A block cipher under a fixed key, CIPH_K of the standards: the modes use
   * it only through its two directions.
   */
  datatype BlockCipher = BlockCipher(encrypt: Block -> Block, decrypt: Block -> Block)

  /** The decryption direction undoes the encryption direction. */
  ghost predicate Inverts(c: BlockCipher)
  {
    forall b: Block :: c.decrypt(c.encrypt(b)) == b
  }

  /** The two directions of c are AES encryption and decryption under ks with nr rounds. */
  ghost predicate IsAes(c: BlockCipher, ks: seq<Word>, nr: nat)
    requires CS.HasRoundKey(ks, nr)
  {
    (forall b: Block {:trigger Encrypt(ks, nr, b)} :: c.encrypt(b) == Encrypt(ks, nr, b))
    && (forall b: Block {:trigger Decrypt(ks, nr, b)} :: c.decrypt(b) == Decrypt(ks, nr, b))
  }

  /**
   * AES under the key schedule ks with nr rounds, as a block cipher. Its
   * directions are named through IsAes, so a proof about a mode sees the
   * cipher only where it asks for Encrypt or Decrypt.
   */
  ghost function AesBlockCipher(ks: seq<Word>, nr: nat): (c: BlockCipher)
    requires CS.HasRoundKey(ks, nr)
    ensures IsAes(c, ks, nr)
    ensures Inverts(c)
  {
    var aes := BlockCipher(b => Encrypt(ks, nr, b), b => Decrypt(ks, nr, b));
    assert IsAes(aes, ks, nr);
    var c :| IsAes(c, ks, nr);
    forall b: Block
      ensures c.decrypt(c.encrypt(b)) == b
    {
      DecryptEncrypt(ks, nr, b);
      assert c.encrypt(b) == Encrypt(ks, nr, b);
      assert c.decrypt(Encrypt(ks, nr, b)) == Decrypt(ks, nr, Encrypt(ks, nr, b));
    }
    c
  }

  /** What cipherBlock leaves in its buffer is the block enciphered by AES. */
  lemma EncryptedCells(ks: seq<Word>, nr: nat, before: Block, after: Block)
    requires CS.HasRoundKey(ks, nr)
    requires CS.FromCells(after) == CS.Cipher(CS.FromCells(before), ks, nr)
    ensures after == AesBlockCipher(ks, nr).encrypt(before)
  {
    CS.ToCellsFromCells(after);
    assert after == Encrypt(ks, nr, before);
  }

  /** What decipherBlock leaves in its buffer is the block deciphered by AES. */
  lemma DecryptedCells(ks: seq<Word>, nr: nat, before: Block, after: Block)
    requires CS.HasRoundKey(ks, nr)
    requires CS.FromCells(after) == CS.Decipher(CS.FromCells(before), ks, nr)
    ensures after == AesBlockCipher(ks, nr).decrypt(before)
  {
    CS.ToCellsFromCells(after);
    assert after == Decrypt(ks, nr, before);
  }

  // ---------------------------------------------------------------------------
  // Strings of blocks
  // ---------------------------------------------------------------------------

  /** Block k of a byte string: bytes 16k to 16k + 16. */
  function BlockAt(data: seq<Byte>, k: nat): Block
    requires 16 * k + 16 <= |data|
  {
    data[16 * k..16 * k + 16]
  }

  /** Appending a block keeps the blocks before it and adds it as the next one. */
  lemma BlocksOfAppend(a: seq<Byte>, b: Block)
    requires |a| % 16 == 0
    ensures forall k | 0 <= k < |a| / 16 :: BlockAt(a + b, k) == BlockAt(a, k)
    ensures BlockAt(a + b, |a| / 16) == b
  {
    forall k | 0 <= k < |a| / 16
      ensures BlockAt(a + b, k) == BlockAt(a, k)
    {
      assert (a + b)[16 * k..16 * k + 16] == a[16 * k..16 * k + 16];
    }
    assert (a + b)[|a|..|a| + 16] == b;
  }

  /** Byte j lies in block j / 16, at j % 16. */
  lemma ByteInBlock(data: seq<Byte>, k: nat, j: nat)
    requires 16 * k <= j < 16 * k + 16 <= |data|
    ensures j / 16 == k && j % 16 == j - 16 * k
    ensures data[j] == BlockAt(data, k)[j - 16 * k]
  {
    DivModUnique(j, 16, k, j - 16 * k);
  }

  /** Two strings of n blocks with the same blocks are the same string. */
  lemma BlocksEqual(a: seq<Byte>, b: seq<Byte>, n: nat)
    requires |a| == 16 * n && |b| == 16 * n
    requires forall k | 0 <= k < n :: BlockAt(a, k) == BlockAt(b, k)
    ensures a == b
  {
    forall j | 0 <= j < |a|
      ensures a[j] == b[j]
    {
      var k := j / 16;
      ByteInBlock(a, k, j);
      ByteInBlock(b, k, j);
    }
  }

  // ---------------------------------------------------------------------------
  // ECB
  // ---------------------------------------------------------------------------

  /** ECB encryption of the first n blocks: each block enciphered alone. */
  function EcbEncrypt(c: BlockCipher, data: seq<Byte>, n: nat): (r: seq<Byte>)
    requires 16 * n <= |data|
    ensures |r| == 16 * n
    ensures forall k | 0 <= k < n :: BlockAt(r, k) == c.encrypt(BlockAt(data, k))
  {
    if n == 0 then []
    else
      var r := EcbEncrypt(c, data, n - 1);
      var b := c.encrypt(BlockAt(data, n - 1));
      BlocksOfAppend(r, b);
      r + b
  }

  /** ECB decryption of the first n blocks. */
  function EcbDecrypt(c: BlockCipher, data: seq<Byte>, n: nat): (r: seq<Byte>)
    requires 16 * n <= |data|
    ensures |r| == 16 * n
    ensures forall k | 0 <= k < n :: BlockAt(r, k) == c.decrypt(BlockAt(data, k))
  {
    if n == 0 then []
    else
      var r := EcbDecrypt(c, data, n - 1);
      var b := c.decrypt(BlockAt(data, n - 1));
      BlocksOfAppend(r, b);
      r + b
  }

  /** ECB decryption undoes ECB encryption. */
  lemma EcbRoundTrip(c: BlockCipher, data: seq<Byte>, n: nat)
    requires 16 * n <= |data|
    requires Inverts(c)
    ensures EcbDecrypt(c, EcbEncrypt(c, data, n), n) == data[..16 * n]
  {
    var ct := EcbEncrypt(c, data, n);
    var p := EcbDecrypt(c, ct, n);
    forall k | 0 <= k < n
      ensures BlockAt(p, k) == BlockAt(data[..16 * n], k)
    {
      assert BlockAt(data[..16 * n], k) == BlockAt(data, k);
    }
    BlocksEqual(p, data[..16 * n], n);
  }

  // ---------------------------------------------------------------------------
  // CBC
  // ---------------------------------------------------------------------------

  /** The block chained into block k: the IV for the first, the previous ciphertext block after. */
  function ChainValue(iv: Block, c: seq<Byte>, k: nat): Block
    requires 16 * k <= |c|
  {
    if k == 0 then iv else BlockAt(c, k - 1)
  }

  /** Chaining values of blocks up to k do not depend on what follows block k - 1. */
  lemma ChainOfAppend(iv: Block, a: seq<Byte>, b: Block, k: nat)
    requires |a| % 16 == 0 && 16 * k <= |a|
    ensures ChainValue(iv, a + b, k) == ChainValue(iv, a, k)
  {
    if k > 0 {
      assert (a + b)[16 * (k - 1)..16 * k] == a[16 * (k - 1)..16 * k];
    }
  }

  /** One more CBC-encrypted block extends the ciphertext so far. */
  lemma CbcEncryptStep(c: BlockCipher, iv: Block, data: seq<Byte>, r: seq<Byte>, b: Block, n: nat)
    requires 1 <= n && 16 * n <= |data| && |r| == 16 * (n - 1)
    requires forall k {:trigger BlockAt(data, k)} | 0 <= k < n - 1 :: BlockAt(r, k) == c.encrypt(Xor(BlockAt(data, k), ChainValue(iv, r, k)))
    requires b == c.encrypt(Xor(BlockAt(data, n - 1), ChainValue(iv, r, n - 1)))
    ensures forall k {:trigger BlockAt(data, k)} | 0 <= k < n :: BlockAt(r + b, k) == c.encrypt(Xor(BlockAt(data, k), ChainValue(iv, r + b, k)))
  {
    BlocksOfAppend(r, b);
    forall k | 0 <= k < n
      ensures BlockAt(r + b, k) == c.encrypt(Xor(BlockAt(data, k), ChainValue(iv, r + b, k)))
    {
      ChainOfAppend(iv, r, b, k);
      if k < n - 1 {
        assert BlockAt(r + b, k) == BlockAt(r, k);
      } else {
        assert BlockAt(r + b, k) == b;
      }
    }
  }

  /** One more CBC-decrypted block extends the plaintext so far. */
  lemma CbcDecryptStep(c: BlockCipher, iv: Block, data: seq<Byte>, r: seq<Byte>, b: Block, n: nat)
    requires 1 <= n && 16 * n <= |data| && |r| == 16 * (n - 1)
    requires forall k {:trigger BlockAt(r, k)} | 0 <= k < n - 1 :: BlockAt(r, k) == Xor(c.decrypt(BlockAt(data, k)), ChainValue(iv, data, k))
    requires b == Xor(c.decrypt(BlockAt(data, n - 1)), ChainValue(iv, data, n - 1))
    ensures forall k {:trigger BlockAt(r + b, k)} | 0 <= k < n :: BlockAt(r + b, k) == Xor(c.decrypt(BlockAt(data, k)), ChainValue(iv, data, k))
  {
    BlocksOfAppend(r, b);
  }

  /** CBC encryption of the first n blocks: C_k = E(P_k xor C_(k-1)), C_(-1) = IV. */
  function CbcEncrypt(c: BlockCipher, iv: Block, data: seq<Byte>, n: nat): (r: seq<Byte>)
    requires 16 * n <= |data|
    ensures |r| == 16 * n
    ensures forall k {:trigger BlockAt(data, k)} | 0 <= k < n ::
      BlockAt(r, k) == c.encrypt(Xor(BlockAt(data, k), ChainValue(iv, r, k)))
  {
    if n == 0 then []
    else
      var r := CbcEncrypt(c, iv, data, n - 1);
      var b := c.encrypt(Xor(BlockAt(data, n - 1), ChainValue(iv, r, n - 1)));
      CbcEncryptStep(c, iv, data, r, b, n);
      r + b
  }

  /** CBC decryption of the first n blocks: P_k = D(C_k) xor C_(k-1). */
  function CbcDecrypt(c: BlockCipher, iv: Block, data: seq<Byte>, n: nat): (r: seq<Byte>)
    requires 16 * n <= |data|
    ensures |r| == 16 * n
    ensures forall k {:trigger BlockAt(r, k)} | 0 <= k < n ::
      BlockAt(r, k) == Xor(c.decrypt(BlockAt(data, k)), ChainValue(iv, data, k))
  {
    if n == 0 then []
    else
      var r := CbcDecrypt(c, iv, data, n - 1);
      var b := Xor(c.decrypt(BlockAt(data, n - 1)), ChainValue(iv, data, n - 1));
      CbcDecryptStep(c, iv, data, r, b, n);
      r + b
  }

  /** CBC decryption with the same key and IV undoes CBC encryption. */
  lemma CbcRoundTrip(c: BlockCipher, iv: Block, data: seq<Byte>, n: nat)
    requires 16 * n <= |data|
    requires Inverts(c)
    ensures CbcDecrypt(c, iv, CbcEncrypt(c, iv, data, n), n) == data[..16 * n]
  {
    var ct := CbcEncrypt(c, iv, data, n);
    var p := CbcDecrypt(c, iv, ct, n);
    forall k | 0 <= k < n
      ensures BlockAt(p, k) == BlockAt(data[..16 * n], k)
    {
      var chain := ChainValue(iv, ct, k);
      var x := Xor(BlockAt(data, k), chain);
      assert c.decrypt(c.encrypt(x)) == x;
      XorInvolution(BlockAt(data, k), chain);
      assert BlockAt(data[..16 * n], k) == BlockAt(data, k);
    }
    BlocksEqual(p, data[..16 * n], n);
  }

  // ---------------------------------------------------------------------------
  // Counter keystream (CTR and GCTR)
  // ---------------------------------------------------------------------------

  /** Counter block k: the initial block with its last `width` bytes incremented k times. */
  function CounterAt(icb: Block, width: nat, k: nat): Block
    requires 1 <= width <= 16
    decreases k
  {
    if k == 0 then icb else CounterAt(TH.IncSuffix(icb, width), width, k - 1)
  }

  /** Counter block k + 1 is counter block k incremented once. */
  lemma {:induction false} CounterNext(icb: Block, width: nat, k: nat)
    requires 1 <= width <= 16
    ensures CounterAt(icb, width, k + 1) == TH.IncSuffix(CounterAt(icb, width, k), width)
    decreases k
  {
    var next := TH.IncSuffix(icb, width);
    if k > 0 {
      CounterNext(next, width, k - 1);
      assert CounterAt(icb, width, k) == CounterAt(next, width, k - 1);
    }
    assert CounterAt(icb, width, k + 1) == CounterAt(next, width, k);
  }

  /** Adding one to a residue is adding one before reducing. */
  lemma ModStep(x: nat, a: nat, b: nat, p: nat)
    requires p > 0 && a == x % p && b == (a + 1) % p
    ensures b == (x + 1) % p
  {
    DivModUnique(x + 1, p, x / p + (a + 1) / p, b);
  }

  /**
   * Counter block k keeps the first 16 - width bytes of the initial block,
   * and its last `width` bytes, read big-endian, are the initial ones plus k
   * modulo 256^width: iv + k modulo 2^128 for CTR, inc32 applied k times for
   * GCTR.
   */
  lemma {:induction false} CounterValue(icb: Block, width: nat, k: nat)
    requires 1 <= width <= 16
    ensures CounterAt(icb, width, k)[..16 - width] == icb[..16 - width]
    ensures BigEndian(CounterAt(icb, width, k)[16 - width..]) == (BigEndian(icb[16 - width..]) + k) % Pow256(width)
  {
    if k == 0 {
      BigEndianBound(icb[16 - width..]);
      DivModUnique(BigEndian(icb[16 - width..]), Pow256(width), 0, BigEndian(icb[16 - width..]));
    } else {
      CounterValue(icb, width, k - 1);
      CounterValueStep(icb, width, k);
    }
  }

  /** The step of CounterValue: from counter block k - 1 to counter block k. */
  lemma CounterValueStep(icb: Block, width: nat, k: nat)
    requires 1 <= width <= 16 && 0 < k
    requires CounterAt(icb, width, k - 1)[..16 - width] == icb[..16 - width]
    requires BigEndian(CounterAt(icb, width, k - 1)[16 - width..]) == (BigEndian(icb[16 - width..]) + k - 1) % Pow256(width)
    ensures CounterAt(icb, width, k)[..16 - width] == icb[..16 - width]
    ensures BigEndian(CounterAt(icb, width, k)[16 - width..]) == (BigEndian(icb[16 - width..]) + k) % Pow256(width)
  {
    var c := CounterAt(icb, width, k - 1);
    var d := TH.IncSuffix(c, width);
    CounterNext(icb, width, k - 1);
    assert CounterAt(icb, width, k) == d;
    IncSuffixValue(c, width);
    var x, a, b := BigEndian(icb[16 - width..]) + k - 1, BigEndian(c[16 - width..]), BigEndian(d[16 - width..]);
    ModStep(x, a, b, Pow256(width));
  }

  /** One increment keeps the prefix and adds one to the suffix modulo 256^width. */
  lemma IncSuffixValue(b: Block, width: nat)
    requires 1 <= width <= 16
    ensures TH.IncSuffix(b, width)[..16 - width] == b[..16 - width]
    ensures BigEndian(TH.IncSuffix(b, width)[16 - width..]) == (BigEndian(b[16 - width..]) + 1) % Pow256(width)
  {
    IncSuffixParts(b, width);
    BigEndianOfToBigEndian(BigEndian(b[16 - width..]) + 1, width);
  }

  /** An increment splits into the kept prefix and the re-encoded suffix. */
  lemma IncSuffixParts(b: Block, width: nat)
    requires 1 <= width <= 16
    ensures TH.IncSuffix(b, width)[..16 - width] == b[..16 - width]
    ensures TH.IncSuffix(b, width)[16 - width..] == ToBigEndian(BigEndian(b[16 - width..]) + 1, width)
  {
    var a, e := b[..16 - width], ToBigEndian(BigEndian(b[16 - width..]) + 1, width);
    var r := TH.IncSuffix(b, width);
    assert r == a + e;
    assert r[..16 - width] == a && r[16 - width..] == e;
  }


  /**
   * Counter-mode output: byte j of the data xor byte j % 16 of the
   * enciphered counter block j / 16. A final partial block uses the front of
   * its keystream block.
   */
  function KeyStreamXor(c: BlockCipher, icb: Block, width: nat, data: seq<Byte>): (r: seq<Byte>)
    requires 1 <= width <= 16
    ensures |r| == |data|
  {
    seq(|data|, j requires 0 <= j < |data| => data[j] ^ c.encrypt(CounterAt(icb, width, j / 16))[j % 16])
  }

  /** Counter mode is its own inverse: CTR decryption is CTR encryption. */
  lemma KeyStreamInvolution(c: BlockCipher, icb: Block, width: nat, data: seq<Byte>)
    requires 1 <= width <= 16
    ensures KeyStreamXor(c, icb, width, KeyStreamXor(c, icb, width, data)) == data
  {
    var ct := KeyStreamXor(c, icb, width, data);
    var p := KeyStreamXor(c, icb, width, ct);
    forall j | 0 <= j < |data|
      ensures p[j] == data[j]
    {
      var e := c.encrypt(CounterAt(icb, width, j / 16))[j % 16];
      assert ct[j] == data[j] ^ e;
      assert p[j] == ct[j] ^ e;
    }
  }

  /**
   * The keystream over the first 16 k + m bytes is the keystream over the
   * first 16 k, then the next m bytes xor the front of the k-th enciphered
   * counter block.
   */
  lemma KeyStreamExtend(c: BlockCipher, icb: Block, width: nat, data: seq<Byte>, k: nat, m: nat)
    requires 1 <= width <= 16 && m <= 16 && 16 * k + m <= |data|
    ensures KeyStreamXor(c, icb, width, data[..16 * k + m])
         == KeyStreamXor(c, icb, width, data[..16 * k])
            + Xor(data[16 * k..16 * k + m], c.encrypt(CounterAt(icb, width, k))[..m])
  {
    var e := c.encrypt(CounterAt(icb, width, k));
    var whole := KeyStreamXor(c, icb, width, data[..16 * k + m]);
    var front := KeyStreamXor(c, icb, width, data[..16 * k]);
    var back := Xor(data[16 * k..16 * k + m], e[..m]);
    forall j | 0 <= j < 16 * k + m
      ensures whole[j] == (front + back)[j]
    {
      if j >= 16 * k {
        DivModUnique(j, 16, k, j - 16 * k);
        assert back[j - 16 * k] == data[j] ^ e[j - 16 * k];
      }
    }
  }

  /** On one block the keystream is the block xor the enciphered initial counter. */
  lemma KeyStreamOneBlock(c: BlockCipher, icb: Block, width: nat, data: Block)
    requires 1 <= width <= 16
    ensures KeyStreamXor(c, icb, width, data) == Xor(data, c.encrypt(icb))
  {
    forall j | 0 <= j < 16
      ensures KeyStreamXor(c, icb, width, data)[j] == Xor(data, c.encrypt(icb))[j]
    {
      assert j / 16 == 0 && j % 16 == j;
      assert CounterAt(icb, width, 0) == icb;
      assert KeyStreamXor(c, icb, width, data)[j] == data[j] ^ c.encrypt(icb)[j];
    }
  }

  // ---------------------------------------------------------------------------
  // GF(2^128)
  // ---------------------------------------------------------------------------

  /** R = 11100001 || 0^120 */
  const R: Block := [0xe1, 0, 0, 0, 0, 0, 0, 0, 0, 0, 0, 0, 0, 0, 0, 0]

  /** The unit of the field: bit 0 set, the rest clear. */
  const ONE: Block := [0x80, 0, 0, 0, 0, 0, 0, 0, 0, 0, 0, 0, 0, 0, 0, 0]

  /** The mask of bit j of a byte, counting from the most significant (bit 0 is 0x80). */
  const BIT_MASK: seq<Byte> := [0x80, 0x40, 0x20, 0x10, 0x08, 0x04, 0x02, 0x01]

  /** Bit i of a block, bit 0 the leftmost (the most significant bit of byte 0). */
  predicate BitOf(x: Block, i: nat)
    requires i < 128
  {
    x[i / 8] & BIT_MASK[i % 8] != 0
  }

  /** One step of V in Algorithm 1: shift right, and reduce by R when a bit falls off. */
  function VNext(v: Block): Block
  {
    if v[15] & 1 != 0 then Xor(TH.ShiftRight(v), R) else TH.ShiftRight(v)
  }

  /** V_i of Algorithm 1: V_0 = Y, then V_{i+1} = VNext(V_i). */
  function VAt(y: Block, i: nat): Block
  {
    if i == 0 then y else VNext(VAt(y, i - 1))
  }

  /** Z_i of Algorithm 1: the sum of the V_j whose bit j of X is set, for j < i. */
  function ZAt(x: Block, y: Block, i: nat): Block
    requires i <= 128
  {
    if i == 0 then ZERO_BLOCK
    else
      var z := ZAt(x, y, i - 1);
      if BitOf(x, i - 1) then Xor(z, VAt(y, i - 1)) else z
  }

  /** One step of Algorithm 1: Z and V at bit i + 1 from Z and V at bit i. */
  lemma GMulStep(x: Block, y: Block, i: nat, j: nat, z: Block, v: Block)
    requires i < 128 && j == i + 1 && z == ZAt(x, y, i) && v == VAt(y, i)
    ensures ZAt(x, y, j) == (if BitOf(x, i) then Xor(z, v) else z)
    ensures VAt(y, j) == VNext(v)
  {
    assert j - 1 == i;
    assert ZAt(x, y, j) == (if BitOf(x, j - 1) then Xor(ZAt(x, y, j - 1), VAt(y, j - 1)) else ZAt(x, y, j - 1));
    assert VAt(y, j) == VNext(VAt(y, j - 1));
  }

  /** X * Y in GF(2^128): Z_128. */
  function GMul(x: Block, y: Block): Block
  {
    ZAt(x, y, 128)
  }

  /** Xor-ing blocks is associative and commutative in the arrangement the proofs need. */
  lemma XorSwap(a: Block, b: Block, c: Block, d: Block)
    ensures Xor(Xor(a, b), Xor(c, d)) == Xor(Xor(a, c), Xor(b, d))
  {
    forall j | 0 <= j < 16
      ensures Xor(Xor(a, b), Xor(c, d))[j] == Xor(Xor(a, c), Xor(b, d))[j]
    {
    }
  }

  lemma XorZero(a: Block)
    ensures Xor(a, ZERO_BLOCK) == a && Xor(ZERO_BLOCK, a) == a
  {
  }

  lemma BitOfXor(x1: Block, x2: Block, i: nat)
    requires i < 128
    ensures BitOf(Xor(x1, x2), i) <==> BitOf(x1, i) != BitOf(x2, i)
  {
    var k, m := i / 8, BIT_MASK[i % 8];
    assert Xor(x1, x2)[k] == x1[k] ^ x2[k];
    assert m == 1 || m == 2 || m == 4 || m == 8 || m == 16 || m == 32 || m == 64 || m == 128;
  }

  /** Z_i is linear in X. */
  lemma {:induction false} ZAtXor(x1: Block, x2: Block, y: Block, i: nat)
    requires i <= 128
    ensures ZAt(Xor(x1, x2), y, i) == Xor(ZAt(x1, y, i), ZAt(x2, y, i))
  {
    if i == 0 {
      XorZero(ZERO_BLOCK);
    } else {
      ZAtXor(x1, x2, y, i - 1);
      BitOfXor(x1, x2, i - 1);
      var z1, z2, v := ZAt(x1, y, i - 1), ZAt(x2, y, i - 1), VAt(y, i - 1);
      if BitOf(x1, i - 1) && !BitOf(x2, i - 1) {
        XorSwap(z1, v, z2, ZERO_BLOCK);
        XorZero(v);
        XorZero(z2);
      } else if !BitOf(x1, i - 1) && BitOf(x2, i - 1) {
        XorSwap(z1, ZERO_BLOCK, z2, v);
        XorZero(z1);
        XorZero(v);
      } else if BitOf(x1, i - 1) && BitOf(x2, i - 1) {
        XorSwap(z1, v, z2, v);
        XorInvolution(v, v);
        assert Xor(v, v) == ZERO_BLOCK;
        XorZero(Xor(z1, z2));
      }
    }
  }

  /** Multiplication distributes over xor in its first operand. */
  lemma GMulXorLeft(x1: Block, x2: Block, y: Block)
    ensures GMul(Xor(x1, x2), y) == Xor(GMul(x1, y), GMul(x2, y))
  {
    ZAtXor(x1, x2, y, 128);
  }

  /** Z_i of the zero block is zero. */
  lemma {:induction false} ZAtZero(y: Block, i: nat)
    requires i <= 128
    ensures ZAt(ZERO_BLOCK, y, i) == ZERO_BLOCK
  {
    if i > 0 {
      ZAtZero(y, i - 1);
      assert !BitOf(ZERO_BLOCK, i - 1);
    }
  }

  /** Only bit 0 of the unit is set. */
  lemma BitOfOne(i: nat)
    requires i < 128
    ensures BitOf(ONE, i) <==> i == 0
  {
    if i < 8 {
      assert i == 0 || i == 1 || i == 2 || i == 3 || i == 4 || i == 5 || i == 6 || i == 7;
    } else {
      assert ONE[i / 8] == 0;
    }
  }

  /** Z_i of the unit is Y, from the first step on. */
  lemma {:induction false} ZAtOne(y: Block, i: nat)
    requires 1 <= i <= 128
    ensures ZAt(ONE, y, i) == y
  {
    BitOfOne(i - 1);
    if i == 1 {
      XorZero(y);
    } else {
      ZAtOne(y, i - 1);
    }
  }

  /** Zero annihilates and ONE is the unit, as left operands. */
  lemma GMulZeroOne(y: Block)
    ensures GMul(ZERO_BLOCK, y) == ZERO_BLOCK
    ensures GMul(ONE, y) == y
  {
    ZAtZero(y, 128);
    ZAtOne(y, 128);
  }

  // ---------------------------------------------------------------------------
  // GHASH
  // ---------------------------------------------------------------------------

  /** The running value of ghash after n more blocks of data: Y := (Y xor X) * H. */
  function GhashBlocks(h: Block, y: Block, data: seq<Byte>, n: nat): Block
    requires 16 * n <= |data|
  {
    if n == 0 then y else GMul(h, Xor(GhashBlocks(h, y, data, n - 1), BlockAt(data, n - 1)))
  }

  /** ghash: the AAD blocks, then the data blocks, then the length block, from Y = 0. */
  function Ghash(h: Block, aad: seq<Byte>, na: nat, sizes: Block, data: seq<Byte>, nd: nat): Block
    requires 16 * na <= |aad| && 16 * nd <= |data|
  {
    GMul(h, Xor(GhashBlocks(h, GhashBlocks(h, ZERO_BLOCK, aad, na), data, nd), sizes))
  }

  /** GhashBlocks reads only the first n blocks. */
  lemma {:induction false} GhashBlocksPrefix(h: Block, y: Block, a: seq<Byte>, b: seq<Byte>, n: nat)
    requires 16 * n <= |a| && 16 * n <= |b| && a[..16 * n] == b[..16 * n]
    ensures GhashBlocks(h, y, a, n) == GhashBlocks(h, y, b, n)
  {
    if n > 0 {
      assert a[..16 * (n - 1)] == b[..16 * (n - 1)] by {
        assert a[..16 * (n - 1)] == a[..16 * n][..16 * (n - 1)];
        assert b[..16 * (n - 1)] == b[..16 * n][..16 * (n - 1)];
      }
      GhashBlocksPrefix(h, y, a, b, n - 1);
      assert BlockAt(a, n - 1) == a[..16 * n][16 * (n - 1)..];
      assert BlockAt(b, n - 1) == b[..16 * n][16 * (n - 1)..];
    }
  }

  /** Hashing a + b is hashing a, then hashing b from where a left off. */
  lemma {:induction false} GhashBlocksAppend(h: Block, y: Block, a: seq<Byte>, b: seq<Byte>, na: nat, nb: nat)
    requires |a| == 16 * na && 16 * nb <= |b|
    ensures GhashBlocks(h, y, a + b, na + nb) == GhashBlocks(h, GhashBlocks(h, y, a, na), b, nb)
  {
    if nb == 0 {
      assert (a + b)[..16 * na] == a[..16 * na];
      GhashBlocksPrefix(h, y, a + b, a, na);
    } else {
      GhashBlocksAppend(h, y, a, b, na, nb - 1);
      assert BlockAt(a + b, na + nb - 1) == BlockAt(b, nb - 1);
    }
  }

  /**
   * ghash is GHASH_H (SP 800-38D section 6.4) of the one string
   * A || C || [len(A)]_64 || [len(C)]_64 formed by the AAD blocks, the data
   * blocks and the length block.
   */
  lemma GhashOfConcat(h: Block, aad: seq<Byte>, na: nat, sizes: Block, data: seq<Byte>, nd: nat)
    requires 16 * na <= |aad| && 16 * nd <= |data|
    ensures Ghash(h, aad, na, sizes, data, nd)
         == GhashBlocks(h, ZERO_BLOCK, aad[..16 * na] + data[..16 * nd] + sizes, na + nd + 1)
  {
    var a, d := aad[..16 * na], data[..16 * nd];
    GhashBlocksPrefix(h, ZERO_BLOCK, aad, a, na);
    GhashBlocksPrefix(h, GhashBlocks(h, ZERO_BLOCK, a, na), data, d, nd);
    GhashBlocksAppend(h, ZERO_BLOCK, a, d, na, nd);
    GhashBlocksAppend(h, ZERO_BLOCK, a + d, sizes, na + nd, 1);
    assert BlockAt(sizes, 0) == sizes;
  }

  // ---------------------------------------------------------------------------
  // GCM
  // ---------------------------------------------------------------------------

  /** H = CIPH_K(0^128) */
  function HashSubkey(c: BlockCipher): Block
  {
    c.encrypt(ZERO_BLOCK)
  }

  /** A length in bits as `unsigned int` arithmetic computes it: 8 n modulo 2^32. */
  function BitLength(n: nat): Word
  {
    (8 * n % 0x1_0000_0000) as Word
  }

  /** 0^32 || [a]_32 || 0^32 || [c]_32: the two lengths in the low halves of two 64-bit fields. */
  function LengthBlock(a: Word, c: Word): Block
  {
    [0, 0, 0, 0] + TH.WordToBytes(a) + [0, 0, 0, 0] + TH.WordToBytes(c)
  }

  /** The number of blocks the loops of ghash read for a size: one per started block. */
  function BlockCount(n: U32): nat
  {
    AesCore.BlockRoundedSize(n) / 16
  }

  /**
   * J0: IV || 0^31 || 1 for a 12-byte IV; otherwise GHASH of the zero-padded
   * IV followed by the block 0^96 || [8 ivSize]_32.
   */
  function PreCounterBlock(c: BlockCipher, iv: seq<Byte>, ivSize: U32): Block
    requires 16 * BlockCount(ivSize) <= |iv| && (ivSize == 12 ==> 12 <= |iv|)
  {
    if ivSize == 12 then iv[..12] + [0, 0, 0, 1]
    else Ghash(HashSubkey(c), [], 0, LengthBlock(0, BitLength(ivSize)), iv, BlockCount(ivSize))
  }

  /** The zeros gcm_crypt writes after `size` bytes to end them on a block boundary. */
  function ZeroTail(size: nat): nat
  {
    if size % 16 == 0 then 0 else 16 - size % 16
  }

  /** The first `size` bytes, then zeros up to the next block boundary. */
  function PadZeros(data: seq<Byte>, size: nat): (r: seq<Byte>)
    requires size <= |data|
    ensures |r| == size + ZeroTail(size) && |r| % 16 == 0
    ensures r[..size] == data[..size] && forall j | size <= j < |r| :: r[j] == 0
  {
    data[..size] + seq(ZeroTail(size), _ => 0)
  }

  /** The blocks ghash reads of a zero-padded buffer all lie inside it. */
  lemma BlockCountFits(size: U32)
    ensures 16 * BlockCount(size) <= size + ZeroTail(size)
  {
  }

  /**
   * The tag: GCTR with J0 over S = GHASH_H(A, C, lengths), where the AAD
   * buffer is read up to its rounded size and C is zero-padded.
   */
  function GcmTag(c: BlockCipher, j0: Block, aad: seq<Byte>, aadSize: U32, ct: seq<Byte>, cSize: U32): Block
    requires 16 * BlockCount(aadSize) <= |aad| && 16 * BlockCount(cSize) <= |ct|
  {
    var s := Ghash(HashSubkey(c), aad, BlockCount(aadSize), LengthBlock(BitLength(aadSize), BitLength(cSize)), ct, BlockCount(cSize));
    KeyStreamXor(c, j0, 4, s)
  }

  /** The tag is S xor CIPH_K(J0). */
  lemma GcmTagIsXor(c: BlockCipher, j0: Block, aad: seq<Byte>, aadSize: U32, ct: seq<Byte>, cSize: U32)
    requires 16 * BlockCount(aadSize) <= |aad| && 16 * BlockCount(cSize) <= |ct|
    ensures GcmTag(c, j0, aad, aadSize, ct, cSize)
         == Xor(Ghash(HashSubkey(c), aad, BlockCount(aadSize), LengthBlock(BitLength(aadSize), BitLength(cSize)), ct, BlockCount(cSize)),
                c.encrypt(j0))
  {
    var s := Ghash(HashSubkey(c), aad, BlockCount(aadSize), LengthBlock(BitLength(aadSize), BitLength(cSize)), ct, BlockCount(cSize));
    KeyStreamOneBlock(c, j0, 4, s);
  }

  /**
   * gcm_crypt encrypting: the ciphertext GCTR(inc32(J0), P) followed by the
   * tag over the zero-padded ciphertext.
   */
  function GcmSeal(c: BlockCipher, iv: seq<Byte>, ivSize: U32, aad: seq<Byte>, aadSize: U32, p: seq<Byte>): (r: seq<Byte>)
    requires 16 * BlockCount(ivSize) <= |iv| && (ivSize == 12 ==> 12 <= |iv|)
    requires 16 * BlockCount(aadSize) <= |aad| && |p| < 0x1_0000_0000
    ensures |r| == |p| + 16
  {
    var j0 := PreCounterBlock(c, iv, ivSize);
    var ct := KeyStreamXor(c, TH.IncSuffix(j0, 4), 4, p);
    BlockCountFits(|p|);
    ct + GcmTag(c, j0, aad, aadSize, PadZeros(ct, |p|), |p|)
  }

  /**
   * gcm_crypt decrypting ciphertext ct with tag t: whether the tag matches,
   * and the plaintext GCTR(inc32(J0), C), which is produced either way.
   */
  function GcmOpen(c: BlockCipher, iv: seq<Byte>, ivSize: U32, aad: seq<Byte>, aadSize: U32, ct: seq<Byte>, t: seq<Byte>): (r: (bool, seq<Byte>))
    requires 16 * BlockCount(ivSize) <= |iv| && (ivSize == 12 ==> 12 <= |iv|)
    requires 16 * BlockCount(aadSize) <= |aad| && |ct| < 0x1_0000_0000
    ensures |r.1| == |ct|
  {
    var j0 := PreCounterBlock(c, iv, ivSize);
    BlockCountFits(|ct|);
    (t == GcmTag(c, j0, aad, aadSize, PadZeros(ct, |ct|), |ct|), KeyStreamXor(c, TH.IncSuffix(j0, 4), 4, ct))
  }

  /** Opening what sealing produced, under the same key, IV and AAD, accepts and gives the plaintext back. */
  lemma GcmRoundTrip(c: BlockCipher, iv: seq<Byte>, ivSize: U32, aad: seq<Byte>, aadSize: U32, p: seq<Byte>)
    requires 16 * BlockCount(ivSize) <= |iv| && (ivSize == 12 ==> 12 <= |iv|)
    requires 16 * BlockCount(aadSize) <= |aad| && |p| < 0x1_0000_0000
    ensures var s := GcmSeal(c, iv, ivSize, aad, aadSize, p);
      GcmOpen(c, iv, ivSize, aad, aadSize, s[..|p|], s[|p|..]) == (true, p)
  {
    var s := GcmSeal(c, iv, ivSize, aad, aadSize, p);
    var j0 := PreCounterBlock(c, iv, ivSize);
    var ct := KeyStreamXor(c, TH.IncSuffix(j0, 4), 4, p);
    assert s[..|p|] == ct;
    KeyStreamInvolution(c, TH.IncSuffix(j0, 4), 4, p);
  }

  /** Opening rejects exactly the tags other than the one sealing computes. */
  lemma GcmOpenRejects(c: BlockCipher, iv: seq<Byte>, ivSize: U32, aad: seq<Byte>, aadSize: U32, p: seq<Byte>, t: seq<Byte>)
    requires 16 * BlockCount(ivSize) <= |iv| && (ivSize == 12 ==> 12 <= |iv|)
    requires 16 * BlockCount(aadSize) <= |aad| && |p| < 0x1_0000_0000
    ensures var s := GcmSeal(c, iv, ivSize, aad, aadSize, p);
      GcmOpen(c, iv, ivSize, aad, aadSize, s[..|p|], t).0 <==> t == s[|p|..]
  {
    var s := GcmSeal(c, iv, ivSize, aad, aadSize, p);
    var j0 := PreCounterBlock(c, iv, ivSize);
    var ct := KeyStreamXor(c, TH.IncSuffix(j0, 4), 4, p);
    assert s[..|p|] == ct;
  }
}
