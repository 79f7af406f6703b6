/**
 * The AES session object of aes_core.cpp and aes_mode.cpp: initialize, the
 * IV and AAD setters, PKCS7 padding, the four modes of operation and the
 * cipher/decipher dispatch. Each mode member is proved to write what the
 * matching function of ModeSpec computes, under the block cipher the
 * session's key schedule defines.
 */
module AesSession {
  import opened Bytes
  import opened AesCore
  import CS = CipherSpec
  import TH = TypesHelper
  import AC = AesCipher
  import MS = ModeSpec
  import Mem
  import AesMode

  // ---------------------------------------------------------------------------
  // What cipher and decipher compute
  // ---------------------------------------------------------------------------

  /** The IV buffer holds what a mode reads of it: a whole block for CBC and CTR, the rounded IV for GCM. */
  predicate IvFits(mode: Mode, iv: seq<Byte>, ivSize: U32)
  {
    (mode == CBC || mode == CTR ==> 16 <= |iv|)
    && (mode == GCM ==> 16 * MS.BlockCount(ivSize) <= |iv| && (ivSize == 12 ==> 12 <= |iv|))
  }

  /** The number of bytes a mode writes for n input bytes when encrypting: whole blocks for ECB and CBC, the tag in GCM. */
  function EncryptedSize(mode: Mode, n: nat): nat
  {
    match mode
    case ECB => 16 * (n / 16)
    case CBC => 16 * (n / 16)
    case CTR => n
    case GCM => n + 16
    case UnlistedMode => 0
  }

  /** The number of bytes a mode writes for n input bytes when decrypting; GCM takes the tag off. */
  function DecryptedSize(mode: Mode, n: nat): nat
  {
    match mode
    case ECB => 16 * (n / 16)
    case CBC => 16 * (n / 16)
    case CTR => n
    case GCM => if n < 16 then 0 else n - 16
    case UnlistedMode => 0
  }

  /**
   * cipher after the padding: whether it succeeds, and what it writes for
   * the (padded) plaintext p. A mode outside the four fails.
   */
  function Encrypted(c: MS.BlockCipher, mode: Mode, iv: seq<Byte>, ivSize: U32, aad: seq<Byte>, aadSize: U32,
                     p: seq<Byte>): (r: (bool, seq<Byte>))
    requires IvFits(mode, iv, ivSize) && 16 * MS.BlockCount(aadSize) <= |aad| && |p| < 0x1_0000_0000
    ensures r.0 <==> mode != UnlistedMode
    ensures |r.1| == EncryptedSize(mode, |p|)
  {
    match mode
    case ECB => (true, MS.EcbEncrypt(c, p, |p| / 16))
    case CBC => (true, MS.CbcEncrypt(c, iv[..16], p, |p| / 16))
    case CTR => (true, MS.KeyStreamXor(c, iv[..16], 16, p))
    case GCM => (true, MS.GcmSeal(c, iv, ivSize, aad, aadSize, p))
    case UnlistedMode => (false, [])
  }

  /**
   * decipher: whether it succeeds (in GCM, whether the tag at the end of d
   * matches), and what it writes for the ciphertext d.
   */
  function Decrypted(c: MS.BlockCipher, mode: Mode, iv: seq<Byte>, ivSize: U32, aad: seq<Byte>, aadSize: U32,
                     d: seq<Byte>): (r: (bool, seq<Byte>))
    requires IvFits(mode, iv, ivSize) && 16 * MS.BlockCount(aadSize) <= |aad| && |d| < 0x1_0000_0000
    requires mode == GCM ==> 16 <= |d|
    ensures mode == UnlistedMode ==> !r.0
    ensures |r.1| == DecryptedSize(mode, |d|)
  {
    match mode
    case ECB => (true, MS.EcbDecrypt(c, d, |d| / 16))
    case CBC => (true, MS.CbcDecrypt(c, iv[..16], d, |d| / 16))
    case CTR => (true, MS.KeyStreamXor(c, iv[..16], 16, d))
    case GCM => MS.GcmOpen(c, iv, ivSize, aad, aadSize, d[..|d| - 16], d[|d| - 16..])
    case UnlistedMode => (false, [])
  }

  /**
   * Deciphering what cipher wrote, with the same key, mode, IV and AAD,
   * succeeds and gives back the padded plaintext: all of it in CTR and GCM,
   * its whole blocks in ECB and CBC.
   */
  lemma DecryptedEncrypted(c: MS.BlockCipher, mode: Mode, iv: seq<Byte>, ivSize: U32, aad: seq<Byte>, aadSize: U32,
                           p: seq<Byte>)
    requires MS.Inverts(c) && mode != UnlistedMode
    requires IvFits(mode, iv, ivSize) && 16 * MS.BlockCount(aadSize) <= |aad| && |p| + 16 < 0x1_0000_0000
    ensures Decrypted(c, mode, iv, ivSize, aad, aadSize, Encrypted(c, mode, iv, ivSize, aad, aadSize, p).1)
         == (true, if mode == ECB || mode == CBC then p[..16 * (|p| / 16)] else p)
  {
    var ct := Encrypted(c, mode, iv, ivSize, aad, aadSize, p).1;
    match mode
    case ECB =>
      assert |ct| / 16 == |p| / 16;
      MS.EcbRoundTrip(c, p, |p| / 16);
    case CBC =>
      assert |ct| / 16 == |p| / 16;
      MS.CbcRoundTrip(c, iv[..16], p, |p| / 16);
    case CTR =>
      MS.KeyStreamInvolution(c, iv[..16], 16, p);
    case GCM =>
      assert ct[..|ct| - 16] == ct[..|p|] && ct[|ct| - 16..] == ct[|p|..];
      MS.GcmRoundTrip(c, iv, ivSize, aad, aadSize, p);
  }

  /** Rounding a size to whole blocks and counting the blocks of a `for (i = 0; i < size; i += 16)` loop agree. */
  lemma RoundedBlocks(n: U32)
    requires n <= 0x1_0000_0000 - 16
    ensures BlockRoundedSize(n) <= 0x1_0000_0000 - 16
    ensures AesMode.Blocks(BlockRoundedSize(n)) == MS.BlockCount(n)
    ensures BlockRoundedSize(n) == n + MS.ZeroTail(n)
  {
    BlockRoundedSizeLeast(n, 0);
    var r := BlockRoundedSize(n);
    DivModUnique(r + 15, 16, r / 16, 15);
  }

  /** The tag reads the ciphertext buffer only up to its last started block. */
  lemma GcmTagPrefix(c: MS.BlockCipher, j0: Block, aad: seq<Byte>, aadSize: U32, a: seq<Byte>, b: seq<Byte>, n: U32)
    requires 16 * MS.BlockCount(aadSize) <= |aad| && 16 * MS.BlockCount(n) <= |a| && 16 * MS.BlockCount(n) <= |b|
    requires a[..16 * MS.BlockCount(n)] == b[..16 * MS.BlockCount(n)]
    ensures MS.GcmTag(c, j0, aad, aadSize, a, n) == MS.GcmTag(c, j0, aad, aadSize, b, n)
  {
    var h := MS.HashSubkey(c);
    var y := MS.GhashBlocks(h, ZERO_BLOCK, aad, MS.BlockCount(aadSize));
    MS.GhashBlocksPrefix(h, y, a, b, MS.BlockCount(n));
  }

  // ---------------------------------------------------------------------------
  // One block of each mode's loop
  // ---------------------------------------------------------------------------

  /** Writing block b at offset 16k of r + rest, where |r| == 16k, extends r by b. */
  lemma AppendBlock(before: seq<Byte>, r: seq<Byte>, out0: seq<Byte>, b: Block, after: seq<Byte>,
                    off: nat, off1: nat)
    requires off1 == off + 16 && |r| == off && off1 <= |out0|
    requires before == r + out0[off..]
    requires after == before[..off] + b[0..16] + before[off + 16..]
    ensures after == (r + b) + out0[off1..]
  {
    assert before[..off] == r;
    assert b[0..16] == b;
    assert before[off + 16..] == out0[off1..];
  }

  /** Block k of the first n bytes of a is the 16 bytes of a at 16 k. */
  lemma BlockOfPrefix(a: seq<Byte>, n: nat, k: nat, off: nat)
    requires off == 16 * k && off + 16 <= n <= |a|
    ensures a[off..off + 16] == MS.BlockAt(a[..n], k)
  {
  }

  lemma EcbEncryptNext(c: MS.BlockCipher, data: seq<Byte>, k: nat, k1: nat)
    requires k1 == k + 1 && 16 * k1 <= |data|
    ensures MS.EcbEncrypt(c, data, k1) == MS.EcbEncrypt(c, data, k) + c.encrypt(MS.BlockAt(data, k))
  {
  }

  lemma EcbDecryptNext(c: MS.BlockCipher, data: seq<Byte>, k: nat, k1: nat)
    requires k1 == k + 1 && 16 * k1 <= |data|
    ensures MS.EcbDecrypt(c, data, k1) == MS.EcbDecrypt(c, data, k) + c.decrypt(MS.BlockAt(data, k))
  {
  }

  lemma CbcEncryptNext(c: MS.BlockCipher, iv: Block, data: seq<Byte>, k: nat, k1: nat)
    requires k1 == k + 1 && 16 * k1 <= |data|
    ensures var r := MS.CbcEncrypt(c, iv, data, k);
      MS.CbcEncrypt(c, iv, data, k1) == r + c.encrypt(Xor(MS.BlockAt(data, k), MS.ChainValue(iv, r, k)))
  {
  }

  lemma CbcDecryptNext(c: MS.BlockCipher, iv: Block, data: seq<Byte>, k: nat, k1: nat)
    requires k1 == k + 1 && 16 * k1 <= |data|
    ensures MS.CbcDecrypt(c, iv, data, k1)
         == MS.CbcDecrypt(c, iv, data, k) + Xor(c.decrypt(MS.BlockAt(data, k)), MS.ChainValue(iv, data, k))
  {
  }

  lemma ChainNext(iv: Block, data: seq<Byte>, k: nat, k1: nat)
    requires k1 == k + 1 && 16 * k1 <= |data|
    ensures MS.ChainValue(iv, data, k1) == MS.BlockAt(data, k)
  {
  }

  /** One turn of ecb_encrypt's loop: block k of the input, enciphered, becomes block k of the output. */
  method EcbEncryptBlock(ksch: seq<Word>, nr: nat, state: array<Byte>, dataIn: array<Byte>, dataOut: array<Byte>,
                         offsetData: nat, off1: nat, ghost c: MS.BlockCipher, ghost inp: seq<Byte>, ghost out0: seq<Byte>,
                         ghost k: nat, ghost k1: nat)
    requires CS.HasRoundKey(ksch, nr) && c == MS.AesBlockCipher(ksch, nr)
    requires state.Length == 16 && state != dataIn && state != dataOut && dataIn != dataOut
    requires offsetData == 16 * k && k1 == k + 1 && off1 == offsetData + 16
    requires 16 * k1 <= |inp| && off1 <= |out0| == dataOut.Length
    requires offsetData + 16 <= dataIn.Length && dataIn[offsetData..offsetData + 16] == MS.BlockAt(inp, k)
    requires dataOut[..] == MS.EcbEncrypt(c, inp, k) + out0[offsetData..]
    modifies state, dataOut
    ensures dataOut[..] == MS.EcbEncrypt(c, inp, k1) + out0[off1..]
  {
    ghost var before := dataOut[..];
    TH.QwordCopy(dataIn, offsetData, state, 0);
    assert state[..] == MS.BlockAt(inp, k);
    AesMode.BlockEncrypt(state, ksch, nr);
    ghost var b: Block := state[..];
    TH.QwordCopy(state, 0, dataOut, offsetData);
    AppendBlock(before, MS.EcbEncrypt(c, inp, k), out0, b, dataOut[..], offsetData, off1);
    EcbEncryptNext(c, inp, k, k1);
  }

  /** One turn of ecb_decrypt's loop. */
  method EcbDecryptBlock(ksch: seq<Word>, nr: nat, state: array<Byte>, dataIn: array<Byte>, dataOut: array<Byte>,
                         offsetData: nat, off1: nat, ghost c: MS.BlockCipher, ghost inp: seq<Byte>, ghost out0: seq<Byte>,
                         ghost k: nat, ghost k1: nat)
    requires CS.HasRoundKey(ksch, nr) && c == MS.AesBlockCipher(ksch, nr)
    requires state.Length == 16 && state != dataIn && state != dataOut && dataIn != dataOut
    requires offsetData == 16 * k && k1 == k + 1 && off1 == offsetData + 16
    requires 16 * k1 <= |inp| && off1 <= |out0| == dataOut.Length
    requires offsetData + 16 <= dataIn.Length && dataIn[offsetData..offsetData + 16] == MS.BlockAt(inp, k)
    requires dataOut[..] == MS.EcbDecrypt(c, inp, k) + out0[offsetData..]
    modifies state, dataOut
    ensures dataOut[..] == MS.EcbDecrypt(c, inp, k1) + out0[off1..]
  {
    ghost var before := dataOut[..];
    TH.QwordCopy(dataIn, offsetData, state, 0);
    assert state[..] == MS.BlockAt(inp, k);
    AesMode.BlockDecrypt(state, ksch, nr);
    ghost var b: Block := state[..];
    TH.QwordCopy(state, 0, dataOut, offsetData);
    AppendBlock(before, MS.EcbDecrypt(c, inp, k), out0, b, dataOut[..], offsetData, off1);
    EcbDecryptNext(c, inp, k, k1);
  }

  /** The nonce becomes the encryption of the input block at offsetData xored with the nonce. */
  method CbcEncryptInto(ksch: seq<Word>, nr: nat, state: array<Byte>, nonce: array<Byte>, dataIn: array<Byte>,
                        offsetData: nat, ghost c: MS.BlockCipher, ghost blk: Block)
    requires CS.HasRoundKey(ksch, nr) && c == MS.AesBlockCipher(ksch, nr)
    requires state.Length == 16 && nonce.Length == 16 && state != nonce && state != dataIn && nonce != dataIn
    requires offsetData + 16 <= dataIn.Length && dataIn[offsetData..offsetData + 16] == blk
    modifies state, nonce
    ensures nonce[..] == c.encrypt(Xor(blk, old(nonce[..])))
  {
    TH.QwordCopy(dataIn, offsetData, state, 0);
    assert state[..] == blk;
    TH.QwordXor(state, nonce);
    XorCommutes(old(nonce[..]), blk);
    AesMode.BlockEncrypt(nonce, ksch, nr);
  }

  /** The state becomes the decryption of the input block at offsetData xored with the nonce. */
  method CbcDecryptInto(ksch: seq<Word>, nr: nat, state: array<Byte>, nonce: array<Byte>, dataIn: array<Byte>,
                        offsetData: nat, ghost c: MS.BlockCipher, ghost blk: Block)
    requires CS.HasRoundKey(ksch, nr) && c == MS.AesBlockCipher(ksch, nr)
    requires state.Length == 16 && nonce.Length == 16 && state != nonce && state != dataIn && nonce != dataIn
    requires offsetData + 16 <= dataIn.Length && dataIn[offsetData..offsetData + 16] == blk
    modifies state
    ensures state[..] == Xor(c.decrypt(blk), nonce[..])
  {
    TH.QwordCopy(dataIn, offsetData, state, 0);
    assert state[..] == blk;
    AesMode.BlockDecrypt(state, ksch, nr);
    TH.QwordXor(nonce, state);
  }

  /**
   * One turn of cbc_encrypt's loop: the input block is xored into the
   * nonce, which is enciphered, written out, and chained into the next block.
   */
  method CbcEncryptBlock(ksch: seq<Word>, nr: nat, state: array<Byte>, nonce: array<Byte>,
                         dataIn: array<Byte>, dataOut: array<Byte>, offsetData: nat, off1: nat, ghost c: MS.BlockCipher,
                         ghost iv: Block, ghost inp: seq<Byte>, ghost out0: seq<Byte>, ghost k: nat, ghost k1: nat)
    requires CS.HasRoundKey(ksch, nr) && c == MS.AesBlockCipher(ksch, nr)
    requires state.Length == 16 && nonce.Length == 16 && state != nonce
    requires state != dataIn && state != dataOut && nonce != dataIn && nonce != dataOut && dataIn != dataOut
    requires offsetData == 16 * k && k1 == k + 1 && off1 == offsetData + 16
    requires 16 * k1 <= |inp| && off1 <= |out0| == dataOut.Length
    requires offsetData + 16 <= dataIn.Length && dataIn[offsetData..offsetData + 16] == MS.BlockAt(inp, k)
    requires dataOut[..] == MS.CbcEncrypt(c, iv, inp, k) + out0[offsetData..]
    requires nonce[..] == MS.ChainValue(iv, MS.CbcEncrypt(c, iv, inp, k), k)
    modifies state, nonce, dataOut
    ensures dataOut[..] == MS.CbcEncrypt(c, iv, inp, k1) + out0[off1..]
    ensures nonce[..] == MS.ChainValue(iv, MS.CbcEncrypt(c, iv, inp, k1), k1)
  {
    ghost var before := dataOut[..];
    ghost var r := MS.CbcEncrypt(c, iv, inp, k);
    CbcEncryptInto(ksch, nr, state, nonce, dataIn, offsetData, c, MS.BlockAt(inp, k));
    ghost var b: Block := nonce[..];
    TH.QwordCopy(nonce, 0, dataOut, offsetData);
    AppendBlock(before, r, out0, b, dataOut[..], offsetData, off1);
    CbcEncryptNext(c, iv, inp, k, k1);
    MS.BlocksOfAppend(r, b);
    ChainNext(iv, r + b, k, k1);
  }

  /**
   * One turn of cbc_decrypt's loop: the input block is deciphered, xored
   * with the nonce and written out, and becomes the next nonce.
   */
  method CbcDecryptBlock(ksch: seq<Word>, nr: nat, state: array<Byte>, nonce: array<Byte>,
                         dataIn: array<Byte>, dataOut: array<Byte>, offsetData: nat, off1: nat, ghost c: MS.BlockCipher,
                         ghost iv: Block, ghost inp: seq<Byte>, ghost out0: seq<Byte>, ghost k: nat, ghost k1: nat)
    requires CS.HasRoundKey(ksch, nr) && c == MS.AesBlockCipher(ksch, nr)
    requires state.Length == 16 && nonce.Length == 16 && state != nonce
    requires state != dataIn && state != dataOut && nonce != dataIn && nonce != dataOut && dataIn != dataOut
    requires offsetData == 16 * k && k1 == k + 1 && off1 == offsetData + 16
    requires 16 * k1 <= |inp| && off1 <= |out0| == dataOut.Length
    requires offsetData + 16 <= dataIn.Length && dataIn[offsetData..offsetData + 16] == MS.BlockAt(inp, k)
    requires dataOut[..] == MS.CbcDecrypt(c, iv, inp, k) + out0[offsetData..]
    requires nonce[..] == MS.ChainValue(iv, inp, k)
    modifies state, nonce, dataOut
    ensures dataOut[..] == MS.CbcDecrypt(c, iv, inp, k1) + out0[off1..]
    ensures nonce[..] == MS.ChainValue(iv, inp, k1)
  {
    ghost var before := dataOut[..];
    CbcDecryptInto(ksch, nr, state, nonce, dataIn, offsetData, c, MS.BlockAt(inp, k));
    ghost var b: Block := state[..];
    TH.QwordCopy(state, 0, dataOut, offsetData);
    AppendBlock(before, MS.CbcDecrypt(c, iv, inp, k), out0, b, dataOut[..], offsetData, off1);
    CbcDecryptNext(c, iv, inp, k, k1);
    TH.QwordCopy(dataIn, offsetData, nonce, 0);
    assert nonce[..] == MS.BlockAt(inp, k);
    ChainNext(iv, inp, k, k1);
  }

  /**
   * One turn of ctr_encrypt's loop: the counter is copied into the state
   * and incremented, and the state's keystream block is xored onto
   * blockSize bytes of the input at offsetData.
   */
  method CtrBlock(ksch: seq<Word>, nr: nat, counter: array<Byte>, state: array<Byte>, plainBlock: array<Byte>,
                  dataIn: array<Byte>, dataOut: array<Byte>, offsetData: nat, blockSize: nat,
                  ghost c: MS.BlockCipher, ghost icb0: Block, ghost inp: seq<Byte>, ghost out0: seq<Byte>,
                  ghost k: nat, ghost k1: nat, ghost d0: nat, ghost d1: nat)
    requires CS.HasRoundKey(ksch, nr) && c == MS.AesBlockCipher(ksch, nr)
    requires counter.Length == 16 && state.Length == 16 && plainBlock.Length == 16
    requires counter != state && counter != plainBlock && state != plainBlock
    requires dataIn != counter && dataIn != state && dataIn != plainBlock
    requires dataOut != counter && dataOut != state && dataOut != plainBlock && dataOut != dataIn
    requires dataIn[..] == inp && |out0| == dataOut.Length
    requires offsetData == 16 * k && k1 == k + 1 && d0 == offsetData && d1 == offsetData + blockSize
    requires blockSize <= 16 && d1 <= dataIn.Length && d1 <= dataOut.Length
    requires counter[..] == MS.CounterAt(icb0, 16, k)
    requires dataOut[..] == MS.KeyStreamXor(c, icb0, 16, inp[..d0]) + out0[d0..]
    modifies counter, state, plainBlock, dataOut
    ensures dataIn[..] == inp
    ensures counter[..] == MS.CounterAt(icb0, 16, k1)
    ensures dataOut[..] == MS.KeyStreamXor(c, icb0, 16, inp[..d1]) + out0[d1..]
  {
    ghost var before := dataOut[..];
    TH.QwordCopy(counter, 0, state, 0);
    assert state[..] == MS.CounterAt(icb0, 16, k);
    MS.CounterNext(icb0, 16, k);
    assert MS.CounterAt(icb0, 16, k1) == TH.IncSuffix(MS.CounterAt(icb0, 16, k), 16);
    AesMode.IncCounter(counter);
    AesMode.XorKeyBlock(ksch, nr, state, plainBlock, dataIn, dataOut, offsetData, blockSize, inp);
    AesMode.KeyStreamStep(c, icb0, 16, inp, out0, k, offsetData, blockSize, d0, d1, before, dataOut[..]);
  }

  // ---------------------------------------------------------------------------
  // The steps of gcm_crypt
  // ---------------------------------------------------------------------------

  /** Ssizes: 0^32 || [aadBits]_32 || 0^32 || [dataBits]_32, written with copyUIntToBuf into a zero block. */
  method SizesBlock(aadBits: Word, dataBits: Word) returns (s: array<Byte>)
    ensures fresh(s) && s.Length == 16 && s[..] == MS.LengthBlock(aadBits, dataBits)
  {
    s := new Byte[16](_ => 0);
    TH.CopyUIntToBuf(aadBits, s, 4);
    TH.CopyUIntToBuf(dataBits, s, 12);
  }

  /** H = CIPH_K(0^128), the hash subkey. */
  method HashSubkeyBlock(ksch: seq<Word>, nr: nat) returns (h: array<Byte>)
    requires CS.HasRoundKey(ksch, nr)
    ensures fresh(h) && h.Length == 16 && h[..] == MS.HashSubkey(MS.AesBlockCipher(ksch, nr))
  {
    h := new Byte[16](_ => 0);
    assert h[..] == ZERO_BLOCK;
    AesMode.BlockEncrypt(h, ksch, nr);
  }

  /** J0: the IV followed by 0^31 || 1 for a 12-byte IV, otherwise GHASH of the padded IV and its length. */
  method PreCounter(ksch: seq<Word>, nr: nat, h: array<Byte>, iv: seq<Byte>, ivSize: U32) returns (j: array<Byte>)
    requires CS.HasRoundKey(ksch, nr) && h.Length == 16 && h[..] == MS.HashSubkey(MS.AesBlockCipher(ksch, nr))
    requires ivSize < 256 && IvFits(GCM, iv, ivSize)
    ensures fresh(j) && j.Length == 16 && j[..] == MS.PreCounterBlock(MS.AesBlockCipher(ksch, nr), iv, ivSize)
  {
    if ivSize == 12 {
      j := new Byte[16](_ => 0);
      Mem.CopyFrom(j, 0, iv, 0, 12);
      j[15] := j[15] | 0x01;
      assert j[..] == iv[..12] + [0, 0, 0, 1];
    } else {
      var rightPart := SizesBlock(0, MS.BitLength(ivSize));
      j := new Byte[16](_ => 0);
      RoundedBlocks(ivSize);
      AesMode.Ghash(h, [], 0, rightPart, iv, BlockRoundedSize(ivSize), j);
    }
  }

  /** H, J0 and inc32(J0): the blocks gcm_crypt derives from the key and the IV before GCTR. */
  method GcmCounters(ksch: seq<Word>, nr: nat, iv: seq<Byte>, ivSize: U32)
    returns (h: array<Byte>, j: array<Byte>, j0: array<Byte>)
    requires CS.HasRoundKey(ksch, nr) && ivSize < 256 && IvFits(GCM, iv, ivSize)
    ensures fresh(h) && fresh(j) && fresh(j0) && h != j && h != j0 && j != j0
    ensures h.Length == 16 && j.Length == 16 && j0.Length == 16
    ensures h[..] == MS.HashSubkey(MS.AesBlockCipher(ksch, nr))
    ensures j0[..] == MS.PreCounterBlock(MS.AesBlockCipher(ksch, nr), iv, ivSize) && j[..] == TH.IncSuffix(j0[..], 4)
  {
    h := HashSubkeyBlock(ksch, nr);
    j := PreCounter(ksch, nr, h, iv, ivSize);
    j0 := new Byte[16];
    TH.QwordCopy(j, 0, j0, 0);
    AesMode.Inc32(j);
  }

  /** The memset of gcm_crypt: zeros after the first n bytes of buf, up to the next block boundary. */
  method ZeroFill(buf: array<Byte>, n: nat)
    requires n + MS.ZeroTail(n) <= buf.Length
    modifies buf
    ensures buf[..] == MS.PadZeros(old(buf[..]), n) + old(buf[n + MS.ZeroTail(n)..])
  {
    if n % 16 != 0 {
      var extraZeros := 16 - n % 16;
      Mem.Fill(buf, n, 0, extraZeros);
    }
    assert buf[..] == MS.PadZeros(old(buf[..]), n) + old(buf[n + MS.ZeroTail(n)..]);
  }

  /**
   * The tag half of gcm_crypt: the length block, the zeros after the n
   * bytes of ciphertext in buf, GHASH over the AAD and those blocks, and
   * GCTR with J0.
   */
  method TagOver(ksch: seq<Word>, nr: nat, h: array<Byte>, j0: array<Byte>, aad: seq<Byte>, aadSize: U32,
                 buf: array<Byte>, n: U32) returns (t: array<Byte>)
    requires CS.HasRoundKey(ksch, nr) && h.Length == 16 && j0.Length == 16 && buf != h && buf != j0
    requires h[..] == MS.HashSubkey(MS.AesBlockCipher(ksch, nr))
    requires aadSize <= 0x1_0000_0000 - 16 && 16 * MS.BlockCount(aadSize) <= |aad|
    requires n <= 0x1_0000_0000 - 16 && n + MS.ZeroTail(n) <= buf.Length
    modifies buf
    ensures fresh(t) && t.Length == 16
    ensures buf[..] == MS.PadZeros(old(buf[..]), n) + old(buf[n + MS.ZeroTail(n)..])
    ensures t[..] == MS.GcmTag(MS.AesBlockCipher(ksch, nr), j0[..], aad, aadSize, MS.PadZeros(old(buf[..]), n), n)
  {
    var sOut := new Byte[16](_ => 0);
    var sSizes := SizesBlock(MS.BitLength(aadSize), MS.BitLength(n));
    ZeroFill(buf, n);
    RoundedBlocks(aadSize);
    RoundedBlocks(n);
    MS.BlockCountFits(n);
    AesMode.Ghash(h, aad, BlockRoundedSize(aadSize), sSizes, buf[..], BlockRoundedSize(n), sOut);
    t := new Byte[16](_ => 0);
    AesMode.Gctr(ksch, nr, j0, sOut, t, 16);
    assert sOut[..16] == sOut[..];
    GcmTagPrefix(MS.AesBlockCipher(ksch, nr), j0[..], aad, aadSize, buf[..], MS.PadZeros(old(buf[..]), n), n);
  }

  /** Zero-padding reads only the first n bytes. */
  lemma PadZerosPrefix(a: seq<Byte>, b: seq<Byte>, n: nat)
    requires n <= |a| && n <= |b| && a[..n] == b[..n]
    ensures MS.PadZeros(a, n) == MS.PadZeros(b, n)
  {
  }

  /** The output buffer after encryption: the ciphertext, the tag over its zero-padded copy, and what followed. */
  lemma SealLayout(ct: seq<Byte>, rest: seq<Byte>, n: nat, t: Block, x: seq<Byte>, y: seq<Byte>)
    requires |ct| == n && 16 <= |rest|
    requires x == MS.PadZeros(ct + rest, n) + (ct + rest)[n + MS.ZeroTail(n)..]
    requires y == x[..n] + t[0..16] + x[n + 16..]
    ensures y == ct + t + rest[16..]
  {
    assert x[..n] == ct;
    assert x[n + 16..] == rest[16..];
  }

  /** The encrypting path of gcm_crypt: C = GCTR(inc32(J0), P) into dataOut, then the tag after it. */
  method GcmSealInto(ksch: seq<Word>, nr: nat, iv: seq<Byte>, ivSize: U32, aad: seq<Byte>, aadSize: U32,
                     dataIn: array<Byte>, dataOut: array<Byte>, n: U32)
    requires CS.HasRoundKey(ksch, nr) && ivSize < 256 && IvFits(GCM, iv, ivSize)
    requires aadSize <= 0x1_0000_0000 - 16 && 16 * MS.BlockCount(aadSize) <= |aad|
    requires dataIn != dataOut && n <= dataIn.Length && n <= 0x1_0000_0000 - 32 && n + 16 <= dataOut.Length
    modifies dataOut
    ensures dataOut[..] == MS.GcmSeal(MS.AesBlockCipher(ksch, nr), iv, ivSize, aad, aadSize, dataIn[..n])
                           + old(dataOut[n + 16..])
  {
    ghost var c := MS.AesBlockCipher(ksch, nr);
    ghost var out0 := dataOut[..];
    var h, j, j0 := GcmCounters(ksch, nr, iv, ivSize);
    AesMode.Gctr(ksch, nr, j, dataIn, dataOut, n);
    ghost var ct := MS.KeyStreamXor(c, j[..], 4, dataIn[..n]);
    ghost var mid := dataOut[..];
    var t := TagOver(ksch, nr, h, j0, aad, aadSize, dataOut, n);
    ghost var x := dataOut[..];
    Mem.Copy(dataOut, n, t, 0, 16);
    PadZerosPrefix(mid, ct, n);
    SealLayout(ct, out0[n..], n, t[..], x, dataOut[..]);
  }

  /**
   * The decrypting path of gcm_crypt: the tag is the last 16 bytes of
   * dataIn, P = GCTR(inc32(J0), C) goes to dataOut whether or not the tag
   * matches, and the zeros that end C on a block boundary are written into
   * dataIn, over the front of the tag.
   */
  method GcmOpenInto(ksch: seq<Word>, nr: nat, iv: seq<Byte>, ivSize: U32, aad: seq<Byte>, aadSize: U32,
                     dataIn: array<Byte>, dataOut: array<Byte>, dataSize: U32) returns (ok: bool)
    requires CS.HasRoundKey(ksch, nr) && ivSize < 256 && IvFits(GCM, iv, ivSize)
    requires aadSize <= 0x1_0000_0000 - 16 && 16 * MS.BlockCount(aadSize) <= |aad|
    requires dataIn != dataOut && 16 <= dataSize <= dataIn.Length && dataSize - 16 <= dataOut.Length
    modifies dataIn, dataOut
    ensures var n := dataSize - 16;
      var o := MS.GcmOpen(MS.AesBlockCipher(ksch, nr), iv, ivSize, aad, aadSize, old(dataIn[..n]), old(dataIn[n..dataSize]));
      ok == o.0 && dataOut[..] == o.1 + old(dataOut[n..])
      && dataIn[..] == MS.PadZeros(old(dataIn[..]), n) + old(dataIn[n + MS.ZeroTail(n)..])
  {
    var n := dataSize - 16;
    var tag := new Byte[16];
    Mem.Copy(tag, 0, dataIn, n, 16);
    ghost var inp := dataIn[..n];
    var h, j, j0 := GcmCounters(ksch, nr, iv, ivSize);
    AesMode.Gctr(ksch, nr, j, dataIn, dataOut, n);
    ghost var mid := dataIn[..];
    var t := TagOver(ksch, nr, h, j0, aad, aadSize, dataIn, n);
    ok := tag[..] == t[..];
    PadZerosPrefix(mid, inp, n);
  }

  // ---------------------------------------------------------------------------
  // Padding
  // ---------------------------------------------------------------------------

  /** What applyPadding makes of data: PKCS7 appends getPaddingSize bytes of that value; NONE leaves it. */
  function Padded(data: seq<Byte>, p: Padding): seq<Byte>
    requires |data| < 0x1_0000_0000
  {
    if p == PKCS7 then data + PadBytes(PaddingSize(|data|, p)) else data
  }

  /**
   * Padding is undone by reading the padding length back: the corrected
   * getRevPaddingSize on the padded data (followed by anything, such as a
   * GCM tag) gives the number of bytes that were added, and the padded data
   * is as long as getPlainInBufferSize says.
   */
  lemma PaddedStrip(data: seq<Byte>, m: Mode, rest: seq<Byte>)
    requires |data| + 47 < 0x1_0000_0000
    ensures var q := Padded(data, PKCS7);
      |q| == PlainInBufferSize(|data|, PKCS7, m) && q[..|data|] == data
      && RevPaddingSizeChecked(q + rest, |q| + (if m == GCM then 16 else 0), PKCS7, m) == Some(|q| - |data|)
  {
    var pad := PaddingSize(|data|, PKCS7);
    PaddingSizeBounds(|data|, PKCS7);
    RevPaddingOfPadded(data, |data|, m, rest);
  }

  /** Without padding nothing is added. */
  lemma PaddedNone(data: seq<Byte>)
    requires |data| < 0x1_0000_0000
    ensures Padded(data, NONE) == data && PaddingSize(|data|, NONE) == 0
  {
  }

  /** The buffer sizes getPlainInBufferSize and getCipherOutBufferSize give hold the padded data and what cipher writes for it. */
  lemma PaddedFits(n: U32, p: Padding, m: Mode)
    requires n + 47 < 0x1_0000_0000 && p != UnlistedPadding
    ensures var q := n + PaddingSize(n, p);
      q + 16 < 0x1_0000_0000 && PlainInBufferSize(n, p, m) == q
      && EncryptedSize(m, q) <= CipherOutBufferSize(n, p, m)
  {
    PaddingSizeBounds(n, p);
    var q := n + PaddingSize(n, p);
    assert 16 * (q / 16) <= q;
  }

  /** The buffer size getPlainOutBufferSize gives holds what decipher writes. */
  lemma OutputFits(n: U32, p: Padding, m: Mode)
    requires m == GCM ==> 16 <= n
    ensures DecryptedSize(m, n) <= PlainOutBufferSize(n, p, m)
  {
  }

  // ---------------------------------------------------------------------------
  // Keys
  // ---------------------------------------------------------------------------

  /** The shape of keySize, Nk, Nr, key and key schedule after initialize, for one of the three key sizes. */
  ghost predicate KeyMaterial(keySize: nat, nk: nat, nr: nat, key: seq<Byte>, ks: seq<Word>)
  {
    (nk == 4 || nk == 6 || nk == 8) && nr == nk + 6 && keySize == 4 * nk && |key| == keySize
    && |ks| == ScheduleLength(nr) && CS.CanExpand(key, nk, ScheduleLength(nr))
  }

  /** The key schedule initialize builds: keyExpansion into a fresh array of Nb (Nr + 1) words. */
  method ExpandKey(key: seq<Byte>, nk: nat, nr: nat) returns (ks: seq<Word>)
    requires (nk == 4 || nk == 6 || nk == 8) && nr == nk + 6 && |key| == 4 * nk
    ensures KeyMaterial(4 * nk, nk, nr, key, ks) && ks == CS.KeySchedule(key, nk, ScheduleLength(nr))
  {
    var len := ScheduleLength(nr);
    var keys := new Word[len];
    AC.KeyExpansion(key, keys, len, nk);
    ks := keys[..];
  }

  /**
   * What initialize makes of its arguments: the key size's parameters, a
   * copy of the key and its schedule, with the mode and the padding.
   */
  ghost function Initialized(pKeySize: KeySize, pMode: Mode, pPadding: bool, pKey: seq<Byte>): (k: Keying)
    requires KeyParamsOf(pKeySize).keySize <= |pKey|
    ensures k.hasInit && KeyMaterial(k.keySize, k.nk, k.nr, k.key, k.keySchedule)
    ensures k.mode == pMode && k.padding == (if pPadding then PKCS7 else NONE)
    ensures KeyParams(k.keySize, k.nk, k.nr) == KeyParamsOf(pKeySize) && k.key == pKey[..k.keySize]
  {
    var p := KeyParamsOf(pKeySize);
    Keying(true, pMode, if pPadding then PKCS7 else NONE, p.keySize, p.nk, p.nr, pKey[..p.keySize],
           CS.KeySchedule(pKey[..p.keySize], p.nk, ScheduleLength(p.nr)))
  }

  /** The key half of initialize: the key copied and expanded as keyExpansion does. */
  method LoadKey(pKeySize: KeySize, pMode: Mode, pPadding: bool, pKey: array<Byte>) returns (k: Keying)
    requires KeyParamsOf(pKeySize).keySize <= pKey.Length
    ensures k == Initialized(pKeySize, pMode, pPadding, pKey[..])
  {
    var params := KeyParamsOf(pKeySize);
    var key := pKey[..params.keySize];
    assert key == pKey[..][..params.keySize];
    var ks := ExpandKey(key, params.nk, params.nr);
    k := Keying(true, pMode, if pPadding then PKCS7 else NONE, params.keySize, params.nk, params.nr, key, ks);
  }

  // ---------------------------------------------------------------------------
  // The session
  // ---------------------------------------------------------------------------

  /** The fields initialize sets and the other members leave alone. */
  datatype Keying = Keying(hasInit: bool, mode: Mode, padding: Padding, keySize: nat, nk: nat, nr: nat,
                           key: seq<Byte>, keySchedule: seq<Word>)

  /**
   * The AES object: key parameters, key schedule, IV and AAD. Heap buffers the
   * source allocates are sequences here; ivSize and aadSize are
   * the sizes given to setIv and setAad, the buffers hold them rounded up.
   */
  class Aes {
    var hasInit: bool
    var mode: Mode
    var padding: Padding
    var keySize: nat
    var nk: nat
    var nr: nat
    var key: seq<Byte>
    var keySchedule: seq<Word>
    var iv: seq<Byte>
    var ivSize: U32
    var aad: seq<Byte>
    var aadSize: U32

    ghost function Keys(): Keying
      reads this
    {
      Keying(hasInit, mode, padding, keySize, nk, nr, key, keySchedule)
    }

    /** After initialize: one of the three key sizes, and the schedule keyExpansion computes for the key. */
    ghost predicate Keyed()
      reads this
    {
      hasInit && KeyMaterial(keySize, nk, nr, key, keySchedule)
    }

    /** The IV and AAD buffers are as setIv and setAad leave them: rounded up in GCM, as given otherwise. */
    ghost predicate Valid()
      reads this
    {
      (hasInit ==> Keyed()) && padding != UnlistedPadding
      && |iv| == (if mode == GCM then BlockRoundedSize(ivSize) else ivSize) && (mode == GCM ==> ivSize < 256)
      && |aad| == BlockRoundedSize(aadSize) && aadSize <= 0x1_0000_0000 - 16
    }

    /** The block cipher of the session's key schedule. */
    ghost function KeyCipher(): (c: MS.BlockCipher)
      reads this
      requires Keyed()
      ensures CS.HasRoundKey(keySchedule, nr) && MS.Inverts(c)
    {
      assert |keySchedule| == ScheduleLength(nr);
      MS.AesBlockCipher(keySchedule, nr)
    }

    /** The AAD buffer holds every block ghash reads of it. */
    lemma AadFits()
      requires Valid()
      ensures 16 * MS.BlockCount(aadSize) == |aad| && MS.BlockCount(aadSize) == AesMode.Blocks(BlockRoundedSize(aadSize))
    {
      RoundedBlocks(aadSize);
    }

    /** The IV buffer holds what the current mode reads of it, once an IV of a whole block is set outside GCM. */
    lemma IvFitsMode()
      requires Valid() && (mode == CBC || mode == CTR ==> 16 <= |iv|)
      ensures IvFits(mode, iv, ivSize)
    {
      if mode == GCM {
        RoundedBlocks(ivSize);
      }
    }

    constructor()
      ensures Valid() && !hasInit && iv == [] && ivSize == 0 && aad == [] && aadSize == 0
    {
      hasInit := false;
      mode := ECB;
      padding := NONE;
      keySize, nk, nr := 0, 0, 0;
      key, keySchedule := [], [];
      iv, ivSize := [], 0;
      aad, aadSize := [], 0;
    }

    /**
     * initialize: fails only on a missing key. Otherwise it takes the key
     * size's parameters (128-bit ones for a value no case names), copies the
     * key, expands it, and forgets any IV and AAD.
     */
    method Initialize(pKeySize: KeySize, pMode: Mode, pPadding: bool, pKey: array?<Byte>) returns (ok: bool)
      requires Valid()
      requires pKey != null ==> KeyParamsOf(pKeySize).keySize <= pKey.Length
      modifies this
      ensures Valid()
      ensures pKey == null ==> !ok && unchanged(this)
      ensures pKey != null ==>
        ok && Keys() == Initialized(pKeySize, pMode, pPadding, pKey[..])
        && iv == [] && ivSize == 0 && aad == [] && aadSize == 0
    {
      if pKey == null {
        return false;
      }
      var k := LoadKey(pKeySize, pMode, pPadding, pKey);
      Install(k);
      ok := true;
    }

    /** The assignments that end initialize: the key material and settings, and no IV or AAD. */
    method Install(k: Keying)
      requires k.hasInit && KeyMaterial(k.keySize, k.nk, k.nr, k.key, k.keySchedule) && k.padding != UnlistedPadding
      modifies this
      ensures Valid() && Keys() == k && iv == [] && ivSize == 0 && aad == [] && aadSize == 0
    {
      mode, padding := k.mode, k.padding;
      keySize, nk, nr, key, keySchedule := k.keySize, k.nk, k.nr, k.key, k.keySchedule;
      ivSize, aadSize, iv, aad := 0, 0, [], [];
      hasInit := true;
    }

    /**
     * setIv: fails before initialize, and in GCM for a size outside 1..255.
     * In GCM the IV is zero-padded to a whole number of blocks.
     */
    method SetIv(pIv: array<Byte>, pIvSize: U32) returns (ok: bool)
      requires Valid() && pIvSize <= pIv.Length && pIvSize <= 0x1_0000_0000 - 16
      modifies this
      ensures Valid() && Keys() == old(Keys()) && aad == old(aad) && aadSize == old(aadSize)
      ensures ok <==> old(hasInit) && (mode == GCM ==> IsGcmIvSizeValid(pIvSize))
      ensures !ok ==> iv == old(iv) && ivSize == old(ivSize)
      ensures ok ==> ivSize == pIvSize && iv == if mode == GCM then MS.PadZeros(pIv[..], pIvSize) else pIv[..pIvSize]
    {
      if !hasInit {
        return false;
      }
      if mode == GCM && !IsGcmIvSizeValid(pIvSize) {
        return false;
      }
      RoundedBlocks(pIvSize);
      var roundedSize := BlockRoundedSize(pIvSize);
      var buf := new Byte[roundedSize];
      ivSize := pIvSize;
      Mem.Copy(buf, 0, pIv, 0, pIvSize);
      if mode == GCM && roundedSize != ivSize {
        Mem.Fill(buf, ivSize, 0, roundedSize - ivSize);
      }
      if mode == GCM {
        iv := buf[..];
        assert iv == MS.PadZeros(pIv[..], pIvSize);
      } else {
        iv := buf[..pIvSize];
      }
      ok := true;
    }

    /**
     * setAad: fails before initialize and does nothing outside GCM. In GCM a
     * missing or empty AAD is no AAD; otherwise it is zero-padded to a whole
     * number of blocks.
     */
    method SetAad(pAad: array?<Byte>, pAadSize: U32) returns (ok: bool)
      requires Valid() && (pAad != null ==> pAadSize <= pAad.Length) && pAadSize <= 0x1_0000_0000 - 16
      modifies this
      ensures Valid() && Keys() == old(Keys()) && iv == old(iv) && ivSize == old(ivSize)
      ensures ok <==> old(hasInit)
      ensures !ok || mode != GCM ==> aad == old(aad) && aadSize == old(aadSize)
      ensures ok && mode == GCM ==>
        if pAad == null || pAadSize == 0 then aad == [] && aadSize == 0
        else aadSize == pAadSize && aad == MS.PadZeros(pAad[..], pAadSize)
    {
      if !hasInit {
        return false;
      }
      if mode == GCM {
        if pAad == null || pAadSize == 0 {
          aadSize := 0;
          aad := [];
        } else {
          aadSize := pAadSize;
          RoundedBlocks(aadSize);
          var roundedSize := BlockRoundedSize(aadSize);
          var buf := new Byte[roundedSize];
          Mem.Copy(buf, 0, pAad, 0, aadSize);
          if roundedSize != aadSize {
            Mem.Fill(buf, aadSize, 0, roundedSize - aadSize);
          }
          aad := buf[..];
          assert aad == MS.PadZeros(pAad[..], pAadSize);
        }
      }
      ok := true;
    }

    /** applyPadding: appends the padding after dataSize bytes and returns the new size. */
    method ApplyPadding(data: array<Byte>, dataSize: U32) returns (newSize: U32)
      requires Valid() && dataSize + 31 < 0x1_0000_0000
      requires dataSize + PaddingSize(dataSize, padding) <= data.Length
      ensures newSize == dataSize + PaddingSize(dataSize, padding)
      modifies data
      ensures data[..] == Padded(old(data[..dataSize]), padding) + old(data[newSize..])
    {
      PaddingSizeBounds(dataSize, padding);
      if padding == NONE {
        return dataSize;
      }
      var paddingSize := PaddingSize(dataSize, padding);
      if padding == PKCS7 {
        Mem.Fill(data, dataSize, ByteOf(paddingSize), paddingSize);
      }
      newSize := dataSize + paddingSize;
      assert data[..] == Padded(old(data[..dataSize]), padding) + old(data[newSize..]);
    }
  
    // -------------------------------------------------------------------------
    // Modes of operation
    // -------------------------------------------------------------------------

    /** ecb_encrypt: every whole block of the input, enciphered on its own. */
    method EcbEncrypt(dataIn: array<Byte>, dataOut: array<Byte>, dataSize: U32) returns (ok: bool)
      requires Keyed() && dataIn != dataOut
      requires dataSize <= dataIn.Length && 16 * (dataSize / 16) <= dataOut.Length
      modifies dataOut
      ensures ok
      ensures dataOut[..] == MS.EcbEncrypt(KeyCipher(), dataIn[..dataSize], dataSize / 16)
                             + old(dataOut[16 * (dataSize / 16)..])
    {
      ghost var c := KeyCipher();
      ghost var inp := dataIn[..dataSize];
      ghost var out0 := dataOut[..];
      var state := new Byte[16];
      var offsetData := 0;
      var i := 0;
      var nBlocks := dataSize / 16;
      while i < nBlocks
        modifies state, dataOut
        invariant i <= nBlocks && offsetData == 16 * i
        invariant dataOut[..] == MS.EcbEncrypt(c, inp, i) + out0[offsetData..]
      {
        BlockOfPrefix(dataIn[..], dataSize, i, offsetData);
        var i1 := i + 1;
        var off1 := offsetData + 16;
        EcbEncryptBlock(keySchedule, nr, state, dataIn, dataOut, offsetData, off1, c, inp, out0, i, i1);
        i := i1;
        offsetData := off1;
      }
      assert i == dataSize / 16;
      assert out0[offsetData..] == old(dataOut[16 * (dataSize / 16)..]);
      ok := true;
    }

    /** ecb_decrypt: every whole block of the input, deciphered on its own. */
    method EcbDecrypt(dataIn: array<Byte>, dataOut: array<Byte>, dataSize: U32) returns (ok: bool)
      requires Keyed() && dataIn != dataOut
      requires dataSize <= dataIn.Length && 16 * (dataSize / 16) <= dataOut.Length
      modifies dataOut
      ensures ok
      ensures dataOut[..] == MS.EcbDecrypt(KeyCipher(), dataIn[..dataSize], dataSize / 16)
                             + old(dataOut[16 * (dataSize / 16)..])
    {
      ghost var c := KeyCipher();
      ghost var inp := dataIn[..dataSize];
      ghost var out0 := dataOut[..];
      var state := new Byte[16];
      var offsetData := 0;
      var i := 0;
      var nBlocks := dataSize / 16;
      while i < nBlocks
        modifies state, dataOut
        invariant i <= nBlocks && offsetData == 16 * i
        invariant dataOut[..] == MS.EcbDecrypt(c, inp, i) + out0[offsetData..]
      {
        BlockOfPrefix(dataIn[..], dataSize, i, offsetData);
        var i1 := i + 1;
        var off1 := offsetData + 16;
        EcbDecryptBlock(keySchedule, nr, state, dataIn, dataOut, offsetData, off1, c, inp, out0, i, i1);
        i := i1;
        offsetData := off1;
      }
      assert i == dataSize / 16;
      assert out0[offsetData..] == old(dataOut[16 * (dataSize / 16)..]);
      ok := true;
    }

    /** cbc_encrypt: the whole blocks of the input, chained from the first 16 bytes of the IV. */
    method CbcEncrypt(dataIn: array<Byte>, dataOut: array<Byte>, dataSize: U32) returns (ok: bool)
      requires Keyed() && dataIn != dataOut && 16 <= |iv|
      requires dataSize <= dataIn.Length && 16 * (dataSize / 16) <= dataOut.Length
      modifies dataOut
      ensures ok
      ensures dataOut[..] == MS.CbcEncrypt(KeyCipher(), iv[..16], dataIn[..dataSize], dataSize / 16)
                             + old(dataOut[16 * (dataSize / 16)..])
    {
      ghost var c := KeyCipher();
      ghost var ivb: Block := iv[..16];
      ghost var inp := dataIn[..dataSize];
      ghost var out0 := dataOut[..];
      var state := new Byte[16];
      var nonce := new Byte[16];
      TH.QwordLoad(iv, 0, nonce);
      assert nonce[..] == MS.ChainValue(ivb, MS.CbcEncrypt(c, ivb, inp, 0), 0);
      var offsetData := 0;
      var i := 0;
      var nBlocks := dataSize / 16;
      while i < nBlocks
        modifies state, nonce, dataOut
        invariant i <= nBlocks && offsetData == 16 * i
        invariant dataOut[..] == MS.CbcEncrypt(c, ivb, inp, i) + out0[offsetData..]
        invariant nonce[..] == MS.ChainValue(ivb, MS.CbcEncrypt(c, ivb, inp, i), i)
      {
        BlockOfPrefix(dataIn[..], dataSize, i, offsetData);
        var i1 := i + 1;
        var off1 := offsetData + 16;
        CbcEncryptBlock(keySchedule, nr, state, nonce, dataIn, dataOut, offsetData, off1, c, ivb, inp, out0, i, i1);
        i := i1;
        offsetData := off1;
      }
      assert i == dataSize / 16;
      assert out0[offsetData..] == old(dataOut[16 * (dataSize / 16)..]);
      ok := true;
    }

    /** cbc_decrypt: each whole block deciphered and xored with the block before it, or the IV. */
    method CbcDecrypt(dataIn: array<Byte>, dataOut: array<Byte>, dataSize: U32) returns (ok: bool)
      requires Keyed() && dataIn != dataOut && 16 <= |iv|
      requires dataSize <= dataIn.Length && 16 * (dataSize / 16) <= dataOut.Length
      modifies dataOut
      ensures ok
      ensures dataOut[..] == MS.CbcDecrypt(KeyCipher(), iv[..16], dataIn[..dataSize], dataSize / 16)
                             + old(dataOut[16 * (dataSize / 16)..])
    {
      ghost var c := KeyCipher();
      ghost var ivb: Block := iv[..16];
      ghost var inp := dataIn[..dataSize];
      ghost var out0 := dataOut[..];
      var state := new Byte[16];
      var nonce := new Byte[16];
      TH.QwordLoad(iv, 0, nonce);
      assert nonce[..] == MS.ChainValue(ivb, inp, 0);
      var offsetData := 0;
      var i := 0;
      var nBlocks := dataSize / 16;
      while i < nBlocks
        modifies state, nonce, dataOut
        invariant i <= nBlocks && offsetData == 16 * i
        invariant dataOut[..] == MS.CbcDecrypt(c, ivb, inp, i) + out0[offsetData..]
        invariant nonce[..] == MS.ChainValue(ivb, inp, i)
      {
        BlockOfPrefix(dataIn[..], dataSize, i, offsetData);
        var i1 := i + 1;
        var off1 := offsetData + 16;
        CbcDecryptBlock(keySchedule, nr, state, nonce, dataIn, dataOut, offsetData, off1, c, ivb, inp, out0, i, i1);
        i := i1;
        offsetData := off1;
      }
      assert i == dataSize / 16;
      assert out0[offsetData..] == old(dataOut[16 * (dataSize / 16)..]);
      ok := true;
    }

    /**
     * ctr_encrypt: the input xored with the keystream of the counters that
     * start at the first 16 bytes of the IV and count over all 128 bits; the
     * last block may be partial.
     */
    method CtrEncrypt(dataIn: array<Byte>, dataOut: array<Byte>, dataSize: U32) returns (ok: bool)
      requires Keyed() && dataIn != dataOut && 16 <= |iv|
      requires dataSize <= dataIn.Length && dataSize <= dataOut.Length
      modifies dataOut
      ensures ok
      ensures dataOut[..] == MS.KeyStreamXor(KeyCipher(), iv[..16], 16, dataIn[..dataSize]) + old(dataOut[dataSize..])
    {
      ghost var c := KeyCipher();
      ghost var icb0: Block := iv[..16];
      ghost var inp := dataIn[..];
      ghost var out0 := dataOut[..];
      var counter := new Byte[16];
      var state := new Byte[16];
      var plainBlock := new Byte[16];
      TH.QwordLoad(iv, 0, counter);
      var offsetData := 0;
      var i := 0;
      var nBlocks := dataSize / 16;
      var lastBlock := dataSize % 16;
      var blockSize := 16;
      if lastBlock != 0 {
        nBlocks := nBlocks + 1;
        if nBlocks == 1 {
          blockSize := lastBlock;
        }
      }
      ghost var done := 0;
      assert dataOut[..] == MS.KeyStreamXor(c, icb0, 16, inp[..done]) + out0[done..];
      while i < nBlocks
        modifies counter, state, plainBlock, dataOut
        invariant 0 <= i <= nBlocks && offsetData == 16 * i
        invariant nBlocks == (if lastBlock == 0 then dataSize / 16 else dataSize / 16 + 1)
        invariant lastBlock == dataSize % 16
        invariant i < nBlocks ==> done == offsetData && 0 < blockSize <= 16 && offsetData + blockSize <= dataSize
        invariant i + 1 < nBlocks ==> blockSize == 16 && offsetData + 16 < dataSize
        invariant i + 1 == nBlocks ==> offsetData + blockSize == dataSize
        invariant i == nBlocks ==> done == dataSize
        invariant dataIn[..] == inp
        invariant counter[..] == MS.CounterAt(icb0, 16, i)
        invariant done <= dataSize && dataOut[..] == MS.KeyStreamXor(c, icb0, 16, inp[..done]) + out0[done..]
      {
        var i1 := i + 1;
        ghost var done1 := offsetData + blockSize;
        CtrBlock(keySchedule, nr, counter, state, plainBlock, dataIn, dataOut, offsetData, blockSize,
                 c, icb0, inp, out0, i, i1, done, done1);
        done := done1;
        i := i1;
        if i == nBlocks - 1 && lastBlock != 0 {
          blockSize := lastBlock;
        }
        offsetData := offsetData + 16;
      }
      assert inp[..done] == dataIn[..dataSize];
      ok := true;
    }

    /** ctr_decrypt repeats ctr_encrypt line for line: counter mode is its own inverse. */
    method CtrDecrypt(dataIn: array<Byte>, dataOut: array<Byte>, dataSize: U32) returns (ok: bool)
      requires Keyed() && dataIn != dataOut && 16 <= |iv|
      requires dataSize <= dataIn.Length && dataSize <= dataOut.Length
      modifies dataOut
      ensures ok
      ensures dataOut[..] == MS.KeyStreamXor(KeyCipher(), iv[..16], 16, dataIn[..dataSize]) + old(dataOut[dataSize..])
    {
      ok := CtrEncrypt(dataIn, dataOut, dataSize);
    }
  
    // -------------------------------------------------------------------------
    // GCM
    // -------------------------------------------------------------------------

    /**
     * gcm_crypt. Encrypting writes C = GCTR(inc32(J0), P) and the tag after
     * it. Decrypting takes the tag from the last 16 bytes of the input,
     * writes the plaintext whether or not the tag matches, and reports
     * whether it does; the zeros that end the ciphertext on a block boundary
     * for GHASH are written into the input buffer, over the front of the tag.
     */
    method GcmCrypt(dataIn: array<Byte>, dataOut: array<Byte>, dataSize: U32, decrypt: bool) returns (ok: bool)
      requires Keyed() && Valid() && mode == GCM && dataIn != dataOut
      requires dataSize <= dataIn.Length && dataSize <= 0x1_0000_0000 - 32
      requires !decrypt ==> dataSize + 16 <= dataOut.Length
      requires decrypt ==> 16 <= dataSize && dataSize - 16 <= dataOut.Length
      modifies dataIn, dataOut
      ensures IvFits(GCM, iv, ivSize) && 16 * MS.BlockCount(aadSize) <= |aad|
      ensures !decrypt ==>
        ok && dataIn[..] == old(dataIn[..])
        && dataOut[..] == MS.GcmSeal(KeyCipher(), iv, ivSize, aad, aadSize, old(dataIn[..dataSize]))
                          + old(dataOut[dataSize + 16..])
      ensures decrypt ==>
        var n := dataSize - 16;
        var o := MS.GcmOpen(KeyCipher(), iv, ivSize, aad, aadSize, old(dataIn[..n]), old(dataIn[n..dataSize]));
        ok == o.0 && dataOut[..] == o.1 + old(dataOut[n..])
        && dataIn[..] == MS.PadZeros(old(dataIn[..]), n) + old(dataIn[n + MS.ZeroTail(n)..])
    {
      IvFitsMode();
      AadFits();
      if decrypt {
        ok := GcmOpenInto(keySchedule, nr, iv, ivSize, aad, aadSize, dataIn, dataOut, dataSize);
      } else {
        GcmSealInto(keySchedule, nr, iv, ivSize, aad, aadSize, dataIn, dataOut, dataSize);
        ok := true;
      }
    }

    /** gcm_encrypt */
    method GcmEncrypt(dataIn: array<Byte>, dataOut: array<Byte>, dataSize: U32) returns (ok: bool)
      requires Keyed() && Valid() && mode == GCM && dataIn != dataOut
      requires dataSize <= dataIn.Length && dataSize <= 0x1_0000_0000 - 32 && dataSize + 16 <= dataOut.Length
      modifies dataIn, dataOut
      ensures IvFits(GCM, iv, ivSize) && 16 * MS.BlockCount(aadSize) <= |aad|
      ensures ok && dataIn[..] == old(dataIn[..])
      ensures dataOut[..] == MS.GcmSeal(KeyCipher(), iv, ivSize, aad, aadSize, old(dataIn[..dataSize]))
                             + old(dataOut[dataSize + 16..])
    {
      ok := GcmCrypt(dataIn, dataOut, dataSize, false);
    }

    /** gcm_decrypt */
    method GcmDecrypt(dataIn: array<Byte>, dataOut: array<Byte>, dataSize: U32) returns (ok: bool)
      requires Keyed() && Valid() && mode == GCM && dataIn != dataOut
      requires 16 <= dataSize <= dataIn.Length && dataSize <= 0x1_0000_0000 - 32 && dataSize - 16 <= dataOut.Length
      modifies dataIn, dataOut
      ensures IvFits(GCM, iv, ivSize) && 16 * MS.BlockCount(aadSize) <= |aad|
      ensures var n := dataSize - 16;
        var o := MS.GcmOpen(KeyCipher(), iv, ivSize, aad, aadSize, old(dataIn[..n]), old(dataIn[n..dataSize]));
        ok == o.0 && dataOut[..] == o.1 + old(dataOut[n..])
        && dataIn[..] == MS.PadZeros(old(dataIn[..]), n) + old(dataIn[n + MS.ZeroTail(n)..])
    {
      ok := GcmCrypt(dataIn, dataOut, dataSize, true);
    }

    // -------------------------------------------------------------------------
    // cipher and decipher
    // -------------------------------------------------------------------------

    /**
     * cipher: pads the plaintext in place, then encrypts it in the session's
     * mode. Fails, touching nothing, before initialize or without both
     * buffers; fails after padding in a mode outside the four.
     */
    method Cipher(dataIn: array?<Byte>, dataOut: array?<Byte>, dataSize: U32) returns (ok: bool)
      requires Valid() && (dataIn != null && dataOut != null ==> dataIn != dataOut)
      requires dataSize + 47 < 0x1_0000_0000
      requires dataIn != null ==> PlainInBufferSize(dataSize, padding, mode) <= dataIn.Length
      requires dataOut != null ==> CipherOutBufferSize(dataSize, padding, mode) <= dataOut.Length
      requires hasInit && (mode == CBC || mode == CTR) ==> 16 <= |iv|
      modifies dataIn, dataOut
      ensures !hasInit || dataIn == null || dataOut == null ==>
        !ok && (dataIn != null ==> dataIn[..] == old(dataIn[..])) && (dataOut != null ==> dataOut[..] == old(dataOut[..]))
      ensures hasInit && dataIn != null && dataOut != null ==>
        IvFits(mode, iv, ivSize) && 16 * MS.BlockCount(aadSize) <= |aad|
        && var p := Padded(old(dataIn[..dataSize]), padding);
        var r := Encrypted(KeyCipher(), mode, iv, ivSize, aad, aadSize, p);
        |p| <= dataIn.Length && dataIn[..] == p + old(dataIn[|p|..])
        && ok == r.0 && |r.1| <= dataOut.Length && dataOut[..] == r.1 + old(dataOut[|r.1|..])
    {
      if !hasInit || dataIn == null || dataOut == null {
        return false;
      }
      PaddedFits(dataSize, padding, mode);
      var n := ApplyPadding(dataIn, dataSize);
      IvFitsMode();
      AadFits();
      if mode == ECB {
        ok := EcbEncrypt(dataIn, dataOut, n);
      } else if mode == CBC {
        ok := CbcEncrypt(dataIn, dataOut, n);
      } else if mode == CTR {
        ok := CtrEncrypt(dataIn, dataOut, n);
      } else if mode == GCM {
        ok := GcmEncrypt(dataIn, dataOut, n);
      } else {
        ok := false;
      }
    }

    /**
     * decipher: decrypts in the session's mode; the padding stays in the
     * output. Fails, touching nothing, before initialize or without both
     * buffers, and in a mode outside the four. In GCM, ok is whether the tag
     * matches, and the input buffer is overwritten as gcm_crypt does.
     */
    method Decipher(dataIn: array?<Byte>, dataOut: array?<Byte>, dataSize: U32) returns (ok: bool)
      requires Valid() && (dataIn != null && dataOut != null ==> dataIn != dataOut)
      requires dataSize <= 0x1_0000_0000 - 32
      requires dataIn != null ==> CipherInBufferSize(dataSize, padding, mode) <= dataIn.Length
      requires dataOut != null ==> PlainOutBufferSize(dataSize, padding, mode) <= dataOut.Length
      requires hasInit && (mode == CBC || mode == CTR) ==> 16 <= |iv|
      requires hasInit && mode == GCM ==> 16 <= dataSize
      modifies dataIn, dataOut
      ensures !hasInit || dataIn == null || dataOut == null ==>
        !ok && (dataIn != null ==> dataIn[..] == old(dataIn[..])) && (dataOut != null ==> dataOut[..] == old(dataOut[..]))
      ensures hasInit && dataIn != null && dataOut != null ==>
        IvFits(mode, iv, ivSize) && 16 * MS.BlockCount(aadSize) <= |aad|
        && var r := Decrypted(KeyCipher(), mode, iv, ivSize, aad, aadSize, old(dataIn[..dataSize]));
        ok == r.0 && |r.1| <= dataOut.Length && dataOut[..] == r.1 + old(dataOut[|r.1|..])
        && dataIn[..] == if mode != GCM then old(dataIn[..])
                         else MS.PadZeros(old(dataIn[..]), dataSize - 16) + old(dataIn[dataSize - 16 + MS.ZeroTail(dataSize - 16)..])
    {
      if !hasInit || dataIn == null || dataOut == null {
        return false;
      }
      IvFitsMode();
      AadFits();
      OutputFits(dataSize, padding, mode);
      if mode == GCM {
        ghost var d := dataIn[..dataSize];
        var n := dataSize - 16;
        assert d[..|d| - 16] == dataIn[..n] && d[|d| - 16..] == dataIn[n..dataSize];
        ok := GcmDecrypt(dataIn, dataOut, dataSize);
      } else {
        ok := DecipherBlocks(dataIn, dataOut, dataSize);
      }
    }

    /** The branches of decipher for ECB, CBC, CTR and a mode outside the four, which fails. */
    method DecipherBlocks(dataIn: array<Byte>, dataOut: array<Byte>, dataSize: U32) returns (ok: bool)
      requires Keyed() && mode != GCM && dataIn != dataOut
      requires IvFits(mode, iv, ivSize) && 16 * MS.BlockCount(aadSize) <= |aad|
      requires dataSize <= dataIn.Length && DecryptedSize(mode, dataSize) <= dataOut.Length
      modifies dataOut
      ensures var r := Decrypted(KeyCipher(), mode, iv, ivSize, aad, aadSize, dataIn[..dataSize]);
        ok == r.0 && dataOut[..] == r.1 + old(dataOut[|r.1|..])
    {
      if mode == ECB {
        ok := EcbDecrypt(dataIn, dataOut, dataSize);
      } else if mode == CBC {
        ok := CbcDecrypt(dataIn, dataOut, dataSize);
      } else if mode == CTR {
        ok := CtrDecrypt(dataIn, dataOut, dataSize);
      } else {
        ok := false;
      }
    }
  }
}
