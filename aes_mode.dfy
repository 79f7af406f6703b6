/**
 * The free functions of aes_mode.cpp: the two counter increments, the
 * multiplication in GF(2^128), GHASH and GCTR of NIST SP 800-38D. Each works
 * in place on 16-byte buffers, as the source does, and is proved to compute
 * the function of ModeSpec it implements.
 */
module AesMode {
  import opened Bytes
  import CS = CipherSpec
  import TH = TypesHelper
  import AC = AesCipher
  import MS = ModeSpec
  import Mem

  // ---------------------------------------------------------------------------
  // The block cipher on a buffer
  // ---------------------------------------------------------------------------

  /** cipherBlock(state, ksch, Nr): the buffer is replaced by its AES encryption. */
  method BlockEncrypt(state: array<Byte>, ksch: seq<Word>, nr: nat)
    requires state.Length == 16 && CS.HasRoundKey(ksch, nr)
    modifies state
    ensures state[..] == MS.AesBlockCipher(ksch, nr).encrypt(old(state[..]))
  {
    ghost var b := state[..];
    AC.CipherBlock(state, ksch, nr);
    MS.EncryptedCells(ksch, nr, b, state[..]);
  }

  /** decipherBlock(state, ksch, Nr): the buffer is replaced by its AES decryption. */
  method BlockDecrypt(state: array<Byte>, ksch: seq<Word>, nr: nat)
    requires state.Length == 16 && CS.HasRoundKey(ksch, nr)
    modifies state
    ensures state[..] == MS.AesBlockCipher(ksch, nr).decrypt(old(state[..]))
  {
    ghost var b := state[..];
    AC.DecipherBlock(state, ksch, nr);
    MS.DecryptedCells(ksch, nr, b, state[..]);
  }

  // ---------------------------------------------------------------------------
  // Counters
  // ---------------------------------------------------------------------------

  /** incCounter: the whole block is a 128-bit big-endian counter, incremented modulo 2^128. */
  method IncCounter(counter: array<Byte>)
    requires counter.Length == 16
    modifies counter
    ensures counter[..] == TH.IncSuffix(old(counter[..]), 16)
    ensures BigEndian(counter[..]) == (BigEndian(old(counter[..])) + 1) % Pow256(16)
  {
    ghost var c0 := counter[..];
    TH.QwordInc(counter, 16);
    MS.IncSuffixValue(c0, 16);
    assert counter[..][0..] == counter[..] && c0[0..] == c0;
  }

  /** inc32: bytes 12 to 15 are a 32-bit big-endian counter, incremented modulo 2^32; bytes 0 to 11 stay. */
  method Inc32(j: array<Byte>)
    requires j.Length == 16
    modifies j
    ensures j[..] == TH.IncSuffix(old(j[..]), 4)
    ensures j[..12] == old(j[..12])
    ensures BigEndian(j[12..]) == (BigEndian(old(j[12..])) + 1) % Pow256(4)
  {
    ghost var j0 := j[..];
    TH.QwordInc(j, 4);
    MS.IncSuffixValue(j0, 4);
    assert j[..][..12] == j[..12] && j[..][12..] == j[12..];
  }

  // ---------------------------------------------------------------------------
  // GF(2^128)
  // ---------------------------------------------------------------------------

  /** Bit `bit` of byte `byte` (bit 7 the most significant) is bit i = 8 byte + 7 - bit of the block. */
  lemma BitIndex(byte: nat, bit: nat, i: nat)
    requires bit <= 7 && i == 8 * byte + 7 - bit
    ensures i / 8 == byte && i % 8 == 7 - bit
  {
    DivModUnique(i, 8, byte, 7 - bit);
  }

  /** The source's BITON test, 0x01 << bit, is the mask of bit 7 - bit counted from the top. */
  lemma ShiftedMask(bit: int)
    requires 0 <= bit <= 7
    ensures (1 as Byte) << bit == MS.BIT_MASK[7 - bit]
  {
    assert bit == 0 || bit == 1 || bit == 2 || bit == 3 || bit == 4 || bit == 5 || bit == 6 || bit == 7;
  }

  /**
   * The body of gmul's inner loop for bit `bit` of byte xi of X: Z ^= V when
   * the bit is on, then V is shifted right and reduced by R when its last
   * bit was set.
   */
  method GmulBit(xi: Byte, bit: int, y: array<Byte>, v: array<Byte>, r: array<Byte>)
    requires 0 <= bit <= 7
    requires y.Length == 16 && v.Length == 16 && r.Length == 16
    requires y != v && y != r && v != r && r[..] == MS.R
    modifies y, v
    ensures y[..] == if xi & MS.BIT_MASK[7 - bit] != 0 then Xor(old(y[..]), old(v[..])) else old(y[..])
    ensures v[..] == MS.VNext(old(v[..]))
  {
    ShiftedMask(bit);
    if xi & ((1 as Byte) << bit) != 0 {
      TH.QwordXor(v, y);
    }
    var carry := v[15] & 1;
    TH.QwordShiftRight(v);
    if carry != 0 {
      TH.QwordXor(r, v);
    }
  }

  /**
   * gmul's inner loop over the bits of byte `byte` of X, most significant
   * first: Z and V advance from bit 8 byte to bit 8 byte + 8 of Algorithm 1.
   */
  method GmulByte(xi: Byte, byte: nat, y: array<Byte>, v: array<Byte>, r: array<Byte>,
                  ghost xs: Block, ghost y0: Block, ghost i0: nat, ghost i8: nat)
    requires byte < 16 && xi == xs[byte] && i0 == 8 * byte && i8 == i0 + 8
    requires y.Length == 16 && v.Length == 16 && r.Length == 16
    requires y != v && y != r && v != r && r[..] == MS.R
    requires y[..] == MS.ZAt(xs, y0, i0) && v[..] == MS.VAt(y0, i0)
    modifies y, v
    ensures y[..] == MS.ZAt(xs, y0, i8) && v[..] == MS.VAt(y0, i8)
  {
    var bit := 7;
    ghost var i: nat := i0;
    while bit >= 0
      invariant -1 <= bit <= 7 && i == 8 * byte + 7 - bit
      invariant y[..] == MS.ZAt(xs, y0, i)
      invariant v[..] == MS.VAt(y0, i)
    {
      BitIndex(byte, bit, i);
      ghost var j: nat := i + 1;
      MS.GMulStep(xs, y0, i, j, y[..], v[..]);
      assert MS.BitOf(xs, i) == (xi & MS.BIT_MASK[7 - bit] != 0);
      GmulBit(xi, bit, y, v, r);
      bit, i := bit - 1, j;
    }
    assert i == i8;
  }

  /**
   * gmul(x, y): y := x * y, Algorithm 1 of SP 800-38D with the bits of x
   * taken from the most significant bit of byte 0 on. Z accumulates in y,
   * V starts as the old y and is shifted right (reduced by R) after each bit.
   */
  method Gmul(x: array<Byte>, y: array<Byte>)
    requires x.Length == 16 && y.Length == 16 && x != y
    modifies y
    ensures y[..] == MS.GMul(x[..], old(y[..]))
  {
    ghost var y0: Block := y[..];
    ghost var xs: Block := x[..];
    var v := new Byte[16];
    var r := new Byte[16](_ => 0);
    r[0] := 0xe1;
    assert r[..] == MS.R;
    TH.QwordCopy(y, 0, v, 0);
    TH.QwordZero(y);
    var byte := 0;
    ghost var i: nat := 0;
    while byte < 16
      invariant 0 <= byte <= 16 && i == 8 * byte
      invariant x[..] == xs && r[..] == MS.R
      invariant y[..] == MS.ZAt(xs, y0, i)
      invariant v[..] == MS.VAt(y0, i)
    {
      ghost var i8: nat := i + 8;
      GmulByte(x[byte], byte, y, v, r, xs, y0, i, i8);
      byte, i := byte + 1, i8;
    }
  }

  // ---------------------------------------------------------------------------
  // GHASH
  // ---------------------------------------------------------------------------

  /** The iterations of `for (i = 0; i < size; i += 16)`: one per started block. */
  function Blocks(size: nat): nat
  {
    (size + 15) / 16
  }

  /** A loop that steps i by 16 from 0 while i < size makes Blocks(size) steps: k is that count. */
  lemma LoopCount(size: nat, k: nat)
    requires 16 * k >= size && (k == 0 || 16 * (k - 1) < size)
    ensures k == Blocks(size)
  {
    if k == 0 {
      assert size == 0;
    } else {
      DivModUnique(size + 15, 16, k, size + 15 - 16 * k);
    }
  }

  /** One step of ghash's loops: Y := (Y xor X_k) * H for block k of src. */
  method GhashStep(h: array<Byte>, src: seq<Byte>, i: nat, y: array<Byte>, tmp: array<Byte>,
                   ghost hs: Block, ghost y0: Block, ghost k: nat, ghost k1: nat)
    requires h.Length == 16 && y.Length == 16 && tmp.Length == 16
    requires h != y && h != tmp && y != tmp && h[..] == hs
    requires i == 16 * k && k1 == k + 1 && 16 * k1 <= |src|
    requires y[..] == MS.GhashBlocks(hs, y0, src, k)
    modifies y, tmp
    ensures y[..] == MS.GhashBlocks(hs, y0, src, k1)
  {
    TH.QwordLoad(src, i, tmp);
    assert tmp[..] == MS.BlockAt(src, k);
    TH.QwordXor(tmp, y);
    Gmul(h, y);
  }

  /**
   * ghash: Y := (Y xor X) * H over the AAD blocks, then the data blocks,
   * then the length block, from Y = 0; the result goes to sOut. Sizes up to
   * 2^32 - 16 keep the unsigned loop index from wrapping.
   */
  method Ghash(h: array<Byte>, aad: seq<Byte>, aadSize: U32, sizes: array<Byte>,
               data: seq<Byte>, dataSize: U32, sOut: array<Byte>)
    requires h.Length == 16 && sizes.Length == 16 && sOut.Length == 16
    requires aadSize <= 0x1_0000_0000 - 16 && dataSize <= 0x1_0000_0000 - 16
    requires 16 * Blocks(aadSize) <= |aad| && 16 * Blocks(dataSize) <= |data|
    modifies sOut
    ensures sOut[..] == MS.Ghash(old(h[..]), aad, Blocks(aadSize), old(sizes[..]), data, Blocks(dataSize))
  {
    ghost var hs: Block := h[..];
    var y := new Byte[16](_ => 0);
    var tmp := new Byte[16];
    assert y[..] == ZERO_BLOCK;
    var i := 0;
    ghost var k := 0;
    while i < aadSize
      modifies y, tmp
      invariant i == 16 * k && (k == 0 || 16 * (k - 1) < aadSize) && 16 * k <= 16 * Blocks(aadSize)
      invariant h[..] == hs
      invariant y[..] == MS.GhashBlocks(hs, ZERO_BLOCK, aad, k)
    {
      ghost var k1 := k + 1;
      GhashStep(h, aad, i, y, tmp, hs, ZERO_BLOCK, k, k1);
      i, k := i + 16, k1;
    }
    LoopCount(aadSize, k);
    ghost var ya: Block := y[..];
    assert ya == MS.GhashBlocks(hs, ZERO_BLOCK, aad, Blocks(aadSize));
    i, k := 0, 0;
    while i < dataSize
      modifies y, tmp
      invariant i == 16 * k && (k == 0 || 16 * (k - 1) < dataSize) && 16 * k <= 16 * Blocks(dataSize)
      invariant h[..] == hs
      invariant y[..] == MS.GhashBlocks(hs, ya, data, k)
    {
      ghost var k1 := k + 1;
      GhashStep(h, data, i, y, tmp, hs, ya, k, k1);
      i, k := i + 16, k1;
    }
    LoopCount(dataSize, k);
    ghost var yd: Block := y[..];
    assert yd == MS.GhashBlocks(hs, ya, data, Blocks(dataSize));
    assert sizes[..] == old(sizes[..]) && h[..] == hs;
    TH.QwordXor(sizes, y);
    assert y[..] == Xor(yd, old(sizes[..]));
    Gmul(h, y);
    ghost var yl: Block := y[..];
    assert yl == MS.GMul(hs, Xor(yd, old(sizes[..])));
    TH.QwordCopy(y, 0, sOut, 0);
    assert sOut[..] == yl;
  }

  // ---------------------------------------------------------------------------
  // GCTR
  // ---------------------------------------------------------------------------

  /** The parts of a string spliced from three pieces. */
  lemma Splice(s: seq<Byte>, a: seq<Byte>, x: seq<Byte>, b: seq<Byte>)
    requires s == a + x + b
    ensures s[..|a|] == a && s[|a|..|a| + |x|] == x && s[..|a| + |x|] == a + x && s[|a| + |x|..] == b
  {
  }

  /** The front of a byte-wise xor is the xor of the fronts. */
  lemma XorFront(a: seq<Byte>, b: seq<Byte>, n: nat)
    requires |a| == |b| && n <= |a|
    ensures Xor(a, b)[..n] == Xor(b[..n], a[..n])
  {
  }

  /**
   * The counter-mode output after k blocks, extended by the next bs bytes of
   * keystream output, is its output after 16 k + bs bytes.
   */
  lemma KeyStreamStep(c: MS.BlockCipher, icb: Block, width: nat, inp: seq<Byte>, out0: seq<Byte>, k: nat, off: nat,
                      bs: nat, d0: nat, d1: nat, before: seq<Byte>, after: seq<Byte>)
    requires 1 <= width <= 16
    requires off == 16 * k && d0 == off && d1 == off + bs && bs <= 16 && d1 <= |inp| && d1 <= |out0|
    requires before == MS.KeyStreamXor(c, icb, width, inp[..d0]) + out0[d0..]
    requires after == before[..off] + Xor(inp[off..off + bs], c.encrypt(MS.CounterAt(icb, width, k))[..bs])
                      + before[off + bs..]
    ensures after == MS.KeyStreamXor(c, icb, width, inp[..d1]) + out0[d1..]
  {
    var front := MS.KeyStreamXor(c, icb, width, inp[..off]);
    assert out0[off..] == out0[off..off + bs] + out0[off + bs..];
    assert before == front + out0[off..off + bs] + out0[off + bs..];
    Splice(before, front, out0[off..off + bs], out0[off + bs..]);
    MS.KeyStreamExtend(c, icb, width, inp, k, bs);
  }

  /**
   * The common tail of one iteration of gctr's and ctr_encrypt's loops: the
   * counter block copied into `state` is enciphered, blockSize bytes of the
   * input at offsetData are xored with it (through plainBlock) and written to
   * the output at offsetData.
   */
  method XorKeyBlock(ksch: seq<Word>, nr: nat, state: array<Byte>, plainBlock: array<Byte>,
                     dataIn: array<Byte>, dataOut: array<Byte>, offsetData: nat, blockSize: nat, ghost inp: seq<Byte>)
    requires CS.HasRoundKey(ksch, nr) && state.Length == 16 && plainBlock.Length == 16
    requires dataIn[..] == inp
    requires state != plainBlock && dataIn != plainBlock && dataIn != state
    requires dataOut != state && dataOut != plainBlock && dataOut != dataIn
    requires blockSize <= 16 && offsetData + blockSize <= dataIn.Length && offsetData + blockSize <= dataOut.Length
    modifies state, plainBlock, dataOut
    ensures dataOut[..] == old(dataOut[..offsetData])
                           + Xor(inp[offsetData..offsetData + blockSize],
                                 MS.AesBlockCipher(ksch, nr).encrypt(old(state[..]))[..blockSize])
                           + old(dataOut[offsetData + blockSize..])
  {
    ghost var e := MS.AesBlockCipher(ksch, nr).encrypt(state[..]);
    BlockEncrypt(state, ksch, nr);
    assert state[..] == e;
    ghost var stale := plainBlock[..];
    Mem.Copy(plainBlock, 0, dataIn, offsetData, blockSize);
    ghost var plain := plainBlock[..];
    ghost var chunk := inp[offsetData..offsetData + blockSize];
    Splice(plain, stale[..0], chunk, stale[blockSize..]);
    TH.QwordXor(plainBlock, state);
    assert state[..] == Xor(e, plain);
    XorFront(e, plain, blockSize);
    ghost var x := state[..blockSize];
    assert x == Xor(chunk, e[..blockSize]);
    assert state[0..blockSize] == x;
    Mem.Copy(dataOut, offsetData, state, 0, blockSize);
    assert dataOut[..] == old(dataOut[..offsetData]) + x + old(dataOut[offsetData + blockSize..]);
  }

  /**
   * One pass of gctr's loop: block k of the output is written and the
   * counter block steps from block k to block k + 1, so the output holds the
   * keystream xor of d1 = 16 k + blockSize input bytes.
   */
  method GctrIteration(ksch: seq<Word>, nr: nat, cb: array<Byte>, cipherCB: array<Byte>, plainBlock: array<Byte>,
                       dataIn: array<Byte>, dataOut: array<Byte>, offsetData: nat, blockSize: nat,
                       ghost c: MS.BlockCipher, ghost icb0: Block, ghost inp: seq<Byte>, ghost out0: seq<Byte>,
                       ghost k: nat, ghost k1: nat, ghost d0: nat, ghost d1: nat)
    requires CS.HasRoundKey(ksch, nr) && c == MS.AesBlockCipher(ksch, nr)
    requires cb.Length == 16 && cipherCB.Length == 16 && plainBlock.Length == 16
    requires cb != cipherCB && cb != plainBlock && cipherCB != plainBlock
    requires dataIn != cb && dataIn != cipherCB && dataIn != plainBlock
    requires dataOut != cb && dataOut != cipherCB && dataOut != plainBlock && dataOut != dataIn
    requires dataIn[..] == inp && |out0| == dataOut.Length
    requires offsetData == 16 * k && k1 == k + 1 && d0 == offsetData && d1 == offsetData + blockSize
    requires blockSize <= 16 && d1 <= dataIn.Length && d1 <= dataOut.Length
    requires cb[..] == MS.CounterAt(icb0, 4, k)
    requires dataOut[..] == MS.KeyStreamXor(c, icb0, 4, inp[..d0]) + out0[d0..]
    modifies cb, cipherCB, plainBlock, dataOut
    ensures dataIn[..] == inp
    ensures cb[..] == MS.CounterAt(icb0, 4, k1)
    ensures dataOut[..] == MS.KeyStreamXor(c, icb0, 4, inp[..d1]) + out0[d1..]
  {
    ghost var before := dataOut[..];
    TH.QwordCopy(cb, 0, cipherCB, 0);
    assert cipherCB[..] == cb[..];
    XorKeyBlock(ksch, nr, cipherCB, plainBlock, dataIn, dataOut, offsetData, blockSize, inp);
    KeyStreamStep(c, icb0, 4, inp, out0, k, offsetData, blockSize, d0, d1, before, dataOut[..]);
    ghost var out1 := dataOut[..];
    MS.CounterNext(icb0, 4, k);
    assert MS.CounterAt(icb0, 4, k1) == TH.IncSuffix(MS.CounterAt(icb0, 4, k), 4);
    Inc32(cb);
    assert dataOut[..] == out1;
  }

  /**
   * gctr(ksch, Nr, icb, dataIn, dataOut, dataSize): dataOut receives dataIn
   * xor the enciphered counter blocks icb, inc32(icb), ...; a final partial
   * block uses the front of its keystream block. Bytes of dataOut past
   * dataSize are left alone.
   */
  method Gctr(ksch: seq<Word>, nr: nat, icb: array<Byte>, dataIn: array<Byte>, dataOut: array<Byte>, dataSize: U32)
    requires CS.HasRoundKey(ksch, nr) && icb.Length == 16
    requires dataIn != dataOut && dataSize <= dataIn.Length && dataSize <= dataOut.Length
    modifies dataOut
    ensures dataOut[..] == MS.KeyStreamXor(MS.AesBlockCipher(ksch, nr), old(icb[..]), 4, dataIn[..dataSize])
                           + old(dataOut[dataSize..])
  {
    ghost var c := MS.AesBlockCipher(ksch, nr);
    ghost var icb0: Block := icb[..];
    ghost var inp := dataIn[..];
    ghost var out0 := dataOut[..];
    var i := 0;
    var offsetData := 0;
    var nBlocks := dataSize / 16;
    var lastBlock := dataSize % 16;
    var blockSize := 16;
    if lastBlock != 0 {
      nBlocks := nBlocks + 1;
      if nBlocks == 1 {
        blockSize := lastBlock;
      }
    }
    var cb := new Byte[16];
    var cipherCB := new Byte[16];
    var plainBlock := new Byte[16];
    TH.QwordCopy(icb, 0, cb, 0);
    ghost var done := 0;
    assert dataOut[..] == MS.KeyStreamXor(c, icb0, 4, inp[..done]) + out0[done..];
    while i < nBlocks
      modifies dataOut, cb, cipherCB, plainBlock
      invariant 0 <= i <= nBlocks && offsetData == 16 * i
      invariant nBlocks == (if lastBlock == 0 then dataSize / 16 else dataSize / 16 + 1)
      invariant lastBlock == dataSize % 16
      invariant i < nBlocks ==> done == offsetData && 0 < blockSize <= 16 && offsetData + blockSize <= dataSize
      invariant i + 1 < nBlocks ==> blockSize == 16 && offsetData + 16 < dataSize
      invariant i + 1 == nBlocks ==> offsetData + blockSize == dataSize
      invariant i == nBlocks ==> done == dataSize
      invariant dataIn[..] == inp
      invariant cb[..] == MS.CounterAt(icb0, 4, i)
      invariant done <= dataSize && dataOut[..] == MS.KeyStreamXor(c, icb0, 4, inp[..done]) + out0[done..]
    {
      var i1 := i + 1;
      ghost var done1 := offsetData + blockSize;
      GctrIteration(ksch, nr, cb, cipherCB, plainBlock, dataIn, dataOut, offsetData, blockSize,
                    c, icb0, inp, out0, i, i1, done, done1);
      done := done1;
      i := i1;
      if i == nBlocks - 1 && lastBlock != 0 {
        blockSize := lastBlock;
      }
      offsetData := offsetData + 16;
    }
    assert inp[..done] == dataIn[..dataSize];
  }
}
