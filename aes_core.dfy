/**
 * The pure members of class AES in aes_core.cpp: the enumerations and the
 * names they print as, the key-size parameters initialize picks, the GCM IV
 * size check and the buffer-size arithmetic. Sizes are `unsigned int`, so a
 * sum or a difference of sizes is taken modulo 2^32 (Wrap).
 */
module AesCore {
  import opened Bytes

  /** KEY_SIZE; an enum value outside the three named ones is UnlistedKeySize. */
  datatype KeySize = S128 | S192 | S256 | UnlistedKeySize

  /** MODE */
  datatype Mode = ECB | CBC | CTR | GCM | UnlistedMode

  /** PADDING */
  datatype Padding = NONE | PKCS7 | UnlistedPadding

  /** Unsigned 32-bit arithmetic: the value modulo 2^32. */
  function Wrap(x: int): (r: U32)
    ensures 0 <= x < 0x1_0000_0000 ==> r == x
    ensures -0x1_0000_0000 <= x < 0 ==> r == x + 0x1_0000_0000
  {
    x % 0x1_0000_0000
  }

  // ---------------------------------------------------------------------------
  // Enumerations
  // ---------------------------------------------------------------------------

  /** getKeySizeFromEnum: the key size in bits, -1 for an unlisted value. */
  function KeySizeBits(k: KeySize): int
  {
    match k
    case S128 => 128
    case S192 => 192
    case S256 => 256
    case UnlistedKeySize => -1
  }

  /** The key length in bytes, Nk and Nr that initialize sets. */
  datatype KeyParams = KeyParams(keySize: nat, nk: nat, nr: nat)

  /**
   * The switch of initialize: 16/4/10, 24/6/12 or 32/8/14, and the 128-bit
   * parameters for a value no case names.
   */
  function KeyParamsOf(k: KeySize): (p: KeyParams)
    ensures (p.nk == 4 || p.nk == 6 || p.nk == 8) && p.keySize == 4 * p.nk && p.nr == p.nk + 6
    ensures k != UnlistedKeySize ==> 8 * p.keySize == KeySizeBits(k)
    ensures k == UnlistedKeySize ==> 8 * p.keySize == KeySizeBits(S128)
  {
    match k
    case S192 => KeyParams(24, 6, 12)
    case S256 => KeyParams(32, 8, 14)
    case _ => KeyParams(16, 4, 10)
  }

  /** keySchedule.len = Nb * (Nr + 1): one four-word round key per round, and one more. */
  function ScheduleLength(nr: nat): nat
  {
    4 * (nr + 1)
  }

  /** getModeFromEnum */
  function ModeName(m: Mode): string
  {
    match m
    case ECB => "ECB"
    case CBC => "CBC"
    case CTR => "CTR"
    case GCM => "GCM"
    case UnlistedMode => "ERROR"
  }

  /** getPaddingFromEnum */
  function PaddingName(p: Padding): string
  {
    match p
    case PKCS7 => "PKCS7"
    case NONE => "None"
    case UnlistedPadding => "ERROR"
  }

  /** Distinct listed modes print differently, and no listed mode prints as "ERROR". */
  lemma ModeNameInjective(m1: Mode, m2: Mode)
    requires m1 != UnlistedMode && m2 != UnlistedMode
    ensures ModeName(m1) == ModeName(m2) <==> m1 == m2
    ensures ModeName(m1) != "ERROR"
  {
    if m1 != m2 {
      assert ModeName(m1)[0] != ModeName(m2)[0] || ModeName(m1)[1] != ModeName(m2)[1];
    }
  }

  /** The two listed paddings print differently, and neither as "ERROR". */
  lemma PaddingNameInjective(p1: Padding, p2: Padding)
    requires p1 != UnlistedPadding && p2 != UnlistedPadding
    ensures PaddingName(p1) == PaddingName(p2) <==> p1 == p2
    ensures PaddingName(p1) != "ERROR"
  {
    if p1 != p2 {
      assert |PaddingName(p1)| != |PaddingName(p2)|;
    }
  }

  /** isGcmIvSizeValid */
  predicate IsGcmIvSizeValid(n: U32)
  {
    0 < n < 256
  }

  // ---------------------------------------------------------------------------
  // Sizes
  // ---------------------------------------------------------------------------

  /**
   * getPaddingSize: nothing without padding or for empty data, a whole block
   * when the data ends on a block boundary, and otherwise the rest of the
   * last block plus one more block.
   */
  function PaddingSize(n: U32, p: Padding): (pad: U32)
  {
    if p == NONE || n == 0 then 0
    else if n % BLOCK_SIZE == 0 then BLOCK_SIZE
    else BLOCK_SIZE + (BLOCK_SIZE - n % BLOCK_SIZE)
  }

  /** The padding fills the data up to a block boundary with 16 to 31 bytes, or is empty. */
  lemma PaddingSizeBounds(n: U32, p: Padding)
    ensures var pad := PaddingSize(n, p);
      if p == NONE || n == 0 then pad == 0
      else 16 <= pad <= 31 && (n + pad) % 16 == 0 && (n % 16 == 0 <==> pad == 16)
  {
  }

  /** getBlockRoundedSize: n rounded up to a multiple of 16, modulo 2^32. */
  function BlockRoundedSize(n: U32): U32
  {
    if n == 0 then 0
    else if n % BLOCK_SIZE == 0 then n
    else Wrap(n + (BLOCK_SIZE - n % BLOCK_SIZE))
  }

  /**
   * Away from the top of the unsigned range, the rounded size is the least
   * multiple of 16 not below n, and rounding again changes nothing.
   */
  lemma BlockRoundedSizeLeast(n: U32, m: nat)
    requires n <= 0x1_0000_0000 - 16
    ensures var r := BlockRoundedSize(n);
      r % 16 == 0 && n <= r < n + 16 && BlockRoundedSize(r) == r
      && (m % 16 == 0 && n <= m ==> r <= m)
  {
    var r := BlockRoundedSize(n);
    if n % 16 != 0 {
      assert r == n + (16 - n % 16);
      if m % 16 == 0 && n <= m {
        assert m / 16 > n / 16;
      }
    }
  }

  /** getPlainInBufferSize: the data and its padding. */
  function PlainInBufferSize(n: U32, p: Padding, m: Mode): U32
  {
    Wrap(n + PaddingSize(n, p))
  }

  /** getCipherOutBufferSize: the padded data, and the 16-byte tag in GCM. */
  function CipherOutBufferSize(n: U32, p: Padding, m: Mode): U32
  {
    var padding := PaddingSize(n, p);
    var size := if m == GCM then Wrap(n + BLOCK_SIZE) else n;
    Wrap(size + padding)
  }

  /** getCipherInBufferSize */
  function CipherInBufferSize(n: U32, p: Padding, m: Mode): U32
  {
    n
  }

  /** getPlainOutBufferSize: the tag is taken off in GCM. */
  function PlainOutBufferSize(n: U32, p: Padding, m: Mode): U32
  {
    if m == GCM then Wrap(n - BLOCK_SIZE) else n
  }

  /**
   * The output of encryption is the padded input, and 16 bytes more in GCM;
   * deciphering a buffer that size needs room for the padded input again.
   */
  lemma BufferSizesRoundTrip(n: U32, p: Padding, m: Mode)
    requires n + 47 < 0x1_0000_0000
    ensures CipherOutBufferSize(n, p, m) == PlainInBufferSize(n, p, m) + (if m == GCM then 16 else 0)
    ensures PlainOutBufferSize(CipherInBufferSize(CipherOutBufferSize(n, p, m), p, m), p, m) == PlainInBufferSize(n, p, m)
  {
    PaddingSizeBounds(n, p);
  }

  // ---------------------------------------------------------------------------
  // Removing the padding
  // ---------------------------------------------------------------------------

  /**
   * getRevPaddingSize as written: the byte before the tag, at an index
   * computed in unsigned arithmetic. None stands for a read outside the
   * buffer.
   */
  function RevPaddingSize(data: seq<Byte>, n: U32, p: Padding, m: Mode): Option<nat>
  {
    if p == NONE || n == 0 then Some(0)
    else
      var size := if m == GCM then Wrap(n - BLOCK_SIZE) else n;
      var index := Wrap(size - 1);
      if index < |data| then Some(data[index] as nat) else None
  }

  /**
   * A GCM buffer that holds only its tag (an empty plaintext, which gets no
   * padding) makes the index wrap to 2^32 - 1.
   */
  lemma RevPaddingSizeOfTagOnly(data: seq<Byte>)
    requires |data| < 0x1_0000_0000 - 1
    ensures RevPaddingSize(data, 16, PKCS7, GCM) == None
  {
  }

  /** getRevPaddingSize as intended: nothing to remove when no data precedes the tag. */
  function RevPaddingSizeChecked(data: seq<Byte>, n: U32, p: Padding, m: Mode): Option<nat>
  {
    if p == NONE || n == 0 || (m == GCM && n <= BLOCK_SIZE) then Some(0)
    else
      var size := if m == GCM then n - BLOCK_SIZE else n;
      if size - 1 < |data| then Some(data[size - 1] as nat) else None
  }

  /** The bytes applyPadding appends with PKCS7: pad copies of the byte pad. */
  function PadBytes(pad: nat): (s: seq<Byte>)
    requires pad < 256
    ensures |s| == pad && forall j | 0 <= j < pad :: s[j] as nat == pad
  {
    seq(pad, _ => ByteOf(pad))
  }

  /**
   * Reading the padding back: on data padded by applyPadding (followed by
   * the tag in GCM), the corrected getRevPaddingSize returns getPaddingSize
   * of the original length.
   */
  lemma RevPaddingOfPadded(plain: seq<Byte>, n: U32, m: Mode, rest: seq<Byte>)
    requires |plain| == n && n + 31 + 16 < 0x1_0000_0000
    ensures var pad := PaddingSize(n, PKCS7);
      var size := n + pad + (if m == GCM then 16 else 0);
      RevPaddingSizeChecked(plain + PadBytes(pad) + rest, size, PKCS7, m) == Some(pad)
  {
    var pad := PaddingSize(n, PKCS7);
    PaddingSizeBounds(n, PKCS7);
    if 0 < n {
      var data := plain + PadBytes(pad) + rest;
      assert data[n + pad - 1] == PadBytes(pad)[pad - 1];
    }
  }

  /**
   * The two readings differ only on a GCM size of 1 to 16 bytes, where the
   * written one subtracts the tag's length from a size that does not hold it.
   */
  lemma RevPaddingSizeAgrees(data: seq<Byte>, n: U32, p: Padding, m: Mode)
    requires !(m == GCM && 0 < n <= BLOCK_SIZE)
    ensures RevPaddingSize(data, n, p, m) == RevPaddingSizeChecked(data, n, p, m)
  {
  }

  /**
   * On data padded by applyPadding with at least one byte of plaintext, the
   * written getRevPaddingSize already returns getPaddingSize of the original
   * length: the tag-only buffer is the one input where it goes wrong.
   */
  lemma RevPaddingSizeOfPadded(plain: seq<Byte>, n: U32, m: Mode, rest: seq<Byte>)
    requires |plain| == n && 0 < n && n + 31 + 16 < 0x1_0000_0000
    ensures var pad := PaddingSize(n, PKCS7);
      var size := n + pad + (if m == GCM then 16 else 0);
      RevPaddingSize(plain + PadBytes(pad) + rest, size, PKCS7, m) == Some(pad)
  {
    var pad := PaddingSize(n, PKCS7);
    var size := n + pad + (if m == GCM then 16 else 0);
    RevPaddingOfPadded(plain, n, m, rest);
    RevPaddingSizeAgrees(plain + PadBytes(pad) + rest, size, PKCS7, m);
  }
}
