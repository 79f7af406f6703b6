# libaes in Dafny

A model of libaes, the AES library of the cryptomania repository. It covers
the block cipher (key expansion, cipherBlock and decipherBlock with their
round steps), the helpers on 128-bit blocks (`qword_t`) and words, the four
modes of operation (ECB, CBC, CTR and GCM), and the `AES` session object.
The session object is initialized with a key, takes an IV and AAD, pads
with PKCS7, and dispatches cipher and decipher to the mode of the session.
It also covers the conversions of `src/types.cpp`: qwords to and from
bytes, and hex text.

Organisation:

- `bytes.dfy` (Bytes): bytes, words, XOR and big-endian values.
- `types_helper.dfy` (TypesHelper), `types.dfy` (Types), `mem.dfy` (Mem) and
  `hex.dfy` (Hex): the helpers of `types_helper.cpp`, `types.hpp` and
  `types.cpp`, with `memcpy`/`memset` on buffers.
- `lookups.dfy` (Lookups) and `gf.dfy` (Gf): the S-boxes, the round
  constants and arithmetic in GF(2^8).
- `cipher_spec.dfy` (CipherSpec): FIPS-197 on a 4x4 state. It proves that
  each inverse step undoes its step and that Decipher undoes Cipher.
- `aes_cipher.dfy` (AesCipher): the in-place routines of `aes_cipher.cpp`
  on a 16-byte `array`. Each is proved to compute the matching CipherSpec
  function.
- `mode_spec.dfy` (ModeSpec): ECB, CBC, the counter keystream, GF(2^128)
  multiplication, GHASH and GCM as functions on byte strings. It proves the
  round trips (NIST SP 800-38A sections 6.1, 6.2 and 6.5; NIST SP 800-38D
  sections 6 and 7).
- `aes_mode.dfy` (AesMode): `gmul`, `ghash`, `inc32` and `gctr` of
  `aes_mode.cpp` as methods on arrays.
- `aes_core.dfy` (AesCore): the enums, the key-size table, and the padding
  and buffer-size arithmetic of `aes_core.cpp`. Unsigned 32-bit wrap-around
  is written out with `Wrap`.
- `kat.dfy` (KnownAnswer): the AES-128 example of FIPS-197 appendix C.1,
  followed word by word through the key schedule and round by round
  through the cipher.
- `aes_session.dfy` (AesSession): the `AES` class as a Dafny `class Aes`.
  - Its fields are the ones the source updates in place.
  - Its mode members are `ecb_encrypt` … `gcm_decrypt`, with their per-block
    loop bodies as helper methods.
  - `Cipher` and `Decipher` are proved to write what the functions
    `Encrypted` and `Decrypted` compute.
  - `DecryptedEncrypted` proves that deciphering what `Cipher` wrote gives
    the plaintext back.

The session's block cipher is the ghost value `MS.AesBlockCipher(ks, nr)`.
Its encrypt and decrypt are the FIPS-197 Cipher and InvCipher under the key
schedule. The mode specifications are stated for any block cipher whose
decrypt inverts its encrypt.

The class declaration in `libaes/libaes/libaes.hpp` lists mode members with
a `dword_t` size and an IV parameter. The definitions in `aes_core.cpp` and
`aes_mode.cpp` take an `unsigned int` size and read the IV from the object.
The model follows the definitions.

## Model

| member | source | states |
|---|---|---|
| TypesHelper.BitInByte | include/types.hpp:25-28 | for bits >= 0 the result is the least number of bytes holding that many bits (8(b-1) < bits <= 8b) |
| TypesHelper.ByteInBit | include/types.hpp:30-33 | bytes*8 is a multiple of 8, and for bytes >= 0 bitInByte maps it back to bytes |
| TypesHelper.BitInWord | include/types.hpp:35-38 | for bits >= 0 the result is the least number of 32-bit words holding that many bits |
| TypesHelper.PackWordBytes | include/types.hpp:40-43 | bytesToWord of a word's four big-endian bytes is that word |
| TypesHelper.ShiftRightValue | libaes/libaes/types_helper.cpp:66-75 | shifting the 16 bytes right by one bit halves their big-endian value |
| TypesHelper.ShiftLeftValue | libaes/libaes/types_helper.cpp:77-86 | shifting left by one bit doubles the big-endian value modulo 256^n (the top bit is lost) |
| TypesHelper.CopyUIntToBuf | libaes/libaes/types_helper.cpp:26-32 | writes the word's four bytes most significant first at the offset, leaves the rest of the buffer, and bytesToWord reads the word back |
| TypesHelper.QwordZero | libaes/libaes/types_helper.cpp:34-37 | the block becomes sixteen zero bytes |
| TypesHelper.QwordCopy | libaes/libaes/types_helper.cpp:39-57 | the destination holds the 16 source bytes at the offset and is otherwise unchanged |
| TypesHelper.QwordXor | libaes/libaes/types_helper.cpp:60-64 | q2 becomes the bytewise XOR of q2 and q1 |
| TypesHelper.QwordShiftRight | libaes/libaes/types_helper.cpp:66-75 | the block becomes ShiftRight of the old block (each byte takes the low bit of the byte before as its top bit) |
| TypesHelper.QwordShiftLeft | libaes/libaes/types_helper.cpp:77-86 | the block becomes ShiftLeft of the old block (each byte takes the top bit of the byte after as its low bit) |
| TypesHelper.QwordInc | libaes/libaes/types_helper.cpp:89-100 | the block becomes IncSuffix of the old block: its last nBytes bytes, big-endian, plus one with the carry dropped past them |
| TypesHelper.BytesToHexString | libaes/libaes/types_helper.cpp:103-115 | the empty string for a size of zero or below; otherwise two upper-case hex digits per byte, which decode back to the bytes |
| TypesHelper.WordToHexString | libaes/libaes/types_helper.cpp:117-122 | eight upper-case hex digits, which decode back to the word's four big-endian bytes |
| Hex.DecodeHexString | src/types.cpp:22-34 | decoding the hex text of bytesToHexString gives back the bytes |
| Hex.HexValueOfDigit | src/types.cpp:43-51 | every digit written for a value below 16 is a hex digit that std::stoi reads back as that value |
| Hex.HexStringIsUpperCase | src/types.cpp:22-34 | every character of the text is one of 0-9, A-F (the %02X format) |
| Types.QwordToByteArray | src/types.cpp:8-12 | the first 16 bytes become the 128-bit value big-endian, and the rest of the buffer is unchanged |
| Types.ByteArrayToQword | src/types.cpp:14-20 | zero for size <= 0; otherwise the big-endian value of the first size bytes modulo 2^128, which is the exact value for size <= 16 |
| Types.QwordRoundTrip | src/types.cpp:8-20 | qwordToByteArray then byteArrayToQword gives back the value, and byteArrayToQword then qwordToByteArray gives back 16 bytes |
| Types.StringToBytes | src/types.cpp:43-51 | a buffer of half as many bytes as characters; it succeeds exactly for an even-length string of hex digits and then holds the pairs' values; an odd length fails at the NUL past the end |
| Mem.Copy | libaes/libaes/aes_mode.cpp:32 | memcpy between distinct buffers: the destination range holds the source range, and every other byte is unchanged |
| Mem.Fill | libaes/libaes/aes_mode.cpp:382 | memset: the range holds the value, and every other byte is unchanged |
| Mem.CopyFrom | libaes/libaes/aes_core.cpp:84 | memcpy from a buffer the object keeps, the same range contract as Copy |
| Lookups.InvSubByteOfSubByte | libaes/libaes/aes_cipher.cpp:10-18 | INV_SBOX[SBOX[b]] == b for every byte |
| Lookups.SubByteOfInvSubByte | libaes/libaes/aes_cipher.cpp:10-18 | SBOX[INV_SBOX[b]] == b for every byte |
| Lookups.RconIsPowerOfX | libaes/libaes/aes_cipher.cpp:193 | RCON[i] is x^i in GF(2^8) in the top byte of the word |
| Gf.GfMul9 | libaes/libaes/aes_cipher.cpp:136-146 | the shift-and-add loop with a = 0x09 computes 9·x in GF(2^8) |
| Gf.GfMulB | libaes/libaes/aes_cipher.cpp:136-146 | with a = 0x0b it computes 11·x |
| Gf.GfMulD | libaes/libaes/aes_cipher.cpp:136-146 | with a = 0x0d it computes 13·x |
| Gf.GfMulE | libaes/libaes/aes_cipher.cpp:136-146 | with a = 0x0e it computes 14·x |
| Gf.InvMixMix | libaes/libaes/aes_cipher.cpp:93-153 | the matrix of invMixColumns undoes the column mix of mixColumns on every column |
| Gf.MixInvMix | libaes/libaes/aes_cipher.cpp:93-153 | the column mix of mixColumns undoes the matrix of invMixColumns on every column: the two matrices are inverses both ways |
| CipherSpec.InvSubBytesSubBytes | libaes/libaes/aes_cipher.cpp:20-34 | invSubBytes undoes subBytes on every state |
| CipherSpec.SubBytesInvSubBytes | libaes/libaes/aes_cipher.cpp:20-34 | subBytes undoes invSubBytes on every state |
| CipherSpec.InvShiftRowsShiftRows | libaes/libaes/aes_cipher.cpp:36-88 | invShiftRows undoes shiftRows |
| CipherSpec.ShiftRowsInvShiftRows | libaes/libaes/aes_cipher.cpp:36-88 | shiftRows undoes invShiftRows |
| CipherSpec.InvMixColumnsMixColumns | libaes/libaes/aes_cipher.cpp:93-153 | invMixColumns undoes mixColumns on every state |
| CipherSpec.MixColumnsInvMixColumns | libaes/libaes/aes_cipher.cpp:93-153 | mixColumns undoes invMixColumns on every state |
| CipherSpec.AddRoundKeyInvolution | libaes/libaes/aes_cipher.cpp:164-175 | adding the same round key twice gives back the state |
| CipherSpec.InvRoundsRounds | libaes/libaes/aes_cipher.cpp:204-259 | the inverse middle rounds, taken in reverse, undo the middle rounds |
| CipherSpec.DecipherCipher | libaes/libaes/aes_cipher.cpp:204-259 | decipherBlock undoes cipherBlock under the same key schedule and round count |
| AesCipher.SubBytes | libaes/libaes/aes_cipher.cpp:20-26 | the state array becomes SubBytes of the old state (S-box on every cell) |
| AesCipher.InvSubBytes | libaes/libaes/aes_cipher.cpp:28-34 | the state array becomes InvSubBytes of the old state |
| AesCipher.ShiftRows | libaes/libaes/aes_cipher.cpp:36-61 | the state array becomes ShiftRows of the old state (row r rotated left by r) |
| AesCipher.InvShiftRows | libaes/libaes/aes_cipher.cpp:63-88 | the state array becomes InvShiftRows of the old state (row r rotated right by r) |
| AesCipher.MixColumn | libaes/libaes/aes_cipher.cpp:95-111 | column r becomes the FIPS-197 mix of the old column, and the other cells are unchanged |
| AesCipher.MixColumns | libaes/libaes/aes_cipher.cpp:93-112 | the state array becomes MixColumns of the old state |
| AesCipher.GfMultiply | libaes/libaes/aes_cipher.cpp:136-146 | the loop's product is GfMul(a, b) |
| AesCipher.InvMixCell | libaes/libaes/aes_cipher.cpp:130-148 | the cell written is row r of the inverse mix of the cached column |
| AesCipher.InvMixColumns | libaes/libaes/aes_cipher.cpp:117-153 | the state array becomes InvMixColumns of the old state |
| AesCipher.AddRoundKey | libaes/libaes/aes_cipher.cpp:164-175 | the state array becomes the old state XOR round key `round` (column i with word 4·round+i) |
| AesCipher.SubWordBytes | libaes/libaes/aes_cipher.cpp:155-162 | subWord applies the S-box to each of the word's four bytes |
| AesCipher.KeyExpansion | libaes/libaes/aes_cipher.cpp:177-202 | the schedule array becomes KeySchedule(key, Nk, size): the key words, then w[i-Nk] XOR temp |
| AesCipher.CipherBlock | libaes/libaes/aes_cipher.cpp:204-230 | the state array becomes the FIPS-197 Cipher of the old state |
| AesCipher.DecipherBlock | libaes/libaes/aes_cipher.cpp:232-259 | the state array becomes the FIPS-197 InvCipher of the old state |
| ModeSpec.DecryptEncrypt | libaes/libaes/aes_cipher.cpp:204-259 | decipherBlock undoes cipherBlock on a 16-byte buffer |
| KnownAnswer.KeyScheduleListed | libaes/libaes/aes_cipher.cpp:177-202 | keyExpansion of the key 000102...0f gives the 44 words listed in FIPS-197 appendix A.1 |
| KnownAnswer.CipherListed | libaes/libaes/aes_cipher.cpp:204-230 | under those words, cipherBlock takes the state of 00112233...ff through the round states of FIPS-197 appendix C.1 to that of 69c4e0d8...c55a |
| KnownAnswer.AesKnownAnswer | libaes/libaes/aes_cipher.cpp:177-230 | AES-128 with the key 000102...0f enciphers 00112233...ff to 69c4e0d86a7b0430d8cdb78070b4c55a (FIPS-197 appendix C.1), and decipherBlock takes it back |
| ModeSpec.AesBlockCipher | libaes/libaes/aes_cipher.cpp:204-259 | the block cipher of a key schedule encrypts with cipherBlock and decrypts with decipherBlock, and its decrypt inverts its encrypt |
| ModeSpec.EcbEncrypt | libaes/libaes/aes_mode.cpp:21-44 | 16·n bytes; block k is the encryption of input block k |
| ModeSpec.EcbDecrypt | libaes/libaes/aes_mode.cpp:46-69 | 16·n bytes; block k is the decryption of input block k |
| ModeSpec.EcbRoundTrip | libaes/libaes/aes_mode.cpp:21-69 | ECB decryption of the ECB encryption gives back the whole input blocks |
| ModeSpec.CbcEncrypt | libaes/libaes/aes_mode.cpp:74-102 | block k is the encryption of input block k XOR the previous ciphertext block (the IV for block 0) |
| ModeSpec.CbcDecrypt | libaes/libaes/aes_mode.cpp:104-134 | block k is the decryption of ciphertext block k XOR the previous ciphertext block (the IV for block 0) |
| ModeSpec.CbcRoundTrip | libaes/libaes/aes_mode.cpp:74-134 | CBC decryption of the CBC encryption gives back the whole input blocks |
| ModeSpec.CounterValue | libaes/libaes/aes_mode.cpp:13-16 | counter block k keeps the first 16-width bytes, and its last width bytes are the initial ones plus k modulo 256^width (whole block for CTR, 4 bytes for inc32) |
| ModeSpec.KeyStreamInvolution | libaes/libaes/aes_mode.cpp:139-227 | XOR with the counter keystream twice gives back the data, so ctr_decrypt undoes ctr_encrypt |
| ModeSpec.GMulZeroOne | libaes/libaes/aes_mode.cpp:231-256 | the GF(2^128) product of the zero block is zero, and the product of the one block (0x80 0…0) is the other factor |
| ModeSpec.GhashOfConcat | libaes/libaes/aes_mode.cpp:258-285 | ghash over the AAD blocks, then the data blocks, then the lengths block is GHASH of their concatenation from zero |
| ModeSpec.PadZeros | libaes/libaes/aes_mode.cpp:379-383 | the data up to size followed by zeros to the next block boundary |
| ModeSpec.GcmTagIsXor | libaes/libaes/aes_mode.cpp:385-391 | the tag is GHASH(H, A, C, lengths) XOR the encryption of J0 |
| ModeSpec.GcmSeal | libaes/libaes/aes_mode.cpp:334-407 | the output of gcm_encrypt is 16 bytes longer than the plaintext, for the tag after the ciphertext |
| ModeSpec.GcmOpen | libaes/libaes/aes_mode.cpp:334-407 | the plaintext gcm_decrypt writes has as many bytes as the ciphertext |
| ModeSpec.GcmRoundTrip | libaes/libaes/aes_mode.cpp:334-417 | opening a sealed message with its own tag succeeds and gives back the plaintext |
| ModeSpec.GcmOpenRejects | libaes/libaes/aes_mode.cpp:395-400 | opening the ciphertext of a sealed message succeeds exactly when the tag is the one sealed with it |
| AesMode.BlockEncrypt | libaes/libaes/aes_cipher.cpp:204-230 | the state array becomes the session cipher's encryption of the old block |
| AesMode.BlockDecrypt | libaes/libaes/aes_cipher.cpp:232-259 | the state array becomes the session cipher's decryption of the old block |
| AesMode.IncCounter | libaes/libaes/aes_mode.cpp:13-16 | the counter block's big-endian value goes up by one modulo 2^128 |
| AesMode.Inc32 | libaes/libaes/aes_mode.cpp:287-290 | the first 12 bytes are unchanged, and the last 4 go up by one modulo 2^32 |
| AesMode.Gmul | libaes/libaes/aes_mode.cpp:231-256 | y becomes the GF(2^128) product x·y of SP 800-38D Algorithm 1 |
| AesMode.Ghash | libaes/libaes/aes_mode.cpp:258-285 | the output block is GHASH over the rounded AAD blocks, the rounded data blocks and the sizes block |
| AesMode.Gctr | libaes/libaes/aes_mode.cpp:292-329 | the output holds the data XOR the inc32 keystream from icb, and is unchanged past dataSize |
| AesCore.Wrap | libaes/libaes/aes_core.cpp:319-351 | unsigned 32-bit arithmetic: in-range values are kept, negative ones wrap by 2^32 |
| AesCore.KeyParamsOf | libaes/libaes/aes_core.cpp:19-37 | Nk is 4, 6 or 8, the key is 4·Nk bytes, Nr = Nk + 6, and the key size in bits agrees with getKeySizeFromEnum (S128 for an unlisted value) |
| AesCore.ModeNameInjective | libaes/libaes/aes_core.cpp:235-249 | the four modes have distinct names, none of them "ERROR" |
| AesCore.PaddingNameInjective | libaes/libaes/aes_core.cpp:251-261 | the two paddings have distinct names, none of them "ERROR" |
| AesCore.PaddingSizeBounds | libaes/libaes/aes_core.cpp:290-297 | no padding for NONE or an empty input; otherwise between 16 and 31 bytes, a whole block exactly when the size is a multiple of 16, and the padded size is a multiple of 16 |
| AesCore.BlockRoundedSizeLeast | libaes/libaes/aes_core.cpp:310-317 | the least multiple of 16 at or above the size |
| AesCore.BufferSizesRoundTrip | libaes/libaes/aes_core.cpp:319-351 | the cipher-out size is the plain-in size plus the GCM tag, and the plain-out size of the cipher-in size of the cipher-out size is the plain-in size |
| AesCore.RevPaddingSizeOfTagOnly | libaes/libaes/aes_core.cpp:300-308 | as written: a GCM buffer of 16 bytes (tag only) makes the index wrap to 2^32-1, a read outside the buffer |
| AesCore.PadBytes | libaes/libaes/aes_core.cpp:128 | pad bytes, each equal to pad |
| AesCore.RevPaddingOfPadded | libaes/libaes/aes_core.cpp:300-308 | the corrected getRevPaddingSize on PKCS7-padded data (before the tag in GCM) returns getPaddingSize of the plaintext, for any plaintext length including zero |
| AesCore.RevPaddingSizeAgrees | libaes/libaes/aes_core.cpp:300-308 | the written and the corrected getRevPaddingSize agree on every input except a GCM size of 1 to 16 bytes |
| AesCore.RevPaddingSizeOfPadded | libaes/libaes/aes_core.cpp:300-308 | as written, getRevPaddingSize on PKCS7-padded data with at least one plaintext byte (before the tag in GCM) returns getPaddingSize of the plaintext |
| AesSession.Encrypted | libaes/libaes/aes_core.cpp:141-163 | cipher succeeds exactly for the four modes, and writes whole blocks (ECB, CBC), as many bytes (CTR) or the bytes plus a tag (GCM) |
| AesSession.Decrypted | libaes/libaes/aes_core.cpp:173-195 | decipher fails for an unlisted mode, and writes whole blocks (ECB, CBC), as many bytes (CTR) or the bytes without the tag (GCM) |
| AesSession.DecryptedEncrypted | libaes/libaes/aes_core.cpp:133-196 | deciphering what cipher wrote succeeds and gives back the padded plaintext (its whole blocks in ECB and CBC) |
| AesSession.PaddedStrip | libaes/libaes/aes_core.cpp:122-131 | the padded data starts with the data, has the planned buffer size, and the corrected getRevPaddingSize finds the added bytes |
| AesSession.PaddedNone | libaes/libaes/aes_core.cpp:122-131 | without padding the data is unchanged |
| AesSession.PaddedFits | libaes/libaes/aes_core.cpp:319-335 | the padded size is getPlainInBufferSize and the mode's output fits getCipherOutBufferSize |
| AesSession.OutputFits | libaes/libaes/aes_core.cpp:338-351 | what decipher writes fits getPlainOutBufferSize |
| AesSession.RoundedBlocks | libaes/libaes/aes_core.cpp:310-317 | the rounded size holds exactly the blocks a `for (i = 0; i < size; i += 16)` loop visits |
| AesSession.GcmTagPrefix | libaes/libaes/aes_mode.cpp:379-389 | the tag depends only on the rounded blocks of the ciphertext |
| AesSession.EcbEncryptBlock | libaes/libaes/aes_mode.cpp:30-39 | one loop iteration of ecb_encrypt extends the output by the next ECB block |
| AesSession.EcbDecryptBlock | libaes/libaes/aes_mode.cpp:55-64 | one loop iteration of ecb_decrypt extends the output by the next ECB block |
| AesSession.CbcEncryptBlock | libaes/libaes/aes_mode.cpp:86-97 | one iteration of cbc_encrypt extends the output by the next CBC block, and the nonce becomes that block |
| AesSession.CbcDecryptBlock | libaes/libaes/aes_mode.cpp:116-128 | one iteration of cbc_decrypt extends the output by the next CBC block, and the nonce becomes the ciphertext block |
| AesSession.CtrBlock | libaes/libaes/aes_mode.cpp:158-178 | one iteration of ctr_encrypt XORs the next (possibly partial) block with the keystream and advances the counter |
| AesSession.GcmCounters | libaes/libaes/aes_mode.cpp:350-369 | H is the encryption of the zero block, J0 the pre-counter block (IV‖0…01 for 12 bytes, GHASH otherwise), and J is inc32(J0) |
| AesSession.TagOver | libaes/libaes/aes_mode.cpp:372-391 | zero-fills the buffer to the block boundary and returns the GCM tag over the zero-padded text |
| AesSession.GcmSealInto | libaes/libaes/aes_mode.cpp:334-407 | the output is GcmSeal of the input (ciphertext then tag), and the output is unchanged past it |
| AesSession.GcmOpenInto | libaes/libaes/aes_mode.cpp:334-407 | ok is GcmOpen's tag check, the output is its plaintext, and the input's last partial block is zero-filled |
| AesSession.ExpandKey | libaes/libaes/aes_core.cpp:52-57 | the schedule has Nb·(Nr+1) words and is KeySchedule of the key |
| AesSession.Initialized | libaes/libaes/aes_core.cpp:13-67 | the state after initialize: hasInit, the key-size parameters, the mode, PKCS7 exactly when padding is asked, the first keySize key bytes and their schedule |
| AesSession.LoadKey | libaes/libaes/aes_core.cpp:18-57 | builds exactly the keying state initialize describes |
| AesSession.Aes.KeyCipher | libaes/libaes/aes_core.cpp:52-57 | the session's schedule holds every round key, and its block cipher's decrypt inverts its encrypt |
| AesSession.Aes.AadFits | libaes/libaes/aes_core.cpp:98-120 | the AAD buffer holds exactly the blocks ghash reads |
| AesSession.Aes.IvFitsMode | libaes/libaes/aes_core.cpp:73-93 | the IV buffer holds what the mode reads |
| AesSession.Aes.constructor | libaes/libaes/libaes.hpp:48 | a session without a key, IV or AAD |
| AesSession.Aes.Initialize | libaes/libaes/aes_core.cpp:13-67 | fails and changes nothing for a null key; otherwise succeeds with the Initialized state and no IV or AAD |
| AesSession.Aes.Install | libaes/libaes/aes_core.cpp:19-64 | the fields become the keying given, and the IV and AAD are cleared |
| AesSession.Aes.SetIv | libaes/libaes/aes_core.cpp:73-93 | succeeds exactly when initialized and, in GCM, the size is allowed; the IV is the given bytes, zero-filled to a block boundary in GCM; nothing else changes |
| AesSession.Aes.SetAad | libaes/libaes/aes_core.cpp:98-120 | succeeds exactly when initialized; only in GCM the AAD changes: empty for null or size 0, the bytes zero-filled to a block boundary otherwise |
| AesSession.Aes.ApplyPadding | libaes/libaes/aes_core.cpp:122-131 | the size grows by getPaddingSize, and the buffer holds the data followed by that many bytes of that value |
| AesSession.Aes.EcbEncrypt | libaes/libaes/aes_mode.cpp:21-44 | returns true and writes EcbEncrypt of the whole input blocks, nothing past them |
| AesSession.Aes.EcbDecrypt | libaes/libaes/aes_mode.cpp:46-69 | returns true and writes EcbDecrypt of the whole input blocks |
| AesSession.Aes.CbcEncrypt | libaes/libaes/aes_mode.cpp:74-102 | returns true and writes CbcEncrypt with the session IV |
| AesSession.Aes.CbcDecrypt | libaes/libaes/aes_mode.cpp:104-134 | returns true and writes CbcDecrypt with the session IV |
| AesSession.Aes.CtrEncrypt | libaes/libaes/aes_mode.cpp:139-182 | returns true and writes the data XOR the counter keystream from the IV, partial last block included |
| AesSession.Aes.CtrDecrypt | libaes/libaes/aes_mode.cpp:184-227 | the same keystream XOR, so it undoes CtrEncrypt (KeyStreamInvolution) |
| AesSession.Aes.GcmCrypt | libaes/libaes/aes_mode.cpp:334-407 | encrypting: true, the output is GcmSeal; decrypting: ok is the tag check of GcmOpen, the output its plaintext, and the input's partial block is zero-filled |
| AesSession.Aes.GcmEncrypt | libaes/libaes/aes_mode.cpp:409-412 | returns true and writes the ciphertext followed by the tag |
| AesSession.Aes.GcmDecrypt | libaes/libaes/aes_mode.cpp:414-417 | ok exactly when the trailing tag matches, and writes the plaintext |
| AesSession.Aes.Cipher | libaes/libaes/aes_core.cpp:133-164 | fails and changes nothing when not initialized or given a null buffer; otherwise pads the input in place and writes Encrypted of the padded data, ok exactly for a listed mode |
| AesSession.Aes.Decipher | libaes/libaes/aes_core.cpp:166-196 | fails and changes nothing when not initialized or given a null buffer; otherwise writes Decrypted of the input, ok being the mode's verdict (the tag check in GCM) |
| AesSession.Aes.DecipherBlocks | libaes/libaes/aes_core.cpp:174-190 | the ECB, CBC and CTR branches of decipher write Decrypted of the input |

## Left out

- Memory allocation and its failure paths (`new` returning null in initialize, setIv and setAad) are not modelled. Buffers are sequences or arrays that always exist.
- Aliasing: every mode member requires `dataIn` and `dataOut` to be different arrays. The source does not forbid in-place use, and in-place CBC decryption would read overwritten ciphertext.
- Logging and tracing (`TRACE_INFO`, `TRACE_ERROR`, the `verbose` flag) and `getInfos` / `getSupportedList` build text for humans only.
- The command-line programs (`cliaes`, `_aes`), file loading and the random IV generator are outside the library core.
- AesSession.Aes.Cipher, AesSession.Aes.Decipher, AesSession.Aes.CbcEncrypt, AesSession.Aes.CbcDecrypt, AesSession.Aes.CtrEncrypt, AesSession.Aes.CtrDecrypt: require an IV of at least 16 bytes in CBC and CTR. With a shorter IV, or none, the source reads past the IV buffer or dereferences null.
- AesSession.Aes.Decipher, AesSession.Aes.GcmDecrypt: require at least 16 bytes in GCM. With fewer, `dataSize -= 16` wraps and the source reads far outside the buffer.
- AesSession.Aes.Cipher, AesSession.Aes.Decipher: data sizes within 48 bytes of 2^32 are excluded. The buffer-size arithmetic wraps there.
- AesSession.Aes.GcmCrypt, AesSession.Aes.GcmEncrypt, AesSession.Aes.GcmDecrypt: require `dataSize <= 2^32 - 32`, which the source does not demand. Up to 2^32 - 16 the source runs as for smaller sizes; above that `getBlockRoundedSize(dataSize)` wraps to 0 and GHASH covers none of the ciphertext. The bound keeps the rounded ciphertext and the tag below 2^32 bytes in both directions, so the proofs can use unwrapped rounding; the sizes from 2^32 - 31 to 2^32 - 16 are left out with it.
- AesSession.Aes.SetIv, AesSession.Aes.SetAad: the `int` size parameter is modelled as an unsigned 32-bit value. A negative size converts to a huge `memcpy` length in the source.
- AesSession.Aes.SetIv: the IV size is bounded below 256 in GCM, which `isGcmIvSizeValid` already demands of every IV the mode accepts.
- AesSession.Aes.constructor: the source constructor leaves `mode` uninitialized. The model starts with ECB, which nothing reads before `initialize` sets it.
- `memcmp` on the tag is modelled as equality of the two 16-byte sequences.
- Types.StringToBytes: `std::stoi` is modelled only on the one-character strings the function gives it. The exception it throws becomes `ok == false`, and the buffer the source leaks then is returned.
- The lookup tables (`LOOKUPS::SBOX`, `INV_SBOX`, `RCON`, `INV_MIX_COLUMNS_MATRIX`) are in a header that is not part of this model. They are written out from FIPS-197, and the model proves their inverse and power-of-x properties.
- The `qword_t` union of boost's `uint128_t` and 16 bytes is modelled as 16 bytes. The arithmetic view is used only by `types.cpp`, whose value is modelled as a `nat` below 2^128.

## Findings

| source | as written | input that shows it | evidently intended | confidence | as-written member | corrected member |
|---|---|---|---|---|---|---|
| libaes/libaes/aes_core.cpp:300-308 | in GCM, `pDataSize -= 16` then `pDataIn[pDataSize - 1]` in unsigned arithmetic | PKCS7, GCM, pDataSize = 16 (an empty plaintext and its tag): the index wraps to 2^32 - 1 | no padding to remove when nothing precedes the tag, and the last padding byte read otherwise | not executed | AesCore.RevPaddingSizeOfTagOnly | AesCore.RevPaddingOfPadded |
