/**
 * The two C library primitives the library moves bytes with: `memcpy` and
 * `memset` on a region of a byte buffer.
 */
module Mem {
  import opened Bytes

  /** memcpy(dst + dstOff, src + srcOff, len): the buffers must not overlap. */
  method Copy(dst: array<Byte>, dstOff: nat, src: array<Byte>, srcOff: nat, len: nat)
    requires dst != src
    requires dstOff + len <= dst.Length && srcOff + len <= src.Length
    modifies dst
    ensures forall j | 0 <= j < dst.Length ::
      dst[j] == if dstOff <= j < dstOff + len then src[srcOff + (j - dstOff)] else old(dst[j])
    ensures dst[..] == old(dst[..dstOff]) + src[srcOff..srcOff + len] + old(dst[dstOff + len..])
  {
    var k := 0;
    while k < len
      invariant 0 <= k <= len
      invariant forall j | 0 <= j < dst.Length ::
        dst[j] == if dstOff <= j < dstOff + k then src[srcOff + (j - dstOff)] else old(dst[j])
    {
      dst[dstOff + k] := src[srcOff + k];
      k := k + 1;
    }
    assert dst[..] == old(dst[..dstOff]) + src[srcOff..srcOff + len] + old(dst[dstOff + len..]);
  }

  /** memset(dst + off, value, len) */
  method Fill(dst: array<Byte>, off: nat, value: Byte, len: nat)
    requires off + len <= dst.Length
    modifies dst
    ensures forall j | 0 <= j < dst.Length :: dst[j] == if off <= j < off + len then value else old(dst[j])
  {
    var k := 0;
    while k < len
      invariant 0 <= k <= len
      invariant forall j | 0 <= j < dst.Length :: dst[j] == if off <= j < off + k then value else old(dst[j])
    {
      dst[off + k] := value;
      k := k + 1;
    }
  }

  /**
   * memcpy(dst + dstOff, src + srcOff, len) from a buffer the caller only
   * reads, given by its contents.
   */
  method CopyFrom(dst: array<Byte>, dstOff: nat, src: seq<Byte>, srcOff: nat, len: nat)
    requires dstOff + len <= dst.Length && srcOff + len <= |src|
    modifies dst
    ensures forall j | 0 <= j < dst.Length ::
      dst[j] == if dstOff <= j < dstOff + len then src[srcOff + (j - dstOff)] else old(dst[j])
    ensures dst[..] == old(dst[..dstOff]) + src[srcOff..srcOff + len] + old(dst[dstOff + len..])
  {
    var k := 0;
    while k < len
      invariant 0 <= k <= len
      invariant forall j | 0 <= j < dst.Length ::
        dst[j] == if dstOff <= j < dstOff + k then src[srcOff + (j - dstOff)] else old(dst[j])
    {
      dst[dstOff + k] := src[srcOff + k];
      k := k + 1;
    }
    assert dst[..] == old(dst[..dstOff]) + src[srcOff..srcOff + len] + old(dst[dstOff + len..]);
  }
}
