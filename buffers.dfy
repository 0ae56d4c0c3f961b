/** The one mutating operation the encryptors apply to a buffer. */
module Buffers {
  import opened Common

  /** `dst.set(src, offset)` on a `Uint8Array`: copies `src` into `dst` from
      `offset` on and leaves every other byte as it was. The source only calls
      it where `src` fits, which is what `set` itself demands (it throws a
      `RangeError` otherwise). */
  method SetAt(dst: array<byte>, src: Bytes, offset: nat)
    requires offset + |src| <= dst.Length
    modifies dst
    ensures dst[..] == old(dst[..offset]) + src + old(dst[offset + |src|..])
  {
    for i := 0 to |src|
      invariant dst[..offset] == old(dst[..offset])
      invariant dst[offset..offset + i] == src[..i]
      invariant dst[offset + i..] == old(dst[offset + i..])
    {
      dst[offset + i] := src[i];
    }
    assert dst[..] == dst[..offset] + dst[offset..offset + |src|] + dst[offset + |src|..];
  }
}
