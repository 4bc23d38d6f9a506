/** Copies from the input buffer into the output buffer, shared by compressor and decoder. */
module Lz4Memory {
  import opened Lz4Format

  /** LZ4_wildCopy of `length` bytes: writes up to 8 bytes beyond them. */
  method WildCopyFrom(src: Bytes, s0: nat, dst: array<Byte>, d0: nat, length: nat)
    requires d0 + length + 8 <= dst.Length && s0 + length + 8 <= |src|
    modifies dst
    ensures dst[..d0 + length] == old(dst[..d0]) + src[s0..s0 + length]
  {
    var d, s := d0, s0;
    forall i | 0 <= i < 8 { dst[d + i] := src[s + i]; }
    d, s := d + 8, s + 8;
    while d < d0 + length
      invariant d0 < d <= d0 + length + 8 && s == s0 + (d - d0)
      invariant forall k :: d0 <= k < d ==> dst[k] == src[s0 + (k - d0)]
      invariant forall k :: 0 <= k < d0 ==> dst[k] == old(dst[k])
      decreases d0 + length - d
    {
      forall i | 0 <= i < 8 { dst[d + i] := src[s + i]; }
      d, s := d + 8, s + 8;
    }
  }

  /** The plain memcpy used for the last literals. */
  method MemcpyFrom(src: Bytes, s: nat, dst: array<Byte>, d: nat, length: nat)
    requires d + length <= dst.Length && s + length <= |src|
    modifies dst
    ensures dst[..d + length] == old(dst[..d]) + src[s..s + length]
  {
    forall i | 0 <= i < length { dst[d + i] := src[s + i]; }
  }
}
