/** memcpy and LZ4_wildCopy on an output buffer, from the input and within the buffer. */
module Lz4Memory {
  import opened MachineInts

  const WILDCOPYLENGTH: int := 8

  /** Nothing outside lo..hi differs. */
  twostate predicate Untouched(dst: array<uint8>, lo: int, hi: int)
    reads dst
  {
    forall i :: 0 <= i < dst.Length && !(lo <= i < hi) ==> dst[i] == old(dst[i])
  }

  /** memcpy of n input bytes. */
  method CopyIn(dst: array<uint8>, d: int, src: seq<uint8>, s: int, n: int)
    requires 0 <= n && 0 <= d && d + n <= dst.Length && 0 <= s && s + n <= |src|
    modifies dst
    ensures forall i :: d <= i < d + n ==> dst[i] == src[s + (i - d)]
    ensures dst[d..d + n] == src[s..s + n] && Untouched(dst, d, d + n)
  {
    forall k | 0 <= k < n { dst[d + k] := src[s + k]; }
  }

  /** memcpy of n output bytes to a later place that does not overlap. */
  method CopyOut(dst: array<uint8>, d: int, s: int, n: int)
    requires 0 <= n && 0 <= s && s + n <= d && d + n <= dst.Length
    modifies dst
    ensures forall i :: d <= i < d + n ==> dst[i] == dst[i - (d - s)]
    ensures Untouched(dst, d, d + n)
  {
    forall k | 0 <= k < n { dst[d + k] := dst[s + k]; }
  }

  /** LZ4_wildCopy from the input: at least 8 bytes, then 8 at a time up to or past e. */
  method WildCopyIn(dst: array<uint8>, d0: int, src: seq<uint8>, s0: int, e: int)
    requires 0 <= d0 <= e && e + 8 <= dst.Length && 0 <= s0 && s0 + (e - d0) + 8 <= |src|
    modifies dst
    ensures forall i :: d0 <= i < e ==> dst[i] == src[s0 + (i - d0)]
    ensures dst[d0..e] == src[s0..s0 + (e - d0)] && Untouched(dst, d0, e + 8)
  {
    var d, s := d0, s0;
    CopyIn(dst, d, src, s, 8);
    d, s := d + 8, s + 8;
    while d < e
      invariant d0 + 8 <= d && (d < e + 8 || d == d0 + 8)
      invariant d - d0 == s - s0
      invariant forall i :: d0 <= i < d ==> dst[i] == src[s0 + (i - d0)]
      invariant Untouched(dst, d0, d)
    {
      CopyIn(dst, d, src, s, 8);
      d, s := d + 8, s + 8;
    }
  }

  /** LZ4_wildCopy within the output, from s0 at least 8 bytes back: every byte copied equals
      the byte that far behind it. */
  method WildCopyOut(dst: array<uint8>, d0: int, s0: int, e: int)
    requires 0 <= s0 && s0 + 8 <= d0 && d0 + 8 <= dst.Length && e + 7 <= dst.Length
    modifies dst
    ensures forall i :: d0 <= i < e ==> dst[i] == dst[i - (d0 - s0)]
    ensures Untouched(dst, d0, if e <= d0 then d0 + 8 else e + 7)
  {
    var d, s := d0, s0;
    CopyOut(dst, d, s, 8);
    d, s := d + 8, s + 8;
    while d < e
      invariant d0 + 8 <= d && (d < e + 8 || d == d0 + 8)
      invariant d - s == d0 - s0
      invariant forall i :: d0 <= i < d ==> dst[i] == dst[i - (d0 - s0)]
      invariant Untouched(dst, d0, d)
    {
      CopyOut(dst, d, s, 8);
      d, s := d + 8, s + 8;
    }
  }
}
