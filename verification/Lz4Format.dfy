/** The LZ4 block format: sequences of literals and matches, their bytes and their meaning. */
module Lz4Format {
  import opened MachineInts
  import opened Arithmetic

  const MINMATCH: int := 4
  const MFLIMIT: int := 12
  const LASTLITERALS: int := 5
  const MAX_DISTANCE: int := 0xffff
  const RUN_MASK: int := 15
  const KB64: nat := 0x1_0000

  // ---------------------------------------------------------------- match copies

  /** Extends h by length bytes, each one the byte offset positions back.  Offset 0 is not
      part of the format; the decoder reads zeros there. */
  ghost function CopyMatch(h: seq<uint8>, offset: nat, length: nat): (r: seq<uint8>)
    requires offset <= |h|
    ensures |r| == |h| + length
    decreases length
  {
    if length == 0 then h
    else
      var r := CopyMatch(h, offset, length - 1);
      r + [if offset == 0 then 0 else r[|r| - offset]]
  }

  /** Byte k of a match, looked up in the bytes before it. */
  ghost function MatchByte(h: seq<uint8>, offset: nat, k: nat): uint8
    requires offset <= |h|
  {
    if offset == 0 then 0 else h[|h| - offset + k % offset]
  }

  lemma {:induction false} CopyMatchAt(h: seq<uint8>, offset: nat, length: nat, k: nat)
    requires offset <= |h| && k < |h| + length
    ensures CopyMatch(h, offset, length)[k]
         == if k < |h| then h[k] else MatchByte(h, offset, k - |h|)
    decreases length, k
  {
    if length == 0 {
    } else if k < |h| + length - 1 {
      CopyMatchAt(h, offset, length - 1, k);
    } else if offset > 0 {
      CopyMatchAt(h, offset, length - 1, k - offset);
      MatchByteBack(h, offset, k - |h|);
    }
  }

  /** A match byte equals the byte offset positions earlier. */
  lemma MatchByteBack(h: seq<uint8>, offset: nat, k: nat)
    requires 0 < offset <= |h|
    ensures MatchByte(h, offset, k)
         == if k < offset then h[|h| + k - offset] else MatchByte(h, offset, k - offset)
  {
    if k < offset { ModSmall(k, offset); } else { ModShift(k - offset, offset); }
  }

  /** A byte string that keeps h and continues it with the bytes of the match is the match copy. */
  lemma CopyMatchUnique(h: seq<uint8>, offset: nat, length: nat, r: seq<uint8>)
    requires offset <= |h| && |r| == |h| + length
    requires forall k :: 0 <= k < |h| ==> r[k] == h[k]
    requires forall k :: 0 <= k < length ==> r[|h| + k] == MatchByte(h, offset, k)
    ensures r == CopyMatch(h, offset, length)
  {
    forall k | 0 <= k < |r| ensures r[k] == CopyMatch(h, offset, length)[k] {
      CopyMatchAt(h, offset, length, k);
      if k >= |h| { assert r[|h| + (k - |h|)] == MatchByte(h, offset, k - |h|); }
    }
  }

  /** r continues h by repeating the byte offset positions back. */
  lemma {:induction false} CopyMatchFromBack(h: seq<uint8>, offset: nat, length: nat, r: seq<uint8>)
    requires 0 < offset <= |h| && |r| == |h| + length && r[..|h|] == h
    requires forall i :: |h| <= i < |r| ==> r[i] == r[i - offset]
    ensures r == CopyMatch(h, offset, length)
    decreases length
  {
    if length == 0 {
      assert r == h;
    } else {
      var r1 := r[..|r| - 1];
      assert r1[..|h|] == r[..|h|];
      CopyMatchFromBack(h, offset, length - 1, r1);
      assert r == r1 + [r[|r| - 1]] && r[|r| - 1] == r1[|r1| - offset];
    }
  }
}
