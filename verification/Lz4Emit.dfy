/** Writing the parts of a sequence, as the compressors of lz4.c and lz4hc.c write them. */
module Lz4Emit {
  import opened MachineInts
  import opened Arithmetic
  import opened Lz4Memory
  import opened Lz4Format
  import opened Lz4Encoding

  /** RunBytes without recursion. */
  lemma {:induction false} RunBytesClosed(n: nat)
    ensures RunBytes(n) == seq(n / 255, i => 255) + [n % 255]
    decreases n
  {
    if n < 255 {
      assert n / 255 == 0 && n % 255 == n;
    } else {
      RunBytesClosed(n - 255);
      ModUnique(n, (n - 255) / 255 + 1, (n - 255) % 255, 255);
      assert seq(n / 255, i => 255) == [255] + seq((n - 255) / 255, i => 255);
    }
  }

  /** b holds RunBytes(n) at op. */
  lemma RunWritten(b: seq<uint8>, op: nat, end: nat, n: nat)
    requires op + n / 255 + 1 == end <= |b| && b[end - 1] == n % 255
    requires forall i :: op <= i < end - 1 ==> b[i] == 255
    ensures b[op..end] == RunBytes(n)
  {
    RunBytesClosed(n);
  }

  lemma RunStep(n: nat)
    requires n >= 255
    ensures (n - 255) / 255 + 1 == n / 255 && (n - 255) % 255 == n % 255
  {
    ModUnique(n, (n - 255) / 255 + 1, (n - 255) % 255, 255);
  }

  /** The extra bytes of a length, one at a time. */
  method WriteRun(dst: array<uint8>, op0: nat, n: nat) returns (op: nat)
    requires op0 + n / 255 + 1 <= dst.Length
    modifies dst
    ensures op == op0 + n / 255 + 1
    ensures dst[op0..op] == RunBytes(n) && Untouched(dst, op0, op)
  {
    op := op0;
    var len := n;
    while len >= 255
      invariant op0 <= op && op + len / 255 == op0 + n / 255 && len % 255 == n % 255
      invariant forall i :: op0 <= i < op ==> dst[i] == 255
      invariant Untouched(dst, op0, op)
    {
      RunStep(len);
      dst[op] := 255;
      op, len := op + 1, len - 255;
    }
    ModSmall(len, 255);
    dst[op] := len;
    op := op + 1;
    RunWritten(dst[..], op0, op, n);
    assert dst[op0..op] == dst[..][op0..op];
  }

  /** Token and literal length; returns where the literals go. */
  method WriteLiteralLength(dst: array<uint8>, token: nat, n: nat) returns (op: nat)
    requires token + 1 + |ExtraBytes(n)| <= dst.Length
    modifies dst
    ensures op == token + 1 + |ExtraBytes(n)|
    ensures dst[token..op] == [Nibble(n) * 16] + ExtraBytes(n) && Untouched(dst, token, op)
  {
    hide RunBytes;
    op := token + 1;
    if n >= RUN_MASK {
      dst[token] := RUN_MASK * 16;
      op := WriteRun(dst, op, n - RUN_MASK);
      assert dst[token..op] == [dst[token]] + dst[token + 1..op];
    } else {
      dst[token] := n * 16;
    }
  }

  /** Token, literal length and literals, the latter with a wide copy. */
  method WriteLiterals(dst: array<uint8>, token: nat, src: seq<uint8>, anchor: nat, n: nat) returns (op: nat)
    requires token + 1 + |ExtraBytes(n)| + n + 8 <= dst.Length && anchor + n + 8 <= |src|
    modifies dst
    ensures op == token + |EncodeLiterals(src[anchor..anchor + n], 0)|
    ensures dst[token..op] == EncodeLiterals(src[anchor..anchor + n], 0) && Untouched(dst, token, op + 8)
  {
    hide ExtraBytes;
    op := WriteLiteralLength(dst, token, n);
    ghost var front := dst[token..op];
    WildCopyIn(dst, op, src, anchor, op + n);
    assert dst[token..op] == front;
    assert dst[token..op + n] == dst[token..op] + dst[op..op + n];
    op := op + n;
  }

  /** The last literals, copied exactly. */
  method WriteLastLiterals(dst: array<uint8>, token: nat, src: seq<uint8>, anchor: nat, n: nat) returns (op: nat)
    requires token + 1 + |ExtraBytes(n)| + n <= dst.Length && anchor + n <= |src|
    modifies dst
    ensures op == token + |EncodeLast(src[anchor..anchor + n])|
    ensures dst[token..op] == EncodeLast(src[anchor..anchor + n]) && Untouched(dst, token, op)
  {
    hide ExtraBytes;
    op := WriteLiteralLength(dst, token, n);
    ghost var front := dst[token..op];
    CopyIn(dst, op, src, anchor, n);
    assert dst[token..op] == front;
    assert dst[token..op + n] == dst[token..op] + dst[op..op + n];
    op := op + n;
  }

  /** LZ4_write32 of all ones. */
  method Write255x4(dst: array<uint8>, op: nat)
    requires op + 4 <= dst.Length
    modifies dst
    ensures forall i :: op <= i < op + 4 ==> dst[i] == 255
    ensures Untouched(dst, op, op + 4)
  {
    forall k | 0 <= k < 4 { dst[op + k] := 255; }
  }

  /** The extra bytes of a match length, four at a time, up to three bytes too far. */
  method WriteWideRun(dst: array<uint8>, op0: nat, n: nat) returns (op: nat)
    requires op0 + n / 255 + 4 <= dst.Length
    modifies dst
    ensures op == op0 + n / 255 + 1
    ensures dst[op0..op] == RunBytes(n) && Untouched(dst, op0, op + 3)
  {
    op := op0;
    var matchCode := n;
    Write255x4(dst, op);
    while matchCode >= 4 * 255
      invariant op0 <= op && op + matchCode / 255 == op0 + n / 255 && matchCode % 255 == n % 255
      invariant forall i :: op0 <= i < op + 4 ==> dst[i] == 255
      invariant Untouched(dst, op0, op + 4)
    {
      RunStep(matchCode);
      RunStep(matchCode - 255);
      RunStep(matchCode - 510);
      RunStep(matchCode - 765);
      op := op + 4;
      Write255x4(dst, op);
      matchCode := matchCode - 4 * 255;
    }
    op := op + matchCode / 255;
    dst[op] := matchCode % 255;
    op := op + 1;
    RunWritten(dst[..], op0, op, n);
    assert dst[op0..op] == dst[..][op0..op];
  }
}
