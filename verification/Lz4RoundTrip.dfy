/** Compression and decompression together: single blocks, reused states and whole streams. */
module Lz4RoundTrip {
  import opened MachineInts
  import opened Lz4Reference
  import opened Lz4Search
  import opened Lz4Greedy
  import opened Lz4Compressor
  import opened Lz4Decoder
  import opened Lz4Stream

  /** Decoding a block that regenerates content after h. */
  lemma Regenerated(block: seq<uint8>, h: seq<uint8>, content: seq<uint8>, capacity: nat)
    requires Regenerates(block, h, content) && |content| <= capacity
    ensures Decompress(block, h, capacity, 0) == Accept(h + content)
    ensures Code(Decompress(block, h, capacity, 0), |h|) == |content|
  {
    hide Decompress;
  }

  /** Every source up to LZ4_MAX_INPUT_SIZE, compressed into LZ4_compressBound bytes with any
      state an earlier run of calls left, comes back unchanged. */
  method BlockRoundTrip(state: Stream, src: seq<uint8>, acceleration: int) returns (out: array<uint8>)
    requires state.Valid() && |src| <= MAX_INPUT_SIZE && acceleration <= 0x100_0000
    modifies state, state.hashTable
    ensures state.Valid() && out[..] == src
  {
    hide Regenerates, Decompress, Compressed, Prepared;
    var bound := CompressBound(|src|);
    var block := new uint8[bound];
    out := new uint8[|src|];
    var c := state.CompressFastReset(src, block, 0, bound, acceleration);
    Regenerated(block[0..c], [], src, |src|);
    var d := DecompressSafe(block[0..c], out, 0, |src|);
    assert out[0..d] == out[..] && [] + src == src;
  }

  /** A run of calls on one state: whatever was compressed before, each source comes back. */
  method ReuseRoundTrip(sources: seq<seq<uint8>>, acceleration: int) returns (outs: seq<seq<uint8>>)
    requires acceleration <= 0x100_0000 && forall s <- sources :: |s| <= MAX_INPUT_SIZE
    ensures outs == sources
  {
    var state := new Stream();
    outs := [];
    for i := 0 to |sources|
      invariant state.Valid() && fresh(state) && fresh(state.hashTable)
      invariant outs == sources[..i]
    {
      var out := BlockRoundTrip(state, sources[i], acceleration);
      outs := outs + [out[..]];
    }
  }

  /** Compressor and decompressor have processed the same bytes. */
  ghost predicate Synchronised(enc: Stream, dec: StreamDecode, mem: seq<uint8>, begin: nat, source: nat,
      out: array<uint8>)
    reads enc, enc.hashTable, dec, out
  {
    begin <= source <= |mem| && out.Length == |mem| - begin
    && enc.Continues(source, begin)
    && dec.prefixSize == source - begin && (dec.prefixSize > 0 ==> dec.prefixEnd == source - begin)
    && out[..source - begin] == mem[begin..source]
  }

  /** One more block of the stream. */
  method StreamBlock(enc: Stream, dec: StreamDecode, mem: seq<uint8>, begin: nat, source: nat, n: nat,
                     acceleration: int, out: array<uint8>)
    requires Synchronised(enc, dec, mem, begin, source, out)
    requires 1 <= n <= MAX_INPUT_SIZE && source + n <= |mem| && acceleration <= 0x100_0000
    modifies enc, enc.hashTable, dec, out
    ensures Synchronised(enc, dec, mem, begin, source + n, out)
  {
    hide Regenerates, Decompress, Compressed, Renormed;
    var bound := CompressBound(n);
    var block := new uint8[bound];
    var c := enc.CompressFastContinue(mem, source, n, block, 0, bound, acceleration, begin);
    ghost var h := mem[begin..source];
    Regenerated(block[0..c], h, mem[source..source + n], n);
    var at := source - begin;
    assert out[at - dec.prefixSize..at] == h;
    var d := dec.DecompressSafeContinue(block[0..c], out, at, n);
    assert h + mem[source..source + n] == mem[begin..source + n];
  }

  /** A whole stream: over any run of non-empty contiguous blocks, each given LZ4_compressBound
      bytes, the decompressor regenerates every byte. */
  method StreamRoundTrip(mem: seq<uint8>, begin: nat, sizes: seq<nat>, acceleration: int)
      returns (out: array<uint8>, source: nat)
    requires acceleration <= 0x100_0000 && (forall n <- sizes :: 1 <= n <= MAX_INPUT_SIZE)
    requires begin + Total(sizes) <= |mem|
    ensures source == begin + Total(sizes)
    ensures out.Length == |mem| - begin && out[..source - begin] == mem[begin..source]
  {
    var enc := new Stream();
    var dec := new StreamDecode();
    out := new uint8[|mem| - begin];
    source := begin;
    for i := 0 to |sizes|
      invariant Synchronised(enc, dec, mem, begin, source, out)
      invariant fresh(enc) && fresh(enc.hashTable) && fresh(dec) && fresh(out)
      invariant source + Total(sizes[i..]) == begin + Total(sizes)
    {
      assert sizes[i] in sizes && sizes[i..][1..] == sizes[i + 1..];
      assert Total(sizes[i..]) == sizes[i] + Total(sizes[i + 1..]);
      StreamBlock(enc, dec, mem, begin, source, sizes[i], acceleration, out);
      source := source + sizes[i];
    }
  }

  ghost function Total(sizes: seq<nat>): nat {
    if sizes == [] then 0 else sizes[0] + Total(sizes[1..])
  }
}
