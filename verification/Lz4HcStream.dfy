/** The entry points of lz4hc.c at the levels of the optimal parser, with room for the whole
    result, and their round trips. */
module Lz4HcStream {
  import opened MachineInts
  import opened Lz4Memory
  import opened Lz4Format
  import opened Lz4Reference
  import opened Lz4Search
  import opened Lz4Greedy
  import opened Lz4Encoding
  import opened Lz4HcChains
  import opened Lz4Compressor
  import opened Lz4Stream
  import opened Lz4HcFinder
  import opened Lz4HcOptimal
  import opened Lz4HcParse
  import Lz4RoundTrip

  const CLEVEL_OPT_MIN: int := 10
  const GB2: nat := 0x8000_0000

  /** The rows of the level table for the optimal parser; higher levels count as twelve. */
  function LevelOf(cLevel: int): Level
    requires CLEVEL_OPT_MIN <= cLevel
  {
    if cLevel == 10 then Level(96, 64, false)
    else if cLevel == 11 then Level(512, 128, false)
    else Level(16384, OPT_NUM, true)
  }

  /** The context has indexed nothing behind source, and its segment ends there. */
  ghost predicate Ready(ctx: HcContext, source: int, lo: int)
    reads ctx, ctx.hashTable, ctx.chainTable
  {
    ctx.Valid() && ctx.started && ctx.end == source && ctx.nextToUpdate <= source - ctx.base
    && 0 <= lo <= ctx.base + ctx.dictLimit <= source
  }

  lemma ReadyReusable(ctx: HcContext, source: int, lo: int)
    requires Ready(ctx, source, lo)
    ensures ctx.Reusable()
  {
  }

  /** A block of mem, and the segment that ends where it starts. */
  ghost function BlockSegment(ctx: HcContext, mem: seq<uint8>, source: nat, inputSize: nat): Segment
    reads ctx
    requires 0 <= ctx.base + ctx.dictLimit <= source
  {
    SegmentOf(ctx, Job(mem, source, inputSize, source - (ctx.base + ctx.dictLimit), 0, ByU32, false, 1, false))
  }

  /** The r bytes at d0 are a parse of the block at the level: 96, 512 or 16384 attempts, 64, 128 or
      4095 bytes that are sufficient, and all positions searched at level 12. */
  ghost predicate HcCompressed(g: Segment, cLevel: int, dst: seq<uint8>, d0: nat, r: nat) {
    d0 + r <= |dst|
    && exists seqs: seq<Sequence>, anchor: int ::
         0 <= anchor <= g.j.Iend() <= |g.j.src|
         && dst[d0..d0 + r] == EncodeAll(seqs) + EncodeLast(g.j.src[anchor..g.j.Iend()])
         && Parses(g, if cLevel == 10 then Level(96, 64, false) else if cLevel == 11 then Level(512, 128, false)
                      else Level(16384, 4095, true), g.j.source, g.j.source, seqs, anchor)
  }

  lemma ParsedBytes(g: Segment, cLevel: int, seqs: seq<Sequence>, anchor: int, dst: seq<uint8>, d0: nat, r: nat)
    requires CLEVEL_OPT_MIN <= cLevel && d0 + r <= |dst| && 0 <= anchor <= g.j.Iend() <= |g.j.src|
    requires dst[d0..d0 + r] == EncodeAll(seqs) + EncodeLast(g.j.src[anchor..g.j.Iend()])
    requires Parses(g, Capped(LevelOf(cLevel)), g.j.source, g.j.source, seqs, anchor)
    ensures HcCompressed(g, cLevel, dst, d0, r)
  {
    hide Parses, EncodeAll, EncodeLast;
  }

  /** LZ4HC_compress_generic_internal at a level of the optimal parser. */
  method CompressGeneric(ctx: HcContext, mem: seq<uint8>, source: nat, inputSize: nat, dst: array<uint8>, d0: nat,
                         cLevel: int, ghost lo: nat) returns (r: nat)
    requires Ready(ctx, source, lo) && ctx.Indexed(mem) && source - ctx.base <= GB2 && source + inputSize <= |mem|
    requires CLEVEL_OPT_MIN <= cLevel && (inputSize <= MAX_INPUT_SIZE ==> d0 + CompressBound(inputSize) <= dst.Length)
    modifies ctx`end, ctx`nextToUpdate, ctx.hashTable, ctx.chainTable, dst
    ensures r == 0 <==> inputSize > 0x7E00_0000
    ensures Ready(ctx, if r == 0 then source else source + inputSize, lo) && ctx.Indexed(mem)
    ensures r > 0 ==> HcCompressed(BlockSegment(ctx, mem, source, inputSize), cLevel, dst[..], d0, r)
    ensures (r > 0 ==> r <= CompressBound(inputSize) && d0 + r <= dst.Length
                       && Regenerates(dst[d0..d0 + r], mem[lo..source], mem[source..source + inputSize]))
    ensures Untouched(dst, d0, d0 + CompressBound(inputSize))
  {
    hide Emitted, Regenerates, Decodes, Parses, Chained, EncodeAll, EncodeLast;
    if inputSize > MAX_INPUT_SIZE { return 0; }
    var j := Job(mem, source, inputSize, source - (ctx.base + ctx.dictLimit), 0, ByU32, false, 1, false);
    ctx.end := ctx.end + inputSize;
    var op, anchor;
    ghost var seqs;
    op, anchor, seqs := OptimalSequences(ctx, j, dst, d0, LevelOf(cLevel), lo);
    r := FinishBlock(j, dst, d0, op, anchor, 0, lo, seqs);
    DecodesRegenerates(j, dst[d0..d0 + r], lo);
    ParsedBytes(SegmentOf(ctx, j), cLevel, seqs, anchor, dst[..], d0, r);
  }

  /** LZ4_compress_HC_extStateHC_fastReset */
  method CompressHcFastReset(ctx: HcContext, src: seq<uint8>, dst: array<uint8>, d0: nat, cLevel: int) returns (r: nat)
    requires ctx.Reusable() && CLEVEL_OPT_MIN <= cLevel
    requires |src| <= MAX_INPUT_SIZE ==> d0 + CompressBound(|src|) <= dst.Length
    modifies ctx, ctx.hashTable, ctx.chainTable, dst
    ensures ctx.Reusable() && (r == 0 <==> |src| > MAX_INPUT_SIZE)
    ensures r > 0 ==> r <= CompressBound(|src|) && d0 + r <= dst.Length && Regenerates(dst[d0..d0 + r], [], src)
    ensures ctx.base + ctx.dictLimit == 0 && ctx.favorDecSpeed == old(ctx.favorDecSpeed)
    ensures r > 0 ==> HcCompressed(BlockSegment(ctx, src, 0, |src|), cLevel, dst[..], d0, r)
  {
    hide Regenerates, HcCompressed;
    ctx.ResetStreamFast();
    ctx.Init(0);
    ctx.NothingIndexed(src);
    assert src[0..0] == [] && src[0..0 + |src|] == src;
    r := CompressGeneric(ctx, src, 0, |src|, dst, d0, cLevel, 0);
    ReadyReusable(ctx, ctx.end, 0);
  }

  /** LZ4_compress_HC_extStateHC */
  method CompressHc(ctx: HcContext, src: seq<uint8>, dst: array<uint8>, d0: nat, cLevel: int) returns (r: nat)
    requires ctx.Reusable() && CLEVEL_OPT_MIN <= cLevel
    requires |src| <= MAX_INPUT_SIZE ==> d0 + CompressBound(|src|) <= dst.Length
    modifies ctx, ctx.hashTable, ctx.chainTable, dst
    ensures ctx.Reusable() && (r == 0 <==> |src| > MAX_INPUT_SIZE)
    ensures r > 0 ==> r <= CompressBound(|src|) && d0 + r <= dst.Length && Regenerates(dst[d0..d0 + r], [], src)
    ensures ctx.base + ctx.dictLimit == 0 && !ctx.favorDecSpeed
    ensures r > 0 ==> HcCompressed(BlockSegment(ctx, src, 0, |src|), cLevel, dst[..], d0, r)
  {
    hide HcCompressed;
    ctx.ResetStream();
    r := CompressHcFastReset(ctx, src, dst, d0, cLevel);
  }

  /** LZ4_loadDictHC for the bytes right before the next block. */
  method LoadDict(ctx: HcContext, mem: seq<uint8>, dictionary0: nat, dictSize0: nat, ghost lo: nat)
    requires ctx.Reusable() && lo <= dictionary0 && dictionary0 + dictSize0 <= |mem|
    modifies ctx, ctx.hashTable, ctx.chainTable
    ensures Ready(ctx, dictionary0 + dictSize0, lo) && ctx.Indexed(mem) && ctx.end - ctx.base <= GB2
    ensures var n := if dictSize0 > 0x1_0000 then 0x1_0000 else dictSize0;
      ctx.base + ctx.dictLimit == dictionary0 + dictSize0 - n
      && ctx.nextToUpdate - ctx.dictLimit == if n >= 4 then n - 3 else 0
  {
    var dictionary, dictSize := dictionary0, dictSize0;
    if dictSize > KB64 { dictionary, dictSize := dictionary + (dictSize - KB64), KB64; }
    ctx.ResetStream();
    ctx.Init(dictionary);
    ctx.NothingIndexed(mem);
    ctx.end := dictionary + dictSize;
    if dictSize >= 4 {
      var j := Job(mem, ctx.end, 0, dictSize, 0, ByU32, false, 1, false);
      ctx.Insert(j, ctx.end - 3);
    }
  }

  /** LZ4_compress_HC_continue for a block that follows the previous one in memory. */
  method CompressHcContinue(ctx: HcContext, mem: seq<uint8>, source: nat, inputSize: nat, dst: array<uint8>, d0: nat,
                            cLevel: int, ghost lo: nat) returns (r: nat)
    requires if ctx.started then Ready(ctx, source, lo) && ctx.Indexed(mem) else ctx.Reusable() && lo <= source
    requires source + inputSize <= |mem| && inputSize <= MAX_INPUT_SIZE && d0 + CompressBound(inputSize) <= dst.Length
    requires CLEVEL_OPT_MIN <= cLevel
    modifies ctx, ctx.hashTable, ctx.chainTable, dst
    ensures 0 < r <= CompressBound(inputSize) && ctx.started && Ready(ctx, source + inputSize, lo) && ctx.Indexed(mem)
    ensures Regenerates(dst[d0..d0 + r], mem[lo..source], mem[source..source + inputSize])
    ensures (ctx.base + ctx.dictLimit ==
      if !old(ctx.started) then source
      else if old(ctx.end - ctx.base) <= 0x8000_0000 then old(ctx.base + ctx.dictLimit)
      else if source - old(ctx.base + ctx.dictLimit) > 0x1_0000 then source - 0x1_0000
      else old(ctx.base + ctx.dictLimit))
    ensures ctx.base + ctx.dictLimit <= source
    ensures HcCompressed(BlockSegment(ctx, mem, source, inputSize), cLevel, dst[..], d0, r)
    ensures Untouched(dst, d0, d0 + CompressBound(inputSize))
  {
    hide Regenerates, HcCompressed;
    if !ctx.started {
      ctx.Init(source);
      ctx.NothingIndexed(mem);
    }
    if ctx.end - ctx.base > GB2 {
      var dictSize := ctx.end - ctx.base - ctx.dictLimit;
      if dictSize > KB64 { dictSize := KB64; }
      LoadDict(ctx, mem, ctx.end - dictSize, dictSize, lo);
    }
    r := CompressGeneric(ctx, mem, source, inputSize, dst, d0, cLevel, lo);
  }

  // ---------------------------------------------------------------- round trips

  /** Every source comes back, whatever the state was used for before. */
  method HcRoundTrip(ctx: HcContext, src: seq<uint8>, cLevel: int) returns (out: array<uint8>)
    requires ctx.Reusable() && |src| <= MAX_INPUT_SIZE && CLEVEL_OPT_MIN <= cLevel
    modifies ctx, ctx.hashTable, ctx.chainTable
    ensures ctx.Reusable() && out[..] == src
  {
    hide Regenerates, Decompress, HcCompressed;
    var block := new uint8[CompressBound(|src|)];
    out := new uint8[|src|];
    var c := CompressHcFastReset(ctx, src, block, 0, cLevel);
    Lz4RoundTrip.Regenerated(block[0..c], [], src, |src|);
    var d := DecompressSafe(block[0..c], out, 0, |src|);
    assert out[0..d] == out[..] && [] + src == src;
  }

  /** Compressor and decompressor have processed the same bytes. */
  ghost predicate HcSynchronised(ctx: HcContext, dec: StreamDecode, mem: seq<uint8>, begin: nat, source: nat,
      out: array<uint8>)
    reads ctx, ctx.hashTable, ctx.chainTable, dec, out
  {
    begin <= source <= |mem| && out.Length == |mem| - begin
    && (if ctx.started then Ready(ctx, source, begin) && ctx.Indexed(mem) else ctx.Reusable())
    && dec.prefixSize == source - begin && (dec.prefixSize > 0 ==> dec.prefixEnd == source - begin)
    && out[..source - begin] == mem[begin..source]
  }

  /** One more block of the stream. */
  method HcStreamBlock(ctx: HcContext, dec: StreamDecode, mem: seq<uint8>, begin: nat, source: nat, n: nat,
                       cLevel: int, out: array<uint8>)
    requires HcSynchronised(ctx, dec, mem, begin, source, out) && CLEVEL_OPT_MIN <= cLevel
    requires 1 <= n <= MAX_INPUT_SIZE && source + n <= |mem|
    modifies ctx, ctx.hashTable, ctx.chainTable, dec, out
    ensures HcSynchronised(ctx, dec, mem, begin, source + n, out)
  {
    hide Regenerates, Decompress, Ready, HcCompressed, BlockSegment;
    var block := new uint8[CompressBound(n)];
    var c := CompressHcContinue(ctx, mem, source, n, block, 0, cLevel, begin);
    ghost var h := mem[begin..source];
    Lz4RoundTrip.Regenerated(block[0..c], h, mem[source..source + n], n);
    var at := source - begin;
    assert out[at - dec.prefixSize..at] == h;
    var d := dec.DecompressSafeContinue(block[0..c], out, at, n);
    assert h + mem[source..source + n] == mem[begin..source + n];
  }

  /** A whole stream of contiguous blocks, across reloads of the last 64 KB as dictionary. */
  method HcStreamRoundTrip(mem: seq<uint8>, begin: nat, sizes: seq<nat>, cLevel: int)
      returns (out: array<uint8>, source: nat)
    requires (forall n <- sizes :: 1 <= n <= MAX_INPUT_SIZE) && CLEVEL_OPT_MIN <= cLevel
    requires begin + Lz4RoundTrip.Total(sizes) <= |mem|
    ensures source == begin + Lz4RoundTrip.Total(sizes)
    ensures out.Length == |mem| - begin && out[..source - begin] == mem[begin..source]
  {
    hide Ready;
    var ctx := new HcContext();
    var dec := new StreamDecode();
    out := new uint8[|mem| - begin];
    source := begin;
    for i := 0 to |sizes|
      invariant HcSynchronised(ctx, dec, mem, begin, source, out)
      invariant fresh(ctx) && fresh(ctx.hashTable) && fresh(ctx.chainTable) && fresh(dec) && fresh(out)
      invariant source + Lz4RoundTrip.Total(sizes[i..]) == begin + Lz4RoundTrip.Total(sizes)
    {
      assert sizes[i] in sizes && sizes[i..][1..] == sizes[i + 1..];
      assert Lz4RoundTrip.Total(sizes[i..]) == sizes[i] + Lz4RoundTrip.Total(sizes[i + 1..]);
      HcStreamBlock(ctx, dec, mem, begin, source, sizes[i], cLevel, out);
      source := source + sizes[i];
    }
  }
}
