/** Where a decoder may stand in a frame, and what the frame comes to from there. */
module Lz4FramePoints {
  import opened MachineInts
  import opened Lz4FrameFormat
  import Lz4Reference

  /** A place in a frame, with what is known of it and all input to come. */
  datatype Point =
    | AtFrame(remaining: nat, s: seq<uint8>)
    | AtBlocks(info: Info, remaining: nat, done: seq<uint8>, s: seq<uint8>)
    | AtBlock(info: Info, remaining: nat, done: seq<uint8>, word: nat, s: seq<uint8>)
    | AtRaw(info: Info, remaining: nat, done: seq<uint8>, part: seq<uint8>, n: nat, s: seq<uint8>)
    | AtRawEnd(info: Info, remaining: nat, done: seq<uint8>, part: seq<uint8>, s: seq<uint8>)
    | AtCompressed(info: Info, remaining: nat, done: seq<uint8>, n: nat, s: seq<uint8>)
    | AtDecoded(info: Info, remaining: nat, done: seq<uint8>, d: Lz4Reference.Outcome, s: seq<uint8>)
    | AtSuffix(info: Info, remaining: nat, done: seq<uint8>, s: seq<uint8>)
    | AtSuffixChecksum(done: seq<uint8>, s: seq<uint8>)
    | AtSkipSize(s: seq<uint8>)
    | AtSkip(n: nat, s: seq<uint8>)

  ghost function Leads(p: Point): Outcome {
    match p
    case AtFrame(remaining, s) => Frame(remaining, s)
    case AtBlocks(info, remaining, done, s) => Blocks(info, remaining, done, s)
    case AtBlock(info, remaining, done, word, s) => AfterHeader(info, remaining, done, word, s)
    case AtRaw(info, remaining, done, part, n, s) => Raw(info, remaining, done, part, n, s)
    case AtRawEnd(info, remaining, done, part, s) => RawEnd(info, remaining, done, part, s)
    case AtCompressed(info, remaining, done, n, s) => Compressed(info, remaining, done, n, s)
    case AtDecoded(info, remaining, done, d, s) => AfterBlock(info, remaining, done, d, s)
    case AtSuffix(info, remaining, done, s) => Suffix(info, remaining, done, s)
    case AtSuffixChecksum(done, s) => CheckSuffix(done, s)
    case AtSkipSize(s) => SkipSize(s)
    case AtSkip(n, s) => Skip(n, s)
  }

  // ---------------------------------------------------------------- headers

  /** The first bytes of the header of a frame with blocks, which has target bytes in all. */
  predicate Begun(h: seq<uint8>, target: nat)
    requires MIN_FH_SIZE <= |h|
  {
    FrameMagic(h) && FlagsOk(h[4]) && target == HeaderSize(h[4])
  }

  lemma BegunHeader(h: seq<uint8>, target: nat)
    requires MIN_FH_SIZE <= |h| && Begun(h, target)
    ensures !SkippableMagic(h) && MIN_FH_SIZE <= target <= MAX_FH_SIZE && target == HeaderSize(h[4])
  {
    hide Read32;
  }

  lemma SameStart(s: seq<uint8>, t: seq<uint8>, n: nat, target: nat)
    requires 7 <= n <= |s| && n <= |t| && s[..n] == t[..n]
    ensures Begun(s, target) == Begun(t, target)
  {
    hide Read32;
    assert s[4] == s[..n][4] == t[..n][4];
    assert s[0..4] == s[..n][0..4] == t[0..4];
    ReadSame(s, 0, t, 0);
  }

  /** An incomplete stored header decodes to nothing yet. */
  lemma StoredIsShort(h: seq<uint8>, size: nat, target: nat)
    requires size < target <= |h| == MAX_FH_SIZE
    requires MIN_FH_SIZE < target ==> MIN_FH_SIZE <= size && Begun(h, target)
    requires target <= MIN_FH_SIZE ==> size < MIN_FH_SIZE
    ensures ParseHeader(h[..size]).Short?
  {
    hide Checksum, Read32, HeaderSize, InfoOf, FlagsOk, FrameMagic;
    if MIN_FH_SIZE <= size {
      var t := h[..size];
      SameStart(h, t, size, target);
      BegunHeader(t, target);
      assert FrameMagic(t) && FlagsOk(t[4]);
    }
  }

  lemma NothingIsShort()
    ensures ParseHeader([]).Short?
  {
  }

  /** A decoded header in front of the rest. */
  lemma FrameStep(remaining: nat, t: seq<uint8>, rest: seq<uint8>)
    requires MIN_FH_SIZE <= |t|
    ensures match ParseHeader(t)
      case Short(_) => true
      case Bad(code) => Leads(AtFrame(remaining, t + rest)) == Failed([], code)
      case Skippable => Leads(AtFrame(remaining, t + rest)) == Leads(AtSkipSize(t[4..] + rest))
      case Regular(i, size, sized) =>
        size <= |t|
        && (Leads(AtFrame(remaining, t + rest)) ==
            Leads(AtBlocks(i, if sized then i.contentSize else remaining, [], t[size..] + rest)))
  {
    hide SkipSize, Blocks, SkippableMagic, FrameMagic, FlagsOk, HeaderSize, InfoOf, DescriptorOk, ChecksumOk;
    var s := t + rest;
    if !ParseHeader(t).Short? {
      HeaderStable(t, s);
      assert s[4..] == t[4..] + rest;
      if ParseHeader(t).Regular? {
        var n := ParseHeader(t).size;
        assert s[n..] == t[n..] + rest;
      }
    }
  }

  // ---------------------------------------------------------------- blocks

  /** A block header at the start of s. */
  lemma BlocksStep(info: Info, remaining: nat, done: seq<uint8>, s: seq<uint8>, t: seq<uint8>)
    requires BH_SIZE <= |t| && t <= s
    ensures Leads(AtBlocks(info, remaining, done, s)) == Leads(AtBlock(info, remaining, done, Read32(t, 0), s[4..]))
    ensures s[4..] == t[4..] + s[|t|..]
  {
    hide Read32, AfterHeader;
    assert s[0..4] == t[0..4];
    ReadSame(s, 0, t, 0);
  }

  /** What a block header leads to. */
  lemma BlockStep(info: Info, remaining: nat, done: seq<uint8>, word: nat, s: seq<uint8>)
    ensures var n := NextSize(word);
      Leads(AtBlock(info, remaining, done, word, s)) ==
        if n == 0 then Leads(AtSuffix(info, remaining, done, s))
        else if n > info.maxBlockSize then Failed(done, MaxBlockSizeInvalid)
        else if Uncompressed(word) then Leads(AtRaw(info, remaining, done, [], n, s))
        else Leads(AtCompressed(info, remaining, done, n, s))
  {
    hide NextSize, Uncompressed, Suffix, Raw, Compressed;
  }

  /** The next bytes of an uncompressed block, perhaps the last ones. */
  lemma RawPart(info: Info, remaining: nat, done: seq<uint8>, part: seq<uint8>, n: nat, bytes: seq<uint8>,
      s: seq<uint8>)
    requires |bytes| <= n
    ensures (Leads(AtRaw(info, remaining, done, part, n, bytes + s)) ==
             Leads(AtRaw(info, Less(info, remaining, |bytes|), done + bytes, part + bytes, n - |bytes|, s)))
    ensures (|bytes| == n ==>
             Leads(AtRaw(info, remaining, done, part, n, bytes + s)) ==
             Leads(AtRawEnd(info, Less(info, remaining, n), done + bytes, part + bytes, s)))
  {
    hide Raw, RawEnd;
    var t := bytes + s;
    assert t[..|bytes|] == bytes && t[|bytes|..] == s;
    RawStep(info, remaining, done, part, n, t, |bytes|);
    if |bytes| == n { RawWhole(info, remaining, done, part, n, t); }
  }

  lemma RawUnchecked(info: Info, remaining: nat, done: seq<uint8>, part: seq<uint8>, s: seq<uint8>)
    requires !info.blockChecksum
    ensures Leads(AtRawEnd(info, remaining, done, part, s)) == Leads(AtBlocks(info, remaining, done, s))
  {
    hide Blocks;
  }

  lemma RawChecked(info: Info, remaining: nat, done: seq<uint8>, part: seq<uint8>, crc: seq<uint8>, s: seq<uint8>)
    requires info.blockChecksum && |crc| == 4
    ensures (Leads(AtRawEnd(info, remaining, done, part, crc + s)) ==
             if Read32(crc, 0) != Checksum(part) then Failed(done, BlockChecksumInvalid)
               else Leads(AtBlocks(info, remaining, done, s)))
  {
    hide Blocks, RawEnd, Read32, Checksum;
    BlockChecksumRead(info, remaining, done, part, crc, s);
  }

  lemma CompressedStep(info: Info, remaining: nat, done: seq<uint8>, n: nat, selected: seq<uint8>, s: seq<uint8>)
    requires |selected| == n + CrcSize(info)
    ensures (Leads(AtCompressed(info, remaining, done, n, selected + s)) ==
             if info.blockChecksum
               && Read32(selected, n) != Checksum(selected[..n]) then Failed(done, BlockChecksumInvalid)
             else Leads(AtDecoded(info, remaining, done,
               Lz4Reference.Decompress(selected[..n], [], info.maxBlockSize, 0), s)))
  {
    hide Compressed, AfterBlock, Read32, Checksum, Lz4Reference.Decompress;
    CompressedRead(info, remaining, done, n, selected, s);
  }

  lemma DecodedStep(info: Info, remaining: nat, done: seq<uint8>, d: Lz4Reference.Outcome, s: seq<uint8>)
    ensures (Leads(AtDecoded(info, remaining, done, d, s)) ==
             if d.Accept? then Leads(AtBlocks(info, Less(info, remaining, |d.out|), done + d.out, s))
               else Failed(done, DecompressionFailed))
  {
    hide Blocks;
  }

  // ---------------------------------------------------------------- ends

  lemma SuffixStep(info: Info, remaining: nat, done: seq<uint8>, s: seq<uint8>)
    ensures (Leads(AtSuffix(info, remaining, done, s)) ==
             if remaining != 0 then Failed(done, FrameSizeWrong)
             else if !info.contentChecksum then Done(done, s) else Leads(AtSuffixChecksum(done, s)))
  {
    hide CheckSuffix;
  }

  lemma SuffixChecked(done: seq<uint8>, crc: seq<uint8>, s: seq<uint8>)
    requires |crc| == 4
    ensures Leads(AtSuffixChecksum(done, crc + s)) ==
      if Read32(crc, 0) != Checksum(done) then Failed(done, ContentChecksumInvalid)
      else Done(done, s)
  {
    hide Read32, Checksum, CheckSuffix;
    SuffixChecksumRead(done, crc, s);
  }

  lemma SkipSizeStep(size: seq<uint8>, s: seq<uint8>)
    requires |size| == 4
    ensures Leads(AtSkipSize(size + s)) == Leads(AtSkip(Read32(size, 0), s))
  {
    hide Read32, Skip, SkipSize;
    SkipSizeRead(size, s);
  }

  lemma SkipPart(n: nat, s: seq<uint8>, k: nat)
    requires k <= n && k <= |s|
    ensures Leads(AtSkip(n, s)) == Leads(AtSkip(n - k, s[k..]))
    ensures k == n ==> Leads(AtSkip(n, s)) == Done([], s[k..])
  {
    hide Skip;
    SkipStep(n, s, k);
  }

  // ---------------------------------------------------------------- facts

  /** The content so far, where there is some. */
  function SoFar(p: Point): seq<uint8> {
    match p
    case AtFrame(_, _) => []
    case AtSkipSize(_) => []
    case AtSkip(_, _) => []
    case AtBlocks(_, _, done, _) => done
    case AtBlock(_, _, done, _, _) => done
    case AtRaw(_, _, done, _, _, _) => done
    case AtRawEnd(_, _, done, _, _) => done
    case AtCompressed(_, _, done, _, _) => done
    case AtDecoded(_, _, done, _, _) => done
    case AtSuffix(_, _, done, _) => done
    case AtSuffixChecksum(done, _) => done
  }

  /** The content so far begins the content of a complete or wrong frame. */
  lemma LeadsFurther(p: Point)
    requires !Leads(p).Truncated? && !p.AtBlock? && !p.AtDecoded?
    ensures SoFar(p) <= Leads(p).content
  {
    hide Checksum, Read32, Frame, Blocks, Raw, RawEnd, Compressed;
    match p
    case AtBlocks(info, remaining, done, s) => ContentExtends(info, remaining, done, s);
    case AtRaw(info, remaining, done, part, n, s) => RawExtends(info, remaining, done, part, n, s);
    case AtRawEnd(info, remaining, done, part, s) => RawEndExtends(info, remaining, done, part, s);
    case AtCompressed(info, remaining, done, n, s) => CompressedExtends(info, remaining, done, n, s);
    case _ =>
  }

  /** There is less input than the next step needs. */
  predicate Lacking(p: Point) {
    match p
    case AtBlocks(_, _, _, s) => |s| < BH_SIZE
    case AtRaw(_, _, _, _, n, s) => |s| < n
    case AtRawEnd(info, _, _, _, s) => info.blockChecksum && |s| < 4
    case AtCompressed(info, _, _, n, s) => |s| < n + CrcSize(info)
    case AtSuffixChecksum(_, s) => |s| < 4
    case AtSkipSize(s) => |s| < 4
    case AtSkip(n, s) => |s| < n
    case _ => false
  }

  lemma LackingIsTruncated(p: Point)
    requires Lacking(p) || (p.AtFrame? && ParseHeader(p.s).Short?)
    ensures Leads(p) == Truncated
  {
    hide ParseHeader, AfterHeader, CrcSize;
  }
}
