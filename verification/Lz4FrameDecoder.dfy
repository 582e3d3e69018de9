/** LZ4F_decompress of lz4frame.c for frames of independent blocks and skippable frames: a
    state machine that may stop at any byte of its input and output. */
module Lz4FrameDecoder {
  import opened MachineInts
  import opened Lz4Memory
  import XxHash32
  import opened Lz4FrameFormat
  import opened Lz4FramePoints
  import Lz4Reference
  import Lz4Stream

  datatype Stage = GetFrameHeader | StoreFrameHeader | InitFrame | GetBlockHeader | StoreBlockHeader
                 | CopyDirect | GetBlockChecksum | GetCBlock | StoreCBlock | FlushOut
                 | GetSuffix | StoreSuffix | GetSFrameSize | StoreSFrameSize | SkipSkippable

  /** Go on with another stage, return a hint, or return an error. */
  datatype Status = More | Stop(hint: nat) | Error(code: ErrorCode)

  /** The error reported for a wrong frame; a block that cannot be decoded directly into the output is
      a generic error. */
  predicate Reports(code: ErrorCode, fault: ErrorCode) {
    code == fault || (fault == DecompressionFailed && code == Generic)
  }

  /** Stages that may lead to another stage without reading input. */
  function Rank(stage: Stage): nat {
    if stage == FlushOut || stage == GetCBlock then 1 else 0
  }

  predicate WithinBlocks(stage: Stage) {
    match stage
    case GetFrameHeader => false
    case StoreFrameHeader => false
    case InitFrame => false
    case GetSFrameSize => false
    case StoreSFrameSize => false
    case SkipSkippable => false
    case _ => true
  }

  /** Stages in which a call may end; the others go on within the call. */
  predicate Pausing(stage: Stage) {
    stage != GetSuffix && stage != SkipSkippable
  }

  /** Stages that may hand out content. */
  predicate WritesContent(stage: Stage) {
    stage == CopyDirect || stage == GetCBlock || stage == StoreCBlock || stage == FlushOut
  }

  function Min(a: nat, b: nat): nat {
    if a < b then a else b
  }

  /** The tests of LZ4F_decodeHeader, in their order. */
  method CheckHeader(src: seq<uint8>) returns (h: Header)
    requires MIN_FH_SIZE <= |src|
    ensures h == ParseHeader(src)
    ensures h.Short? ==> |src| < h.target && Begun(src, h.target)
    ensures h.Skippable? ==> SkippableMagic(src)
    ensures h.Regular? ==> h.size == HeaderSize(src[4]) <= |src|
  {
    hide Checksum, HeaderChecksumOk, Read32, InfoOf;
    if SkippableMagic(src) { return Skippable; }
    if !FrameMagic(src) { return Bad(FrameTypeUnknown); }
    var flg := src[4];
    if Bit(flg, 2) { return Bad(ReservedFlagSet); }
    if flg / 64 != 1 { return Bad(HeaderVersionWrong); }
    var frameHeaderSize := HeaderSize(flg);
    if |src| < frameHeaderSize { return Short(frameHeaderSize); }
    var bd := src[5];
    if bd / 128 != 0 { return Bad(ReservedFlagSet); }
    if bd / 16 % 8 < 4 { return Bad(MaxBlockSizeInvalid); }
    if bd % 16 != 0 { return Bad(ReservedFlagSet); }
    var sum := Hash(src[4..frameHeaderSize - 1]);
    if !HeaderChecksumOk(sum, src[frameHeaderSize - 1]) { return Bad(HeaderChecksumInvalid); }
    h := Regular(InfoOf(src), frameHeaderSize, Bit(flg, 8));
  }

  class Dctx {
    var info: Info
    var dStage: Stage
    var remaining: nat
    var maxBufferSize: nat
    var tmpIn: array<uint8>
    var tmpInSize: nat
    var tmpInTarget: nat
    var tmpOut: array<uint8>
    var tmpOutSize: nat
    var tmpOutStart: nat
    const xxh: XxHash32.State
    const blockXxh: XxHash32.State
    const header: array<uint8>
    /** The content handed out so far, and the part of the current uncompressed block in it. */
    ghost var done: seq<uint8>
    ghost var part: seq<uint8>
    /** The number of bytes that earlier frames left open. */
    ghost var stale: nat

    ghost function Repr(): set<object>
      reads this
    {
      {this, header, tmpIn, tmpOut, xxh, xxh.mem32, blockXxh, blockXxh.mem32}
    }

    ghost predicate Separate()
      reads this
    {
      header.Length == MAX_FH_SIZE && xxh.mem32.Length == 16 && blockXxh.mem32.Length == 16 && xxh != blockXxh
      && header != tmpIn && header != tmpOut && tmpIn != tmpOut && xxh.mem32 != blockXxh.mem32
      && xxh.mem32 != header && xxh.mem32 != tmpIn && xxh.mem32 != tmpOut
      && blockXxh.mem32 != header && blockXxh.mem32 != tmpIn && blockXxh.mem32 != tmpOut
    }

    ghost predicate BuffersOk()
      reads this
    {
      maxBufferSize + 4 <= tmpIn.Length && maxBufferSize <= tmpOut.Length
      && (WithinBlocks(dStage) ==> info.maxBlockSize <= maxBufferSize)
    }

    /** Enough to start again with a new frame. */
    ghost predicate Intact()
      reads this
    {
      Separate() && BuffersOk()
    }

    /** The fill levels of the buffers. */
    ghost predicate StageOk()
      reads this, header
      requires Separate()
    {
      match dStage
      case StoreFrameHeader =>
        tmpInSize < tmpInTarget <= MAX_FH_SIZE && MIN_FH_SIZE <= tmpInTarget
        && (MIN_FH_SIZE < tmpInTarget ==> MIN_FH_SIZE <= tmpInSize && Begun(header[..], tmpInTarget))
      case StoreBlockHeader => tmpInSize < BH_SIZE
      case CopyDirect => 1 <= tmpInTarget
      case GetBlockChecksum => tmpInSize < 4 && info.blockChecksum
      case GetCBlock => CrcSize(info) < tmpInTarget <= info.maxBlockSize + CrcSize(info)
      case StoreCBlock => tmpInSize < tmpInTarget && CrcSize(info) < tmpInTarget <= info.maxBlockSize + CrcSize(info)
      case FlushOut => tmpOutStart <= tmpOutSize <= info.maxBlockSize
      case StoreSuffix => tmpInSize < 4 && info.contentChecksum && remaining == 0
      case StoreSFrameSize => 4 <= tmpInSize < 8 == tmpInTarget
      case _ => true
    }

    /** The levels of all buffers. */
    ghost predicate Shaped()
      reads this, header
    {
      Separate() && BuffersOk() && StageOk()
    }

    /** The content decoded so far; only the flush stage keeps some of it back. */
    ghost function Decoded(): seq<uint8>
      reads this, header, tmpOut
      requires Shaped()
    {
      if dStage == FlushOut then done + tmpOut[tmpOutStart..tmpOutSize] else done
    }

    /** The running checksums. */
    ghost predicate HashesOk()
      reads this, header, Repr()
      requires Shaped()
    {
      (WithinBlocks(dStage) && info.contentChecksum ==> xxh.Holds(0, Decoded()))
      && ((dStage == CopyDirect || dStage == GetBlockChecksum) && info.blockChecksum ==> blockXxh.Holds(0, part))
    }

    ghost predicate Valid()
      reads this, Repr()
    {
      Shaped() && HashesOk() && (!WithinBlocks(dStage) ==> done == [])
      && (!WithinBlocks(dStage) && dStage != InitFrame ==> remaining == stale)
    }

    /** The place in the frame when rest is all the input to come. */
    ghost function Place(rest: seq<uint8>): Point
      reads this, header, tmpIn, tmpOut
      requires Shaped()
    {
      match dStage
      case GetFrameHeader => AtFrame(remaining, rest)
      case StoreFrameHeader => AtFrame(remaining, header[..tmpInSize] + rest)
      case InitFrame => AtBlocks(info, remaining, done, rest)
      case GetBlockHeader => AtBlocks(info, remaining, done, rest)
      case StoreBlockHeader => AtBlocks(info, remaining, done, tmpIn[..tmpInSize] + rest)
      case CopyDirect => AtRaw(info, remaining, done, part, tmpInTarget, rest)
      case GetBlockChecksum => AtRawEnd(info, remaining, done, part, header[..tmpInSize] + rest)
      case GetCBlock => AtCompressed(info, remaining, done, tmpInTarget - CrcSize(info), rest)
      case StoreCBlock => AtCompressed(info, remaining, done, tmpInTarget - CrcSize(info), tmpIn[..tmpInSize] + rest)
      case FlushOut => AtBlocks(info, remaining, Decoded(), rest)
      case GetSuffix => AtSuffix(info, remaining, done, rest)
      case StoreSuffix => AtSuffixChecksum(done, tmpIn[..tmpInSize] + rest)
      case GetSFrameSize => AtSkipSize(rest)
      case StoreSFrameSize => AtSkipSize(header[4..tmpInSize] + rest)
      case SkipSkippable => AtSkip(tmpInTarget, rest)
    }

    /** The frame to come, if its header is not decoded yet, has independent blocks. */
    ghost predicate Admits(rest: seq<uint8>)
      reads this, header
      requires Shaped()
    {
      (dStage == GetFrameHeader ==> Independent(rest))
      && (dStage == StoreFrameHeader ==> Independent(header[..tmpInSize] + rest))
    }

    /** Between blocks: the checksum covers what was handed out. */
    ghost predicate AtBoundary()
      reads Repr()
    {
      Separate() && BuffersOk() && WithinBlocks(dStage) && (info.contentChecksum ==> xxh.Holds(0, done))
    }

    /** The number of bytes a call asks for: what is missing of the header, block or size that arrives
        in pieces, with the block header that follows a header or a block. */
    ghost function Hint(): int
      reads this
    {
      match dStage
      case GetFrameHeader => 7
      case StoreFrameHeader => tmpInTarget - tmpInSize + 4
      case StoreBlockHeader => 4 - tmpInSize
      case CopyDirect => tmpInTarget + (if info.contentChecksum then 4 else 0) + 4
      case GetBlockChecksum => 1
      case GetCBlock => tmpInTarget + 4
      case StoreCBlock => tmpInTarget - tmpInSize + 4
      case FlushOut => 4
      case StoreSuffix => 4 - tmpInSize
      case StoreSFrameSize => tmpInTarget - tmpInSize
      case SkipSkippable => tmpInTarget
      case _ => 0
    }

    /** Where a call may end. */
    predicate Paused()
      reads this
    {
      Pausing(dStage) || (dStage == SkipSkippable && tmpInTarget > 0)
    }

    /** The frame comes to goal when rest is all the input to come. */
    ghost predicate Comes(goal: Outcome, rest: seq<uint8>)
      reads Repr()
    {
      Valid() && Admits(rest) && Leads(Place(rest)) == goal
    }

    /** After a stage that did not complete the frame. */
    ghost predicate Lands(status: Status, goal: Outcome, rest: seq<uint8>)
      reads Repr()
    {
      if status.Error? then goal.Failed? && Reports(status.code, goal.code) && Intact() else Comes(goal, rest)
    }

    constructor ()
      ensures Valid() && fresh(Repr()) && dStage == GetFrameHeader && stale == 0
    {
      xxh := new XxHash32.State();
      blockXxh := new XxHash32.State();
      header := new uint8[MAX_FH_SIZE];
      tmpIn := new uint8[4];
      tmpOut := new uint8[0];
      info, dStage, remaining, maxBufferSize := Info(false, false, 0, 0), GetFrameHeader, 0, 0;
      tmpInSize, tmpInTarget, tmpOutSize, tmpOutStart := 0, 0, 0, 0;
      done, part, stale := [], [], 0;
    }

    /** LZ4F_resetDecompressionContext; the number of bytes to come is not reset. */
    method Reset()
      requires Intact()
      modifies this`dStage, this`done, this`stale
      ensures Valid() && dStage == GetFrameHeader && stale == remaining
    {
      dStage := GetFrameHeader;
      done := [];
      stale := remaining;
    }

    // -------------------------------------------------------------- frame header

    /** LZ4F_decodeHeader */
    method DecodeHeader(src: seq<uint8>, stored: bool) returns (status: Status, n: nat)
      requires Separate() && BuffersOk() && done == [] && MIN_FH_SIZE <= |src| && !WithinBlocks(dStage)
        && remaining == stale
      requires stored ==> |src| <= MAX_FH_SIZE && header[..|src|] == src
      requires stored && SkippableMagic(src) ==> |src| == MIN_FH_SIZE
      modifies this`info, this`dStage, this`remaining, this`tmpInSize, this`tmpInTarget, header
      ensures status == More || status.Error?
      ensures n <= |src| && Separate() && BuffersOk() && (status.Error? ==> ParseHeader(src) == Bad(status.code))
      ensures status == More ==> Valid() && 4 <= n && HeaderResult(src, stored, n, old(remaining))
      ensures stored ==> header[..] == old(header[..])
    {
      hide Checksum, Read32, ParseHeader, Begun, XxHash32.State.Holds;
      var h := CheckHeader(src);
      match h
      case Bad(code) => return Error(code), 0;
      case Skippable =>
        info := Info(false, false, 0, 0);
        if stored {
          tmpInSize, tmpInTarget, dStage := |src|, 8, StoreSFrameSize;
          return More, |src|;
        }
        dStage := GetSFrameSize;
        return More, 4;
      case Short(frameHeaderSize) =>
        info := Info(false, false, 0, 0);
        KeepHeader(src, stored, frameHeaderSize);
        return More, |src|;
      case Regular(i, size, sized) =>
        info := i;
        if sized { remaining := i.contentSize; }
        dStage := InitFrame;
        return More, size;
    }

    /** Keeps the part of a header that is there. */
    method KeepHeader(src: seq<uint8>, stored: bool, frameHeaderSize: nat)
      requires Separate() && BuffersOk() && done == [] && !WithinBlocks(dStage) && remaining == stale
      requires MIN_FH_SIZE <= |src| < frameHeaderSize && Begun(src, frameHeaderSize)
      requires stored ==> header[..|src|] == src
      modifies this`dStage, this`tmpInSize, this`tmpInTarget, header
      ensures Valid() && dStage == StoreFrameHeader && tmpInSize == |src| && header[..|src|] == src
      ensures stored ==> header[..] == old(header[..])
    {
      hide XxHash32.State.Holds, Begun;
      BegunHeader(src, frameHeaderSize);
      if !stored { CopyIn(header, 0, src, 0, |src|); }
      tmpInSize, tmpInTarget, dStage := |src|, frameHeaderSize, StoreFrameHeader;
      assert header[0..|src|] == src[0..|src|] == src;
      SameStart(header[..], src, |src|, frameHeaderSize);
    }

    /** Where a header leaves the context. */
    ghost predicate HeaderResult(src: seq<uint8>, stored: bool, n: nat, remaining0: nat)
      requires MIN_FH_SIZE <= |src|
      reads this, header
    {
      match ParseHeader(src)
      case Skippable =>
        remaining == remaining0
        && if stored then dStage == StoreSFrameSize && tmpInSize == |src| == n && n <= header.Length
          && header[..n] == src
           else dStage == GetSFrameSize && n == 4
      case Short(_) =>
        dStage == StoreFrameHeader && tmpInSize == |src| == n && n <= header.Length && header[..n] == src
          && remaining == remaining0
      case Bad(_) => false
      case Regular(i, size, sized) =>
        dStage == InitFrame && info == i && n == size == HeaderSize(src[4])
          && remaining == if sized then i.contentSize else remaining0
    }

    method GetFrameHeaderStage(input: seq<uint8>, ghost goal: Outcome, ghost tail: seq<uint8>)
        returns (status: Status, k: nat)
      requires dStage == GetFrameHeader && Comes(goal, input + tail)
      modifies this`info, this`dStage, this`remaining, this`tmpInSize, this`tmpInTarget, header
      ensures k <= |input| && Lands(status, goal, input[k..] + tail)
      ensures status == More ==> k > 0
      ensures status.Stop? ==> k == |input| && 0 < status.hint == Hint()
      ensures status.Stop? ==> Pausing(dStage)
    {
      hide Leads, XxHash32.State.Holds, Checksum, Independent, ParseHeader;
      if |input| >= MAX_FH_SIZE {
        status, k := DecodeHeader(input, false);
        LongEnough(input);
        FrameStep(old(remaining), input, tail);
        return;
      }
      tmpInSize := 0;
      if |input| == 0 { return Stop(MIN_FH_SIZE), 0; }
      tmpInTarget := MIN_FH_SIZE;
      dStage := StoreFrameHeader;
      assert header[..0] + (input + tail) == input + tail;
      status, k := StoreFrameHeaderStage(input, goal, tail);
    }

    method StoreFrameHeaderStage(input: seq<uint8>, ghost goal: Outcome, ghost tail: seq<uint8>)
        returns (status: Status, k: nat)
      requires dStage == StoreFrameHeader && Comes(goal, input + tail)
      modifies this`info, this`dStage, this`remaining, this`tmpInSize, this`tmpInTarget, header
      ensures k <= |input| && Lands(status, goal, input[k..] + tail)
      ensures status == More ==> k > 0
      ensures status.Stop? ==> k == |input| && 0 < status.hint == Hint()
      ensures status.Stop? ==> Pausing(dStage)
    {
      hide Leads, XxHash32.State.Holds, Checksum, Independent, ParseHeader, Begun;
      ghost var before := header[..];
      k := Min(tmpInTarget - tmpInSize, |input|);
      ghost var size := tmpInSize;
      CopyIn(header, tmpInSize, input, 0, k);
      Stored(before, header[..], size, tmpInTarget, k, input, tail);
      tmpInSize := tmpInSize + k;
      assert header[..tmpInSize] == header[..][..size + k];
      if tmpInSize < tmpInTarget { return Stop(tmpInTarget - tmpInSize + BH_SIZE), k; }
      if tmpInTarget > MIN_FH_SIZE { SameStart(header[..], header[..tmpInTarget], tmpInTarget, tmpInTarget); }
      status := DecodeStored(goal, input[k..] + tail);
    }

    /** The stored header is complete. */
    method DecodeStored(ghost goal: Outcome, ghost rest: seq<uint8>) returns (status: Status)
      requires Separate() && BuffersOk() && done == [] && !WithinBlocks(dStage)
        && MIN_FH_SIZE <= tmpInTarget <= MAX_FH_SIZE
      requires remaining == stale
      requires MIN_FH_SIZE < tmpInTarget ==> Begun(header[..tmpInTarget], tmpInTarget)
      requires goal == Leads(AtFrame(remaining, header[..tmpInTarget] + rest))
        && Independent(header[..tmpInTarget] + rest)
      modifies this`info, this`dStage, this`remaining, this`tmpInSize, this`tmpInTarget, header
      ensures (status == More || status.Error?) && Lands(status, goal, rest)
    {
      hide Leads, XxHash32.State.Holds, Checksum, Independent, ParseHeader, Begun;
      ghost var t := header[..tmpInTarget];
      if tmpInTarget > MIN_FH_SIZE { BegunHeader(t, tmpInTarget); }
      var n;
      status, n := DecodeHeader(header[..tmpInTarget], true);
      FrameStep(old(remaining), t, rest);
      if status == More {
        assert header[..n] == t[..n] && t[..|t|] == t && t[|t|..] + rest == rest;
        assert header[4..n] == header[..n][4..];
      }
    }

    // -------------------------------------------------------------- block headers

    /** dstage_init: resets the checksum and makes room for a block. */
    method InitStage(ghost goal: Outcome, ghost rest: seq<uint8>)
      requires dStage == InitFrame && Comes(goal, rest)
      modifies this`dStage, this`maxBufferSize, this`tmpIn, this`tmpOut, this`tmpInSize, this`tmpInTarget,
               this`tmpOutStart, this`tmpOutSize, xxh, xxh.mem32
      ensures Comes(goal, rest) && dStage == GetBlockHeader && done == []
      ensures tmpIn == old(tmpIn) || fresh(tmpIn)
      ensures tmpOut == old(tmpOut) || fresh(tmpOut)
    {
      hide Leads, XxHash32.State.Holds, Independent, Begun, NextSize, Uncompressed;
      MakeRoom();
      BeginBlocks(goal, rest);
    }

    method BeginBlocks(ghost goal: Outcome, ghost rest: seq<uint8>)
      requires Separate() && BuffersOk() && info.maxBlockSize <= maxBufferSize && done == []
      requires goal == Leads(AtBlocks(info, remaining, [], rest))
      modifies this`dStage, this`tmpInSize, this`tmpInTarget, this`tmpOutStart, this`tmpOutSize, xxh, xxh.mem32
      ensures Comes(goal, rest) && dStage == GetBlockHeader
    {
      hide Leads, XxHash32.State.Holds, Independent, Begun, NextSize, Uncompressed;
      tmpInSize, tmpInTarget, tmpOutStart, tmpOutSize := 0, 0, 0, 0;
      dStage := GetBlockHeader;
      if info.contentChecksum { xxh.Reset(0); }
    }

    /** Buffers for a block, if those at hand are too small. */
    method MakeRoom()
      requires Separate() && BuffersOk() && !WithinBlocks(dStage)
      modifies this`maxBufferSize, this`tmpIn, this`tmpOut
      ensures Separate() && BuffersOk() && info.maxBlockSize <= maxBufferSize
      ensures tmpIn == old(tmpIn) || fresh(tmpIn)
      ensures tmpOut == old(tmpOut) || fresh(tmpOut)
    {
      if info.maxBlockSize > maxBufferSize {
        tmpIn := new uint8[info.maxBlockSize + 4];
        tmpOut := new uint8[info.maxBlockSize];
        maxBufferSize := info.maxBlockSize;
      }
    }

    /** What a block header leads to; an output buffer without room stops before a compressed block. */
    method DecodeBlockHeader(word: nat, full: bool, ghost goal: Outcome, ghost rest: seq<uint8>)
        returns (status: Status)
      requires AtBoundary() && goal == Leads(AtBlock(info, remaining, done, word, rest))
      modifies this`dStage, this`tmpInTarget, this`part, blockXxh, blockXxh.mem32
      ensures Lands(status, goal, rest) && (status.Stop? ==> 0 < status.hint == Hint() && full && Pausing(dStage))
    {
      hide Leads, XxHash32.State.Holds, NextSize, Uncompressed;
      var nextCBlockSize := NextSize(word);
      BlockStep(info, remaining, done, word, rest);
      if nextCBlockSize == 0 {
        dStage := GetSuffix;
        return More;
      }
      if nextCBlockSize > info.maxBlockSize { return Error(MaxBlockSizeInvalid); }
      if Uncompressed(word) {
        StartRaw(nextCBlockSize, goal, rest);
        return More;
      }
      tmpInTarget := nextCBlockSize + CrcSize(info);
      dStage := GetCBlock;
      if full { return Stop(nextCBlockSize + CrcSize(info) + BH_SIZE); }
      return More;
    }

    method StartRaw(n: nat, ghost goal: Outcome, ghost rest: seq<uint8>)
      requires AtBoundary() && 1 <= n && goal == Leads(AtRaw(info, remaining, done, [], n, rest))
      modifies this`dStage, this`tmpInTarget, this`part, blockXxh, blockXxh.mem32
      ensures dStage == CopyDirect && Comes(goal, rest)
    {
      hide Leads, XxHash32.State.Holds, Independent, Begun, NextSize, Uncompressed;
      tmpInTarget := n;
      part := [];
      if info.blockChecksum { blockXxh.Reset(0); }
      dStage := CopyDirect;
    }

    method GetBlockHeaderStage(input: seq<uint8>, full: bool, ghost goal: Outcome, ghost tail: seq<uint8>)
        returns (status: Status, k: nat)
      requires dStage == GetBlockHeader && Comes(goal, input + tail)
      modifies this`dStage, this`tmpInSize, this`tmpInTarget, this`part, tmpIn, blockXxh, blockXxh.mem32
      ensures k <= |input| && Lands(status, goal, input[k..] + tail)
      ensures status == More ==> k > 0
      ensures status.Stop? ==> (k == |input| || full) && 0 < status.hint == Hint()
      ensures status.Stop? ==> Pausing(dStage)
    {
      hide Leads, XxHash32.State.Holds, Read32, Checksum;
      ghost var s := input + tail;
      if |input| >= BH_SIZE {
        k := BH_SIZE;
        BlocksStep(info, remaining, done, s, input);
        status := DecodeBlockHeader(Read32(input, 0), full, goal, input[k..] + tail);
      } else {
        tmpInSize := 0;
        dStage := StoreBlockHeader;
        assert tmpIn[..0] + s == s;
        status, k := StoreBlockHeaderStage(input, full, goal, tail);
      }
    }

    method StoreBlockHeaderStage(input: seq<uint8>, full: bool, ghost goal: Outcome, ghost tail: seq<uint8>)
        returns (status: Status, k: nat)
      requires dStage == StoreBlockHeader && Comes(goal, input + tail)
      modifies this`dStage, this`tmpInSize, this`tmpInTarget, this`part, tmpIn, blockXxh, blockXxh.mem32
      ensures k <= |input| && Lands(status, goal, input[k..] + tail)
      ensures status == More ==> k > 0
      ensures status.Stop? ==> (k == |input| || full) && 0 < status.hint == Hint()
      ensures status.Stop? ==> Pausing(dStage)
    {
      hide Leads, XxHash32.State.Holds, Read32, Checksum;
      ghost var before := tmpIn[..];
      ghost var size := tmpInSize;
      k := Min(BH_SIZE - tmpInSize, |input|);
      CopyIn(tmpIn, tmpInSize, input, 0, k);
      Moved(before, tmpIn[..], size, k, input, tail);
      tmpInSize := tmpInSize + k;
      assert tmpIn[..tmpInSize] == tmpIn[..][..size + k];
      if tmpInSize < BH_SIZE { return Stop(BH_SIZE - tmpInSize), k; }
      BlocksStep(info, remaining, done, tmpIn[..BH_SIZE] + (input[k..] + tail), tmpIn[..BH_SIZE]);
      status := DecodeBlockHeader(Read32(tmpIn[..BH_SIZE], 0), full, goal, input[k..] + tail);
    }

    // -------------------------------------------------------------- uncompressed blocks

    /** dstage_copyDirect: as much of the block as input and output allow. */
    method CopyDirectStage(input: seq<uint8>, dst: array<uint8>, dp: nat, dEnd: nat, ghost goal: Outcome,
        ghost tail: seq<uint8>)
        returns (status: Status, k: nat)
      requires dStage == CopyDirect && Comes(goal, input + tail) && dp <= dEnd <= dst.Length && dst !in Repr()
      modifies this`dStage, this`remaining, this`tmpInSize, this`tmpInTarget, this`done, this`part,
               xxh, xxh.mem32, blockXxh, blockXxh.mem32, dst
      ensures k <= |input| && dp + k <= dEnd && Untouched(dst, dp, dp + k)
      ensures Lands(status, goal, input[k..] + tail) && done == old(done) + dst[dp..dp + k] && !status.Error?
      ensures status == More ==> k > 0
      ensures status.Stop? ==> (k == |input| || dp + k == dEnd) && 0 < status.hint == Hint()
      ensures status.Stop? ==> Pausing(dStage)
    {
      hide Leads, XxHash32.State.Holds, Independent, Begun;
      k := Min(tmpInTarget, Min(|input|, dEnd - dp));
      CopyIn(dst, dp, input, 0, k);
      assert input[0..k] == input[..k] && input[..k] + (input[k..] + tail) == input + tail;
      TakeRaw(input[..k], goal, input[k..] + tail);
      status := More;
      if dStage == CopyDirect { status := Stop(tmpInTarget + (if info.contentChecksum then 4 else 0) + BH_SIZE); }
    }

    /** The next bytes of an uncompressed block, perhaps the last ones. */
    method TakeRaw(bytes: seq<uint8>, ghost goal: Outcome, ghost rest: seq<uint8>)
      requires dStage == CopyDirect && Comes(goal, bytes + rest) && |bytes| <= tmpInTarget
      modifies this`dStage, this`remaining, this`tmpInSize, this`tmpInTarget, this`done, this`part,
               xxh, xxh.mem32, blockXxh, blockXxh.mem32
      ensures Comes(goal, rest) && done == old(done) + bytes
      ensures dStage == CopyDirect <==> |bytes| < old(tmpInTarget)
    {
      hide Leads, XxHash32.State.Holds, Independent, Begun;
      RawPart(info, remaining, done, part, tmpInTarget, bytes, rest);
      if |bytes| == tmpInTarget {
        HashRaw(bytes);
        FinishRaw(goal, rest);
      } else {
        HashRaw(bytes);
        tmpInTarget := tmpInTarget - |bytes|;
      }
    }

    /** Counts and hashes bytes of an uncompressed block. */
    method HashRaw(bytes: seq<uint8>)
      requires Valid() && dStage == CopyDirect
      modifies this`remaining, this`done, this`part, xxh, xxh.mem32, blockXxh, blockXxh.mem32
      ensures Valid() && done == old(done) + bytes && part == old(part) + bytes
      ensures remaining == Less(info, old(remaining), |bytes|)
    {
      hide Leads, XxHash32.State.Holds, Independent, Begun;
      if info.blockChecksum { blockXxh.Update(bytes, 0, part); }
      CountContent(bytes);
      done := done + bytes;
      part := part + bytes;
    }

    method FinishRaw(ghost goal: Outcome, ghost rest: seq<uint8>)
      requires Valid() && dStage == CopyDirect && goal == Leads(AtRawEnd(info, remaining, done, part, rest))
      modifies this`dStage, this`tmpInSize
      ensures Comes(goal, rest) && dStage != CopyDirect
    {
      hide Leads, XxHash32.State.Holds, Independent, Begun;
      if info.blockChecksum {
        tmpInSize := 0;
        dStage := GetBlockChecksum;
        assert header[..0] + rest == rest;
      } else {
        dStage := GetBlockHeader;
        RawUnchecked(info, remaining, done, part, rest);
      }
    }

    /** dstage_getBlockChecksum */
    method GetBlockChecksumStage(input: seq<uint8>, ghost goal: Outcome, ghost tail: seq<uint8>)
        returns (status: Status, k: nat)
      requires dStage == GetBlockChecksum && Comes(goal, input + tail)
      modifies this`dStage, this`tmpInSize, header
      ensures k <= |input| && Lands(status, goal, input[k..] + tail)
      ensures status == More ==> k > 0
      ensures status.Stop? ==> k == |input| && 0 < status.hint == Hint()
      ensures status.Stop? ==> Pausing(dStage)
    {
      hide Leads, XxHash32.State.Holds, Independent, Begun, Read32, Checksum;
      if |input| >= 4 && tmpInSize == 0 {
        k := 4;
        assert header[..0] == [] && input[..4] + (input[4..] + tail) == [] + (input + tail);
        status := CheckBlock(input[..4], goal, input[4..] + tail);
      } else {
        status, k := StoreBlockChecksum(input, goal, tail);
      }
    }

    /** The checksum of a block, piece by piece. */
    method StoreBlockChecksum(input: seq<uint8>, ghost goal: Outcome, ghost tail: seq<uint8>)
        returns (status: Status, k: nat)
      requires dStage == GetBlockChecksum && Comes(goal, input + tail)
      modifies this`dStage, this`tmpInSize, header
      ensures k <= |input| && Lands(status, goal, input[k..] + tail)
      ensures status == More ==> k > 0
      ensures status.Stop? ==> k == |input| && 0 < status.hint == Hint()
      ensures status.Stop? ==> Pausing(dStage)
    {
      hide Leads, XxHash32.State.Holds, Independent, Begun, Read32, Checksum;
      ghost var before := header[..];
      ghost var size := tmpInSize;
      k := Min(4 - tmpInSize, |input|);
      CopyIn(header, tmpInSize, input, 0, k);
      Moved(before, header[..], size, k, input, tail);
      tmpInSize := tmpInSize + k;
      assert header[..tmpInSize] == header[..][..size + k];
      if tmpInSize < 4 { return Stop(1), k; }
      status := CheckBlock(header[..4], goal, input[k..] + tail);
    }

    method CheckBlock(crc: seq<uint8>, ghost goal: Outcome, ghost rest: seq<uint8>) returns (status: Status)
      requires AtBoundary() && info.blockChecksum && blockXxh.Holds(0, part) && |crc| == 4
      requires goal == Leads(AtRawEnd(info, remaining, done, part, crc + rest))
      modifies this`dStage
      ensures (status == More || status.Error?) && Lands(status, goal, rest)
    {
      hide Leads, XxHash32.State.Holds, Independent, Begun, Read32, Checksum;
      var sum := Digest(blockXxh, part);
      RawChecked(info, remaining, done, part, crc, rest);
      if Read32(crc, 0) != sum { return Error(BlockChecksumInvalid); }
      dStage := GetBlockHeader;
      return More;
    }

    // -------------------------------------------------------------- compressed blocks

    /** dstage_getCBlock: the whole block from the input, or piece by piece. */
    method GetCBlockStage(input: seq<uint8>, dst: array<uint8>, dp0: nat, dEnd: nat, ghost goal: Outcome,
        ghost tail: seq<uint8>)
        returns (status: Status, k: nat, dp: nat)
      requires dStage == GetCBlock && Comes(goal, input + tail) && dp0 <= dEnd <= dst.Length && dst !in Repr()
      modifies this`dStage, this`remaining, this`tmpInSize, this`tmpInTarget, this`tmpOutSize, this`tmpOutStart,
        this`done,
               xxh, xxh.mem32, tmpOut, dst
      ensures k <= |input| && dp0 <= dp <= dEnd && Untouched(dst, dp0, dEnd)
      ensures Lands(status, goal, input[k..] + tail) && (!status.Error? ==> done == old(done) + dst[dp0..dp])
      ensures status == More ==> k > 0 || (dStage == StoreCBlock && dp == dp0)
      ensures status.Stop? ==> (k == |input| || dp == dEnd) && 0 < status.hint == Hint()
      ensures status.Stop? ==> Pausing(dStage)
    {
      hide Leads, XxHash32.State.Holds, Independent, Begun;
      dp := dp0;
      if |input| < tmpInTarget {
        tmpInSize := 0;
        dStage := StoreCBlock;
        assert tmpIn[..0] + (input + tail) == input + tail;
        return More, 0, dp;
      }
      k := tmpInTarget;
      assert input[..k] + (input[k..] + tail) == input + tail;
      status, dp := DecodeBlock(input[..k], dst, dp0, dEnd, goal, input[k..] + tail);
    }

    method StoreCBlockStage(input: seq<uint8>, dst: array<uint8>, dp0: nat, dEnd: nat, ghost goal: Outcome,
        ghost tail: seq<uint8>)
        returns (status: Status, k: nat, dp: nat)
      requires dStage == StoreCBlock && Comes(goal, input + tail) && dp0 <= dEnd <= dst.Length && dst !in Repr()
      modifies this`dStage, this`remaining, this`tmpInSize, this`tmpInTarget, this`tmpOutSize, this`tmpOutStart,
        this`done,
               xxh, xxh.mem32, tmpIn, tmpOut, dst
      ensures k <= |input| && dp0 <= dp <= dEnd && Untouched(dst, dp0, dEnd)
      ensures Lands(status, goal, input[k..] + tail) && (!status.Error? ==> done == old(done) + dst[dp0..dp])
      ensures status == More ==> k > 0
      ensures status.Stop? ==> (k == |input| || dp == dEnd) && 0 < status.hint == Hint()
      ensures status.Stop? ==> Pausing(dStage)
    {
      hide Leads, XxHash32.State.Holds, Independent, Begun;
      dp := dp0;
      k := FillBlock(input, goal, tail);
      if tmpInSize < tmpInTarget { return Stop(tmpInTarget - tmpInSize + BH_SIZE), k, dp; }
      status, dp := DecodeBlock(tmpIn[..tmpInTarget], dst, dp0, dEnd, goal, input[k..] + tail);
    }

    /** Takes what there is of the block. */
    method FillBlock(input: seq<uint8>, ghost goal: Outcome, ghost tail: seq<uint8>) returns (k: nat)
      requires dStage == StoreCBlock && Comes(goal, input + tail)
      modifies this`tmpInSize, tmpIn
      ensures AtBoundary() && k <= |input| && tmpInSize == old(tmpInSize) + k <= tmpInTarget <= tmpIn.Length
      ensures tmpInSize < tmpInTarget ==> k == |input|
      ensures goal == Leads(AtCompressed(info, remaining, done, tmpInTarget - CrcSize(info),
        tmpIn[..tmpInSize] + (input[k..] + tail)))
    {
      hide Leads, XxHash32.State.Holds, Independent, Begun;
      ghost var before := tmpIn[..];
      ghost var size := tmpInSize;
      k := Min(tmpInTarget - tmpInSize, |input|);
      CopyIn(tmpIn, tmpInSize, input, 0, k);
      Moved(before, tmpIn[..], size, k, input, tail);
      tmpInSize := tmpInSize + k;
      assert tmpIn[..tmpInSize] == tmpIn[..][..size + k];
    }

    /** A compressed block with its checksum is at hand. */
    method DecodeBlock(selected: seq<uint8>, dst: array<uint8>, dp0: nat, dEnd: nat, ghost goal: Outcome,
        ghost rest: seq<uint8>)
        returns (status: Status, dp: nat)
      requires AtBoundary() && dp0 <= dEnd <= dst.Length && dst !in Repr()
      requires |selected| == tmpInTarget && CrcSize(info) < tmpInTarget
      requires goal == Leads(AtCompressed(info, remaining, done, tmpInTarget - CrcSize(info), selected + rest))
      modifies this`dStage, this`remaining, this`tmpInTarget, this`tmpOutSize, this`tmpOutStart, this`done,
               xxh, xxh.mem32, tmpOut, dst
      ensures dp0 <= dp <= dEnd && Untouched(dst, dp0, dEnd)
      ensures Lands(status, goal, rest) && (!status.Error? ==> done == old(done) + dst[dp0..dp])
      ensures status.Stop? ==> dp == dEnd && 0 < status.hint == Hint()
      ensures status.Stop? ==> Pausing(dStage)
    {
      hide Leads, XxHash32.State.Holds, Independent, Begun, Read32, Checksum, Lz4Reference.Decompress;
      dp := dp0;
      CompressedStep(info, remaining, done, tmpInTarget - CrcSize(info), selected, rest);
      if info.blockChecksum {
        tmpInTarget := tmpInTarget - 4;
        var sum := Hash(selected[..tmpInTarget]);
        if Read32(selected, tmpInTarget) != sum { return Error(BlockChecksumInvalid), dp; }
      }
      if dEnd - dp >= info.maxBlockSize {
        status, dp := DecodeDirect(selected[..tmpInTarget], dst, dp0, goal, rest);
      } else {
        status := DecodeAside(selected[..tmpInTarget], goal, rest);
        if status == More { status, dp := FlushStage(dst, dp0, dEnd, goal, rest); }
      }
    }

    /** Into the output buffer, which has room for the largest block. */
    method DecodeDirect(block: seq<uint8>, dst: array<uint8>, dp0: nat, ghost goal: Outcome, ghost rest: seq<uint8>)
        returns (status: Status, dp: nat)
      requires AtBoundary() && dp0 + info.maxBlockSize <= dst.Length && dst !in Repr()
      requires goal == Leads(AtDecoded(info, remaining, done, Lz4Reference.Decompress(block, [], info.maxBlockSize, 0),
        rest))
      modifies this`dStage, this`remaining, this`done, xxh, xxh.mem32, dst
      ensures dp0 <= dp <= dp0 + info.maxBlockSize && Untouched(dst, dp0, dp0 + info.maxBlockSize)
      ensures (status == More || status.Error?) && Lands(status, goal, rest)
      ensures !status.Error? ==> done == old(done) + dst[dp0..dp]
    {
      hide Leads, XxHash32.State.Holds, Independent, Begun, Lz4Reference.Decompress;
      dp := dp0;
      DecodedStep(info, remaining, done, Lz4Reference.Decompress(block, [], info.maxBlockSize, 0), rest);
      var decodedSize := Lz4Stream.DecompressSafe(block, dst, dp0, info.maxBlockSize);
      if decodedSize < 0 { return Error(Generic), dp; }
      dp := dp0 + decodedSize;
      TakeDecoded(dst[dp0..dp], goal, rest);
      return More, dp;
    }

    /** The content checksum and the size left after more content. */
    method CountContent(bytes: seq<uint8>)
      requires AtBoundary()
      modifies this`remaining, xxh, xxh.mem32
      ensures remaining == Less(info, old(remaining), |bytes|) && (info.contentChecksum ==> xxh.Holds(0, done + bytes))
    {
      hide XxHash32.State.Holds;
      if info.contentChecksum { xxh.Update(bytes, 0, done); }
      if info.contentSize != 0 { remaining := (remaining - |bytes|) % TWO64; }
    }

    /** A decoded block that is handed out. */
    method TakeDecoded(bytes: seq<uint8>, ghost goal: Outcome, ghost rest: seq<uint8>)
      requires AtBoundary() && goal == Leads(AtBlocks(info, Less(info, remaining, |bytes|), done + bytes, rest))
      modifies this`dStage, this`remaining, this`done, xxh, xxh.mem32
      ensures Comes(goal, rest) && done == old(done) + bytes
    {
      hide Leads, XxHash32.State.Holds, Independent, Begun;
      CountContent(bytes);
      done := done + bytes;
      dStage := GetBlockHeader;
    }

    /** Into the context's own buffer. */
    method DecodeAside(block: seq<uint8>, ghost goal: Outcome, ghost rest: seq<uint8>) returns (status: Status)
      requires AtBoundary()
      requires goal == Leads(AtDecoded(info, remaining, done, Lz4Reference.Decompress(block, [], info.maxBlockSize, 0),
        rest))
      modifies this`dStage, this`remaining, this`tmpOutSize, this`tmpOutStart, xxh, xxh.mem32, tmpOut
      ensures (status == More || status.Error?) && Lands(status, goal, rest)
      ensures status == More ==> dStage == FlushOut
    {
      hide Leads, XxHash32.State.Holds, Independent, Begun, Lz4Reference.Decompress;
      DecodedStep(info, remaining, done, Lz4Reference.Decompress(block, [], info.maxBlockSize, 0), rest);
      var decodedSize := Lz4Stream.DecompressSafe(block, tmpOut, 0, info.maxBlockSize);
      if decodedSize < 0 { return Error(DecompressionFailed); }
      KeepAside(decodedSize, goal, rest);
      return More;
    }

    method KeepAside(decodedSize: nat, ghost goal: Outcome, ghost rest: seq<uint8>)
      requires AtBoundary() && decodedSize <= info.maxBlockSize
      requires goal == Leads(AtBlocks(info, Less(info, remaining, decodedSize), done + tmpOut[0..decodedSize], rest))
      modifies this`dStage, this`remaining, this`tmpOutSize, this`tmpOutStart, xxh, xxh.mem32
      ensures dStage == FlushOut && Comes(goal, rest)
    {
      hide Leads, XxHash32.State.Holds, Independent, Begun;
      CountContent(tmpOut[0..decodedSize]);
      tmpOutSize := decodedSize;
      tmpOutStart := 0;
      dStage := FlushOut;
    }

    /** dstage_flushOut */
    method FlushStage(dst: array<uint8>, dp0: nat, dEnd: nat, ghost goal: Outcome, ghost rest: seq<uint8>)
        returns (status: Status, dp: nat)
      requires dStage == FlushOut && Comes(goal, rest) && dp0 <= dEnd <= dst.Length && dst !in Repr()
      modifies this`dStage, this`tmpOutStart, this`done, dst
      ensures dp0 <= dp <= dEnd && Untouched(dst, dp0, dEnd)
      ensures !status.Error? && Lands(status, goal, rest) && done == old(done) + dst[dp0..dp]
      ensures status == More ==> dStage == GetBlockHeader
      ensures status.Stop? ==> dp == dEnd && 0 < status.hint == Hint()
      ensures status.Stop? ==> Pausing(dStage)
    {
      hide Leads, XxHash32.State.Holds, Independent, Begun;
      var k := Min(tmpOutSize - tmpOutStart, dEnd - dp0);
      CopyIn(dst, dp0, tmpOut[..], tmpOutStart, k);
      dp := dp0 + k;
      assert dst[dp0..dp] == tmpOut[tmpOutStart..tmpOutStart + k];
      HandOut(k, goal, rest);
      status := if dStage == GetBlockHeader then More else Stop(BH_SIZE);
    }

    /** The flush went on by k bytes. */
    method HandOut(k: nat, ghost goal: Outcome, ghost rest: seq<uint8>)
      requires dStage == FlushOut && Comes(goal, rest) && k <= tmpOutSize - tmpOutStart
      modifies this`dStage, this`tmpOutStart, this`done
      ensures Comes(goal, rest) && done == old(done) + tmpOut[old(tmpOutStart)..old(tmpOutStart) + k]
      ensures dStage == if k == old(tmpOutSize - tmpOutStart) then GetBlockHeader else FlushOut
    {
      hide Leads, XxHash32.State.Holds, Independent, Begun;
      ghost var piece, left := tmpOut[tmpOutStart..tmpOutStart + k], tmpOut[tmpOutStart + k..tmpOutSize];
      assert tmpOut[tmpOutStart..tmpOutSize] == piece + left;
      assert done + (piece + left) == done + piece + left;
      done := done + piece;
      tmpOutStart := tmpOutStart + k;
      if tmpOutStart == tmpOutSize {
        dStage := GetBlockHeader;
        assert left == [] && done + left == done;
      }
    }

    // -------------------------------------------------------------- end of frame

    /** After a stage or a call: total is the content of the frame handed out.  A hint of 0
        tells that the frame is complete. */
    ghost predicate Ends(status: Status, goal: Outcome, rest: seq<uint8>, total: seq<uint8>)
      reads this, Repr()
    {
      if status == Stop(0) then Valid() && dStage == GetFrameHeader && goal == Done(total, rest)
      else Lands(status, goal, rest) && (!status.Error? ==> done == total)
    }

    /** dstage_getSuffix */
    method GetSuffixStage(input: seq<uint8>, ghost goal: Outcome, ghost tail: seq<uint8>)
        returns (status: Status, k: nat)
      requires dStage == GetSuffix && Comes(goal, input + tail)
      modifies this`dStage, this`tmpInSize, this`done, this`stale, tmpIn
      ensures k <= |input| && status != More && Ends(status, goal, input[k..] + tail, old(done))
      ensures old(stale) == 0 ==> stale == 0
      ensures status.Stop? && status.hint > 0 ==> k == |input| && Pausing(dStage) && status.hint == Hint()
    {
      hide Leads, XxHash32.State.Holds, Independent, Begun;
      SuffixStep(info, remaining, done, input + tail);
      if remaining != 0 { return Error(FrameSizeWrong), 0; }
      if !info.contentChecksum {
        Reset();
        assert input[0..] == input;
        return Stop(0), 0;
      }
      status, k := SuffixChecksumStage(input, goal, tail);
    }

    /** The content checksum from the input, or piece by piece. */
    method SuffixChecksumStage(input: seq<uint8>, ghost goal: Outcome, ghost tail: seq<uint8>)
        returns (status: Status, k: nat)
      requires AtBoundary() && dStage != FlushOut && info.contentChecksum && remaining == 0
      requires goal == Leads(AtSuffixChecksum(done, input + tail))
      modifies this`dStage, this`tmpInSize, this`done, this`stale, tmpIn
      ensures k <= |input| && status != More && Ends(status, goal, input[k..] + tail, old(done))
      ensures old(stale) == 0 ==> stale == 0
      ensures status.Stop? && status.hint > 0 ==> k == |input| && Pausing(dStage) && status.hint == Hint()
    {
      hide Leads, XxHash32.State.Holds, Independent, Begun;
      if |input| < 4 {
        tmpInSize := 0;
        dStage := StoreSuffix;
        assert tmpIn[..0] + (input + tail) == input + tail;
        status, k := StoreSuffixStage(input, goal, tail);
      } else {
        k := 4;
        assert input[..4] + (input[4..] + tail) == input + tail;
        status := CheckSuffixStage(input[..4], goal, input[4..] + tail);
      }
    }

    method StoreSuffixStage(input: seq<uint8>, ghost goal: Outcome, ghost tail: seq<uint8>)
        returns (status: Status, k: nat)
      requires dStage == StoreSuffix && Comes(goal, input + tail)
      modifies this`dStage, this`tmpInSize, this`done, this`stale, tmpIn
      ensures k <= |input| && status != More && Ends(status, goal, input[k..] + tail, old(done))
      ensures old(stale) == 0 ==> stale == 0
      ensures status.Stop? && status.hint > 0 ==> k == |input| && Pausing(dStage) && status.hint == Hint()
    {
      hide Leads, XxHash32.State.Holds, Independent, Begun;
      ghost var before := tmpIn[..];
      ghost var size := tmpInSize;
      k := Min(4 - tmpInSize, |input|);
      CopyIn(tmpIn, tmpInSize, input, 0, k);
      Moved(before, tmpIn[..], size, k, input, tail);
      tmpInSize := tmpInSize + k;
      assert tmpIn[..tmpInSize] == tmpIn[..][..size + k];
      if tmpInSize < 4 { return Stop(4 - tmpInSize), k; }
      status := CheckSuffixStage(tmpIn[..4], goal, input[k..] + tail);
    }

    method CheckSuffixStage(crc: seq<uint8>, ghost goal: Outcome, ghost rest: seq<uint8>) returns (status: Status)
      requires AtBoundary() && info.contentChecksum && |crc| == 4 && goal == Leads(AtSuffixChecksum(done, crc + rest))
        && remaining == 0
      modifies this`dStage, this`done, this`stale
      ensures (status == Stop(0) || status.Error?) && Ends(status, goal, rest, old(done))
      ensures old(stale) == 0 ==> stale == 0
    {
      hide Leads, XxHash32.State.Holds, Independent, Begun, Read32, Checksum;
      var sum := Digest(xxh, done);
      SuffixChecked(done, crc, rest);
      if Read32(crc, 0) != sum { return Error(ContentChecksumInvalid); }
      Reset();
      return Stop(0);
    }

    // -------------------------------------------------------------- skippable frames

    /** dstage_getSFrameSize */
    method GetSFrameSizeStage(input: seq<uint8>, ghost goal: Outcome, ghost tail: seq<uint8>)
        returns (status: Status, k: nat)
      requires dStage == GetSFrameSize && Comes(goal, input + tail)
      modifies this`dStage, this`tmpInSize, this`tmpInTarget, header
      ensures k <= |input| && Lands(status, goal, input[k..] + tail) && !status.Error?
      ensures status == More ==> k > 0
      ensures status.Stop? ==> k == |input| && 0 < status.hint == Hint()
      ensures status.Stop? ==> Pausing(dStage)
    {
      hide Leads, XxHash32.State.Holds, Independent, Begun, Read32, Checksum;
      if |input| >= 4 {
        k := 4;
        assert input[..4] + (input[4..] + tail) == input + tail;
        StartSkip(input[..4], goal, input[4..] + tail);
        return More, k;
      }
      AwaitSFrameSize(goal, input + tail);
      status, k := StoreSFrameSizeStage(input, goal, tail);
    }

    method AwaitSFrameSize(ghost goal: Outcome, ghost rest: seq<uint8>)
      requires dStage == GetSFrameSize && Comes(goal, rest)
      modifies this`dStage, this`tmpInSize, this`tmpInTarget
      ensures dStage == StoreSFrameSize && Comes(goal, rest)
    {
      hide Leads, XxHash32.State.Holds, Independent, Begun;
      tmpInSize, tmpInTarget, dStage := 4, 8, StoreSFrameSize;
      assert header[4..4] + rest == rest;
    }

    method StoreSFrameSizeStage(input: seq<uint8>, ghost goal: Outcome, ghost tail: seq<uint8>)
        returns (status: Status, k: nat)
      requires dStage == StoreSFrameSize && Comes(goal, input + tail)
      modifies this`dStage, this`tmpInSize, this`tmpInTarget, header
      ensures k <= |input| && Lands(status, goal, input[k..] + tail) && !status.Error?
      ensures status == More ==> k > 0
      ensures status.Stop? ==> k == |input| && 0 < status.hint == Hint()
      ensures status.Stop? ==> Pausing(dStage)
    {
      hide Leads, XxHash32.State.Holds, Independent, Begun, Read32, Checksum;
      ghost var before := header[..];
      ghost var size := tmpInSize;
      k := Min(tmpInTarget - tmpInSize, |input|);
      CopyIn(header, tmpInSize, input, 0, k);
      MovedBehind(before, header[..], 4, size, k, input, tail);
      tmpInSize := tmpInSize + k;
      assert header[4..tmpInSize] == header[..][4..size + k];
      if tmpInSize < tmpInTarget { return Stop(tmpInTarget - tmpInSize), k; }
      StartSkip(header[4..8], goal, input[k..] + tail);
      return More, k;
    }

    method StartSkip(size: seq<uint8>, ghost goal: Outcome, ghost rest: seq<uint8>)
      requires Separate() && BuffersOk() && !WithinBlocks(dStage) && done == [] && |size| == 4
        && goal == Leads(AtSkipSize(size + rest))
      requires remaining == stale
      modifies this`dStage, this`tmpInTarget
      ensures Comes(goal, rest) && dStage == SkipSkippable
    {
      hide Leads, XxHash32.State.Holds, Independent, Begun, Read32, Checksum;
      SkipSizeStep(size, rest);
      tmpInTarget := Read32(size, 0);
      dStage := SkipSkippable;
    }

    /** dstage_skipSkippable */
    method SkipStage(input: seq<uint8>, ghost goal: Outcome, ghost tail: seq<uint8>) returns (status: Status, k: nat)
      requires dStage == SkipSkippable && Comes(goal, input + tail)
      modifies this`dStage, this`tmpInTarget, this`done, this`stale
      ensures k <= |input| && status.Stop? && stale == old(stale)
      ensures (status.hint > 0 ==> k == |input| && Paused() && Comes(goal, input[k..] + tail)
                                   && done == old(done) && status.hint == Hint())
      ensures status.hint == 0 ==> Valid() && dStage == GetFrameHeader && goal == Done(old(done), input[k..] + tail)
    {
      hide Leads, XxHash32.State.Holds, Independent, Begun;
      k := Min(tmpInTarget, |input|);
      SkipPart(tmpInTarget, input + tail, k);
      assert (input + tail)[k..] == input[k..] + tail;
      tmpInTarget := tmpInTarget - k;
      status := Stop(tmpInTarget);
      if tmpInTarget == 0 { Reset(); }
    }

    // -------------------------------------------------------------- the stage loop

    /** A stage that writes no content. */
    method InputStep(input: seq<uint8>, full: bool, ghost goal: Outcome, ghost tail: seq<uint8>)
        returns (status: Status, k: nat)
      requires Comes(goal, input + tail) && !WritesContent(dStage) && !WithinBlocks(dStage)
      modifies this`info, this`dStage, this`remaining, this`maxBufferSize, this`tmpIn, this`tmpOut, this`tmpInSize,
        this`tmpInTarget,
               this`tmpOutStart, this`tmpOutSize, this`done, this`part, this`stale,
               header, tmpIn, xxh, xxh.mem32, blockXxh, blockXxh.mem32
      ensures k <= |input| && (tmpIn == old(tmpIn) || fresh(tmpIn)) && (tmpOut == old(tmpOut) || fresh(tmpOut))
      ensures Ends(status, goal, input[k..] + tail, old(done)) && (old(stale) == 0 ==> stale == 0)
      ensures status == More ==> k > 0
      ensures status.Stop? && status.hint > 0 ==> (k == |input| || full) && Paused() && status.hint == Hint()
    {
      hide Leads, XxHash32.State.Holds, Independent, Begun, Comes, Admits;
      match dStage {
        case GetFrameHeader =>
          status, k := GetFrameHeaderStage(input, goal, tail);
        case StoreFrameHeader =>
          status, k := StoreFrameHeaderStage(input, goal, tail);
        case InitFrame =>
          InitStage(goal, input + tail);
          status, k := GetBlockHeaderStage(input, full, goal, tail);
        case GetSFrameSize =>
          status, k := GetSFrameSizeStage(input, goal, tail);
        case StoreSFrameSize =>
          status, k := StoreSFrameSizeStage(input, goal, tail);
        case SkipSkippable =>
          status, k := SkipStage(input, goal, tail);
      }
    }

    /** A stage between or behind the blocks. */
    method BoundaryStep(input: seq<uint8>, full: bool, ghost goal: Outcome, ghost tail: seq<uint8>)
        returns (status: Status, k: nat)
      requires Comes(goal, input + tail) && !WritesContent(dStage) && WithinBlocks(dStage)
      modifies this`dStage, this`tmpInSize, this`tmpInTarget, this`done, this`part, this`stale, header, tmpIn,
        blockXxh, blockXxh.mem32
      ensures k <= |input| && Ends(status, goal, input[k..] + tail, old(done)) && (old(stale) == 0 ==> stale == 0)
      ensures status == More ==> k > 0
      ensures status.Stop? && status.hint > 0 ==> (k == |input| || full) && Paused() && status.hint == Hint()
    {
      hide Leads, XxHash32.State.Holds, Independent, Begun, Comes, Admits;
      match dStage {
        case GetBlockHeader =>
          status, k := GetBlockHeaderStage(input, full, goal, tail);
        case StoreBlockHeader =>
          status, k := StoreBlockHeaderStage(input, full, goal, tail);
        case GetBlockChecksum =>
          status, k := GetBlockChecksumStage(input, goal, tail);
        case GetSuffix =>
          status, k := GetSuffixStage(input, goal, tail);
        case StoreSuffix =>
          status, k := StoreSuffixStage(input, goal, tail);
      }
    }

    /** A stage that may write content. */
    method OutputStep(input: seq<uint8>, dst: array<uint8>, dp0: nat, dEnd: nat, ghost goal: Outcome,
        ghost tail: seq<uint8>)
        returns (status: Status, k: nat, dp: nat)
      requires Comes(goal, input + tail) && WritesContent(dStage) && dp0 <= dEnd <= dst.Length && dst !in Repr()
      modifies this`dStage, this`remaining, this`tmpInSize, this`tmpInTarget, this`tmpOutSize, this`tmpOutStart,
        this`done, this`part,
               tmpIn, tmpOut, xxh, xxh.mem32, blockXxh, blockXxh.mem32, dst
      ensures k <= |input| && dp0 <= dp <= dEnd && Untouched(dst, dp0, dEnd)
      ensures status != Stop(0) && Lands(status, goal, input[k..] + tail)
        && (!status.Error? ==> done == old(done) + dst[dp0..dp])
      ensures status == More ==> k > 0 || Rank(dStage) < old(Rank(dStage))
      ensures status.Stop? ==> (k == |input| || dp == dEnd) && status.hint == Hint() && Pausing(dStage)
    {
      hide Leads, XxHash32.State.Holds, Independent, Begun, Comes, Admits;
      k, dp := 0, dp0;
      match dStage {
        case CopyDirect =>
          status, k := CopyDirectStage(input, dst, dp, dEnd, goal, tail);
          dp := dp + k;
        case GetCBlock =>
          status, k, dp := GetCBlockStage(input, dst, dp, dEnd, goal, tail);
        case StoreCBlock =>
          status, k, dp := StoreCBlockStage(input, dst, dp, dEnd, goal, tail);
        case FlushOut =>
          assert input[0..] == input;
          status, dp := FlushStage(dst, dp, dEnd, goal, input + tail);
      }
    }

    /** One stage. */
    method Step(input: seq<uint8>, dst: array<uint8>, dp0: nat, dEnd: nat, ghost goal: Outcome, ghost tail: seq<uint8>)
        returns (status: Status, k: nat, dp: nat)
      requires Comes(goal, input + tail) && dp0 <= dEnd <= dst.Length && dst !in Repr()
      modifies Repr(), dst
      ensures k <= |input| && dp0 <= dp <= dEnd && Untouched(dst, dp0, dEnd)
      ensures fresh(Repr() - old(Repr())) && dst !in Repr()
      ensures Ends(status, goal, input[k..] + tail, old(done) + dst[dp0..dp]) && (old(stale) == 0 ==> stale == 0)
      ensures status == More ==> k > 0 || Rank(dStage) < old(Rank(dStage))
      ensures status.Stop? && status.hint > 0 ==> (k == |input| || dp == dEnd) && Paused() && status.hint == Hint()
    {
      hide Leads, XxHash32.State.Holds, Independent, Begun, Lands, Comes;
      if WritesContent(dStage) {
        status, k, dp := OutputStep(input, dst, dp0, dEnd, goal, tail);
      } else {
        dp := dp0;
        if WithinBlocks(dStage) {
          status, k := BoundaryStep(input, dp == dEnd, goal, tail);
        } else {
          status, k := InputStep(input, dp == dEnd, goal, tail);
        }
        assert dst[dp0..dp] == [] && old(done) + [] == old(done);
      }
    }

    /** The stage loop.  It ends, and a hint other than 0 comes only when all input is read or the
        output buffer is full. */
    method StageLoop(src: seq<uint8>, dst: array<uint8>, d0: nat, dstSize: nat, ghost goal: Outcome,
        ghost tail: seq<uint8>)
        returns (status: Status, srcRead: nat, written: nat)
      requires Comes(goal, src + tail) && d0 + dstSize <= dst.Length && dst !in Repr()
      modifies Repr(), dst
      ensures srcRead <= |src| && written <= dstSize && Untouched(dst, d0, d0 + dstSize) && status != More
      ensures fresh(Repr() - old(Repr())) && dst !in Repr()
      ensures Ends(status, goal, src[srcRead..] + tail, old(done) + dst[d0..d0 + written])
        && (old(stale) == 0 ==> stale == 0)
      ensures (status.Stop? && status.hint > 0 ==>
        (srcRead == |src| || written == dstSize) && Paused() && status.hint == Hint())
    {
      hide Leads, XxHash32.State.Holds, Independent, Begun, Lands, Comes, Ends, Paused, Separate, BuffersOk, Intact;
      status, srcRead, written := More, 0, 0;
      assert src[0..] == src && done + dst[d0..d0] == done;
      LandsComes(goal, src + tail, done);
      while status == More
        invariant srcRead <= |src| && written <= dstSize && Untouched(dst, d0, d0 + dstSize)
        invariant fresh(Repr() - old(Repr())) && dst !in Repr()
        invariant Ends(status, goal, src[srcRead..] + tail, old(done) + dst[d0..d0 + written])
        invariant old(stale) == 0 ==> stale == 0
        invariant (status.Stop? && status.hint > 0 ==>
          (srcRead == |src| || written == dstSize) && Paused() && status.hint == Hint())
        decreases status == More, |src| - srcRead, Rank(dStage)
      {
        var k, dp;
        ghost var before := dst[d0..d0 + written];
        LandsComes(goal, src[srcRead..] + tail, old(done) + before);
        status, k, dp := Step(src[srcRead..], dst, d0 + written, d0 + dstSize, goal, tail);
        assert src[srcRead..][k..] == src[srcRead + k..];
        assert dst[d0..d0 + written] == before;
        Behind(old(done), dst[..], d0, d0 + written, dp);
        srcRead, written := srcRead + k, dp - d0;
      }
    }

    /** LZ4F_decompress: the bytes read and written, none of them if there is an error, and the
        result. */
    method Decompress(src: seq<uint8>, dst: array<uint8>, d0: nat, dstSize: nat, ghost goal: Outcome,
        ghost tail: seq<uint8>)
        returns (status: Status, srcRead: nat, written: nat)
      requires Comes(goal, src + tail) && d0 + dstSize <= dst.Length && dst !in Repr()
      modifies Repr(), dst
      ensures srcRead <= |src| && written <= dstSize && Untouched(dst, d0, d0 + dstSize) && status != More
      ensures fresh(Repr() - old(Repr())) && dst !in Repr()
      ensures Ends(status, goal, src[srcRead..] + tail, old(done) + dst[d0..d0 + written])
        && (old(stale) == 0 ==> stale == 0)
      ensures (status.Stop? && status.hint > 0 ==>
        (srcRead == |src| || written == dstSize) && Paused() && status.hint == Hint())
      ensures status.Error? ==> srcRead == 0 && written == 0
    {
      hide Leads, XxHash32.State.Holds, Independent, Begun, Lands, Comes, Ends, Paused, Separate, BuffersOk, Intact;
      status, srcRead, written := StageLoop(src, dst, d0, dstSize, goal, tail);
      if status.Error? {
        ErrorEnds(status, goal, src[srcRead..] + tail, old(done) + dst[d0..d0 + written], src[0..] + tail,
                  old(done) + dst[d0..d0]);
        srcRead, written := 0, 0;
      }
    }

    /** An error ends the frame, whatever was read and written. */
    lemma ErrorEnds(status: Status, goal: Outcome, rest: seq<uint8>, total: seq<uint8>, rest1: seq<uint8>,
        total1: seq<uint8>)
      requires status.Error? && Ends(status, goal, rest, total)
      ensures Ends(status, goal, rest1, total1)
    {
    }

    /** Going on from one stage to the next. */
    lemma LandsComes(goal: Outcome, rest: seq<uint8>, total: seq<uint8>)
      ensures Ends(More, goal, rest, total) <==> Comes(goal, rest) && done == total
    {
    }

    /** What was handed out so far begins the content of a complete or wrong frame. */
    lemma HandedOutBegins(goal: Outcome, rest: seq<uint8>)
      requires Comes(goal, rest) && !goal.Truncated?
      ensures done <= goal.content
    {
      hide Leads, XxHash32.State.Holds, Independent, Begun;
      LeadsFurther(Place(rest));
    }

    /** A call that has read all there is ends only where input is missing, not in a complete
        frame and not in a wrong one. */
    lemma NotStuck(goal: Outcome)
      requires Comes(goal, []) && Paused()
      ensures goal == Truncated
    {
      hide Leads, XxHash32.State.Holds, Independent, Begun, ParseHeader;
      var p := Place([]);
      if dStage == StoreFrameHeader {
        assert header[..tmpInSize] + [] == header[..tmpInSize];
        StoredIsShort(header[..], tmpInSize, tmpInTarget);
        assert header[..][..tmpInSize] == header[..tmpInSize];
      }
      if dStage == GetFrameHeader { NothingIsShort(); }
      LackingIsTruncated(p);
    }

    /** A new frame may start here. */
    ghost predicate Ready()
      reads this, Repr()
    {
      Valid() && dStage == GetFrameHeader
    }

  }

  /** The bytes from p to q lie behind those from d0 to p. */
  lemma Behind(done: seq<uint8>, dst: seq<uint8>, d0: nat, p: nat, q: nat)
    requires d0 <= p <= q <= |dst|
    ensures done + dst[d0..p] + dst[p..q] == done + dst[d0..q]
  {
    assert dst[d0..q] == dst[d0..p] + dst[p..q];
  }

  /** Filling up a buffer moves bytes from the input to what is stored. */
  lemma Stored(old_: seq<uint8>, new_: seq<uint8>, size: nat, target: nat, k: nat, input: seq<uint8>, tail: seq<uint8>)
    requires |old_| == |new_| && size + k <= |new_| && k <= |input|
    requires new_[size..size + k] == input[..k] && forall i :: 0 <= i < size ==> new_[i] == old_[i]
    ensures new_[..size + k] + (input[k..] + tail) == old_[..size] + (input + tail)
    ensures MIN_FH_SIZE <= size ==> Begun(new_, target) == Begun(old_, target)
  {
    hide Begun;
    Moved(old_, new_, size, k, input, tail);
    assert new_[..size] == old_[..size];
    if MIN_FH_SIZE <= size { SameStart(old_, new_, size, target); }
  }

  lemma Moved(old_: seq<uint8>, new_: seq<uint8>, size: nat, k: nat, input: seq<uint8>, tail: seq<uint8>)
    requires |old_| == |new_| && size + k <= |new_| && k <= |input|
    requires new_[size..size + k] == input[..k] && forall i :: 0 <= i < size ==> new_[i] == old_[i]
    ensures new_[..size + k] + (input[k..] + tail) == old_[..size] + (input + tail)
  {
    assert new_[..size] == old_[..size];
    assert new_[..size + k] == new_[..size] + new_[size..size + k];
    assert input == input[..k] + input[k..];
  }

  lemma MovedBehind(old_: seq<uint8>, new_: seq<uint8>, from: nat, size: nat, k: nat, input: seq<uint8>,
      tail: seq<uint8>)
    requires |old_| == |new_| && from <= size && size + k <= |new_| && k <= |input|
    requires new_[size..size + k] == input[..k] && forall i :: 0 <= i < size ==> new_[i] == old_[i]
    ensures new_[from..size + k] + (input[k..] + tail) == old_[from..size] + (input + tail)
  {
    assert new_[from..size] == old_[from..size];
    assert new_[from..size + k] == new_[from..size] + new_[size..size + k];
    assert input == input[..k] + input[k..];
  }

  lemma LongEnough(s: seq<uint8>)
    requires MAX_FH_SIZE <= |s|
    ensures !ParseHeader(s).Short?
  {
    hide Checksum, Read32, InfoOf;
  }

  /** Every call offers a byte and has room for one. */
  ghost predicate Generous(calls: seq<(nat, nat)>) {
    forall c <- calls :: c.0 > 0 && c.1 > 0
  }

  /** Calls over any cuts of the input, each with a buffer of any size: a pair holds the bytes
      offered and the room given.  The concatenated output always begins the content, it is the
      whole content when a call returns 0, and an error means that the frame is not valid; the
      context can then be reset.  If every call offers a byte and has room for one, as many calls as
      the frame and its content have bytes complete a valid frame and report a wrong one. */
  method DecodeFrame(ctx: Dctx, stream: seq<uint8>, calls: seq<(nat, nat)>)
      returns (last: Status, out: seq<uint8>, pos: nat)
    requires ctx.Ready() && Independent(stream)
    modifies ctx.Repr()
    ensures pos <= |stream| && fresh(ctx.Repr() - old(ctx.Repr()))
    ensures var goal := Frame(old(ctx.stale), stream);
      (last == Stop(0) ==> goal == Done(out, stream[pos..]) && ctx.Ready())
      && (last.Error? ==> goal.Failed? && Reports(last.code, goal.code) && ctx.Intact())
      && (!goal.Truncated? ==> out <= goal.content)
      && (!goal.Truncated? && Generous(calls) && |calls| >= |stream| + |goal.content| ==>
           if goal.Done? then last == Stop(0) else last.Error?)
    ensures old(ctx.stale) == 0 ==> ctx.stale == 0
  {
    hide Frame, Independent, ParseHeader, Leads, XxHash32.State.Holds, Dctx.HashesOk, Dctx.Comes, Dctx.Intact;
    ghost var goal := Frame(ctx.stale, stream);
    last, out, pos := Stop(1), [], 0;
    assert stream[0..] == stream;
    StartsUnder(ctx, goal, stream);
    var i := 0;
    while i < |calls|
      invariant i <= |calls| && last.Stop? && last.hint > 0 && fresh(ctx.Repr() - old(ctx.Repr()))
      invariant Under(ctx, goal, stream, pos, out) && (old(ctx.stale) == 0 ==> ctx.stale == 0)
      invariant !goal.Truncated? && Generous(calls) ==> i <= pos + |out|
    {
      StandsStill(ctx, goal, stream, pos, out);
      last, out, pos := Call(ctx, stream, pos, calls[i].0, calls[i].1, out, goal);
      i := i + 1;
      if last == Stop(0) || last.Error? { return; }
    }
    StandsStill(ctx, goal, stream, pos, out);
  }

  lemma StartsUnder(ctx: Dctx, goal: Outcome, stream: seq<uint8>)
    requires ctx.Ready() && Independent(stream) && goal == Frame(ctx.stale, stream)
    ensures Under(ctx, goal, stream, 0, [])
  {
    hide Frame, Independent, XxHash32.State.Holds;
    assert stream[0..] == stream;
  }

  /** As long as calls ask for more in a frame that is all there, input is left, and the output
      begins the content. */
  lemma StandsStill(ctx: Dctx, goal: Outcome, stream: seq<uint8>, pos: nat, out: seq<uint8>)
    requires Under(ctx, goal, stream, pos, out)
    ensures !goal.Truncated? ==> pos < |stream| && out <= goal.content
  {
    hide Leads, Independent, XxHash32.State.Holds, Dctx.Comes, Dctx.Paused;
    if !goal.Truncated? { ctx.HandedOutBegins(goal, stream[pos..]); }
    if pos == |stream| {
      assert stream[pos..] == [];
      ctx.NotStuck(goal);
    }
  }

  /** The frame in stream is decoded up to pos, out was handed out, and a call may begin. */
  ghost predicate Under(ctx: Dctx, goal: Outcome, stream: seq<uint8>, pos: nat, out: seq<uint8>)
    reads ctx, ctx.Repr()
  {
    pos <= |stream| && ctx.Comes(goal, stream[pos..]) && ctx.done == out && ctx.Paused()
  }

  /** One call with a buffer of its own. */
  method Call(ctx: Dctx, stream: seq<uint8>, pos0: nat, offered: nat, room: nat, out0: seq<uint8>, ghost goal: Outcome)
      returns (last: Status, out: seq<uint8>, pos: nat)
    requires Under(ctx, goal, stream, pos0, out0)
    modifies ctx.Repr()
    ensures fresh(ctx.Repr() - old(ctx.Repr())) && last != More && pos <= |stream|
    ensures last == Stop(0) ==> goal == Done(out, stream[pos..]) && ctx.Ready()
    ensures last.Error? ==> goal.Failed? && Reports(last.code, goal.code) && ctx.Intact() && out == out0 && pos == pos0
    ensures last.Stop? && last.hint > 0 ==> Under(ctx, goal, stream, pos, out)
    ensures last.Stop? && last.hint > 0 && offered > 0 && room > 0 && pos0 < |stream| ==> pos0 + |out0| < pos + |out|
    ensures old(ctx.stale) == 0 ==> ctx.stale == 0
  {
    hide XxHash32.State.Holds, Dctx.Place, Dctx.Admits, Dctx.HashesOk, Dctx.Shaped, Dctx.Intact, Leads;
    var n := Min(offered, |stream| - pos0);
    var dst := new uint8[room];
    var input := stream[pos0..pos0 + n];
    ghost var tail := stream[pos0 + n..];
    assert input + tail == stream[pos0..];
    var srcRead, written;
    last, srcRead, written := ctx.Decompress(input, dst, 0, room, goal, tail);
    out := out0 + dst[0..written];
    assert input[srcRead..] + tail == stream[pos0 + srcRead..];
    pos := pos0 + srcRead;
  }

  /** One call that is offered the rest of a frame.  If there is more room than the content needs,
      the call completes a valid frame, handing out the rest of the content, and reports a wrong
      one. */
  method FinishFrame(ctx: Dctx, rest: seq<uint8>, room: nat, ghost goal: Outcome)
      returns (last: Status, out: seq<uint8>, read: nat)
    requires ctx.Comes(goal, rest)
    modifies ctx.Repr()
    ensures read <= |rest| && (last == Stop(0) ==> goal == Done(old(ctx.done) + out, rest[read..]))
    ensures !goal.Truncated? && |goal.content| < |old(ctx.done)| + room ==>
      if goal.Done? then last == Stop(0) else last.Error?
  {
    hide Dctx.Place, Dctx.Admits, Dctx.HashesOk, Dctx.Shaped, Dctx.Intact, Leads;
    var dst := new uint8[room];
    assert rest + [] == rest;
    var written;
    last, read, written := ctx.Decompress(rest, dst, 0, room, goal, []);
    out := dst[0..written];
    assert rest[read..] + [] == rest[read..];
    if last.Stop? && last.hint > 0 && !goal.Truncated? && |goal.content| < |old(ctx.done)| + room {
      ctx.HandedOutBegins(goal, rest[read..]);
      assert |old(ctx.done) + out| <= |goal.content|;
      assert rest[read..] == [];
      ctx.NotStuck(goal);
    }
  }

  /** A valid frame offered at once, with more room than its content needs, to a context that
      may have abandoned earlier frames: it is decoded if and only if it has a content size field
      or the earlier frames left no bytes open, and otherwise there is an error. */
  method OfferFrame(ctx: Dctx, stream: seq<uint8>, room: nat) returns (last: Status, out: seq<uint8>, read: nat)
    requires ctx.Ready() && Independent(stream) && ParseHeader(stream).Regular?
    requires Frame(0, stream).Done? && |Frame(0, stream).content| < room
    modifies ctx.Repr()
    ensures read <= |stream| && (last == Stop(0) <==> ParseHeader(stream).sized || old(ctx.stale) == 0)
    ensures last == Stop(0) ==> Frame(0, stream) == Done(out, stream[read..])
    ensures last != Stop(0) ==> last.Error?
  {
    hide ParseHeader, Blocks, XxHash32.State.Holds, Independent, Dctx.Comes;
    ghost var goal := Frame(ctx.stale, stream);
    StaleCount(ctx.stale, stream);
    StartsUnder(ctx, goal, stream);
    assert stream[0..] == stream;
    last, out, read := FinishFrame(ctx, stream, room, goal);
    assert [] + out == out;
  }
}
