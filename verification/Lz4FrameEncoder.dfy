/** LZ4F_compressBegin, LZ4F_compressUpdate, LZ4F_flush and LZ4F_compressEnd of lz4frame.c for
    independent blocks, fast compression levels and no dictionary. */
module Lz4FrameEncoder {
  import opened MachineInts
  import opened Arithmetic
  import opened Lz4Memory
  import opened Lz4FrameFormat
  import opened Lz4FrameWriting
  import Lz4FrameDecoder
  import Lz4Greedy
  import opened Lz4Incompressible
  import Lz4Reference
  import Lz4RoundTrip
  import Lz4Stream
  import XxHash32
  import opened TwosComplement
  import Lz4FrameLayout

  /** More than LZ4_compressBound exceeds the size of any block. */
  const SLACK: nat := 0x5000

  datatype EncodeResult = Written(n: nat) | EncodeError(code: ErrorCode)

  /** LZ4F_writeLE32 and LZ4F_writeLE64. */
  method WriteLE(dst: array<uint8>, at: nat, n: nat, k: nat)
    requires at + k <= dst.Length
    modifies dst
    ensures dst[at..at + k] == LE(n, k) && Untouched(dst, at, at + k)
  {
    var i, left := 0, n;
    ghost var rest := LE(n, k);
    while i < k
      invariant 0 <= i <= k && dst[at..at + i] + LE(left, k - i) == LE(n, k)
      invariant Untouched(dst, at, at + i)
    {
      ghost var before := dst[at..at + i];
      dst[at + i] := left % 0x100;
      assert dst[at..at + (i + 1)] == before + [left % 0x100];
      i, left := i + 1, left / 0x100;
    }
  }

  /** A number behind the bytes from d0 on. */
  method AppendLE(dst: array<uint8>, d0: nat, at: nat, n: nat, k: nat)
    requires d0 <= at && at + k <= dst.Length
    modifies dst
    ensures dst[d0..at + k] == old(dst[d0..at]) + LE(n, k) && Untouched(dst, at, at + k)
  {
    hide LE;
    ghost var front := dst[d0..at];
    WriteLE(dst, at, n, k);
    assert forall i :: d0 <= i < at ==> dst[i] == front[i - d0];
    assert dst[d0..at] == front;
    assert dst[d0..at + k] == dst[d0..at] + dst[at..at + k];
  }

  /** Room for t bytes in blocks of b with h bytes around each; the last one only if it is flushed. */
  function Room(b: nat, h: nat, t: nat, flush: bool): nat
    requires b > 0
  {
    var lastBlockSize := if flush then t % b else 0;
    var nbBlocks := t / b + (if lastBlockSize > 0 then 1 else 0);
    h * nbBlocks + b * (t / b) + lastBlockSize
  }

  /** LZ4F_compressBound_internal */
  function CompressBoundInternal(srcSize: nat, prefs: Prefs, alreadyBuffered: nat): nat
    requires prefs.Valid()
  {
    var blockSize := BlockSize(prefs.blockSizeID);
    var bufferedSize := if alreadyBuffered < blockSize - 1 then alreadyBuffered else blockSize - 1;
    Room(blockSize, 4 + CrcSize(prefs.FrameInfo()), srcSize + bufferedSize, prefs.autoFlush || srcSize == 0)
    + 4 + (if prefs.contentChecksum then 4 else 0)
  }

  /** What a flush of b bytes writes at most. */
  function FlushSize(p: Prefs, b: nat): nat
    requires p.Valid()
  {
    if b == 0 then 0 else 4 + b + CrcSize(p.FrameInfo())
  }

  /** What the end of a frame with b buffered bytes writes at most. */
  function EndSize(p: Prefs, b: nat): nat
    requires p.Valid()
  {
    FlushSize(p, b) + 4 + (if p.contentChecksum then 4 else 0)
  }

  /** This is what LZ4F_compressBound asks for when there is no further input. */
  lemma BoundOfEnd(p: Prefs, b: nat)
    requires p.Valid() && b < BlockSize(p.blockSizeID)
    ensures CompressBoundInternal(0, p, b) == EndSize(p, b)
  {
    QuotientIs(b, BlockSize(p.blockSizeID), 0);
  }

  /** How many of t bytes stay in the buffer. */
  function Kept(p: Prefs, b: nat, t: nat): nat
    requires b > 0
  {
    if p.autoFlush then 0 else t % b
  }

  lemma BoundIsRoom(srcSize: nat, prefs: Prefs, buffered: nat)
    requires prefs.Valid() && buffered < BlockSize(prefs.blockSizeID)
    ensures Room(BlockSize(prefs.blockSizeID), 4 + CrcSize(prefs.FrameInfo()), srcSize + buffered,
                 prefs.autoFlush || srcSize == 0)
         <= CompressBoundInternal(srcSize, prefs, buffered)
  {
    hide Room;
  }

  /** k full blocks fit, and so does the rest if it is flushed. */
  lemma RoomSuffices(b: nat, h: nat, t: nat, flush: bool, k: nat)
    requires b > 0 && k * b <= t
    ensures k * (b + h) <= Room(b, h, t, flush)
    ensures flush && 0 < t - k * b < b ==> k * (b + h) + h + (t - k * b) <= Room(b, h, t, flush)
  {
    hide Room;
    var n := t / b;
    QuotientIsLargest(t, b, k);
    RoomIs(b, h, t, flush);
    Products(k, n, b, h);
    if flush && 0 < t - k * b < b {
      QuotientIs(t, b, k);
      assert h * (n + 1) == h * n + h;
    }
  }

  lemma RoomIs(b: nat, h: nat, t: nat, flush: bool)
    requires b > 0
    ensures Room(b, h, t, flush) >= h * (t / b) + b * (t / b)
    ensures flush && t % b > 0 ==> Room(b, h, t, flush) == h * (t / b + 1) + b * (t / b) + t % b
  {
    assert h * (t / b + 1) == h * (t / b) + h;
  }

  lemma QuotientIsLargest(t: nat, b: nat, k: nat)
    requires b > 0 && k * b <= t
    ensures k <= t / b
  {
    var n := t / b;
    assert k * b == (k - n - 1) * b + n * b + b;
    if k > n { MulNonNegative(k - n - 1, b); }
  }

  lemma QuotientIs(t: nat, b: nat, k: nat)
    requires b > 0 && k * b <= t && t - k * b < b
    ensures t / b == k && t % b == t - k * b
  {
    ModUnique(t, k, t - k * b, b);
  }

  lemma Products(k: nat, n: nat, b: nat, h: nat)
    requires k <= n
    ensures k * (b + h) <= h * n + b * n
  {
    MulNonNegative(n - k, b);
    MulNonNegative(n - k, h);
    assert k * (b + h) == k * b + k * h;
    assert n * b == k * b + (n - k) * b;
    assert n * h == k * h + (n - k) * h;
  }

  /** What LZ4F_compressBound comes to: the full blocks with their headers and checksums, the rest if
      it is flushed, the end mark and the content checksum.  More than a block less one byte is never
      counted as buffered. */
  lemma BoundIs(srcSize: nat, p: Prefs, buffered: nat, held: nat, full: nat, rest: nat)
    requires p.Valid()
    requires var b := Pow2(8 + 2 * p.blockSizeID);
      held == (if buffered >= b then b - 1 else buffered) && srcSize + held == full * b + rest && rest < b
    ensures var b, h := Pow2(8 + 2 * p.blockSizeID), 4 + (if p.blockChecksum then 4 else 0);
      CompressBoundInternal(srcSize, p, buffered)
      == full * (h + b) + (if rest > 0 && (p.autoFlush || srcSize == 0) then h + rest else 0)
         + 4 + (if p.contentChecksum then 4 else 0)
  {
    hide BlockSize, Pow2;
    Lz4FrameLayout.BlockSizeIs(p.blockSizeID);
    var b, h := BlockSize(p.blockSizeID), 4 + CrcSize(p.FrameInfo());
    MulNonNegative(full, b);
    QuotientIs(srcSize + held, b, full);
    assert full * (h + b) == h * full + b * full;
    assert h * (full + 1) == h * full + h;
  }

  lemma NextSlice(all: seq<uint8>, src: seq<uint8>, p: nat, from: nat, b: nat)
    requires |src| <= |all| && all[|all| - |src|..] == src && p + b <= |src| && from == |all| - |src| + p
    ensures all[..from + b] == all[..from] + src[p..p + b]
  {
    assert src[p..p + b] == all[from..from + b];
  }

  /** Blocks that hold front and a buffer that holds back, of the buffered bytes and the input. */
  lemma Joined(sent: seq<uint8>, now: seq<uint8>, pending: seq<uint8>, src: seq<uint8>, front: seq<uint8>,
      back: seq<uint8>)
    requires front + back == pending + src && now == sent + front
    ensures sent <= now && now[|sent|..] == front && now + back == sent + pending + src
  {
    assert now + back == sent + (front + back);
  }

  lemma SplitAt(s: seq<uint8>, t: seq<uint8>)
    ensures |s + t| == |s| + |t| && (s + t)[..|s + t| - |t|] == s && (s + t)[|s + t| - |t|..] == t
  {
  }

  lemma SumModulo(a: nat, b: nat)
    ensures (a % TWO64 + b) % TWO64 == (a + b) % TWO64
  {
    var x := a % TWO64 + b;
    ModUnique(a + b, a / TWO64 + x / TWO64, x % TWO64, TWO64);
  }

  /** The bytes of a block: the greedy parse of src if it needs less room than src, src itself otherwise. */
  ghost predicate Made(info: Info, b: Lz4Stream.Table, src: seq<uint8>, level: int, bytes: seq<uint8>) {
    |src| > 0
    && var j := Lz4Stream.ReuseJob(b, src, if level < 0 then 1 - level else 1, |src| - 1);
       j.Valid() && |Lz4Stream.ReuseTable(b, src)| == 0x2000
       && var g := Lz4Greedy.Greedy(j, Lz4Stream.ReuseTable(b, src));
          if |src| <= g.need then bytes == RawBlock(info, src)
          else g.anchor <= j.Iend() && bytes == PackedBlock(info, Lz4Greedy.Written(j, g))
  }

  /** Blocks that hold piece, each the greedy parse of its part or that part itself. */
  ghost predicate Blocked(info: Info, level: int, bytes: seq<uint8>, piece: seq<uint8>)
    decreases |piece|
  {
    (bytes == [] && piece == [])
    || exists b: Lz4Stream.Table, k: nat, n: nat ::
         k <= |bytes| && n < |piece| && |piece| - n <= info.maxBlockSize
         && Made(info, b, piece[n..], level, bytes[k..]) && Blocked(info, level, bytes[..k], piece[..n])
  }

  lemma OneMoreBlock(info: Info, level: int, bytes: seq<uint8>, piece: seq<uint8>, b: Lz4Stream.Table,
      block: seq<uint8>,
      src: seq<uint8>)
    requires Blocked(info, level, bytes, piece) && Made(info, b, src, level, block) && 1 <= |src| <= info.maxBlockSize
    ensures Blocked(info, level, bytes + block, piece + src)
  {
    hide Made;
    var x, y := bytes + block, piece + src;
    assert x[..|bytes|] == bytes && x[|bytes|..] == block && y[..|piece|] == piece && y[|piece|..] == src;
  }

  lemma NothingWritten(p: Prefs)
    requires p.Valid()
    ensures Emits(p.FrameInfo(), [], []) && Blocked(p.FrameInfo(), p.level, [], [])
  {
    hide Emits;
    EmitsNothing(p.FrameInfo());
  }

  lemma MadeBy(info: Info, b: Lz4Stream.Table, src: seq<uint8>, level: int, at: nat, n: nat, dst: seq<uint8>,
      u: seq<uint32>)
    requires |src| > 0 && at + n <= |dst|
    requires Lz4Stream.Compressed(Lz4Stream.ReuseJob(b, src, if level < 0 then 1 - level else 1, |src| - 1),
                                  Lz4Stream.ReuseTable(b, src), |src| - 1, at, n, dst, u)
    ensures Made(info, b, src, level, if n == 0 then RawBlock(info, src) else PackedBlock(info, dst[at..at + n]))
  {
    hide Lz4Stream.Prepared, Lz4Greedy.Greedy, Lz4Greedy.Written, RawBlock, PackedBlock;
  }

  class Cctx {
    var prefs: Prefs
    var maxBlockSize: nat
    var maxBufferSize: nat
    var tmpIn: array<uint8>
    var tmpInSize: nat
    var totalInSize: nat
    const xxh: XxHash32.State
    const lz4: Lz4Stream.Stream
    var cStage: nat
    /** The content in the blocks written since the frame began. */
    ghost var sent: seq<uint8>

    ghost function Repr(): set<object>
      reads this
    {
      {this, tmpIn, xxh, xxh.mem32, lz4, lz4.hashTable}
    }

    /** Input that is not in a block yet. */
    ghost function Buffered(): seq<uint8>
      reads this, tmpIn
      requires tmpInSize <= tmpIn.Length
    {
      tmpIn[..tmpInSize]
    }

    ghost predicate Reusable()
      reads this, lz4, lz4.hashTable
    {
      lz4.Valid() && xxh.mem32.Length == 16 && tmpIn != xxh.mem32 && maxBufferSize <= tmpIn.Length
    }

    /** The header is written, and the frame is not ended. */
    ghost predicate Open()
      reads Repr()
    {
      Reusable() && cStage == 1 && prefs.Valid() && maxBlockSize == BlockSize(prefs.blockSizeID)
      && tmpInSize < maxBlockSize && tmpInSize <= tmpIn.Length
      && (if prefs.autoFlush then tmpInSize == 0 else maxBlockSize <= tmpIn.Length)
      && (prefs.contentChecksum ==> xxh.Holds(0, sent + Buffered()))
      && (prefs.contentSize > 0 ==> totalInSize == |sent + Buffered()| % TWO64)
      && -0xFF_FFFF <= prefs.level < 3
    }

    constructor ()
      ensures Reusable() && cStage == 0 && fresh(Repr())
    {
      xxh := new XxHash32.State();
      lz4 := new Lz4Stream.Stream();
      tmpIn := new uint8[0];
      prefs := Prefs(4, false, false, 0, 0, 0, false);
      maxBlockSize, maxBufferSize, tmpInSize, totalInSize, cStage := 0, 0, 0, 0, 0;
      sent := [];
    }

    /** A buffer for one block, unless every call flushes. */
    method MakeRoom()
      requires Reusable()
      modifies this`tmpIn, this`maxBufferSize
      ensures Reusable() && (prefs.autoFlush || maxBlockSize <= tmpIn.Length)
      ensures tmpIn == old(tmpIn) || fresh(tmpIn)
    {
      var requiredBuffSize := if prefs.autoFlush then 0 else maxBlockSize;
      if maxBufferSize < requiredBuffSize {
        tmpIn := new uint8[requiredBuffSize];
        maxBufferSize := requiredBuffSize;
      }
    }

    /** LZ4F_compressBegin; block size 0 selects the default. */
    method CompressBegin(dst: array<uint8>, d0: nat, dstCapacity: nat, preferences: Prefs) returns (r: EncodeResult)
      requires Reusable() && dst !in Repr() && d0 + dstCapacity <= dst.Length
      requires preferences.blockSizeID == 0 || preferences.Valid()
      requires preferences.(blockSizeID := 4).Valid() && -0xFF_FFFF <= preferences.level < 3
      modifies this, xxh, xxh.mem32, dst
      ensures dstCapacity < 19 ==> r == EncodeError(DstMaxSizeTooSmall)
      ensures 19 <= dstCapacity ==> r.Written? && r.n <= 19
      ensures r.Written? ==> Open() && sent == [] && Buffered() == []
      ensures r.Written? ==>
        prefs == (if preferences.blockSizeID == 0 then preferences.(blockSizeID := 4) else preferences)
      ensures r.Written? ==> dst[d0..d0 + r.n] == prefs.Header()
      ensures (tmpIn == old(tmpIn) || fresh(tmpIn)) && Reusable()
    {
      hide Prefs.Header, Prefs.Valid, XxHash32.State.Holds, Lz4Stream.Stream.Valid;
      if dstCapacity < MAX_FH_SIZE { return EncodeError(DstMaxSizeTooSmall); }
      Start(preferences);
      assert dst !in Repr() && Buffered() == [];
      var n := WriteHeader(dst, d0, prefs);
      return Written(n);
    }

    /** The state a frame begins with. */
    method Start(preferences: Prefs)
      requires Reusable() && (preferences.blockSizeID == 0 || preferences.Valid())
      requires preferences.(blockSizeID := 4).Valid() && -0xFF_FFFF <= preferences.level < 3
      modifies this, xxh, xxh.mem32
      ensures Open() && Reusable() && sent == [] && Buffered() == [] && prefs.Valid()
      ensures prefs == (if preferences.blockSizeID == 0 then preferences.(blockSizeID := 4) else preferences)
      ensures tmpIn == old(tmpIn) || fresh(tmpIn)
    {
      hide XxHash32.State.Holds, Lz4Stream.Stream.Valid, BlockSize;
      Configure(preferences);
      tmpInSize := 0;
      sent := [];
      if prefs.contentSize > 0 { totalInSize := 0; }
      cStage := 1;
      assert sent + Buffered() == [];
      xxh.Reset(0);
    }

    /** The preferences, with the default block size, and a buffer for them. */
    method Configure(preferences: Prefs)
      requires Reusable() && (preferences.blockSizeID == 0 || preferences.Valid())
      requires preferences.(blockSizeID := 4).Valid()
      modifies this`prefs, this`maxBlockSize, this`tmpIn, this`maxBufferSize
      ensures Reusable() && prefs.Valid() && maxBlockSize == BlockSize(prefs.blockSizeID)
      ensures prefs == (if preferences.blockSizeID == 0 then preferences.(blockSizeID := 4) else preferences)
      ensures (prefs.autoFlush || maxBlockSize <= tmpIn.Length) && (tmpIn == old(tmpIn) || fresh(tmpIn))
    {
      hide Lz4Stream.Stream.Valid;
      prefs := preferences;
      if prefs.blockSizeID == 0 { prefs := prefs.(blockSizeID := 4); }
      maxBlockSize := BlockSize(prefs.blockSizeID);
      MakeRoom();
    }

    // -------------------------------------------------------------- blocks

    /** LZ4F_compressBlock: one block from whatever earlier calls left; the result must be
        shorter than the input. */
    method CompressBlock(src: seq<uint8>, dst: array<uint8>, at: nat, dstCapacity: nat, level: int) returns (r: nat)
      requires lz4.Valid() && 1 <= |src| <= 0x40_0000 && at + |src| + SLACK - 8 <= dst.Length && -0xFF_FFFF <= level
      modifies lz4, lz4.hashTable, dst
      ensures lz4.Valid() && Untouched(dst, at, at + |src| + SLACK - 8)
      ensures r > 0 ==> r <= dstCapacity && at + r <= dst.Length && Lz4Stream.Regenerates(dst[at..at + r], [], src)
      ensures var b := Lz4Stream.Table(old(lz4.tableType), old(lz4.currentOffset), old(lz4.hashTable[..]));
        Lz4Stream.Compressed(Lz4Stream.ReuseJob(b, src, if level < 0 then 1 - level else 1, dstCapacity),
                             Lz4Stream.ReuseTable(b, src), dstCapacity, at, r, dst[..], lz4.hashTable[..])
    {
      hide Lz4Stream.Regenerates, Lz4Stream.Compressed, Lz4Stream.Prepared, Lz4Stream.ReuseJob, Lz4Stream.ReuseTable;
      var acceleration := if level < 0 then -level + 1 else 1;
      r := lz4.CompressFastReset(src, dst, at, dstCapacity, acceleration);
    }

    /** LZ4F_makeBlock: header, data and checksum, uncompressed unless compression gains a byte. */
    method MakeBlock(dst: array<uint8>, at: nat, src: seq<uint8>) returns (r: nat)
      requires lz4.Valid() && prefs.Valid() && -0xFF_FFFF <= prefs.level && dst !in Repr()
      requires 1 <= |src| <= BlockSize(prefs.blockSizeID) && at + |src| + SLACK <= dst.Length
      modifies lz4, lz4.hashTable, dst
      ensures lz4.Valid() && r <= 4 + |src| + CrcSize(prefs.FrameInfo())
      ensures Incompressible(src) ==> r == 4 + |src| + CrcSize(prefs.FrameInfo())
      ensures Emits(prefs.FrameInfo(), dst[at..at + r], src) && Untouched(dst, at, at + |src| + SLACK)
      ensures var b := Lz4Stream.Table(old(lz4.tableType), old(lz4.currentOffset), old(lz4.hashTable[..]));
        Made(prefs.FrameInfo(), b, src, prefs.level, dst[at..at + r])
    {
      hide Lz4Stream.Regenerates, Emits, Lz4Stream.Compressed, Made, RawBlock, PackedBlock;
      ghost var b := Lz4Stream.Table(lz4.tableType, lz4.currentOffset, lz4.hashTable[..]);
      var cSize := CompressBlock(src, dst, at + 4, |src| - 1, prefs.level);
      MadeBy(prefs.FrameInfo(), b, src, prefs.level, at + 4, cSize, dst[..], lz4.hashTable[..]);
      assert dst[..][at + 4..at + 4 + cSize] == dst[at + 4..at + 4 + cSize];
      if cSize > 0 { r := PackBlock(dst, at, cSize, src); } else { r := StoreBlock(dst, at, src); }
    }

    /** Header and checksum around a compressed block that lies in place. */
    method PackBlock(dst: array<uint8>, at: nat, cSize: nat, ghost src: seq<uint8>) returns (r: nat)
      requires prefs.Valid() && 1 <= cSize < |src| <= BlockSize(prefs.blockSizeID) && at + |src| + SLACK <= dst.Length
      requires Lz4Stream.Regenerates(dst[at + 4..at + 4 + cSize], [], src)
      modifies dst
      ensures r == 4 + cSize + CrcSize(prefs.FrameInfo())
      ensures dst[at..at + r] == PackedBlock(prefs.FrameInfo(), old(dst[at + 4..at + 4 + cSize]))
      ensures Emits(prefs.FrameInfo(), dst[at..at + r], src) && Untouched(dst, at, at + r + 4)
    {
      hide Lz4Stream.Regenerates, Lz4Reference.Decompress, Checksum, LE, Emits;
      ghost var info := prefs.FrameInfo();
      ghost var block := dst[at + 4..at + 4 + cSize];
      WriteLE(dst, at, cSize, 4);
      assert dst[at + 4..at + 4 + cSize] == block;
      Lz4RoundTrip.Regenerated(block, [], src, info.maxBlockSize);
      assert [] + src == src;
      PackedEmits(info, block, src);
      r := WriteCrc(dst, at, cSize, cSize, block);
      assert dst[at..at + r] == PackedBlock(info, block);
    }

    /** The input as it is. */
    method StoreBlock(dst: array<uint8>, at: nat, src: seq<uint8>) returns (r: nat)
      requires prefs.Valid() && 1 <= |src| <= BlockSize(prefs.blockSizeID) && at + |src| + SLACK <= dst.Length
      modifies dst
      ensures r == 4 + |src| + CrcSize(prefs.FrameInfo())
      ensures dst[at..at + r] == RawBlock(prefs.FrameInfo(), src)
      ensures Emits(prefs.FrameInfo(), dst[at..at + r], src) && Untouched(dst, at, at + r + 4)
    {
      hide Checksum, LE, Emits;
      ghost var info := prefs.FrameInfo();
      WriteLE(dst, at, |src| + UNCOMPRESSED_FLAG, 4);
      CopyIn(dst, at + 4, src, 0, |src|);
      RawEmits(info, src);
      assert dst[at..at + 4] == LE(|src| + UNCOMPRESSED_FLAG, 4);
      assert src[0..|src|] == src;
      r := WriteCrc(dst, at, |src|, |src| + UNCOMPRESSED_FLAG, src);
      assert dst[at..at + r] == RawBlock(info, src);
    }

    /** The checksum behind the data of a block. */
    method WriteCrc(dst: array<uint8>, at: nat, n: nat, ghost word: nat, ghost block: seq<uint8>) returns (r: nat)
      requires prefs.Valid() && at + 4 + n + 4 <= dst.Length
      requires dst[at..at + 4] == LE(word, 4) && dst[at + 4..at + 4 + n] == block
      modifies dst
      ensures r == 4 + n + CrcSize(prefs.FrameInfo())
      ensures dst[at..at + r] == LE(word, 4) + block + CrcBytes(prefs.FrameInfo(), block)
      ensures Untouched(dst, at + 4 + n, at + 4 + n + 4)
    {
      hide Checksum, LE;
      r := 4 + n;
      assert dst[at..at + r] == dst[at..at + 4] + dst[at + 4..at + r];
      if prefs.blockChecksum {
        var crc32 := Hash(dst[at + 4..at + 4 + n]);
        AppendLE(dst, at, at + r, crc32, 4);
        r := r + 4;
      }
    }

    // -------------------------------------------------------------- updates

    /** What a call has written so far: blocks that hold piece. */
    ghost predicate Wrote(dst: array<uint8>, d0: nat, w: nat, piece: seq<uint8>)
      reads this`prefs, dst
    {
      prefs.Valid() && d0 + w <= dst.Length && Emits(prefs.FrameInfo(), dst[d0..d0 + w], piece)
      && Blocked(prefs.FrameInfo(), prefs.level, dst[d0..d0 + w], piece)
    }

    /** One more block behind those written. */
    method AddBlock(dst: array<uint8>, d0: nat, w0: nat, src: seq<uint8>, ghost piece: seq<uint8>) returns (w: nat)
      requires lz4.Valid() && -0xFF_FFFF <= prefs.level && dst !in Repr() && Wrote(dst, d0, w0, piece)
      requires 1 <= |src| <= BlockSize(prefs.blockSizeID) && d0 + w0 + |src| + SLACK <= dst.Length
      modifies lz4, lz4.hashTable, dst
      ensures lz4.Valid() && w0 <= w <= w0 + 4 + |src| + CrcSize(prefs.FrameInfo()) && Wrote(dst, d0, w, piece + src)
      ensures Incompressible(src) ==> w == w0 + 4 + |src| + CrcSize(prefs.FrameInfo())
      ensures Untouched(dst, d0 + w0, d0 + w0 + |src| + SLACK)
    {
      hide Emits, Incompressible, Made, Blocked;
      ghost var b := Lz4Stream.Table(lz4.tableType, lz4.currentOffset, lz4.hashTable[..]);
      ghost var before := dst[d0..d0 + w0];
      var n := MakeBlock(dst, d0 + w0, src);
      w := w0 + n;
      assert dst[d0..d0 + w0] == before;
      assert dst[d0..d0 + w] == dst[d0..d0 + w0] + dst[d0 + w0..d0 + w];
      EmitsAppend(prefs.FrameInfo(), before, dst[d0 + w0..d0 + w], piece, src);
      OneMoreBlock(prefs.FrameInfo(), prefs.level, before, piece, b, dst[d0 + w0..d0 + w], src);
    }

    /** LZ4F_compressUpdate: full blocks from the buffer and the input, the rest into a last
        block or into the buffer.  Input and content of the blocks are the same bytes. */
    method CompressUpdate(dst: array<uint8>, d0: nat, dstCapacity: nat, src: seq<uint8>) returns (r: EncodeResult)
      requires cStage == 1 ==> Open()
      requires dst !in Repr() && d0 + dstCapacity + SLACK <= dst.Length
      modifies this`tmpInSize, this`totalInSize, this`sent, tmpIn, xxh, xxh.mem32, lz4, lz4.hashTable, dst
      ensures cStage != 1 ==> r == EncodeError(Generic)
      ensures (cStage == 1 ==>
        (r.Written? <==> CompressBoundInternal(|src|, prefs, old(tmpInSize)) <= dstCapacity)
        && (r.Written? || r == EncodeError(DstMaxSizeTooSmall)))
      ensures (r.Written? ==>
        (Open() && r.n <= dstCapacity && old(sent) <= sent && Wrote(dst, d0, r.n, sent[|old(sent)|..])
         && sent + Buffered() == old(sent + Buffered()) + src
         && tmpInSize == Kept(prefs, maxBlockSize, old(tmpInSize) + |src|)))
      ensures !r.Written? ==> unchanged(this) && unchanged(tmpIn)
    {
      hide Emits, Blocked, XxHash32.State.Holds, Lz4Stream.Stream.Valid, Wrote, CompressBoundInternal, Kept;
      if cStage != 1 { return EncodeError(Generic); }
      if dstCapacity < CompressBoundInternal(|src|, prefs, tmpInSize) { return EncodeError(DstMaxSizeTooSmall); }
      var w := Absorb(dst, d0, dstCapacity, src);
      return Written(w);
    }

    /** An update that is not refused. */
    method Absorb(dst: array<uint8>, d0: nat, dstCapacity: nat, src: seq<uint8>) returns (w: nat)
      requires Open() && dst !in Repr() && d0 + dstCapacity + SLACK <= dst.Length
      requires CompressBoundInternal(|src|, prefs, tmpInSize) <= dstCapacity
      modifies this`tmpInSize, this`totalInSize, this`sent, tmpIn, xxh, xxh.mem32, lz4, lz4.hashTable, dst
      ensures Open() && w <= dstCapacity && old(sent) <= sent && Wrote(dst, d0, w, sent[|old(sent)|..])
      ensures tmpInSize <= tmpIn.Length && sent + Buffered() == old(sent + Buffered()) + src
      ensures tmpInSize == Kept(prefs, maxBlockSize, old(tmpInSize) + |src|)
    {
      hide Emits, Blocked, XxHash32.State.Holds, Lz4Stream.Stream.Valid, Wrote, CompressBoundInternal;
      ghost var before := sent + Buffered();
      w := WriteBlocks(dst, d0, dstCapacity, src);
      SplitAt(before, src);
      Account(src, before + src);
    }

    /** k full blocks of the bytes in all are written, in room for k blocks. */
    ghost predicate Going(dst: array<uint8>, d0: nat, w: nat, all: seq<uint8>, k: nat)
      reads this, dst
    {
      prefs.Valid() && maxBlockSize == BlockSize(prefs.blockSizeID) && 0 <= k * maxBlockSize <= |all|
      && Wrote(dst, d0, w, all[..k * maxBlockSize]) && w <= k * (maxBlockSize + 4 + CrcSize(prefs.FrameInfo()))
    }

    /** k full blocks of the bytes in all are written, the next bytes are in the buffer, and n bytes
        of the input are left; none are if the buffer holds any. */
    ghost predicate Midway(dst: array<uint8>, d0: nat, w: nat, all: seq<uint8>, k: nat, n: nat)
      reads this, tmpIn, dst
    {
      Going(dst, d0, w, all, k) && tmpInSize < maxBlockSize && tmpInSize <= tmpIn.Length
      && (if prefs.autoFlush then tmpInSize == 0 else maxBlockSize <= tmpIn.Length)
      && k * maxBlockSize + tmpInSize == |all| - n && (tmpInSize > 0 ==> n == 0)
      && Buffered() == all[k * maxBlockSize..k * maxBlockSize + tmpInSize]
    }

    /** The buffer and the blocks of one update. */
    method WriteBlocks(dst: array<uint8>, d0: nat, dstCapacity: nat, src: seq<uint8>) returns (w: nat)
      requires Open() && dst !in Repr() && d0 + dstCapacity + SLACK <= dst.Length
      requires CompressBoundInternal(|src|, prefs, tmpInSize) <= dstCapacity
      modifies this`tmpInSize, this`sent, tmpIn, lz4, lz4.hashTable, dst
      ensures w <= dstCapacity && Reusable() && tmpInSize < maxBlockSize && tmpInSize <= tmpIn.Length
      ensures old(sent) <= sent && Wrote(dst, d0, w, sent[|old(sent)|..])
      ensures sent + Buffered() == old(sent + Buffered()) + src
      ensures tmpInSize == Kept(prefs, maxBlockSize, old(tmpInSize) + |src|)
    {
      hide Emits, Blocked, XxHash32.State.Holds, Lz4Stream.Stream.Valid, Room, Wrote, Going, CompressBoundInternal,
        Midway, Kept;
      ghost var sent0, pending := sent, Buffered();
      ghost var all := pending + src;
      BoundIsRoom(|src|, prefs, tmpInSize);
      assert all[|all| - |src|..] == src;
      var p;
      ghost var k;
      w, p, k := CompleteBuffer(dst, d0, dstCapacity, src);
      w, k := RestOfInput(dst, d0, w, dstCapacity, src, p, all, k);
      Joined(sent0, sent, pending, src, all[..k], Buffered());
    }

    /** The blocks behind the one that the buffer began. */
    method RestOfInput(dst: array<uint8>, d0: nat, w0: nat, dstCapacity: nat, src: seq<uint8>, p0: nat,
                       ghost all: seq<uint8>, ghost k0: nat) returns (w: nat, ghost m: nat)
      requires Reusable() && -0xFF_FFFF <= prefs.level && dst !in Repr() && prefs.Valid() && 0 < maxBlockSize
      requires p0 <= |src| <= |all| && all[|all| - |src|..] == src && Midway(dst, d0, w0, all, k0, |src| - p0)
      requires d0 + dstCapacity + SLACK <= dst.Length
      requires Room(maxBlockSize, 4 + CrcSize(prefs.FrameInfo()), |all|, prefs.autoFlush || |src| == 0) <= dstCapacity
      modifies this`tmpInSize, this`sent, tmpIn, lz4, lz4.hashTable, dst
      ensures Reusable() && w <= dstCapacity && tmpInSize < maxBlockSize && tmpInSize <= tmpIn.Length
      ensures m <= |all| && sent == old(sent) + all[..m] && Wrote(dst, d0, w, all[..m]) && all[..m] + Buffered() == all
      ensures tmpInSize == Kept(prefs, maxBlockSize, |all|)
    {
      hide Emits, Blocked, Lz4Stream.Stream.Valid, Room, Wrote;
      var p;
      ghost var k;
      w, p, k := FullBlocks(dst, d0, w0, dstCapacity, src, p0, all, k0);
      w, p, m := LastBlock(dst, d0, w, dstCapacity, src, p, all, k);
      if !prefs.autoFlush { QuotientIs(|all|, maxBlockSize, k); }
    }

    /** The block in the buffer, completed from the input; or the input goes into the buffer. */
    method CompleteBuffer(dst: array<uint8>, d0: nat, dstCapacity: nat, src: seq<uint8>)
        returns (w: nat, p: nat, ghost k: nat)
      requires Open() && dst !in Repr() && d0 + dstCapacity + SLACK <= dst.Length
      requires CompressBoundInternal(|src|, prefs, tmpInSize) <= dstCapacity
      modifies this`tmpInSize, tmpIn, lz4, lz4.hashTable, dst
      ensures Reusable() && p <= |src| && Midway(dst, d0, w, old(Buffered()) + src, k, |src| - p)
    {
      hide Emits, Blocked, XxHash32.State.Holds, Lz4Stream.Stream.Valid, Room, CompressBoundInternal;
      ghost var all := Buffered() + src;
      BoundIsRoom(|src|, prefs, tmpInSize);
      if tmpInSize > 0 && maxBlockSize - tmpInSize <= |src| {
        w, p := FirstBlock(dst, d0, dstCapacity, src);
        k := 1;
      } else {
        w, p, k := 0, 0, 0;
        NothingWritten(prefs);
        assert dst[d0..d0 + 0] == [] && all[..0] == [];
        if tmpInSize > 0 {
          ghost var pending := Buffered();
          CopyIn(tmpIn, tmpInSize, src, 0, |src|);
          assert tmpIn[..tmpInSize] == pending && tmpIn[..tmpInSize + |src|] == all;
          p := |src|;
          tmpInSize := tmpInSize + |src|;
        }
      }
    }

    /** The block that the buffer began. */
    method FirstBlock(dst: array<uint8>, d0: nat, dstCapacity: nat, src: seq<uint8>) returns (w: nat, p: nat)
      requires Reusable() && prefs.Valid() && maxBlockSize == BlockSize(prefs.blockSizeID) && -0xFF_FFFF <= prefs.level
      requires 0 < tmpInSize < maxBlockSize <= tmpIn.Length && maxBlockSize - tmpInSize <= |src|
      requires dst !in Repr() && d0 + dstCapacity + SLACK <= dst.Length
      requires Room(maxBlockSize, 4 + CrcSize(prefs.FrameInfo()), tmpInSize + |src|, prefs.autoFlush || |src| == 0)
            <= dstCapacity
      modifies this`tmpInSize, tmpIn, lz4, lz4.hashTable, dst
      ensures Reusable() && tmpInSize == 0 && p == maxBlockSize - old(tmpInSize)
      ensures Going(dst, d0, w, old(Buffered()) + src, 1)
    {
      hide Emits, Blocked, Lz4Stream.Stream.Valid, Room;
      ghost var all, pending := Buffered() + src, Buffered();
      p := maxBlockSize - tmpInSize;
      CopyIn(tmpIn, tmpInSize, src, 0, p);
      assert tmpIn[..tmpInSize] == pending && tmpIn[..maxBlockSize] == all[..maxBlockSize];
      RoomSuffices(maxBlockSize, 4 + CrcSize(prefs.FrameInfo()), |all|, prefs.autoFlush || |src| == 0, 1);
      NothingWritten(prefs);
      assert dst[d0..d0 + 0] == [];
      w := AddBlock(dst, d0, 0, tmpIn[..maxBlockSize], []);
      assert [] + tmpIn[..maxBlockSize] == all[..maxBlockSize];
      tmpInSize := 0;
    }

    /** The loop over full blocks of the input. */
    method FullBlocks(dst: array<uint8>, d0: nat, w0: nat, dstCapacity: nat, src: seq<uint8>, p0: nat,
                      ghost all: seq<uint8>, ghost k0: nat) returns (w: nat, p: nat, ghost k: nat)
      requires lz4.Valid() && -0xFF_FFFF <= prefs.level && dst !in Repr() && Going(dst, d0, w0, all, k0)
      requires d0 + dstCapacity + SLACK <= dst.Length
      requires Room(maxBlockSize, 4 + CrcSize(prefs.FrameInfo()), |all|, prefs.autoFlush || |src| == 0) <= dstCapacity
      requires p0 <= |src| <= |all| && all[|all| - |src|..] == src
        && (p0 < |src| ==> k0 * maxBlockSize == |all| - |src| + p0)
      modifies lz4, lz4.hashTable, dst
      ensures lz4.Valid() && p0 <= p <= |src| < p + maxBlockSize && Going(dst, d0, w, all, k)
      ensures p0 == |src| ==> k == k0 && p == p0
      ensures p0 < |src| ==> k * maxBlockSize == |all| - |src| + p
    {
      hide Emits, Blocked, Lz4Stream.Stream.Valid, Room, Wrote;
      w, p, k := w0, p0, k0;
      while |src| - p >= maxBlockSize
        invariant lz4.Valid() && p0 <= p <= |src| && Going(dst, d0, w, all, k)
        invariant p0 == |src| ==> k == k0 && p == p0
        invariant p0 < |src| ==> k * maxBlockSize == |all| - |src| + p
        decreases |src| - p
      {
        NextMultiple(k, maxBlockSize);
        NextMultiple(k, maxBlockSize + 4 + CrcSize(prefs.FrameInfo()));
        RoomSuffices(maxBlockSize, 4 + CrcSize(prefs.FrameInfo()), |all|, prefs.autoFlush || |src| == 0, k + 1);
        ghost var from := k * maxBlockSize;
        NextSlice(all, src, p, from, maxBlockSize);
        w := AddBlock(dst, d0, w, src[p..p + maxBlockSize], all[..from]);
        p, k := p + maxBlockSize, k + 1;
      }
    }

    /** What is left: a last block, or into the buffer. */
    method LastBlock(dst: array<uint8>, d0: nat, w0: nat, dstCapacity: nat, src: seq<uint8>, p0: nat,
                     ghost all: seq<uint8>, ghost k: nat) returns (w: nat, p: nat, ghost m: nat)
      requires Reusable() && -0xFF_FFFF <= prefs.level && dst !in Repr() && Going(dst, d0, w0, all, k)
      requires d0 + dstCapacity + SLACK <= dst.Length && tmpInSize < maxBlockSize && tmpInSize <= tmpIn.Length
      requires Room(maxBlockSize, 4 + CrcSize(prefs.FrameInfo()), |all|, prefs.autoFlush || |src| == 0) <= dstCapacity
      requires p0 <= |src| <= |all| && |src| - p0 < maxBlockSize && all[|all| - |src|..] == src
      requires if prefs.autoFlush then tmpInSize == 0 else maxBlockSize <= tmpIn.Length
      requires p0 < |src| ==> tmpInSize == 0 && k * maxBlockSize == |all| - |src| + p0
      requires p0 == |src| ==> Buffered() == all[k * maxBlockSize..]
      modifies this`tmpInSize, this`sent, tmpIn, lz4, lz4.hashTable, dst
      ensures Reusable() && w <= dstCapacity && tmpInSize < maxBlockSize && tmpInSize <= tmpIn.Length
      ensures m <= |all| && sent == old(sent) + all[..m] && Wrote(dst, d0, w, all[..m]) && Buffered() == all[m..]
      ensures if prefs.autoFlush then tmpInSize == 0 else m == k * maxBlockSize
    {
      hide Emits, Blocked, Lz4Stream.Stream.Valid, Room;
      w, p, m := w0, p0, k * maxBlockSize;
      RoomSuffices(maxBlockSize, 4 + CrcSize(prefs.FrameInfo()), |all|, prefs.autoFlush || |src| == 0, k);
      if prefs.autoFlush && p < |src| {
        assert src[p..] == all[m..] && all[..m] + all[m..] == all;
        w := AddBlock(dst, d0, w, src[p..], all[..m]);
        p, m := |src|, |all|;
        assert all[..m] == all;
      }
      if p < |src| {
        assert src[p..] == all[m..];
        CopyIn(tmpIn, 0, src, p, |src| - p);
        tmpInSize := |src| - p;
        assert tmpIn[0..tmpInSize] == tmpIn[..tmpInSize];
      }
      sent := sent + all[..m];
    }

    /** The checksum and the size of the input. */
    method Account(src: seq<uint8>, ghost total: seq<uint8>)
      requires Reusable() && cStage == 1 && prefs.Valid() && maxBlockSize == BlockSize(prefs.blockSizeID)
      requires tmpInSize < maxBlockSize && tmpInSize <= tmpIn.Length && sent + Buffered() == total
      requires (if prefs.autoFlush then tmpInSize == 0 else maxBlockSize <= tmpIn.Length)
        && -0xFF_FFFF <= prefs.level < 3
      requires |src| <= |total| && total[|total| - |src|..] == src
      requires prefs.contentChecksum ==> xxh.Holds(0, total[..|total| - |src|])
      requires prefs.contentSize > 0 ==> totalInSize == (|total| - |src|) % TWO64
      modifies this`totalInSize, xxh, xxh.mem32
      ensures Open() && sent + Buffered() == total
    {
      hide XxHash32.State.Holds, Lz4Stream.Stream.Valid;
      ghost var before := total[..|total| - |src|];
      assert before + src == total;
      SumModulo(|total| - |src|, |src|);
      totalInSize := (totalInSize + |src|) % TWO64;
      if prefs.contentChecksum { xxh.Update(src, 0, before); }
    }

    // -------------------------------------------------------------- end of frame

    /** LZ4F_flush: what is buffered becomes a block.  The test of the capacity leaves out the
        block checksum. */
    method Flush(dst: array<uint8>, d0: nat, dstCapacity: nat) returns (r: EncodeResult)
      requires Open() && dst !in Repr() && d0 + dstCapacity + SLACK <= dst.Length
      modifies this`tmpInSize, this`sent, lz4, lz4.hashTable, dst
      ensures r == EncodeError(DstMaxSizeTooSmall) <==> old(tmpInSize) > 0 && dstCapacity < old(tmpInSize) + 4
      ensures (r.Written? ==>
        (Open() && tmpInSize == 0 && sent == old(sent + Buffered()) && Wrote(dst, d0, r.n, old(Buffered()))
         && Takes(old(Buffered()), r.n, FlushSize(prefs, old(tmpInSize)))))
      ensures !r.Written? ==> r == EncodeError(DstMaxSizeTooSmall) && Open() && unchanged(this)
    {
      hide Emits, Blocked, XxHash32.State.Holds, Lz4Stream.Stream.Valid, Incompressible;
      NothingWritten(prefs);
      assert dst[d0..d0 + 0] == [];
      if tmpInSize == 0 {
        assert sent + Buffered() == sent;
        return Written(0);
      }
      if dstCapacity < tmpInSize + 4 { return EncodeError(DstMaxSizeTooSmall); }
      ghost var all := sent + Buffered();
      var w := AddBlock(dst, d0, 0, tmpIn[..tmpInSize], []);
      assert [] + tmpIn[..tmpInSize] == Buffered();
      sent := all;
      tmpInSize := 0;
      assert sent + Buffered() == all;
      return Written(w);
    }

    /** LZ4F_compressEnd: the last block, the end mark and the checksum; an error if the size
        that was announced is wrong. */
    method CompressEnd(dst: array<uint8>, d0: nat, dstMaxSize: nat) returns (r: EncodeResult)
      requires Open() && dst !in Repr() && d0 + dstMaxSize + SLACK + 16 <= dst.Length
      modifies this`tmpInSize, this`sent, this`cStage, this`maxBufferSize, lz4, lz4.hashTable, dst
      ensures Reusable()
      ensures r == EncodeError(DstMaxSizeTooSmall) <==> old(tmpInSize) > 0 && dstMaxSize < old(tmpInSize) + 4
      ensures r == EncodeError(FrameSizeWrong) ==>
        prefs.contentSize > 0 && prefs.contentSize != |old(sent + Buffered())| % TWO64
      ensures r.Written? ==> prefs.contentSize > 0 ==> prefs.contentSize == |old(sent + Buffered())| % TWO64
      ensures r.Written? ==>
        cStage == 0 && d0 + r.n <= dst.Length && Ending(dst[d0..d0 + r.n], old(Buffered()), old(sent + Buffered()))
      ensures r.EncodeError? ==> r.code == DstMaxSizeTooSmall || r.code == FrameSizeWrong
      ensures (r.Written? ==>
        Takes(old(Buffered()), r.n, EndSize(prefs, old(tmpInSize))))
    {
      hide Emits, Blocked, XxHash32.State.Holds, Lz4Stream.Stream.Valid, LE, Checksum, Incompressible;
      ghost var all, pending := sent + Buffered(), Buffered();
      var flushed := Flush(dst, d0, dstMaxSize);
      if flushed.EncodeError? { return flushed; }
      assert sent + Buffered() == all;
      var n := flushed.n;
      ghost var block := dst[d0..d0 + n];
      n := WriteEnd(dst, d0, n, all);
      ghost var end := EndBytes(prefs.FrameInfo(), all);
      assert dst[d0..d0 + n] == block + end;
      assert (block + end)[..|block|] == block && (block + end)[|block|..] == end;
      cStage := 0;
      maxBufferSize := 0;
      if prefs.contentSize > 0 && prefs.contentSize != totalInSize { return EncodeError(FrameSizeWrong); }
      return Written(n);
    }

    /** The last bytes of a frame: a block with what was buffered, if anything, and the end. */
    ghost predicate Ending(x: seq<uint8>, pending: seq<uint8>, all: seq<uint8>)
      reads this
    {
      prefs.Valid() && exists n: nat ::
        n <= |x| && Emits(prefs.FrameInfo(), x[..n], pending) && x[n..] == EndBytes(prefs.FrameInfo(), all)
    }

    method WriteEnd(dst: array<uint8>, d0: nat, n0: nat, ghost all: seq<uint8>) returns (n: nat)
      requires prefs.Valid() && dst !in Repr() && d0 + n0 + 8 <= dst.Length
        && (prefs.contentChecksum ==> xxh.Holds(0, all))
      modifies dst
      ensures n == n0 + |EndBytes(prefs.FrameInfo(), all)|
      ensures dst[d0..d0 + n] == old(dst[d0..d0 + n0]) + EndBytes(prefs.FrameInfo(), all)
    {
      hide XxHash32.State.Holds, LE, Checksum;
      AppendLE(dst, d0, d0 + n0, 0, 4);
      n := n0 + 4;
      if prefs.contentChecksum {
        var sum := Digest(xxh, all);
        AppendLE(dst, d0, d0 + n, sum, 4);
        n := n + 4;
      }
    }
  }

  /** An optional field of the header. */
  method WriteField(dst: array<uint8>, d0: nat, at0: nat, ghost front: seq<uint8>, present: bool, n: nat, k: nat)
      returns (at: nat)
    requires d0 <= at0 && at0 + k <= dst.Length && dst[d0..at0] == front
    modifies dst
    ensures at == (if present then at0 + k else at0) && dst[d0..at] == front + (if present then LE(n, k) else [])
  {
    hide LE;
    at := at0;
    if present {
      AppendLE(dst, d0, at, n, k);
      at := at + k;
    }
  }

  /** The header: magic number, descriptor and the second byte of the descriptor's checksum. */
  method WriteHeader(dst: array<uint8>, d0: nat, prefs: Prefs) returns (n: nat)
    requires prefs.Valid() && d0 + MAX_FH_SIZE <= dst.Length
    modifies dst
    ensures n == |prefs.Header()| <= MAX_FH_SIZE && dst[d0..d0 + n] == prefs.Header()
  {
    hide Checksum, LE;
    WriteLE(dst, d0, MAGICNUMBER, 4);
    var at := d0 + 4;
    dst[at], dst[at + 1] := prefs.Flg(), prefs.blockSizeID * 16;
    at := at + 2;
    assert dst[d0..d0 + 4] == LE(MAGICNUMBER, 4);
    ghost var front := LE(MAGICNUMBER, 4) + [prefs.Flg(), prefs.blockSizeID * 16];
    assert dst[d0..at] == front;
    at := WriteField(dst, d0, at, front, prefs.contentSize > 0, prefs.contentSize, 8);
    front := dst[d0..at];
    at := WriteField(dst, d0, at, front, prefs.dictID > 0, prefs.dictID, 4);
    front := dst[d0..at];
    assert front == LE(MAGICNUMBER, 4) + prefs.Descriptor();
    assert dst[d0 + 4..at] == dst[d0..at][4..] == prefs.Descriptor();
    var sum := Hash(dst[d0 + 4..at]);
    dst[at] := HeaderByte(sum);
    assert dst[d0..at] == front;
    at := at + 1;
    assert dst[d0..at] == dst[d0..at - 1] + [dst[at - 1]];
    n := at - d0;
  }

  // ---------------------------------------------------------------- whole frames

  /** A frame that decodes to content, whatever follows it; the number of bytes that earlier
      frames left open matters only without a content size. */
  ghost predicate Complete(p: Prefs, frame: seq<uint8>, content: seq<uint8>) {
    forall remaining: nat, rest: seq<uint8> :: CompleteAt(p, frame, content, remaining, rest)
  }

  ghost predicate CompleteAt(p: Prefs, frame: seq<uint8>, content: seq<uint8>, remaining: nat, rest: seq<uint8>) {
    p.contentSize > 0 || remaining == 0 ==>
      Frame(remaining, frame + rest) == Done(content, rest) && Independent(frame + rest)
  }

  /** A frame for the concatenation of the chunks, each given to one update; an error if the
      announced size is wrong. */
  method EncodeFrame(preferences: Prefs, chunks: seq<seq<uint8>>) returns (frame: seq<uint8>, ok: bool)
    requires preferences.Valid() && -0xFF_FFFF <= preferences.level < 3
    ensures ok <==> preferences.contentSize == 0 || preferences.contentSize == |XxHash32.Concat(chunks)| % TWO64
    ensures ok && |XxHash32.Concat(chunks)| < TWO64 ==> Complete(preferences, frame, XxHash32.Concat(chunks))
    ensures preferences.Header() <= frame
  {
    hide Emits, Blocked, Prefs.Header, Complete, XxHash32.State.Holds, Lz4Stream.Stream.Valid, Cctx.Ending;
    var cctx, head := BeginFrame(preferences);
    var body := EncodeChunks(cctx, chunks);
    ghost var sent, pending := cctx.sent, cctx.Buffered();
    var last;
    last, ok := EndFrame(cctx);
    frame := head + (body + last);
    assert frame == head + body + last;
    if ok && |sent + pending| < TWO64 {
      SmallSize(|sent + pending|);
      Completed(preferences, cctx, head, body, last, sent, pending);
    }
  }

  method BeginFrame(preferences: Prefs) returns (cctx: Cctx, head: seq<uint8>)
    requires preferences.Valid() && -0xFF_FFFF <= preferences.level < 3
    ensures fresh(cctx) && fresh(cctx.Repr()) && cctx.Open() && cctx.sent == [] && cctx.Buffered() == []
    ensures cctx.prefs == preferences && head == preferences.Header()
  {
    hide Prefs.Header;
    cctx := new Cctx();
    var dst := new uint8[MAX_FH_SIZE];
    var r := cctx.CompressBegin(dst, 0, MAX_FH_SIZE, preferences);
    head := dst[0..r.n];
  }

  /** The end of a frame, with just the room that the flush asks for. */
  method EndFrame(cctx: Cctx) returns (last: seq<uint8>, ok: bool)
    requires cctx.Open()
    modifies cctx.Repr()
    ensures cctx.prefs == old(cctx.prefs)
    ensures ok <==> cctx.prefs.contentSize == 0 || cctx.prefs.contentSize == |old(cctx.sent + cctx.Buffered())| % TWO64
    ensures ok ==> cctx.Ending(last, old(cctx.Buffered()), old(cctx.sent + cctx.Buffered()))
  {
    hide Emits, Blocked, EndBytes, XxHash32.State.Holds, Lz4Stream.Stream.Valid, Cctx.Ending;
    var dst := new uint8[cctx.tmpInSize + 4 + SLACK + 16];
    var r := cctx.CompressEnd(dst, 0, cctx.tmpInSize + 4);
    ok := r.Written?;
    last := [];
    if ok {
      last := dst[0..r.n];
      assert cctx.Ending(last, old(cctx.Buffered()), old(cctx.sent + cctx.Buffered()));
    }
    assert !ok ==> r.code == FrameSizeWrong;
  }

  lemma SmallSize(n: nat)
    requires n < TWO64
    ensures n % TWO64 == n
  {
  }

  /** All updates. */
  method EncodeChunks(cctx: Cctx, chunks: seq<seq<uint8>>) returns (body: seq<uint8>)
    requires cctx.Open() && cctx.sent == [] && cctx.Buffered() == []
    modifies cctx.Repr()
    ensures cctx.Open() && cctx.prefs == old(cctx.prefs) && cctx.Repr() == old(cctx.Repr())
    ensures Emits(cctx.prefs.FrameInfo(), body, cctx.sent)
    ensures cctx.sent + cctx.Buffered() == XxHash32.Concat(chunks)
  {
    hide Emits, Blocked, XxHash32.State.Holds, Lz4Stream.Stream.Valid;
    body := [];
    EmitsNothing(cctx.prefs.FrameInfo());
    var i := 0;
    while i < |chunks|
      invariant i <= |chunks| && cctx.Open() && cctx.prefs == old(cctx.prefs) && cctx.Repr() == old(cctx.Repr())
      invariant Emits(cctx.prefs.FrameInfo(), body, cctx.sent)
      invariant cctx.sent + cctx.Buffered() == XxHash32.Concat(chunks[..i])
    {
      ghost var sent := cctx.sent;
      var piece := EncodeChunk(cctx, chunks[i]);
      assert sent + cctx.sent[|sent|..] == cctx.sent;
      EmitsAppend(cctx.prefs.FrameInfo(), body, piece, sent, cctx.sent[|sent|..]);
      body := body + piece;
      assert chunks[..i + 1][..i] == chunks[..i];
      i := i + 1;
    }
    assert chunks[..|chunks|] == chunks;
  }

  /** One update with a buffer of the size that LZ4F_compressBound asks for. */
  method EncodeChunk(cctx: Cctx, chunk: seq<uint8>) returns (piece: seq<uint8>)
    requires cctx.Open()
    modifies cctx.Repr()
    ensures cctx.Open() && cctx.prefs == old(cctx.prefs) && cctx.Repr() == old(cctx.Repr())
    ensures old(cctx.sent) <= cctx.sent && Emits(cctx.prefs.FrameInfo(), piece, cctx.sent[|old(cctx.sent)|..])
    ensures cctx.sent + cctx.Buffered() == old(cctx.sent + cctx.Buffered()) + chunk
  {
    hide Emits, Blocked, XxHash32.State.Holds, Lz4Stream.Stream.Valid, CompressBoundInternal;
    var bound := CompressBoundInternal(|chunk|, cctx.prefs, cctx.tmpInSize);
    var dst := new uint8[bound + SLACK];
    var r := cctx.CompressUpdate(dst, 0, bound, chunk);
    piece := dst[0..r.n];
  }

  lemma Completed(p: Prefs, cctx: Cctx, head: seq<uint8>, body: seq<uint8>, last: seq<uint8>, sent: seq<uint8>,
      pending: seq<uint8>)
    requires p.Valid() && cctx.prefs == p && head == p.Header() && Emits(p.FrameInfo(), body, sent)
    requires cctx.Ending(last, pending, sent + pending)
    requires p.contentSize > 0 ==> p.contentSize == |sent + pending|
    ensures Complete(p, head + body + last, sent + pending)
  {
    hide Emits, Blocked, EndBytes, Prefs.Header, Frame, Independent;
    var info := p.FrameInfo();
    var n: nat :| n <= |last| && Emits(info, last[..n], pending) && last[n..] == EndBytes(info, sent + pending);
    EmitsAppend(info, body, last[..n], sent, pending);
    var frame, middle := head + body + last, body + last[..n];
    assert frame == head + middle + last[n..];
    forall remaining: nat, rest: seq<uint8> ensures CompleteAt(p, frame, sent + pending, remaining, rest) {
      if p.contentSize > 0 || remaining == 0 { FrameRead(p, middle, sent + pending, remaining, rest); }
    }
  }

  // ---------------------------------------------------------------- room at the end of a frame

  /** A frame with data in the buffer and no block yet. */
  method BufferData(p: Prefs, data: seq<uint8>) returns (cctx: Cctx)
    requires p.Valid() && -0xFF_FFFF <= p.level < 3 && !p.autoFlush && |data| < BlockSize(p.blockSizeID)
    ensures fresh(cctx) && fresh(cctx.Repr()) && cctx.Open() && cctx.prefs == p
    ensures cctx.sent == [] && cctx.Buffered() == data && cctx.tmpInSize == |data|
  {
    hide Emits, Blocked, XxHash32.State.Holds, Lz4Stream.Stream.Valid, CompressBoundInternal, Prefs.Header;
    var head;
    cctx, head := BeginFrame(p);
    var bound := CompressBoundInternal(|data|, p, 0);
    var dst := new uint8[bound + SLACK];
    var r := cctx.CompressUpdate(dst, 0, bound, data);
    ModSmall(|data|, cctx.maxBlockSize);
    assert [] + data == data;
  }

  /** A capacity that a flush of b bytes accepts is kept for all data of this size if and only if
      blocks have no checksum or there is room for one; otherwise there is data of this size for
      which the flush certainly writes more. */
  lemma FlushCapacity(p: Prefs, b: nat, capacity: nat)
    requires p.Valid() && 1 <= b && b + 4 <= capacity
    ensures (forall data: seq<uint8>, n: nat :: |data| == b && Takes(data, n, FlushSize(p, b)) ==> n <= capacity)
            <==> !p.blockChecksum || b + 8 <= capacity
    ensures (exists data: seq<uint8> :: |data| == b && Exceeds(data, FlushSize(p, b), capacity))
            <==> p.blockChecksum && capacity < b + 8
  {
    hide Takes, Exceeds;
    WorstCase(b, FlushSize(p, b), capacity);
  }

  /** The end of a frame with b buffered bytes keeps a capacity for all data of this size if and
      only if LZ4F_compressBound asks for no more; otherwise there is data of this size for which
      it certainly writes more. */
  lemma EndCapacity(p: Prefs, b: nat, capacity: nat)
    requires p.Valid() && b < BlockSize(p.blockSizeID)
    ensures (forall data: seq<uint8>, n: nat :: |data| == b && Takes(data, n, EndSize(p, b)) ==> n <= capacity)
            <==> CompressBoundInternal(0, p, b) <= capacity
    ensures (exists data: seq<uint8> :: |data| == b && Exceeds(data, EndSize(p, b), capacity))
            <==> CompressBoundInternal(0, p, b) > capacity
  {
    hide Takes, Exceeds, EndSize;
    BoundOfEnd(p, b);
    WorstCase(b, EndSize(p, b), capacity);
  }

  /** A flush of data that does not compress, in a capacity that it accepts. */
  method FlushFits(p: Prefs, data: seq<uint8>, capacity: nat) returns (r: EncodeResult)
    requires p.Valid() && -0xFF_FFFF <= p.level < 3 && !p.autoFlush && 1 <= |data| < BlockSize(p.blockSizeID)
    requires Incompressible(data) && |data| + 4 <= capacity
    ensures r == Written(FlushSize(p, |data|))
    ensures r.n <= capacity <==> !p.blockChecksum || capacity >= |data| + 8
  {
    hide Emits, Blocked, XxHash32.State.Holds, Lz4Stream.Stream.Valid, Incompressible;
    var cctx := BufferData(p, data);
    var dst := new uint8[capacity + SLACK];
    r := cctx.Flush(dst, 0, capacity);
  }

  /** One byte with a block checksum: a flush with capacity 5 is not refused and writes 9. */
  method FlushExceeds(b: uint8) returns (capacity: nat, r: EncodeResult)
    ensures capacity == 5 && r == Written(9)
  {
    ByteIsIncompressible(b);
    capacity := 5;
    r := FlushFits(Prefs(4, true, false, 0, 0, 0, false), [b], capacity);
  }

  /** The end of a frame with buffered data that does not compress. */
  method EndFits(p: Prefs, data: seq<uint8>, capacity: nat) returns (r: EncodeResult)
    requires p.Valid() && -0xFF_FFFF <= p.level < 3 && !p.autoFlush && |data| < BlockSize(p.blockSizeID)
    requires p.contentSize == 0 || p.contentSize == |data|
    requires Incompressible(data) && (data == [] || |data| + 4 <= capacity)
    ensures r == Written(EndSize(p, |data|)) && EndSize(p, |data|) == CompressBoundInternal(0, p, |data|)
    ensures r.n <= capacity <==>
      capacity >= (if data == [] then 0 else |data| + 4 + CrcSize(p.FrameInfo()))
                  + 4 + (if p.contentChecksum then 4 else 0)
  {
    hide Emits, Blocked, XxHash32.State.Holds, Lz4Stream.Stream.Valid, Incompressible, CompressBoundInternal,
      Cctx.Ending;
    var cctx := BufferData(p, data);
    var dst := new uint8[capacity + SLACK + 16];
    assert [] + data == data;
    SmallSize(|data|);
    BoundOfEnd(p, |data|);
    assert cctx.sent + cctx.Buffered() == data;
    r := cctx.CompressEnd(dst, 0, capacity);
  }

  // ---------------------------------------------------------------- both directions

  /** A context that has read the header of a frame with content size and is then reset: it still
      counts the bytes of that frame. */
  method AbandonFrame(p: Prefs) returns (ctx: Lz4FrameDecoder.Dctx)
    requires p.Valid() && p.contentSize > 0
    ensures fresh(ctx) && fresh(ctx.Repr()) && ctx.Ready() && ctx.stale == p.contentSize
  {
    hide XxHash32.State.Holds, Prefs.Header, ParseHeader;
    ctx := new Lz4FrameDecoder.Dctx();
    var dst := new uint8[MAX_FH_SIZE];
    var n := WriteHeader(dst, 0, p);
    HeaderRead(p, []);
    assert p.Header() + [] == dst[0..n];
    HeaderLength(p);
    var status, k := ctx.DecodeHeader(dst[0..n], false);
    assert ctx.remaining == p.contentSize;
    ctx.Reset();
  }

  lemma HeaderLength(p: Prefs)
    requires p.Valid()
    ensures MIN_FH_SIZE <= |p.Header()|
  {
    hide LE, Checksum;
  }

  /** After that the context never completes a frame without content size, however it is cut into
      calls, although the frame is valid; enough calls end with an error. */
  method StaleContextRefuses(sized: Prefs, unsized: Prefs, chunks: seq<seq<uint8>>, calls: seq<(nat, nat)>)
      returns (frame: seq<uint8>, last: Lz4FrameDecoder.Status)
    requires sized.Valid() && sized.contentSize > 0
    requires unsized.Valid() && unsized.contentSize == 0 && -0xFF_FFFF <= unsized.level < 3
    requires |XxHash32.Concat(chunks)| < TWO64
    ensures Frame(0, frame) == Done(XxHash32.Concat(chunks), [])
    ensures last != Lz4FrameDecoder.Stop(0)
    ensures Lz4FrameDecoder.Generous(calls) && |calls| >= |frame| + |XxHash32.Concat(chunks)| ==> last.Error?
  {
    hide Frame, Independent, Prefs.Header, ParseHeader;
    var ctx := AbandonFrame(sized);
    var ok;
    frame, ok := EncodeFrame(unsized, chunks);
    assert CompleteAt(unsized, frame, XxHash32.Concat(chunks), 0, []) && frame + [] == frame;
    HeaderRead(unsized, frame[|unsized.Header()|..]);
    assert unsized.Header() + frame[|unsized.Header()|..] == frame;
    StaleCount(ctx.stale, frame);
    var out, pos;
    last, out, pos := Lz4FrameDecoder.DecodeFrame(ctx, frame, calls);
  }

  /** The whole way: whatever way the input is cut into updates, and whatever way the frame is
      cut into calls of the decoder with buffers of any size, the output begins the input, it is
      the whole input when the decoder returns 0, and there is no error.  The decoder does return 0
      if the calls are enough and each offers a byte and has room for one. */
  method FrameRoundTrip(preferences: Prefs, chunks: seq<seq<uint8>>, ctx: Lz4FrameDecoder.Dctx, calls: seq<(nat, nat)>)
      returns (frame: seq<uint8>, last: Lz4FrameDecoder.Status, out: seq<uint8>)
    requires preferences.Valid() && -0xFF_FFFF <= preferences.level < 3
    requires ctx.Ready() && (ctx.stale == 0 || preferences.contentSize > 0)
    requires |XxHash32.Concat(chunks)| < TWO64
    requires preferences.contentSize == 0 || preferences.contentSize == |XxHash32.Concat(chunks)|
    modifies ctx.Repr()
    ensures !last.Error? && out <= XxHash32.Concat(chunks)
    ensures last == Lz4FrameDecoder.Stop(0) ==> out == XxHash32.Concat(chunks) && ctx.Ready()
    ensures Lz4FrameDecoder.Generous(calls) && |calls| >= |frame| + |XxHash32.Concat(chunks)| ==>
      last == Lz4FrameDecoder.Stop(0)
  {
    hide Frame, Independent, Prefs.Header;
    var ok;
    frame, ok := EncodeFrame(preferences, chunks);
    SmallSize(|XxHash32.Concat(chunks)|);
    assert CompleteAt(preferences, frame, XxHash32.Concat(chunks), ctx.stale, []) && frame + [] == frame;
    var pos;
    last, out, pos := Lz4FrameDecoder.DecodeFrame(ctx, frame, calls);
  }
}
