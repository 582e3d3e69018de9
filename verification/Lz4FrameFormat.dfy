/** What a frame of independent blocks means, as a function of all its bytes. */
module Lz4FrameFormat {
  import opened MachineInts
  import opened Arithmetic
  import XxHash32
  import Lz4Reference
  import Lz4Words

  const MAGIC_SKIPPABLE_START: nat := 0x184D2A50
  const MAGICNUMBER: nat := 0x184D2204
  const UNCOMPRESSED_FLAG: nat := 0x80000000
  const MIN_FH_SIZE: nat := 7
  const MAX_FH_SIZE: nat := 19
  const BH_SIZE: nat := 4
  const TWO64: nat := 0x1_0000_0000_0000_0000

  /** The frame parameters the blocks depend on; size 0 stands for an unknown content size. */
  datatype Info = Info(blockChecksum: bool, contentChecksum: bool, contentSize: nat, maxBlockSize: nat)

  datatype ErrorCode = FrameTypeUnknown | ReservedFlagSet | HeaderVersionWrong | MaxBlockSizeInvalid
                     | HeaderChecksumInvalid | BlockChecksumInvalid | ContentChecksumInvalid
                     | FrameSizeWrong | DecompressionFailed | DstMaxSizeTooSmall | Generic

  /** Done: a complete frame, its content, and the input behind it.  Failed: a wrong frame, its
      content in front of the fault, and the fault. */
  datatype Outcome = Done(content: seq<uint8>, after: seq<uint8>) | Failed(content: seq<uint8>, code: ErrorCode)
                   | Truncated

  /** LZ4F_readLE32 */
  function Read32(s: seq<uint8>, p: nat): nat
    requires p + 4 <= |s|
  {
    Lz4Words.ReadLE(s, p, 4)
  }

  /** The checksum with seed 0 as a number. */
  ghost function Checksum(s: seq<uint8>): nat {
    XxHash32.Checksum(s, 0) as int
  }

  /** XXH32 with seed 0. */
  method Hash(s: seq<uint8>) returns (n: nat)
    ensures n == Checksum(s)
  {
    hide XxHash32.Checksum;
    var h := XxHash32.XXH32(s, 0);
    n := h as int;
  }

  /** XXH32_digest of a state with seed 0. */
  method Digest(state: XxHash32.State, ghost s: seq<uint8>) returns (n: nat)
    requires state.Holds(0, s)
    ensures n == Checksum(s)
  {
    hide XxHash32.Checksum;
    var h := state.Digest(0, s);
    n := h as int;
  }

  // ---------------------------------------------------------------- header

  datatype Header = Short(target: nat) | Bad(code: ErrorCode) | Skippable | Regular(info: Info, size: nat, sized: bool)

  function Bit(x: uint8, weight: nat): bool
    requires weight > 0
  {
    x / weight % 2 == 1
  }

  function HeaderSize(flg: uint8): (n: nat)
    ensures MIN_FH_SIZE <= n <= MAX_FH_SIZE
  {
    MIN_FH_SIZE + (if Bit(flg, 8) then 8 else 0) + (if Bit(flg, 1) then 4 else 0)
  }

  /** LZ4F_getBlockSize */
  function BlockSize(id: nat): (n: nat)
    requires 4 <= id <= 7
    ensures 0x1_0000 <= n <= 0x40_0000
  {
    if id == 4 then 0x1_0000 else if id == 5 then 0x4_0000 else if id == 6 then 0x10_0000 else 0x40_0000
  }

  /** The second byte of the checksum of the header without magic number. */
  function HeaderByte(sum: nat): uint8 {
    sum / 0x100 % 0x100
  }

  predicate HeaderChecksumOk(sum: nat, hc: uint8) {
    HeaderByte(sum) == hc
  }

  predicate FlagsOk(flg: uint8) {
    !Bit(flg, 2) && flg / 64 == 1
  }

  predicate DescriptorOk(bd: uint8) {
    bd / 128 == 0 && 4 <= bd / 16 % 8 && bd % 16 == 0
  }

  ghost function DescriptorError(bd: uint8): ErrorCode {
    if bd < 128 && bd / 16 < 4 then MaxBlockSizeInvalid else ReservedFlagSet
  }

  predicate SkippableWord(word: nat) {
    word / 16 == MAGIC_SKIPPABLE_START / 16
  }

  predicate SkippableMagic(s: seq<uint8>)
    requires 4 <= |s|
  {
    SkippableWord(Read32(s, 0))
  }

  predicate FrameMagic(s: seq<uint8>)
    requires 4 <= |s|
  {
    Read32(s, 0) == MAGICNUMBER
  }

  ghost predicate ChecksumOk(s: seq<uint8>, n: nat)
    requires MIN_FH_SIZE <= n <= |s|
  {
    HeaderChecksumOk(Checksum(s[4..n - 1]), s[n - 1])
  }

  /** The parameters in a complete header. */
  function InfoOf(s: seq<uint8>): Info
    requires MIN_FH_SIZE <= |s| && HeaderSize(s[4]) <= |s| && DescriptorOk(s[5])
  {
    Info(Bit(s[4], 16), Bit(s[4], 4), if Bit(s[4], 8) then Lz4Words.ReadLE(s, 6, 8) else 0, BlockSize(s[5] / 16 % 8))
  }

  /** The header at the start of s. */
  ghost function ParseHeader(s: seq<uint8>): Header {
    if |s| < MIN_FH_SIZE then Short(MIN_FH_SIZE)
    else if SkippableMagic(s) then Skippable
    else if !FrameMagic(s) then Bad(FrameTypeUnknown)
    else if !FlagsOk(s[4]) then Bad(if Bit(s[4], 2) then ReservedFlagSet else HeaderVersionWrong)
    else if |s| < HeaderSize(s[4]) then Short(HeaderSize(s[4]))
    else if !DescriptorOk(s[5]) then Bad(DescriptorError(s[5]))
    else if !ChecksumOk(s, HeaderSize(s[4])) then Bad(HeaderChecksumInvalid)
    else Regular(InfoOf(s), HeaderSize(s[4]), Bit(s[4], 8))
  }

  /** The blocks of the frame at the start of s, if there is one, are independent. */
  ghost predicate Independent(s: seq<uint8>) {
    ParseHeader(s).Regular? ==> Bit(s[4], 32)
  }

  // ---------------------------------------------------------------- blocks

  /** The bytes still to come after n more, if the content size is known; modulo 2^64. */
  function Less(info: Info, remaining: nat, n: nat): nat {
    if info.contentSize == 0 then remaining else (remaining - n) % TWO64
  }

  function CrcSize(info: Info): nat {
    if info.blockChecksum then 4 else 0
  }

  function NextSize(word: nat): nat {
    word % UNCOMPRESSED_FLAG
  }

  predicate Uncompressed(word: nat) {
    word / UNCOMPRESSED_FLAG % 2 == 1
  }

  /** From a block header on; done is the content so far. */
  ghost function Blocks(info: Info, remaining: nat, done: seq<uint8>, s: seq<uint8>): Outcome
    decreases |s|, 0
  {
    if |s| < BH_SIZE then Truncated else AfterHeader(info, remaining, done, Read32(s, 0), s[4..])
  }

  /** Behind a block header. */
  ghost function AfterHeader(info: Info, remaining: nat, done: seq<uint8>, word: nat, s: seq<uint8>): Outcome
    decreases |s|, 3
  {
    var n := NextSize(word);
    if n == 0 then Suffix(info, remaining, done, s)
    else if n > info.maxBlockSize then Failed(done, MaxBlockSizeInvalid)
    else if Uncompressed(word) then Raw(info, remaining, done, [], n, s)
    else Compressed(info, remaining, done, n, s)
  }

  /** n more bytes of an uncompressed block of which part is known. */
  ghost function Raw(info: Info, remaining: nat, done: seq<uint8>, part: seq<uint8>, n: nat, s: seq<uint8>): Outcome
    decreases |s|, 2
  {
    if |s| < n then Truncated
    else RawEnd(info, Less(info, remaining, n), done + s[..n], part + s[..n], s[n..])
  }

  /** The checksum behind an uncompressed block. */
  ghost function RawEnd(info: Info, remaining: nat, done: seq<uint8>, block: seq<uint8>, s: seq<uint8>): Outcome
    decreases |s|, 1
  {
    if !info.blockChecksum then Blocks(info, remaining, done, s)
    else if |s| < 4 then Truncated
    else if Read32(s, 0) != Checksum(block) then Failed(done, BlockChecksumInvalid)
    else Blocks(info, remaining, done, s[4..])
  }

  /** A compressed block of n bytes and its checksum. */
  ghost function Compressed(info: Info, remaining: nat, done: seq<uint8>, n: nat, s: seq<uint8>): Outcome
    decreases |s|, 2
  {
    var end := n + CrcSize(info);
    if |s| < end then Truncated
    else if info.blockChecksum && Read32(s, n) != Checksum(s[..n]) then Failed(done, BlockChecksumInvalid)
    else
      AfterBlock(info, remaining, done, Lz4Reference.Decompress(s[..n], [], info.maxBlockSize, 0), s[end..])
  }

  /** Behind a compressed block that was decoded. */
  ghost function AfterBlock(info: Info, remaining: nat, done: seq<uint8>, d: Lz4Reference.Outcome,
      s: seq<uint8>): Outcome
    decreases |s|, 1
  {
    if d.Accept? then Blocks(info, Less(info, remaining, |d.out|), done + d.out, s)
      else Failed(done, DecompressionFailed)
  }

  /** The end mark is read; the size must have been right. */
  ghost function Suffix(info: Info, remaining: nat, done: seq<uint8>, s: seq<uint8>): Outcome {
    if remaining != 0 then Failed(done, FrameSizeWrong)
    else if !info.contentChecksum then Done(done, s)
    else CheckSuffix(done, s)
  }

  ghost function CheckSuffix(done: seq<uint8>, s: seq<uint8>): Outcome {
    if |s| < 4 then Truncated
    else if Read32(s, 0) != Checksum(done) then Failed(done, ContentChecksumInvalid)
    else Done(done, s[4..])
  }

  // ---------------------------------------------------------------- frame

  ghost function Skip(n: nat, s: seq<uint8>): Outcome {
    if |s| < n then Truncated else Done([], s[n..])
  }

  ghost function SkipSize(s: seq<uint8>): Outcome {
    if |s| < 4 then Truncated else Skip(Read32(s, 0), s[4..])
  }

  /** The frame at the start of s.  A header without content size leaves the number of bytes
      to come as it was. */
  ghost function Frame(remaining: nat, s: seq<uint8>): Outcome {
    match ParseHeader(s)
    case Short(_) => Truncated
    case Bad(code) => Failed([], code)
    case Skippable => SkipSize(s[4..])
    case Regular(info, size, sized) => Blocks(info, if sized then info.contentSize else remaining, [], s[size..])
  }

  // ---------------------------------------------------------------- facts

  lemma ReadSame(s: seq<uint8>, p: nat, t: seq<uint8>, q: nat)
    requires p + 4 <= |s| && q + 4 <= |t| && s[p..p + 4] == t[q..q + 4]
    ensures Read32(s, p) == Read32(t, q)
  {
    ReadSameBytes(s, p, t, q, 4);
  }

  lemma {:induction false} ReadSameBytes(s: seq<uint8>, p: nat, t: seq<uint8>, q: nat, n: nat)
    requires p + n <= |s| && q + n <= |t| && s[p..p + n] == t[q..q + n]
    ensures Lz4Words.ReadLE(s, p, n) == Lz4Words.ReadLE(t, q, n)
    decreases n
  {
    if n > 0 {
      assert s[p] == s[p..p + n][0] && t[q] == t[q..q + n][0];
      assert s[p + 1..p + n] == s[p..p + n][1..] && t[q + 1..q + n] == t[q..q + n][1..];
      ReadSameBytes(s, p + 1, t, q + 1, n - 1);
    }
  }

  /** A header that is complete does not depend on what follows it. */
  lemma HeaderStable(t: seq<uint8>, s: seq<uint8>)
    requires t <= s && !ParseHeader(t).Short?
    ensures ParseHeader(s) == ParseHeader(t)
  {
    hide Checksum, HeaderChecksumOk, Read32, SkippableWord;
    assert s[0..4] == t[0..4];
    ReadSame(s, 0, t, 0);
    assert s[4] == t[4] && s[5] == t[5] && s[6] == t[6];
    var n := HeaderSize(t[4]);
    if n <= |t| {
      assert s[4..n - 1] == t[4..n - 1] && s[n - 1] == t[n - 1];
      if Bit(t[4], 8) { ReadPrefix(s, t, 6, 8); }
    }
  }

  lemma {:induction false} ReadPrefix(s: seq<uint8>, t: seq<uint8>, p: nat, n: nat)
    requires p + n <= |t| && t <= s
    ensures Lz4Words.ReadLE(s, p, n) == Lz4Words.ReadLE(t, p, n)
    decreases n
  {
    if n > 0 { ReadPrefix(s, t, p + 1, n - 1); }
  }

  /** Copying an uncompressed block in two steps. */
  lemma RawStep(info: Info, remaining: nat, done: seq<uint8>, part: seq<uint8>, n: nat, s: seq<uint8>, k: nat)
    requires k <= n && k <= |s|
    ensures (Raw(info, remaining, done, part, n, s) ==
             Raw(info, Less(info, remaining, k), done + s[..k], part + s[..k], n - k, s[k..]))
  {
    hide RawEnd;
    if n <= |s| {
      assert s[..k] + s[k..][..n - k] == s[..n] && s[k..][n - k..] == s[n..];
      assert done + s[..k] + s[k..][..n - k] == done + s[..n];
      assert part + s[..k] + s[k..][..n - k] == part + s[..n];
      LessTwice(info, remaining, k, n - k);
    }
  }

  /** The rest of an uncompressed block at once. */
  lemma RawWhole(info: Info, remaining: nat, done: seq<uint8>, part: seq<uint8>, n: nat, s: seq<uint8>)
    requires n <= |s|
    ensures (Raw(info, remaining, done, part, n, s) ==
             RawEnd(info, Less(info, remaining, n), done + s[..n], part + s[..n], s[n..]))
  {
    hide RawEnd;
  }

  lemma BlockChecksumRead(info: Info, remaining: nat, done: seq<uint8>, block: seq<uint8>, crc: seq<uint8>,
      s: seq<uint8>)
    requires info.blockChecksum && |crc| == 4
    ensures (RawEnd(info, remaining, done, block, crc + s) ==
             if Read32(crc, 0) != Checksum(block) then Failed(done, BlockChecksumInvalid)
               else Blocks(info, remaining, done, s))
  {
    hide Blocks, Read32, Checksum;
    var t := crc + s;
    assert t[0..4] == crc[0..4] && t[4..] == s;
    ReadSame(t, 0, crc, 0);
  }

  /** A compressed block that is all there does not depend on what follows it. */
  lemma CompressedRead(info: Info, remaining: nat, done: seq<uint8>, n: nat, selected: seq<uint8>, s: seq<uint8>)
    requires |selected| == n + CrcSize(info)
    ensures (Compressed(info, remaining, done, n, selected + s) ==
             if info.blockChecksum
               && Read32(selected, n) != Checksum(selected[..n]) then Failed(done, BlockChecksumInvalid)
             else AfterBlock(info, remaining, done, Lz4Reference.Decompress(selected[..n], [], info.maxBlockSize, 0),
               s))
  {
    hide Blocks, Read32, Checksum, Lz4Reference.Decompress, AfterBlock;
    var t := selected + s;
    assert t[..n] == selected[..n] && t[n + CrcSize(info)..] == s;
    if info.blockChecksum {
      assert t[n..n + 4] == selected[n..n + 4];
      ReadSame(t, n, selected, n);
    }
  }

  lemma SuffixChecksumRead(done: seq<uint8>, crc: seq<uint8>, s: seq<uint8>)
    requires |crc| == 4
    ensures CheckSuffix(done, crc + s) == if Read32(crc, 0) != Checksum(done) then Failed(done, ContentChecksumInvalid)
      else Done(done, s)
  {
    hide Read32, Checksum;
    var t := crc + s;
    assert t[0..4] == crc[0..4] && t[4..] == s;
    ReadSame(t, 0, crc, 0);
  }

  lemma SkipSizeRead(size: seq<uint8>, s: seq<uint8>)
    requires |size| == 4
    ensures SkipSize(size + s) == Skip(Read32(size, 0), s)
  {
    hide Read32, Skip;
    var t := size + s;
    assert t[0..4] == size[0..4] && t[4..] == s;
    ReadSame(t, 0, size, 0);
  }

  lemma SkipStep(n: nat, s: seq<uint8>, k: nat)
    requires k <= n && k <= |s|
    ensures Skip(n, s) == Skip(n - k, s[k..])
    ensures k == n ==> Skip(n, s) == Done([], s[k..])
  {
    if n <= |s| { assert s[k..][n - k..] == s[n..]; }
  }

  lemma LessTwice(info: Info, remaining: nat, a: nat, b: nat)
    ensures Less(info, Less(info, remaining, a), b) == Less(info, remaining, a + b)
  {
    var m := TWO64;
    var x := remaining - a;
    ModUnique(remaining - a - b, x / m + (x % m - b) / m, (x % m - b) % m, m);
  }

  /** What is decoded at a block boundary begins the content, also in front of a fault. */
  lemma {:induction false} ContentExtends(info: Info, remaining: nat, done: seq<uint8>, s: seq<uint8>)
    requires !Blocks(info, remaining, done, s).Truncated?
    ensures done <= Blocks(info, remaining, done, s).content
    decreases |s|, 0
  {
    hide Read32, Checksum, NextSize, Uncompressed;
    var n := NextSize(Read32(s, 0));
    if 0 < n <= info.maxBlockSize {
      if Uncompressed(Read32(s, 0)) {
        RawExtends(info, remaining, done, [], n, s[4..]);
      } else {
        CompressedExtends(info, remaining, done, n, s[4..]);
      }
    }
  }

  lemma {:induction false} RawExtends(info: Info, remaining: nat, done: seq<uint8>, part: seq<uint8>, n: nat,
      s: seq<uint8>)
    requires !Raw(info, remaining, done, part, n, s).Truncated?
    ensures done <= Raw(info, remaining, done, part, n, s).content
    decreases |s|, 2
  {
    RawEndExtends(info, Less(info, remaining, n), done + s[..n], part + s[..n], s[n..]);
  }

  lemma {:induction false} RawEndExtends(info: Info, remaining: nat, done: seq<uint8>, block: seq<uint8>, s: seq<uint8>)
    requires !RawEnd(info, remaining, done, block, s).Truncated?
    ensures done <= RawEnd(info, remaining, done, block, s).content
    decreases |s|, 1
  {
    hide Read32, Checksum, Blocks;
    if !info.blockChecksum {
      ContentExtends(info, remaining, done, s);
    } else if Read32(s, 0) == Checksum(block) {
      ContentExtends(info, remaining, done, s[4..]);
    }
  }

  lemma {:induction false} CompressedExtends(info: Info, remaining: nat, done: seq<uint8>, n: nat, s: seq<uint8>)
    requires !Compressed(info, remaining, done, n, s).Truncated?
    ensures done <= Compressed(info, remaining, done, n, s).content
    decreases |s|, 1
  {
    hide Read32, Checksum, Blocks, Lz4Reference.Decompress;
    var d := Lz4Reference.Decompress(s[..n], [], info.maxBlockSize, 0);
    if d.Accept? && !(info.blockChecksum && Read32(s, n) != Checksum(s[..n])) {
      ContentExtends(info, Less(info, remaining, |d.out|), done + d.out, s[n + CrcSize(info)..]);
    }
  }

  /** A size that is already used up or still open modulo 2^64: after all blocks the count is
      what it was less the content decoded, so a known size must be the length of the content. */
  lemma {:induction false} SizeChecked(info: Info, remaining: nat, done: seq<uint8>, s: seq<uint8>)
    requires Blocks(info, remaining, done, s).Done?
    ensures done <= Blocks(info, remaining, done, s).content
    ensures Less(info, remaining, |Blocks(info, remaining, done, s).content| - |done|) == 0
    decreases |s|
  {
    hide Read32, Checksum, NextSize, Uncompressed, Lz4Reference.Decompress;
    ContentExtends(info, remaining, done, s);
    var n := NextSize(Read32(s, 0));
    var c := Blocks(info, remaining, done, s).content;
    if n > 0 {
      var t := s[4..];
      if Uncompressed(Read32(s, 0)) {
        assert Blocks(info, remaining, done, s) == Raw(info, remaining, done, [], n, t);
        assert Raw(info, remaining, done, [], n, t) ==
          RawEnd(info, Less(info, remaining, n), done + t[..n], [] + t[..n], t[n..]);
        var u := if info.blockChecksum then t[n..][4..] else t[n..];
        ContentExtends(info, Less(info, remaining, n), done + t[..n], u);
        SizeChecked(info, Less(info, remaining, n), done + t[..n], u);
        LessTwice(info, remaining, n, |c| - |done| - n);
      } else {
        assert Blocks(info, remaining, done, s) == Compressed(info, remaining, done, n, t);
        var d := Lz4Reference.Decompress(t[..n], [], info.maxBlockSize, 0);
        var u := t[n + CrcSize(info)..];
        assert Compressed(info, remaining, done, n, t) == AfterBlock(info, remaining, done, d, u);
        ContentExtends(info, Less(info, remaining, |d.out|), done + d.out, u);
        SizeChecked(info, Less(info, remaining, |d.out|), done + d.out, u);
        LessTwice(info, remaining, |d.out|, |c| - |done| - |d.out|);
      }
    }
  }

  lemma HeaderFits(s: seq<uint8>)
    requires ParseHeader(s).Regular?
    ensures ParseHeader(s).size <= |s|
  {
    hide Checksum, Read32, InfoOf;
  }

  /** The content size field of an accepted frame: unless it is 0, it is the length of the
      content modulo 2^64. */
  lemma SizedContent(remaining: nat, s: seq<uint8>)
    requires ParseHeader(s).Regular? && ParseHeader(s).sized && Frame(remaining, s).Done?
    ensures var n := ParseHeader(s).info.contentSize;
      n != 0 ==> (n - |Frame(remaining, s).content|) % TWO64 == 0
  {
    hide Blocks, ParseHeader;
    var h := ParseHeader(s);
    HeaderFits(s);
    SizeChecked(h.info, h.info.contentSize, [], s[h.size..]);
  }

  /** Bytes that were left open are noticed only behind the last block. */
  lemma {:induction false} NoticedAtEnd(info: Info, remaining: nat, done: seq<uint8>, s: seq<uint8>)
    requires info.contentSize == 0 && remaining != 0 && Blocks(info, 0, done, s).Done?
    ensures Blocks(info, remaining, done, s) == Failed(Blocks(info, 0, done, s).content, FrameSizeWrong)
    decreases |s|
  {
    hide Read32, Checksum, NextSize, Uncompressed, Lz4Reference.Decompress;
    var n := NextSize(Read32(s, 0));
    var t := s[4..];
    if n > 0 && Uncompressed(Read32(s, 0)) {
      assert Blocks(info, 0, done, s) == Raw(info, 0, done, [], n, t);
      assert Blocks(info, remaining, done, s) == Raw(info, remaining, done, [], n, t);
      RawWhole(info, 0, done, [], n, t);
      RawWhole(info, remaining, done, [], n, t);
      NoticedAtEnd(info, remaining, done + t[..n], if info.blockChecksum then t[n..][4..] else t[n..]);
    } else if n > 0 {
      assert Blocks(info, 0, done, s) == Compressed(info, 0, done, n, t);
      var d := Lz4Reference.Decompress(t[..n], [], info.maxBlockSize, 0);
      var u := t[n + CrcSize(info)..];
      assert Compressed(info, 0, done, n, t) == AfterBlock(info, 0, done, d, u);
      assert Blocks(info, remaining, done, s) == Compressed(info, remaining, done, n, t)
             == AfterBlock(info, remaining, done, d, u);
      NoticedAtEnd(info, remaining, done + d.out, u);
    }
  }

  /** A context that still counts bytes of an abandoned frame refuses exactly the frames
      without content size, behind their content. */
  lemma StaleCount(remaining: nat, s: seq<uint8>)
    requires ParseHeader(s).Regular?
    ensures (Frame(remaining, s).Done? <==>
              Frame(0, s).Done? && (ParseHeader(s).sized || remaining == 0))
    ensures (Frame(0, s).Done? && !Frame(remaining, s).Done? ==>
      Frame(remaining, s) == Failed(Frame(0, s).content, FrameSizeWrong))
  {
    hide Blocks, Checksum, Read32;
    var h := ParseHeader(s);
    HeaderFits(s);
    if !h.sized && Frame(remaining, s).Done? {
      SizeChecked(h.info, remaining, [], s[h.size..]);
    }
    if !h.sized && remaining != 0 && Frame(0, s).Done? { NoticedAtEnd(h.info, remaining, [], s[h.size..]); }
  }
}
