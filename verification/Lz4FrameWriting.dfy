/** The bytes of a frame of independent blocks, and what the frame format makes of them. */
module Lz4FrameWriting {
  import opened MachineInts
  import opened Arithmetic
  import opened TwosComplement
  import opened Lz4FrameFormat
  import Lz4Words
  import Lz4Reference

  // ---------------------------------------------------------------- little-endian numbers

  /** The k low bytes of n, the lowest first. */
  function LE(n: nat, k: nat): (r: seq<uint8>)
    ensures |r| == k
    decreases k, n
  {
    if k == 0 then [] else [n % 0x100] + LE(n / 0x100, k - 1)
  }

  /** Reading back what was written. */
  lemma {:induction false} ReadBack(n: nat, k: nat, rest: seq<uint8>)
    requires n < Pow2(8 * k)
    ensures Lz4Words.ReadLE(LE(n, k) + rest, 0, k) == n
    decreases k
  {
    var s := LE(n, k) + rest;
    if k > 0 {
      Pow2Add(8, 8 * (k - 1));
      assert Pow2(8) == 0x100;
      ReadBack(n / 0x100, k - 1, rest);
      assert s[1..] == LE(n / 0x100, k - 1) + rest;
      ReadSameBytes(s, 1, s[1..], 0, k - 1);
    }
  }

  lemma Pow2Of32()
    ensures Pow2(32) == 0x1_0000_0000 && Pow2(64) == TWO64
  {
    assert Pow2(8) == 0x100;
    Pow2Add(8, 8);
    Pow2Add(16, 16);
    Pow2Add(32, 32);
  }

  lemma Read32Back(n: nat, rest: seq<uint8>)
    requires n < 0x1_0000_0000
    ensures Read32(LE(n, 4) + rest, 0) == n
  {
    Pow2Of32();
    ReadBack(n, 4, rest);
  }

  lemma ChecksumFits(s: seq<uint8>)
    ensures Checksum(s) < 0x1_0000_0000
  {
    hide XxHash32.Checksum;
  }

  // ---------------------------------------------------------------- blocks

  /** Bytes that stand for content: whatever was decoded before and whatever follows. */
  ghost predicate Emits(info: Info, x: seq<uint8>, content: seq<uint8>) {
    forall remaining: nat, done: seq<uint8>, rest: seq<uint8> {:trigger Blocks(info, remaining, done, x + rest)} ::
      remaining < TWO64 ==>
        Blocks(info, remaining, done, x + rest) == Blocks(info, Less(info, remaining, |content|), done + content, rest)
  }

  lemma EmitsNothing(info: Info)
    ensures Emits(info, [], [])
  {
    hide Blocks;
    forall remaining: nat, done: seq<uint8>, rest: seq<uint8> | remaining < TWO64
      ensures Blocks(info, remaining, done, [] + rest) == Blocks(info, Less(info, remaining, 0), done + [], rest)
    {
      assert [] + rest == rest && done + [] == done;
      ModSmall(remaining, TWO64);
    }
  }

  lemma EmitsAppend(info: Info, x: seq<uint8>, y: seq<uint8>, c: seq<uint8>, d: seq<uint8>)
    requires Emits(info, x, c) && Emits(info, y, d)
    ensures Emits(info, x + y, c + d)
  {
    hide Blocks;
    forall remaining: nat, done: seq<uint8>, rest: seq<uint8> | remaining < TWO64
      ensures Blocks(info, remaining, done, x + y + rest) ==
        Blocks(info, Less(info, remaining, |c + d|), done + (c + d), rest)
    {
      assert x + y + rest == x + (y + rest) && done + (c + d) == done + c + d;
      LessTwice(info, remaining, |c|, |d|);
      LessFits(info, remaining, |c|);
      assert Blocks(info, remaining, done, x + (y + rest)) ==
        Blocks(info, Less(info, remaining, |c|), done + c, y + rest);
    }
  }

  lemma LessFits(info: Info, remaining: nat, n: nat)
    requires remaining < TWO64
    ensures Less(info, remaining, n) < TWO64
  {
  }

  /** The checksum behind the bytes of a block. */
  ghost function CrcBytes(info: Info, block: seq<uint8>): (r: seq<uint8>)
    ensures |r| == CrcSize(info)
  {
    if info.blockChecksum then LE(Checksum(block), 4) else []
  }

  ghost function RawBlock(info: Info, data: seq<uint8>): seq<uint8> {
    LE(|data| + UNCOMPRESSED_FLAG, 4) + data + CrcBytes(info, data)
  }

  ghost function PackedBlock(info: Info, block: seq<uint8>): seq<uint8> {
    LE(|block|, 4) + block + CrcBytes(info, block)
  }

  lemma HeaderOf(n: nat, rest: seq<uint8>)
    requires n < 0x1_0000_0000
    ensures Read32(LE(n, 4) + rest, 0) == n && (LE(n, 4) + rest)[4..] == rest
  {
    hide Read32;
    Read32Back(n, rest);
  }

  lemma RawEmits(info: Info, data: seq<uint8>)
    requires 1 <= |data| <= info.maxBlockSize < UNCOMPRESSED_FLAG
    ensures Emits(info, RawBlock(info, data), data)
  {
    hide Blocks, Raw, RawEnd, AfterHeader, Read32, Checksum, LE;
    forall remaining: nat, done: seq<uint8>, rest: seq<uint8> | remaining < TWO64
      ensures (Blocks(info, remaining, done, RawBlock(info, data) + rest) ==
               Blocks(info, Less(info, remaining, |data|), done + data, rest))
    {
      var crc := CrcBytes(info, data);
      var t := data + (crc + rest);
      var word := |data| + UNCOMPRESSED_FLAG;
      assert RawBlock(info, data) + rest == LE(word, 4) + t;
      HeaderOf(word, t);
      BlocksHeader(info, remaining, done, LE(word, 4) + t);
      WordOfRaw(info, remaining, done, |data|, t);
      RawWhole(info, remaining, done, [], |data|, t);
      assert t[..|data|] == data && t[|data|..] == crc + rest && [] + data == data;
      CrcRead(info, Less(info, remaining, |data|), done + data, data, rest);
    }
  }

  lemma BlocksHeader(info: Info, remaining: nat, done: seq<uint8>, s: seq<uint8>)
    requires 4 <= |s|
    ensures Blocks(info, remaining, done, s) == AfterHeader(info, remaining, done, Read32(s, 0), s[4..])
  {
    hide AfterHeader, Read32;
  }

  lemma WordOfRaw(info: Info, remaining: nat, done: seq<uint8>, n: nat, t: seq<uint8>)
    requires 1 <= n <= info.maxBlockSize < UNCOMPRESSED_FLAG
    ensures AfterHeader(info, remaining, done, n + UNCOMPRESSED_FLAG, t) == Raw(info, remaining, done, [], n, t)
  {
    hide Raw;
    ModUnique(n + UNCOMPRESSED_FLAG, 1, n, UNCOMPRESSED_FLAG);
  }

  lemma WordOfPacked(info: Info, remaining: nat, done: seq<uint8>, n: nat, t: seq<uint8>)
    requires 1 <= n <= info.maxBlockSize < UNCOMPRESSED_FLAG
    ensures AfterHeader(info, remaining, done, n, t) == Compressed(info, remaining, done, n, t)
  {
    hide Compressed;
    ModSmall(n, UNCOMPRESSED_FLAG);
  }

  lemma CrcRead(info: Info, remaining: nat, done: seq<uint8>, block: seq<uint8>, rest: seq<uint8>)
    ensures RawEnd(info, remaining, done, block, CrcBytes(info, block) + rest) == Blocks(info, remaining, done, rest)
  {
    hide Blocks, Read32, Checksum, LE;
    if info.blockChecksum {
      ChecksumFits(block);
      Read32Back(Checksum(block), []);
      assert LE(Checksum(block), 4) + [] == LE(Checksum(block), 4);
      BlockChecksumRead(info, remaining, done, block, CrcBytes(info, block), rest);
    } else {
      assert CrcBytes(info, block) + rest == rest;
    }
  }

  lemma PackedEmits(info: Info, block: seq<uint8>, data: seq<uint8>)
    requires 1 <= |block| <= info.maxBlockSize < UNCOMPRESSED_FLAG
    requires Lz4Reference.Decompress(block, [], info.maxBlockSize, 0) == Lz4Reference.Accept(data)
    ensures Emits(info, PackedBlock(info, block), data)
  {
    hide Blocks, Compressed, AfterHeader, Read32, Checksum, LE, Lz4Reference.Decompress;
    forall remaining: nat, done: seq<uint8>, rest: seq<uint8> | remaining < TWO64
      ensures (Blocks(info, remaining, done, PackedBlock(info, block) + rest) ==
               Blocks(info, Less(info, remaining, |data|), done + data, rest))
    {
      var crc := CrcBytes(info, block);
      var selected := block + crc;
      var t := selected + rest;
      assert PackedBlock(info, block) + rest == LE(|block|, 4) + t;
      HeaderOf(|block|, t);
      BlocksHeader(info, remaining, done, LE(|block|, 4) + t);
      WordOfPacked(info, remaining, done, |block|, t);
      CompressedRead(info, remaining, done, |block|, selected, rest);
      assert selected[..|block|] == block;
      if info.blockChecksum {
        ChecksumFits(block);
        Read32Back(Checksum(block), []);
        assert crc + [] == crc;
        assert selected[|block|..|block| + 4] == crc[0..4];
        ReadSame(selected, |block|, crc, 0);
      }
    }
  }

  // ---------------------------------------------------------------- end and header

  ghost function EndBytes(info: Info, content: seq<uint8>): seq<uint8> {
    LE(0, 4) + (if info.contentChecksum then LE(Checksum(content), 4) else [])
  }

  lemma EndRead(info: Info, content: seq<uint8>, rest: seq<uint8>)
    ensures Blocks(info, 0, content, EndBytes(info, content) + rest) == Done(content, rest)
  {
    hide Blocks, Read32, Checksum, LE, CheckSuffix;
    var crc := if info.contentChecksum then LE(Checksum(content), 4) else [];
    var t := crc + rest;
    assert EndBytes(info, content) + rest == LE(0, 4) + t;
    HeaderOf(0, t);
    BlocksHeader(info, 0, content, LE(0, 4) + t);
    if info.contentChecksum {
      ChecksumFits(content);
      Read32Back(Checksum(content), []);
      assert crc + [] == crc;
      SuffixChecksumRead(content, crc, rest);
    } else {
      assert t == rest;
    }
  }

  /** Preferences for a frame of independent blocks without dictionary. */
  datatype Prefs = Prefs(blockSizeID: nat, blockChecksum: bool, contentChecksum: bool, contentSize: nat, dictID: nat,
                         level: int, autoFlush: bool) {
    predicate Valid() {
      4 <= blockSizeID <= 7 && contentSize < TWO64 && dictID < 0x1_0000_0000
    }

    function FrameInfo(): Info
      requires Valid()
    {
      Info(blockChecksum, contentChecksum, contentSize, BlockSize(blockSizeID))
    }

    function Flg(): uint8 {
      0x40 + 0x20 + (if blockChecksum then 0x10 else 0) + (if contentSize > 0 then 8 else 0)
      + (if contentChecksum then 4 else 0) + (if dictID > 0 then 1 else 0)
    }

    function Descriptor(): seq<uint8>
      requires Valid()
    {
      [Flg(), blockSizeID * 16] + (if contentSize > 0 then LE(contentSize, 8) else [])
      + (if dictID > 0 then LE(dictID, 4) else [])
    }

    ghost function Header(): seq<uint8>
      requires Valid()
    {
      LE(MAGICNUMBER, 4) + Descriptor() + [HeaderByte(Checksum(Descriptor()))]
    }
  }

  lemma FlagBits(p: Prefs)
    ensures var f := p.Flg();
      FlagsOk(f) && Bit(f, 0x20) && Bit(f, 0x10) == p.blockChecksum && Bit(f, 8) == (p.contentSize > 0)
      && Bit(f, 4) == p.contentChecksum && Bit(f, 1) == (p.dictID > 0)
  {
  }

  lemma DescriptorBits(id: nat)
    requires 4 <= id <= 7
    ensures DescriptorOk(id * 16) && (id * 16) / 16 % 8 == id
  {
  }

  /** A written header is read back, whatever follows. */
  lemma HeaderRead(p: Prefs, rest: seq<uint8>)
    requires p.Valid()
    ensures var s := p.Header() + rest;
      ParseHeader(s) == Regular(p.FrameInfo(), |p.Header()|, p.contentSize > 0) && Bit(s[4], 0x20)
      && s[|p.Header()|..] == rest
  {
    hide Checksum, LE, Read32, FlagsOk, Bit, DescriptorOk, BlockSize, HeaderByte;
    var h := p.Header();
    var s := h + rest;
    var d := p.Descriptor();
    assert s == LE(MAGICNUMBER, 4) + (d + [HeaderByte(Checksum(d))] + rest);
    Read32Back(MAGICNUMBER, d + [HeaderByte(Checksum(d))] + rest);
    FlagBits(p);
    DescriptorBits(p.blockSizeID);
    assert s[4] == p.Flg() && s[5] == p.blockSizeID * 16;
    assert HeaderSize(s[4]) == |h|;
    assert s[4..|h| - 1] == d && s[|h| - 1] == HeaderByte(Checksum(d));
    if p.contentSize > 0 { SizeField(p, s); }
  }

  lemma SizeField(p: Prefs, s: seq<uint8>)
    requires p.Valid() && p.contentSize > 0 && p.Header() <= s
    ensures |s| >= 14 && Lz4Words.ReadLE(s, 6, 8) == p.contentSize
  {
    hide Checksum, Lz4Words.ReadLE, LE;
    Pow2Of32();
    ReadBack(p.contentSize, 8, []);
    var f := LE(p.contentSize, 8);
    assert f + [] == f;
    assert s[6..14] == p.Header()[6..14] == f[0..8];
    ReadSameBytes(s, 6, f, 0, 8);
  }

  /** A complete frame: the number of bytes left open by earlier frames matters only without a
      content size. */
  lemma FrameRead(p: Prefs, body: seq<uint8>, content: seq<uint8>, remaining: nat, rest: seq<uint8>)
    requires p.Valid() && Emits(p.FrameInfo(), body, content)
    requires p.contentSize > 0 ==> p.contentSize == |content|
    requires p.contentSize == 0 ==> remaining == 0
    ensures Frame(remaining, p.Header() + body + EndBytes(p.FrameInfo(), content) + rest) == Done(content, rest)
    ensures Independent(p.Header() + body + EndBytes(p.FrameInfo(), content) + rest)
  {
    hide Blocks, Checksum, LE, Read32, ParseHeader, Emits, EndBytes;
    var info := p.FrameInfo();
    var tail := EndBytes(info, content) + rest;
    var s := p.Header() + body + EndBytes(info, content) + rest;
    assert s == p.Header() + (body + tail);
    HeaderRead(p, body + tail);
    var start := if p.contentSize > 0 then p.contentSize else 0;
    EmitsOnce(info, body, content, start, tail);
    assert [] + content == content;
    ModSmall(0, TWO64);
    assert Less(info, start, |content|) == 0;
    EndRead(info, content, rest);
  }

  lemma EmitsOnce(info: Info, body: seq<uint8>, content: seq<uint8>, remaining: nat, tail: seq<uint8>)
    requires Emits(info, body, content) && remaining < TWO64
    ensures Blocks(info, remaining, [], body + tail) ==
      Blocks(info, Less(info, remaining, |content|), [] + content, tail)
  {
    hide Blocks;
  }
}
