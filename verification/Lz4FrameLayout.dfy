/** The bytes of a frame: which bits of its header and block headers mean what, and small frames
    written out. */
module Lz4FrameLayout {
  import opened MachineInts
  import opened Arithmetic
  import opened TwosComplement
  import opened Lz4FrameFormat
  import XxHash32
  import XxHashRefinement
  import Lz4Words
  import Lz4Reference

  // ---------------------------------------------------------------- magic numbers

  /** Four bytes, the lowest first. */
  ghost function Digits(a: int, b: int, c: int, d: int): int {
    a + 0x100 * b + 0x1_0000 * c + 0x100_0000 * d
  }

  lemma Word(s: seq<uint8>, p: nat)
    requires p + 4 <= |s|
    ensures Read32(s, p) == Digits(s[p], s[p + 1], s[p + 2], s[p + 3])
  {
  }

  /** A frame starts with the bytes 04 22 4D 18, a skippable one with 50 to 5F and 2A 4D 18. */
  lemma MagicBytes(s: seq<uint8>)
    requires 4 <= |s|
    ensures FrameMagic(s) <==> s[..4] == [0x04, 0x22, 0x4D, 0x18]
    ensures SkippableMagic(s) <==> 0x50 <= s[0] <= 0x5F && s[1..4] == [0x2A, 0x4D, 0x18]
  {
    hide Read32;
    Word(s, 0);
    DigitsUnique(s[0], s[1], s[2], s[3], 0x04, 0x22, 0x4D, 0x18);
    var upper := Digits(0, s[1], s[2], s[3]) / 16;
    ModUnique(Read32(s, 0), s[0] / 16 + upper, s[0] % 16, 16);
    DigitsUnique(s[0] / 16 * 16, s[1], s[2], s[3], 0x50, 0x2A, 0x4D, 0x18);
  }

  lemma DigitsUnique(a: int, b: int, c: int, d: int, a': int, b': int, c': int, d': int)
    requires 0 <= a < 0x100 && 0 <= b < 0x100 && 0 <= c < 0x100 && 0 <= d < 0x100
    requires 0 <= a' < 0x100 && 0 <= b' < 0x100 && 0 <= c' < 0x100 && 0 <= d' < 0x100
    ensures Digits(a, b, c, d) == Digits(a', b', c', d') <==> a == a' && b == b' && c == c' && d == d'
  {
    if Digits(a, b, c, d) == Digits(a', b', c', d') {
      LowDigit(a, b + 0x100 * c + 0x1_0000 * d, a', b' + 0x100 * c' + 0x1_0000 * d');
      LowDigit(b, c + 0x100 * d, b', c' + 0x100 * d');
      LowDigit(c, d, c', d');
    }
  }

  lemma LowDigit(a: int, x: int, a': int, x': int)
    requires 0 <= a < 0x100 && 0 <= a' < 0x100 && a + 0x100 * x == a' + 0x100 * x'
    ensures a == a' && x == x'
  {
  }

  // ---------------------------------------------------------------- header

  /** Flag byte: two bits of version, then independent blocks, block checksums, content size,
      content checksum, a reserved bit and the dictionary number. */
  lemma FlagBits(flg: uint8, version: nat, independent: bool, blockCrc: bool, sized: bool, contentCrc: bool,
      reserved: bool, dictId: bool)
    requires version < 4
    requires (flg == 64 * version + (if independent then 32 else 0) + (if blockCrc then 16 else 0)
                  + (if sized then 8 else 0) + (if contentCrc then 4 else 0) + (if reserved then 2 else 0)
                  + (if dictId then 1 else 0))
    ensures FlagsOk(flg) <==> version == 1 && !reserved
    ensures HeaderSize(flg) == 7 + (if sized then 8 else 0) + (if dictId then 4 else 0)
    ensures (Bit(flg, 32) <==> independent) && (Bit(flg, 16) <==> blockCrc) && (Bit(flg, 8) <==> sized)
    ensures Bit(flg, 4) <==> contentCrc
  {
    hide Bit;
    var u5 := 2 * version + (if independent then 1 else 0);
    var u4 := 2 * u5 + (if blockCrc then 1 else 0);
    var u3 := 2 * u4 + (if sized then 1 else 0);
    var u2 := 2 * u3 + (if contentCrc then 1 else 0);
    var u1 := 2 * u2 + (if reserved then 1 else 0);
    BitIs(flg, 1, u1, dictId, 0);
    BitIs(flg, 2, u2, reserved, flg - 2 * u1);
    BitIs(flg, 4, u3, contentCrc, flg - 4 * u2);
    BitIs(flg, 8, u4, sized, flg - 8 * u3);
    BitIs(flg, 16, u5, blockCrc, flg - 16 * u4);
    BitIs(flg, 32, version, independent, flg - 32 * u5);
    ModUnique(flg, version, flg - 64 * version, 64);
  }

  lemma BitIs(x: uint8, weight: nat, upper: nat, bit: bool, lower: nat)
    requires lower < weight && x == 2 * weight * upper + (if bit then weight else 0) + lower
    ensures Bit(x, weight) <==> bit
  {
    assert 2 * weight * upper == (2 * upper) * weight;
    ModUnique(x, 2 * upper + (if bit then 1 else 0), lower, weight);
  }

  /** Block descriptor: a reserved bit, three bits of block size, four reserved bits. */
  lemma DescriptorBits(bd: uint8, high: nat, id: nat, low: nat)
    requires high < 2 && id < 8 && low < 16 && bd == 128 * high + 16 * id + low
    ensures DescriptorOk(bd) <==> high == 0 && low == 0 && 4 <= id
    ensures bd / 16 % 8 == id
  {
  }

  /** The four block sizes: 64 KB, 256 KB, 1 MB and 4 MB. */
  lemma BlockSizeIs(id: nat)
    requires 4 <= id <= 7
    ensures BlockSize(id) == Pow2(8 + 2 * id)
  {
    Pow2Add(8, 8);
    assert Pow2(8) == 0x100 && Pow2(2) == 4 && Pow2(4) == 16 && Pow2(6) == 64;
    Pow2Add(16, 2);
    Pow2Add(16, 4);
    Pow2Add(16, 6);
  }

  /** The parameters of a complete header. */
  lemma InfoBits(s: seq<uint8>, blockCrc: bool, sized: bool, contentCrc: bool, id: nat)
    requires 7 <= |s| && HeaderSize(s[4]) <= |s| && DescriptorOk(s[5]) && s[5] == 16 * id
    requires Bit(s[4], 16) == blockCrc && Bit(s[4], 8) == sized && Bit(s[4], 4) == contentCrc
    ensures 4 <= id <= 7
    ensures (InfoOf(s) ==
      Info(blockCrc, contentCrc,
           if sized then Read32(s, 6) + 0x1_0000_0000 * Read32(s, 10) else 0, Pow2(8 + 2 * id)))
  {
    hide Bit, Pow2, Read32;
    DescriptorBits(s[5], 0, id, 0);
    BlockSizeIs(id);
    if sized {
      TwoWords(s, 6);
    }
  }

  lemma TwoWords(s: seq<uint8>, p: nat)
    requires p + 8 <= |s|
    ensures Lz4Words.ReadLE(s, p, 8) == Read32(s, p) + 0x1_0000_0000 * Read32(s, p + 4)
  {
    Word(s, p);
    Word(s, p + 4);
  }

  /** The header checksum is the second lowest byte of the checksum. */
  lemma HeaderByteIs(sum: nat, upper: nat, second: uint8, lowest: uint8)
    requires sum == 0x1_0000 * upper + 0x100 * second + lowest
    ensures HeaderByte(sum) == second
  {
    ModUnique(sum, 0x100 * upper + second, lowest, 0x100);
    ModUnique(0x100 * upper + second, upper, second, 0x100);
  }

  // ---------------------------------------------------------------- block header

  /** The highest bit marks an uncompressed block, the others are its size. */
  lemma BlockWord(word: nat, high: nat, size: nat)
    requires high < 2 && size < 0x8000_0000 && word == 0x8000_0000 * high + size
    ensures NextSize(word) == size
    ensures Uncompressed(word) <==> high == 1
  {
    ModUnique(word, high, size, 0x8000_0000);
  }

  // ---------------------------------------------------------------- frames written out

  lemma KnownChecksums()
    ensures Checksum([]) == 0x02CC5D05 && Checksum([0x61]) == 0x550D7456 && Checksum([0x64, 0x40]) == 0x95C0A77C
  {
    hide XxHash32.Checksum;
    XxHashRefinement.NoBytes();
    XxHashRefinement.OneByte();
    XxHashRefinement.TwoBytes();
  }

  /** Seven bytes of header: 64 KB blocks, a content checksum and nothing else. */
  lemma LeastHeader(s: seq<uint8>)
    requires [0x04, 0x22, 0x4D, 0x18, 0x64, 0x40, 0xA7] <= s
    ensures ParseHeader(s) == Regular(Info(false, true, 0, 0x1_0000), 7, false)
  {
    hide Checksum, Bit, FrameMagic, SkippableMagic, InfoOf;
    MagicBytes(s);
    FlagBits(0x64, 1, true, false, false, true, false, false);
    DescriptorBits(0x40, 0, 4, 0);
    InfoBits(s, false, false, true, 4);
    BlockSizeIs(4);
    KnownChecksums();
    assert s[4..6] == [0x64, 0x40];
    HeaderByteIs(0x95C0A77C, 0x95C0, 0xA7, 0x7C);
  }

  /** A frame without content. */
  lemma EmptyFrame()
    ensures (Frame(0, [0x04, 0x22, 0x4D, 0x18, 0x64, 0x40, 0xA7, 0, 0, 0, 0, 0x05, 0x5D, 0xCC, 0x02]) == Done([], []))
  {
    hide Checksum, ParseHeader, Read32, NextSize, Uncompressed, Raw, Compressed;
    var s: seq<uint8> := [0x04, 0x22, 0x4D, 0x18, 0x64, 0x40, 0xA7, 0, 0, 0, 0, 0x05, 0x5D, 0xCC, 0x02];
    LeastHeader(s);
    KnownChecksums();
    var t: seq<uint8> := [0x05, 0x5D, 0xCC, 0x02];
    assert s[7..] == [0, 0, 0, 0] + t && s[7..][4..] == t && t[4..] == [];
    Word(s[7..], 0);
    Word(t, 0);
    BlockWord(0, 0, 0);
  }

  /** A frame with one uncompressed block, and a byte behind the frame. */
  lemma RawFrame()
    ensures (Frame(0, [0x04, 0x22, 0x4D, 0x18, 0x64, 0x40, 0xA7, 1, 0, 0, 0x80, 0x61, 0, 0, 0, 0, 0x56, 0x74, 0x0D,
      0x55,
                       0x99]) == Done([0x61], [0x99]))
  {
    hide Checksum, ParseHeader, Read32, Uncompressed, NextSize, Blocks, Raw, RawEnd;
    var s: seq<uint8> := [0x04, 0x22, 0x4D, 0x18, 0x64, 0x40, 0xA7, 1, 0, 0, 0x80, 0x61, 0, 0, 0, 0, 0x56, 0x74, 0x0D,
                          0x55, 0x99];
    LeastHeader(s);
    assert s[7..] == [1, 0, 0, 0x80, 0x61] + [0, 0, 0, 0, 0x56, 0x74, 0x0D, 0x55, 0x99];
    RawBlock(Info(false, true, 0, 0x1_0000), 0x61, [0, 0, 0, 0, 0x56, 0x74, 0x0D, 0x55, 0x99]);
    LastBlock([0, 0, 0, 0, 0x56, 0x74, 0x0D, 0x55, 0x99]);
  }

  lemma RawBlock(info: Info, b: uint8, rest: seq<uint8>)
    requires !info.blockChecksum && info.contentSize == 0 && info.maxBlockSize == 0x1_0000
    ensures Blocks(info, 0, [], [1, 0, 0, 0x80, b] + rest) == Blocks(info, 0, [b], rest)
  {
    hide Checksum, Read32, Uncompressed, NextSize;
    var s := [1, 0, 0, 0x80, b] + rest;
    Word(s, 0);
    BlockWord(0x8000_0001, 1, 1);
    var t := s[4..];
    assert t == [b] + rest && t[..1] == [b] && t[1..] == rest;
    assert [] + [b] == [b];
    RawWhole(info, 0, [], [], 1, t);
  }

  lemma LastBlock(s: seq<uint8>)
    requires s == [0, 0, 0, 0, 0x56, 0x74, 0x0D, 0x55, 0x99]
    ensures Blocks(Info(false, true, 0, 0x1_0000), 0, [0x61], s) == Done([0x61], [0x99])
  {
    hide Checksum, Read32, Uncompressed, NextSize, Raw, Compressed;
    KnownChecksums();
    var t: seq<uint8> := [0x56, 0x74, 0x0D, 0x55, 0x99];
    assert s == [0, 0, 0, 0] + t && s[4..] == t && t[4..] == [0x99];
    Word(s, 0);
    BlockWord(0, 0, 0);
    Word(t, 0);
  }

  /** A skippable frame of one byte. */
  lemma SkippableFrame(b: uint8, rest: seq<uint8>)
    ensures Frame(0, [0x5F, 0x2A, 0x4D, 0x18, 1, 0, 0, 0, b] + rest) == Done([], rest)
  {
    hide Checksum, Read32, FrameMagic, SkippableMagic;
    var s := [0x5F, 0x2A, 0x4D, 0x18, 1, 0, 0, 0, b] + rest;
    MagicBytes(s);
    assert s[1..4] == [0x2A, 0x4D, 0x18];
    Word(s[4..], 0);
    assert s[4..][4..][1..] == rest;
  }
}
