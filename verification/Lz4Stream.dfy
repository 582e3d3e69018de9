/** The compressor's state across calls, and streaming compression and decompression of
    contiguous blocks, after lz4.c. */
module Lz4Stream {
  import opened MachineInts
  import opened Lz4Memory
  import opened Lz4Format
  import opened Lz4Reference
  import opened Lz4Search
  import opened Lz4Greedy
  import opened Lz4Compressor
  import opened Lz4Decoder

  const LIMIT_64K: nat := 0x1_000b
  const NULL: int := -1

  /** The hash table with its type and the offset of the next call. */
  datatype Table = Table(tableType: TableType, offset: nat, entries: seq<uint32>)

  ghost function Zeros(): (z: seq<uint32>)
    ensures |z| == 0x2000
  {
    seq(0x2000, _ => 0)
  }

  /** What LZ4_prepareTable makes of a table: one of the right type is kept for less than 4 KB of input
      while 16 bits or half of 2^31 are enough for the offsets; entries of a kept 32-bit table are
      moved out of reach. */
  ghost function Prepared(b: Table, n: nat, t: TableType): Table {
    if b.tableType == Cleared then
      (if b.offset != 0 && t == ByU32 then b.(offset := b.offset + 0x1_0000) else b)
    else if b.tableType == t && n < 4096 && (t == ByU16 ==> b.offset + n < 0xffff)
              && (t == ByU32 ==> b.offset <= 0x4000_0000) then
      (if b.offset != 0 && t == ByU32 then b.(offset := b.offset + 0x1_0000) else b)
    else Table(Cleared, 0, Zeros())
  }

  /** The job of a single block without history; 65547 bytes and more take a 32-bit table. */
  ghost function BlockJob(src: seq<uint8>, offset: nat, acceleration: int, capacity: nat, small: bool): Job {
    Job(src, 0, |src|, 0, offset, if |src| < 65547 then ByU16 else ByU32, small,
        if acceleration < 1 then 1 else acceleration, capacity < |src| + |src| / 255 + 16)
  }

  /** The job and the table of a single block with whatever table earlier calls left. */
  ghost function ReuseJob(b: Table, src: seq<uint8>, acceleration: int, capacity: nat): Job {
    var t := if |src| < 65547 then ByU16 else ByU32;
    var offset := Prepared(b, |src|, t).offset;
    BlockJob(src, offset, acceleration, capacity, t == ByU16 && offset != 0)
  }

  ghost function ReuseTable(b: Table, src: seq<uint8>): seq<uint32> {
    Prepared(b, |src|, if |src| < 65547 then ByU16 else ByU32).entries
  }

  /** The offset of the next call, the size of the dictionary that ends there, and the table. */
  datatype Dictionary = Dictionary(offset: nat, size: nat, entries: seq<uint32>)

  ghost function LoweredBy(e: uint32, delta: nat): uint32 {
    if e < delta then 0 else e - delta
  }

  ghost function Lowered(entries: seq<uint32>, delta: nat): (r: seq<uint32>)
    ensures |r| == |entries|
  {
    seq(|entries|, h requires 0 <= h < |entries| => LoweredBy(entries[h], delta))
  }

  /** What LZ4_renormDictT makes of offsets that would exceed 2^31: the last 64 KB stay, at offset 0. */
  ghost function Renormed(d: Dictionary, next: nat): Dictionary
    requires d.offset + next > 0x8000_0000 ==> d.offset >= 0x1_0000
  {
    if d.offset + next <= 0x8000_0000 then d
    else
      Dictionary(0x1_0000, if d.size > 0x1_0000 then 0x1_0000 else d.size, Lowered(d.entries, d.offset - 0x1_0000))
  }

  /** The block is the greedy parse, refused exactly if a limit is below what the parse needs. */
  ghost predicate Compressed(j: Job, t: seq<uint32>, room: int, d0: nat, r: nat, dst: seq<uint8>, u: seq<uint32>) {
    j.Valid() && |t| == 0x2000
    && var g := Greedy(j, t);
       (r == 0 <==> j.limited && room < g.need)
       && (r > 0 ==>
             d0 + r <= |dst| && g.anchor <= j.Iend() && dst[d0..d0 + r] == Written(j, g) && u == g.table)
  }

  lemma CompressedBy(j: Job, t: seq<uint32>, room: int, d0: nat, r: nat, dst: seq<uint8>, u: seq<uint32>)
    requires j.Valid() && |t| == 0x2000
    requires var g := Greedy(j, t);
      (r == 0 <==> j.limited && d0 + room < d0 + g.need)
      && (r > 0 ==>
            d0 + r <= |dst| && g.anchor <= j.Iend() && dst[d0..d0 + r] == Written(j, g) && u == g.table)
    ensures Compressed(j, t, room, d0, r, dst, u)
  {
    hide Greedy, Written;
  }

  class Stream {
    const hashTable: array<uint32>
    var currentOffset: uint32
    var tableType: TableType
    var dictionary: int
    var dictSize: uint32

    /** What every call leaves behind: no table entry lies beyond the current offset. */
    ghost predicate Valid()
      reads this, hashTable
    {
      hashTable.Length == HASH_TABLE_LENGTH
      && (forall h :: 0 <= h < hashTable.Length ==> hashTable[h] <= currentOffset && Fits(tableType, hashTable[h]))
      && (tableType == Cleared ==> currentOffset == 0)
      && dictSize <= currentOffset <= 0x8000_0000
    }

    constructor ()
      ensures Valid() && fresh(hashTable) && tableType == Cleared && dictSize == 0 && dictionary == NULL
    {
      hashTable := new uint32[HASH_TABLE_LENGTH](_ => 0);
      currentOffset, tableType, dictionary, dictSize := 0, Cleared, NULL, 0;
    }

    /** MEM_INIT of the table. */
    method ClearTable()
      requires hashTable.Length == HASH_TABLE_LENGTH
      modifies hashTable
      ensures forall h :: 0 <= h < hashTable.Length ==> hashTable[h] == 0
    {
      forall h | 0 <= h < hashTable.Length { hashTable[h] := 0; }
    }

    /** LZ4_resetStream. */
    method Reset()
      requires hashTable.Length == HASH_TABLE_LENGTH
      modifies this, hashTable
      ensures Valid() && tableType == Cleared && dictSize == 0 && dictionary == NULL
    {
      ClearTable();
      currentOffset, tableType, dictionary, dictSize := 0, Cleared, NULL, 0;
    }

    /** LZ4_prepareTable: keeps the table when the coming call can tell its entries apart from
        its own, clears it otherwise. */
    method PrepareTable(inputSize: nat, t: TableType)
      requires Valid() && t != Cleared
      modifies this, hashTable
      ensures Valid() && dictSize == 0 && dictionary == NULL
      ensures tableType == Cleared || tableType == t
      ensures t == ByU16 && currentOffset > 0 ==> currentOffset + inputSize < 0xffff
      ensures t == ByU32 && currentOffset > 0 ==>
        KB64 <= currentOffset <= 0x4001_0000 && inputSize < 0x1000
        && forall h :: 0 <= h < hashTable.Length ==> hashTable[h] + KB64 <= currentOffset
      ensures (Table(tableType, currentOffset, hashTable[..])
               == Prepared(Table(old(tableType), old(currentOffset), old(hashTable[..])), inputSize, t))
    {
      ghost var before := hashTable[..];
      if tableType != Cleared {
        if tableType != t
           || (t == ByU16 && currentOffset + inputSize >= 0xffff)
           || (t == ByU32 && currentOffset > 0x4000_0000)
           || inputSize >= 0x1000
        {
          ClearTable();
          currentOffset, tableType := 0, Cleared;
        }
      }
      if currentOffset != 0 && t == ByU32 {
        currentOffset := currentOffset + KB64;
      }
      dictionary, dictSize := NULL, 0;
      assert hashTable[..] == before || hashTable[..] == Zeros();
    }

    /** LZ4_compress_generic. */
    method CompressGeneric(src: seq<uint8>, source: nat, inputSize: nat, dst: array<uint8>, d0: nat, maxOutputSize: int,
                           limited: bool, t: TableType, prefix: bool, small: bool, acceleration: nat, ghost lo: nat)
        returns (r: nat)
      requires Valid() && t != Cleared && 1 <= acceleration <= 0x100_0000
      requires source + inputSize <= |src| && (Accepted(inputSize, t) ==> d0 + CompressBound(inputSize) <= dst.Length)
      requires lo <= source && (prefix ==> lo + dictSize <= source)
      requires t == ByU16 ==>
        tableType != ByU32 && !prefix && (currentOffset > 0 ==> small && currentOffset + inputSize < LIMIT_64K)
      requires inputSize <= MAX_INPUT_SIZE && t == ByU32 ==> currentOffset + inputSize <= 0x8000_0000
      requires small || t == ByU16 || prefix
               || currentOffset == 0 || forall h :: 0 <= h < hashTable.Length ==>
                 hashTable[h] + MAX_DISTANCE <= currentOffset
      requires prefix && !small ==> dictSize >= KB64 || dictSize == currentOffset
      modifies this, hashTable, dst
      ensures Valid()
      ensures Accepted(inputSize, t) ==>
        currentOffset == old(currentOffset) + inputSize && dictSize == old(dictSize) + inputSize && tableType == t
      ensures !Accepted(inputSize, t) ==> r == 0 && unchanged(this)
      ensures r <= CompressBound(inputSize) && (limited ==> r == 0 || r <= maxOutputSize)
      ensures Accepted(inputSize, t) && (limited ==> CompressBound(inputSize) <= maxOutputSize) ==> r > 0
      ensures r > 0 ==>
        d0 + r <= dst.Length && Regenerates(dst[d0..d0 + r], src[lo..source], src[source..source + inputSize])
      ensures Accepted(inputSize, t) ==>
        Compressed(Job(src, source, inputSize, if prefix then old(dictSize) else 0, old(currentOffset), t, small,
                       acceleration, limited), old(hashTable[..]), maxOutputSize, d0, r, dst[..], hashTable[..])
      ensures Untouched(dst, d0, d0 + CompressBound(inputSize)) && dictionary == old(dictionary)
    {
      hide Decodes, Regenerates, Greedy, Written, Compressed;
      if inputSize > MAX_INPUT_SIZE { return 0; }
      if t == ByU16 && inputSize >= LIMIT_64K { return 0; }
      var prefixSize := if prefix then dictSize else 0;
      var j := Job(src, source, inputSize, prefixSize, currentOffset, t, small, acceleration, limited);
      assert TableOk(j, hashTable[..], j.startIndex + 1);
      ghost var t0 := hashTable[..];
      dictSize := dictSize + inputSize;
      currentOffset := currentOffset + inputSize;
      tableType := t;
      r := CompressBlock(j, hashTable, dst, d0, d0 + maxOutputSize, lo);
      assert forall h :: 0 <= h < hashTable.Length ==> hashTable[..][h] <= currentOffset;
      CompressedBy(j, t0, maxOutputSize, d0, r, dst[..], hashTable[..]);
      if r > 0 { DecodesRegenerates(j, dst[d0..d0 + r], lo); }
    }

    /** LZ4_compress_fast_extState: one block from a cleared state. */
    method CompressFastExtState(src: seq<uint8>, dst: array<uint8>, d0: nat, maxOutputSize: nat, acceleration0: int)
        returns (r: nat)
      requires hashTable.Length == HASH_TABLE_LENGTH && acceleration0 <= 0x100_0000
      requires |src| <= MAX_INPUT_SIZE ==> d0 + CompressBound(|src|) <= dst.Length
      modifies this, hashTable, dst
      ensures Valid()
      ensures r > 0 ==> d0 + r <= dst.Length && r <= maxOutputSize && Regenerates(dst[d0..d0 + r], [], src)
      ensures |src| <= MAX_INPUT_SIZE && CompressBound(|src|) <= maxOutputSize ==> r > 0
      ensures |src| > 0x7E00_0000 ==> r == 0
      ensures |src| <= 0x7E00_0000 ==>
        Compressed(BlockJob(src, 0, acceleration0, maxOutputSize, false), Zeros(), maxOutputSize, d0, r, dst[..],
                   hashTable[..])
      ensures Untouched(dst, d0, d0 + CompressBound(|src|))
    {
      hide Regenerates, Greedy, Written;
      var acceleration := if acceleration0 < 1 then 1 else acceleration0;
      Reset();
      assert hashTable[..] == Zeros();
      var limited := maxOutputSize < BoundOf(|src|);
      var t := if |src| < LIMIT_64K then ByU16 else ByU32;
      assert src[0..0] == [] && src[0..0 + |src|] == src;
      r := CompressGeneric(src, 0, |src|, dst, d0, if limited then maxOutputSize else 0, limited, t, false, false,
                           acceleration, 0);
    }

    /** LZ4_compress_fast_extState_fastReset: one block from whatever earlier calls left. */
    method CompressFastReset(src: seq<uint8>, dst: array<uint8>, d0: nat, dstCapacity: nat, acceleration0: int)
        returns (r: nat)
      requires Valid() && acceleration0 <= 0x100_0000
      requires |src| <= MAX_INPUT_SIZE ==> d0 + CompressBound(|src|) <= dst.Length
      modifies this, hashTable, dst
      ensures Valid()
      ensures r > 0 ==> d0 + r <= dst.Length && r <= dstCapacity && Regenerates(dst[d0..d0 + r], [], src)
      ensures |src| <= MAX_INPUT_SIZE && CompressBound(|src|) <= dstCapacity ==> r > 0
      ensures |src| > 0x7E00_0000 ==> r == 0
      ensures |src| <= 0x7E00_0000 ==>
        var b := Table(old(tableType), old(currentOffset), old(hashTable[..]));
        Compressed(ReuseJob(b, src, acceleration0, dstCapacity), ReuseTable(b, src), dstCapacity, d0, r, dst[..],
                   hashTable[..])
      ensures Untouched(dst, d0, d0 + CompressBound(|src|))
    {
      hide Regenerates, Greedy, Written, Prepared;
      var acceleration := if acceleration0 < 1 then 1 else acceleration0;
      var limited := dstCapacity < BoundOf(|src|);
      var t := if |src| < LIMIT_64K then ByU16 else ByU32;
      PrepareTable(|src|, t);
      var small := t == ByU16 && currentOffset != 0;
      assert src[0..0] == [] && src[0..0 + |src|] == src;
      r := CompressGeneric(src, 0, |src|, dst, d0, if limited then dstCapacity else 0, limited, t, false, small,
                           acceleration, 0);
    }

    /** LZ4_renormDictT: shifts all indexes down before they can exceed 2^31. */
    method RenormDict(nextSize: nat)
      requires Valid() && nextSize <= MAX_INPUT_SIZE
      modifies this, hashTable
      ensures Valid() && currentOffset + nextSize <= 0x8000_0000 && tableType == old(tableType)
      ensures dictionary + dictSize == old(dictionary + dictSize) && dictSize <= old(dictSize)
      ensures (Dictionary(currentOffset, dictSize, hashTable[..])
               == Renormed(Dictionary(old(currentOffset), old(dictSize), old(hashTable[..])), nextSize))
    {
      ghost var before := hashTable[..];
      if currentOffset + nextSize > 0x8000_0000 {
        var delta: uint32 := currentOffset - KB64;
        var dictEnd := dictionary + dictSize;
        for i := 0 to hashTable.Length
          modifies hashTable
          invariant forall h :: 0 <= h < i ==> hashTable[h] == LoweredBy(before[h], delta) <= KB64
          invariant forall h :: 0 <= h < hashTable.Length ==> Fits(tableType, hashTable[h])
          invariant forall h :: i <= h < hashTable.Length ==> hashTable[h] == before[h] <= currentOffset
        {
          if hashTable[i] < delta { hashTable[i] := 0; } else { hashTable[i] := hashTable[i] - delta; }
        }
        currentOffset := KB64;
        if dictSize > KB64 { dictSize := KB64; }
        dictionary := dictEnd - dictSize;
        assert hashTable[..] == Lowered(before, delta);
      }
    }

    /** The stream can continue with a block at source: its dictionary, if any, ends there and
        does not start before lo. */
    ghost predicate Continues(source: int, lo: int)
      reads this, hashTable
    {
      Valid() && tableType != ByU16 && (dictSize > 0 ==> dictionary + dictSize == source && lo <= dictionary)
    }

    /** LZ4_compress_fast_continue for a block that follows the previous one in memory.  The
        dictionary, unless it is empty, ends where the block starts, so it is never a tiny one
        elsewhere and never overlaps the block. */
    method CompressFastContinue(mem: seq<uint8>, source: nat, inputSize: nat, dst: array<uint8>, d0: nat,
                                maxOutputSize: int, acceleration0: int, ghost lo: nat) returns (r: nat)
      requires Continues(source, lo) && lo <= source && acceleration0 <= 0x100_0000
      requires source + inputSize <= |mem| && inputSize <= MAX_INPUT_SIZE && d0 + CompressBound(inputSize) <= dst.Length
      modifies this, hashTable, dst
      ensures Continues(source + inputSize, lo)
      ensures r > 0 ==> r <= maxOutputSize && d0 + r <= dst.Length
      ensures r > 0 ==> Regenerates(dst[d0..d0 + r], mem[lo..source], mem[source..source + inputSize])
      ensures CompressBound(inputSize) <= maxOutputSize ==> r > 0
      ensures var b := Renormed(Dictionary(old(currentOffset), old(dictSize), old(hashTable[..])), inputSize);
        var prefix := if old(dictionary + dictSize) == source then b.size else 0;
        Compressed(Job(mem, source, inputSize, prefix, b.offset, ByU32, b.size < 0x1_0000 && b.size < b.offset,
                       if acceleration0 < 1 then 1 else acceleration0, true), b.entries, maxOutputSize, d0, r, dst[..],
                   hashTable[..])
      ensures Untouched(dst, d0, d0 + CompressBound(inputSize))
    {
      hide Regenerates, Greedy, Written, Renormed, Compressed;
      var dictEnd := dictionary + dictSize;
      RenormDict(inputSize);
      var acceleration := if acceleration0 < 1 then 1 else acceleration0;
      var small := dictSize < KB64 && dictSize < currentOffset;
      if dictEnd == source {
        r := CompressGeneric(mem, source, inputSize, dst, d0, maxOutputSize, true, ByU32, true, small, acceleration,
          lo);
      } else {
        r := CompressGeneric(mem, source, inputSize, dst, d0, maxOutputSize, true, ByU32, false, small, acceleration,
          lo);
        dictionary, dictSize := source, inputSize;
      }
    }
  }

  /** LZ4_compressBound. */
  function BoundOf(n: nat): (bound: nat)
    ensures bound == 0 <==> n > 0x7E00_0000
  {
    if n > MAX_INPUT_SIZE then 0 else CompressBound(n)
  }

  /** The input sizes LZ4_compress_generic does not refuse. */
  predicate Accepted(inputSize: nat, t: TableType) {
    inputSize <= MAX_INPUT_SIZE && (t == ByU16 ==> inputSize < LIMIT_64K)
  }

  /** After the history h, the block decodes to content, in every buffer large enough and
      wherever the history lies. */
  ghost predicate Regenerates(block: seq<uint8>, h: seq<uint8>, content: seq<uint8>) {
    forall capacity: nat, ext: nat :: |content| <= capacity ==>
      Decompress(block, h, capacity, ext) == Accept(h + content)
  }

  lemma DecodesRegenerates(j: Job, block: seq<uint8>, lo: nat)
    requires lo <= j.source && j.Iend() <= |j.src| && Decodes(j, block, lo)
    ensures Regenerates(block, j.src[lo..j.source], j.src[j.source..j.Iend()])
  {
    hide Decompress;
    assert j.src[lo..j.source] + j.src[j.source..j.Iend()] == j.src[lo..j.Iend()];
  }

  // ---------------------------------------------------------------- decompression

  /** LZ4_decompress_safe. */
  method DecompressSafe(src: seq<uint8>, dst: array<uint8>, dest: nat, maxOutputSize: nat) returns (r: int)
    requires dest + maxOutputSize <= dst.Length
    modifies dst
    ensures var target := Decompress(src, [], maxOutputSize, 0);
      r == Code(target, 0) && (target.Accept? ==> 0 <= r <= maxOutputSize && dst[dest..dest + r] == target.out)
    ensures Untouched(dst, dest, dest + maxOutputSize)
  {
    hide Decompress;
    assert View(dst, [], dest, dest) == [];
    r := DecompressGeneric(src, dst, dest, maxOutputSize, NoDict, dest, dest, []);
  }

  /** LZ4_decompress_safe_usingDict for a dictionary elsewhere in memory. */
  method DecompressSafeUsingDict(src: seq<uint8>, dst: array<uint8>, dest: nat, maxOutputSize: nat, dict: seq<uint8>)
      returns (r: int)
    requires dest + maxOutputSize <= dst.Length
    modifies dst
    ensures var target := Decompress(src, dict, maxOutputSize, |dict|);
      r == Code(target, |dict|)
        && (target.Accept? ==> 0 <= r <= maxOutputSize && dict + dst[dest..dest + r] == target.out)
    ensures Untouched(dst, dest, dest + maxOutputSize)
  {
    hide Decompress;
    if |dict| == 0 {
      r := DecompressSafe(src, dst, dest, maxOutputSize);
      assert [] + dst[dest..dest] == [];
      assert forall n :: dest <= n <= dst.Length ==> dict + dst[dest..n] == dst[dest..n];
      return;
    }
    assert View(dst, dict, dest, dest) == dict;
    r := DecompressGeneric(src, dst, dest, maxOutputSize, UsingExtDict, dest, dest, dict);
  }

  /** LZ4_decompress_safe_usingDict for a dictionary that ends where the output starts. */
  method DecompressSafeWithPrefix(src: seq<uint8>, dst: array<uint8>, dest: nat, maxOutputSize: nat, prefixSize: nat)
      returns (r: int)
    requires dest + maxOutputSize <= dst.Length && prefixSize <= dest
    modifies dst
    ensures var h := old(dst[dest - prefixSize..dest]);
      var target := Decompress(src, h, maxOutputSize, 0);
      r == Code(target, prefixSize)
      && (target.Accept? ==> 0 <= r <= maxOutputSize && dst[dest - prefixSize..dest + r] == target.out)
    ensures Untouched(dst, dest, dest + maxOutputSize)
  {
    hide Decompress;
    var low := dest - prefixSize;
    assert View(dst, [], low, dest) == dst[low..dest];
    if prefixSize >= KB64 - 1 {
      r := DecompressGeneric(src, dst, dest, maxOutputSize, WithPrefix64k, low, dest - KB64, []);
    } else {
      r := DecompressGeneric(src, dst, dest, maxOutputSize, NoDict, low, low, []);
    }
  }

  class StreamDecode {
    var prefixEnd: int
    var prefixSize: nat

    constructor ()
      ensures prefixSize == 0
    {
      prefixEnd, prefixSize := NULL, 0;
    }

    /** LZ4_decompress_safe_continue for a block whose output follows the previous output. */
    method DecompressSafeContinue(src: seq<uint8>, dst: array<uint8>, dest: nat, maxOutputSize: nat) returns (r: int)
      requires dest + maxOutputSize <= dst.Length && prefixSize <= dest
      requires prefixSize > 0 ==> prefixEnd == dest
      modifies this, dst
      ensures var h := old(dst[dest - prefixSize..dest]);
        var target := Decompress(src, h, maxOutputSize, 0);
        r == Code(target, |h|)
        && (target.Accept? ==> 0 <= r <= maxOutputSize && dst[dest - |h|..dest + r] == target.out)
      ensures r > 0 ==> prefixSize == old(prefixSize) + r && prefixEnd == dest + r
      ensures r <= 0 ==> unchanged(this)
      ensures Untouched(dst, dest, dest + maxOutputSize)
    {
      hide Decompress;
      if prefixSize == 0 {
        r := DecompressSafe(src, dst, dest, maxOutputSize);
        if r <= 0 { return; }
        prefixSize := r;
        prefixEnd := dest + r;
      } else {
        r := DecompressSafeWithPrefix(src, dst, dest, maxOutputSize, prefixSize);
        if r <= 0 { return; }
        prefixSize := prefixSize + r;
        prefixEnd := prefixEnd + r;
      }
    }
  }
}
