/** The state of the high-compression compressors and its search for a longer match. */
module Lz4HcFinder {
  import opened MachineInts
  import opened Arithmetic
  import opened Lz4Format
  import opened Lz4Words
  import opened Lz4Search
  import opened Lz4Greedy
  import opened Lz4HcSearch
  import opened Lz4HcChains

  const GB: nat := 0x4000_0000

  /** The distance from a null pointer to the pointer of all ones. */
  const NULL_DISTANCE: nat := 0xFFFF_FFFF_FFFF_FFFF

  /** The index space ends here: every index of a block stays below it. */
  const INDEX_END: nat := 0xFFFE_0000

  datatype Repeat = Untested | Not | Confirmed

  /** How the search goes on: along the chain, at another index, or not at all. */
  datatype Next = Follow | Jump | Stop

  /** The best match of a search so far; length alone when nothing longer was found. */
  datatype Best = Best(longest: nat, matchpos: int)

  /** A best match is no longer than required, or a match at ip that ends before the limit. */
  ghost predicate BestOk(j: Job, ip: int, required: int, b: Best) {
    b.longest >= required
    && (b.longest > required ==> IsMatch(j, ip, b.matchpos, b.longest) && ip + b.longest <= j.MatchLimit())
  }

  lemma UniformSame(s: seq<uint8>, p: int, m: int, n: int, k: int, b: uint8)
    requires Uniform(s, p, n, b) && Uniform(s, m, k, b) && 0 <= m <= p
    ensures Same(s, p, m, if n < k then n else k)
  {
  }

  lemma RepeatsUniform(s: seq<uint8>, p: nat, n: nat, b: uint8)
    requires Repeats(s, p, n, [b, b, b, b])
    ensures Uniform(s, p, n, b)
  {
  }

  lemma UniformAppend(s: seq<uint8>, p: int, n: int, k: int, b: uint8)
    requires Uniform(s, p, n, b) && Uniform(s, p + n, k, b)
    ensures Uniform(s, p, n + k, b)
  {
  }

  lemma BackUniform(s: seq<uint8>, lo: int, hi: int, n: int, b: uint8)
    requires RepeatsBack(s, lo, hi, [b, b, b, b]) && Uniform(s, hi, n, b)
    ensures Uniform(s, lo, hi - lo + n, b)
  {
  }

  /** The two comparisons of the source: all four bytes of a word are equal. */
  predicate FourAlike(pattern: nat) {
    pattern % 0x1_0000 == pattern / 0x1_0000 && pattern % 0x100 == pattern / 0x100_0000
  }

  lemma FourAlikeUniform(s: seq<uint8>, p: nat)
    requires p + 4 <= |s| && FourAlike(ReadLE(s, p, 4))
    ensures Uniform(s, p, 4, s[p]) && ReadLE(s, p, 4) == ReadLE([s[p], s[p], s[p], s[p]], 0, 4)
  {
    hide ReadLE;
    FourBytes(s, p);
    WordHalves(s[p], s[p + 1], s[p + 2], s[p + 3]);
    FourBytes([s[p], s[p], s[p], s[p]], 0);
  }

  lemma UniformFourAlike(s: seq<uint8>, p: nat, b: uint8)
    requires Uniform(s, p, 4, b)
    ensures FourAlike(ReadLE(s, p, 4))
  {
    hide ReadLE;
    FourBytes(s, p);
    var w := Word(b, b, b, b);
    ModUnique(w, b + 0x100 * b, b + 0x100 * b, 0x1_0000);
    ModUnique(w, b + 0x100 * b + 0x1_0000 * b, b, 0x100);
    ModUnique(w, b, b + 0x100 * b + 0x1_0000 * b, 0x100_0000);
  }

  lemma WordHalves(a: uint8, b: uint8, c: uint8, d: uint8)
    requires FourAlike(Word(a, b, c, d))
    ensures a == b == c == d
  {
    var w := Word(a, b, c, d);
    ModUnique(w, c + 0x100 * d, a + 0x100 * b, 0x1_0000);
    ModUnique(w, b + 0x100 * c + 0x1_0000 * d, a, 0x100);
    ModUnique(w, d, a + 0x100 * b + 0x1_0000 * c, 0x100_0000);
  }

  class HcContext {
    const hashTable: array<uint32>
    const chainTable: array<uint16>
    /** The position of index 0, the position behind the last byte, whether the former is set,
        and the first index of the segment; there is one segment, so the low limit equals the
        dictionary limit. */
    var base: int
    var end: int
    var started: bool
    var dictLimit: uint32
    var lowLimit: uint32
    var nextToUpdate: uint32
    var favorDecSpeed: bool

    ghost predicate Valid()
      reads this, hashTable, chainTable
    {
      hashTable.Length == HC_HASH_LENGTH && chainTable.Length == HC_CHAIN_LENGTH
      && KB64 <= dictLimit == lowLimit <= nextToUpdate
      && forall h :: 0 <= h < HC_HASH_LENGTH ==> hashTable[h] < nextToUpdate
    }

    /** The segment is that of the job. */
    ghost predicate Serves(j: Job)
      reads this
    {
      j.Valid() && base + dictLimit == j.LowLimit() && j.Iend() - base <= INDEX_END
    }

    /** The tables hold every index of the segment. */
    ghost predicate Indexed(src: seq<uint8>)
      reads this, hashTable, chainTable
    {
      Chained(src, base, dictLimit, nextToUpdate, hashTable[..], chainTable[..])
    }

    /** The first index that a search at ip looks at. */
    ghost function Lowest(ip: nat): int
      reads this
    {
      LowestIndex(base, lowLimit, ip)
    }

    /** Of the indexes between index and bound nothing is left to try but what index itself promises. */
    ghost predicate Covered(j: Job, ip: nat, index: int, bound: int, longest: nat)
      reads this
      requires j.Valid() && j.source <= ip <= j.Iend() - 12
    {
      Passed(j.src, base, ip, j.Iend() - 5, favorDecSpeed, Lowest(ip), index, bound, longest)
    }

    /** The length of a match with the bytes at index q. */
    ghost function Reach(j: Job, ip: nat, q: int): nat
      reads this
      requires j.Valid() && j.source <= ip <= j.Iend() - 12
    {
      MatchLen(j.src, base, ip, q, j.Iend() - 5, favorDecSpeed)
    }

    /** A new initialisation leaves no entry of the table in the index range it starts. */
    ghost predicate Reusable()
      reads this, hashTable, chainTable
    {
      hashTable.Length == HC_HASH_LENGTH && chainTable.Length == HC_CHAIN_LENGTH && base <= end
      && (end - base <= GB ==> forall h :: 0 <= h < HC_HASH_LENGTH ==> hashTable[h] < end - base + KB64)
    }

    /** An allocated state; the tables hold anything. */
    constructor ()
      ensures Reusable() && !started && fresh(hashTable) && fresh(chainTable)
    {
      hashTable := new uint32[HC_HASH_LENGTH];
      chainTable := new uint16[HC_CHAIN_LENGTH];
      dictLimit, lowLimit, nextToUpdate := 0, 0, 0;
      base, end, started, favorDecSpeed := 0, NULL_DISTANCE, false, false;
    }

    /** LZ4_resetStreamHC: a size no table survives. */
    method ResetStream()
      requires Reusable()
      modifies this
      ensures Reusable() && !started && !favorDecSpeed && end - base == NULL_DISTANCE
    {
      base, end, started, favorDecSpeed := 0, NULL_DISTANCE, false, false;
    }

    /** LZ4_resetStreamHC_fast: keeps the number of bytes processed. */
    method ResetStreamFast()
      requires Reusable()
      modifies this`base, this`end, this`started
      ensures Reusable() && !started
    {
      end := end - base;
      base, started := 0, false;
    }

    method ClearTables()
      requires hashTable.Length == HC_HASH_LENGTH && chainTable.Length == HC_CHAIN_LENGTH
      modifies hashTable, chainTable
      ensures forall h :: 0 <= h < HC_HASH_LENGTH ==> hashTable[h] == 0
    {
      forall h | 0 <= h < hashTable.Length { hashTable[h] := 0; }
      forall h | 0 <= h < chainTable.Length { chainTable[h] := 0xffff; }
    }

    /** LZ4HC_init: a new segment at start, 64 KB behind everything indexed before. */
    method Init(start: nat)
      requires Reusable()
      modifies this`base, this`end, this`started, this`dictLimit, this`lowLimit, this`nextToUpdate, hashTable,
        chainTable
      ensures Valid() && started && nextToUpdate == dictLimit <= GB + KB64
      ensures base + dictLimit == start == end
    {
      var startingOffset := end - base;
      if startingOffset > GB {
        ClearTables();
        startingOffset := 0;
      }
      startingOffset := startingOffset + KB64;
      nextToUpdate := startingOffset;
      base := start - startingOffset;
      end := start;
      dictLimit := startingOffset;
      lowLimit := startingOffset;
      started := true;
    }

    /** A new segment holds no index. */
    lemma NothingIndexed(src: seq<uint8>)
      requires Valid() && nextToUpdate == dictLimit
      ensures Indexed(src)
    {
      NothingChained(src, base, dictLimit, hashTable[..], chainTable[..]);
    }

    /** LZ4HC_Insert */
    method Insert(j: Job, ip: nat)
      requires Valid() && Serves(j) && Indexed(j.src) && nextToUpdate <= ip - base && ip + 3 <= j.Iend()
      modifies this`nextToUpdate, hashTable, chainTable
      ensures Valid() && Indexed(j.src) && nextToUpdate == ip - base
    {
      hide Chained, ReadLE, SlotOf;
      var target: uint32 := ip - base;
      var idx: uint32 := nextToUpdate;
      while idx < target
        invariant nextToUpdate == old(nextToUpdate) <= idx <= target
        invariant forall h :: 0 <= h < HC_HASH_LENGTH ==> hashTable[h] < idx
        invariant Chained(j.src, base, dictLimit, idx, hashTable[..], chainTable[..])
        modifies hashTable, chainTable
      {
        SlotIsHash(j.src, base, idx);
        var h := HashHc(ReadLE(j.src, base + idx, 4));
        ghost var hash, chain := hashTable[..], chainTable[..];
        var delta: uint32 := idx - hashTable[h];
        if delta > MAX_DISTANCE { delta := MAX_DISTANCE; }
        chainTable[idx % 0x1_0000] := delta;
        hashTable[h] := idx;
        InsertStep(j.src, base, dictLimit, idx, hash, chain, h, delta);
        assert hashTable[..] == hash[h := idx];
        assert chainTable[..] == chain[idx % 0x1_0000 := chainTable[idx % 0x1_0000]];
        idx := idx + 1;
      }
      nextToUpdate := target;
    }

    /** DELTANEXTU16 */
    function Delta(pos: nat): uint16
      reads this, chainTable
      requires chainTable.Length == HC_CHAIN_LENGTH
    {
      chainTable[pos % 0x1_0000]
    }

    /** One candidate within the segment. */
    method Compare(j: Job, matchIndex: uint32, ip: nat, best: Best, ghost required: nat)
        returns (matchLength: nat, better: Best)
      requires Valid() && Serves(j) && j.source <= ip <= j.Iend() - MFLIMIT
      requires lowLimit <= matchIndex < ip - base <= matchIndex + MAX_DISTANCE
      requires BestOk(j, ip, required, best) && 1 <= best.longest && ip + best.longest <= j.MatchLimit()
      ensures BestOk(j, ip, required, better) && best.longest <= better.longest
      ensures ip + better.longest <= j.MatchLimit()
      ensures matchLength == 0 || (MINMATCH <= matchLength == Reach(j, ip, matchIndex))
      ensures (better == if Reach(j, ip, matchIndex) > best.longest
                         then Best(Reach(j, ip, matchIndex), base + matchIndex) else best)
      ensures Reach(j, ip, matchIndex) > best.longest ==> matchLength == Reach(j, ip, matchIndex)
    {
      hide ReadLE, Same, Forward;
      better, matchLength := best, 0;
      if favorDecSpeed && ip - base - matchIndex < 8 { return; }
      var matchPtr := base + matchIndex;
      ghost var limit := j.MatchLimit();
      TestsPass(j.src, ip, matchPtr, limit, best.longest);
      if ReadLE(j.src, ip + best.longest - 1, 2) == ReadLE(j.src, matchPtr + best.longest - 1, 2) {
        SameWords(j.src, ip, matchPtr, 4);
        if ReadLE(j.src, matchPtr, 4) == ReadLE(j.src, ip, 4) {
          var n := Count(j.src, ip + MINMATCH, matchPtr + MINMATCH, j.MatchLimit());
          SameAppend(j.src, ip, matchPtr, MINMATCH, n);
          ForwardIs(j.src, ip + MINMATCH, matchPtr + MINMATCH, limit, n);
          ForwardSplit(j.src, ip, matchPtr, limit, MINMATCH);
          matchLength := MINMATCH + n;
          if matchLength > best.longest { better := Best(matchLength, matchPtr); }
        }
      }
    }

    /** The position within the match whose chain leaves the longest way behind. */
    method BetterChain(matchIndex: nat, longest: nat, chainPos0: nat) returns (distance: nat, chainPos: nat)
      requires Valid()
      ensures 1 <= distance <= MAX_DISTANCE
      ensures if distance == 1 then chainPos == chainPos0
              else chainPos <= longest - 4 && distance == Delta(matchIndex + chainPos)
      ensures forall p :: matchIndex <= p <= matchIndex + longest - 4 ==> Delta(p) <= distance
      ensures distance > 1 ==> forall p :: matchIndex <= p < matchIndex + chainPos ==> Delta(p) < distance
    {
      distance, chainPos := 1, chainPos0;
      var pos := 0;
      while pos <= longest - MINMATCH
        invariant 0 <= pos && 1 <= distance <= MAX_DISTANCE
        invariant if distance == 1 then chainPos == chainPos0
                  else chainPos < pos && chainPos <= longest - 4 && distance == Delta(matchIndex + chainPos)
        invariant forall p :: matchIndex <= p < matchIndex + pos ==> Delta(p) <= distance
        invariant distance > 1 ==> forall p :: matchIndex <= p < matchIndex + chainPos ==> Delta(p) < distance
        decreases longest - MINMATCH - pos
      {
        var candidateDist := Delta(matchIndex + pos);
        if candidateDist > distance { distance, chainPos := candidateDist, pos; }
        pos := pos + 1;
      }
    }

    /** What the search knows about the bytes at ip. */
    ghost predicate PatternKnown(j: Job, ip: int, repeat: Repeat, srcLength: nat) {
      (repeat == Confirmed ==>
        (MINMATCH <= srcLength && 0 <= ip && ip + 4 <= |j.src| && j.Iend() <= |j.src|
         && RunOf(j.src, ip, srcLength, j.Iend() - 5, j.src[ip])
         && ReadLE(j.src, ip, 4) == ReadLE([j.src[ip], j.src[ip], j.src[ip], j.src[ip]], 0, 4)))
      && (repeat == Not ==> 0 <= ip < |j.src| && !Uniform(j.src, ip, 4, j.src[ip]))
    }

    method TestPattern(j: Job, ip: nat, repeat0: Repeat, srcLength0: nat) returns (repeat: Repeat, srcLength: nat)
      requires Valid() && Serves(j) && j.source <= ip <= j.Iend() - MFLIMIT && PatternKnown(j, ip, repeat0, srcLength0)
      ensures repeat != Untested && PatternKnown(j, ip, repeat, srcLength)
    {
      hide ReadLE, Repeats, FourAlike;
      repeat, srcLength := repeat0, srcLength0;
      if repeat == Untested {
        var pattern := ReadLE(j.src, ip, 4);
        if FourAlike(pattern) {
          FourAlikeUniform(j.src, ip);
          ghost var b := j.src[ip];
          var n := CountPattern(j.src, ip + 4, j.MatchLimit(), pattern, [b, b, b, b]);
          RepeatsUniform(j.src, ip + 4, n, b);
          repeat, srcLength := Confirmed, n + 4;
        } else {
          if Uniform(j.src, ip, 4, j.src[ip]) { UniformFourAlike(j.src, ip, j.src[ip]); }
          repeat := Not;
        }
      }
    }

    /** The run of the first byte at ip around a candidate: how far before it and how far from it on. */
    method MeasureRun(j: Job, ip: nat, candidate: uint32, ghost srcLength: nat)
        returns (backLength: nat, forwardLength: nat)
      requires Valid() && Serves(j) && j.source <= ip <= j.Iend() - MFLIMIT && PatternKnown(j, ip, Confirmed, srcLength)
      requires lowLimit <= candidate < ip - base && Lowest(ip) <= candidate + 1
      requires ReadLE(j.src, base + candidate, 4) == ReadLE(j.src, ip, 4)
      ensures 4 <= forwardLength && (backLength == 0 || Lowest(ip) <= candidate - backLength)
      ensures RunOf(j.src, base + candidate - backLength, backLength + forwardLength, j.Iend() - 5, j.src[ip])
      ensures Lowest(ip) < candidate - backLength ==> j.src[base + candidate - backLength - 1] != j.src[ip]
    {
      hide ReadLE, Same, Repeats, RepeatsBack, RunOf;
      var pattern := ReadLE(j.src, ip, 4);
      var matchPtr := base + candidate;
      ghost var b := j.src[ip];
      var n := CountPattern(j.src, matchPtr + 4, j.MatchLimit(), pattern, [b, b, b, b]);
      forwardLength := n + 4;
      var lowest := if base + dictLimit + MAX_DISTANCE >= ip then base + dictLimit else ip - MAX_DISTANCE;
      backLength := ReverseCountPattern(j.src, matchPtr, lowest, pattern, [b, b, b, b]);
      RunAround(j.src, ip, matchPtr, srcLength, n, backLength, j.MatchLimit(), b);
    }

    /** The jump over repeated bytes from a candidate that shows them too. */
    method PatternJump(j: Job, ip: nat, candidate: uint32, srcLength: nat, best: Best, ghost required: nat)
        returns (stop: bool, matchIndex: uint32, better: Best)
      requires Valid() && Serves(j) && Indexed(j.src) && nextToUpdate == ip - base
      requires j.source <= ip <= j.Iend() - MFLIMIT && PatternKnown(j, ip, Confirmed, srcLength)
      requires lowLimit <= candidate < ip - base && Lowest(ip) <= candidate + 1
      requires ReadLE(j.src, base + candidate, 4) == ReadLE(j.src, ip, 4)
      requires BestOk(j, ip, required, best) && ip + best.longest <= j.MatchLimit()
      ensures BestOk(j, ip, required, better) && best.longest <= better.longest && ip + better.longest <= j.MatchLimit()
      ensures matchIndex <= candidate
      ensures if stop then candidate < Lowest(ip) else Covered(j, ip, matchIndex, candidate + 1, better.longest)
      ensures !stop && Lowest(ip) <= matchIndex ==> SlotOf(j.src, base, matchIndex) == SlotOf(j.src, base, ip - base)
    {
      hide ReadLE, Same, Repeats, RepeatsBack, RunOf, Chained, SlotOf, Covered, MatchLen, BestOk;
      BestAtLeast(j, ip, required, best);
      RunBounds(j.src, ip, srcLength, j.MatchLimit(), j.src[ip]);
      stop, better := false, best;
      ghost var b := j.src[ip];
      var backLength, forwardLength := MeasureRun(j, ip, candidate, srcLength);
      var segment := backLength + forwardLength;
      if segment >= srcLength && forwardLength <= srcLength {
        matchIndex := candidate + forwardLength - srcLength;
        JumpInto(j, ip, candidate, srcLength, backLength, forwardLength, b, better.longest);
      } else {
        matchIndex := candidate - backLength;
        var maxML := if segment < srcLength then segment else srcLength;
        if best.longest < maxML {
          if ip - (base + matchIndex) > MAX_DISTANCE { return true, matchIndex, best; }
          RunsBest(j, ip, base + matchIndex, srcLength, segment, b, required);
          better := Best(maxML, base + matchIndex);
        }
        var distToNextPattern := Delta(matchIndex);
        if distToNextPattern > matchIndex { return true, matchIndex, better; }
        JumpAcross(j, ip, candidate, srcLength, backLength, forwardLength, b, better.longest);
        matchIndex := matchIndex - distToNextPattern;
      }
    }

    lemma JumpInto(j: Job, ip: nat, c: nat, n: nat, back: nat, forth: nat, b: uint8, longest: nat)
      requires j.Valid() && j.source <= ip <= j.Iend() - 12 && base + c < ip
      requires RunOf(j.src, ip, n, j.Iend() - 5, b) && RunOf(j.src, base + c - back, back + forth, j.Iend() - 5, b)
      requires forth <= n <= back + forth && 4 <= n && (Lowest(ip) <= c - back || c < Lowest(ip))
      ensures Covered(j, ip, c + forth - n, c + 1, longest)
      ensures SlotOf(j.src, base, c + forth - n) == SlotOf(j.src, base, ip - base)
    {
      hide RunOf, SlotOf, MatchLen;
      JumpWithin(j.src, base, ip, n, c, back, forth, j.Iend() - 5, b, favorDecSpeed, Lowest(ip), longest);
      FirstFour(j.src, ip, n, j.Iend() - 5, b);
      UniformSlot(j.src, base, c + forth - n, ip - base, b);
    }

    lemma JumpAcross(j: Job, ip: nat, c: nat, n: nat, back: nat, forth: nat, b: uint8, longest: nat)
      requires Valid() && Serves(j) && Indexed(j.src) && nextToUpdate == ip - base && j.source <= ip <= j.Iend() - 12
      requires RunOf(j.src, ip, n, j.Iend() - 5, b) && RunOf(j.src, base + c - back, back + forth, j.Iend() - 5, b)
      requires !(forth <= n <= back + forth) && 4 <= n && 4 <= forth && (n <= longest || back + forth <= longest)
      requires base + c < ip && back <= c && (Lowest(ip) <= c - back || c < Lowest(ip))
      ensures var index := c - back - Delta(c - back);
        Covered(j, ip, index, c + 1, longest)
        && (Lowest(ip) <= index ==> SlotOf(j.src, base, index) == SlotOf(j.src, base, ip - base))
    {
      hide RunOf, SlotOf, MatchLen, Chained, LinkOk;
      LinkOf(j.src, base, dictLimit, nextToUpdate, hashTable[..], chainTable[..], c - back);
      assert Delta(c - back) == chainTable[..][(c - back) % 0x1_0000];
      JumpOver(j.src, base, dictLimit, ip, n, c, back, forth, j.Iend() - 5, b, favorDecSpeed, Lowest(ip), longest,
               Delta(c - back));
    }

    /** The pattern analysis of a candidate whose chain leads to the position before it. */
    method TryPattern(j: Job, ip: nat, matchIndex: uint32, best0: Best, ghost required: nat, repeat0: Repeat,
        srcLength0: nat)
        returns (next: Next, index: uint32, best: Best, repeat: Repeat, srcLength: nat)
      requires Valid() && Serves(j) && Indexed(j.src) && nextToUpdate == ip - base
      requires j.source <= ip <= j.Iend() - MFLIMIT && Lowest(ip) <= matchIndex < ip - base
      requires BestOk(j, ip, required, best0) && ip + best0.longest <= j.MatchLimit()
      requires PatternKnown(j, ip, repeat0, srcLength0)
      ensures BestOk(j, ip, required, best) && best0.longest <= best.longest && ip + best.longest <= j.MatchLimit()
      ensures PatternKnown(j, ip, repeat, srcLength)
      ensures next == Jump ==> index < matchIndex && Covered(j, ip, index, matchIndex, best.longest)
      ensures (next == Jump && Lowest(ip) <= index ==>
        SlotOf(j.src, base, index) == SlotOf(j.src, base, ip - base))
      ensures next == Stop ==> matchIndex == Lowest(ip)
    {
      hide ReadLE, BestOk, Chained, LinkOk, SlotOf, Covered;
      best := best0;
      var candidate: uint32 := matchIndex - 1;
      repeat, srcLength := TestPattern(j, ip, repeat0, srcLength0);
      next, index := Follow, candidate;
      if repeat == Confirmed && candidate >= dictLimit
         && ReadLE(j.src, base + candidate, 4) == ReadLE(j.src, ip, 4) {
        var stop;
        stop, index, best := PatternJump(j, ip, candidate, srcLength, best, required);
        next := if stop then Stop else Jump;
      }
    }

    /** An index that shares the hash of ip, or of a place within the best match. */
    ghost predicate OnChain(j: Job, ip: nat, index: int, pos: nat, longest: nat)
      reads this
    {
      (pos == 0 || (pos + 4 <= longest && index + pos + 4 <= ip - base))
      && SlotOf(j.src, base, index + pos) == SlotOf(j.src, base, ip - base + pos)
    }

    /** The candidates compared, each in the window and at a smaller index than the one before, none of
        them longer than longest. */
    ghost predicate Compared(j: Job, ip: nat, tried: seq<int>, bound: int, longest: nat)
      reads this
      requires j.Valid() && j.source <= ip <= j.Iend() - 12
    {
      (forall i :: 0 <= i < |tried| ==> Lowest(ip) <= tried[i] < ip - base && bound <= tried[i])
      && (forall i, k :: 0 <= i < k < |tried| ==> tried[k] < tried[i])
      && (forall i :: 0 <= i < |tried| ==> Reach(j, ip, tried[i]) <= longest)
    }

    lemma NothingCompared(j: Job, ip: nat, bound: int, longest: nat)
      requires j.Valid() && j.source <= ip <= j.Iend() - 12
      ensures Compared(j, ip, [], bound, longest)
    {
    }

    lemma NothingKnown(j: Job, ip: nat, longest: nat)
      ensures PatternKnown(j, ip, Untested, 0) && BestOk(j, ip, longest, Best(longest, 0))
    {
    }

    lemma OneMore(j: Job, ip: nat, tried: seq<int>, m: int, was: nat, longest: nat)
      requires j.Valid() && j.source <= ip <= j.Iend() - 12 && Lowest(ip) <= m < ip - base
      requires Compared(j, ip, tried, m + 1, was) && was <= longest && Reach(j, ip, m) <= longest
      ensures Compared(j, ip, tried + [m], m, longest)
    {
      hide MatchLen;
    }

    lemma ComparedAll(j: Job, ip: nat, tried: seq<int>, m: int, longest: nat)
      requires j.Valid() && j.source <= ip <= j.Iend() - 12 && Compared(j, ip, tried, m, longest)
      ensures Compared(j, ip, tried, Lowest(ip), longest)
    {
      hide MatchLen;
    }

    lemma ComparedMore(j: Job, ip: nat, tried: seq<int>, m: int, was: nat, n: int, longest: nat)
      requires j.Valid() && j.source <= ip <= j.Iend() - 12
      requires Compared(j, ip, tried, m, was) && was <= longest && n <= m
      ensures Compared(j, ip, tried, n, longest)
    {
      hide MatchLen;
    }

    /** Nothing from index m on is longer. */
    ghost predicate Settled(j: Job, ip: nat, m: int, longest: nat)
      reads this
      requires j.Valid() && j.source <= ip <= j.Iend() - 12
    {
      NothingLonger(j.src, base, ip, j.Iend() - 5, favorDecSpeed, m, longest)
    }

    lemma StartCovered(j: Job, ip: nat, longest: nat)
      requires Valid() && Serves(j) && Indexed(j.src) && nextToUpdate == ip - base && j.source <= ip <= j.Iend() - 12
      ensures var m := hashTable[SlotOf(j.src, base, ip - base)];
        Covered(j, ip, m, ip - base, longest) && (Lowest(ip) <= m ==> OnChain(j, ip, m, 0, longest))
    {
      hide SlotOf, MatchLen, LinkOk;
      var m := hashTable[SlotOf(j.src, base, ip - base)];
      assert m == hashTable[..][SlotOf(j.src, base, ip - base)];
      HeadPassed(j.src, base, dictLimit, ip, hashTable[..], chainTable[..], j.Iend() - 5, favorDecSpeed, Lowest(ip),
                 longest);
    }

    lemma CoveredHere(j: Job, ip: nat, m: int, was: nat, longest: nat)
      requires j.Valid() && j.source <= ip <= j.Iend() - 12 && Lowest(ip) <= m < ip - base
      requires Covered(j, ip, m, ip - base, was) && was <= longest && Reach(j, ip, m) <= longest
      ensures Settled(j, ip, m, longest)
    {
      hide MatchLen;
    }

    lemma CoveredOn(j: Job, ip: nat, index: int, m: int, was: nat, longest: nat)
      requires j.Valid() && j.source <= ip <= j.Iend() - 12
      requires Covered(j, ip, index, m, longest) && Settled(j, ip, m, was) && was <= longest
      ensures Covered(j, ip, index, ip - base, longest)
    {
      hide MatchLen;
    }

    lemma AllCovered(j: Job, ip: nat, m: int, longest: nat)
      requires j.Valid() && j.source <= ip <= j.Iend() - 12
      requires Covered(j, ip, m, ip - base, longest) && m < Lowest(ip)
      ensures Settled(j, ip, Lowest(ip), longest)
    {
      hide MatchLen;
    }

    lemma OnChainMore(j: Job, ip: nat, m: int, pos: nat, was: nat, longest: nat)
      requires OnChain(j, ip, m, pos, was) && was <= longest
      ensures OnChain(j, ip, m, pos, longest)
    {
    }

    lemma SettledMore(j: Job, ip: nat, m: int, was: nat, longest: nat)
      requires j.Valid() && j.source <= ip <= j.Iend() - 12 && Settled(j, ip, m, was) && was <= longest
      ensures Settled(j, ip, m, longest)
    {
      hide MatchLen;
    }

    lemma ChainStep(j: Job, ip: nat, m: nat, pos: nat, longest: nat)
      requires Valid() && Serves(j) && Indexed(j.src) && nextToUpdate == ip - base && j.source <= ip <= j.Iend() - 12
      requires Lowest(ip) <= m < ip - base && OnChain(j, ip, m, pos, longest) && Settled(j, ip, m, longest)
      ensures var d := Delta(m + pos);
        Covered(j, ip, m - d, ip - base, longest) && (Lowest(ip) <= m - d ==> OnChain(j, ip, m - d, pos, longest))
    {
      hide SlotOf, MatchLen, LinkOk;
      LinkOf(j.src, base, dictLimit, nextToUpdate, hashTable[..], chainTable[..], m + pos);
      assert Delta(m + pos) == chainTable[..][(m + pos) % 0x1_0000];
      StepPassed(j.src, base, dictLimit, ip, j.Iend() - 5, favorDecSpeed, Lowest(ip), m, Delta(m + pos), pos, longest);
    }

    lemma LinkAtLeastOne(j: Job, ip: nat, m: nat, pos: nat, longest: nat)
      requires Valid() && Serves(j) && Indexed(j.src) && nextToUpdate == ip - base && j.source <= ip <= j.Iend() - 12
      requires Lowest(ip) <= m < ip - base && OnChain(j, ip, m, pos, longest)
      ensures 1 <= Delta(m + pos)
    {
      hide SlotOf, MatchLen;
      LinkOf(j.src, base, dictLimit, nextToUpdate, hashTable[..], chainTable[..], m + pos);
      assert Delta(m + pos) == chainTable[..][(m + pos) % 0x1_0000];
    }

    /** A match keeps its length on the chain of any place within it. */
    lemma SwapChain(j: Job, ip: nat, m: nat, pos: nat, longest: nat)
      requires Valid() && Serves(j) && Indexed(j.src) && nextToUpdate == ip - base && j.source <= ip <= j.Iend() - 12
      requires Lowest(ip) <= m && m + longest <= ip - base && pos + 4 <= longest == Reach(j, ip, m)
      requires Settled(j, ip, m, longest)
      ensures var d := Delta(m + pos);
        Covered(j, ip, m - d, ip - base, longest) && (Lowest(ip) <= m - d ==> OnChain(j, ip, m - d, pos, longest))
    {
      hide SlotOf, MatchLen, Chained, Settled, Covered;
      LongerSameSlot(j.src, base, ip, m, j.Iend() - 5, favorDecSpeed, pos);
      ChainStep(j, ip, m, pos, longest);
    }

    /** Where the search goes from a candidate that has been compared: along the chain of a better
        place within the best match, over repeated bytes, or along its own chain. */
    method Advance(j: Job, ip: nat, matchIndex: uint32, matchLength: nat, chainPos0: nat, best0: Best,
                   ghost required: nat, repeat0: Repeat, srcLength0: nat, patternAnalysis: bool, chainSwap: bool)
        returns (stop: bool, index: uint32, chainPos: nat, best: Best, repeat: Repeat, srcLength: nat)
      requires Valid() && Serves(j) && Indexed(j.src) && nextToUpdate == ip - base
      requires j.source <= ip <= j.Iend() - MFLIMIT && Lowest(ip) <= matchIndex < ip - base
      requires BestOk(j, ip, required, best0) && 1 <= best0.longest && ip + best0.longest <= j.MatchLimit()
      requires matchLength == best0.longest ==> matchLength == Reach(j, ip, matchIndex)
      requires PatternKnown(j, ip, repeat0, srcLength0)
      requires OnChain(j, ip, matchIndex, chainPos0, best0.longest) && Settled(j, ip, matchIndex, best0.longest)
      ensures BestOk(j, ip, required, best) && best0.longest <= best.longest && ip + best.longest <= j.MatchLimit()
      ensures PatternKnown(j, ip, repeat, srcLength)
      ensures stop ==> index == matchIndex && Settled(j, ip, Lowest(ip), best.longest)
      ensures !stop ==> index < matchIndex && Covered(j, ip, index, ip - base, best.longest)
      ensures !stop && Lowest(ip) <= index ==> OnChain(j, ip, index, chainPos, best.longest)
    {
      hide ReadLE, Same, Chained, SlotOf, MatchLen, Covered, Settled, BestOk, PatternKnown;
      stop, chainPos, best, repeat, srcLength := false, chainPos0, best0, repeat0, srcLength0;
      if chainSwap && matchLength == best.longest && matchIndex + best.longest <= ip - base {
        var distance;
        distance, chainPos := BetterChain(matchIndex, best.longest, chainPos);
        if distance > 1 {
          if distance > matchIndex { return true, matchIndex, chainPos, best, repeat, srcLength; }
          SwapChain(j, ip, matchIndex, chainPos, best.longest);
          index := matchIndex - distance;
          return;
        }
      }
      if patternAnalysis && Delta(matchIndex) == 1 && chainPos == 0 {
        var next;
        next, index, best, repeat, srcLength := TryPattern(j, ip, matchIndex, best, required, repeat, srcLength);
        SettledMore(j, ip, matchIndex, best0.longest, best.longest);
        if next == Stop { return true, matchIndex, chainPos, best, repeat, srcLength; }
        if next == Jump {
          CoveredOn(j, ip, index, matchIndex, best.longest, best.longest);
          return;
        }
      }
      ChainStep(j, ip, matchIndex, chainPos, best.longest);
      LinkAtLeastOne(j, ip, matchIndex, chainPos, best.longest);
      index := matchIndex - Delta(matchIndex + chainPos);
    }

    /** The state of a search that goes on at index m. */
    ghost predicate Underway(j: Job, ip: nat, required: nat, m: int, pos: nat, best: Best, repeat: Repeat,
        srcLength: nat, tried: seq<int>)
      reads this, hashTable, chainTable
    {
      Valid() && Serves(j) && Indexed(j.src) && nextToUpdate == ip - base && j.source <= ip <= j.Iend() - 12
      && m < ip - base && BestOk(j, ip, required, best) && ip + best.longest <= j.Iend() - 5
      && PatternKnown(j, ip, repeat, srcLength)
      && (Lowest(ip) <= m ==> OnChain(j, ip, m, pos, best.longest))
      && Covered(j, ip, m, ip - base, best.longest)
      && Compared(j, ip, tried, m + 1, best.longest) && Compared(j, ip, tried, Lowest(ip), best.longest)
    }

    lemma SearchStarts(j: Job, ip: nat, longest: nat)
      requires Valid() && Serves(j) && Indexed(j.src) && nextToUpdate == ip - base && j.source <= ip <= j.Iend() - 12
      requires ip + longest <= j.Iend() - 5
      ensures Underway(j, ip, longest, hashTable[SlotOf(j.src, base, ip - base)], 0, Best(longest, 0), Untested, 0, [])
    {
      hide Chained, SlotOf, MatchLen, Covered, OnChain, Compared, BestOk, PatternKnown;
      var m := hashTable[SlotOf(j.src, base, ip - base)];
      StartCovered(j, ip, longest);
      NothingCompared(j, ip, m + 1, longest);
      NothingCompared(j, ip, Lowest(ip), longest);
      NothingKnown(j, ip, longest);
    }

    /** At the end of a search. */
    lemma SearchOver(j: Job, ip: nat, required: nat, m: int, pos: nat, best: Best, repeat: Repeat, srcLength: nat,
        tried: seq<int>)
      requires Underway(j, ip, required, m, pos, best, repeat, srcLength, tried)
      ensures BestOk(j, ip, required, best) && ip + best.longest <= j.Iend() - 5
      ensures Compared(j, ip, tried, Lowest(ip), best.longest)
      ensures m < Lowest(ip) ==> Settled(j, ip, Lowest(ip), best.longest)
    {
      hide Chained, SlotOf, MatchLen, Covered, OnChain, Compared, BestOk, PatternKnown;
      if m < Lowest(ip) { AllCovered(j, ip, m, best.longest); }
    }

    /** One candidate, and the way to the next one. */
    method Attempt(j: Job, ip: nat, ghost required: nat, matchIndex: uint32, chainPos0: nat, best0: Best,
                   repeat0: Repeat, srcLength0: nat, patternAnalysis: bool, chainSwap: bool, ghost tried0: seq<int>)
        returns (stop: bool, index: uint32, chainPos: nat, best: Best, repeat: Repeat, srcLength: nat,
                 ghost tried: seq<int>)
      requires Underway(j, ip, required, matchIndex, chainPos0, best0, repeat0, srcLength0, tried0)
      requires Lowest(ip) <= matchIndex && 1 <= best0.longest
      ensures tried == tried0 + [matchIndex] && 1 <= best.longest
      ensures if stop then BestOk(j, ip, required, best) && ip + best.longest <= j.Iend() - 5
                           && Compared(j, ip, tried, Lowest(ip), best.longest)
                           && Settled(j, ip, Lowest(ip), best.longest)
              else Underway(j, ip, required, index, chainPos, best, repeat, srcLength, tried)
    {
      hide ReadLE, Same, Chained, SlotOf, MatchLen, Covered, Settled, OnChain, Compared, BestOk, PatternKnown;
      var matchLength;
      matchLength, best := Compare(j, matchIndex, ip, best0, required);
      OneMore(j, ip, tried0, matchIndex, best0.longest, best.longest);
      tried := tried0 + [matchIndex as int];
      CoveredHere(j, ip, matchIndex, best0.longest, best.longest);
      OnChainMore(j, ip, matchIndex, chainPos0, best0.longest, best.longest);
      ghost var was := best.longest;
      stop, index, chainPos, best, repeat, srcLength :=
        Advance(j, ip, matchIndex, matchLength, chainPos0, best, required, repeat0, srcLength0, patternAnalysis,
                chainSwap);
      ghost var bound := if stop then matchIndex else index + 1;
      ComparedMore(j, ip, tried, matchIndex, was, bound, best.longest);
      ComparedAll(j, ip, tried, bound, best.longest);
    }

    /** LZ4HC_InsertAndGetWiderMatch, forward only within one segment.  Unless every attempt is used
        up, no match of the window is longer than what is returned. */
    method InsertAndGetWiderMatch(j: Job, ip: nat, longest: nat, maxNbAttempts: nat,
                                  patternAnalysis: bool, chainSwap: bool) returns (best: Best, ghost tried: seq<int>)
      requires Valid() && Serves(j) && Indexed(j.src) && j.source <= ip <= j.Iend() - MFLIMIT
      requires nextToUpdate <= ip - base && 1 <= longest && ip + longest <= j.MatchLimit()
      modifies this`nextToUpdate, hashTable, chainTable
      ensures Valid() && Indexed(j.src) && nextToUpdate == ip - base
      ensures BestOk(j, ip, longest, best) && ip + best.longest <= j.MatchLimit()
      ensures |tried| <= maxNbAttempts && Compared(j, ip, tried, Lowest(ip), best.longest)
      ensures |tried| < maxNbAttempts ==> Settled(j, ip, Lowest(ip), best.longest)
    {
      hide ReadLE, Chained, Compared, BestOk, Settled, Underway;
      var ipIndex: uint32 := ip - base;
      var lowestMatchIndex: uint32 := if lowLimit + KB64 > ipIndex then lowLimit else ipIndex - MAX_DISTANCE;
      best, tried := Best(longest, 0), [];
      var nbAttempts, matchChainPos := maxNbAttempts, 0;
      var repeat, srcPatternLength := Untested, 0;
      Insert(j, ip);
      SlotIsHash(j.src, base, ipIndex);
      var matchIndex: uint32 := hashTable[HashHc(ReadLE(j.src, ip, 4))];
      SearchStarts(j, ip, longest);
      while matchIndex >= lowestMatchIndex && nbAttempts > 0
        invariant |tried| + nbAttempts == maxNbAttempts && 1 <= best.longest
        invariant Underway(j, ip, longest, matchIndex, matchChainPos, best, repeat, srcPatternLength, tried)
        decreases nbAttempts
        modifies {}
      {
        nbAttempts := nbAttempts - 1;
        var stop;
        stop, matchIndex, matchChainPos, best, repeat, srcPatternLength, tried :=
          Attempt(j, ip, longest, matchIndex, matchChainPos, best, repeat, srcPatternLength, patternAnalysis, chainSwap,
                  tried);
        if stop { return; }
      }
      SearchOver(j, ip, longest, matchIndex, matchChainPos, best, repeat, srcPatternLength, tried);
    }

    /** What a search that ends with length longest has seen. */
    ghost predicate Searched(j: Job, ip: nat, n: nat, longest: nat)
      reads this
      requires j.Valid() && j.source <= ip <= j.Iend() - 12
    {
      NoneLonger(j.src, base, lowLimit, ip, j.Iend() - 5, favorDecSpeed, n, longest)
    }

    lemma SearchEnds(j: Job, ip: nat, n: nat, tried: seq<int>, longest: nat)
      requires j.Valid() && j.source <= ip <= j.Iend() - 12
      requires |tried| <= n && Compared(j, ip, tried, Lowest(ip), longest)
      requires |tried| < n ==> Settled(j, ip, Lowest(ip), longest)
      ensures Searched(j, ip, n, longest)
    {
      hide MatchLen, NothingLonger;
      assert Tried(j.src, base, lowLimit, ip, j.Iend() - 5, favorDecSpeed, tried, longest);
    }

    /** LZ4HC_FindLongerMatch: a match longer than minLen, or length zero.  Lengths from 19 to 36 are
        cut to 18 if decompression speed is favoured. */
    method FindLongerMatch(j: Job, ip: nat, minLen: nat, nbSearches: nat) returns (len: nat, off: nat, ghost full: nat)
      requires Valid() && Serves(j) && Indexed(j.src) && j.source <= ip <= j.Iend() - MFLIMIT
      requires nextToUpdate <= ip - base && 1 <= minLen && ip + minLen <= j.MatchLimit()
      modifies this`nextToUpdate, hashTable, chainTable
      ensures Valid() && Indexed(j.src) && nextToUpdate == ip - base
      ensures minLen <= full && Searched(j, ip, nbSearches, full)
      ensures len == if full <= minLen then 0 else if favorDecSpeed && 18 < full <= 36 then 18 else full
      ensures len > 0 ==> off <= ip && IsMatch(j, ip, ip - off, full) && ip + full <= j.MatchLimit()
      ensures len > 0 ==> IsMatch(j, ip, ip - off, len) && ip + len <= j.MatchLimit()
    {
      hide Same, Chained, Compared, Settled, Searched;
      var best, tried := InsertAndGetWiderMatch(j, ip, minLen, nbSearches, true, true);
      var matchLength := best.longest;
      full := matchLength;
      SearchEnds(j, ip, nbSearches, tried, matchLength);
      if matchLength <= minLen { return 0, 0, full; }
      if favorDecSpeed && 18 < matchLength <= 36 {
        SameShorter(j.src, ip, best.matchpos, matchLength, 18);
        matchLength := 18;
      }
      return matchLength, ip - best.matchpos, full;
    }
  }

  lemma SameShorter(s: seq<uint8>, p: int, q: int, n: int, k: int)
    requires Same(s, p, q, n) && 0 <= k <= n
    ensures Same(s, p, q, k)
  {
  }

  lemma SameUniform(s: seq<uint8>, p: nat, m: nat, n: nat, b: uint8)
    requires Same(s, p, m, 4) && Uniform(s, p, n, b) && 4 <= n
    ensures Uniform(s, m, 4, b)
  {
    assert s[p] == s[p - (p - m)] && s[p + 1] == s[p + 1 - (p - m)];
    assert s[p + 2] == s[p + 2 - (p - m)] && s[p + 3] == s[p + 3 - (p - m)];
  }

  /** A match longer than the best one passes the two quick tests. */
  lemma TestsPass(s: seq<uint8>, ip: nat, m: nat, limit: nat, longest: nat)
    requires m < ip <= limit <= |s| && 1 <= longest
    requires ip + longest + 1 <= |s| && ip + 4 <= |s|
    ensures (Forward(s, ip, m, limit) > longest ==>
      ReadLE(s, ip + longest - 1, 2) == ReadLE(s, m + longest - 1, 2))
    ensures Forward(s, ip, m, limit) >= 4 ==> ReadLE(s, m, 4) == ReadLE(s, ip, 4)
    ensures ReadLE(s, m, 4) == ReadLE(s, ip, 4) <==> Same(s, ip, m, 4)
  {
    hide ReadLE;
    SameWords(s, ip, m, 4);
    if Forward(s, ip, m, limit) > longest {
      ForwardSame(s, ip, m, limit, longest - 1);
      ForwardSame(s, ip, m, limit, longest);
      SameWords(s, ip + longest - 1, m + longest - 1, 2);
    }
    if Forward(s, ip, m, limit) >= 4 {
      ForwardSame(s, ip, m, limit, 0);
      ForwardSame(s, ip, m, limit, 1);
      ForwardSame(s, ip, m, limit, 2);
      ForwardSame(s, ip, m, limit, 3);
    }
  }

  /** The run around a candidate: what was counted backwards, its four bytes, and what was counted on. */
  lemma RunAround(s: seq<uint8>, ip: nat, m: nat, srcLength: nat, n: nat, back: nat, limit: nat, b: uint8)
    requires RunOf(s, ip, srcLength, limit, b) && 4 <= srcLength && m < ip && m + 4 + n <= limit
    requires ReadLE(s, m, 4) == ReadLE(s, ip, 4) && Repeats(s, m + 4, n, [b, b, b, b])
    requires m + 4 + n < limit ==> s[m + 4 + n] != b
    requires back <= m && RepeatsBack(s, m - back, m, [b, b, b, b])
    ensures RunOf(s, m - back, back + (n + 4), limit, b)
  {
    hide ReadLE, Repeats, RepeatsBack;
    SameWords(s, ip, m, 4);
    SameUniform(s, ip, m, srcLength, b);
    RepeatsUniform(s, m + 4, n, b);
    UniformAppend(s, m, 4, n, b);
    BackUniform(s, m - back, m, n + 4, b);
  }

  lemma FirstFour(s: seq<uint8>, p: int, n: int, limit: int, b: uint8)
    requires RunOf(s, p, n, limit, b) && 4 <= n
    ensures Uniform(s, p, 4, b)
  {
  }

  lemma BestAtLeast(j: Job, ip: int, required: int, b: Best)
    requires BestOk(j, ip, required, b)
    ensures b.longest >= required
  {
  }

  lemma RunBounds(s: seq<uint8>, p: int, n: int, limit: int, b: uint8)
    requires RunOf(s, p, n, limit, b)
    ensures 0 <= p && 0 <= n && p + n <= limit <= |s|
  {
  }

  /** The shorter of two runs of one byte is a match. */
  lemma RunsBest(j: Job, ip: nat, m: int, n: nat, k: nat, b: uint8, required: nat)
    requires j.Valid() && RunOf(j.src, ip, n, j.MatchLimit(), b) && RunOf(j.src, m, k, j.MatchLimit(), b)
    requires j.LowLimit() <= m < ip <= m + 65535 && 4 <= n && 4 <= k && ip <= j.Iend() - 12
    requires required <= (if k < n then k else n)
    ensures BestOk(j, ip, required, Best(if k < n then k else n, m)) && ip + (if k < n then k else n) <= j.MatchLimit()
  {
    UniformSame(j.src, ip, m, n, k, b);
  }
}
