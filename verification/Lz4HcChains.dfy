/** The hash chains of the high-compression search: what the two tables say about the positions
    of a segment, and why following a chain misses no position with the same bytes. */
module Lz4HcChains {
  import opened MachineInts
  import opened Arithmetic
  import opened Lz4Words
  import opened Lz4Greedy
  import opened Lz4HcSearch

  /** The hash of the four bytes at index i. */
  ghost function SlotOf(src: seq<uint8>, base: int, i: int): (h: nat)
    ensures h < 0x8000
  {
    if 0 <= base + i && base + i + 4 <= |src| then ReadLE(src, base + i, 4) * 2654435761 / 0x2_0000 % 0x8000 else 0
  }

  /** The link of index i: no index between it and the one d before it has its hash, and that one
      has it if it is in the segment and d is not the largest distance. */
  ghost predicate LinkOk(src: seq<uint8>, base: int, low: int, i: int, d: int) {
    1 <= d <= 65535
    && (forall r :: low <= r < i && i - d < r ==> SlotOf(src, base, r) != SlotOf(src, base, i))
    && (d < 65535 && low <= i - d ==> SlotOf(src, base, i - d) == SlotOf(src, base, i))
  }

  /** For every index from low up to next, the table has the last index with its hash, and the chain
      links the last 65536 of them. */
  ghost predicate Chained(src: seq<uint8>, base: int, low: int, next: int, hash: seq<uint32>, chain: seq<uint16>) {
    |hash| == 0x8000 && |chain| == 0x1_0000
    && (forall r :: low <= r < next ==> r <= hash[SlotOf(src, base, r)])
    && (forall h :: 0 <= h < 0x8000 && low <= hash[h] ==> hash[h] < next && SlotOf(src, base, hash[h]) == h)
    && (forall i :: low <= i < next && next - i <= 0x1_0000 ==> LinkOk(src, base, low, i, chain[i % 0x1_0000]))
  }

  lemma NothingChained(src: seq<uint8>, base: int, low: int, hash: seq<uint32>, chain: seq<uint16>)
    requires |hash| == 0x8000 && |chain| == 0x1_0000 && forall h :: 0 <= h < 0x8000 ==> hash[h] < low
    ensures Chained(src, base, low, low, hash, chain)
  {
  }

  lemma OtherLink(i: int, k: int)
    requires i < k < i + 0x1_0000
    ensures i % 0x1_0000 != k % 0x1_0000
  {
  }

  /** One more index. */
  lemma InsertStep(src: seq<uint8>, base: int, low: int, next: uint32, hash: seq<uint32>, chain: seq<uint16>, h: nat,
      d: uint16)
    requires Chained(src, base, low, next, hash, chain) && 0 <= low <= next && h == SlotOf(src, base, next)
    requires hash[h] < next && d == if next - hash[h] > 65535 then 65535 else next - hash[h]
    ensures Chained(src, base, low, next + 1, hash[h := next], chain[next % 0x1_0000 := d])
  {
    hide SlotOf;
    assert LinkOk(src, base, low, next, d);
    forall i | low <= i < next && next + 1 - i <= 0x1_0000
      ensures LinkOk(src, base, low, i, chain[next % 0x1_0000 := d][i % 0x1_0000])
    {
      OtherLink(i, next);
    }
  }

  lemma SlotIsHash(src: seq<uint8>, base: int, i: int)
    requires 0 <= base + i && base + i + 4 <= |src|
    ensures HashHc(ReadLE(src, base + i, 4)) == SlotOf(src, base, i)
  {
    hide ReadLE;
    ModDiv(ReadLE(src, base + i, 4) * 2654435761, 0x2_0000, 0x8000);
  }

  // ---------------------------------------------------------------- the longest match

  /** The length of the match of the bytes at ip with those at index q; none below four bytes,
      none closer than eight bytes if decompression speed is favoured. */
  ghost function MatchLen(src: seq<uint8>, base: int, ip: nat, q: int, limit: nat, favor: bool): nat {
    if !(0 <= base + q < ip <= limit <= |src|) || (favor && ip - (base + q) < 8) then 0
    else
      var n := Forward(src, ip, base + q, limit);
      if n < 4 then 0 else n
  }

  lemma {:induction false} ForwardSame(src: seq<uint8>, p: nat, m: nat, limit: nat, k: nat)
    requires m <= p && limit <= |src| && k < Forward(src, p, m, limit)
    ensures p + k < limit && src[p + k] == src[m + k]
    decreases k
  {
    if k > 0 { ForwardSame(src, p + 1, m + 1, limit, k - 1); }
  }

  /** A longer match has the same bytes, and so the same hash, at every place within it. */
  lemma LongerSameSlot(src: seq<uint8>, base: int, ip: nat, q: int, limit: nat, favor: bool, pos: nat)
    requires pos + 4 <= MatchLen(src, base, ip, q, limit, favor)
    ensures SlotOf(src, base, q + pos) == SlotOf(src, base, ip - base + pos)
  {
    hide ReadLE;
    var m := base + q;
    ForwardSame(src, ip, m, limit, pos);
    ForwardSame(src, ip, m, limit, pos + 1);
    ForwardSame(src, ip, m, limit, pos + 2);
    ForwardSame(src, ip, m, limit, pos + 3);
    assert src[m + pos..m + pos + 4] == src[ip + pos..ip + pos + 4];
    ReadEqual(src, m + pos, ip + pos, 4);
  }

  /** Between a candidate and the next one of its chain there is no longer match. */
  lemma FollowMisses(src: seq<uint8>, base: int, low: int, ip: nat, m: int, d: int, pos: nat, longest: nat, q: int,
      limit: nat, favor: bool)
    requires LinkOk(src, base, low, m + pos, d) && m - d < q < m && low <= q
    requires SlotOf(src, base, m + pos) == SlotOf(src, base, ip - base + pos) && (pos == 0 || pos + 4 <= longest)
    ensures MatchLen(src, base, ip, q, limit, favor) <= longest
  {
    hide SlotOf, Forward;
    if MatchLen(src, base, ip, q, limit, favor) > longest {
      LongerSameSlot(src, base, ip, q, limit, favor, pos);
    }
  }

  /** Behind the last index with the hash of ip there is no match at all. */
  lemma HeadMisses(src: seq<uint8>, base: int, low: int, ip: nat, hash: seq<uint32>, chain: seq<uint16>, q: int,
      limit: nat, favor: bool)
    requires Chained(src, base, low, ip - base, hash, chain) && low <= q < ip - base
    requires hash[SlotOf(src, base, ip - base)] < q
    ensures MatchLen(src, base, ip, q, limit, favor) == 0
  {
    hide SlotOf, Forward;
    if MatchLen(src, base, ip, q, limit, favor) > 0 {
      LongerSameSlot(src, base, ip, q, limit, favor, 0);
    }
  }

  // ---------------------------------------------------------------- runs of one byte

  /** n equal bytes from p on. */
  ghost predicate Uniform(s: seq<uint8>, p: int, n: int, b: uint8) {
    0 <= p && 0 <= n && p + n <= |s| && forall i :: p <= i < p + n ==> s[i] == b
  }

  /** n equal bytes from p on and no more below limit. */
  ghost predicate RunOf(s: seq<uint8>, p: int, n: int, limit: int, b: uint8) {
    Uniform(s, p, n, b) && p + n <= limit <= |s| && (p + n < limit ==> s[p + n] != b)
  }

  lemma ForwardStops(s: seq<uint8>, p: nat, m: nat, limit: nat, k: nat)
    requires m <= p && limit <= |s| && (p + k < limit ==> s[p + k] != s[m + k])
    ensures Forward(s, p, m, limit) <= k
  {
    if Forward(s, p, m, limit) > k { ForwardSame(s, p, m, limit, k); }
  }

  /** Two runs of the same byte match as far as the shorter one, and no further unless both are
      equally long. */
  lemma RunsMatch(s: seq<uint8>, p: nat, n: nat, m: nat, k: nat, limit: nat, b: uint8)
    requires m < p && RunOf(s, p, n, limit, b) && RunOf(s, m, k, limit, b)
    ensures k < n ==> Forward(s, p, m, limit) == k
    ensures n < k ==> Forward(s, p, m, limit) == n
    ensures n == k ==> Forward(s, p, m, limit) >= n
  {
    var l := if k < n then k else n;
    ForwardAtLeast(s, p, m, limit, l);
    if k != n { ForwardStops(s, p, m, limit, l); }
  }

  /** The tail of a run. */
  lemma RunTail(s: seq<uint8>, p: int, n: int, limit: int, b: uint8, k: int)
    requires RunOf(s, p, n, limit, b) && 0 <= k <= n
    ensures RunOf(s, p + k, n - k, limit, b)
  {
  }

  lemma UniformSlot(s: seq<uint8>, base: int, i: int, k: int, b: uint8)
    requires Uniform(s, base + i, 4, b) && Uniform(s, base + k, 4, b)
    ensures SlotOf(s, base, i) == SlotOf(s, base, k)
  {
    hide ReadLE;
    assert s[base + i..base + i + 4] == s[base + k..base + k + 4];
    ReadEqual(s, base + i, base + k, 4);
  }

  /** Every index between index and bound has a match no longer than longest, or than the one at index,
      which then is still to be tried. */
  ghost predicate Passed(src: seq<uint8>, base: int, ip: nat, limit: nat, favor: bool, lowest: int, index: int,
      bound: int, longest: nat)
  {
    forall q :: lowest <= q < bound && index < q ==>
      MatchLen(src, base, ip, q, limit, favor) <= longest
      || (lowest <= index && MatchLen(src, base, ip, q, limit, favor) <= MatchLen(src, base, ip, index, limit, favor))
  }

  /** Nothing from index m on has a longer match. */
  ghost predicate NothingLonger(src: seq<uint8>, base: int, ip: nat, limit: nat, favor: bool, m: int, longest: nat) {
    forall q :: m <= q < ip - base ==> MatchLen(src, base, ip, q, limit, favor) <= longest
  }

  /** The first index a search at ip looks at: in the segment and at most 65535 before ip. */
  ghost function LowestIndex(base: int, low: int, ip: nat): int {
    if low + 65536 > ip - base then low else ip - base - 65535
  }

  /** Indexes of the window, each smaller than the one before, none with a match longer than longest. */
  ghost predicate Tried(src: seq<uint8>, base: int, low: int, ip: nat, limit: nat, favor: bool, tried: seq<int>,
      longest: nat)
  {
    (forall i :: 0 <= i < |tried| ==>
       LowestIndex(base, low, ip) <= tried[i] < ip - base && MatchLen(src, base, ip, tried[i], limit, favor) <= longest)
    && (forall i, k :: 0 <= i < k < |tried| ==> tried[k] < tried[i])
  }

  /** No match of the window is longer, or n of its indexes have been compared and none was. */
  ghost predicate NoneLonger(src: seq<uint8>, base: int, low: int, ip: nat, limit: nat, favor: bool, n: nat,
      longest: nat)
  {
    NothingLonger(src, base, ip, limit, favor, LowestIndex(base, low, ip), longest)
    || exists tried: seq<int> :: |tried| == n && Tried(src, base, low, ip, limit, favor, tried, longest)
  }

  /** A jump to the place of a run that has as many bytes left as the run at ip. */
  lemma JumpWithin(src: seq<uint8>, base: int, ip: nat, n: nat, c: int, back: nat, forth: nat, limit: nat, b: uint8,
      favor: bool, lowest: int, longest: nat)
    requires RunOf(src, ip, n, limit, b) && RunOf(src, base + c - back, back + forth, limit, b) && base + c < ip
    requires forth <= n <= back + forth && 4 <= n && (lowest <= c - back || c < lowest)
    ensures Passed(src, base, ip, limit, favor, lowest, c + forth - n, c + 1, longest)
    ensures Uniform(src, base + (c + forth - n), 4, b)
  {
    hide Forward;
    var index := c + forth - n;
    RunTail(src, base + c - back, back + forth, limit, b, back + forth - n);
    RunsMatch(src, ip, n, base + index, n, limit, b);
    forall q | lowest <= q < c + 1 && index < q
      ensures MatchLen(src, base, ip, q, limit, favor) <= longest
        || (lowest <= index && MatchLen(src, base, ip, q, limit, favor) <= MatchLen(src, base, ip, index, limit, favor))
    {
      RunTail(src, base + c - back, back + forth, limit, b, q - (c - back));
      RunsMatch(src, ip, n, base + q, c + forth - q, limit, b);
    }
  }

  /** A jump over a whole run, and on along the chain of its first index. */
  lemma JumpOver(src: seq<uint8>, base: int, low: int, ip: nat, n: nat, c: int, back: nat, forth: nat, limit: nat,
      b: uint8, favor: bool, lowest: int, longest: nat, d: int)
    requires RunOf(src, ip, n, limit, b) && RunOf(src, base + c - back, back + forth, limit, b) && base + c < ip
    requires !(forth <= n <= back + forth) && 4 <= n && 4 <= forth && (n <= longest || back + forth <= longest)
    requires low <= lowest && ip - base - 65535 <= lowest && (lowest <= c - back || c < lowest)
    requires lowest <= c - back ==> LinkOk(src, base, low, c - back, d)
    requires 0 <= d
    ensures Passed(src, base, ip, limit, favor, lowest, c - back - d, c + 1, longest)
    ensures lowest <= c - back - d ==> SlotOf(src, base, c - back - d) == SlotOf(src, base, ip - base)
  {
    hide Forward, SlotOf;
    if lowest <= c - back { UniformSlot(src, base, c - back, ip - base, b); }
    forall q | lowest <= q < c + 1 && c - back - d < q
      ensures MatchLen(src, base, ip, q, limit, favor) <= longest
    {
      if q < c - back {
        FollowMisses(src, base, low, ip, c - back, d, 0, longest, q, limit, favor);
      } else {
        RunTail(src, base + c - back, back + forth, limit, b, q - (c - back));
        RunsMatch(src, ip, n, base + q, c + forth - q, limit, b);
      }
    }
  }

  lemma LinkOf(src: seq<uint8>, base: int, low: int, next: int, hash: seq<uint32>, chain: seq<uint16>, i: int)
    requires Chained(src, base, low, next, hash, chain)
    ensures low <= i < next && next - i <= 0x1_0000 ==> LinkOk(src, base, low, i, chain[i % 0x1_0000])
  {
  }

  /** One step along a chain. */
  lemma StepPassed(src: seq<uint8>, base: int, low: int, ip: nat, limit: nat, favor: bool, lowest: int, m: int, d: int,
      pos: nat, longest: nat)
    requires LinkOk(src, base, low, m + pos, d) && low <= lowest <= m && ip - base - 65535 <= lowest && m < ip - base
    requires SlotOf(src, base, m + pos) == SlotOf(src, base, ip - base + pos) && (pos == 0 || pos + 4 <= longest)
    requires NothingLonger(src, base, ip, limit, favor, m, longest)
    ensures Passed(src, base, ip, limit, favor, lowest, m - d, ip - base, longest)
    ensures lowest <= m - d ==> SlotOf(src, base, m - d + pos) == SlotOf(src, base, ip - base + pos)
  {
    hide MatchLen, SlotOf;
    forall q | lowest <= q < ip - base && m - d < q ensures MatchLen(src, base, ip, q, limit, favor) <= longest {
      if q < m { FollowMisses(src, base, low, ip, m, d, pos, longest, q, limit, favor); }
    }
    if lowest <= m - d { assert m - d + pos == m + pos - d; }
  }

  /** A search that starts at the last index with the hash of ip. */
  lemma HeadPassed(src: seq<uint8>, base: int, low: int, ip: nat, hash: seq<uint32>, chain: seq<uint16>, limit: nat,
      favor: bool, lowest: int, longest: nat)
    requires Chained(src, base, low, ip - base, hash, chain) && |hash| == 0x8000 && low <= lowest
    ensures Passed(src, base, ip, limit, favor, lowest, hash[SlotOf(src, base, ip - base)], ip - base, longest)
  {
    hide Chained, SlotOf, MatchLen;
    forall q | lowest <= q < ip - base && hash[SlotOf(src, base, ip - base)] < q
      ensures MatchLen(src, base, ip, q, limit, favor) <= longest
    {
      HeadMisses(src, base, low, ip, hash, chain, q, limit, favor);
    }
  }
}
