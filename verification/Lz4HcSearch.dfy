/** The match finder of lz4hc.c: hash chains, the choice of a better chain, and the jump over
    repeated bytes, for a search that goes forward only within one segment. */
module Lz4HcSearch {
  import opened MachineInts
  import opened Arithmetic
  import opened TwosComplement
  import opened Lz4Words

  const HC_HASH_LENGTH: nat := 0x8000
  const HC_CHAIN_LENGTH: nat := 0x1_0000

  type uint16 = x: int | 0 <= x < 0x1_0000

  function HashHc(sequence: nat): (h: nat)
    ensures h < HC_HASH_LENGTH
  {
    (sequence * 2654435761 % 0x1_0000_0000) / 0x2_0000
  }

  // ---------------------------------------------------------------- repeated patterns

  /** The bytes from p on, n of them, repeat the four bytes of pat. */
  ghost predicate Repeats(s: seq<uint8>, p: int, n: int, pat: seq<uint8>)
    requires |pat| == 4
  {
    0 <= p && 0 <= n && p + n <= |s| && forall i :: p <= i < p + n ==> s[i] == pat[(i - p) % 4]
  }

  lemma RepeatsAppend(s: seq<uint8>, p: nat, n: nat, m: nat, pat: seq<uint8>)
    requires |pat| == 4 && Repeats(s, p, n, pat) && Repeats(s, p + n, m, pat) && n % 4 == 0
    ensures Repeats(s, p, n + m, pat)
  {
    forall i | p + n <= i < p + n + m ensures s[i] == pat[(i - p) % 4] {
      SamePhase(i - p, n);
    }
  }

  lemma RepeatsNone(s: seq<uint8>, p: nat, pat: seq<uint8>)
    requires |pat| == 4 && p <= |s|
    ensures Repeats(s, p, 0, pat)
  {
  }

  lemma SamePhase(i: int, n: int)
    requires n % 4 == 0
    ensures (i - n) % 4 == i % 4
  {
    ModUnique(i - n, i / 4 - n / 4, i % 4, 4);
  }

  lemma EightMore(n: int)
    requires n % 4 == 0
    ensures (n + 8) % 4 == 0
  {
    ModUnique(n + 8, n / 4 + 2, 0, 4);
  }

  /** Reading a word of the pattern next to the source compares them byte by byte. */
  lemma PatternWord(s: seq<uint8>, p: nat, pat: seq<uint8>, k: nat) returns (word: nat)
    requires p + 8 <= |s| && |pat| == 4 && k <= 8
    ensures word == ReadLE(pat, 0, 4) + ReadLE(pat, 0, 4) * 0x1_0000_0000
    ensures ReadLE(s, p, 8) == word <==> Repeats(s, p, 8, pat)
    ensures Xor(ReadLE(s, p, 8), word) == 0 <==> ReadLE(s, p, 8) == word
    ensures (ReadLE(s, p, 8) != word ==>
      (NbCommonBytes(Xor(ReadLE(s, p, 8), word)) >= k <==> Repeats(s, p, k, pat)))
  {
    hide ReadLE, Xor, NbCommonBytes, Repeats;
    var q := |s|;
    var t := s + pat + pat;
    word := ReadLE(t, q, 8);
    ReadHalves(t, q, pat);
    ReadPrefix(s, t, p, 8);
    ReadEqual(t, p, q, 8);
    PatternSlice(s, t, p, pat, 8);
    PatternSlice(s, t, p, pat, k);
    if ReadLE(t, p, 8) != word {
      CommonBytes(t, p, q, k);
    } else {
      XorTwice(word, word);
      XorSelf(word);
    }
  }

  lemma {:induction false} XorSelf(x: int)
    ensures Xor(x, x) == 0
    decreases Magnitude(x)
  {
    if Magnitude(x) != 0 {
      XorSelf(x / 2);
      XorStep(x, x);
    }
  }

  lemma {:induction false} ReadPrefix(s: seq<uint8>, t: seq<uint8>, p: nat, n: nat)
    requires p + n <= |s| <= |t| && forall i :: 0 <= i < |s| ==> s[i] == t[i]
    ensures ReadLE(s, p, n) == ReadLE(t, p, n)
    decreases n
  {
    if n > 0 { ReadPrefix(s, t, p + 1, n - 1); }
  }

  /** A read of eight is two reads of four. */
  lemma ReadHalves(t: seq<uint8>, q: nat, pat: seq<uint8>)
    requires |pat| == 4 && q + 8 == |t| && t[q..q + 4] == pat && t[q + 4..] == pat
    ensures ReadLE(t, q, 8) == ReadLE(pat, 0, 4) + ReadLE(pat, 0, 4) * 0x1_0000_0000
  {
    assert t[q..q + 4][0] == t[q] && t[q..q + 4][1] == t[q + 1] && t[q..q + 4][2] == t[q + 2]
      && t[q..q + 4][3] == t[q + 3];
    assert t[q + 4..][0] == t[q + 4] && t[q + 4..][1] == t[q + 5] && t[q + 4..][2] == t[q + 6]
      && t[q + 4..][3] == t[q + 7];
    FourBytes(pat, 0);
    FourBytes(t, q + 4);
    assert ReadLE(t, q, 8) == t[q] + 0x100 * ReadLE(t, q + 1, 7);
    assert ReadLE(t, q + 1, 7) == t[q + 1] + 0x100 * ReadLE(t, q + 2, 6);
    assert ReadLE(t, q + 2, 6) == t[q + 2] + 0x100 * ReadLE(t, q + 3, 5);
    assert ReadLE(t, q + 3, 5) == t[q + 3] + 0x100 * ReadLE(t, q + 4, 4);
  }

  function Word(a: int, b: int, c: int, d: int): int {
    a + 0x100 * b + 0x1_0000 * c + 0x100_0000 * d
  }

  lemma FourBytes(t: seq<uint8>, q: nat)
    requires q + 4 <= |t|
    ensures ReadLE(t, q, 4) == Word(t[q], t[q + 1], t[q + 2], t[q + 3])
  {
    assert ReadLE(t, q + 3, 1) == t[q + 3];
    assert ReadLE(t, q + 2, 2) == t[q + 2] + 0x100 * ReadLE(t, q + 3, 1);
    assert ReadLE(t, q + 1, 3) == t[q + 1] + 0x100 * ReadLE(t, q + 2, 2);
  }

  lemma PatternSlice(s: seq<uint8>, t: seq<uint8>, p: nat, pat: seq<uint8>, k: nat)
    requires |pat| == 4 && t == s + pat + pat && p + 8 <= |s| && k <= 8
    ensures t[p..p + k] == t[|s|..|s| + k] <==> Repeats(s, p, k, pat)
  {
    assert forall i :: 0 <= i < 8 ==> t[|s| + i] == pat[i % 4];
    if t[p..p + k] == t[|s|..|s| + k] {
      forall i | p <= i < p + k ensures s[i] == pat[(i - p) % 4] {
        assert t[p..p + k][i - p] == t[|s|..|s| + k][i - p];
      }
    }
  }

  /** The byte of a pattern word at place k, as the shifts of the source produce it. */
  function PatternByte(pattern: nat, k: nat): uint8
    decreases k, pattern
  {
    if k == 0 then pattern % 0x100 else PatternByte(pattern / 0x100, k - 1)
  }

  lemma PatternByteIs(pat: seq<uint8>, k: nat)
    requires |pat| == 4 && k < 4
    ensures PatternByte(ReadLE(pat, 0, 4), k) == pat[k]
  {
    FourBytes(pat, 0);
    WordBytes(pat[0], pat[1], pat[2], pat[3]);
    var w := ReadLE(pat, 0, 4);
    assert PatternByte(w, k) == if k == 0 then w % 0x100 else PatternByte(w / 0x100, k - 1);
    if k >= 2 { assert PatternByte(w / 0x100, k - 1) == PatternByte(w / 0x100 / 0x100, k - 2); }
  }

  lemma WordBytes(a: uint8, b: uint8, c: uint8, d: uint8)
    ensures var w := Word(a, b, c, d);
      w % 0x100 == a && w / 0x100 % 0x100 == b && w / 0x100 / 0x100 % 0x100 == c
      && w / 0x100 / 0x100 / 0x100 % 0x100 == d
  {
    ModUnique(Word(a, b, c, d), b + 0x100 * c + 0x1_0000 * d, a, 0x100);
    ModUnique(b + 0x100 * c + 0x1_0000 * d, c + 0x100 * d, b, 0x100);
    ModUnique(c + 0x100 * d, d, c, 0x100);
    ModUnique(d, 0, d, 0x100);
  }

  /** LZ4HC_countPattern: how far the pattern repeats from ip0 on. */
  method CountPattern(s: seq<uint8>, ip0: nat, iEnd: nat, pattern: nat, ghost pat: seq<uint8>) returns (n: nat)
    requires ip0 <= iEnd <= |s| && |pat| == 4 && pattern == ReadLE(pat, 0, 4)
    ensures ip0 + n <= iEnd && Repeats(s, ip0, n, pat)
    ensures ip0 + n < iEnd ==> s[ip0 + n] != pat[n % 4]
  {
    hide ReadLE, Xor, NbCommonBytes, PatternByte, Repeats;
    RepeatsNone(s, ip0, pat);
    var pattern64 := pattern + pattern * 0x1_0000_0000;
    var ip := ip0;
    while ip < iEnd - 7
      invariant ip0 <= ip <= iEnd && (ip - ip0) % 4 == 0
      invariant Repeats(s, ip0, ip - ip0, pat)
    {
      var diff := Xor(ReadLE(s, ip, 8), pattern64);
      ghost var w := PatternWord(s, ip, pat, 8);
      if diff == 0 {
        RepeatsAppend(s, ip0, ip - ip0, 8, pat);
        EightMore(ip - ip0);
        ip := ip + 8;
      } else {
        var common := NbCommonBytes(diff);
        PatternBreak(s, ip, pat);
        RepeatsAppend(s, ip0, ip - ip0, common, pat);
        SamePhase(ip - ip0 + common, ip - ip0);
        return ip + common - ip0;
      }
    }
    var m := CountPatternTail(s, ip, iEnd, pattern, pat);
    RepeatsAppend(s, ip0, ip - ip0, m, pat);
    SamePhase(ip - ip0 + m, ip - ip0);
    n := ip + m - ip0;
  }

  /** The word that breaks the pattern breaks it where the common bytes end. */
  lemma PatternBreak(s: seq<uint8>, p: nat, pat: seq<uint8>)
    requires p + 8 <= |s| && |pat| == 4
    requires ReadLE(s, p, 8) != ReadLE(pat, 0, 4) + ReadLE(pat, 0, 4) * 0x1_0000_0000
    ensures var d := Xor(ReadLE(s, p, 8), ReadLE(pat, 0, 4) + ReadLE(pat, 0, 4) * 0x1_0000_0000);
      d != 0 && NbCommonBytes(d) < 8 && Repeats(s, p, NbCommonBytes(d), pat)
      && s[p + NbCommonBytes(d)] != pat[NbCommonBytes(d) % 4]
  {
    hide ReadLE, Xor, NbCommonBytes, Repeats;
    var word := PatternWord(s, p, pat, 8);
    var common := NbCommonBytes(Xor(ReadLE(s, p, 8), word));
    assert common < 8;
    word := PatternWord(s, p, pat, common);
    word := PatternWord(s, p, pat, common + 1);
    FirstBreak(s, p, common, pat);
  }

  lemma FirstBreak(s: seq<uint8>, p: nat, n: nat, pat: seq<uint8>)
    requires |pat| == 4 && p + n < |s| && Repeats(s, p, n, pat) && !Repeats(s, p, n + 1, pat)
    ensures s[p + n] != pat[n % 4]
  {
  }

  /** The last bytes, with the pattern shifted out byte by byte. */
  method CountPatternTail(s: seq<uint8>, ip0: nat, iEnd: nat, pattern: nat, ghost pat: seq<uint8>) returns (n: nat)
    requires ip0 <= iEnd <= |s| && iEnd - ip0 <= 7 && |pat| == 4 && pattern == ReadLE(pat, 0, 4)
    ensures ip0 + n <= iEnd && Repeats(s, ip0, n, pat)
    ensures ip0 + n < iEnd ==> s[ip0 + n] != pat[n % 4]
  {
    hide ReadLE;
    var patternByte := pattern + pattern * 0x1_0000_0000;
    var ip := ip0;
    ghost var rest := pat + pat;
    DoubledWord(pat);
    while ip < iEnd && s[ip] == patternByte % 0x100
      invariant ip0 <= ip <= iEnd && Repeats(s, ip0, ip - ip0, pat)
      invariant rest == (pat + pat)[ip - ip0..] && patternByte == ReadLE(rest, 0, |rest|)
    {
      assert rest[0] == (pat + pat)[ip - ip0] == pat[(ip - ip0) % 4];
      DropByte(rest);
      rest := rest[1..];
      patternByte := patternByte / 0x100;
      ip := ip + 1;
    }
    n := ip - ip0;
    if ip < iEnd {
      assert rest[0] == (pat + pat)[n] == pat[n % 4];
      DropByte(rest);
    }
  }

  lemma DoubledWord(pat: seq<uint8>)
    requires |pat| == 4
    ensures ReadLE(pat + pat, 0, 8) == ReadLE(pat, 0, 4) + ReadLE(pat, 0, 4) * 0x1_0000_0000
  {
    var t := pat + pat;
    assert t[0..4] == pat && t[4..] == pat;
    ReadHalves(t, 0, pat);
  }

  lemma DropByte(t: seq<uint8>)
    requires t != []
    ensures ReadLE(t, 0, |t|) % 0x100 == t[0] && ReadLE(t, 0, |t|) / 0x100 == ReadLE(t[1..], 0, |t| - 1)
  {
    ReadShift(t, 1, |t| - 1);
    ModUnique(ReadLE(t, 0, |t|), ReadLE(t, 1, |t| - 1), t[0], 0x100);
  }

  lemma {:induction false} ReadShift(t: seq<uint8>, p: nat, n: nat)
    requires 1 <= p && p + n <= |t|
    ensures ReadLE(t, p, n) == ReadLE(t[1..], p - 1, n)
    decreases n
  {
    if n > 0 { ReadShift(t, p + 1, n - 1); }
  }

  /** The bytes from lo up to hi repeat pat, counted from hi backwards. */
  ghost predicate RepeatsBack(s: seq<uint8>, lo: int, hi: int, pat: seq<uint8>)
    requires |pat| == 4
  {
    0 <= lo <= hi <= |s| && forall i :: lo <= i < hi ==> s[i] == pat[(i - hi) % 4]
  }

  lemma NothingBack(s: seq<uint8>, hi: nat, pat: seq<uint8>)
    requires |pat| == 4 && hi <= |s|
    ensures RepeatsBack(s, hi, hi, pat)
  {
  }

  lemma BackByte(s: seq<uint8>, lo: nat, hi: nat, pat: seq<uint8>)
    requires |pat| == 4 && RepeatsBack(s, lo, hi, pat) && 1 <= lo && s[lo - 1] == pat[(lo - 1 - hi) % 4]
    ensures RepeatsBack(s, lo - 1, hi, pat)
  {
  }

  lemma BackWord(s: seq<uint8>, lo: nat, hi: nat, pat: seq<uint8>)
    requires |pat| == 4 && RepeatsBack(s, lo, hi, pat) && (hi - lo) % 4 == 0
    requires 4 <= lo && ReadLE(s, lo - 4, 4) == ReadLE(pat, 0, 4)
    ensures RepeatsBack(s, lo - 4, hi, pat)
  {
    hide ReadLE;
    FourEqual(s, lo - 4, pat);
    Opposite(hi - lo);
    Phase(lo - 4 - hi, 0);
    Phase(lo - 4 - hi, 1);
    Phase(lo - 4 - hi, 2);
    Phase(lo - 4 - hi, 3);
  }

  lemma Opposite(x: int)
    requires x % 4 == 0
    ensures (-x) % 4 == 0 && (-x - 4) % 4 == 0
  {
    ModUnique(-x, -(x / 4), 0, 4);
    ModUnique(-x - 4, -(x / 4) - 1, 0, 4);
  }

  /** LZ4HC_reverseCountPattern: how far the pattern repeats before ip0.  The pointer into the
      four bytes of the pattern never leaves them. */
  method ReverseCountPattern(s: seq<uint8>, ip0: nat, iLow: nat, pattern: nat, ghost pat: seq<uint8>) returns (n: nat)
    requires ip0 <= |s| && |pat| == 4 && pattern == ReadLE(pat, 0, 4)
    ensures (n == 0 || n <= ip0 - iLow) && RepeatsBack(s, ip0 - n, ip0, pat)
    ensures iLow < ip0 - n ==> s[ip0 - n - 1] != pat[(-1 - n) % 4]
  {
    hide ReadLE, PatternByte, RepeatsBack;
    var ip := ip0;
    NothingBack(s, ip0, pat);
    while ip >= iLow + 4
      invariant ip <= ip0 && (ip == ip0 || iLow <= ip) && (ip0 - ip) % 4 == 0
      invariant RepeatsBack(s, ip, ip0, pat)
    {
      if ReadLE(s, ip - 4, 4) != pattern { break; }
      BackWord(s, ip, ip0, pat);
      ip := ip - 4;
    }
    ghost var at := ip;
    Opposite(ip0 - at);
    var bytePtr := 3;
    while ip > iLow
      invariant ip <= at && (ip == at || iLow <= ip) && bytePtr == 3 - (at - ip) && at - ip <= 3
      invariant at < iLow + 4 || ReadLE(s, at - 4, 4) != pattern
      invariant RepeatsBack(s, ip, ip0, pat)
    {
      PatternByteIs(pat, bytePtr);
      Phase(at - 4 - ip0, bytePtr);
      if s[ip - 1] != PatternByte(pattern, bytePtr) { break; }
      BackByte(s, ip, ip0, pat);
      if bytePtr == 0 {
        WholeWord(s, at, ip0, pat);
        assert false;
      }
      ip := ip - 1;
      bytePtr := bytePtr - 1;
    }
    n := ip0 - ip;
  }

  lemma FourEqual(s: seq<uint8>, p: nat, pat: seq<uint8>)
    requires p + 4 <= |s| && |pat| == 4
    ensures (ReadLE(s, p, 4) == ReadLE(pat, 0, 4) <==>
      s[p] == pat[0] && s[p + 1] == pat[1] && s[p + 2] == pat[2] && s[p + 3] == pat[3])
  {
    hide ReadLE;
    var t := s + pat;
    ReadPrefix(s, t, p, 4);
    assert t[|s|..|s| + 4] == pat;
    FourBytes(t, |s|);
    FourBytes(pat, 0);
    ReadEqual(t, p, |s|, 4);
    assert t[p..p + 4] == [s[p], s[p + 1], s[p + 2], s[p + 3]];
    assert pat == [pat[0], pat[1], pat[2], pat[3]];
  }

  lemma Phase(x: int, k: int)
    requires x % 4 == 0 && 0 <= k < 4
    ensures (x + k) % 4 == k
  {
    ModUnique(x + k, x / 4, k, 4);
  }

  lemma WholeWord(s: seq<uint8>, at: nat, ip0: nat, pat: seq<uint8>)
    requires |pat| == 4 && 4 <= at <= ip0 <= |s| && (at - 4 - ip0) % 4 == 0
    requires RepeatsBack(s, at - 4, ip0, pat)
    ensures ReadLE(s, at - 4, 4) == ReadLE(pat, 0, 4)
  {
    hide ReadLE;
    Phase(at - 4 - ip0, 0);
    Phase(at - 4 - ip0, 1);
    Phase(at - 4 - ip0, 2);
    Phase(at - 4 - ip0, 3);
    assert s[at - 4] == pat[0] && s[at - 3] == pat[1] && s[at - 2] == pat[2] && s[at - 1] == pat[3];
    FourEqual(s, at - 4, pat);
  }
}
