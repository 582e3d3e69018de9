/** Wide little-endian reads, the count of common bytes, and match length measurement. */
module Lz4Words {
  import opened MachineInts
  import opened Arithmetic
  import opened TwosComplement

  /** The n bytes at p as a little-endian number. */
  function ReadLE(s: seq<uint8>, p: nat, n: nat): (r: nat)
    requires p + n <= |s|
    decreases n
  {
    if n == 0 then 0 else s[p] + 0x100 * ReadLE(s, p + 1, n - 1)
  }

  /** Equal numbers are equal bytes. */
  lemma {:induction false} ReadEqual(s: seq<uint8>, p: nat, q: nat, n: nat)
    requires p + n <= |s| && q + n <= |s|
    ensures ReadLE(s, p, n) == ReadLE(s, q, n) <==> s[p..p + n] == s[q..q + n]
    decreases n
  {
    if n > 0 {
      ReadEqual(s, p + 1, q + 1, n - 1);
      assert s[p..p + n] == [s[p]] + s[p + 1..p + n];
      assert s[q..q + n] == [s[q]] + s[q + 1..q + n];
    }
  }

  // ---------------------------------------------------------------- trailing zeros of a difference

  /** Number of trailing zero bits, as __builtin_ctzll counts them. */
  function TrailingZeros(x: int): (r: nat)
    requires x != 0
    decreases Magnitude(x)
  {
    if x % 2 == 1 then 0 else 1 + TrailingZeros(x / 2)
  }

  function NbCommonBytes(diff: int): nat
    requires diff != 0
  {
    TrailingZeros(diff) / 8
  }

  lemma HalfMod(x: int, n: nat)
    requires n > 0
    ensures x % Pow2(n) == 2 * ((x / 2) % Pow2(n - 1)) + x % 2
  {
    var m := Pow2(n - 1);
    var y := x / 2;
    assert (y / m) * (2 * m) == 2 * ((y / m) * m);
    assert x == (y / m) * (2 * m) + (2 * (y % m) + x % 2);
    ModUnique(x, y / m, 2 * (y % m) + x % 2, 2 * m);
  }

  lemma {:induction false} TrailingZerosMod(x: int, n: nat)
    requires x != 0
    ensures TrailingZeros(x) >= n <==> x % Pow2(n) == 0
    decreases n
  {
    if n > 0 {
      HalfMod(x, n);
      if x % 2 == 0 { TrailingZerosMod(x / 2, n - 1); }
    }
  }

  lemma {:induction false} XorMod(a: int, b: int, n: nat)
    ensures Xor(a, b) % Pow2(n) == 0 <==> a % Pow2(n) == b % Pow2(n)
    decreases n
  {
    if n > 0 {
      XorMod(a / 2, b / 2, n - 1);
      XorStep(a, b);
      HalfMod(Xor(a, b), n);
      HalfMod(a, n);
      HalfMod(b, n);
      SameParity(a, b);
    }
  }

  lemma SameParity(a: int, b: int)
    ensures (a + b) % 2 == 0 <==> a % 2 == b % 2
  {
  }

  /** The low bytes of a read. */
  lemma {:induction false} ReadMod(s: seq<uint8>, p: nat, n: nat, k: nat)
    requires p + n <= |s| && k <= n
    ensures ReadLE(s, p, n) % Pow2(8 * k) == ReadLE(s, p, k)
    decreases k
  {
    if k > 0 {
      ReadMod(s, p + 1, n - 1, k - 1);
      Pow2Add(8, 8 * (k - 1));
      assert Pow2(8) == 0x100;
      PrependByte(s[p], ReadLE(s, p + 1, n - 1), Pow2(8 * (k - 1)));
    }
  }

  lemma PrependByte(b: uint8, y: nat, m: nat)
    requires m > 0
    ensures (b + 0x100 * y) % (0x100 * m) == b + 0x100 * (y % m)
  {
    assert (y / m) * (0x100 * m) == 0x100 * ((y / m) * m);
    ModUnique(b + 0x100 * y, y / m, b + 0x100 * (y % m), 0x100 * m);
  }

  /** The count of common bytes of two different words is the position of the first byte in
      which they differ. */
  lemma CommonBytes(s: seq<uint8>, p: nat, q: nat, k: nat)
    requires p + 8 <= |s| && q + 8 <= |s| && k <= 8
    requires ReadLE(s, p, 8) != ReadLE(s, q, 8)
    ensures Xor(ReadLE(s, p, 8), ReadLE(s, q, 8)) != 0
    ensures NbCommonBytes(Xor(ReadLE(s, p, 8), ReadLE(s, q, 8))) >= k <==> s[p..p + k] == s[q..q + k]
  {
    var a, b := ReadLE(s, p, 8), ReadLE(s, q, 8);
    var d := Xor(a, b);
    if d == 0 { XorTwice(a, b); XorZero(a); }
    TrailingZerosMod(d, 8 * k);
    XorMod(a, b, 8 * k);
    ReadMod(s, p, 8, k);
    ReadMod(s, q, 8, k);
    ReadEqual(s, p, q, k);
  }

  // ---------------------------------------------------------------- match length

  /** The bytes at p and q agree for n bytes. */
  ghost predicate Same(s: seq<uint8>, p: int, q: int, n: int) {
    0 <= p && 0 <= q && 0 <= n && p + n <= |s| && q + n <= |s|
    && forall i :: p <= i < p + n ==> s[i] == s[i - (p - q)]
  }

  lemma SameSlices(s: seq<uint8>, p: nat, q: nat, n: nat)
    requires p + n <= |s| && q + n <= |s|
    ensures Same(s, p, q, n) <==> s[p..p + n] == s[q..q + n]
  {
    if s[p..p + n] == s[q..q + n] {
      forall i | p <= i < p + n ensures s[i] == s[i - (p - q)] {
        assert s[p..p + n][i - p] == s[q..q + n][i - p];
      }
    }
  }

  lemma SameWords(s: seq<uint8>, p: nat, q: nat, n: nat)
    requires p + n <= |s| && q + n <= |s|
    ensures ReadLE(s, p, n) == ReadLE(s, q, n) <==> Same(s, p, q, n)
  {
    ReadEqual(s, p, q, n);
    SameSlices(s, p, q, n);
  }

  lemma SameAppend(s: seq<uint8>, p: nat, q: nat, n: nat, m: nat)
    requires Same(s, p, q, n) && Same(s, p + n, q + n, m)
    ensures Same(s, p, q, n + m)
  {
  }

  /** n is the number of common bytes at p and q, counted up to the limit for p. */
  ghost predicate CommonLength(s: seq<uint8>, p: int, q: int, limit: int, n: int) {
    Same(s, p, q, n) && p + n <= limit && (p + n < limit <= |s| && q + n < |s| ==> s[p + n] != s[q + n])
  }

  /** The step that found a differing word. */
  lemma WordDiffers(s: seq<uint8>, p: nat, q: nat, limit: nat)
    requires p + 8 <= limit <= |s| && q + 8 <= |s| && ReadLE(s, p, 8) != ReadLE(s, q, 8)
    ensures var diff := Xor(ReadLE(s, q, 8), ReadLE(s, p, 8));
      diff != 0 && CommonLength(s, p, q, limit, NbCommonBytes(diff))
  {
    hide ReadLE, Xor, NbCommonBytes, Same;
    CommonBytes(s, q, p, 8);
    var n := NbCommonBytes(Xor(ReadLE(s, q, 8), ReadLE(s, p, 8)));
    ReadEqual(s, q, p, 8);
    assert n < 8;
    CommonBytes(s, q, p, n);
    CommonBytes(s, q, p, n + 1);
    SameSlices(s, p, q, n);
    SameSlices(s, p, q, n + 1);
    FirstDifference(s, p, q, n);
  }

  lemma FirstDifference(s: seq<uint8>, p: nat, q: nat, n: nat)
    requires p + n < |s| && q + n < |s| && Same(s, p, q, n) && !Same(s, p, q, n + 1)
    ensures s[p + n] != s[q + n]
  {
  }

  method Count(s: seq<uint8>, pIn0: nat, pMatch0: nat, pInLimit: nat) returns (n: nat)
    requires pMatch0 <= pIn0 <= pInLimit <= |s|
    ensures CommonLength(s, pIn0, pMatch0, pInLimit, n)
  {
    hide ReadLE, Xor, NbCommonBytes, Same;
    var pIn, pMatch := pIn0, pMatch0;
    assert Same(s, pIn0, pMatch0, 0) by { SameSlices(s, pIn0, pMatch0, 0); }
    while pIn < pInLimit - 7
      invariant pIn0 <= pIn <= pInLimit && pIn - pIn0 == pMatch - pMatch0
      invariant Same(s, pIn0, pMatch0, pIn - pIn0)
    {
      SameWords(s, pIn, pMatch, 8);
      if ReadLE(s, pMatch, 8) == ReadLE(s, pIn, 8) {
        SameAppend(s, pIn0, pMatch0, pIn - pIn0, 8);
        pIn, pMatch := pIn + 8, pMatch + 8;
      } else {
        var diff := Xor(ReadLE(s, pMatch, 8), ReadLE(s, pIn, 8));
        WordDiffers(s, pIn, pMatch, pInLimit);
        SameAppend(s, pIn0, pMatch0, pIn - pIn0, NbCommonBytes(diff));
        pIn := pIn + NbCommonBytes(diff);
        return pIn - pIn0;
      }
    }
    var m := CountTail(s, pIn, pMatch, pInLimit);
    SameAppend(s, pIn0, pMatch0, pIn - pIn0, m);
    return pIn - pIn0 + m;
  }

  /** The last seven bytes: a word of four, a word of two, a byte. */
  method CountTail(s: seq<uint8>, pIn0: nat, pMatch0: nat, pInLimit: nat) returns (n: nat)
    requires pMatch0 <= pIn0 <= pInLimit <= |s| && pInLimit - pIn0 < 8
    ensures CommonLength(s, pIn0, pMatch0, pInLimit, n)
  {
    hide ReadLE, Same;
    var pIn, pMatch := pIn0, pMatch0;
    SameSlices(s, pIn, pMatch, 0);
    if pIn < pInLimit - 3 {
      SameWords(s, pIn, pMatch, 4);
      if ReadLE(s, pMatch, 4) == ReadLE(s, pIn, 4) { pIn, pMatch := pIn + 4, pMatch + 4; }
    }
    n := CountTailShort(s, pIn, pMatch, pInLimit, pIn == pIn0 && pIn + 4 <= pInLimit);
    SameAppend(s, pIn0, pMatch0, pIn - pIn0, n);
    n := pIn + n - pIn0;
  }

  /** The last three bytes, or at most seven of which the first four differ. */
  method CountTailShort(s: seq<uint8>, pIn0: nat, pMatch0: nat, pInLimit: nat, ghost four: bool) returns (n: nat)
    requires pMatch0 <= pIn0 <= pInLimit <= |s| && (!four ==> pInLimit - pIn0 < 4)
    requires four ==> pIn0 + 4 <= |s| && !Same(s, pIn0, pMatch0, 4)
    ensures CommonLength(s, pIn0, pMatch0, pInLimit, n)
  {
    hide ReadLE, Same;
    var pIn, pMatch := pIn0, pMatch0;
    SameSlices(s, pIn, pMatch, 0);
    if pIn < pInLimit - 1 {
      SameWords(s, pIn, pMatch, 2);
      if ReadLE(s, pMatch, 2) == ReadLE(s, pIn, 2) {
        SameAppend(s, pIn0, pMatch0, pIn - pIn0, 2);
        pIn, pMatch := pIn + 2, pMatch + 2;
      }
    }
    if pIn < pInLimit && s[pMatch] == s[pIn] {
      SameByte(s, pIn, pMatch);
      SameAppend(s, pIn0, pMatch0, pIn - pIn0, 1);
      if pIn + 1 < pInLimit {
        if pIn == pIn0 + 2 { FirstDifference(s, pIn0, pMatch0, 3); } else { FirstDifference(s, pIn, pMatch, 1); }
      }
      pIn := pIn + 1;
    }
    n := pIn - pIn0;
  }

  lemma SameByte(s: seq<uint8>, p: nat, q: nat)
    requires p < |s| && q < |s| && s[p] == s[q]
    ensures Same(s, p, q, 1)
  {
  }
}
