/** The 32-bit checksum of xxhash.c, one-shot and streaming. */
module XxHash32 {
  import opened MachineInts
  import opened Arithmetic

  const PRIME1: bv32 := 2654435761
  const PRIME2: bv32 := 2246822519
  const PRIME3: bv32 := 3266489917
  const PRIME4: bv32 := 668265263
  const PRIME5: bv32 := 374761393

  datatype Lanes = Lanes(v1: bv32, v2: bv32, v3: bv32, v4: bv32)

  function Read32(s: seq<uint8>, p: nat): bv32
    requires p + 4 <= |s|
  {
    (s[p] as bv32) | ((s[p + 1] as bv32) << 8) | ((s[p + 2] as bv32) << 16) | ((s[p + 3] as bv32) << 24)
  }

  // ---------------------------------------------------------------- operations on words

  function Plus(x: bv32, y: bv32): bv32 {
    x + y
  }

  function Times(x: bv32, y: bv32): bv32 {
    x * y
  }

  function Rotl(x: bv32, r: bv5): bv32 {
    (x << r) | (x >> (32 - r as bv6))
  }

  function XorShift15(x: bv32): bv32 { x ^ (x >> 15) }
  function XorShift13(x: bv32): bv32 { x ^ (x >> 13) }
  function XorShift16(x: bv32): bv32 { x ^ (x >> 16) }

  // ---------------------------------------------------------------- steps

  function Round(seed: bv32, input: bv32): bv32 {
    Times(Rotl(Plus(seed, Times(input, PRIME2)), 13), PRIME1)
  }

  function Init(seed: bv32): Lanes {
    Lanes(seed + PRIME1 + PRIME2, seed + PRIME2, seed, seed - PRIME1)
  }

  /** The four lanes after one stripe of sixteen bytes. */
  function Stripe(v: Lanes, b: seq<uint8>): Lanes
    requires |b| == 16
  {
    Lanes(Round(v.v1, Read32(b, 0)), Round(v.v2, Read32(b, 4)),
          Round(v.v3, Read32(b, 8)), Round(v.v4, Read32(b, 12)))
  }

  function Converge(v: Lanes): bv32 {
    Plus(Plus(Plus(Rotl(v.v1, 1), Rotl(v.v2, 7)), Rotl(v.v3, 12)), Rotl(v.v4, 18))
  }

  function MixWord(h: bv32, w: bv32): bv32 {
    Times(Rotl(Plus(h, Times(w, PRIME3)), 17), PRIME4)
  }

  function MixByte(h: bv32, b: uint8): bv32 {
    Times(Rotl(Plus(h, Times(b as bv32, PRIME5)), 11), PRIME1)
  }

  function Avalanche(h: bv32): bv32 {
    XorShift16(Times(XorShift13(Times(XorShift15(h), PRIME2)), PRIME3))
  }

  /** A length modulo 2^32. */
  function Length32(n: nat): uint32 {
    n % 0x1_0000_0000
  }

  /** The sum the tail starts from. */
  function Start(large: bool, v: Lanes, seed: bv32, length: uint32): bv32 {
    Plus(if large then Converge(v) else Plus(seed, PRIME5), length as bv32)
  }

  // ---------------------------------------------------------------- specification

  /** The lanes after the first n stripes of s. */
  ghost function Stripes(v: Lanes, s: seq<uint8>, n: nat): Lanes
    requires 16 * n <= |s|
    decreases n, |s|
  {
    if n == 0 then v else Stripe(Stripes(v, s, n - 1), s[16 * (n - 1)..16 * n])
  }

  /** The bytes behind the last stripe: words, then single bytes. */
  ghost function Tail(h: bv32, s: seq<uint8>): bv32
    decreases |s|
  {
    if 4 <= |s| then Tail(MixWord(h, Read32(s, 0)), s[4..])
    else if s != [] then Tail(MixByte(h, s[0]), s[1..])
    else h
  }

  /** The checksum of a byte string. */
  ghost function Checksum(s: seq<uint8>, seed: bv32): bv32 {
    var n := |s| / 16;
    Avalanche(Tail(Start(n > 0, Stripes(Init(seed), s, n), seed, Length32(|s|)), s[16 * n..]))
  }

  /** Stripes look at no more than they cover. */
  lemma {:induction false} StripesPrefix(v: Lanes, s: seq<uint8>, t: seq<uint8>, n: nat)
    requires 16 * n <= |s| && 16 * n <= |t| && s[..16 * n] == t[..16 * n]
    ensures Stripes(v, s, n) == Stripes(v, t, n)
    decreases n
  {
    hide Stripe;
    if n > 0 {
      var k := 16 * (n - 1);
      assert s[..k] == s[..16 * n][..k] && t[..k] == t[..16 * n][..k];
      assert s[k..16 * n] == s[..16 * n][k..] && t[k..16 * n] == t[..16 * n][k..];
      StripesPrefix(v, s, t, n - 1);
    }
  }

  // ---------------------------------------------------------------- one-shot

  /** The two tail loops. */
  method FinishTail(h0: bv32, s: seq<uint8>, p0: nat) returns (h: bv32)
    requires p0 <= |s|
    ensures h == Tail(h0, s[p0..])
  {
    hide MixWord, MixByte, Read32;
    h := h0;
    var p := p0;
    while p + 4 <= |s|
      invariant p0 <= p <= |s| && Tail(h, s[p..]) == Tail(h0, s[p0..])
    {
      ReadSuffix(s, p);
      assert s[p..][4..] == s[p + 4..];
      h := MixWord(h, Read32(s, p));
      p := p + 4;
    }
    while p < |s|
      invariant p0 <= p <= |s| && |s| - p < 4 && Tail(h, s[p..]) == Tail(h0, s[p0..])
    {
      assert s[p..][1..] == s[p + 1..] && s[p..][0] == s[p];
      h := MixByte(h, s[p]);
      p := p + 1;
    }
  }

  lemma ReadSuffix(s: seq<uint8>, p: nat)
    requires p + 4 <= |s|
    ensures Read32(s, p) == Read32(s[p..], 0)
  {
  }

  /** XXH32. */
  method XXH32(input: seq<uint8>, seed: bv32) returns (h: bv32)
    ensures h == Checksum(input, seed)
  {
    hide Tail, Stripe, Avalanche, Start, Length32, Init;
    var p := 0;
    var v := Init(seed);
    ghost var n := 0;
    if |input| >= 16 {
      var limit := |input| - 16;
      v := Stripe(v, input[p..p + 16]);
      p, n := 16, 1;
      while p <= limit
        invariant 1 <= n && p == 16 * n <= |input| && v == Stripes(Init(seed), input, n)
      {
        v := Stripe(v, input[p..p + 16]);
        p, n := p + 16, n + 1;
      }
    }
    ModUnique(|input|, n, |input| - p, 16);
    h := Start(|input| >= 16, v, seed, Length32(|input|));
    h := FinishTail(h, input, p);
    h := Avalanche(h);
  }

  // ---------------------------------------------------------------- streaming

  class State {
    var totalLen32: uint32
    var largeLen: bool
    var v: Lanes
    const mem32: array<uint8>
    var memsize: nat

    ghost predicate Counted(n: nat)
      reads this`totalLen32, this`largeLen
    {
      totalLen32 == Length32(n) && (largeLen <==> 16 <= n)
    }

    ghost predicate Buffered(seed: bv32, t: seq<uint8>)
      reads this, mem32
    {
      mem32.Length == 16 && memsize == |t| % 16
      && v == Stripes(Init(seed), t, |t| / 16)
      && mem32[..memsize] == t[|t| - memsize..]
    }

    /** The state after seed and the bytes t. */
    ghost predicate Holds(seed: bv32, t: seq<uint8>)
      reads this, mem32
    {
      Counted(|t|) && Buffered(seed, t)
    }

    constructor ()
      ensures mem32.Length == 16 && fresh(mem32)
    {
      mem32 := new uint8[16](_ => 0);
      totalLen32, largeLen, v, memsize := 0, false, Init(0), 0;
    }

    /** XXH32_reset. */
    method Reset(seed: bv32)
      requires mem32.Length == 16
      modifies this, mem32
      ensures Holds(seed, [])
    {
      forall k | 0 <= k < 16 { mem32[k] := 0; }
      totalLen32, largeLen, memsize := 0, false, 0;
      v := Init(seed);
    }

    /** XXH32_update. */
    method Update(input: seq<uint8>, ghost seed: bv32, ghost t: seq<uint8>)
      requires Holds(seed, t)
      modifies this, mem32
      ensures Holds(seed, t + input)
    {
      hide Counted, Buffered, Length32;
      CountBytes(|input|, seed, t);
      if memsize + |input| < 16 {
        KeepBytes(input, seed, t);
      } else {
        ConsumeBytes(input, seed, t);
      }
      assert |t + input| == |t| + |input|;
    }

    /** The length modulo 2^32, and whether it is at least 16. */
    method CountBytes(len: nat, ghost seed: bv32, ghost t: seq<uint8>)
      requires Holds(seed, t)
      modifies this`totalLen32, this`largeLen
      ensures Counted(|t| + len) && Buffered(seed, t)
    {
      hide Init, Stripes;
      LengthSum(|t|, len);
      LargeLength(|t|, len);
      totalLen32 := (totalLen32 + Length32(len)) % 0x1_0000_0000;
      largeLen := largeLen || len >= 16 || totalLen32 >= 16;
    }

    /** Too little for a stripe: fill in the buffer. */
    method KeepBytes(input: seq<uint8>, ghost seed: bv32, ghost t: seq<uint8>)
      requires Buffered(seed, t) && memsize + |input| < 16
      modifies this`memsize, mem32
      ensures Buffered(seed, t + input)
    {
      hide Stripe, Init, Stripes;
      ghost var all := t + input;
      ghost var kept := memsize;
      StillBuffered(seed, t, input);
      Buffer(input, 0, |input|);
      memsize := memsize + |input|;
      assert all[|all| - memsize..] == t[|t| - kept..] + input;
      assert mem32[..memsize] == mem32[..kept] + mem32[kept..memsize];
    }

    /** Stripes from the buffer and the input, and the rest back into the buffer. */
    method ConsumeBytes(input: seq<uint8>, ghost seed: bv32, ghost t: seq<uint8>)
      requires Buffered(seed, t) && 16 <= memsize + |input|
      modifies this`v, this`memsize, mem32
      ensures Buffered(seed, t + input)
    {
      hide Stripe, Init, Stripes;
      ghost var all := t + input;
      var p: nat := 0;
      ghost var n := |t| / 16;
      StripesPrefix(Init(seed), t, all, n);
      assert all[|all| - |input|..] == input;
      if memsize > 0 {
        p, n := FillStripe(input, seed, t);
      }
      p, n := WholeStripes(input, p, seed, all, n);
      if p < |input| {
        Buffer(input, p, |input|);
        memsize := |input| - p;
      }
      ModUnique(|all|, n, |input| - p, 16);
      assert all[|all| - memsize..] == input[p..];
    }

    /** Completes the buffered stripe. */
    method FillStripe(input: seq<uint8>, ghost seed: bv32, ghost t: seq<uint8>) returns (p: nat, ghost n: nat)
      requires mem32.Length == 16 && 0 < memsize == |t| % 16 && 16 <= memsize + |input|
      requires mem32[..memsize] == t[|t| - memsize..] && v == Stripes(Init(seed), t + input, |t| / 16)
      modifies this`v, this`memsize, mem32
      ensures memsize == 0 && p <= |input| && |t| + p == 16 * n
      ensures v == Stripes(Init(seed), t + input, n)
    {
      hide Stripe, Init;
      n := |t| / 16;
      Buffer(input, 0, 16 - memsize);
      assert mem32[..] == mem32[..memsize] + mem32[memsize..16];
      assert mem32[..] == (t + input)[16 * n..16 * (n + 1)];
      v := Stripe(v, mem32[..]);
      p := 16 - memsize;
      memsize := 0;
      n := n + 1;
    }

    /** Stripes taken directly from the input. */
    method WholeStripes(input: seq<uint8>, p0: nat, ghost seed: bv32, ghost all: seq<uint8>, ghost n0: nat)
        returns (p: nat, ghost n: nat)
      requires p0 <= |input| <= |all| && all[|all| - |input|..] == input
      requires |all| - |input| + p0 == 16 * n0 && v == Stripes(Init(seed), all, n0)
      modifies this`v
      ensures p0 <= p <= |input| < p + 16 && |all| - |input| + p == 16 * n
      ensures v == Stripes(Init(seed), all, n)
    {
      hide Stripe, Init;
      p, n := p0, n0;
      while p <= |input| - 16
        invariant p0 <= p <= |input| && |all| - |input| + p == 16 * n
        invariant v == Stripes(Init(seed), all, n)
      {
        assert input[p..p + 16] == all[16 * n..16 * (n + 1)];
        v := Stripe(v, input[p..p + 16]);
        p, n := p + 16, n + 1;
      }
    }

    /** XXH32_digest. */
    method Digest(ghost seed: bv32, ghost t: seq<uint8>) returns (h: bv32)
      requires Holds(seed, t)
      ensures h == Checksum(t, seed)
    {
      hide Tail, Start, Avalanche, Stripe, Length32;
      if |t| < 16 { SmallKeepsSeed(seed, t); } else { SeedUnused(largeLen, v, v.v3, seed, totalLen32); }
      h := Start(largeLen, v, v.v3, totalLen32);
      h := FinishTail(h, mem32[..memsize], 0);
      assert mem32[..memsize][0..] == t[16 * (|t| / 16)..];
      h := Avalanche(h);
    }

    /** memcpy of input[from..to] behind the bytes already buffered. */
    method Buffer(input: seq<uint8>, from: nat, to: nat)
      requires mem32.Length == 16 && from <= to <= |input| && memsize + (to - from) <= 16
      modifies mem32
      ensures mem32[..memsize] == old(mem32[..memsize])
      ensures mem32[memsize..memsize + (to - from)] == input[from..to]
    {
      forall k | 0 <= k < to - from { mem32[memsize + k] := input[from + k]; }
    }
  }

  /** Without a stripe the third lane is still the seed. */
  lemma SmallKeepsSeed(seed: bv32, t: seq<uint8>)
    requires |t| < 16
    ensures Stripes(Init(seed), t, |t| / 16).v3 == seed
  {
  }

  /** With a stripe the seed is only in the lanes. */
  lemma SeedUnused(large: bool, v: Lanes, s1: bv32, s2: bv32, length: uint32)
    requires large
    ensures Start(large, v, s1, length) == Start(large, v, s2, length)
  {
    hide Converge;
  }

  lemma LengthSum(a: nat, b: nat)
    ensures Length32(a + b) == (Length32(a) + Length32(b)) % 0x1_0000_0000
  {
    var m := 0x1_0000_0000;
    var x := Length32(a) + Length32(b);
    ModUnique(a + b, a / m + b / m + x / m, x % m, m);
  }

  lemma LargeLength(a: nat, b: nat)
    ensures (16 <= a || 16 <= b || 16 <= Length32(a + b)) <==> 16 <= a + b
  {
    if a < 16 && b < 16 { ModSmall(a + b, 0x1_0000_0000); }
    if a + b < 16 { ModSmall(a + b, 0x1_0000_0000); }
  }

  lemma StillBuffered(seed: bv32, t: seq<uint8>, input: seq<uint8>)
    requires |t| % 16 + |input| < 16
    ensures |t + input| / 16 == |t| / 16 && |t + input| % 16 == |t| % 16 + |input|
    ensures Stripes(Init(seed), t + input, |t| / 16) == Stripes(Init(seed), t, |t| / 16)
  {
    ModUnique(|t + input|, |t| / 16, |t| % 16 + |input|, 16);
    StripesPrefix(Init(seed), t, t + input, |t| / 16);
  }

  /** Streaming equals one-shot, for every seed and every way of cutting the input. */
  method StreamedDigest(chunks: seq<seq<uint8>>, seed: bv32) returns (h: bv32)
    ensures h == Checksum(Concat(chunks), seed)
  {
    hide Checksum, State.Holds;
    var state := new State();
    state.Reset(seed);
    for i := 0 to |chunks|
      invariant fresh(state) && fresh(state.mem32) && state.Holds(seed, Concat(chunks[..i]))
    {
      assert chunks[..i + 1][..i] == chunks[..i];
      state.Update(chunks[i], seed, Concat(chunks[..i]));
    }
    assert chunks[..|chunks|] == chunks;
    h := state.Digest(seed, Concat(chunks));
  }

  ghost function Concat(chunks: seq<seq<uint8>>): seq<uint8> {
    if chunks == [] then [] else Concat(chunks[..|chunks| - 1]) + chunks[|chunks| - 1]
  }
}
