/** The checksum that xxhash.c computes is the one of the xxHash description, for every input and
    seed, and takes its known values. */
module XxHashRefinement {
  import opened MachineInts
  import opened Arithmetic
  import opened XxHash32
  import Spec = XxHashSpec

  // ---------------------------------------------------------------- words

  lemma ByteFits(b: uint8)
    ensures (b as bv32) < 0x100
  {
  }

  lemma WordIsSum(a: bv32, b: bv32, c: bv32, d: bv32)
    requires a < 0x100 && b < 0x100 && c < 0x100 && d < 0x100
    ensures a | (b << 8) | (c << 16) | (d << 24) == a + 0x100 * b + 0x1_0000 * c + 0x100_0000 * d
  {
  }

  lemma LaneIs(s: seq<uint8>, p: nat)
    requires p + 4 <= |s|
    ensures Read32(s, p) == Spec.Lane(s, p)
  {
    ByteFits(s[p]);
    ByteFits(s[p + 1]);
    ByteFits(s[p + 2]);
    ByteFits(s[p + 3]);
    WordIsSum(s[p] as bv32, s[p + 1] as bv32, s[p + 2] as bv32, s[p + 3] as bv32);
  }

  // ---------------------------------------------------------------- rotations

  lemma Left1Is(x: bv32)
    ensures Rotl(x, 1) == Spec.Left1(x)
  {
  }

  lemma Left7Is(x: bv32)
    ensures Rotl(x, 7) == Spec.Left7(x)
  {
  }

  lemma Left11Is(x: bv32)
    ensures Rotl(x, 11) == Spec.Left11(x)
  {
  }

  lemma Left12Is(x: bv32)
    ensures Rotl(x, 12) == Spec.Left12(x)
  {
  }

  lemma Left13Is(x: bv32)
    ensures Rotl(x, 13) == Spec.Left13(x)
  {
  }

  lemma Left17Is(x: bv32)
    ensures Rotl(x, 17) == Spec.Left17(x)
  {
  }

  lemma Left18Is(x: bv32)
    ensures Rotl(x, 18) == Spec.Left18(x)
  {
  }

  lemma SumIs(x: bv32, y: bv32)
    ensures Plus(x, y) == Spec.Sum(x, y)
  {
  }

  lemma ProductIs(x: bv32, y: bv32)
    ensures Times(x, y) == Spec.Product(x, y)
  {
  }

  lemma Fold15Is(x: bv32)
    ensures XorShift15(x) == Spec.Fold15(x)
  {
  }

  lemma Fold13Is(x: bv32)
    ensures XorShift13(x) == Spec.Fold13(x)
  {
  }

  lemma Fold16Is(x: bv32)
    ensures XorShift16(x) == Spec.Fold16(x)
  {
  }

  // ---------------------------------------------------------------- steps

  lemma RoundIs(acc: bv32, lane: bv32)
    ensures Round(acc, lane) == Spec.TakeLane(acc, lane)
  {
    hide Plus, Times, Rotl, Spec.Sum, Spec.Product, Spec.Left13;
    ProductIs(lane, PRIME2);
    SumIs(acc, Times(lane, PRIME2));
    Left13Is(Plus(acc, Times(lane, PRIME2)));
    ProductIs(Rotl(Plus(acc, Times(lane, PRIME2)), 13), PRIME1);
  }

  lemma MixWordIs(acc: bv32, lane: bv32)
    ensures MixWord(acc, lane) == Spec.TakeWord(acc, lane)
  {
    hide Plus, Times, Rotl, Spec.Sum, Spec.Product, Spec.Left17;
    ProductIs(lane, PRIME3);
    SumIs(acc, Times(lane, PRIME3));
    Left17Is(Plus(acc, Times(lane, PRIME3)));
    ProductIs(Rotl(Plus(acc, Times(lane, PRIME3)), 17), PRIME4);
  }

  lemma MixByteIs(acc: bv32, b: uint8)
    ensures MixByte(acc, b) == Spec.TakeByte(acc, b)
  {
    hide Plus, Times, Rotl, Spec.Sum, Spec.Product, Spec.Left11;
    var w := b as bv32;
    ProductIs(w, PRIME5);
    SumIs(acc, Times(w, PRIME5));
    Left11Is(Plus(acc, Times(w, PRIME5)));
    ProductIs(Rotl(Plus(acc, Times(w, PRIME5)), 11), PRIME1);
  }

  lemma AvalancheIs(acc: bv32)
    ensures Avalanche(acc) == Spec.Mixed(acc)
  {
    hide Times, XorShift15, XorShift13, XorShift16, Spec.Product, Spec.Fold15, Spec.Fold13, Spec.Fold16;
    var a := XorShift15(acc);
    var b := XorShift13(Times(a, PRIME2));
    Fold15Is(acc);
    ProductIs(a, PRIME2);
    Fold13Is(Times(a, PRIME2));
    ProductIs(b, PRIME3);
    Fold16Is(Times(b, PRIME3));
  }

  lemma ConvergeIs(v: Lanes)
    ensures Converge(v) == Spec.Gathered(v.v1, v.v2, v.v3, v.v4)
  {
    hide Plus, Rotl, Spec.Sum, Spec.Left1, Spec.Left7, Spec.Left12, Spec.Left18;
    Left1Is(v.v1);
    Left7Is(v.v2);
    Left12Is(v.v3);
    Left18Is(v.v4);
    var two := Plus(Rotl(v.v1, 1), Rotl(v.v2, 7));
    SumIs(Rotl(v.v1, 1), Rotl(v.v2, 7));
    SumIs(two, Rotl(v.v3, 12));
    SumIs(Plus(two, Rotl(v.v3, 12)), Rotl(v.v4, 18));
  }

  lemma StartIs(large: bool, v: Lanes, seed: bv32, length: uint32)
    ensures Start(large, v, seed, length)
      == Spec.Sum(if large then Converge(v) else Spec.Sum(seed, Spec.P5), length as bv32)
  {
    hide Converge, Plus, Spec.Sum;
    SumIs(seed, PRIME5);
    SumIs(if large then Converge(v) else Plus(seed, PRIME5), length as bv32);
  }

  // ---------------------------------------------------------------- stripes

  /** The four lanes after n stripes are the four accumulators. */
  lemma {:induction false} StripesIs(v: Lanes, s: seq<uint8>, n: nat)
    requires 16 * n <= |s|
    ensures Stripes(v, s, n) == Lanes(Spec.Accumulator(v.v1, s, 0, n), Spec.Accumulator(v.v2, s, 1, n),
                                      Spec.Accumulator(v.v3, s, 2, n), Spec.Accumulator(v.v4, s, 3, n))
    decreases n
  {
    hide Round, Read32, Spec.Lane, Spec.TakeLane;
    if n > 0 {
      StripesIs(v, s, n - 1);
      var u, p := Stripes(v, s, n - 1), 16 * (n - 1);
      var b := s[p..16 * n];
      SliceLane(s, p, b, 0);
      SliceLane(s, p, b, 4);
      SliceLane(s, p, b, 8);
      SliceLane(s, p, b, 12);
      RoundIs(u.v1, Read32(b, 0));
      RoundIs(u.v2, Read32(b, 4));
      RoundIs(u.v3, Read32(b, 8));
      RoundIs(u.v4, Read32(b, 12));
    }
  }

  lemma SliceLane(s: seq<uint8>, p: nat, b: seq<uint8>, k: nat)
    requires p + 16 <= |s| && b == s[p..p + 16] && k + 4 <= 16
    ensures Read32(b, k) == Spec.Lane(s, p + k)
  {
    hide Spec.Lane;
    assert b[k] == s[p + k] && b[k + 1] == s[p + k + 1] && b[k + 2] == s[p + k + 2] && b[k + 3] == s[p + k + 3];
    LaneIs(s, p + k);
  }

  lemma InitIs(seed: bv32)
    ensures Init(seed) == Lanes(seed + Spec.P1 + Spec.P2, seed + Spec.P2, seed, seed - Spec.P1)
  {
  }

  lemma ConvergedIs(seed: bv32, s: seq<uint8>, n: nat)
    requires 16 * n <= |s|
    ensures Converge(Stripes(Init(seed), s, n)) == Spec.Converged(seed, s, n)
  {
    hide Init, Converge, Stripes, Spec.Accumulator, Spec.Gathered;
    StripesIs(Init(seed), s, n);
    ConvergeIs(Stripes(Init(seed), s, n));
    InitIs(seed);
  }

  // ---------------------------------------------------------------- the rest

  lemma {:induction false} FirstLane(acc: bv32, s: seq<uint8>, p: nat, n: nat)
    requires p + 4 * n + 4 <= |s|
    ensures Spec.TakeLanes(acc, s, p, n + 1) == Spec.TakeLanes(MixWord(acc, Read32(s, p)), s, p + 4, n)
    decreases n
  {
    hide MixWord, Read32, Spec.Lane, Spec.TakeWord;
    LaneIs(s, p);
    MixWordIs(acc, Read32(s, p));
    if n > 0 { FirstLane(acc, s, p, n - 1); }
  }

  lemma {:induction false} FirstByte(acc: bv32, s: seq<uint8>, p: nat, n: nat)
    requires p + n + 1 <= |s|
    ensures Spec.TakeBytes(acc, s, p, n + 1) == Spec.TakeBytes(MixByte(acc, s[p]), s, p + 1, n)
    decreases n
  {
    hide MixByte, Spec.TakeByte;
    MixByteIs(acc, s[p]);
    if n > 0 { FirstByte(acc, s, p, n - 1); }
  }

  lemma TakeNothing(acc: bv32, s: seq<uint8>)
    ensures forall p :: 0 <= p <= |s| ==> Spec.TakeLanes(acc, s, p, 0) == Spec.TakeBytes(acc, s, p, 0) == acc
  {
  }

  lemma {:induction false} TailIs(acc: bv32, s: seq<uint8>, p: nat)
    requires p <= |s|
    ensures var lanes, bytes := (|s| - p) / 4, (|s| - p) % 4;
      Tail(acc, s[p..]) == Spec.TakeBytes(Spec.TakeLanes(acc, s, p, lanes), s, |s| - bytes, bytes)
    decreases |s| - p
  {
    hide MixWord, MixByte, Read32, Spec.TakeLanes, Spec.TakeBytes;
    TakeNothing(acc, s);
    var t := s[p..];
    if 4 <= |t| {
      assert t[4..] == s[p + 4..];
      ReadSuffix(s, p);
      TailIs(MixWord(acc, Read32(s, p)), s, p + 4);
      ModUnique(|s| - p, (|s| - p - 4) / 4 + 1, (|s| - p - 4) % 4, 4);
      FirstLane(acc, s, p, (|s| - p - 4) / 4);
    } else if t != [] {
      assert t[1..] == s[p + 1..] && t[0] == s[p];
      var rest := |s| - p - 1;
      assert rest / 4 == 0 && rest % 4 == rest && (rest + 1) / 4 == 0 && (rest + 1) % 4 == rest + 1;
      TailIs(MixByte(acc, s[p]), s, p + 1);
      TakeNothing(MixByte(acc, s[p]), s);
      FirstByte(acc, s, p, rest);
    }
  }

  /** For every input and seed. */
  lemma ChecksumIsSpec(s: seq<uint8>, seed: bv32)
    ensures Checksum(s, seed) == Spec.Hash(s, seed)
  {
    hide Init, Start, Tail, Avalanche, Converge, Stripes, Spec.Sum, Spec.TakeLanes, Spec.TakeBytes, Spec.Mixed,
         Spec.Converged;
    var n := |s| / 16;
    var v := Stripes(Init(seed), s, n);
    ConvergedIs(seed, s, n);
    StartIs(n > 0, v, seed, Length32(|s|));
    var acc := Start(n > 0, v, seed, Length32(|s|));
    TailIs(acc, s, 16 * n);
    RestSizes(|s|);
    AvalancheIs(Tail(acc, s[16 * n..]));
  }

  lemma RestSizes(n: nat)
    ensures n - 16 * (n / 16) == n % 16 && (n % 16) % 4 == n % 4
  {
    ModUnique(n, 4 * (n / 16) + (n % 16) / 4, (n % 16) % 4, 4);
  }

  // ---------------------------------------------------------------- known values

  lemma NoBytes()
    ensures Checksum([], 0) == 0x02CC5D05
  {
  }

  lemma WordOf(s: seq<uint8>, p: nat, a: bv32, b: bv32, c: bv32, d: bv32)
    requires p + 4 <= |s|
    requires s[p] as bv32 == a && s[p + 1] as bv32 == b && s[p + 2] as bv32 == c && s[p + 3] as bv32 == d
    ensures Read32(s, p) == a | (b << 8) | (c << 16) | (d << 24)
  {
  }

  /** The letters abcd. */
  lemma LetterWord(s: seq<uint8>)
    requires s == [0x61, 0x62, 0x63, 0x64]
    ensures Read32(s, 0) == 0x64636261
  {
    hide Read32;
    WordOf(s, 0, 0x61, 0x62, 0x63, 0x64);
  }

  lemma MixByteOf(h: bv32, b: uint8, w: bv32)
    requires b as bv32 == w
    ensures MixByte(h, b) == Times(Rotl(Plus(h, Times(w, PRIME5)), 11), PRIME1)
  {
    hide Times, Rotl, Plus;
  }

  /** Without a stripe. */
  lemma ShortChecksum(s: seq<uint8>, length: bv32)
    requires |s| < 16 && |s| as bv32 == length
    ensures Checksum(s, 0) == Avalanche(Tail(Plus(Plus(0, PRIME5), length), s))
  {
    hide Tail, Avalanche, Plus, Converge;
    assert s[0..] == s;
  }

  lemma SingleTail(h: bv32, b: uint8)
    ensures Tail(h, [b]) == MixByte(h, b)
  {
    hide MixByte, MixWord, Read32;
    assert [b][1..] == [];
  }

  lemma PairTail(h: bv32, b: uint8, c: uint8)
    ensures Tail(h, [b, c]) == MixByte(MixByte(h, b), c)
  {
    hide MixByte, MixWord, Read32;
    assert [b, c][1..] == [c];
    SingleTail(MixByte(h, b), c);
  }

  lemma WordTail(h: bv32, s: seq<uint8>)
    requires |s| == 4
    ensures Tail(h, s) == MixWord(h, Read32(s, 0))
  {
    hide MixByte, MixWord, Read32;
    assert s[4..] == [];
  }

  lemma StartValues()
    ensures Plus(Plus(0, PRIME5), 1) == 0x165667B2
    ensures Plus(Plus(0, PRIME5), 2) == 0x165667B3
    ensures Plus(Plus(0, PRIME5), 4) == 0x165667B5
  {
  }

  lemma StepValues()
    ensures MixByte(0x165667B2, 0x61) == 0x6506CBE8
    ensures MixByte(0x165667B3, 0x64) == 0x15743680
    ensures MixByte(0x15743680, 0x40) == 0x0EA849D8
  {
    hide MixByte;
    MixByteOf(0x165667B2, 0x61, 0x61);
    MixByteOf(0x165667B3, 0x64, 0x64);
    MixByteOf(0x15743680, 0x40, 0x40);
  }

  lemma WordStepValue()
    ensures MixWord(0x165667B5, 0x64636261) == 0x75275207
  {
  }

  lemma FinalValues()
    ensures Avalanche(0x6506CBE8) == 0x550D7456
    ensures Avalanche(0x0EA849D8) == 0x95C0A77C
    ensures Avalanche(0x75275207) == 0xA3643705
  {
  }

  /** The letter a. */
  lemma OneByte()
    ensures Checksum([0x61], 0) == 0x550D7456
  {
    hide *;
    ShortChecksum([0x61], 1);
    StartValues();
    SingleTail(0x165667B2, 0x61);
    StepValues();
    FinalValues();
  }

  /** The descriptor of a frame with the least options. */
  lemma TwoBytes()
    ensures Checksum([0x64, 0x40], 0) == 0x95C0A77C
  {
    hide *;
    ShortChecksum([0x64, 0x40], 2);
    StartValues();
    PairTail(0x165667B3, 0x64, 0x40);
    StepValues();
    FinalValues();
  }

  /** The letters abcd. */
  lemma FourBytes()
    ensures Checksum([0x61, 0x62, 0x63, 0x64], 0) == 0xA3643705
  {
    hide *;
    var s: seq<uint8> := [0x61, 0x62, 0x63, 0x64];
    ShortChecksum(s, 4);
    StartValues();
    WordTail(0x165667B5, s);
    LetterWord(s);
    WordStepValue();
    FinalValues();
  }

  lemma StripeValues()
    ensures Init(0) == Lanes(0x24234428, 0x85EBCA77, 0, 0x61C8864F)
    ensures Round(0x24234428, 0x64636261) == 0xE7D631C0
    ensures Round(0x85EBCA77, 0x64636261) == 0xF3225629
    ensures Round(0, 0x64636261) == 0xB62834CB
    ensures Round(0x61C8864F, 0x64636261) == 0xC1745934
  {
  }

  lemma ConvergeValue()
    ensures Plus(Converge(Lanes(0xE7D631C0, 0xF3225629, 0xB62834CB, 0xC1745934)), 16) == 0x48F739BD
    ensures Avalanche(0x48F739BD) == 0x75C720FF
  {
  }

  /** One stripe and nothing else. */
  lemma StripeChecksum(s: seq<uint8>, length: bv32)
    requires |s| == 16 && |s| as bv32 == length
    ensures Checksum(s, 0) == Avalanche(Plus(Converge(Stripe(Init(0), s)), length))
  {
    hide Avalanche, Plus, Converge, Stripe, Init;
    assert s[0..16] == s && s[16..] == [];
    assert Stripes(Init(0), s, 0) == Init(0);
  }

  lemma SameWord(s: seq<uint8>, p: nat, t: seq<uint8>)
    requires p + 4 <= |s| && s[p..p + 4] == t
    ensures Read32(s, p) == Read32(t, 0)
  {
    assert s[p..p + 4][0] == s[p] && s[p..p + 4][1] == s[p + 1] && s[p..p + 4][2] == s[p + 2]
      && s[p..p + 4][3] == s[p + 3];
  }

  /** The letters abcd four times. */
  lemma SixteenBytes()
    ensures var s: seq<uint8> := [0x61, 0x62, 0x63, 0x64];
      Checksum(s + s + s + s, 0) == 0x75C720FF
  {
    hide Checksum, Avalanche, Plus, Converge, Init, Round, Read32;
    var s: seq<uint8> := [0x61, 0x62, 0x63, 0x64];
    var t := s + s + s + s;
    assert t[0..4] == s && t[4..8] == s && t[8..12] == s && t[12..16] == s;
    StripeChecksum(t, 16);
    SameWord(t, 0, s);
    SameWord(t, 4, s);
    SameWord(t, 8, s);
    SameWord(t, 12, s);
    LetterWord(s);
    StripeValues();
    ConvergeValue();
  }
}
