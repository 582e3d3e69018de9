/** The checksum as the xxHash description defines it, step by step over numbers modulo 2^32:
    four accumulators that each take one column of the input, their convergence, the length,
    the rest of the input, and the final mix. */
module XxHashSpec {
  import opened MachineInts

  const P1: bv32 := 0x9E3779B1
  const P2: bv32 := 0x85EBCA77
  const P3: bv32 := 0xC2B2AE3D
  const P4: bv32 := 0x27D4EB2F
  const P5: bv32 := 0x165667B1

  /** The little-endian number of four bytes. */
  ghost function Lane(s: seq<uint8>, p: nat): bv32
    requires p + 4 <= |s|
  {
    (s[p] as bv32) + 0x100 * (s[p + 1] as bv32) + 0x1_0000 * (s[p + 2] as bv32) + 0x100_0000 * (s[p + 3] as bv32)
  }

  ghost function Sum(x: bv32, y: bv32): bv32 { x + y }

  ghost function Product(x: bv32, y: bv32): bv32 { x * y }

  // Rotations to the left by 1, 7, 11, 12, 13, 17 and 18 bits.
  ghost function Left1(x: bv32): bv32 { x * 0x2 + x / 0x80000000 }
  ghost function Left7(x: bv32): bv32 { x * 0x80 + x / 0x2000000 }
  ghost function Left11(x: bv32): bv32 { x * 0x800 + x / 0x200000 }
  ghost function Left12(x: bv32): bv32 { x * 0x1000 + x / 0x100000 }
  ghost function Left13(x: bv32): bv32 { x * 0x2000 + x / 0x80000 }
  ghost function Left17(x: bv32): bv32 { x * 0x20000 + x / 0x8000 }
  ghost function Left18(x: bv32): bv32 { x * 0x40000 + x / 0x4000 }

  // The exclusive or with the upper bits.
  ghost function Fold15(x: bv32): bv32 { x ^ (x / 0x8000) }
  ghost function Fold13(x: bv32): bv32 { x ^ (x / 0x2000) }
  ghost function Fold16(x: bv32): bv32 { x ^ (x / 0x1_0000) }

  ghost function TakeLane(acc: bv32, lane: bv32): bv32 {
    Product(Left13(Sum(acc, Product(lane, P2))), P1)
  }

  ghost function TakeWord(acc: bv32, lane: bv32): bv32 {
    Product(Left17(Sum(acc, Product(lane, P3))), P4)
  }

  ghost function TakeByte(acc: bv32, b: uint8): bv32 {
    Product(Left11(Sum(acc, Product(b as bv32, P5))), P1)
  }

  /** Accumulator k after n stripes: it takes lane k of every stripe. */
  ghost function Accumulator(start: bv32, s: seq<uint8>, k: nat, n: nat): bv32
    requires k < 4 && 16 * n <= |s|
    decreases n, |s|
  {
    if n == 0 then start
    else TakeLane(Accumulator(start, s, k, n - 1), Lane(s, 16 * (n - 1) + 4 * k))
  }

  /** The sum of the accumulators, rotated by 1, 7, 12 and 18. */
  ghost function Gathered(a: bv32, b: bv32, c: bv32, d: bv32): bv32 {
    Sum(Sum(Sum(Left1(a), Left7(b)), Left12(c)), Left18(d))
  }

  ghost function Converged(seed: bv32, s: seq<uint8>, n: nat): bv32
    requires 16 * n <= |s|
  {
    Gathered(Accumulator(seed + P1 + P2, s, 0, n), Accumulator(seed + P2, s, 1, n), Accumulator(seed, s, 2, n),
             Accumulator(seed - P1, s, 3, n))
  }

  /** The n lanes at p. */
  ghost function TakeLanes(acc: bv32, s: seq<uint8>, p: nat, n: nat): bv32
    requires p + 4 * n <= |s|
    decreases n, |s|
  {
    if n == 0 then acc else TakeWord(TakeLanes(acc, s, p, n - 1), Lane(s, p + 4 * (n - 1)))
  }

  /** The n bytes at p. */
  ghost function TakeBytes(acc: bv32, s: seq<uint8>, p: nat, n: nat): bv32
    requires p + n <= |s|
    decreases n, |s|
  {
    if n == 0 then acc else TakeByte(TakeBytes(acc, s, p, n - 1), s[p + n - 1])
  }

  ghost function Mixed(acc: bv32): bv32 {
    Fold16(Product(Fold13(Product(Fold15(acc), P2)), P3))
  }

  ghost function Hash(s: seq<uint8>, seed: bv32): bv32 {
    var stripes, lanes, bytes := |s| / 16, |s| % 16 / 4, |s| % 4;
    var start := if |s| < 16 then Sum(seed, P5) else Converged(seed, s, stripes);
    var counted := Sum(start, (|s| % 0x1_0000_0000) as bv32);
    Mixed(TakeBytes(TakeLanes(counted, s, 16 * stripes, lanes), s, |s| - bytes, bytes))
  }
}
