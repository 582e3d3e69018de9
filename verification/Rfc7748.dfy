/** The X25519 function as section 5 of RFC 7748 defines it, over integers modulo 2^255 - 19. */
module Rfc7748 {
  import opened MachineInts
  import opened Arithmetic
  import opened Limbs
  import opened TwosComplement

  ghost function LittleEndian(s: seq<int>): int {
    if s == [] then 0 else s[0] + 0x100 * LittleEndian(s[1..])
  }

  ghost function ToBytes(v: int, n: nat): (s: seq<uint8>)
    ensures |s| == n
    decreases n
  {
    if n == 0 then [] else [v % 0x100] + ToBytes(v / 0x100, n - 1)
  }

  /** decodeScalar25519, before the bytes are read as a number: the three lowest bits are cleared,
      of the two highest the upper is cleared and the lower is set. */
  ghost function Clamp(k: seq<uint8>): (r: seq<uint8>)
    requires |k| == 32
    ensures |r| == 32
  {
    k[0 := k[0] / 8 * 8][31 := k[31] % 64 + 64]
  }

  /** decodeUCoordinate: the top bit of the last byte is ignored. */
  ghost function DecodeU(u: seq<uint8>): int
    requires |u| == 32
  {
    LittleEndian(u[31 := u[31] % 0x80])
  }

  ghost function Bit(k: int, t: nat): int {
    (k / Pow2(t)) % 2
  }

  ghost function FAdd(x: int, y: int): int { (x + y) % P }
  ghost function FSub(x: int, y: int): int { (x - y) % P }
  ghost function FMul(x: int, y: int): int { (x * y) % P }

  ghost function Power(x: int, e: nat): int
    decreases e, x
  {
    if e == 0 then 1 else x * Power(x, e - 1)
  }

  /** The four coordinates of a ladder step and the pending exchange. */
  datatype Ladder = Ladder(x2: int, z2: int, x3: int, z3: int, swap: int) {
    ghost function Exchanged(bit: int): Ladder {
      if bit == 0 then this else Ladder(x3, z3, x2, z2, swap)
    }
  }

  ghost const A24: int := 121665

  /** The arithmetic of one iteration. */
  ghost function Double(x1: int, s: Ladder): Ladder {
    var a := FAdd(s.x2, s.z2);
    var aa := FMul(a, a);
    var b := FSub(s.x2, s.z2);
    var bb := FMul(b, b);
    var e := FSub(aa, bb);
    var c := FAdd(s.x3, s.z3);
    var d := FSub(s.x3, s.z3);
    var da := FMul(d, a);
    var cb := FMul(c, b);
    var sum := FAdd(da, cb);
    var diff := FSub(da, cb);
    Ladder(FMul(aa, bb), FMul(e, FAdd(aa, FMul(A24, e))),
           FMul(sum, sum), FMul(x1, FMul(diff, diff)), s.swap)
  }

  /** One iteration: the exchange is delayed, swap ^= k_t before and swap = k_t after. */
  ghost function Iterate(x1: int, bit: int, s: Ladder): Ladder {
    Double(x1, s.Exchanged((s.swap + bit) % 2)).(swap := bit)
  }

  /** The state after bits 254 down to t. */
  ghost function Run(k: int, u: int, t: nat): Ladder
    requires t <= 255
    decreases 255 - t, k
  {
    if t == 255 then Ladder(1, 0, u, 1, 0) else Iterate(u, Bit(k, t), Run(k, u, t + 1))
  }

  ghost function X25519(k: seq<uint8>, u: seq<uint8>): (r: seq<uint8>)
    requires |k| == |u| == 32
    ensures |r| == 32
  {
    var s := Run(LittleEndian(Clamp(k)), DecodeU(u), 0);
    var t := s.Exchanged(s.swap);
    ToBytes(FMul(t.x2, Power(t.z2, P - 2)), 32)
  }

  // ---------------------------------------------------------------- facts

  lemma {:induction false} ToBytesUnique(v: int, s: seq<uint8>)
    requires LittleEndian(s) == v
    ensures ToBytes(v, |s|) == s
    decreases |s|
  {
    if s != [] {
      ToBytesUnique(LittleEndian(s[1..]), s[1..]);
      ModUnique(v, LittleEndian(s[1..]), s[0], 0x100);
    }
  }

  lemma {:induction false} PowerAdd(x: int, m: nat, n: nat)
    ensures Power(x, m + n) == Power(x, m) * Power(x, n)
  {
    if m > 0 {
      PowerAdd(x, m - 1, n);
      assert Power(x, m + n) == x * Power(x, m - 1 + n);
      assert x * (Power(x, m - 1) * Power(x, n)) == (x * Power(x, m - 1)) * Power(x, n);
    }
  }

  lemma {:induction false} PowerCong(x: int, y: int, e: nat)
    requires Cong(x, y)
    ensures Cong(Power(x, e), Power(y, e))
  {
    if e > 0 {
      PowerCong(x, y, e - 1);
      CongMul(x, y, Power(x, e - 1), Power(y, e - 1));
    }
  }

  lemma CongMod(x: int)
    ensures Cong(x, x % P)
  {
    CongFromMultiple(x, x % P, x / P);
  }

  lemma FAddCong(v: int, x: int, x': int, y: int, y': int)
    requires Cong(v, x + y) && Cong(x, x') && Cong(y, y')
    ensures Cong(v, FAdd(x', y'))
  {
    CongAdd(x, x', y, y');
    CongMod(x' + y');
  }

  lemma FSubCong(v: int, x: int, x': int, y: int, y': int)
    requires Cong(v, x - y) && Cong(x, x') && Cong(y, y')
    ensures Cong(v, FSub(x', y'))
  {
    CongAdd(x, x', y, y');
    CongMod(x' - y');
  }

  lemma FMulCong(v: int, x: int, x': int, y: int, y': int)
    requires Cong(v, x * y) && Cong(x, x') && Cong(y, y')
    ensures Cong(v, FMul(x', y'))
  {
    CongMul(x, x', y, y');
    CongMod(x' * y');
  }

  /** Bit t of a little-endian number is bit t % 8 of byte t / 8. */
  lemma {:induction false} BitOfBytes(s: seq<uint8>, t: nat)
    requires t / 8 < |s|
    ensures Bit(LittleEndian(s), t) == (s[t / 8] / Pow2(t % 8)) % 2
  {
    var rest := LittleEndian(s[1..]);
    if t < 8 {
      LowBit(s[0], rest, t);
    } else {
      BitOfBytes(s[1..], t - 8);
      assert s[1..][(t - 8) / 8] == s[t / 8];
      Pow2Add(8, t - 8);
      assert Pow2(8) == 0x100;
      ModUnique(s[0] + 0x100 * rest, rest, s[0], 0x100);
      DivDiv(s[0] + 0x100 * rest, 0x100, Pow2(t - 8));
    }
  }

  lemma DivDiv(x: int, a: int, b: int)
    requires a > 0 && b > 0
    ensures a * b > 0 && x / (a * b) == (x / a) / b
  {
    var q := (x / a) / b;
    var r := (x / a) % b;
    MulNonNegative(a, b - 1 - r);
    MulNonNegative(a, r);
    assert a * b == a * (b - 1 - r) + a * r + a;
    assert x == a * (b * q + r) + x % a;
    assert a * (b * q) == q * (a * b);
    assert a * (b * q + r) == a * (b * q) + a * r;
    ModUnique(x, q, a * r + x % a, a * b);
  }

  lemma LowBit(b: uint8, rest: int, t: nat)
    requires t < 8
    ensures ((b + 0x100 * rest) / Pow2(t)) % 2 == (b / Pow2(t)) % 2
  {
    Pow2Add(t, 8 - t);
    assert Pow2(8) == 0x100 && Pow2(8 - t) == 2 * Pow2(7 - t);
    LowPart(b, rest, Pow2(t), Pow2(7 - t));
  }

  lemma LowPart(b: int, rest: int, w: int, h: int)
    requires w > 0 && w * (2 * h) == 0x100
    ensures ((b + 0x100 * rest) / w) % 2 == (b / w) % 2
  {
    var m := h * rest;
    assert 0x100 * rest == (2 * m) * w by { assert (w * (2 * h)) * rest == (2 * m) * w; }
    ModUnique(b + 0x100 * rest, b / w + 2 * m, b % w, w);
    EvenAddend(b / w, m);
  }

  lemma EvenAddend(x: int, y: int)
    ensures (x + 2 * y) % 2 == x % 2
  {
  }

  /** A clamped scalar is a multiple of 8 between 2^254 and 2^255: bits 3 to 253 are kept. */
  lemma ClampedScalar(k: seq<uint8>)
    requires |k| == 32
    ensures LittleEndian(Clamp(k)) % 8 == 0
    ensures Pow2(254) <= LittleEndian(Clamp(k)) < Pow2(255)
    ensures LittleEndian(Clamp(k)) == Pow2(254) + LittleEndian(k) % Pow2(254) / 8 * 8
  {
    ScalarBounds(Clamp(k), 31);
    ClampedBits(k);
  }

  lemma ClampedBits(k: seq<uint8>)
    requires |k| == 32
    ensures LittleEndian(Clamp(k)) == Pow2(254) + LittleEndian(k) % Pow2(254) / 8 * 8
  {
    hide Pow2, LittleEndian, Clamp;
    var v, w := LittleEndian(k), Pow2(248);
    ClampedValue(k);
    TopByte(k, 31);
    ClampedSum(k[0], k[31], v, w);
    LowBits(k);
    PowersNear(w);
    ClearedBits(k[0], v, 64 * w, 8 * w);
  }

  lemma ClampedValue(k: seq<uint8>)
    requires |k| == 32
    ensures var low: int, high: int := k[0], k[31];
      LittleEndian(Clamp(k)) == LittleEndian(k) + (low / 8 * 8 - low) + (high % 64 + 64 - high) * Pow2(248)
  {
    hide LittleEndian;
    var first: uint8, top: uint8 := k[0] / 8 * 8, k[31] % 64 + 64;
    ReplaceByte(k, 0, first);
    ReplaceByte(k[0 := first], 31, top);
    assert Pow2(0) == 1;
  }

  lemma PowersNear(w: int)
    requires w == Pow2(248)
    ensures Pow2(254) == 64 * w
  {
    Pow2Add(6, 248);
    assert Pow2(6) == 64;
  }

  lemma LowBits(k: seq<uint8>)
    requires |k| > 0
    ensures LittleEndian(k) % 8 == k[0] % 8
  {
    ModUnique(LittleEndian(k), k[0] / 8 + 0x20 * LittleEndian(k[1..]), k[0] % 8, 8);
  }

  /** The top byte loses its two highest bits, and the lower of them is set. */
  lemma ClampedSum(first: uint8, top: uint8, v: int, w: int)
    requires w > 0 && top * w <= v < (top + 1) * w
    ensures v + (first / 8 * 8 - first) + (top % 64 + 64 - top) * w == 64 * w + v % (64 * w) - first % 8
  {
    assert (64 * (top / 64)) * w == (top / 64) * (64 * w);
    var r := v - (top / 64) * (64 * w);
    assert top * w == (64 * (top / 64)) * w + (top % 64) * w;
    MulNonNegative(top % 64, w);
    MulNonNegative(63 - top % 64, w);
    ModUnique(v, top / 64, r, 64 * w);
    assert (top % 64 + 64 - top) * w == 64 * w - (64 * (top / 64)) * w;
  }

  lemma ClearedBits(first: uint8, v: int, m: int, w: int)
    requires m == 8 * w > 0 && v % 8 == first % 8
    ensures v % m - first % 8 == v % m / 8 * 8
  {
    var q := v / m;
    assert q * m == 8 * (q * w);
    ModUnique(v % m, v / 8 - q * w, v % 8, 8);
  }

  lemma NextWeight(x: int, i: nat)
    ensures 0x100 * (x * Pow2(8 * i)) == x * Pow2(8 * i + 8)
  {
    var w := Pow2(8 * i);
    Pow2Add(8, 8 * i);
    assert Pow2(8) == 0x100;
    assert 0x100 * (x * w) == x * (0x100 * w);
  }

  /** The weight of a byte. */
  lemma {:induction false} ReplaceByte(s: seq<uint8>, i: nat, b: uint8)
    requires i < |s|
    ensures LittleEndian(s[i := b]) == LittleEndian(s) + (b - s[i]) * Pow2(8 * i)
    decreases i
  {
    var t := s[i := b];
    if i == 0 {
      assert t[1..] == s[1..];
    } else {
      hide Pow2;
      ReplaceByte(s[1..], i - 1, b);
      assert t[1..] == s[1..][i - 1 := b] && s[1..][i - 1] == s[i];
      NextWeight(b - s[i], i - 1);
      assert 8 * (i - 1) + 8 == 8 * i;
    }
  }

  lemma ScalarBounds(c: seq<uint8>, n: nat)
    requires 0 < n && |c| == n + 1 && c[0] % 8 == 0 && 64 <= c[n] < 128
    ensures LittleEndian(c) % 8 == 0
    ensures Pow2(6 + 8 * n) <= LittleEndian(c) < Pow2(7 + 8 * n)
  {
    TopByte(c, n);
    Pow2Add(6, 8 * n);
    Pow2Add(7, 8 * n);
    ScaledBounds(c[n], Pow2(8 * n));
    LowByte(c[0], LittleEndian(c[1..]));
  }

  lemma LowByte(b: int, rest: int)
    requires b % 8 == 0
    ensures (b + 0x100 * rest) % 8 == 0
  {
    ModUnique(b + 0x100 * rest, b / 8 + 0x20 * rest, 0, 8);
  }

  lemma ScaledBounds(top: int, w: int)
    requires 64 <= top < 128 && w > 0
    ensures Pow2(6) * w <= top * w && (top + 1) * w <= Pow2(7) * w
  {
    MulNonNegative(top - 64, w);
    MulNonNegative(127 - top, w);
    assert Pow2(6) == 64 && Pow2(7) == 128;
  }

  lemma {:induction false} TopByte(s: seq<uint8>, n: nat)
    requires |s| == n + 1
    ensures s[n] * Pow2(8 * n) <= LittleEndian(s) < (s[n] + 1) * Pow2(8 * n)
  {
    if n == 0 {
      assert s[1..] == [];
    } else {
      TopByte(s[1..], n - 1);
      Pow2Add(8, 8 * (n - 1));
      assert Pow2(8) == 0x100;
      var w := Pow2(8 * (n - 1));
      assert 0x100 * (s[n] * w) == s[n] * (0x100 * w);
      assert 0x100 * ((s[n] + 1) * w) == (s[n] + 1) * (0x100 * w);
    }
  }
}
