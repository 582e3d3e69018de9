/** Numbers in radix 2^16, and the prime field of Curve25519. */
module Limbs {
  import opened Arithmetic

  // 2^255 - 19
  const P: int := 0x7fff_ffff_ffff_ffff_ffff_ffff_ffff_ffff_ffff_ffff_ffff_ffff_ffff_ffff_ffff_ffed

  ghost function Radix(i: nat): (r: int)
    ensures r > 0
  {
    if i == 0 then 1 else 0x10000 * Radix(i - 1)
  }

  /** The value of a limb vector, least significant limb first. */
  ghost function Val(s: seq<int>): int {
    if s == [] then 0 else s[0] + 0x10000 * Val(s[1..])
  }

  ghost predicate Cong(a: int, b: int) {
    a % P == b % P
  }

  // ---------------------------------------------------------------- radix

  lemma {:induction false} RadixAdd(i: nat, j: nat)
    ensures Radix(i + j) == Radix(i) * Radix(j)
  {
    if i == 0 {
    } else {
      RadixAdd(i - 1, j);
      assert Radix(i + j) == 0x10000 * Radix(i - 1 + j);
      assert 0x10000 * (Radix(i - 1) * Radix(j)) == (0x10000 * Radix(i - 1)) * Radix(j);
    }
  }

  lemma Radix16()
    ensures Radix(16) == 2 * P + 38
  {
    assert Radix(2) == 0x1_0000_0000;
    RadixAdd(2, 2);
    assert Radix(4) == 0x1_0000_0000_0000_0000;
    RadixAdd(4, 4);
    assert Radix(8) == 0x1_0000_0000_0000_0000_0000_0000_0000_0000;
    RadixAdd(8, 8);
  }

  // ---------------------------------------------------------------- values

  lemma {:induction false} ValUpdate(s: seq<int>, i: nat, v: int)
    requires i < |s|
    ensures Val(s[i := v]) == Val(s) + (v - s[i]) * Radix(i)
  {
    if i == 0 {
      assert s[i := v][1..] == s[1..];
    } else {
      assert s[i := v][1..] == s[1..][i - 1 := v];
      ValUpdate(s[1..], i - 1, v);
      assert 0x10000 * ((v - s[i]) * Radix(i - 1)) == (v - s[i]) * (0x10000 * Radix(i - 1));
    }
  }

  lemma {:induction false} ValConcat(s: seq<int>, t: seq<int>)
    ensures Val(s + t) == Val(s) + Radix(|s|) * Val(t)
  {
    if s == [] {
      assert s + t == t;
    } else {
      assert (s + t)[1..] == s[1..] + t;
      ValConcat(s[1..], t);
      assert 0x10000 * (Radix(|s| - 1) * Val(t)) == Radix(|s|) * Val(t);
    }
  }

  lemma ValTake(s: seq<int>, i: nat)
    requires i < |s|
    ensures Val(s[..i + 1]) == Val(s[..i]) + Radix(i) * s[i]
  {
    assert s[..i + 1] == s[..i] + [s[i]];
    ValConcat(s[..i], [s[i]]);
  }

  lemma {:induction false} ValZero(s: seq<int>)
    requires forall i :: 0 <= i < |s| ==> s[i] == 0
    ensures Val(s) == 0
  {
    if s != [] { ValZero(s[1..]); }
  }

  lemma {:induction false} ValLinear(s: seq<int>, t: seq<int>, k: int, r: seq<int>)
    requires |r| == |s| == |t|
    requires forall i :: 0 <= i < |s| ==> r[i] == s[i] + k * t[i]
    ensures Val(r) == Val(s) + k * Val(t)
  {
    if s != [] {
      ValLinear(s[1..], t[1..], k, r[1..]);
      assert k * (t[0] + 0x10000 * Val(t[1..])) == k * t[0] + 0x10000 * (k * Val(t[1..]));
    }
  }

  // ---------------------------------------------------------------- congruence

  lemma CongFromMultiple(a: int, b: int, k: int)
    requires a == b + k * P
    ensures Cong(a, b)
  {
    assert a == (k + b / P) * P + b % P;
    ModUnique(a, k + b / P, b % P, P);
  }

  lemma CongToMultiple(a: int, b: int) returns (k: int)
    requires Cong(a, b)
    ensures a == b + k * P
  {
    k := a / P - b / P;
  }

  lemma CongAdd(a: int, a': int, b: int, b': int)
    requires Cong(a, a') && Cong(b, b')
    ensures Cong(a + b, a' + b') && Cong(a - b, a' - b')
  {
    var k := CongToMultiple(a, a');
    var l := CongToMultiple(b, b');
    CongFromMultiple(a + b, a' + b', k + l);
    CongFromMultiple(a - b, a' - b', k - l);
  }

  lemma CongMul(a: int, a': int, b: int, b': int)
    requires Cong(a, a') && Cong(b, b')
    ensures Cong(a * b, a' * b')
  {
    var k := CongToMultiple(a, a');
    var l := CongToMultiple(b, b');
    var n := k * b' + a' * l + k * l * P;
    assert (a' + k * P) * (b' + l * P) == a' * b' + n * P;
    CongFromMultiple(a * b, a' * b', n);
  }
}
