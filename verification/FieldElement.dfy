/** Field elements of Curve25519 as sixteen signed 64-bit limbs, after x25519.c. */
module FieldElement {
  import opened MachineInts
  import opened Arithmetic
  import opened Limbs

  /** The range a multiplication leaves its limbs in. */
  ghost predicate Reduced(s: seq<int>) {
    |s| == 16 && -38 <= s[0] <= 65573 && forall i :: 1 <= i < 16 ==> 0 <= s[i] <= 0xffff
  }

  /** The range a multiplication accepts: one addition or subtraction of reduced limbs. */
  ghost predicate Loose(s: seq<int>) {
    |s| == 16 && forall i :: 0 <= i < 16 ==> -131146 <= s[i] <= 131146
  }

  /** Every limb a 16-bit digit. */
  ghost predicate Digits(s: seq<int>) {
    |s| == 16 && forall i :: 0 <= i < 16 ==> 0 <= s[i] <= 0xffff
  }

  ghost predicate Within(s: seq<int>, m: int) {
    forall i :: 0 <= i < |s| ==> -m <= s[i] <= m
  }

  const CARRY_LIMIT: int := 0x4000_0000_0000_0000

  // ---------------------------------------------------------------- carry

  /** What leaves the top limb of s when carries ripple upwards from limb 0. */
  ghost function CarryOut(s: seq<int>): int {
    if s == [] then 0 else (s[|s| - 1] + CarryOut(s[..|s| - 1])) / 0x10000
  }

  /** What stays in limb i. */
  ghost function Digit(s: seq<int>, i: nat): (r: int)
    requires i < |s|
    ensures 0 <= r <= 0xffff
  {
    assert s[..i + 1][..i] == s[..i];
    s[i] + CarryOut(s[..i]) - 0x10000 * CarryOut(s[..i + 1])
  }

  ghost function DigitsOf(s: seq<int>): (d: seq<int>)
    ensures |d| == |s|
    ensures forall i :: 0 <= i < |s| ==> d[i] == Digit(s, i)
  {
    seq(|s|, i requires 0 <= i < |s| => Digit(s, i))
  }

  /** All limbs after one carry pass: the carry out of limb 15 has weight 2^256, which
      is 38 modulo the prime, and returns to limb 0. */
  ghost function Carried(s: seq<int>): (r: seq<int>)
    requires |s| == 16
    ensures |r| == 16
  {
    var d := DigitsOf(s);
    d[0 := d[0] + 38 * CarryOut(s)]
  }

  lemma {:induction false} CarryOutBound(s: seq<int>, m: int)
    requires 0 <= m && Within(s, m)
    ensures -(m + 0x10000) <= 0xffff * CarryOut(s) <= m + 0x10000
  {
    if s != [] { CarryOutBound(s[..|s| - 1], m); }
  }

  /** The limbs half way: limbs below i are digits and limb i holds its carry. */
  ghost function Partial(s: seq<int>, i: nat): (r: seq<int>)
    requires |s| == 16 && i < 16
    ensures |r| == 16
  {
    DigitsOf(s)[..i] + [s[i] + CarryOut(s[..i])] + s[i + 1..]
  }

  /** Moving q units of limb i + 1 out of limb i keeps the value. */
  lemma MoveUp(s: seq<int>, i: nat, q: int)
    requires i + 1 < |s|
    ensures Val(s[i := s[i] - 0x10000 * q][i + 1 := s[i + 1] + q]) == Val(s)
  {
    var s1 := s[i := s[i] - 0x10000 * q];
    ValUpdate(s, i, s[i] - 0x10000 * q);
    ValUpdate(s1, i + 1, s[i + 1] + q);
    assert q * (0x10000 * Radix(i)) == 0x10000 * q * Radix(i);
  }

  lemma {:induction false} PartialValue(s: seq<int>, i: nat)
    requires |s| == 16 && i < 16
    ensures Val(Partial(s, i)) == Val(s)
  {
    if i == 0 {
      assert Partial(s, 0) == s;
    } else {
      PartialValue(s, i - 1);
      var p := Partial(s, i - 1);
      var q := CarryOut(s[..i]);
      assert s[..i][..i - 1] == s[..i - 1];
      MoveUp(p, i - 1, q);
      assert p[i - 1 := p[i - 1] - 0x10000 * q][i := p[i] + q] == Partial(s, i);
    }
  }

  /** Moving q units of 2^256 out of limb 15 and 38 q units into limb 0 keeps the value
      modulo the prime. */
  lemma WrapAround(s: seq<int>, q: int)
    requires |s| == 16
    ensures Cong(Val(s[15 := s[15] - 0x10000 * q][0 := s[0] + 38 * q]), Val(s))
  {
    var s1 := s[15 := s[15] - 0x10000 * q];
    var s2 := s1[0 := s[0] + 38 * q];
    ValUpdate(s, 15, s[15] - 0x10000 * q);
    ValUpdate(s1, 0, s[0] + 38 * q);
    Radix16();
    var r := Radix(15);
    assert 0x10000 * r == 2 * P + 38;
    assert (-0x10000 * q) * r == -q * (0x10000 * r);
    CongFromMultiple(Val(s2), Val(s), -2 * q);
  }

  /** A carry pass keeps the value modulo the prime. */
  lemma CarryKeepsValue(s: seq<int>)
    requires |s| == 16
    ensures Cong(Val(Carried(s)), Val(s))
  {
    var p, q := PartialToCarried(s);
    PartialValue(s, 15);
    WrapAround(p, q);
  }

  lemma PartialToCarried(s: seq<int>) returns (p: seq<int>, q: int)
    requires |s| == 16
    ensures p == Partial(s, 15)
    ensures p[15 := p[15] - 0x10000 * q][0 := p[0] + 38 * q] == Carried(s)
  {
    p, q := Partial(s, 15), CarryOut(s);
    var d := DigitsOf(s);
    assert s[..16] == s && s[16..] == [];
    assert d[15] == Digit(s, 15);
    LastLimb(d, q, p);
  }

  lemma LastLimb(d: seq<int>, q: int, p: seq<int>)
    requires |d| == 16 && p == d[..15] + [d[15] + 0x10000 * q]
    ensures p[15 := p[15] - 0x10000 * q][0 := p[0] + 38 * q] == d[0 := d[0] + 38 * q]
  {
    assert p[15 := p[15] - 0x10000 * q] == d;
  }

  /** One pass leaves digits everywhere but in limb 0, which keeps a bounded excess. */
  lemma CarryOnce(s: seq<int>, m: int)
    requires |s| == 16 && 0 <= m && Within(s, m)
    ensures var r := Carried(s);
      (forall i :: 1 <= i < 16 ==> 0 <= r[i] <= 0xffff)
      && -38 * (m + 0x10000) <= 0xffff * r[0] <= 0xffff * 0xffff + 38 * (m + 0x10000)
  {
    CarryOutBound(s, m);
  }

  lemma {:induction false} CarryOutSettles(s: seq<int>)
    requires 4 <= |s|
    requires forall k :: 1 <= k < |s| ==> 0 <= s[k] <= 0xffff
    requires -0x10_0000_0000_0000 <= s[0] <= 0x10_0000_0000_0000
    ensures -1 <= CarryOut(s) <= 1
  {
    if |s| == 4 {
      assert s[..3][..2] == s[..2] && s[..2][..1] == s[..1] && s[..1][..0] == [];
      assert -0x10_0000_0000 <= CarryOut(s[..1]) <= 0x10_0000_0000;
      assert -0x10_0001 <= CarryOut(s[..2]) <= 0x10_0001;
      assert -18 <= CarryOut(s[..3]) <= 18;
    } else {
      CarryOutSettles(s[..|s| - 1]);
    }
  }

  /** Two passes reduce anything the products can leave. */
  lemma CarryTwice(s: seq<int>)
    requires |s| == 16 && Within(s, CARRY_LIMIT)
    ensures Within(Carried(s), CARRY_LIMIT)
    ensures Reduced(Carried(Carried(s)))
  {
    CarryOnce(s, CARRY_LIMIT);
    CarryOutSettles(Carried(s));
  }

  /** A carry out of reduced limbs has rippled all the way from limb 0. */
  lemma {:induction false} RippleUp(s: seq<int>)
    requires s != [] && -38 <= s[0] <= 65573
    requires forall k :: 1 <= k < |s| ==> 0 <= s[k] <= 0xffff
    ensures -1 <= CarryOut(s) <= 1
    ensures CarryOut(s) == -1 ==> s[0] < 0
    ensures CarryOut(s) == 1 ==> s[0] > 0xffff
  {
    if |s| > 1 {
      RippleUp(s[..|s| - 1]);
    } else {
      assert s[..0] == [];
    }
  }

  /** A third pass brings reduced limbs to digits. */
  lemma CarryReduced(s: seq<int>)
    requires Reduced(s)
    ensures Digits(Carried(s))
  {
    assert s[..0] == [];
    RippleUp(s);
  }

  lemma PartialStep(s: seq<int>, i: nat)
    requires |s| == 16 && i < 16
    ensures var p, q := Partial(s, i), CarryOut(s[..i + 1]);
      p[i] / 0x10000 == q && p[(i + 1) % 16] == (if i == 15 then Digit(s, 0) else s[i + 1])
      && p[(i + 1) % 16 := p[(i + 1) % 16] + (if i == 15 then 38 else 1) * q][i := p[i] % 0x10000]
         == (if i == 15 then Carried(s) else Partial(s, i + 1))
  {
    assert s[..i + 1][..i] == s[..i] && s[..16] == s;
  }

  method Carry(o: array<int64>)
    requires o.Length == 16 && Within(o[..], CARRY_LIMIT)
    modifies o
    ensures o[..] == Carried(old(o[..]))
  {
    ghost var s: seq<int> := o[..];
    assert Partial(s, 0) == s;
    for i := 0 to 16
      invariant i < 16 ==> o[..] == Partial(s, i)
      invariant i == 16 ==> o[..] == Carried(s)
    {
      CarryLimb(o, i, s);
    }
  }

  /** One iteration of the carry loop. */
  method CarryLimb(o: array<int64>, i: int, ghost s: seq<int>)
    requires 0 <= i < 16 == o.Length == |s| && Within(s, CARRY_LIMIT) && o[..] == Partial(s, i)
    modifies o
    ensures o[..] == if i == 15 then Carried(s) else Partial(s, i + 1)
  {
    ghost var p: seq<int> := o[..];
    PartialStep(s, i);
    CarryOutBound(s[..i + 1], CARRY_LIMIT);
    var j := (i + 1) % 16;
    var q: int64 := o[i] / 0x10000;
    var step: int64 := (if i == 15 then 38 else 1) * q;
    o[j] := o[j] + step;
    o[i] := o[i] % 0x10000;
    assert o[..] == p[j := p[j] + step][i := p[i] % 0x10000];
  }

  // ---------------------------------------------------------------- sum and difference

  method Add(o: array<int64>, a: array<int64>, b: array<int64>)
    requires o.Length == a.Length == b.Length == 16
    requires Reduced(a[..]) && Reduced(b[..])
    modifies o
    ensures Loose(o[..])
    ensures Val(o[..]) == Val(old(a[..])) + Val(old(b[..]))
  {
    ghost var x: seq<int>, y: seq<int> := a[..], b[..];
    for i := 0 to 16
      invariant forall k :: i <= k < 16 ==> a[k] == x[k] && b[k] == y[k]
      invariant forall k :: 0 <= k < i ==> o[k] == x[k] + y[k]
    {
      o[i] := a[i] + b[i];
    }
    ghost var z: seq<int> := o[..];
    ValLinear(x, y, 1, z);
  }

  method Subtract(o: array<int64>, a: array<int64>, b: array<int64>)
    requires o.Length == a.Length == b.Length == 16
    requires Reduced(a[..]) && Reduced(b[..])
    modifies o
    ensures Loose(o[..])
    ensures Val(o[..]) == Val(old(a[..])) - Val(old(b[..]))
  {
    ghost var x: seq<int>, y: seq<int> := a[..], b[..];
    for i := 0 to 16
      invariant forall k :: i <= k < 16 ==> a[k] == x[k] && b[k] == y[k]
      invariant forall k :: 0 <= k < i ==> o[k] == x[k] - y[k]
    {
      o[i] := a[i] - b[i];
    }
    ghost var z: seq<int> := o[..];
    ValLinear(x, y, -1, z);
  }

  // ---------------------------------------------------------------- product

  // 131146 * 131146
  const TERM: int := 17199273316

  lemma TermBound(x: int, y: int)
    requires -131146 <= x <= 131146 && -131146 <= y <= 131146
    ensures -TERM <= x * y <= TERM
  {
    var b := 131146;
    var a := if x >= 0 then x else -x;
    MulNonNegative(a, b - y);
    MulNonNegative(a, b + y);
    assert a * (b - y) == a * b - a * y && a * (b + y) == a * b + a * y;
    assert a * y == if x >= 0 then x * y else -(x * y);
  }

  /** One more product of limbs i and j in t[i + j]. */
  lemma ProductStep(t: seq<int>, a: seq<int>, b: seq<int>, i: nat, j: nat)
    requires |t| == 31 && |a| == |b| == 16 && i < 16 && j < 16
    requires Val(t) == Val(a[..i]) * Val(b) + a[i] * Radix(i) * Val(b[..j])
    ensures Val(t[i + j := t[i + j] + a[i] * b[j]])
         == Val(a[..i]) * Val(b) + a[i] * Radix(i) * Val(b[..j + 1])
  {
    ValUpdate(t, i + j, t[i + j] + a[i] * b[j]);
    RadixAdd(i, j);
    ValTake(b, j);
    Distribute(a[i], b[j], Radix(i), Radix(j), Val(b[..j]));
  }

  lemma Distribute(x: int, y: int, r: int, q: int, v: int)
    ensures x * r * (v + q * y) == x * r * v + (x * y) * (r * q)
  {
    assert x * r * (q * y) == (x * y) * (r * q);
  }

  lemma RowDone(a: seq<int>, b: seq<int>, i: nat)
    requires |a| == |b| == 16 && i < 16
    ensures Val(a[..i]) * Val(b) + a[i] * Radix(i) * Val(b[..16]) == Val(a[..i + 1]) * Val(b)
  {
    ValTake(a, i);
    assert b[..16] == b;
    var u, x, r, v := Val(a[..i]), a[i], Radix(i), Val(b);
    assert (u + r * x) * v == u * v + x * r * v by { assert (r * x) * v == x * r * v; }
  }

  /** Adds the products of limb i of a with all limbs of b. */
  method ProductRow(t: array<int64>, a: array<int64>, b: array<int64>, i: int)
    requires t.Length == 31 && a.Length == b.Length == 16 && t != a && t != b && 0 <= i < 16
    requires Loose(a[..]) && Loose(b[..]) && Within(t[..], i * TERM)
    requires Val(t[..]) == Val(a[..i]) * Val(b[..])
    modifies t
    ensures Within(t[..], (i + 1) * TERM)
    ensures Val(t[..]) == Val(a[..i + 1]) * Val(b[..])
  {
    ghost var x: seq<int>, y: seq<int> := a[..], b[..];
    assert a[..i] == x[..i];
    assert Val(y[..0]) == 0;
    for j := 0 to 16
      invariant Val(t[..]) == Val(x[..i]) * Val(y) + x[i] * Radix(i) * Val(y[..j])
      invariant forall k :: 0 <= k < 31 && !(i <= k < i + j) ==> -(i * TERM) <= t[k] <= i * TERM
      invariant forall k :: i <= k < i + j ==> -((i + 1) * TERM) <= t[k] <= (i + 1) * TERM
    {
      TermBound(a[i], b[j]);
      ProductStep(t[..], x, y, i, j);
      var term: int64 := a[i] * b[j];
      ghost var before: seq<int> := t[..];
      t[i + j] := t[i + j] + term;
      assert t[..] == before[i + j := before[i + j] + x[i] * y[j]];
    }
    RowDone(x, y, i);
    assert a[..i + 1] == x[..i + 1];
  }

  /** Folds limbs 16..30 onto limbs 0..14 with weight 38. */
  method Fold(t: array<int64>)
    requires t.Length == 31 && Within(t[..], 16 * TERM)
    modifies t
    ensures Within(t[..], 16 * 39 * TERM)
    ensures Cong(Val(t[..16]), Val(old(t[..])))
  {
    ghost var s: seq<int> := t[..];
    for i := 0 to 15
      invariant forall k :: i <= k < 31 ==> t[k] == s[k]
      invariant forall k :: 0 <= k < i ==> t[k] == s[k] + 38 * s[k + 16]
      invariant forall k :: 0 <= k < 31 ==> -(16 * 39 * TERM) <= t[k] <= 16 * 39 * TERM
    {
      assert -(16 * TERM) <= s[i] <= 16 * TERM && -(16 * TERM) <= s[i + 16] <= 16 * TERM;
      var high: int64 := 38 * t[i + 16];
      t[i] := t[i] + high;
    }
    ghost var r: seq<int> := t[..16];
    FoldedValue(s, r);
  }

  lemma FoldedValue(s: seq<int>, r: seq<int>)
    requires |s| == 31 && |r| == 16 && r[15] == s[15]
    requires forall k :: 0 <= k < 15 ==> r[k] == s[k] + 38 * s[k + 16]
    ensures Cong(Val(r), Val(s))
  {
    hide Val, Radix;
    var high := s[16..];
    ValLinear(s[..16], high + [0], 38, r);
    ValConcat(high, [0]);
    ValZero([0]);
    assert s == s[..16] + high;
    ValConcat(s[..16], high);
    Radix16();
    CongFromMultiple(Val(s), Val(r), 2 * Val(high));
  }

  method MultMod(o: array<int64>, a: array<int64>, b: array<int64>)
    requires o.Length == a.Length == b.Length == 16
    requires Loose(a[..]) && Loose(b[..])
    modifies o
    ensures Reduced(o[..])
    ensures Cong(Val(o[..]), Val(old(a[..])) * Val(old(b[..])))
  {
    var t := new int64[31](_ => 0);
    ValZero(t[..]);
    for i := 0 to 16
      invariant Within(t[..], i * TERM)
      invariant Val(t[..]) == Val(a[..i]) * Val(b[..])
      invariant a[..] == old(a[..]) && b[..] == old(b[..])
    {
      ProductRow(t, a, b, i);
    }
    assert a[..16] == a[..];
    Fold(t);
    CopyLimbs(o, t);
    ghost var s: seq<int> := o[..];
    CarryTwice(s);
    CarryKeepsValue(s);
    CarryKeepsValue(Carried(s));
    Carry(o);
    Carry(o);
  }

  /** memcpy of sixteen limbs. */
  method CopyLimbs(o: array<int64>, t: array<int64>)
    requires o.Length == 16 && 16 <= t.Length
    modifies o
    ensures o[..] == old(t[..16])
  {
    forall k | 0 <= k < 16 { o[k] := t[k]; }
  }
}
