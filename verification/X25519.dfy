/** Curve25519 key agreement, after x25519.c, proved equal to the X25519 function of RFC 7748. */
module X25519 {
  import opened MachineInts
  import opened Arithmetic
  import opened Limbs
  import opened TwosComplement
  import opened FieldElement
  import opened Rfc7748

  // ---------------------------------------------------------------- exchange

  method CSwap(p: array<int64>, q: array<int64>, b: int)
    requires p.Length == q.Length == 16 && p != q && (b == 0 || b == 1)
    modifies p, q
    ensures p[..] == old(if b == 0 then p[..] else q[..])
    ensures q[..] == old(if b == 0 then q[..] else p[..])
  {
    var c: int64 := Not(b - 1);
    for i := 0 to 16
      invariant forall k :: 0 <= k < i ==> p[k] == old(if b == 0 then p[k] else q[k])
      invariant forall k :: 0 <= k < i ==> q[k] == old(if b == 0 then q[k] else p[k])
      invariant forall k :: i <= k < 16 ==> p[k] == old(p[k]) && q[k] == old(q[k])
    {
      XorFits(p[i], q[i]);
      AndMask(c, Xor(p[i], q[i]));
      MaskedExchange(p[i], q[i], c);
      var t: int64 := And(c, Xor(p[i], q[i]));
      p[i], q[i] := Xor(p[i], t), Xor(q[i], t);
    }
  }

  // ---------------------------------------------------------------- bytes to limbs and back

  function Pair(low: int, high: int): int {
    low + 0x100 * high
  }

  lemma {:induction false} LimbsOfBytes(n: seq<int>, s: seq<int>)
    requires |n| == 2 * |s|
    requires forall i :: 0 <= i < |s| ==> s[i] == Pair(n[2 * i], n[2 * i + 1])
    ensures Val(s) == LittleEndian(n)
    decreases |s|
  {
    if s != [] {
      var n2 := n[2..];
      forall i | 0 <= i < |s| - 1 ensures s[1..][i] == Pair(n2[2 * i], n2[2 * i + 1]) {
        assert s[i + 1] == Pair(n[2 * (i + 1)], n[2 * (i + 1) + 1]);
      }
      LimbsOfBytes(n2, s[1..]);
      assert n[1..][1..] == n2;
      assert s[0] == Pair(n[2 * 0], n[2 * 0 + 1]);
    }
  }

  method Unpack(o: array<int64>, n: array<uint8>)
    requires o.Length == 16 && n.Length == 32
    modifies o
    ensures Digits(o[..]) && Val(o[..]) == DecodeU(n[..])
  {
    for i := 0 to 16
      invariant forall k :: 0 <= k < i ==> o[k] == Pair(n[2 * k], n[2 * k + 1])
    {
      o[i] := Pair(n[2 * i], n[2 * i + 1]);
    }
    assert o[15] == Pair(n[2 * 15], n[2 * 15 + 1]);
    o[15] := o[15] % 0x8000;
    TopBit(n[30], n[31]);
    LimbsOfBytes(n[..][31 := n[31] % 0x80], o[..]);
  }

  lemma TopBit(x: uint8, y: uint8)
    ensures Pair(x, y) % 0x8000 == Pair(x, y % 0x80)
  {
  }

  lemma {:induction false} DigitsBound(s: seq<int>)
    requires forall i :: 0 <= i < |s| ==> 0 <= s[i] <= 0xffff
    ensures 0 <= Val(s) < Radix(|s|)
  {
    if s != [] { DigitsBound(s[1..]); }
  }

  /** The limbs of the prime. */
  ghost function PrimeLimb(i: int): int {
    if i == 0 then 0xffed else if i == 15 then 0x7fff else 0xffff
  }

  ghost function PrimeLimbs(n: nat): (s: seq<int>)
    ensures |s| == n
  {
    seq(n, i => PrimeLimb(i))
  }

  lemma {:induction false} PrimeLimbsLow(n: nat)
    requires 1 <= n <= 15
    ensures Val(PrimeLimbs(n)) == Radix(n) - 19
  {
    if n == 1 {
      assert PrimeLimbs(1) == [0xffed];
    } else {
      PrimeLimbsLow(n - 1);
      assert PrimeLimbs(n)[..n - 1] == PrimeLimbs(n - 1) && PrimeLimbs(n)[..n] == PrimeLimbs(n);
      ValTake(PrimeLimbs(n), n - 1);
    }
  }

  lemma PrimeLimbsValue()
    ensures Val(PrimeLimbs(16)) == P
  {
    hide Val;
    PrimeLimbsLow(15);
    var s := PrimeLimbs(16);
    assert s[..15] == PrimeLimbs(15) && s[..16] == s;
    ValTake(s, 15);
    Radix16();
  }

  /** m holds, below limb i, the digits of t - p, and in limb i - 1 also the pending borrow. */
  ghost predicate Borrowing(m: seq<int>, t: seq<int>, i: nat) {
    1 <= i <= 16 && |m| == |t| == 16
    && (forall k :: 0 <= k < i - 1 ==> 0 <= m[k] <= 0xffff)
    && -0x10000 <= m[i - 1] <= 0xffff
    && Val(m[..i]) == Val(t[..i]) - Val(PrimeLimbs(i))
  }

  lemma BorrowStep(m: seq<int>, t: seq<int>, i: nat, r: seq<int>)
    requires Borrowing(m, t, i) && i < 16 && |r| == 16
    requires forall k :: 0 <= k < i - 1 ==> r[k] == m[k]
    requires r[i - 1] == m[i - 1] % 0x10000
    requires r[i] == t[i] - PrimeLimb(i) - (m[i - 1] / 0x10000) % 2
    ensures Val(r[..i + 1]) == Val(t[..i + 1]) - Val(PrimeLimbs(i + 1))
  {
    var borrow := (m[i - 1] / 0x10000) % 2;
    assert m[i - 1] % 0x10000 == m[i - 1] + 0x10000 * borrow;
    ValTake(r, i);
    ValTake(t, i);
    assert PrimeLimbs(i + 1)[..i] == PrimeLimbs(i) && PrimeLimbs(i + 1)[..i + 1] == PrimeLimbs(i + 1);
    ValTake(PrimeLimbs(i + 1), i);
    assert r[..i] == m[..i][i - 1 := r[i - 1]];
    ValUpdate(m[..i], i - 1, r[i - 1]);
    assert (0x10000 * borrow) * Radix(i - 1) == Radix(i) * borrow;
    BorrowAlgebra(Radix(i), t[i], PrimeLimb(i), borrow);
  }

  lemma BorrowAlgebra(r: int, t: int, p: int, b: int)
    ensures r * (t - p - b) == r * t - r * p - r * b
  {
  }

  /** m := t - p, limb by limb; b tells whether that is negative. */
  method SubtractPrime(m: array<int64>, t: array<int64>) returns (b: int)
    requires m.Length == t.Length == 16 && m != t && Digits(t[..])
    modifies m
    ensures b == if Val(t[..]) < P then 1 else 0
    ensures b == 0 ==> Digits(m[..])
    ensures Val(m[..]) == Val(t[..]) - P
  {
    SubtractLimbs(m, t);
    b := (m[15] / 0x10000) % 2;
    SignedDifference(m[..], t[..]);
  }

  method SubtractLimbs(m: array<int64>, t: array<int64>)
    requires m.Length == t.Length == 16 && m != t && Digits(t[..])
    modifies m
    ensures Borrowing(m[..], t[..], 16) && -0x8000 <= m[15] <= 0x8000
  {
    m[0] := t[0] - 0xffed;
    assert m[..][..1] == [m[0]] && t[..][..1] == [t[0]] && PrimeLimbs(1) == [0xffed];
    for i := 1 to 15
      invariant Borrowing(m[..], t[..], i)
    {
      BorrowLimb(m, t, i);
    }
    BorrowLimb(m, t, 15);
  }

  lemma SignedDifference(m: seq<int>, t: seq<int>)
    requires Borrowing(m, t, 16)
    ensures Val(m) == Val(t) - P
    ensures Val(m) < 0 <==> m[15] < 0
  {
    PrimeLimbsValue();
    assert m[..16] == m && t[..16] == t;
    ValTake(m, 15);
    DigitsBound(m[..15]);
    TopLimbSign(Val(m[..15]), Radix(|m| - 1), m[15]);
  }

  lemma TopLimbSign(low: int, r: int, top: int)
    requires 0 <= low < r
    ensures low + r * top < 0 <==> top < 0
  {
    if top < 0 {
      MulNonNegative(r, -1 - top);
      assert r * top == -r - r * (-1 - top);
    } else {
      MulNonNegative(r, top);
    }
  }

  /** One iteration of the borrow loop. */
  method BorrowLimb(m: array<int64>, t: array<int64>, i: int)
    requires m.Length == t.Length == 16 && m != t && Digits(t[..])
    requires 1 <= i < 16 && Borrowing(m[..], t[..], i)
    modifies m
    ensures Borrowing(m[..], t[..], i + 1)
    ensures i == 15 ==> -0x8000 <= m[15] <= 0x8000
  {
    ghost var before: seq<int> := m[..];
    m[i] := t[i] - (if i == 15 then 0x7fff else 0xffff) - (m[i - 1] / 0x10000) % 2;
    m[i - 1] := m[i - 1] % 0x10000;
    BorrowStep(before, t[..], i, m[..]);
  }

  /** One conditional subtraction of the prime. */
  method ReduceOnce(m: array<int64>, t: array<int64>)
    requires m.Length == t.Length == 16 && m != t && Digits(t[..])
    modifies m, t
    ensures Digits(t[..])
    ensures Val(t[..]) == old(Val(t[..])) - if old(Val(t[..])) < P then 0 else P
  {
    var b := SubtractPrime(m, t);
    CSwap(t, m, 1 - b);
  }

  /** Two subtractions suffice below 2^256. */
  lemma TwoSubtractions(v: int, w: int)
    requires 0 <= v < 2 * P + 38 && Cong(v, w)
    ensures var v1 := v - (if v < P then 0 else P);
      v1 - (if v1 < P then 0 else P) == w % P
  {
    var v1 := v - (if v < P then 0 else P);
    var v2 := v1 - (if v1 < P then 0 else P);
    var k := CongToMultiple(v, w);
    ModUnique(w, w / P, w % P, P);
    ModUnique(v, (v - v2) / P, v2, P);
  }

  /** Writes the unique representative below the prime, least significant byte first. */
  method Pack(o: array<uint8>, n: array<int64>)
    requires o.Length == 32 && n.Length == 16 && Within(n[..], CARRY_LIMIT)
    modifies o
    ensures o[..] == ToBytes(Val(n[..]) % P, 32)
  {
    var m, t := new int64[16], new int64[16];
    CopyLimbs(t, n);
    assert n[..16] == n[..];
    CarryThrice(t);
    ReduceTwice(m, t, Val(n[..]));
    WriteBytes(o, t);
    ToBytesUnique(LittleEndian(o[..]), o[..]);
  }

  method ReduceTwice(m: array<int64>, t: array<int64>, ghost w: int)
    requires m.Length == t.Length == 16 && m != t && Digits(t[..]) && Cong(Val(t[..]), w)
    modifies m, t
    ensures Digits(t[..]) && Val(t[..]) == w % P
  {
    DigitsBound(t[..]);
    Radix16();
    TwoSubtractions(Val(t[..]), w);
    for j := 0 to 2
      invariant Digits(t[..])
      invariant j == 0 ==> Val(t[..]) == old(Val(t[..]))
      invariant var v := old(Val(t[..]));
        j == 1 ==> Val(t[..]) == v - if v < P then 0 else P
      invariant j == 2 ==> Val(t[..]) == w % P
    {
      ReduceOnce(m, t);
    }
  }

  method CarryThrice(t: array<int64>)
    requires t.Length == 16 && Within(t[..], CARRY_LIMIT)
    modifies t
    ensures Digits(t[..]) && Cong(Val(t[..]), old(Val(t[..])))
  {
    ghost var s: seq<int> := t[..];
    CarryTwice(s);
    CarryReduced(Carried(Carried(s)));
    CarryKeepsValue(s);
    CarryKeepsValue(Carried(s));
    CarryKeepsValue(Carried(Carried(s)));
    Carry(t);
    Carry(t);
    Carry(t);
  }

  method WriteBytes(o: array<uint8>, t: array<int64>)
    requires o.Length == 32 && t.Length == 16 && Digits(t[..])
    modifies o
    ensures LittleEndian(o[..]) == Val(t[..])
  {
    for i := 0 to 16
      invariant forall k :: 0 <= k < i ==> t[k] == Pair(o[2 * k], o[2 * k + 1])
    {
      assert 0 <= t[..][i] <= 0xffff;
      o[2 * i] := t[i] % 0x100;
      o[2 * i + 1] := t[i] / 0x100;
    }
    LimbsOfBytes(o[..], t[..]);
  }

  // ---------------------------------------------------------------- field operations

  /** The limbs stand for the field element v. */
  ghost predicate Rep(s: seq<int>, v: int) {
    Reduced(s) && Cong(Val(s), v)
  }

  ghost predicate RepLoose(s: seq<int>, v: int) {
    Loose(s) && Cong(Val(s), v)
  }

  method FieldAdd(o: array<int64>, a: array<int64>, b: array<int64>, ghost u: int, ghost v: int)
    requires o.Length == a.Length == b.Length == 16
    requires Rep(a[..], u) && Rep(b[..], v)
    modifies o
    ensures RepLoose(o[..], FAdd(u, v))
  {
    Add(o, a, b);
    FAddCong(Val(o[..]), old(Val(a[..])), u, old(Val(b[..])), v);
  }

  method FieldSub(o: array<int64>, a: array<int64>, b: array<int64>, ghost u: int, ghost v: int)
    requires o.Length == a.Length == b.Length == 16
    requires Rep(a[..], u) && Rep(b[..], v)
    modifies o
    ensures RepLoose(o[..], FSub(u, v))
  {
    Subtract(o, a, b);
    FSubCong(Val(o[..]), old(Val(a[..])), u, old(Val(b[..])), v);
  }

  method FieldMul(o: array<int64>, a: array<int64>, b: array<int64>, ghost u: int, ghost v: int)
    requires o.Length == a.Length == b.Length == 16
    requires RepLoose(a[..], u) && RepLoose(b[..], v)
    modifies o
    ensures Rep(o[..], FMul(u, v)) && RepLoose(o[..], FMul(u, v))
  {
    MultMod(o, a, b);
    FMulCong(Val(o[..]), old(Val(a[..])), u, old(Val(b[..])), v);
  }

  // ---------------------------------------------------------------- inversion

  /** The exponent reached after n rounds of square-and-multiply; rounds run from bit 253
      down to bit 0, and bits 4 and 2 of p - 2 are clear. */
  ghost function Exponent(n: nat): nat {
    if n == 0 then 1
    else 2 * Exponent(n - 1) + if n == 250 || n == 252 then 0 else 1
  }

  lemma {:induction false} ExponentOnes(n: nat)
    requires n < 250
    ensures Exponent(n) == Pow2(n + 1) - 1
  {
    if n > 0 { ExponentOnes(n - 1); }
  }

  lemma Pow2Of50()
    ensures Pow2(50) == 0x4_0000_0000_0000
  {
    assert Pow2(5) == 32;
    Pow2Add(5, 5);
    Pow2Add(10, 10);
    Pow2Add(20, 5);
    Pow2Add(25, 25);
  }

  lemma Pow2Of250(n: nat)
    requires n == 50
    ensures 32 * Pow2(5 * n) == P + 19
  {
    Pow2Of50();
    Pow2Add(n, n);
    Pow2Add(2 * n, 2 * n);
    Pow2Add(4 * n, n);
  }

  /** 254 rounds reach the exponent p - 2. */
  lemma ExponentFinal(n: nat)
    requires n == 249
    ensures Exponent(n + 5) == P - 2
  {
    ExponentOnes(n);
    Pow2Of250(50);
    assert Pow2(n + 1) == Pow2(5 * 50);
    assert Exponent(n + 1) == 2 * Exponent(n);
    assert Exponent(n + 2) == 2 * Exponent(n + 1) + 1;
    assert Exponent(n + 3) == 2 * Exponent(n + 2);
    assert Exponent(n + 4) == 2 * Exponent(n + 3) + 1;
  }

  lemma SquareStep(v: int, u: int, x: int, e: nat)
    requires Cong(v, u * u) && Cong(u, Power(x, e))
    ensures Cong(v, Power(x, 2 * e))
  {
    CongMul(u, Power(x, e), u, Power(x, e));
    PowerAdd(x, e, e);
    assert e + e == 2 * e;
  }

  lemma MultiplyStep(v: int, u: int, x: int, e: nat)
    requires Cong(v, u * x) && Cong(u, Power(x, e))
    ensures Cong(v, Power(x, e + 1))
  {
    CongMul(u, Power(x, e), x, x);
    assert Power(x, e + 1) == x * Power(x, e);
  }

  method Invert(o: array<int64>, i: array<int64>, ghost z: int)
    requires o.Length == i.Length == 16 && Rep(i[..], z)
    modifies o
    ensures Rep(o[..], Power(z, P - 2))
  {
    var c := new int64[16];
    CopyLimbs(c, i);
    ghost var x := Val(i[..]);
    assert i[..16] == i[..] && Power(x, 1) == x * Power(x, 0);
    for n := 0 to 254
      invariant i[..] == old(i[..])
      invariant Rep(c[..], Power(x, Exponent(n)))
    {
      var a := 253 - n;
      Round(c, i, a, Exponent(n));
    }
    ExponentFinal(249);
    PowerCong(x, z, P - 2);
    CopyLimbs(o, c);
    assert c[..16] == c[..];
  }

  /** One round: square, and multiply unless the exponent bit is clear. */
  method Round(c: array<int64>, i: array<int64>, a: int, ghost e: nat)
    requires c.Length == i.Length == 16 && c != i && Reduced(i[..])
    requires Rep(c[..], Power(Val(i[..]), e))
    modifies c
    ensures Rep(c[..], Power(Val(i[..]), 2 * e + if a == 2 || a == 4 then 0 else 1))
  {
    ghost var x := Val(i[..]);
    ghost var u := Val(c[..]);
    MultMod(c, c, c);
    SquareStep(Val(c[..]), u, x, e);
    if a != 2 && a != 4 {
      u := Val(c[..]);
      MultMod(c, c, i);
      MultiplyStep(Val(c[..]), u, x, 2 * e);
    }
  }

  // ---------------------------------------------------------------- ladder

  lemma SquareSign(x: int, y: int)
    ensures FMul(FSub(x, y), FSub(x, y)) == FMul(FSub(y, x), FSub(y, x))
  {
    CongMod(x - y);
    CongMod(y - x);
    CongMul(x - y, FSub(x, y), x - y, FSub(x, y));
    CongMul(y - x, FSub(y, x), y - x, FSub(y, x));
    assert (x - y) * (x - y) == (y - x) * (y - x);
  }

  /** First half of an iteration: the four squares and products of sums and differences. */
  method LadderProducts(a: array<int64>, b: array<int64>, c: array<int64>, d: array<int64>,
                        e: array<int64>, f: array<int64>, ghost s: Ladder)
    requires a.Length == b.Length == c.Length == d.Length == e.Length == f.Length == 16
    requires a !in {b, c, d, e, f} && b !in {c, d, e, f} && c !in {d, e, f} && d !in {e, f} && e != f
    requires Rep(a[..], s.x2) && Rep(b[..], s.x3) && Rep(c[..], s.z2) && Rep(d[..], s.z3)
    modifies a, b, c, d, e, f
    ensures var A, B, C, D := FAdd(s.x2, s.z2), FSub(s.x2, s.z2), FAdd(s.x3, s.z3), FSub(s.x3, s.z3);
      Rep(d[..], FMul(A, A)) && Rep(f[..], FMul(B, B)) && Rep(a[..], FMul(C, B)) && Rep(c[..], FMul(D, A))
  {
    FieldAdd(e, a, c, s.x2, s.z2);
    FieldSub(a, a, c, s.x2, s.z2);
    FieldAdd(c, b, d, s.x3, s.z3);
    FieldSub(b, b, d, s.x3, s.z3);
    ghost var A, B, C, D := FAdd(s.x2, s.z2), FSub(s.x2, s.z2), FAdd(s.x3, s.z3), FSub(s.x3, s.z3);
    FieldMul(d, e, e, A, A);
    FieldMul(f, a, a, B, B);
    FieldMul(a, c, a, C, B);
    FieldMul(c, b, e, D, A);
  }

  /** Second half of an iteration: from AA, BB, CB, DA to the new coordinates. */
  method LadderCombine(a: array<int64>, b: array<int64>, c: array<int64>, d: array<int64>,
                       e: array<int64>, f: array<int64>, x: array<int64>, a24: array<int64>,
                       ghost AA: int, ghost BB: int, ghost CB: int, ghost DA: int, ghost x1: int)
    requires a.Length == b.Length == c.Length == d.Length == e.Length == f.Length == x.Length == a24.Length == 16
    requires a !in {b, c, d, e, f} && b !in {c, d, e, f} && c !in {d, e, f} && d !in {e, f} && e != f
    requires x !in {a, b, c, d, e, f} && a24 !in {a, b, c, d, e, f}
    requires Rep(d[..], AA) && Rep(f[..], BB) && Rep(a[..], CB) && Rep(c[..], DA)
    requires Rep(x[..], x1) && Rep(a24[..], A24)
    modifies a, b, c, d, e, f
    ensures var E, S, D := FSub(AA, BB), FAdd(CB, DA), FSub(CB, DA);
      Rep(a[..], FMul(AA, BB)) && Rep(b[..], FMul(S, S))
      && Rep(c[..], FMul(E, FAdd(FMul(E, A24), AA))) && Rep(d[..], FMul(FMul(D, D), x1))
  {
    ghost var E, S, D := FSub(AA, BB), FAdd(CB, DA), FSub(CB, DA);
    FieldAdd(e, a, c, CB, DA);
    FieldSub(a, a, c, CB, DA);
    FieldMul(b, a, a, D, D);
    FieldSub(c, d, f, AA, BB);
    FieldMul(a, c, a24, E, A24);
    FieldAdd(a, a, d, FMul(E, A24), AA);
    FieldMul(c, c, a, E, FAdd(FMul(E, A24), AA));
    FieldMul(a, d, f, AA, BB);
    FieldMul(d, b, x, FMul(D, D), x1);
    FieldMul(b, e, e, S, S);
  }

  /** The combination computes what the RFC's iteration does. */
  lemma CombineIsDouble(x1: int, s: Ladder)
    ensures var A, B, C, D := FAdd(s.x2, s.z2), FSub(s.x2, s.z2), FAdd(s.x3, s.z3), FSub(s.x3, s.z3);
      var AA, BB, CB, DA := FMul(A, A), FMul(B, B), FMul(C, B), FMul(D, A);
      var E, S, F := FSub(AA, BB), FAdd(CB, DA), FSub(CB, DA);
      Double(x1, s) == Ladder(FMul(AA, BB), FMul(E, FAdd(FMul(E, A24), AA)),
                              FMul(S, S), FMul(FMul(F, F), x1), s.swap)
  {
    var A, B, C, D := FAdd(s.x2, s.z2), FSub(s.x2, s.z2), FAdd(s.x3, s.z3), FSub(s.x3, s.z3);
    var AA, BB, CB, DA := FMul(A, A), FMul(B, B), FMul(C, B), FMul(D, A);
    var E, F := FSub(AA, BB), FSub(CB, DA);
    SquareSign(CB, DA);
    FMulCommutes(A24, E);
    FMulCommutes(x1, FMul(F, F));
  }

  lemma FMulCommutes(x: int, y: int)
    ensures FMul(x, y) == FMul(y, x)
  {
    assert x * y == y * x;
  }

  /** The four coordinate arrays stand for the ladder state s. */
  ghost predicate Coordinates(a: seq<int>, b: seq<int>, c: seq<int>, d: seq<int>, s: Ladder) {
    Rep(a, s.x2) && Rep(b, s.x3) && Rep(c, s.z2) && Rep(d, s.z3)
  }

  /** One iteration between its two exchanges. */
  method LadderDouble(a: array<int64>, b: array<int64>, c: array<int64>, d: array<int64>,
                      e: array<int64>, f: array<int64>, x: array<int64>, a24: array<int64>,
                      ghost x1: int, ghost s: Ladder)
    requires a.Length == b.Length == c.Length == d.Length == e.Length == f.Length == x.Length == a24.Length == 16
    requires a !in {b, c, d, e, f} && b !in {c, d, e, f} && c !in {d, e, f} && d !in {e, f} && e != f
    requires x !in {a, b, c, d, e, f} && a24 !in {a, b, c, d, e, f}
    requires Coordinates(a[..], b[..], c[..], d[..], s)
    requires Rep(x[..], x1) && Rep(a24[..], A24)
    modifies a, b, c, d, e, f
    ensures Coordinates(a[..], b[..], c[..], d[..], Double(x1, s))
  {
    LadderProducts(a, b, c, d, e, f, s);
    ghost var A, B, C, D := FAdd(s.x2, s.z2), FSub(s.x2, s.z2), FAdd(s.x3, s.z3), FSub(s.x3, s.z3);
    LadderCombine(a, b, c, d, e, f, x, a24, FMul(A, A), FMul(B, B), FMul(C, B), FMul(D, A), x1);
    CombineIsDouble(x1, s);
  }

  /** One iteration.  The source exchanges before and after; the RFC delays the second
      exchange to the next iteration, so its state is the source's after the pending one. */
  method LadderIterate(a: array<int64>, b: array<int64>, c: array<int64>, d: array<int64>,
                       e: array<int64>, f: array<int64>, x: array<int64>, a24: array<int64>,
                       r: int, ghost x1: int, ghost s: Ladder)
    requires a.Length == b.Length == c.Length == d.Length == e.Length == f.Length == x.Length == a24.Length == 16
    requires a !in {b, c, d, e, f} && b !in {c, d, e, f} && c !in {d, e, f} && d !in {e, f} && e != f
    requires x !in {a, b, c, d, e, f} && a24 !in {a, b, c, d, e, f}
    requires (r == 0 || r == 1) && (s.swap == 0 || s.swap == 1)
    requires Coordinates(a[..], b[..], c[..], d[..], s.Exchanged(s.swap))
    requires Rep(x[..], x1) && Rep(a24[..], A24)
    modifies a, b, c, d, e, f
    ensures var t := Iterate(x1, r, s);
      t.swap == r && Coordinates(a[..], b[..], c[..], d[..], t.Exchanged(r))
  {
    ghost var s0 := s.Exchanged((s.swap + r) % 2);
    CSwap(a, b, r);
    CSwap(c, d, r);
    LadderDouble(a, b, c, d, e, f, x, a24, x1, s0);
    CSwap(a, b, r);
    CSwap(c, d, r);
  }

  // ---------------------------------------------------------------- key agreement

  /** The limbs of a small constant. */
  method Constant(low: int64, high: int64) returns (o: array<int64>)
    requires 0 <= low <= 0xffff && 0 <= high <= 0xffff
    ensures fresh(o) && o.Length == 16 && Rep(o[..], low + 0x10000 * high)
  {
    o := new int64[16](_ => 0);
    ValZero(o[..]);
    ghost var zero: seq<int> := o[..];
    o[0] := low;
    o[1] := high;
    assert o[..] == zero[0 := low][1 := high];
    ValUpdate(zero, 0, low);
    ValUpdate(zero[0 := low], 1, high);
    assert Radix(0) == 1 && Radix(1) == 0x10000;
  }

  /** The masks as arithmetic. */
  lemma ClampBytes(low: uint8, high: uint8)
    ensures And(low, 248) == low / 8 * 8
    ensures 0 <= And(high, 127) && Or(And(high, 127), 64) == high % 64 + 64
  {
    hide And, Or;
    PowersToSeven();
    AndShifted(low, 31, 3);
    AndOnes(low / 8, 5);
    ModSmall(low / 8, 32);
    AndOnes(high, 7);
    OrBit(high % 128, 6);
    ModUnique(high % 128, high % 128 / 64, high % 64, 64);
  }

  lemma PowersToSeven()
    ensures Pow2(3) == 8 && Pow2(5) == 32 && Pow2(6) == 64 && Pow2(7) == 128
  {
  }

  method ClampedCopy(priv: array<uint8>) returns (z: array<uint8>)
    requires priv.Length == 32
    ensures fresh(z) && z.Length == 32 && z[..] == Clamp(priv[..])
  {
    z := new uint8[32];
    forall k | 0 <= k < 32 { z[k] := priv[k]; }
    ClampBytes(priv[0], priv[31]);
    z[31] := Or(And(z[31], 127), 64);
    z[0] := And(z[0], 248);
  }

  /** 2^n by repeated doubling, the divisor of a right shift by n. */
  function ShiftDivisor(n: nat): (r: int)
    ensures r > 0 && r == Pow2(n)
  {
    if n == 0 then 1 else 2 * ShiftDivisor(n - 1)
  }

  /** The ladder over the bits of z, from bit 254 down to bit 0. */
  method LadderLoop(a: array<int64>, b: array<int64>, c: array<int64>, d: array<int64>,
                    e: array<int64>, f: array<int64>, x: array<int64>, a24: array<int64>,
                    z: array<uint8>, ghost u: int)
    requires a.Length == b.Length == c.Length == d.Length == e.Length == f.Length == x.Length == a24.Length == 16
    requires a !in {b, c, d, e, f} && b !in {c, d, e, f} && c !in {d, e, f} && d !in {e, f} && e != f
    requires x !in {a, b, c, d, e, f} && a24 !in {a, b, c, d, e, f}
    requires z.Length == 32
    requires Coordinates(a[..], b[..], c[..], d[..], Ladder(1, 0, u, 1, 0))
    requires Rep(x[..], u) && Rep(a24[..], A24)
    modifies a, b, c, d, e, f
    ensures var s := Run(LittleEndian(z[..]), u, 0);
      Coordinates(a[..], b[..], c[..], d[..], s.Exchanged(s.swap))
  {
    ghost var k := LittleEndian(z[..]);
    for i := 255 downto 0
      invariant Run(k, u, i).swap == 0 || Run(k, u, i).swap == 1
      invariant Coordinates(a[..], b[..], c[..], d[..], Run(k, u, i).Exchanged(Run(k, u, i).swap))
    {
      var r := (z[i / 8] / ShiftDivisor(i % 8)) % 2;
      BitOfBytes(z[..], i);
      LadderIterate(a, b, c, d, e, f, x, a24, r, u, Run(k, u, i + 1));
    }
  }

  method RunLadder(z: array<uint8>, x: array<int64>, ghost u: int)
      returns (a: array<int64>, c: array<int64>)
    requires z.Length == 32 && x.Length == 16 && Digits(x[..]) && Val(x[..]) == u
    ensures fresh(a) && fresh(c) && a != c && a.Length == c.Length == 16
    ensures var s := Run(LittleEndian(z[..]), u, 0);
      Rep(a[..], s.Exchanged(s.swap).x2) && Rep(c[..], s.Exchanged(s.swap).z2)
  {
    var a24 := Constant(0xdb41, 1);
    a := Constant(1, 0);
    c := Constant(0, 0);
    var d := Constant(1, 0);
    var b, e, f := new int64[16], new int64[16], new int64[16];
    CopyLimbs(b, x);
    assert x[..16] == x[..];
    LadderLoop(a, b, c, d, e, f, x, a24, z, u);
  }

  method SharedSecret(secret: array<uint8>, priv: array<uint8>, pub: array<uint8>)
    requires secret.Length == priv.Length == pub.Length == 32
    modifies secret
    ensures secret[..] == Rfc7748.X25519(old(priv[..]), old(pub[..]))
  {
    var z := ClampedCopy(priv);
    var x := new int64[16];
    Unpack(x, pub);
    ghost var u := DecodeU(pub[..]);
    var a, c := RunLadder(z, x, u);
    ghost var s := Run(LittleEndian(z[..]), u, 0);
    ghost var t := s.Exchanged(s.swap);
    Invert(c, c, t.z2);
    FieldMul(a, a, c, t.x2, Power(t.z2, P - 2));
    FieldRange(Val(a[..]), t.x2 * Power(t.z2, P - 2));
    Pack(secret, a);
  }

  lemma FieldRange(v: int, w: int)
    requires Cong(v, w % P)
    ensures v % P == w % P
  {
    CongMod(w);
  }

  /** The public key of a private key: the shared secret with the base point 9. */
  method DerivePublicKey(pub: array<uint8>, priv: array<uint8>)
    requires pub.Length == priv.Length == 32
    modifies pub
    ensures pub[..] == Rfc7748.X25519(old(priv[..]), seq(32, i => if i == 0 then 9 else 0))
  {
    var basepoint := new uint8[32](i => if i == 0 then 9 else 0);
    assert basepoint[..] == seq(32, i => if i == 0 then 9 else 0);
    SharedSecret(pub, priv, basepoint);
  }
}
