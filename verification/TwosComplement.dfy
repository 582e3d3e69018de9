/** Bitwise operators on integers read as two's complement numbers of unbounded width:
    bit 0 is the parity, and the remaining bits are those of the floor of the half. */
module TwosComplement {
  import opened MachineInts
  import opened Arithmetic

  function Magnitude(x: int): nat {
    if x >= 0 then x else -1 - x
  }

  function Not(x: int): int {
    -1 - x
  }

  function And(x: int, y: int): int
    decreases Magnitude(x) + Magnitude(y)
  {
    if x == 0 || y == 0 then 0
    else if x == -1 && y == -1 then -1
    else 2 * And(x / 2, y / 2) + (x % 2) * (y % 2)
  }

  function Xor(x: int, y: int): int
    decreases Magnitude(x) + Magnitude(y)
  {
    if Magnitude(x) == 0 && Magnitude(y) == 0 then if x == y then 0 else -1
    else 2 * Xor(x / 2, y / 2) + (x + y) % 2
  }

  /** Of numbers that are not negative. */
  function Or(x: nat, y: nat): nat
    decreases x + y
  {
    if x == 0 && y == 0 then 0 else 2 * Or(x / 2, y / 2) + (if x % 2 == 0 then y % 2 else 1)
  }

  lemma {:induction false} AndMask(x: int, y: int)
    ensures And(0, y) == 0
    ensures And(-1, y) == y
    decreases Magnitude(y)
  {
    if Magnitude(y) != 0 { AndMask(x, y / 2); }
  }

  lemma XorStep(x: int, y: int)
    ensures Xor(x, y) == 2 * Xor(x / 2, y / 2) + (x + y) % 2
    ensures Xor(x, y) / 2 == Xor(x / 2, y / 2) && Xor(x, y) % 2 == (x + y) % 2
  {
  }

  lemma {:induction false} XorTwice(x: int, y: int)
    ensures Xor(x, Xor(x, y)) == y
    decreases Magnitude(x) + Magnitude(y)
  {
    if Magnitude(x) == 0 && Magnitude(y) == 0 {
    } else {
      XorTwice(x / 2, y / 2);
      XorStep(x, y);
      var z := Xor(x, y);
      XorStep(x, z);
      Parity(x, y, z);
    }
  }

  lemma Parity(x: int, y: int, z: int)
    requires z % 2 == (x + y) % 2
    ensures (x + z) % 2 == y % 2
  {
  }

  lemma {:induction false} XorCommutes(x: int, y: int)
    ensures Xor(x, y) == Xor(y, x)
    decreases Magnitude(x) + Magnitude(y)
  {
    if Magnitude(x) == 0 && Magnitude(y) == 0 {
    } else {
      XorCommutes(x / 2, y / 2);
      XorStep(x, y);
      XorStep(y, x);
    }
  }

  lemma {:induction false} XorZero(x: int)
    ensures Xor(x, 0) == x
    decreases Magnitude(x)
  {
    if Magnitude(x) != 0 { XorZero(x / 2); }
  }

  /** Neither operator leaves the range -2^n .. 2^n of its operands. */
  lemma {:induction false} XorRange(x: int, y: int, n: nat)
    requires Magnitude(x) < Pow2(n) && Magnitude(y) < Pow2(n)
    ensures Magnitude(Xor(x, y)) < Pow2(n)
    decreases n
  {
    if n > 0 {
      XorRange(x / 2, y / 2, n - 1);
      XorStep(x, y);
    }
  }

  ghost function Pow2(n: nat): (r: int)
    ensures r > 0
  {
    if n == 0 then 1 else 2 * Pow2(n - 1)
  }

  lemma {:induction false} Pow2Add(m: nat, n: nat)
    ensures Pow2(m + n) == Pow2(m) * Pow2(n)
  {
    if m > 0 {
      Pow2Add(m - 1, n);
      assert Pow2(m + n) == 2 * Pow2(m - 1 + n);
      assert 2 * (Pow2(m - 1) * Pow2(n)) == (2 * Pow2(m - 1)) * Pow2(n);
    }
  }

  lemma Pow2Of63()
    ensures Pow2(63) == 0x8000_0000_0000_0000
  {
    assert Pow2(7) == 128;
    Pow2Add(7, 7);
    Pow2Add(14, 14);
    Pow2Add(28, 28);
    Pow2Add(56, 7);
  }

  /** And with n ones keeps the remainder modulo 2^n. */
  lemma {:induction false} AndOnes(x: nat, n: nat)
    ensures And(x, Pow2(n) - 1) == x % Pow2(n)
    decreases n
  {
    if n > 0 {
      AndOnes(x / 2, n - 1);
      assert (Pow2(n) - 1) / 2 == Pow2(n - 1) - 1 && (Pow2(n) - 1) % 2 == 1;
      HalfRemainder(x, Pow2(n - 1));
    }
  }

  lemma HalfRemainder(x: nat, m: int)
    requires m > 0
    ensures x % (2 * m) == 2 * (x / 2 % m) + x % 2
  {
    var h := x / 2;
    assert h == (h / m) * m + h % m;
    assert (h / m) * (2 * m) == 2 * ((h / m) * m);
    ModUnique(x, h / m, 2 * (h % m) + x % 2, 2 * m);
  }

  /** And with ones above n zeros clears the n lowest bits. */
  lemma {:induction false} AndShifted(x: nat, y: nat, n: nat)
    ensures And(x, Pow2(n) * y) == Pow2(n) * And(x / Pow2(n), y)
    decreases n
  {
    hide And;
    if n > 0 {
      AndShifted(x / 2, y, n - 1);
      var m := Pow2(n - 1);
      MulNonNegative(m, y);
      EvenMask(x, m * y);
      DivTwice(x, m);
      TwiceProduct(m, y);
      TwiceProduct(m, And(x / (2 * m), y));
    }
  }

  lemma TwiceProduct(x: int, y: int)
    ensures (2 * x) * y == 2 * (x * y)
  {
  }

  lemma EvenMask(x: nat, y: nat)
    ensures And(x, 2 * y) == 2 * And(x / 2, y)
  {
  }

  lemma DivTwice(x: nat, m: int)
    requires m > 0
    ensures x / (2 * m) == x / 2 / m
  {
    var h := x / 2;
    assert (h / m) * (2 * m) == 2 * ((h / m) * m);
    ModUnique(x, h / m, 2 * (h % m) + x % 2, 2 * m);
  }

  /** Or with bit n sets it. */
  lemma {:induction false} OrBit(x: nat, n: nat)
    requires x < Pow2(n + 1)
    ensures Or(x, Pow2(n)) == Pow2(n) + x % Pow2(n)
    decreases n
  {
    if n == 0 {
      assert Or(0, 0) == 0;
    } else {
      OrBit(x / 2, n - 1);
      HalfRemainder(x, Pow2(n - 1));
    }
  }

  /** Exchanging through a mask: all ones exchanges, zero does not. */
  lemma MaskedExchange(p: int, q: int, c: int)
    requires c == 0 || c == -1
    ensures Xor(p, And(c, Xor(p, q))) == if c == 0 then p else q
    ensures Xor(q, And(c, Xor(p, q))) == if c == 0 then q else p
  {
    AndMask(0, Xor(p, q));
    XorTwice(p, q);
    XorCommutes(p, q);
    XorTwice(q, p);
    XorZero(p);
    XorZero(q);
  }

  lemma XorFits(p: int64, q: int64)
    ensures -0x8000_0000_0000_0000 <= Xor(p, q) < 0x8000_0000_0000_0000
  {
    Pow2Of63();
    XorRange(p, q, 63);
  }
}
