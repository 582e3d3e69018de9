/** Facts about products, quotients and remainders. */
module Arithmetic {
  lemma MulNonNegative(x: int, y: int)
    requires x >= 0 && y >= 0
    ensures x * y >= 0
  {
  }

  lemma NonzeroMultiple(d: int, m: int)
    requires m > 0 && d != 0
    ensures d * m >= m || d * m <= -m
  {
    if d > 0 {
      MulNonNegative(d - 1, m);
      assert d * m == m + (d - 1) * m;
    } else {
      MulNonNegative(-1 - d, m);
      assert d * m == -m - (-1 - d) * m;
    }
  }

  lemma ModUnique(x: int, q: int, r: int, m: int)
    requires m > 0 && 0 <= r < m && x == q * m + r
    ensures x / m == q && x % m == r
  {
    var d := q - x / m;
    assert d * m == q * m - (x / m) * m;
    assert d * m == x % m - r;
    if d != 0 { NonzeroMultiple(d, m); }
  }

  lemma ModShift(k: int, m: int)
    requires m > 0
    ensures (k + m) % m == k % m
  {
    ModUnique(k + m, k / m + 1, k % m, m);
  }

  lemma ModSmall(k: int, m: int)
    requires 0 <= k < m
    ensures k % m == k && k / m == 0
  {
    ModUnique(k, 0, k, m);
  }

  lemma NextMultiple(k: nat, b: nat)
    ensures (k + 1) * b == k * b + b
  {
  }

  lemma ModDiv(y: nat, a: int, b: int)
    requires a > 0 && b > 0
    ensures a * b > 0 && (y % (a * b)) / a == y / a % b
  {
    var q := y / a;
    assert (q / b) * (a * b) == ((q / b) * b) * a;
    MulNonNegative(a, b - 1 - q % b);
    MulNonNegative(a, q % b);
    assert a * b == a * (b - 1 - q % b) + a * (q % b) + a;
    ModUnique(y, q / b, (q % b) * a + y % a, a * b);
    ModUnique((q % b) * a + y % a, q % b, y % a, a);
  }

  lemma DivShift(y: nat, a: int, b: int)
    requires a > 0 && b > 0
    ensures a * b > 0 && (y * a) / (b * a) == y / b
  {
    var q, r := y / b, y % b;
    assert y * a == (q * b + r) * a == q * (b * a) + r * a;
    MulNonNegative(b - 1 - r, a);
    MulNonNegative(r, a);
    assert b * a == (b - 1 - r) * a + r * a + a;
    ModUnique(y * a, q, r * a, b * a);
  }
}
