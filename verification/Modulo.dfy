/** Small arithmetic, mostly facts about remainders for a divisor the solver does not know. */
module Modulo {

  function Least(a: nat, b: nat): nat { if a < b then a else b }

  /** The whole number nearest to x; the greater one if x is in the middle of two. */
  predicate Nearest(n: int, x: real) { -0.5 < n as real - x <= 0.5 }

  lemma MulMonotone(a: int, b: int, m: nat)
    requires a <= b
    ensures a * m <= b * m
  {
  }

  lemma QuotientBelow(x: real, d: real, c: real)
    requires d > 0.0
    ensures x / d < c <==> x < c * d
  {
    var q := x / d;
    assert q * d == x;
    if q < c { assert (c - q) * d > 0.0; } else { assert (q - c) * d >= 0.0; }
  }

  lemma QuotientAtMost(x: real, d: real, c: real)
    requires d > 0.0
    ensures x / d <= c <==> x <= c * d
  {
    var q := x / d;
    assert q * d == x;
    if q <= c { assert (c - q) * d >= 0.0; } else { assert (q - c) * d > 0.0; }
  }

  lemma Divided(n: nat, m: nat) returns (q: nat, r: nat)
    requires m > 0
    ensures r < m && n == q * m + r && r == n % m
  {
    return n / m, n % m;
  }

  lemma NoMultipleBetween(d: int, m: nat)
    requires -(m as int) < d * m < m
    ensures d == 0
  {
    if d >= 1 { MulMonotone(1, d, m); }
    if d <= -1 { MulMonotone(d, -1, m); }
  }

  lemma ModuloUnique(q: nat, n: nat, r: nat, m: nat)
    requires m > 0 && r < m && n == q * m + r
    ensures n % m == r && n / m == q
  {
    var d: int := n / m - q;
    assert n == (n / m) * m + n % m;
    assert d * m == (n / m) * m - q * m;
    NoMultipleBetween(d, m);
  }

  lemma AddModulo(a: nat, i: nat, m: nat)
    requires m > 0
    ensures (a % m + i) % m == (a + i) % m
  {
    var p, r := Divided(a, m);
    var q, s := Divided(r + i, m);
    Distribute(q, p, m);
    ModuloUnique(q + p, a + i, s, m);
  }

  lemma Distribute(a: nat, b: nat, m: nat)
    ensures (a + b) * m == a * m + b * m
  {
  }

  lemma ShiftModulo(k: nat, m: nat)
    requires 0 < m <= k
    ensures (k - m) % m == k % m && (k - m) / m == k / m - 1
  {
    var b := k - m;
    assert b == (b / m) * m + b % m;
    assert (b / m + 1) * m == (b / m) * m + m;
    ModuloUnique(b / m + 1, k, b % m, m);
  }
}
