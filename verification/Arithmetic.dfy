/** Powers of two, and the few facts about products and remainders that the block
    and message arithmetic needs. */
module Arithmetic {

  function Pow2(n: nat): (p: nat)
    ensures p > 0
  {
    if n == 0 then 1 else 2 * Pow2(n - 1)
  }

  lemma Step(n: nat, m: nat)
    ensures n > 0 ==> n * m == (n - 1) * m + m && n * m >= m
    ensures n == 0 ==> n * m == 0
  {
  }

  lemma Distribute(q: int, d: int, m: int)
    ensures (q - d) * m == q * m - d * m
    ensures (q + d) * m == q * m + d * m
  {
  }

  lemma NoSmallMultiple(t: int, m: nat, r: int)
    requires 0 <= r < m && r == t * m
    ensures r == 0
  {
    if t >= 1 {
      Step(t, m);
    } else if t <= -1 {
      Step(-t, m);
      assert (-t) * m == -(t * m);
    }
  }

  lemma ModOfMultiple(q: nat, m: nat)
    requires m > 0
    ensures (q * m) % m == 0
  {
    Distribute(q, q * m / m, m);
    NoSmallMultiple(q - q * m / m, m, q * m % m);
  }

  lemma Order(q: nat, r: nat, m: nat)
    requires m > 0 && q * m >= r * m
    ensures q >= r
  {
    if q < r {
      Distribute(r, q, m);
      Step(r - q, m);
    }
  }

  // Multiples of m add up to, and differ by, multiples of m.
  lemma Multiples(a: nat, b: nat, m: nat)
    requires m > 0 && a % m == 0 && b % m == 0
    ensures (a + b) % m == 0
    ensures a >= b ==> (a - b) % m == 0
    ensures a > b ==> a - b >= m
  {
    var q, r := a / m, b / m;
    assert a == q * m && b == r * m;
    Distribute(q, r, m);
    ModOfMultiple(q + r, m);
    if a >= b {
      Order(q, r, m);
      ModOfMultiple(q - r, m);
      Step(q - r, m);
    }
  }

  lemma {:induction false} Pow2Divides(x: nat, a: nat, b: nat)
    requires a <= b && x % Pow2(b) == 0
    ensures x % Pow2(a) == 0
    decreases b
  {
    if a < b {
      var q, m := x / Pow2(b), Pow2(b - 1);
      assert x == q * (2 * m) == (2 * q) * m;
      ModOfMultiple(2 * q, m);
      Pow2Divides(x, a, b - 1);
    }
  }
}
