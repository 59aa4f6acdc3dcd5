/** Facts about products and quotients that the verifier does not find alone. */
module Arithmetic {
  lemma SmallRemainder(r: nat, p: nat)
    requires r < p
    ensures r % p == r
  {
  }

  lemma AtLeast(a: int, b: int, p: nat)
    requires a >= b
    ensures a * p >= b * p
  {
  }

  lemma NotAtLeast(a: nat, b: nat, p: nat)
    requires a * p < b * p
    ensures a < b
  {
    if a >= b {
      AtLeast(a, b, p);
      assert false;
    }
  }

  lemma UniqueDivision(k: nat, m: nat, q: nat, r: nat, p: nat)
    requires k * p + m == q * p + r && m < p && r < p
    ensures k == q && m == r
  {
    assert (q + 1) * p == q * p + p && (k + 1) * p == k * p + p;
    NotAtLeast(k, q + 1, p);
    NotAtLeast(q, k + 1, p);
  }

  lemma DivMod(q: nat, r: nat, p: nat)
    requires r < p
    ensures (q * p + r) / p == q && (q * p + r) % p == r
  {
    var x := q * p + r;
    assert (x / p) * p + x % p == x;
    UniqueDivision(x / p, x % p, q, r, p);
  }

  lemma Distribute(x: nat, y: nat, low: nat, a: nat, b: nat)
    ensures (x * b + y) * a + low == x * (a * b) + (y * a + low)
  {
  }

  lemma DigitsBelow(y: nat, low: nat, a: nat, b: nat)
    requires y < b && low < a
    ensures y * a + low < a * b
  {
    AtLeast(b, y + 1, a);
    assert (y + 1) * a == y * a + a;
  }

  lemma Divided(n: nat, a: nat)
    requires a > 0
    ensures n == (n / a) * a + n % a
  {
  }

  /** Dividing by a and then by b. */
  lemma DivideTwice(n: nat, a: nat, b: nat)
    requires a > 0 && b > 0
    ensures a * b > 0 && n / a / b == n / (a * b)
  {
    var q, low := n / a, n % a;
    var x, y := q / b, q % b;
    DigitsBelow(y, low, a, b);
    Divided(n, a);
    Divided(q, b);
    Distribute(x, y, low, a, b);
    DivMod(x, y * a + low, a * b);
  }
}
