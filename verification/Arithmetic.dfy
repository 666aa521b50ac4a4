/** Products, quotients and remainders. */
module Arithmetic {

  lemma MulLeq(x: nat, y: nat, z: nat)
    requires x <= y
    ensures x * z <= y * z && z * x <= z * y
  {
    assert (y - x) * z >= 0;
  }

  lemma DivMod(v: nat, b: nat)
    requires b > 0
    ensures v == v / b * b + v % b && v % b < b && v / b >= 0
  {
    var q := v / b;
    assert v == b * q + v % b;
  }

  /** A number from its quotient. */
  lemma FromQuotient(v: nat, b: nat, q: int)
    requires b > 0 && q == v / b
    ensures q * b + v % b == v
  {
  }

  lemma MulAssociates(x: int, y: int, z: int)
    ensures x * (y * z) == x * y * z
  {
  }

  /** Quotient and remainder are unique. */
  lemma SameDivision(q: int, r: nat, p: int, s: nat, n: nat)
    requires r < n && s < n && n * q + r == n * p + s
    ensures q == p && r == s
  {
    if q > p {
      assert n * (q - p) == n * q - n * p;
      MulLeq(1, q - p, n);
    } else if p > q {
      assert n * (p - q) == n * p - n * q;
      MulLeq(1, p - q, n);
    }
  }

  lemma Divides(x: int, q: int, r: nat, n: nat)
    requires x == q * n + r && r < n
    ensures x / n == q && x % n == r
  {
    SameDivision(x / n, x % n, q, r, n);
  }
}
