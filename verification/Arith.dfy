/** Multiplication and division facts the address computations rest on. */
module Arith {

  lemma MulAtLeast(c: nat, m: nat)
    requires 1 <= c
    ensures m <= c * m
  {
    assert c * m == (c - 1) * m + m;
  }

  lemma QuotientLess(i: nat, j: nat, k: nat)
    requires 0 < k && i / k < j / k
    ensures i < j
  {
    MulAtLeast(j / k - i / k, k);
    assert j / k * k == i / k * k + (j / k - i / k) * k;
    assert i == i / k * k + i % k && j == j / k * k + j % k;
  }

  lemma SameQuotient(i: nat, j: nat, k: nat)
    requires 0 < k && i < j && i / k == j / k
    ensures i % k < j % k
  {
    assert i == i / k * k + i % k && j == j / k * k + j % k;
  }

  lemma ScaledApart(a: nat, b: nat, s: nat)
    requires a < b
    ensures a * s + s <= b * s
  {
    MulAtLeast(b - a, s);
    assert b * s == a * s + (b - a) * s;
  }

  lemma DivModUnique(q: nat, t: nat, m: nat)
    requires 0 < m && t < m
    ensures (q * m + t) / m == q && (q * m + t) % m == t
  {
    var x := q * m + t;
    assert x == x / m * m + x % m;
    if x / m < q {
      ScaledApart(x / m, q, m);
    } else if q < x / m {
      ScaledApart(q, x / m, m);
    }
  }

  /** Counting up by one: the remainder wraps exactly when the quotient goes up. */
  lemma DivModStep(n: nat, d: nat)
    requires 0 < d
    ensures n % d + 1 == d ==> (n + 1) % d == 0 && (n + 1) / d == n / d + 1
    ensures n % d + 1 < d ==> (n + 1) % d == n % d + 1 && (n + 1) / d == n / d
    ensures (n % d + 1) % d == (n + 1) % d
  {
    StepFrom(n / d, n % d, d, n);
  }

  lemma StepFrom(q: nat, r: nat, d: nat, n: nat)
    requires r < d && n == q * d + r
    ensures r + 1 == d ==> (n + 1) % d == 0 && (n + 1) / d == q + 1
    ensures r + 1 < d ==> (n + 1) % d == r + 1 && (n + 1) / d == q
    ensures (r + 1) % d == (n + 1) % d
  {
    if r + 1 == d {
      assert (q + 1) * d == q * d + d;
      DivModUnique(q + 1, 0, d);
      DivModUnique(1, 0, d);
    } else {
      DivModUnique(q, r + 1, d);
      DivModUnique(0, r + 1, d);
    }
  }

  /** Dividing a multiple of `m` by a multiple of `m`. */
  lemma ScaledDivMod(i: nat, k: nat, m: nat, b: nat)
    requires 0 < k && 0 < m && k * m == b
    ensures 0 < b && i * m / b == i / k && i * m % b == i % k * m && i % k * m + m <= b
  {
    var q, r := i / k, i % k;
    MulAtLeast(k, m);
    ScaledApart(r, k, m);
    assert i * m == q * b + r * m by {
      SplitProduct(q, k, r, m);
    }
    DivModUnique(q, r * m, b);
  }

  lemma SplitProduct(q: nat, k: nat, r: nat, m: nat)
    ensures (q * k + r) * m == q * (k * m) + r * m
  {
  }
}
