/** Division and remainder by a variable divisor, for block-group and ring arithmetic. */
module Arith {

  function Min(a: int, b: int): int { if a < b then a else b }

  function Max(a: int, b: int): int { if a < b then b else a }

  lemma MulBounds(k: int, n: nat)
    ensures k >= 1 ==> k * n >= n
    ensures k <= -1 ==> k * n + n <= 0
  {
  }

  /** Quotient and remainder are the only way to write a number as q * n + r with r < n. */
  lemma DivModUnique(q: nat, r: nat, n: nat)
    requires r < n
    ensures (q * n + r) / n == q && (q * n + r) % n == r
  {
    var d := (q * n + r) / n;
    assert (q - d) * n == (q * n + r) % n - r;
    MulBounds(q - d, n);
  }

  lemma MulMono(a: nat, b: nat, n: nat)
    requires a <= b
    ensures a * n <= b * n
  {
  }

  lemma DivMod(x: nat, n: nat)
    requires n > 0
    ensures x == (x / n) * n + x % n
  {
  }

  /** x < k * n exactly when its quotient is below k. */
  lemma DivLess(x: nat, n: nat, k: nat)
    requires n > 0
    ensures x / n < k <==> x < k * n
  {
    DivMod(x, n);
    if x / n < k { MulMono(x / n + 1, k, n); } else { MulMono(k, x / n, n); }
  }

  /** Distinct numbers with one quotient have remainders that scale to disjoint ranges. */
  lemma SlotsApart(x: nat, y: nat, n: nat, size: nat)
    requires n > 0 && x != y && x / n == y / n
    ensures (x % n) * size + size <= (y % n) * size || (y % n) * size + size <= (x % n) * size
  {
    DivMod(x, n);
    DivMod(y, n);
    if x % n < y % n { MulMono(x % n + 1, y % n, size); } else { MulMono(y % n + 1, x % n, size); }
  }

  lemma DivShift(x: nat, n: nat, k: nat)
    requires n > 0
    ensures (x + k * n) / n == x / n + k
  {
    DivMod(x, n);
    assert x + k * n == (x / n + k) * n + x % n;
    DivModUnique(x / n + k, x % n, n);
  }

  /** Adding without carrying past n. */
  lemma ModAdd(x: nat, k: nat, n: nat)
    requires n > 0 && x % n + k < n
    ensures (x + k) % n == x % n + k
  {
    DivMod(x, n);
    DivModUnique(x / n, x % n + k, n);
  }

  /** Numbers compare by quotient first and remainder second. */
  lemma DivOrder(x: nat, q: nat, r: nat, n: nat)
    requires r < n && x < q * n + r
    ensures x / n < q || (x / n == q && x % n < r)
  {
    DivMod(x, n);
    if x / n > q { MulMono(q + 1, x / n, n); }
  }

  /** Dividing by a and then by b is dividing by their product. */
  lemma DivTwice(v: nat, a: nat, b: nat)
    requires a > 0 && b > 0
    ensures v / a / b == v / (a * b)
  {
    var q := v / a;
    DivMod(v, a);
    DivMod(q, b);
    TwoDigits(q / b, q % b, v % a, a, b);
    DivModUnique(q / b, q % b * a + v % a, a * b);
  }

  lemma TwoDigits(u: nat, t: nat, r: nat, a: nat, b: nat)
    requires t < b && r < a
    ensures (u * b + t) * a + r == u * (a * b) + (t * a + r) && t * a + r < a * b
  {
    assert (u * b) * a == u * (a * b);
    MulMono(t + 1, b, a);
  }
}
