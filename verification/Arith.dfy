/** Division facts the solver does not find unaided. */
module Arith {

  lemma MulGap(n: int, a: int, b: int)
    ensures n >= 0 && a < b ==> n * a + n <= n * b
  {
    if n >= 0 && a < b {
      assert n * b == n * a + n * (b - a);
      assert n * (b - a) == n + n * (b - a - 1);
    }
  }

  /** Quotient and remainder are the only pair of their kind. */
  lemma DivModUnique(x: nat, n: nat, q: nat, r: nat)
    requires n > 0 && r < n && x == n * q + r
    ensures x / n == q && x % n == r
  {
    var d, m := x / n, x % n;
    assert x == n * d + m;
    MulGap(n, q, d);
    MulGap(n, d, q);
  }

  lemma ModShift(x: nat, q: nat, n: nat)
    requires n > 0
    ensures (n * q + x) % n == x % n
    ensures (n * q + x) / n == q + x / n
  {
    var d, m := x / n, x % n;
    assert x == n * d + m;
    assert n * (q + d) == n * q + n * d;
    DivModUnique(n * q + x, n, q + d, m);
  }

  lemma ModAdd(a: nat, b: nat, n: nat)
    requires n > 0
    ensures (a + b) % n == (a % n + b) % n
  {
    assert a + b == n * (a / n) + (a % n + b);
    ModShift(a % n + b, a / n, n);
  }
}
