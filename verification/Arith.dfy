/** Powers of two, and division facts the solver does not find on its own. */
module Arith {
  function Pow2(n: nat): nat { if n == 0 then 1 else 2 * Pow2(n - 1) }

  lemma MulLe(a: int, b: int, c: nat)
    requires a <= b
    ensures a * c <= b * c
  {
  }

  lemma DivUnique(n: int, d: int, q: int, r: int)
    requires 0 <= r < d && n == q * d + r
    ensures n / d == q && n % d == r
  {
    var q', r' := n / d, n % d;
    assert n == q' * d + r';
    if q' > q {
      MulLe(q + 1, q', d);
    } else if q' < q {
      MulLe(q' + 1, q, d);
    }
  }

  lemma DivPlus(n: int, d: int)
    requires d > 0
    ensures (n + d) / d == n / d + 1 && (n + d) % d == n % d
  {
    assert n + d == (n / d + 1) * d + n % d;
    DivUnique(n + d, d, n / d + 1, n % d);
  }

  lemma DivSmall(n: int, d: int)
    requires 0 <= n < d
    ensures n / d == 0 && n % d == n
  {
    DivUnique(n, d, 0, n);
  }
}
