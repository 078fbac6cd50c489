/** Primality, and what quadratic probing modulo a prime reaches. */
module Primes {
  import opened Arith

  predicate Divides(d: int, n: int)
    requires d != 0
  {
    n % d == 0
  }

  ghost predicate NoDivisors(n: int, bound: int) {
    forall d :: 2 <= d < bound ==> !Divides(d, n)
  }

  ghost predicate IsPrime(n: int) {
    n >= 2 && NoDivisors(n, n)
  }

  // ---------------------------------------------------------------- trial division

  lemma {:induction false} QuotientDivides(n: int, d: int)
    requires d > 0 && n > 0 && Divides(d, n)
    ensures n / d > 0 && n == d * (n / d) && Divides(n / d, n)
  {
    var q := n / d;
    assert n == d * q;
    DivUnique(n, q, d, 0);
  }

  lemma {:induction false} DividesProduct(a: int, b: int, n: int)
    requires a != 0 && b > 0 && Divides(a, b) && Divides(b, n)
    ensures Divides(a, n)
  {
    var q, r := b / a, n / b;
    assert n == (q * a) * r == (q * r) * a;
    MultipleDivides(a, q * r);
  }

  lemma {:induction false} MultipleDivides(a: int, k: int)
    requires a != 0
    ensures Divides(a, k * a)
  {
    if a > 0 {
      DivUnique(k * a, a, k, 0);
    } else {
      var q, r := (k * a) / a, (k * a) % a;
      assert k * a == q * a + r && 0 <= r < -a;
      if q != k {
        if q - k >= 1 {
          MulLe(1, q - k, -a);
        } else {
          MulLe(1, k - q, -a);
        }
      }
    }
  }

  lemma {:induction false} SquareGrows(a: nat, b: nat)
    requires a <= b
    ensures a * a <= b * b
  {
    MulLe(a, b, a);
    MulLe(a, b, b);
  }

  lemma {:induction false} SquareAbove(n: nat, bound: int)
    requires bound > 0 && bound > n / bound
    ensures n < bound * bound
  {
    MulLe(n / bound + 1, bound, bound);
  }

  /** A composite number has a divisor whose square does not exceed it. */
  lemma {:induction false} SmallDivisor(n: int, d: int) returns (e: int)
    requires 2 <= d < n && Divides(d, n)
    ensures 2 <= e < n && Divides(e, n) && e * e <= n
  {
    QuotientDivides(n, d);
    var q := n / d;
    assert q != 1;
    e := if d <= q then d else q;
    MulLe(e, q, d);
    MulLe(e, d, e);
    MulLe(2, d, q);
  }

  lemma {:induction false} NoDivisorBelow(n: nat, bound: int)
    requires n >= 2 && bound > 0 && bound > n / bound
    requires NoDivisors(n, bound)
    ensures IsPrime(n)
  {
    SquareAbove(n, bound);
    forall d | 2 <= d < n ensures !Divides(d, n) {
      if Divides(d, n) {
        var e := SmallDivisor(n, d);
        if e >= bound {
          SquareGrows(bound, e);
        }
      }
    }
  }

  /** An odd number without a divisor up to d has none up to the next odd candidate. */
  lemma {:induction false} NextCandidate(n: nat, d: int)
    requires n % 2 == 1 && d >= 3 && d % 2 == 1 && NoDivisors(n, d) && n % d != 0
    ensures NoDivisors(n, d + 2)
  {
    if Divides(d + 1, n) {
      MultipleDivides(2, (d + 1) / 2);
      DividesProduct(2, d + 1, n);
    }
  }

  lemma {:induction false} DivisorFound(n: nat, d: int)
    requires 3 <= d <= n / d && n % d == 0
    ensures !IsPrime(n)
  {
    MulLe(3, d, d);
    MulLe(d, n / d, d);
    assert Divides(d, n);
  }

  method IsPrimeU32(n: nat) returns (prime: bool)
    requires n < 0x1_0000_0000
    ensures prime <==> IsPrime(n)
  {
    if n <= 2 {
      return n == 2;
    }
    if n % 2 == 0 {
      assert Divides(2, n);
      return false;
    }
    var d := 3;
    assert NoDivisors(n, 3);
    hide IsPrime, NoDivisors;
    while d <= n / d
      invariant d >= 3 && d % 2 == 1
      invariant NoDivisors(n, d)
      decreases n - d
    {
      if n % d == 0 {
        DivisorFound(n, d);
        return false;
      }
      NextCandidate(n, d);
      d := d + 2;
    }
    NoDivisorBelow(n, d);
    return true;
  }

  // ---------------------------------------------------------------- Euclid's lemma and squares

  lemma {:induction false} EuclidsLemma(p: int, a: int, b: int)
    requires IsPrime(p) && 0 < a < p && Divides(p, a * b)
    ensures Divides(p, b)
    decreases a
  {
    if a > 1 {
      var q, r := p / a, p % a;
      assert !Divides(a, p);
      var k := a * b / p;
      assert a * b == k * p;
      assert p == q * a + r;
      assert r * b == p * b - q * (a * b) == p * b - q * (k * p) == (b - q * k) * p;
      MultipleDivides(p, b - q * k);
      EuclidsLemma(p, r, b);
    }
  }

  lemma {:induction false} SquaresDiffer(p: int, r: int, s: int)
    requires IsPrime(p) && 0 <= r < s && r + s < p
    ensures !Divides(p, s * s - r * r)
  {
    if Divides(p, s * s - r * r) {
      assert s * s - r * r == (s + r) * (s - r);
      EuclidsLemma(p, s + r, s - r);
      DivSmall(s - r, p);
    }
  }

  lemma {:induction false} EqualResidues(p: int, x: int, y: int)
    requires p > 0 && x % p == y % p
    ensures Divides(p, x - y)
  {
    var k := x / p - y / p;
    assert x - y == k * p;
    MultipleDivides(p, k);
  }

  lemma {:induction false} ModAdd(p: int, x: int, y: int)
    requires p > 0
    ensures (x + y % p) % p == (x + y) % p
  {
    var q, r := (x + y % p) / p, (x + y % p) % p;
    assert x + y == (q + y / p) * p + r;
    DivUnique(x + y, p, q + y / p, r);
  }
}
