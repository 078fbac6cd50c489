/** Logarithmic topic ages: how long a topic has been known, in powers of two of a second. */
module Ages {
  import opened Arith
  import opened Wire

  const MEGA: nat := 1_000_000
  const LAGE_MIN: int := -1
  const LAGE_MAX: int := 35

  /** 63 less the leading zeros of the 64-bit representation: the largest k with 2^k <= x, or -1. */
  function Log2Floor(x: nat): int { if x == 0 then -1 else 1 + Log2Floor(x / 2) }

  function LageToUS(lage: int): nat {
    if lage < 0 then 0 else Pow2(Min(lage, LAGE_MAX)) * MEGA
  }

  function Lage(tsOrigin: int, now: int): int { Log2Floor(Max(now - tsOrigin, 0) / MEGA) }

  lemma {:induction false} Log2FloorIsFloor(x: nat)
    requires x > 0
    ensures Log2Floor(x) >= 0 && Pow2(Log2Floor(x)) <= x < 2 * Pow2(Log2Floor(x))
  {
    if x > 1 {
      Log2FloorIsFloor(x / 2);
    }
  }

  lemma {:induction false} Log2FloorGrows(x: nat, y: nat)
    requires x <= y
    ensures -1 <= Log2Floor(x) <= Log2Floor(y)
  {
    if x > 0 {
      Log2FloorGrows(x / 2, y / 2);
    } else if y > 0 {
      Log2FloorGrows(0, y / 2);
    }
  }

  lemma {:induction false} Log2FloorOfPow2(n: nat)
    ensures Pow2(n) > 0 && Log2Floor(Pow2(n)) == n
  {
    if n > 0 {
      Log2FloorOfPow2(n - 1);
      DivUnique(Pow2(n), 2, Pow2(n - 1), 0);
    }
  }

  /** On the ages that travel, the two conversions undo each other. */
  lemma {:induction false} LageRoundTrip(lage: int)
    requires LAGE_MIN <= lage <= LAGE_MAX
    ensures Log2Floor(LageToUS(lage) / MEGA) == lage
  {
    if lage >= 0 {
      Log2FloorOfPow2(lage);
      DivUnique(LageToUS(lage), MEGA, Pow2(lage), 0);
    }
  }

  lemma {:induction false} OlderOriginOlderAge(a: int, b: int, now: int)
    requires a <= b
    ensures Lage(a, now) >= Lage(b, now)
  {
    var x, y := Max(now - b, 0), Max(now - a, 0);
    assert x / MEGA <= y / MEGA;
    Log2FloorGrows(x / MEGA, y / MEGA);
  }

  /** Pulling the origin back to a remote age makes the age the larger of the two. */
  lemma {:induction false} MergedAgeIsMax(tsOrigin: int, now: int, lage: int)
    requires LAGE_MIN <= lage <= LAGE_MAX
    ensures Lage(Min(tsOrigin, now - LageToUS(lage)), now) == Max(Lage(tsOrigin, now), lage)
  {
    var other := now - LageToUS(lage);
    LageRoundTrip(lage);
    assert Lage(other, now) == lage;
    if other < tsOrigin {
      OlderOriginOlderAge(other, tsOrigin, now);
    } else {
      OlderOriginOlderAge(tsOrigin, other, now);
    }
  }
}
