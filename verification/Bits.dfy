// Powers of two and the rounding that C writes as bit masks.
module Bits {
  function Pow2(k: nat): (p: int)
    ensures p >= 1
  {
    if k == 0 then 1 else 2 * Pow2(k - 1)
  }

  ghost predicate IsPow2(n: int) {
    exists k: nat :: n == Pow2(k)
  }

  lemma {:induction false} Pow2Multiple(k: nat)
    requires Pow2(k) >= 8
    ensures Pow2(k) % 8 == 0
  {
    if k < 3 {
      Pow2Monotone(k, 2);
    } else if k == 3 {
      assert Pow2(3) == 2 * Pow2(2) == 8;
    } else {
      Pow2Monotone(3, k - 1);
      Pow2Multiple(k - 1);
    }
  }

  lemma {:induction false} Pow2Monotone(j: nat, k: nat)
    requires j <= k
    ensures Pow2(j) <= Pow2(k)
  {
    if j < k {
      Pow2Monotone(j, k - 1);
    }
  }

  lemma Pow2Zero()
    ensures Pow2(0) == 1
  {
  }

  lemma Pow2Four(n: nat)
    ensures Pow2(n + 3) == 8 * Pow2(n) && Pow2(n + 4) == 16 * Pow2(n)
  {
    assert Pow2(n + 1) == 2 * Pow2(n) && Pow2(n + 2) == 2 * Pow2(n + 1) && Pow2(n + 3) == 2 * Pow2(n + 2);
  }

  lemma Pow2Eight(n: nat)
    ensures Pow2(n + 8) == 256 * Pow2(n)
  {
    hide Pow2;
    Pow2Four(n);
    Pow2Four(n + 4);
  }

  predicate MultipleOf(x: int, a: int)
    requires a > 0
  {
    x % a == 0
  }

  /** (x + a - 1) & -a for a power of two a. */
  function RoundUp(x: int, a: int): (r: int)
    requires a > 0
    ensures x <= r < x + a && MultipleOf(r, a)
  {
    RoundDown(x + a - 1, a)
  }

  /** x & -a, also written x & ~(a - 1), for a power of two a. */
  function RoundDown(x: int, a: int): (r: int)
    requires a > 0
    ensures x - a < r <= x && MultipleOf(r, a)
  {
    ModSub(x, a);
    x - x % a
  }

  lemma ModSub(x: int, a: int)
    requires a > 0
    ensures (x - x % a) % a == 0
  {
    DivModUnique(x - x % a, a, x / a, 0);
  }

  lemma RoundDownIs(x: int, a: int)
    requires a > 0 && x >= 0
    ensures x / a >= 0 && RoundDown(x, a) == x / a * a && RoundDown(x, a) / a == x / a
  {
    DivModUnique(x / a * a, a, x / a, 0);
  }

  lemma DivModUnique(x: int, a: int, q: int, r: int)
    requires a > 0 && x == q * a + r && 0 <= r < a
    ensures x / a == q && x % a == r
  {
    var q', r' := x / a, x % a;
    assert x == q' * a + r';
    if q' < q {
      MulAtLeast(q - q', a);
    } else if q < q' {
      MulAtLeast(q' - q, a);
    }
  }

  lemma {:induction false} MulAtLeast(d: int, a: int)
    requires d >= 1 && a >= 0
    ensures d * a >= a
    decreases d
  {
    if d > 1 {
      MulAtLeast(d - 1, a);
      assert d * a == (d - 1) * a + a;
    }
  }

  /** A multiple of a multiple of 8 is a multiple of 8. */
  lemma MultipleOfMultiple(x: int, a: int)
    requires a > 0 && a % 8 == 0 && MultipleOf(x, a)
    ensures x % 8 == 0
  {
    var q := x / a;
    var b := a / 8;
    assert x == q * a == q * (8 * b) == (q * b) * 8;
  }
}
