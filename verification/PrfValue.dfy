// The number that the float conversion works on, as a real: a 64-bit fraction with
// a binary and a decimal exponent.  What each step of the conversion does to it.
module PrfValue {
  import opened PrfDivide

  // ----- Products, by name: the laws the proofs use -----

  ghost function Mul(a: real, b: real): real {
    a * b
  }

  lemma MulPositive(a: real, b: real)
    requires a > 0.0 && b > 0.0
    ensures Mul(a, b) > 0.0
  {
  }

  lemma MulAssoc(a: real, b: real, c: real)
    ensures Mul(Mul(a, b), c) == Mul(a, Mul(b, c))
  {
  }

  lemma MulComm(a: real, b: real)
    ensures Mul(a, b) == Mul(b, a)
  {
  }

  lemma MulPlus(a: real, b: real, c: real)
    ensures Mul(a + b, c) == Mul(a, c) + Mul(b, c) && Mul(a - b, c) == Mul(a, c) - Mul(b, c)
  {
  }

  /** A constant factor may be written either way. */
  lemma MulTimes(n: real, a: real, b: real)
    requires n == 2.0 || n == 5.0 || n == 10.0
    ensures Mul(n * a, b) == n * Mul(a, b) && Mul(a, n * b) == n * Mul(a, b)
  {
  }

  lemma MulOne(a: real)
    ensures Mul(1.0, a) == a && Mul(2.0, a) == 2.0 * a && Mul(0.0, a) == 0.0
  {
  }

  lemma MulLe(a: real, b: real, c: real)
    requires c >= 0.0 && a <= b
    ensures Mul(a, c) <= Mul(b, c)
  {
  }

  // ----- Powers and the number -----

  ghost function P2(e: int): (r: real)
    ensures r > 0.0
    decreases if e < 0 then -e else e
  {
    if e == 0 then 1.0 else if e > 0 then 2.0 * P2(e - 1) else P2(e + 1) / 2.0
  }

  ghost function P10(d: int): (r: real)
    ensures r > 0.0
    decreases if d < 0 then -d else d
  {
    if d == 0 then 1.0 else if d > 0 then 10.0 * P10(d - 1) else P10(d + 1) / 10.0
  }

  lemma P2Step(e: int)
    ensures P2(e + 1) == 2.0 * P2(e)
  {
  }

  lemma P10Step(d: int)
    ensures P10(d + 1) == 10.0 * P10(d)
  {
  }

  ghost function Unit(exp: int, decexp: int): (u: real)
    ensures u > 0.0
  {
    MulPositive(P2(exp - 64), P10(decexp));
    Mul(P2(exp - 64), P10(decexp))
  }

  /** fract / 2^64 * 2^exp * 10^decexp */
  ghost function Value(fract: int, exp: int, decexp: int): real {
    Mul(fract as real, Unit(exp, decexp))
  }

  lemma ValuePositive(fract: int, exp: int, decexp: int)
    requires fract > 0
    ensures Value(fract, exp, decexp) > 0.0
  {
    hide Mul, Unit;
    MulPositive(fract as real, Unit(exp, decexp));
  }

  lemma UnitUp(exp: int, decexp: int)
    ensures Unit(exp + 1, decexp) == 2.0 * Unit(exp, decexp)
  {
    hide P2, P10, Mul;
    P2Step(exp - 64);
    MulTimes(2.0, P2(exp - 64), P10(decexp));
  }

  /** One up in the binary exponent and one down in the decimal one make a fifth. */
  lemma UnitSwap(exp: int, decexp: int)
    ensures Unit(exp, decexp) == 5.0 * Unit(exp + 1, decexp - 1)
  {
    hide P2, P10, Mul;
    P2Step(exp - 64);
    P10Step(decexp - 1);
    MulTimes(2.0, P2(exp - 64), P10(decexp - 1));
    MulTimes(10.0, P2(exp - 64), P10(decexp - 1));
  }

  // ----- The steps -----

  /** Halving with the exponent going up rounds up, by at most a unit. */
  lemma HalveValue(f: int, exp: int, decexp: int, m: int)
    requires 0 < m <= f
    ensures var (w, w') := (Value(f, exp, decexp), Value(Halved(f), exp + 1, decexp));
      0.0 <= w' - w && Mul(w' - w, m as real) <= w
  {
    hide P2, P10, Unit, Mul;
    var u := Unit(exp, decexp);
    UnitUp(exp, decexp);
    assert f <= 2 * Halved(f) <= f + 1;
    HalfError(f as real, Halved(f) as real, u, m as real);
  }

  lemma HalfError(r: real, h: real, u: real, m: real)
    requires r <= 2.0 * h <= r + 1.0 && u > 0.0 && 0.0 < m <= r
    ensures var d := Mul(h, 2.0 * u) - Mul(r, u); 0.0 <= d && Mul(d, m) <= Mul(r, u)
  {
    hide Mul;
    var d := Mul(h, 2.0 * u) - Mul(r, u);
    MulTimes(2.0, h, u);
    MulPlus(r, 1.0, u);
    MulOne(u);
    MulLe(r, 2.0 * h, u);
    MulLe(2.0 * h, r + 1.0, u);
    MulLe(d, u, m);
    MulComm(u, m);
    MulLe(m, r, u);
  }

  /** Doubling with the exponent going down is exact. */
  lemma DoubleValue(f: int, exp: int, decexp: int)
    ensures Value(2 * f, exp - 1, decexp) == Value(f, exp, decexp)
  {
    hide P2, P10, Unit, Mul;
    UnitUp(exp - 1, decexp);
    assert (2 * f) as real == 2.0 * f as real;
    MulTimes(2.0, f as real, Unit(exp - 1, decexp));
  }

  /** So is multiplying by five against 2^1 * 10^-1. */
  lemma FiveValue(f: int, exp: int, decexp: int)
    ensures Value(5 * f, exp + 1, decexp - 1) == Value(f, exp, decexp)
  {
    hide P2, P10, Unit, Mul;
    UnitSwap(exp, decexp);
    assert (5 * f) as real == 5.0 * f as real;
    MulTimes(5.0, f as real, Unit(exp + 1, decexp - 1));
  }

  /** Dividing by five against 2^-1 * 10^1 is off by at most two units. */
  lemma FifthValue(f: int, exp: int, decexp: int, m: int)
    requires 0 < m <= f <= TWO64 - 3
    ensures var (w, w') := (Value(f, exp, decexp), Value(Fifth(f), exp - 1, decexp + 1));
      -2.0 * w <= Mul(w' - w, m as real) <= 2.0 * w
  {
    hide P2, P10, Unit, Mul;
    UnitSwap(exp - 1, decexp + 1);
    assert f - 2 <= 5 * Fifth(f) <= f + 2;
    FifthError(f as real, Fifth(f) as real, Unit(exp, decexp), m as real);
  }

  lemma FifthError(r: real, q: real, u: real, m: real)
    requires r - 2.0 <= 5.0 * q <= r + 2.0 && u > 0.0 && 0.0 < m <= r
    ensures var d := Mul(q, 5.0 * u) - Mul(r, u); -2.0 * Mul(r, u) <= Mul(d, m) <= 2.0 * Mul(r, u)
  {
    hide Mul;
    var d := Mul(q, 5.0 * u) - Mul(r, u);
    MulTimes(5.0, q, u);
    MulPlus(r, 2.0, u);
    MulOne(u);
    MulLe(r - 2.0, 5.0 * q, u);
    MulLe(5.0 * q, r + 2.0, u);
    var u2, z := 2.0 * u, 0.0 - 2.0 * u;
    MulLe(d, u2, m);
    MulLe(z, d, m);
    MulPlus(0.0, u2, m);
    MulOne(m);
    MulTimes(2.0, u, m);
    MulComm(u, m);
    MulLe(m, r, u);
  }

  // ----- Relative error -----

  /** 2^55 */
  const PRECISION := 36028797018963968.0

  /** `w` is off `v` by at most `k` times 2^-55 of it. */
  ghost predicate Near(w: real, v: real, k: nat) {
    -Mul(k as real, v) <= (w - v) * PRECISION <= Mul(k as real, v)
  }

  lemma NearValue(w: real, v: real, k: nat)
    requires Near(w, v, k) && v > 0.0 && k <= 1000
    ensures v <= 2.0 * w && 10.0 * w <= 11.0 * v
  {
    MulThousand(k, v);
    hide Mul;
  }

  lemma MulThousand(k: nat, v: real)
    requires k <= 1000 && v > 0.0
    ensures Mul(k as real, v) <= 1000.0 * v
  {
    MulLe(k as real, 1000.0, v);
  }

  /** A step that is off by at most 2^-57 of where it starts costs one 2^-55. */
  lemma NearStep(w: real, w': real, v: real, k: nat)
    requires Near(w, v, k) && v > 0.0 && k < 1000
    requires -w <= (w' - w) * 4.0 * PRECISION <= w
    ensures Near(w', v, k + 1)
  {
    hide Mul;
    NearValue(w, v, k);
    assert (k + 1) as real == k as real + 1.0;
    MulPlus(k as real, 1.0, v);
    MulOne(v);
  }

  lemma NearStart(v: real)
    ensures Near(v, v, 0)
  {
    hide Mul;
    MulOne(v);
  }
}
