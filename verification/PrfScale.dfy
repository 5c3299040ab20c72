// The scaling phase of the float conversion: from fraction times a power of two to
// fraction times a power of ten.
module PrfScale {
  import opened Words
  import opened PrfDivide
  import opened PrfValue
  import opened Bits

  const MAXFP1 := 0xffff_ffff
  const TWO63 := 0x8000_0000_0000_0000
  const TWO61 := 0x2000_0000_0000_0000
  const TWO60 := 0x1000_0000_0000_0000
  /** The first fraction with (fract >> 32) >= MAXFP1 / 5. */
  const FIFTHTOP := 0x3333_3333_0000_0000

  /** A fraction between two steps: normalised, and with room for ldiv5. */
  predicate Normal(fract: int) {
    TWO63 <= fract <= TWO64 - 6
  }

  /** How often the first inner loop halves, and what is left. */
  predicate Dropped(fract: int, n: int) {
    || (n == 0 && TWO63 <= fract < TWO64)
    || (n == 1 && TWO63 <= 2 * fract <= TWO64)
    || (n == 2 && TWO63 <= 4 * fract <= TWO64)
    || (n == 3 && FIFTHTOP <= 2 * fract && 8 * fract <= TWO64)
  }

  lemma DropStep(fract: int, n: int)
    requires Dropped(fract, n) && fract / TWO32 >= MAXFP1 / 5
    ensures n < 3 && fract >= TWO61 && Dropped(Halved(fract), n + 1)
  {
  }

  /** 2^58 as a multiple of the precision. */
  ghost predicate Risen(w: real, w0: real, n: int) {
    0.0 <= (w - w0) * 32.0 * PRECISION <= (if n <= 0 then 0.0 else if n == 1 then w0 else if n == 2 then 2.0 * w0 else 3.0 * w0)
  }

  lemma RiseStep(w: real, w': real, w0: real, n: int)
    requires Risen(w, w0, n) && 0 <= n < 3 && w0 > 0.0
    requires 0.0 <= w' - w && Mul(w' - w, TWO61 as real) <= w
    ensures Risen(w', w0, n + 1)
  {
  }

  /** Halve until a multiplication by five fits. */
  method DropToFifth(fract0: int, exp0: int, ghost decexp: int) returns (fract: int, exp: int)
    requires TWO63 <= fract0 < TWO64
    ensures (exp == exp0 + 2 || exp == exp0 + 3) && Dropped(fract, exp - exp0) && fract < FIFTHTOP
    ensures Risen(Value(fract, exp, decexp), Value(fract0, exp0, decexp), 3)
  {
    hide Value;
    fract, exp := fract0, exp0;
    ghost var w0 := Value(fract0, exp0, decexp);
    ValuePositive(fract0, exp0, decexp);
    while fract / TWO32 >= MAXFP1 / 5
      invariant exp0 <= exp <= exp0 + 3 && Dropped(fract, exp - exp0)
      invariant Risen(Value(fract, exp, decexp), w0, exp - exp0)
      decreases fract
    {
      DropStep(fract, exp - exp0);
      HalveValue(fract, exp, decexp, TWO61);
      RiseStep(Value(fract, exp, decexp), Value(Halved(fract), exp + 1, decexp), w0, exp - exp0);
      fract := Rlrshift(fract);
      exp := exp + 1;
    }
  }

  /** Double until the top bit is set. */
  method Normalise(fract0: int, exp0: int, ghost decexp: int) returns (fract: int, exp: int)
    requires 0 < fract0 < TWO64
    ensures TWO63 <= fract < TWO64 && exp <= exp0
    ensures Value(fract, exp, decexp) == Value(fract0, exp0, decexp)
    ensures fract0 >= TWO63 ==> exp == exp0 && fract == fract0
    ensures TWO63 <= 2 * fract0 && fract0 < TWO63 ==> exp == exp0 - 1 && fract == 2 * fract0
    ensures TWO63 <= 4 * fract0 && 2 * fract0 < TWO63 ==> exp == exp0 - 2 && fract == 4 * fract0
    ensures TWO63 <= 8 * fract0 && 4 * fract0 < TWO63 ==> exp == exp0 - 3 && fract == 8 * fract0
  {
    hide Value;
    fract, exp := fract0, exp0;
    while fract / TWO32 <= MAXFP1 / 2
      invariant 0 < fract < TWO64 && exp <= exp0
      invariant Value(fract, exp, decexp) == Value(fract0, exp0, decexp)
      invariant (exp == exp0 && fract == fract0) || (exp == exp0 - 1 && fract == 2 * fract0) || (exp == exp0 - 2 && fract == 4 * fract0)
        || (exp == exp0 - 3 && fract == 8 * fract0) || (exp < exp0 - 3 && 8 * fract0 < TWO63)
      invariant exp == exp0 || fract0 < TWO63
      invariant exp <= exp0 - 2 ==> 2 * fract0 < TWO63
      invariant exp <= exp0 - 3 ==> 4 * fract0 < TWO63
      decreases TWO64 - fract
    {
      DoubleValue(fract, exp, decexp);
      fract := fract * 2 % TWO64;
      exp := exp - 1;
    }
  }

  /** The first scaling loop: a negative binary exponent goes into the decimal one. */
  method ScaleUp(fract0: int, exp0: int) returns (fract: int, exp: int, decexp: int, ghost k: nat)
    requires Normal(fract0) && -1022 <= exp0
    ensures Normal(fract) && -3 < exp && exp <= (if exp0 > 1 then exp0 else 1)
    ensures 3 * k <= 1024 && (exp0 > -3 ==> k == 0 && exp == exp0 && fract == fract0 && decexp == 0)
    ensures decexp + k == 0 && exp0 + 3 * k <= exp
    ensures exp0 > -3 || exp <= 1
    ensures Near(Value(fract, exp, decexp), Value(fract0, exp0, 0), k)
  {
    hide Value, Near;
    fract, exp, decexp, k := fract0, exp0, 0, 0;
    ghost var v := Value(fract0, exp0, 0);
    ValuePositive(fract0, exp0, 0);
    NearStart(v);
    while exp <= -3
      invariant Normal(fract) && exp >= exp0 + 3 * k && (k > 0 ==> exp <= 1)
      invariant k == 0 ==> exp == exp0 && fract == fract0
      invariant exp0 > -3 ==> k == 0
      invariant decexp + k == 0 && 3 * k <= 1023
      invariant Near(Value(fract, exp, decexp), v, k)
      decreases -exp
    {
      ghost var w := Value(fract, exp, decexp);
      ghost var exp1 := exp;
      fract, exp := DropToFifth(fract, exp, decexp);
      ghost var w' := Value(fract, exp, decexp);
      RisenNear(w, w', v, k);
      FiveFits(fract, exp - exp1);
      FiveValue(fract, exp, decexp);
      fract := fract * 5 % TWO64;
      exp := exp + 1;
      decexp := decexp - 1;
      fract, exp := Normalise(fract, exp, decexp);
      k := k + 1;
    }
  }

  lemma FiveFits(fract: int, n: int)
    requires Dropped(fract, n) && fract < FIFTHTOP && (n == 2 || n == 3)
    ensures 0 < fract * 5 < TWO64 && fract * 5 % TWO64 == fract * 5
    ensures fract * 5 >= TWO63 ==> Normal(fract * 5)
    ensures fract * 5 < TWO63 ==> n == 3 && TWO63 <= 2 * (fract * 5) && Normal(2 * (fract * 5))
  {
  }

  lemma RisenNear(w: real, w': real, v: real, k: nat)
    requires Risen(w', w, 3) && Near(w, v, k) && v > 0.0 && k < 1000
    ensures Near(w', v, k + 1)
  {
    NearValue(w, v, k);
    hide Near;
    assert -w <= (w' - w) * 4.0 * PRECISION <= w;
    NearStep(w, w', v, k);
  }

  lemma FifthFits(fract: int)
    requires Normal(fract)
    ensures var q := Fifth(fract);
      && 0 < q && 4 * q < TWO64 && 2 * q < TWO63 <= 8 * q
      && 5 * q >= TWO63 && TWO64 <= 10 * q
      && (TWO63 <= 4 * q ==> Normal(4 * q)) && (4 * q < TWO63 ==> Normal(8 * q))
  {
  }

  /** A step of the second loop. */
  lemma FifthNear(fract: int, exp: int, decexp: int, v: real, k: nat)
    requires Normal(fract) && Near(Value(fract, exp, decexp), v, k) && v > 0.0 && k < 1000
    ensures Near(Value(Fifth(fract), exp - 1, decexp + 1), v, k + 1)
  {
    hide Near, Value, Mul;
    var w, w' := Value(fract, exp, decexp), Value(Fifth(fract), exp - 1, decexp + 1);
    FifthValue(fract, exp, decexp, TWO63);
    TimesTwo63(w' - w);
    ValuePositive(fract, exp, decexp);
    NearStep(w, w', v, k);
  }

  lemma TimesTwo63(x: real)
    ensures Mul(x, TWO63 as real) == 256.0 * (x * PRECISION)
  {
  }

  /** The second scaling loop: a positive binary exponent goes into the decimal one. */
  method ScaleDown(fract0: int, exp0: int, decexp0: int, ghost v: real, ghost k0: nat)
    returns (fract: int, exp: int, decexp: int, ghost k: nat)
    requires Normal(fract0) && -3 < exp0 <= 1024 && 3 * k0 <= 1024 && v > 0.0
    requires Near(Value(fract0, exp0, decexp0), v, k0)
    ensures Normal(fract) && -3 <= exp <= 0 && k0 <= k <= 700
    ensures decexp == decexp0 + (k - k0) && 3 * (k - k0) <= exp0 + 3
    ensures AtLeastTenth(fract, exp)
    ensures Near(Value(fract, exp, decexp), v, k)
  {
    hide Value, Near, Fifth;
    fract, exp, decexp, k := fract0, exp0, decexp0, k0;
    while exp > 0
      invariant Normal(fract) && -3 <= exp && exp <= exp0 - 3 * (k - k0) && k >= k0 && decexp == decexp0 + (k - k0)
      invariant exp == -3 ==> TWO64 <= 10 * (fract / 8) && fract % 8 == 0
      invariant Near(Value(fract, exp, decexp), v, k)
      decreases exp
    {
      FifthFits(fract);
      FifthNear(fract, exp, decexp, v, k);
      fract := Ldiv5(fract);
      exp := exp - 1;
      decexp := decexp + 1;
      fract, exp := Normalise(fract, exp, decexp);
      k := k + 1;
    }
    TenthStart(fract, exp);
  }

  /** The fraction with its binary exponent is at least 1/10. */
  predicate AtLeastTenth(fract: int, exp: int) {
    exp <= 4 && 10 * fract >= Pow2(64 - exp)
  }

  lemma TenthStart(fract: int, exp: int)
    requires Normal(fract) && -3 <= exp <= 0 && (exp == -3 ==> TWO64 <= 10 * (fract / 8) && fract % 8 == 0)
    ensures AtLeastTenth(fract, exp)
  {
    Pow2Sixty();
    assert Pow2(65) == 2 * Pow2(64) && Pow2(66) == 2 * Pow2(65) && Pow2(67) == 2 * Pow2(66);
  }

  lemma Pow2Sixty()
    ensures Pow2(56) == 2 * PRECISION.Floor && Pow2(60) == TWO60 && Pow2(63) == TWO63 && Pow2(64) == TWO64
  {
    hide Pow2;
    Pow2Eight(0);
    Pow2Eight(8);
    Pow2Eight(16);
    Pow2Eight(24);
    Pow2Eight(32);
    Pow2Eight(40);
    Pow2Eight(48);
    Pow2Four(56);
    Pow2Four(60);
    Pow2Zero();
  }

  // ----- The last shifts -----

  /** After `n` of the last halvings. */
  predicate Settled(fract: int, n: int) {
    0 <= n <= 7 && Pow2(63 - n) <= fract <= Pow2(64 - n)
  }

  /** The last halvings together are off by less than 5/4 of the last one's unit. */
  ghost predicate SettledNear(w: real, w1: real, n: int) {
    0 <= n <= 7 && 0.0 <= w - w1 && 4.0 * Mul(w - w1, Pow2(63 - n) as real) <= 5.0 * w1
  }

  lemma SettleStep(fract: int, exp: int, decexp: int, w1: real, n: int)
    requires Settled(fract, n) && n < 7 && w1 > 0.0 && SettledNear(Value(fract, exp, decexp), w1, n)
    ensures Settled(Halved(fract), n + 1) && SettledNear(Value(Halved(fract), exp + 1, decexp), w1, n + 1)
  {
    hide Value, Mul;
    var w, w' := Value(fract, exp, decexp), Value(Halved(fract), exp + 1, decexp);
    HalveValue(fract, exp, decexp, Pow2(63 - n));
    assert Pow2(63 - n) == 2 * Pow2(62 - n) && Pow2(64 - n) == 2 * Pow2(63 - n);
    var p, h := Pow2(63 - n) as real, Pow2(62 - n) as real;
    assert p == 2.0 * h;
    Pow2Big(63 - n);
    MulPlus(w' - w, w - w1, p);
    MulTimes(2.0, w' - w1, h);
    MulLe(32.0, p, w - w1);
    MulComm(w - w1, p);
    ThirtyTwo(w - w1);
  }

  lemma Pow2Big(n: nat)
    requires n >= 56
    ensures Pow2(n) >= 32
  {
    hide Pow2;
    Pow2Monotone(5, n);
    assert Pow2(5) == 32 by { Pow2Five(); }
  }

  lemma Pow2Five()
    ensures Pow2(5) == 32
  {
    assert Pow2(2) == 4 && Pow2(3) == 8 && Pow2(4) == 16;
  }

  lemma ThirtyTwo(x: real)
    ensures Mul(32.0, x) == 32.0 * x
  {
  }

  lemma SettledStart(fract: int, w1: real)
    requires Normal(fract) && w1 > 0.0
    ensures Settled(fract, 0) && SettledNear(w1, w1, 0)
  {
    hide Pow2, Mul;
    Pow2Sixty();
    MulOne(Pow2(63) as real);
  }

  lemma TenthHalved(fract: int, exp: int)
    requires AtLeastTenth(fract, exp) && exp < 4 && fract >= 0
    ensures AtLeastTenth(Halved(fract), exp + 1)
  {
    assert Pow2(64 - exp) == 2 * Pow2(63 - exp);
  }

  lemma SettledEnd(w: real, w1: real, v: real, n: int, k: nat)
    requires SettledNear(w, w1, n) && Near(w1, v, k) && v > 0.0 && k <= 700
    ensures Near(w, v, k + 1)
  {
    hide Mul, Pow2;
    NearValue(w1, v, k);
    Pow2Monotone(56, 63 - n);
    Pow2Sixty();
    MulLe(Pow2(56) as real, Pow2(63 - n) as real, w - w1);
    MulComm(w - w1, Pow2(63 - n) as real);
    MulPrecision(w - w1);
    MulPlus(k as real, 1.0, v);
    MulOne(v);
    assert (k + 1) as real == k as real + 1.0;
  }

  lemma MulPrecision(x: real)
    ensures Mul(72057594037927936 as real, x) == 2.0 * (x * PRECISION)
  {
  }

  /** The third loop: halve until the binary exponent is 4. */
  method Settle(fract0: int, exp0: int, ghost decexp: int, ghost v: real, ghost k: nat) returns (fract: int)
    requires Normal(fract0) && -3 <= exp0 <= 0 && AtLeastTenth(fract0, exp0) && k <= 700
    requires v > 0.0 && Near(Value(fract0, exp0, decexp), v, k)
    ensures TWO60 <= 10 * fract && fract <= TWO60
    ensures Near(Value(fract, 4, decexp), v, k + 1)
  {
    hide Value, Near, Pow2, Mul;
    fract := fract0;
    var exp := exp0;
    ghost var w1 := Value(fract0, exp0, decexp);
    ValuePositive(fract0, exp0, decexp);
    SettledStart(fract0, w1);
    while exp < 4
      invariant exp0 <= exp <= 4 && 0 < fract <= TWO64 - 6
      invariant Settled(fract, exp - exp0) && SettledNear(Value(fract, exp, decexp), w1, exp - exp0)
      invariant AtLeastTenth(fract, exp)
      decreases 4 - exp
    {
      SettleStep(fract, exp, decexp, w1, exp - exp0);
      TenthHalved(fract, exp);
      fract := Rlrshift(fract);
      exp := exp + 1;
    }
    Pow2Sixty();
    Pow2Monotone(64 - (4 - exp0), 60);
    SettledEnd(Value(fract, 4, decexp), w1, v, 4 - exp0, k);
  }

  /** Main result: the scaling phase turns every normalised number with a double's
      exponent into a 60-bit fraction between 1/10 and 1 with a decimal exponent.
      It is off by at most (k + 1) * 2^-55 of the number, k being the number of turns
      of the first two loops: the decimal exponent, or its negative and at most one
      turn that goes back. */
  method Scale(fract0: int, exp0: int) returns (fract: int, decexp: int, ghost k: nat)
    requires Normal(fract0) && -1022 <= exp0 <= 1024
    ensures TWO60 <= 10 * fract && fract <= TWO60
    ensures -342 <= decexp <= 342 && k <= 342
    ensures if exp0 > -3 then k == decexp else -decexp <= k <= 2 - decexp
    ensures Near(Value(fract, 4, decexp), Value(fract0, exp0, 0), k + 1)
  {
    hide Value, Near, AtLeastTenth;
    ghost var v := Value(fract0, exp0, 0);
    ValuePositive(fract0, exp0, 0);
    var f1, exp1, decexp1;
    ghost var k1;
    f1, exp1, decexp1, k1 := ScaleUp(fract0, exp0);
    var f2, exp2;
    f2, exp2, decexp, k := ScaleDown(f1, exp1, decexp1, v, k1);
    fract := Settle(f2, exp2, decexp, v, k);
  }

  /** The three loops on a zero with the exponent zero: nothing but the third one runs,
      and zero stays zero. */
  method SettleZero() returns (fract: int)
    ensures fract == 0
  {
    fract := 0;
    var exp := 0;
    while exp < 4
      invariant 0 <= exp <= 4 && fract == 0
    {
      fract := Rlrshift(fract);
      exp := exp + 1;
    }
  }

  // ----- What the numbers mean -----

  /** The fields of a double: 1 + mantissa / 2^52, times 2^(exponent - 1023). */
  ghost function DoubleValueOf(mantissa: int, exponent: int): real {
    Mul((4503599627370496 + mantissa) as real, P2(exponent - 1075))
  }

  /** The number a finite double stands for: below the normal ones there is no leading 1. */
  ghost function DoubleMeant(mantissa: int, exponent: int): real {
    if exponent == 0 then Mul(mantissa as real, P2(-1074)) else DoubleValueOf(mantissa, exponent)
  }

  /** The conversion takes the leading 1 for granted, so that the number it starts from is
      the double's if and only if the double is normal. */
  lemma MeantIffNormal(mantissa: int, exponent: int)
    requires 0 <= mantissa < 4503599627370496 && 0 <= exponent
    ensures DoubleValueOf(mantissa, exponent) == DoubleMeant(mantissa, exponent) <==> exponent > 0
    ensures exponent == 0 ==> DoubleValueOf(mantissa, 0) > DoubleMeant(mantissa, 0)
  {
    hide P2;
    if exponent == 0 {
      var u := P2(-1075);
      P2Step(-1075);
      MulTimes(2.0, mantissa as real, u);
      MulPlus((4503599627370496 + mantissa) as real, 2.0 * (mantissa as real), u);
      MulTwice(mantissa as real, u);
      MulPositive((4503599627370496 - mantissa) as real, u);
      assert (4503599627370496 + mantissa) as real - 2.0 * (mantissa as real) == (4503599627370496 - mantissa) as real;
    }
  }

  lemma MulTwice(a: real, u: real)
    ensures Mul(2.0 * a, u) == Mul(a, 2.0 * u)
  {
  }

  lemma P2Eleven(e: int)
    ensures P2(e + 11) == 2048.0 * P2(e)
  {
    hide P2;
    P2Step(e);
    P2Step(e + 1);
    P2Step(e + 2);
    P2Step(e + 3);
    P2Step(e + 4);
    P2Step(e + 5);
    P2Step(e + 6);
    P2Step(e + 7);
    P2Step(e + 8);
    P2Step(e + 9);
    P2Step(e + 10);
  }

  /** The fraction and exponent that the conversion starts from are the double. */
  lemma StartIsDouble(mantissa: int, exponent: int)
    requires 0 <= mantissa < 4503599627370496
    ensures var fract := TWO63 + 2048 * mantissa;
      Normal(fract) && Value(fract, exponent - 1022, 0) == DoubleValueOf(mantissa, exponent)
  {
    hide P2, Mul;
    var fract := TWO63 + 2048 * mantissa;
    assert fract == 2048 * (4503599627370496 + mantissa);
    P2Eleven(exponent - 1086);
    assert P10(0) == 1.0;
    MulComm(P2(exponent - 1086), P10(0));
    MulOne(P2(exponent - 1086));
    Mul2048((4503599627370496 + mantissa) as real, P2(exponent - 1086));
  }

  lemma Mul2048(a: real, b: real)
    ensures Mul(2048.0 * a, b) == Mul(a, 2048.0 * b)
  {
  }

  /** The fraction that the digits are taken from is in units of 2^-60. */
  lemma EndIsDecimal(fract: int, decexp: int)
    ensures Value(fract, 4, decexp) * (TWO60 as real) == Mul(fract as real, P10(decexp))
  {
    hide Mul, P10, P2;
    P2Sixty();
    SixtyUnits(fract as real, P2(-60), P10(decexp));
  }

  lemma SixtyUnits(f: real, a: real, b: real)
    requires a * (TWO60 as real) == 1.0
    ensures Mul(f, Mul(a, b)) * (TWO60 as real) == Mul(f, b)
  {
    assert (a * b) * (TWO60 as real) == b;
    assert Mul(f, Mul(a, b)) * (TWO60 as real) == f * ((a * b) * (TWO60 as real));
  }

  lemma P2Sixty()
    ensures P2(-60) * (TWO60 as real) == 1.0
  {
    hide P2;
    P2Zero();
    P2Eleven(-11);
    P2Eleven(-22);
    P2Eleven(-33);
    P2Eleven(-44);
    P2Eleven(-55);
    P2Step(-60);
    P2Step(-59);
    P2Step(-58);
    P2Step(-57);
    P2Step(-56);
  }

  lemma P2Zero()
    ensures P2(0) == 1.0
  {
  }
}
