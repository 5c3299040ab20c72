// The second half of the float conversion: rounding, and taking digits off a
// 60-bit fraction.
module PrfDigits {
  import opened PrfDivide
  import opened Words
  import opened Numerals
  import opened Decimal

  const ONE := 0x1000_0000_0000_0000

  // ----- Taking digits -----

  /** The next decimal digit of a fraction, and the fraction that is left. */
  function NextDigit(fr: int): (d: int)
    requires 0 <= fr < ONE
    ensures 0 <= d <= 9
  {
    fr * 10 / ONE
  }

  function NextRest(fr: int): (r: int)
    requires 0 <= fr < ONE
    ensures 0 <= r < ONE && fr * 10 == NextDigit(fr) * ONE + r
  {
    fr * 10 % ONE
  }

  /** pos_libc_get_digit. */
  method GetDigit(fr0: int, count0: int) returns (c: char, fr: int, count: int)
    requires 0 <= fr0 < ONE
    ensures count0 > 0 ==> c == DigitChar(NextDigit(fr0)) && fr == NextRest(fr0) && count == count0 - 1
    ensures count0 <= 0 ==> c == '0' && fr == fr0 && count == count0
    ensures 0 <= fr < ONE
  {
    fr, count := fr0, count0;
    if count > 0 {
      count := count - 1;
      fr := fr * 10 % TWO64;
      var rval := fr / ONE % 16;
      c := DigitChar(rval);
      fr := fr % ONE;
    } else {
      c := '0';
    }
  }

  /** What `n` calls bring. */
  function Emitted(fr: int, count: nat, n: nat): (s: string)
    requires 0 <= fr < ONE
    ensures |s| == n && AllDigits(s)
    decreases n
  {
    if n == 0 then []
    else if count > 0 then [DigitChar(NextDigit(fr))] + Emitted(NextRest(fr), count - 1, n - 1)
    else ['0'] + Emitted(fr, 0, n - 1)
  }

  /** The state after `n` calls. */
  function RestAfter(fr: int, count: nat, n: nat): (r: int)
    requires 0 <= fr < ONE
    ensures 0 <= r < ONE
    decreases n
  {
    if n == 0 || count == 0 then fr else RestAfter(NextRest(fr), count - 1, n - 1)
  }

  function CountAfter(count: nat, n: nat): nat {
    if n <= count then count - n else 0
  }

  lemma EmittedNone(fr: int, count: nat)
    requires 0 <= fr < ONE
    ensures Emitted(fr, count, 0) == []
  {
  }

  lemma EmittedHead(fr: int, count: nat, n: nat)
    requires 0 <= fr < ONE && n > 0
    ensures Emitted(fr, count, n) ==
      [if count > 0 then DigitChar(NextDigit(fr)) else '0']
      + Emitted(if count > 0 then NextRest(fr) else fr, if count > 0 then count - 1 else 0, n - 1)
  {
  }

  lemma {:induction false} EmittedConcat(fr: int, count: nat, n: nat, m: nat)
    requires 0 <= fr < ONE
    ensures Emitted(fr, count, n + m) == Emitted(fr, count, n) + Emitted(RestAfter(fr, count, n), CountAfter(count, n), m)
    decreases n
  {
    hide NextDigit, NextRest, AllDigits, Emitted;
    if n == 0 {
      EmittedNone(fr, count);
    } else {
      var (fr1, count1) := if count > 0 then (NextRest(fr), count - 1) else (fr, 0);
      EmittedConcat(fr1, count1, n - 1, m);
      EmittedHead(fr, count, n);
      EmittedHead(fr, count, n + m);
    }
  }

  lemma {:induction false} EmittedZeros(fr: int, n: nat)
    requires 0 <= fr < ONE
    ensures Emitted(fr, 0, n) == Repeat('0', n)
    decreases n
  {
    if n > 0 {
      EmittedZeros(fr, n - 1);
      assert ['0'] + Repeat('0', n - 1) == Repeat('0', n);
    }
  }

  /** While there are digits to give, they spell the fraction: the number they
      denote is fr * 10^n / 2^60, rounded down. */
  lemma {:induction false} DigitsSpell(fr: int, count: nat, n: nat)
    requires 0 <= fr < ONE && n <= count
    ensures var num := Number(Emitted(fr, count, n));
      num * ONE <= Prod(fr, Pow10(n)) < num * ONE + ONE
    decreases n
  {
    hide Prod, NextDigit, NextRest;
    if n == 0 {
      ProdOne(fr);
    } else {
      var d, r, p := NextDigit(fr), NextRest(fr), Pow10(n - 1);
      var rest := Emitted(r, count - 1, n - 1);
      DigitsSpell(r, count - 1, n - 1);
      NumberConcat([DigitChar(d)], rest);
      NumberOne(DigitChar(d));
      SpellStep(fr, d, r, p);
      assert Number(Emitted(fr, count, n)) == Prod(d, p) + Number(rest);
    }
  }

  lemma SpellStep(fr: int, d: int, r: int, p: int)
    requires fr * 10 == d * ONE + r
    ensures Prod(fr, 10 * p) == Prod(d, p) * ONE + Prod(r, p)
  {
    assert Prod(fr, 10 * p) == (fr * 10) * p;
  }

  /** So they are the digits of floor(fr * 10^n / 2^60). */
  lemma DigitsAreFloor(fr: int, count: nat, n: nat)
    requires 0 <= fr < ONE && n <= count
    ensures Number(Emitted(fr, count, n)) == Prod(fr, Pow10(n)) / ONE
  {
    hide Prod, Emitted;
    DigitsSpell(fr, count, n);
  }

  // ----- The rounding term -----

  /** Half a unit of the n-th place, as the loop of halved fifths computes it. */
  function HalfUnit(n: nat): (t: int)
    ensures 0 <= t <= ONE / 2
  {
    if n == 0 then ONE / 2 else Tenth(HalfUnit(n - 1))
  }

  /** ldiv5, then rlrshift. */
  function Tenth(x: int): (t: int)
    requires 0 <= x <= TWO64 - 3
    ensures 0 <= t && x - 2 <= 10 * t <= x + 7
    ensures x >= ONE ==> 10 * t >= ONE
    ensures x <= ONE / 2 ==> t <= ONE / 2
  {
    Halved(Fifth(x))
  }

  method RoundingTerm(n: nat) returns (t: int)
    ensures t == HalfUnit(n)
  {
    t := ONE / 2;
    var exp := n;
    while exp > 0
      invariant 0 <= exp <= n && t == HalfUnit(n - exp)
    {
      t := Ldiv5(t);
      t := Rlrshift(t);
      exp := exp - 1;
    }
  }

  /** The rounding term is half a unit, off by less than one 2^-60. */
  lemma {:induction false} HalfUnitExact(n: nat)
    ensures ONE - Pow10(n) <= 2 * Prod(HalfUnit(n), Pow10(n)) <= ONE + 2 * Pow10(n)
  {
    hide Prod, Tenth;
    if n == 0 {
      ProdOne(HalfUnit(0));
    } else {
      HalfUnitExact(n - 1);
      var x, t, p := HalfUnit(n - 1), HalfUnit(n), Pow10(n - 1);
      HalfUnitStep(x, t, p);
    }
  }

  lemma HalfUnitStep(x: int, t: int, p: int)
    requires x - 2 <= 10 * t <= x + 7 && p >= 1
    ensures Prod(x, p) - 2 * p <= Prod(t, 10 * p) <= Prod(x, p) + 7 * p
  {
    hide Prod;
    ProdTen(t, p);
    ProdLe(x - 2, 10 * t, p);
    ProdLe(10 * t, x + 7, p);
    ProdPlus(x - 2, 2, p);
    ProdPlus(x, 7, p);
    ProdSmall(p);
  }

  lemma ProdSmall(p: int)
    ensures Prod(2, p) == 2 * p && Prod(7, p) == 7 * p
  {
  }

  // ----- Rounding -----

  /** A scaled fraction: between 1/10 and 1. */
  predicate Scaled(fract: int) {
    ONE <= 10 * fract && fract <= ONE
  }

  predicate Carries(fract: int, n: nat) {
    fract + HalfUnit(n) >= ONE
  }

  /** The fraction after rounding to `n` places, divided by ten when it reaches 1. */
  function Rounded(fract: int, n: nat): (fr: int)
    requires Scaled(fract)
    ensures ONE <= 10 * fr && 0 < fr < ONE
  {
    var x := fract + HalfUnit(n);
    if x >= ONE then Tenth(x) else x
  }

  lemma {:induction false} Pow10Le(j: nat, k: nat)
    requires j <= k
    ensures Pow10(j) <= Pow10(k)
  {
    if j < k { Pow10Le(j, k - 1); }
  }

  lemma Pow10Sixteen()
    ensures Pow10(15) == 1_000_000_000_000_000 && Pow10(16) == 10_000_000_000_000_000
  {
    assert Pow10(2) == 100;
    assert Pow10(4) == 10000;
    assert Pow10(6) == 1_000_000;
    assert Pow10(8) == 100_000_000;
    assert Pow10(10) == 10_000_000_000;
    assert Pow10(12) == 1_000_000_000_000;
    assert Pow10(14) == 100_000_000_000_000;
  }

  /** The exact multiple of 10^n that is printed is within 6/10 of the fraction's. */
  predicate Rounds(num: int, fract: int, n: nat) {
    -6 * ONE <= 10 * (num * ONE - Prod(fract, Pow10(n))) <= 6 * ONE
  }

  /** Without a carry, `n` digits are the rounded fraction. */
  lemma RoundsPlain(fract: int, n: nat)
    requires Scaled(fract) && n <= 16 && !Carries(fract, n)
    ensures Rounds(Number(Emitted(Rounded(fract, n), 16, n)), fract, n)
  {
    hide Prod, Emitted, HalfUnit;
    var h, p := HalfUnit(n), Pow10(n);
    HalfUnitExact(n);
    DigitsSpell(fract + h, 16, n);
    ProdPlus(fract, h, p);
    Pow10Le(n, 16);
    Pow10Sixteen();
  }

  /** With a carry, what is printed is a one and zeros. */
  lemma CarryDigits(fract: int, n: nat, m: nat)
    requires Scaled(fract) && n <= 16 && Carries(fract, n) && 1 <= m <= n + 1 && m <= 16
    ensures Number(Emitted(Rounded(fract, n), 16, m)) == Pow10(m - 1)
  {
    hide Prod, Emitted, HalfUnit, Tenth;
    var h, q := HalfUnit(n), Pow10(m - 1);
    var t := Tenth(fract + h);
    HalfUnitSmall(n, m);
    Pow10Le(m - 1, n);
    Pow10Le(n, 16);
    Pow10Sixteen();
    DigitsSpell(t, 16, m);
    assert ONE <= 10 * t <= ONE + h + 7;
    TenthPlaces(t, h, q);
    NearOne(Number(Emitted(t, 16, m)), Prod(t, 10 * q), Prod(h, q), q);
  }

  /** A number between 1/10 and little more, moved up some places. */
  lemma TenthPlaces(t: int, h: nat, q: nat)
    requires ONE <= 10 * t <= ONE + h + 7
    ensures ONE * q <= Prod(t, 10 * q) <= ONE * q + Prod(h, q) + 7 * q
  {
    hide Prod;
    ProdTen(t, q);
    ProdLe(ONE, 10 * t, q);
    ProdLe(10 * t, ONE + h + 7, q);
    ProdPlus(ONE, h, q);
    ProdPlus(ONE + h, 7, q);
    ProdSmall(q);
    ProdOneIs(q);
  }

  lemma NearOne(num: int, x: int, y: int, q: nat)
    requires num * ONE <= x < num * ONE + ONE && ONE * q <= x <= ONE * q + y + 7 * q
    requires 2 * y + 14 * q < 2 * ONE
    ensures num == q
  {
  }

  /** The rounding term is small against the places that are printed. */
  lemma HalfUnitSmall(n: nat, m: nat)
    requires n <= 16 && 1 <= m <= n + 1
    ensures 2 * Prod(HalfUnit(n), Pow10(m - 1)) <= ONE + 2 * Pow10(n)
  {
    hide Prod, HalfUnit;
    HalfUnitExact(n);
    Pow10Le(m - 1, n);
    ProdComm(HalfUnit(n), Pow10(m - 1));
    ProdComm(HalfUnit(n), Pow10(n));
    ProdLe(Pow10(m - 1), Pow10(n), HalfUnit(n));
  }

  /** A carry happens only within 6/10 of a unit of 1. */
  lemma CarryRounds(fract: int, n: nat)
    requires Scaled(fract) && n <= 16 && Carries(fract, n)
    ensures Rounds(Pow10(n), fract, n)
  {
    hide Prod, HalfUnit;
    var h, p := HalfUnit(n), Pow10(n);
    HalfUnitExact(n);
    Pow10Le(n, 16);
    Pow10Sixteen();
    ProdPlus(fract, h, p);
    ProdLe(fract, ONE, p);
    ProdLe(ONE, fract + h, p);
    ProdOneIs(p);
  }

  lemma ProdOneIs(p: int)
    ensures Prod(ONE, p) == ONE * p
  {
  }
}
