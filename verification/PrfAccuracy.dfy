// How far the printed text is from the double: the conversion's rounding is within
// 6/10 of a unit in the last printed place, and its scaling within (k + 1) * 2^-55.
module PrfAccuracy {
  import opened PrfDivide
  import opened PrfValue
  import opened PrfScale
  import opened Words
  import opened Decimal
  import opened PrfDigits
  import opened PrfFloat
  import opened PrfRead

  // ----- The digits as a number -----

  /** The digits asked for past the sixteenth are zeros. */
  lemma PastSixteen(fr: int, calls: nat)
    requires 0 <= fr < ONE && calls >= 16
    ensures Number(Emitted(fr, 16, calls)) == Prod(Number(Emitted(fr, 16, 16)), Pow10(calls - 16))
  {
    hide Emitted, Prod;
    EmittedConcat(fr, 16, 16, calls - 16);
    EmittedZeros(RestAfter(fr, 16, 16), calls - 16);
    NumberConcat(Emitted(fr, 16, 16), Repeat('0', calls - 16));
    NumberZeros(calls - 16);
  }

  lemma {:induction false} Pow10Plus(a: nat, b: nat)
    ensures Pow10(a + b) == Prod(Pow10(a), Pow10(b))
    decreases b
  {
    hide Prod;
    if b == 0 {
      ProdOne(Pow10(a));
    } else {
      Pow10Plus(a, b - 1);
      ProdTen(Pow10(a), Pow10(b - 1));
    }
  }

  /** `n0` places asked for, without a carry. */
  lemma PlainNumber(fract: int, n0: nat) returns (num: nat)
    requires Scaled(fract) && !Carries(fract, Places(n0))
    ensures Rounds(num, fract, Places(n0))
    ensures Number(Emitted(Rounded(fract, Places(n0)), 16, n0)) == Prod(num, Pow10(n0 - Places(n0)))
  {
    hide Prod, Emitted, Rounded, Rounds, Carries;
    var n := Places(n0);
    var fr := Rounded(fract, n);
    RoundsPlain(fract, n);
    num := Number(Emitted(fr, 16, n));
    if n0 <= 16 {
      ProdOne(num);
    } else {
      PastSixteen(fr, n0);
    }
  }

  /** `n0` places asked for, with a carry: a one and zeros. */
  lemma CarryNumber(fract: int, n0: nat, calls: nat)
    requires Scaled(fract) && Carries(fract, Places(n0)) && 1 <= calls <= n0 + 1
    ensures Number(Emitted(Rounded(fract, Places(n0)), 16, calls)) == Pow10(calls - 1)
  {
    hide Prod, Emitted, Rounded, Carries;
    var n := Places(n0);
    var fr := Rounded(fract, n);
    if calls <= 16 {
      CarryDigits(fract, n, calls);
    } else {
      CarryDigits(fract, n, 16);
      PastSixteen(fr, calls);
      Pow10Plus(15, calls - 16);
    }
  }

  /** The f style's digits, without the point. */
  function FixedNumeral(fr: int, d: int, precision: nat): (s: string)
    requires 0 <= fr < ONE
    ensures AllDigits(s)
  {
    WholePart(fr, d) + FractionPart(fr, d, precision)
  }

  /** They read as one numeral. */
  lemma FixedDigits(fr: int, d: int, precision: nat)
    requires 0 <= fr < ONE
    ensures Number(FixedNumeral(fr, d, precision)) ==
      Number(Emitted(fr, 16, if d + precision > 0 then d + precision else 0))
  {
    hide Emitted, AllDigits;
    if d > 0 {
      EmittedConcat(fr, 16, d, precision);
    } else {
      var zeros := Least(-d, precision);
      var rest := Emitted(fr, 16, precision - zeros);
      assert FixedNumeral(fr, d, precision) == Repeat('0', zeros + 1) + rest;
      NumberLeadingZeros(zeros + 1, rest);
    }
  }

  // ----- Powers of ten -----

  lemma {:induction false} P10IsPow10(n: nat)
    ensures P10(n) == Pow10(n) as real
  {
    if n > 0 { P10IsPow10(n - 1); }
  }

  lemma {:induction false} P10Plus(a: int, n: nat)
    ensures P10(a + n) == Mul(P10(a), P10(n))
  {
    hide Mul;
    if n == 0 {
      MulComm(P10(a), 1.0);
      MulOne(P10(a));
    } else {
      P10Plus(a, n - 1);
      P10Step(a + n - 1);
      P10Step(n - 1);
      MulTimes(10.0, P10(a), P10(n - 1));
    }
  }

  lemma MulIsProd(a: int, b: int)
    ensures Mul(a as real, b as real) == Prod(a, b) as real
  {
  }

  /** A numeral with zeros at its end, in places further down. */
  lemma ShiftPlaces(num: nat, zeros: nat, e: int)
    ensures Mul(Prod(num, Pow10(zeros)) as real, P10(e)) == Mul(num as real, P10(e + zeros))
  {
    hide Mul, Prod, P10, Pow10;
    MulIsProd(num, Pow10(zeros));
    P10IsPow10(zeros);
    P10Plus(e, zeros);
    MulComm(P10(e), P10(zeros));
    MulAssoc(num as real, P10(zeros), P10(e));
  }

  // ----- Accuracy -----

  /** `t` is within 6/10 of `unit` of a number that is within k * 2^-55 of `v`. */
  ghost predicate Accurate(t: real, v: real, unit: real, k: nat) {
    exists a: real :: Near(a, v, k) && Within(t, a, unit)
  }

  ghost predicate Within(t: real, a: real, unit: real) {
    -6.0 * unit <= 10.0 * (t - a) <= 6.0 * unit
  }

  /** A rounded numeral of `n` places, against the fraction it was taken from. */
  lemma RoundedWithin(num: nat, fract: int, n: nat, decexp: int)
    requires Rounds(num, fract, n)
    ensures Within(Mul(num as real, P10(decexp - n)), Value(fract, 4, decexp), P10(decexp - n))
  {
    hide Mul, Prod, P10, Pow10, Value;
    var u := P10(decexp - n);
    var p := Prod(fract, Pow10(n));
    EndIsDecimal(fract, decexp);
    P10Plus(decexp - n, n);
    P10IsPow10(n);
    MulComm(u, P10(n));
    MulAssoc(fract as real, P10(n), u);
    MulIsProd(fract, Pow10(n));
    assert Value(fract, 4, decexp) * (TWO60 as real) == Mul(p as real, u);
    var d := num * ONE - p;
    assert -6 * ONE <= 10 * d <= 6 * ONE;
    WithinUnits(num as real, p as real, u);
  }

  lemma WithinUnits(num: real, p: real, u: real)
    requires u > 0.0 && -6.0 * (ONE as real) <= 10.0 * (num * (ONE as real) - p) <= 6.0 * (ONE as real)
    ensures -6.0 * (u * (ONE as real)) <= 10.0 * (Mul(num, u) * (ONE as real) - Mul(p, u)) <= 6.0 * (u * (ONE as real))
  {
    var d := num * (ONE as real) - p;
    MulLe(10.0 * d, 6.0 * (ONE as real), u);
    MulLe(-6.0 * (ONE as real), 10.0 * d, u);
    assert Mul(10.0 * d, u) == 10.0 * (Mul(num, u) * (ONE as real) - Mul(p, u));
  }

  /** Where the last rounded place is in the f style. */
  ghost function FixedUnit(decexp: int, precision: nat): real {
    if precision + decexp <= 16 then P10(-(precision as int)) else P10(decexp - 16)
  }

  /** The number that an f-style text denotes, its sign aside. */
  ghost function FixedNumber(fract: int, decexp: int, precision: nat): real
    requires Scaled(fract)
  {
    var n := Places(precision + decexp);
    var fr, d := Rounded(fract, n), Carried(fract, n, decexp);
    Mul(Number(FixedNumeral(fr, d, precision)) as real, P10(-(precision as int)))
  }

  lemma FixedWithin(fract: int, decexp: int, precision: nat)
    requires Scaled(fract)
    ensures Within(FixedNumber(fract, decexp, precision), Value(fract, 4, decexp), FixedUnit(decexp, precision))
  {
    hide Mul, Prod, P10, Pow10, Emitted, Rounded, Rounds, Carries, Within, FixedNumeral, Value;
    var n0 := precision + decexp;
    var n := Places(n0);
    var fr, d := Rounded(fract, n), Carried(fract, n, decexp);
    FixedDigits(fr, d, precision);
    if n0 < 0 {
      NothingPrinted(fract, decexp, precision, fr);
    } else {
      var num: nat;
      if Carries(fract, n) {
        CarryNumber(fract, n0, n0 + 1);
        CarryRounds(fract, n);
        num := Pow10(n);
        Pow10Plus(n, n0 - n);
      } else {
        num := PlainNumber(fract, n0);
      }
      ShiftPlaces(num, n0 - n, -(precision as int));
      RoundedWithin(num, fract, n, decexp);
    }
  }

  /** When the first digit lies past the last printed place, zero is printed. */
  lemma NothingPrinted(fract: int, decexp: int, precision: nat, fr: int)
    requires Scaled(fract) && precision + decexp < 0 && 0 <= fr < ONE
    ensures Number(Emitted(fr, 16, 0)) == 0
    ensures Within(Mul(0.0, P10(-(precision as int))), Value(fract, 4, decexp), P10(-(precision as int)))
  {
    hide Mul, P10, Value;
    EmittedNone(fr, 16);
    MulOne(P10(-(precision as int)));
    EndIsDecimal(fract, decexp);
    ValuePositive(fract, 4, decexp);
    MulLe(fract as real, ONE as real, P10(decexp));
    MulSixty(P10(decexp));
    SmallPower(decexp, precision);
  }

  lemma MulSixty(x: real)
    ensures Mul(ONE as real, x) == x * (ONE as real)
  {
  }

  /** Below the last place the number is at most a tenth of it. */
  lemma SmallPower(decexp: int, precision: nat)
    requires precision + decexp < 0
    ensures 10.0 * P10(decexp) <= P10(-(precision as int))
  {
    hide Mul, P10;
    var n := -(precision as int) - 1 - decexp;
    P10Plus(decexp, n);
    P10Step(-(precision as int) - 1);
    P10IsPow10(n);
    MulComm(P10(decexp), P10(n));
    MulLe(1.0, P10(n), P10(decexp));
    MulOne(P10(decexp));
  }

  /** The e style's digits, without the point. */
  function ScientificNumeral(fr: int, precision: nat): (s: string)
    requires 0 <= fr < ONE
    ensures AllDigits(s)
  {
    Emitted(fr, 16, 1) + Emitted(RestAfter(fr, 16, 1), 15, precision)
  }

  /** The number that an e-style text denotes, its sign aside: the digits, with the
      point after the first, times ten to the printed exponent. */
  ghost function ScientificNumber(fract: int, decexp: int, precision: nat): real
    requires Scaled(fract)
  {
    var n := Places(precision + 1);
    var fr, d := Rounded(fract, n), Carried(fract, n, decexp);
    Mul(Number(ScientificNumeral(fr, precision)) as real, P10(d - 1 - precision))
  }

  lemma ScientificWithin(fract: int, decexp: int, precision: nat)
    requires Scaled(fract)
    ensures Within(ScientificNumber(fract, decexp, precision), Value(fract, 4, decexp), P10(decexp - Places(precision + 1)))
  {
    hide Mul, Prod, P10, Pow10, Emitted, Rounded, Rounds, Carries, Within, Value;
    var n0 := precision + 1;
    var n := Places(n0);
    var fr, d := Rounded(fract, n), Carried(fract, n, decexp);
    EmittedConcat(fr, 16, 1, precision);
    var num: nat;
    if Carries(fract, n) {
      CarryNumber(fract, n0, n0);
      CarryRounds(fract, n);
      num := Pow10(n);
      ProdOne(Pow10(precision));
      ShiftPlaces(1, precision, decexp - precision);
      ProdOne(Pow10(n));
      ShiftPlaces(1, n, decexp - n);
    } else {
      num := PlainNumber(fract, n0);
      ShiftPlaces(num, n0 - n, decexp - 1 - precision);
    }
    RoundedWithin(num, fract, n, decexp);
  }

  // ----- What the text says -----

  /** The same with signs: `t` for the number printed, `v` for the one converted. */
  ghost predicate Close(t: real, v: real, unit: real, k: nat) {
    if v < 0.0 then Accurate(-t, -v, unit, k) else Accurate(t, v, unit, k)
  }

  predicate SignShown(sign: string, negative: bool, plus: bool, space: bool) {
    && (sign == "-" <==> negative)
    && (sign == "+" <==> !negative && plus)
    && (sign == " " <==> !negative && !plus && space)
    && (sign == "" <==> !negative && !plus && !space)
  }

  predicate IsFixed(c: char) {
    c == 'f' || c == 'F'
  }

  /** What a reader finds: the sign as asked for, a point when there are decimals or it is
      asked for, as many decimals as asked for, no zero before the whole part, in the e
      style one digit before the point and two in the power; and altogether a number close
      to `v`.  Only in the e style, and far from 1, may the text be unreadable. */
  ghost predicate Prints(buf: string, v: real, c: char, alt: bool, plus: bool, space: bool, precision: nat, k: nat) {
    match ReadNumber(buf)
    case None => !IsFixed(c) && (v > P10(98) || v < -P10(98) || -P10(-98) < v < P10(-98))
    case Some(r) =>
      && SignShown(r.sign, v < 0.0, plus, space)
      && r.point == (alt || precision > 0) && |r.fraction| == precision
      && (r.whole != [] && (r.whole[0] == '0' ==> r.whole == "0"))
      && (if IsFixed(c) then r.power == None
          else r.power.Some? && r.power.value.letter == c && |r.power.value.digits| == 2 && |r.whole| == 1 && r.whole != "0")
      && Readable(r) && Close(Denotes(r), v, LastPlace(r), k)
  }

  lemma {:induction false} P10Le(a: int, b: int)
    requires a <= b
    ensures P10(a) <= P10(b)
    decreases b - a
  {
    hide P10;
    if a < b {
      P10Le(a, b - 1);
      P10Step(b - 1);
    }
  }

  lemma WiderUnit(t: real, v: real, unit: real, wider: real, k: nat)
    requires Accurate(t, v, unit, k) && unit <= wider
    ensures Accurate(t, v, wider, k)
  {
    hide Near;
    var a: real :| Near(a, v, k) && Within(t, a, unit);
    assert Near(a, v, k) && Within(t, a, wider);
  }

  /** `m` with its sign. */
  ghost function Signed(negative: bool, m: real): real {
    if negative then -m else m
  }

  lemma SignTextShown(negative: bool, plus: bool, space: bool)
    ensures IsSign(SignText(negative, plus, space)) && SignShown(SignText(negative, plus, space), negative, plus, space)
  {
  }

  lemma CloseSigned(r: Reading, negative: bool, m: real, unit: real, k: nat)
    requires Readable(r) && m > 0.0 && (r.sign == "-" <==> negative)
    requires Accurate(Magnitude(r), m, unit, k) && unit <= LastPlace(r)
    ensures Close(Denotes(r), Signed(negative, m), LastPlace(r), k)
  {
    hide Magnitude, LastPlace, Accurate;
    WiderUnit(Magnitude(r), m, unit, LastPlace(r), k);
    assert -(-Magnitude(r)) == Magnitude(r) && -(-m) == m;
  }

  lemma CarriedBy(fract: int, n: nat, decexp: int)
    requires Scaled(fract)
    ensures decexp <= Carried(fract, n, decexp) <= decexp + 1
    ensures ONE <= 10 * Rounded(fract, n) && Rounded(fract, n) < ONE
  {
    hide Carries;
  }

  lemma FixedUnitLe(decexp: int, d: int, precision: nat)
    requires decexp <= d
    ensures var n := if d + precision > 0 then d + precision else 0;
      FixedUnit(decexp, precision) <= P10(0 - precision + (if n > 16 then n - 16 else 0))
  {
    hide P10;
    var n := if d + precision > 0 then d + precision else 0;
    var top := 0 - precision + (if n > 16 then n - 16 else 0);
    P10Le(if precision + decexp <= 16 then -(precision as int) else decexp - 16, top);
  }

  lemma FixedPrints(buf: string, negative: bool, m: real, c: char, alt: bool, plus: bool, space: bool, precision: nat,
                    fract: int, decexp: int, k: nat)
    requires IsFixed(c) && m > 0.0 && Scaled(fract)
    requires buf == SignText(negative, plus, space) + FixedText(fract, decexp, alt, precision)
    requires Accurate(FixedNumber(fract, decexp, precision), m, FixedUnit(decexp, precision), k)
    ensures Prints(buf, Signed(negative, m), c, alt, plus, space, precision, k)
  {
    hide Rounded, Carried, SignText, FixedText, ReadNumber, Close, Accurate, Mul, P10, FixedUnit, WholePart, FractionPart, AllDigits;
    var n := Places(precision + decexp);
    var fr, d := Rounded(fract, n), Carried(fract, n, decexp);
    CarriedBy(fract, n, decexp);
    SignTextShown(negative, plus, space);
    var sign := SignText(negative, plus, space);
    FixedParts(sign, fract, decexp, alt, precision);
    ReadReadable(buf);
    var r := ReadNumber(buf).value;
    FixedSignificant(fr, d, precision);
    FixedUnitLe(decexp, d, precision);
    WholeStart(fr, d);
    assert Magnitude(r) == FixedNumber(fract, decexp, precision);
    CloseSigned(r, negative, m, FixedUnit(decexp, precision), k);
  }

  lemma WholeStart(fr: int, d: int)
    requires ONE <= 10 * fr && 0 <= fr < ONE
    ensures var s := WholePart(fr, d); s != [] && (s[0] == '0' ==> s == "0")
  {
    hide Emitted;
    if d > 0 { EmittedFirst(fr, d); }
  }

  lemma ScientificPrints(buf: string, negative: bool, m: real, c: char, alt: bool, plus: bool, space: bool, precision: nat,
                         fract: int, decexp: int, k: nat)
    requires (c == 'e' || c == 'E') && m > 0.0 && Scaled(fract) && -343 < decexp < 343 && k <= 1000
    requires buf == SignText(negative, plus, space) + ScientificText(c, fract, decexp, alt, precision)
    requires Accurate(ScientificNumber(fract, decexp, precision), m, P10(decexp - Places(precision + 1)), k)
    requires Near(Value(fract, 4, decexp), m, k)
    ensures Prints(buf, Signed(negative, m), c, alt, plus, space, precision, k)
  {
    hide Rounded, Carried, SignText, ScientificText, ReadNumber, Close, Accurate, Mul, P10, Emitted, AllDigits, ExponentText, Value, Near,
      RestAfter, Number;
    var n := Places(precision + 1);
    var fr, d := Rounded(fract, n), Carried(fract, n, decexp);
    CarriedBy(fract, n, decexp);
    SignTextShown(negative, plus, space);
    var sign := SignText(negative, plus, space);
    ScientificParts(sign, c, fract, decexp, alt, precision);
    ExponentReads(c, d - 1);
    if -100 < d - 1 < 100 {
      ReadReadable(buf);
      var r := ReadNumber(buf).value;
      ScientificSignificant(fr, precision);
      P10Le(decexp - n, d - n);
      EmittedFirst(fr, 1);
      assert PowerOf(r) == d - 1;
      assert Magnitude(r) == ScientificNumber(fract, decexp, precision);
      CloseSigned(r, negative, m, P10(decexp - n), k);
    } else {
      FarFromOne(fract, decexp, d, m, k);
    }
  }

  /** The decimal exponent bounds the number. */
  lemma FarFromOne(fract: int, decexp: int, d: int, m: real, k: nat)
    requires Scaled(fract) && decexp <= d <= decexp + 1 && (d >= 101 || d <= -99)
    requires m > 0.0 && k <= 1000 && Near(Value(fract, 4, decexp), m, k)
    ensures m > P10(98) || m < P10(-98)
  {
    hide P10, Mul, Near, Value;
    var w := Value(fract, 4, decexp);
    NearValue(w, m, k);
    ValueBetween(fract, decexp);
    if d >= 101 {
      P10Le(99, decexp - 1);
      P10Step(98);
    } else {
      P10Le(decexp, -99);
      P10Step(-99);
    }
  }

  lemma ValueBetween(fract: int, decexp: int)
    requires Scaled(fract)
    ensures P10(decexp - 1) <= Value(fract, 4, decexp) <= P10(decexp)
  {
    hide P10, Mul, Value;
    var u := P10(decexp - 1);
    EndIsDecimal(fract, decexp);
    P10Step(decexp - 1);
    MulLe(fract as real, ONE as real, P10(decexp));
    MulSixty(P10(decexp));
    MulLe(ONE as real / 10.0, fract as real, P10(decexp));
    MulTenth(P10(decexp));
  }

  lemma MulTenth(x: real)
    ensures Mul(ONE as real / 10.0, x) == x * (ONE as real) / 10.0
  {
  }

  // ----- The conversion -----

  /** The text is the sign and the digits, in the f or the e style, of a number that is
      within 6/10 of the last place of one within (k + 1) * 2^-55 of `m`, and reads so; k
      is the decimal exponent, or its negative and at most two, by the binary exponent
      `exp`. */
  ghost predicate Renders(buf: string, negative: bool, m: real, exp: int, c: char, alt: bool, plus: bool, space: bool,
                          precision: nat, fract: int, decexp: int, k: nat) {
    && k <= 342 && Scaled(fract) && -343 < decexp < 343
    && (if exp > -3 then k == decexp else -decexp <= k <= 2 - decexp)
    && Prints(buf, Signed(negative, m), c, alt, plus, space, precision, k + 1)
    && if IsFixed(c) then
         && buf == SignText(negative, plus, space) + FixedText(fract, decexp, alt, precision)
         && Accurate(FixedNumber(fract, decexp, precision), m, FixedUnit(decexp, precision), k + 1)
       else
         && buf == SignText(negative, plus, space) + ScientificText(c, fract, decexp, alt, precision)
         && Accurate(ScientificNumber(fract, decexp, precision), m, P10(decexp - Places(precision + 1)), k + 1)
  }

  ghost predicate Rendered(buf: string, negative: bool, m: real, exp: int, c: char, alt: bool, plus: bool, space: bool, precision: nat) {
    exists fract: int, decexp: int, k: nat :: Renders(buf, negative, m, exp, c, alt, plus, space, precision, fract, decexp, k)
  }

  /** Zero reads as zero, with the sign that the flags ask for but never a minus. */
  ghost predicate PrintsZero(buf: string, c: char, alt: bool, plus: bool, space: bool, precision: nat) {
    && ReadNumber(buf).Some?
    && var r := ReadNumber(buf).value;
      && SignShown(r.sign, false, plus, space)
      && r.point == (alt || precision > 0) && |r.fraction| == precision && r.whole == "0"
      && (if IsFixed(c) then r.power == None else r.power.Some? && r.power.value.letter == c && |r.power.value.digits| == 2)
      && Readable(r) && Denotes(r) == 0.0
  }

  lemma ZeroPrints(buf: string, c: char, alt: bool, plus: bool, space: bool, precision: nat)
    requires IsFixed(c) || c == 'e' || c == 'E'
    requires buf == SignText(false, plus, space) + ZeroText(if c == 'F' then 'f' else c, alt, precision)
    ensures PrintsZero(buf, c, alt, plus, space, precision)
  {
    hide ReadNumber, Mul, P10, ZeroText, SignText;
    SignTextShown(false, plus, space);
    ZeroParts(SignText(false, plus, space), if c == 'F' then 'f' else c, alt, precision);
    ReadReadable(buf);
    NumberZeros(precision + 1);
    var r := ReadNumber(buf).value;
    assert r.whole + r.fraction == Repeat('0', precision + 1);
    MulOne(P10(PowerOf(r) - |r.fraction|));
  }

  /** The text of an infinity or of not a number. */
  function SpecialText(negative: bool, infinite: bool, upper: bool): string {
    (if negative then "-" else "") + (if infinite then (if upper then "INF" else "inf") else if upper then "NAN" else "nan")
  }

  /** pos_libc_to_float, in the f and e styles, for every double.  An infinity or not a
      number is printed as such.  Otherwise the text is the sign and the digits of a number
      close to the one that the fields give with a leading 1, and is read back as such;
      zero is zero. */
  method ToFloat(negative: bool, exponent: int, mantissa: int, c0: char, alt: bool, plus: bool, space: bool, precision0: int)
    returns (buf: string)
    requires 0 <= exponent <= 2047 && 0 <= mantissa < 4503599627370496
    requires c0 == 'f' || c0 == 'F' || c0 == 'e' || c0 == 'E'
    ensures var precision := if precision0 < 0 then 6 else precision0;
      if exponent == 2047 then buf == SpecialText(negative, mantissa == 0, c0 == 'F' || c0 == 'E')
      else if exponent == 0 && mantissa == 0 then PrintsZero(buf, c0, alt, plus, space, precision)
      else Rendered(buf, negative, DoubleValueOf(mantissa, exponent), exponent - 1022, c0, alt, plus, space, precision)
  {
    hide Near, Within, Value, DoubleValueOf, NumberText, FixedNumber, ScientificNumber, FixedUnit, P10, Normal,
      Prints, PrintsZero, Accurate;
    if exponent == 2047 {
      buf := Special(negative, mantissa, c0);
      return;
    }
    var c := if c0 == 'F' then 'f' else c0;
    var nonzero := exponent != 0 || mantissa != 0;
    buf := "";
    if nonzero && negative {
      buf := buf + ['-'];
    } else if plus {
      buf := buf + ['+'];
    } else if space {
      buf := buf + [' '];
    }
    assert buf == SignText(nonzero && negative, plus, space);
    var precision := if precision0 < 0 then 6 else precision0;
    if !nonzero {
      var f := SettleZero();
      buf := WriteNumber(buf, f, 0, c, alt, precision);
      ZeroIsText(c, alt, precision);
      ZeroPrints(buf, c0, alt, plus, space, precision);
      return;
    }
    StartIsDouble(mantissa, exponent);
    var f, d;
    ghost var k;
    f, d, k := Scale(mantissa * 2048 + TWO63, exponent - 1022);
    buf := WriteNumber(buf, f, d, c, alt, precision);
    FiniteRenders(buf, negative, mantissa, exponent, c0, alt, plus, space, precision, f, d, k);
  }

  lemma ZeroIsText(c: char, alt: bool, precision: nat)
    ensures NumberText(0, 0, c, alt, precision) == ZeroText(c, alt, precision)
  {
  }

  method Special(negative: bool, mantissa: int, c: char) returns (buf: string)
    requires c == 'f' || c == 'F' || c == 'e' || c == 'E'
    ensures buf == SpecialText(negative, mantissa == 0, c == 'F' || c == 'E')
  {
    buf := "";
    if negative {
      buf := buf + ['-'];
    }
    if mantissa == 0 {
      if 'A' <= c <= 'Z' {
        buf := buf + ['I'] + ['N'] + ['F'];
      } else {
        buf := buf + ['i'] + ['n'] + ['f'];
      }
    } else {
      if 'A' <= c <= 'Z' {
        buf := buf + ['N'] + ['A'] + ['N'];
      } else {
        buf := buf + ['n'] + ['a'] + ['n'];
      }
    }
  }

  /** The text written from the scaled fraction renders the number. */
  lemma FiniteRenders(buf: string, negative: bool, mantissa: int, exponent: int, c0: char, alt: bool, plus: bool, space: bool,
                      precision: nat, f: int, d: int, k: nat)
    requires mantissa >= 0 && (c0 == 'f' || c0 == 'F' || c0 == 'e' || c0 == 'E')
    requires Scaled(f) && -343 < d < 343 && k <= 342
    requires if exponent - 1022 > -3 then k == d else -d <= k <= 2 - d
    requires Near(Value(f, 4, d), DoubleValueOf(mantissa, exponent), k + 1)
    requires buf == SignText(negative, plus, space) + NumberText(f, d, if c0 == 'F' then 'f' else c0, alt, precision)
    ensures Rendered(buf, negative, DoubleValueOf(mantissa, exponent), exponent - 1022, c0, alt, plus, space, precision)
  {
    hide Near, Within, Value, DoubleValueOf, FixedText, ScientificText, FixedNumber, ScientificNumber, FixedUnit, P10, Prints, Accurate,
      SignText;
    var m := DoubleValueOf(mantissa, exponent);
    DoublePositive(mantissa, exponent);
    if IsFixed(c0) {
      FixedAccurate(m, f, d, precision, k + 1);
      FixedPrints(buf, negative, m, c0, alt, plus, space, precision, f, d, k + 1);
    } else {
      ScientificAccurate(m, f, d, precision, k + 1);
      ScientificPrints(buf, negative, m, c0, alt, plus, space, precision, f, d, k + 1);
    }
    assert Renders(buf, negative, m, exponent - 1022, c0, alt, plus, space, precision, f, d, k);
  }

  lemma DoublePositive(mantissa: int, exponent: int)
    requires mantissa >= 0
    ensures DoubleValueOf(mantissa, exponent) > 0.0
  {
    MulPositive((4503599627370496 + mantissa) as real, P2(exponent - 1075));
  }

  lemma FixedAccurate(m: real, fract: int, decexp: int, precision: nat, k: nat)
    requires Scaled(fract) && Near(Value(fract, 4, decexp), m, k)
    ensures Accurate(FixedNumber(fract, decexp, precision), m, FixedUnit(decexp, precision), k)
  {
    hide Near, Within, Value, FixedNumber, FixedUnit;
    FixedWithin(fract, decexp, precision);
  }

  lemma ScientificAccurate(m: real, fract: int, decexp: int, precision: nat, k: nat)
    requires Scaled(fract) && Near(Value(fract, 4, decexp), m, k)
    ensures Accurate(ScientificNumber(fract, decexp, precision), m, P10(decexp - Places(precision + 1)), k)
  {
    hide Near, Within, Value, ScientificNumber, P10;
    ScientificWithin(fract, decexp, precision);
  }
}
