// Conversion of a double to text, in the f and e styles, and how far the text is
// from the double.
module PrfFloat {
  import opened PrfDivide
  import opened PrfValue
  import opened PrfScale
  import opened Words
  import opened Numerals
  import opened Decimal
  import opened PrfDigits

  // ----- The text -----

  /** The number of digits to round to: at most 16. */
  function Places(n: int): nat {
    if n < 0 then 0 else if n > 16 then 16 else n
  }

  function SignText(negative: bool, plus: bool, space: bool): string {
    if negative then "-" else if plus then "+" else if space then " " else ""
  }

  function Dot(alt: bool, precision: int): string {
    if alt || precision > 0 then "." else ""
  }

  function Least(a: int, b: int): int {
    if a < b then a else b
  }

  /** The whole part in the f style. */
  function WholePart(fr: int, decexp: int): (s: string)
    requires 0 <= fr < ONE
    ensures AllDigits(s)
  {
    if decexp > 0 then Emitted(fr, 16, decexp) else "0"
  }

  /** The fraction in the f style: zeros down to the first digit, then digits. */
  function FractionPart(fr: int, decexp: int, precision: nat): (s: string)
    requires 0 <= fr < ONE
    ensures AllDigits(s) && |s| == precision
  {
    if decexp > 0 then Emitted(RestAfter(fr, 16, decexp), CountAfter(16, decexp), precision)
    else var zeros := Least(-decexp, precision); Repeat('0', zeros) + Emitted(fr, 16, precision - zeros)
  }

  /** The decimal exponent; its first character is a digit up to 99. */
  function ExponentText(letter: char, e: int): string
    requires -1000 < e < 1000
  {
    var a := if e < 0 then -e else e;
    [letter, if e < 0 then '-' else '+', (a / 10 + '0' as int) as char, DigitChar(a % 10)]
  }

  /** The decimal exponent after rounding. */
  function Carried(fract: int, n: nat, decexp: int): int {
    if Carries(fract, n) then decexp + 1 else decexp
  }

  /** A scaled fraction in the f style. */
  function FixedText(fract: int, decexp: int, alt: bool, precision: nat): string
    requires Scaled(fract)
  {
    var n := Places(precision + decexp);
    var fr, d := Rounded(fract, n), Carried(fract, n, decexp);
    WholePart(fr, d) + Dot(alt, precision) + FractionPart(fr, d, precision)
  }

  /** A scaled fraction in the e style. */
  function ScientificText(letter: char, fract: int, decexp: int, alt: bool, precision: nat): string
    requires Scaled(fract) && -900 < decexp < 900
  {
    var n := Places(precision + 1);
    var fr, d := Rounded(fract, n), Carried(fract, n, decexp);
    Emitted(fr, 16, 1) + Dot(alt, precision) + Emitted(RestAfter(fr, 16, 1), 15, precision) + ExponentText(letter, d - 1)
  }

  // ----- The loops that write it -----

  /** Append `n` digits. */
  method WriteDigits(buf0: string, fr0: int, count0: nat, n: nat) returns (buf: string, fr: int, count: int)
    requires 0 <= fr0 < ONE
    ensures buf == buf0 + Emitted(fr0, count0, n)
    ensures fr == RestAfter(fr0, count0, n) && count == CountAfter(count0, n) && 0 <= fr < ONE
  {
    hide Emitted, RestAfter;
    buf, fr, count := buf0, fr0, count0;
    var left := n;
    EmittedNone(fr0, count0);
    RestNone(fr0, count0);
    while left > 0
      invariant 0 <= left <= n && 0 <= fr < ONE && count >= 0
      invariant buf == buf0 + Emitted(fr0, count0, n - left)
      invariant fr == RestAfter(fr0, count0, n - left) && count == CountAfter(count0, n - left)
    {
      EmittedConcat(fr0, count0, n - left, 1);
      EmittedHead(fr, count, 1);
      EmittedNone(if count > 0 then NextRest(fr) else fr, if count > 0 then count - 1 else 0);
      RestNext(fr0, count0, n - left);
      var c;
      c, fr, count := GetDigit(fr, count);
      buf := buf + [c];
      left := left - 1;
    }
  }

  lemma RestNone(fr: int, count: nat)
    requires 0 <= fr < ONE
    ensures RestAfter(fr, count, 0) == fr
  {
  }

  lemma {:induction false} RestNext(fr: int, count: nat, n: nat)
    requires 0 <= fr < ONE
    ensures var r := RestAfter(fr, count, n);
      RestAfter(fr, count, n + 1) == if CountAfter(count, n) > 0 then NextRest(r) else r
    decreases n
  {
    hide NextRest, NextDigit;
    if n > 0 && count > 0 {
      RestNext(NextRest(fr), count - 1, n - 1);
    } else if count > 0 {
      RestNone(NextRest(fr), count - 1);
    }
  }

  /** The fraction in the f style, when the number is below 1. */
  method WriteFraction(buf0: string, fr0: int, decexp0: int, precision: nat) returns (buf: string)
    requires 0 <= fr0 < ONE && decexp0 <= 0
    ensures buf == buf0 + FractionPart(fr0, decexp0, precision)
  {
    hide Emitted;
    buf := buf0;
    var decexp, left, fr, count := decexp0, precision, fr0, 16;
    ghost var zeros := Least(-decexp, precision);
    EmittedNone(fr0, 16);
    while left > 0 && decexp < 0
      invariant 0 <= left <= precision && decexp <= 0 && decexp - decexp0 == precision - left
      invariant buf == buf0 + Repeat('0', precision - left)
    {
      assert Repeat('0', precision - left) + ['0'] == Repeat('0', precision - left + 1);
      buf := buf + ['0'];
      decexp := decexp + 1;
      left := left - 1;
    }
    assert precision - left == zeros;
    buf, fr, count := WriteDigits(buf, fr, count, left);
  }

  /** Round to `n` places; a carry to 1 goes into the decimal exponent. */
  method RoundOff(fract0: int, decexp0: int, n: nat) returns (fract: int, decexp: int)
    requires Scaled(fract0) || fract0 == 0
    ensures Scaled(fract0) ==> fract == Rounded(fract0, n) && decexp == Carried(fract0, n, decexp0)
    ensures fract0 == 0 ==> fract == HalfUnit(n) < ONE && decexp == decexp0
  {
    hide HalfUnit;
    var ltemp := RoundingTerm(n);
    HalfUnitBelow(n);
    fract, decexp := fract0 + ltemp, decexp0;
    if fract0 > 0 { RoundedIs(fract0, n); }
    if fract >= ONE {
      fract := Ldiv5(fract);
      fract := Rlrshift(fract);
      decexp := decexp + 1;
    }
  }

  lemma {:induction false} HalfUnitBelow(n: nat)
    ensures 0 <= 2 * HalfUnit(n) <= ONE && (n >= 1 ==> 10 * HalfUnit(n) < ONE)
  {
    if n > 0 { HalfUnitBelow(n - 1); }
  }

  /** The digits in the f style. */
  method WriteFixed(buf0: string, fract: int, decexp: int, alt: bool, precision: nat) returns (buf: string)
    requires 0 <= fract < ONE
    ensures buf == buf0 + WholePart(fract, decexp) + Dot(alt, precision) + FractionPart(fract, decexp, precision)
  {
    hide Emitted, FractionPart;
    if decexp > 0 {
      var fr, count := fract, 16;
      buf, fr, count := WriteDigits(buf0, fr, count, decexp);
      buf := buf + Dot(alt, precision);
      buf, fr, count := WriteDigits(buf, fr, count, precision);
      FractionAbove(fract, decexp, precision);
    } else {
      buf := buf0 + ['0'] + Dot(alt, precision);
      buf := WriteFraction(buf, fract, decexp, precision);
    }
  }

  /** The digits and the exponent in the e style.  A leading digit of zero leaves the
      exponent as it is. */
  method WriteScientific(buf0: string, fract: int, decexp0: int, c: char, alt: bool, precision: nat) returns (buf: string)
    requires 0 <= fract < ONE && -990 < decexp0 < 990
    ensures buf == buf0 + Emitted(fract, 16, 1) + Dot(alt, precision) + Emitted(RestAfter(fract, 16, 1), 15, precision)
      + ExponentText(c, if 10 * fract < ONE then decexp0 else decexp0 - 1)
  {
    hide Emitted, ExponentText, RestAfter;
    var decexp, fr, count := decexp0, fract, 16;
    buf, fr, count := WriteDigits(buf0, fr, count, 1);
    LeadingDigit(fract);
    if buf[|buf| - 1] != '0' {
      decexp := decexp - 1;
    }
    buf := buf + Dot(alt, precision);
    buf, fr, count := WriteDigits(buf, fr, count, precision);
    buf := buf + ExponentText(c, decexp);
  }

  /** Zero in either style, rounded as every number is. */
  function ZeroText(c: char, alt: bool, precision: nat): string {
    if c == 'f' then "0" + Dot(alt, precision) + FractionPart(ZeroRounded(precision), 0, precision)
    else
      var fr := ZeroRounded(precision + 1);
      Emitted(fr, 16, 1) + Dot(alt, precision) + Emitted(RestAfter(fr, 16, 1), 15, precision) + ExponentText(c, 0)
  }

  /** What rounding makes of it: half a unit. */
  function ZeroRounded(n: nat): (fr: int)
    ensures 0 <= fr < ONE && (n >= 1 ==> 10 * fr < ONE)
  {
    HalfUnitBelow(Places(n));
    HalfUnit(Places(n))
  }

  function NumberText(fract: int, decexp: int, c: char, alt: bool, precision: nat): string
    requires (Scaled(fract) && -900 < decexp < 900) || fract == 0
  {
    if fract == 0 then ZeroText(c, alt, precision)
    else if c == 'f' then FixedText(fract, decexp, alt, precision)
    else ScientificText(c, fract, decexp, alt, precision)
  }

  /** From the scaled fraction on: round, then write the digits. */
  method WriteNumber(buf0: string, fract0: int, decexp0: int, c: char, alt: bool, precision: nat) returns (buf: string)
    requires Scaled(fract0) || (fract0 == 0 && decexp0 == 0)
    requires -900 < decexp0 < 900 && (c == 'f' || c == 'e' || c == 'E')
    ensures buf == buf0 + NumberText(fract0, decexp0, c, alt, precision)
  {
    hide *;
    var exp := Places(if c == 'f' then precision + decexp0 else precision + 1);
    var fract, decexp := RoundOff(fract0, decexp0, exp);
    NumberTextIs(fract0, decexp0, c, alt, precision, fract, decexp);
    if c == 'f' {
      buf := WriteFixed(buf0, fract, decexp, alt, precision);
    } else {
      buf := WriteScientific(buf0, fract, decexp, c, alt, precision);
    }
  }

  /** The text from the rounded fraction on. */
  lemma NumberTextIs(fract0: int, decexp0: int, c: char, alt: bool, precision: nat, fract: int, decexp: int)
    requires (Scaled(fract0) || (fract0 == 0 && decexp0 == 0)) && -900 < decexp0 < 900
    requires var n := Places(if c == 'f' then precision + decexp0 else precision + 1);
      && (Scaled(fract0) ==> fract == Rounded(fract0, n) && decexp == Carried(fract0, n, decexp0))
      && (fract0 == 0 ==> fract == HalfUnit(n) && decexp == decexp0)
    ensures 0 <= fract < ONE && -990 < decexp < 990
    ensures NumberText(fract0, decexp0, c, alt, precision) ==
      if c == 'f' then WholePart(fract, decexp) + Dot(alt, precision) + FractionPart(fract, decexp, precision)
      else (Emitted(fract, 16, 1) + Dot(alt, precision) + Emitted(RestAfter(fract, 16, 1), 15, precision)
            + ExponentText(c, if 10 * fract < ONE then decexp else decexp - 1))
  {
    hide Emitted, Carries, FractionPart, Dot, ExponentText, Rounded, RestAfter, HalfUnit;
    if fract0 == 0 { HalfUnitBelow(Places(if c == 'f' then precision + decexp0 else precision + 1)); }
  }

  lemma RoundedIs(fract: int, n: nat)
    requires Scaled(fract)
    ensures Rounded(fract, n) == if Carries(fract, n) then Halved(Fifth(fract + HalfUnit(n))) else fract + HalfUnit(n)
  {
  }

  lemma FractionAbove(fr: int, decexp: int, precision: nat)
    requires 0 <= fr < ONE && decexp > 0
    ensures FractionPart(fr, decexp, precision) == Emitted(RestAfter(fr, 16, decexp), CountAfter(16, decexp), precision)
  {
  }

  /** The leading digit is zero exactly when the fraction is below 1/10. */
  lemma LeadingDigit(fr: int)
    requires 0 <= fr < ONE
    ensures Emitted(fr, 16, 1) == [DigitChar(NextDigit(fr))] && (DigitChar(NextDigit(fr)) == '0' <==> 10 * fr < ONE)
  {
    EmittedHead(fr, 16, 1);
    EmittedNone(NextRest(fr), 15);
    assert DigitValue('0') == 0;
  }

  /** The leading digit of a rounded fraction is not zero. */
  lemma FirstDigit(fr: int)
    requires ONE <= 10 * fr && fr < ONE
    ensures Emitted(fr, 16, 1) == [DigitChar(NextDigit(fr))] && DigitChar(NextDigit(fr)) != '0'
  {
    LeadingDigit(fr);
  }
}
