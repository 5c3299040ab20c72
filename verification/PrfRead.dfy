// Reading a printed floating-point number back: a reader that knows only the usual
// notation, and what it makes of the two styles of text.
module PrfRead {
  import opened PrfValue
  import opened Words
  import opened Numerals
  import opened Decimal
  import opened PrfDigits
  import opened PrfFloat

  // ----- The reader -----

  datatype Power = Power(letter: char, minus: bool, digits: string)

  /** Sign, whole part, whether there is a point, fraction, power of ten. */
  datatype Reading = Reading(sign: string, whole: string, point: bool, fraction: string, power: Option<Power>)

  /** How many digits a string starts with. */
  function Digits(s: string): (n: nat)
    ensures n <= |s| && AllDigits(s[..n])
    decreases |s|
  {
    if s == [] || !IsDigit(s[0]) then 0 else 1 + Digits(s[1..])
  }

  function ReadSign(s: string): (sign: string)
    ensures |sign| <= |s|
  {
    if s != [] && (s[0] == '-' || s[0] == '+' || s[0] == ' ') then s[..1] else ""
  }

  /** The end of a text: nothing, or a letter, a sign and digits. */
  function ReadPower(s: string): (p: Option<Option<Power>>)
    ensures p.Some? && p.value.Some? ==> AllDigits(p.value.value.digits)
  {
    if s == [] then Some(None)
    else if |s| >= 3 && (s[0] == 'e' || s[0] == 'E') && (s[1] == '-' || s[1] == '+') && Digits(s[2..]) == |s| - 2 then
      Some(Some(Power(s[0], s[1] == '-', s[2..])))
    else None
  }

  function ReadNumber(s: string): Option<Reading> {
    var sign := ReadSign(s);
    var body := s[|sign|..];
    var n := Digits(body);
    var after := body[n..];
    var point := after != [] && after[0] == '.';
    var fraction := if point then after[1..] else after;
    var m := if point then Digits(fraction) else 0;
    match ReadPower(fraction[m..])
    case None => None
    case Some(power) => if n == 0 then None else Some(Reading(sign, body[..n], point, fraction[..m], power))
  }

  predicate Readable(r: Reading) {
    AllDigits(r.whole) && AllDigits(r.fraction) && (r.power.Some? ==> AllDigits(r.power.value.digits))
  }

  lemma ReadReadable(s: string)
    ensures ReadNumber(s).Some? ==> Readable(ReadNumber(s).value)
  {
    hide ReadPower, ReadSign, Digits;
  }

  function PowerOf(r: Reading): int
    requires Readable(r)
  {
    match r.power
    case None => 0
    case Some(p) =>
      var e: int := Number(p.digits);
      if p.minus then -e else e
  }

  /** The number read, its sign aside: all digits as one numeral, times ten to the place
      of the last one. */
  ghost function Magnitude(r: Reading): real
    requires Readable(r)
  {
    Mul(Number(r.whole + r.fraction) as real, P10(PowerOf(r) - |r.fraction|))
  }

  /** The number read. */
  ghost function Denotes(r: Reading): real
    requires Readable(r)
  {
    if r.sign == "-" then -Magnitude(r) else Magnitude(r)
  }

  /** The number of digits from the first that is not zero on. */
  function Significant(s: string): (n: nat)
    ensures n <= |s|
    decreases |s|
  {
    if s == [] then 0 else if s[0] == '0' then Significant(s[1..]) else |s|
  }

  /** The last printed place, or that of the sixteenth significant digit when there are
      more. */
  ghost function LastPlace(r: Reading): real
    requires Readable(r)
  {
    var n := Significant(r.whole + r.fraction);
    P10(PowerOf(r) - |r.fraction| + (if n > 16 then n - 16 else 0))
  }

  // ----- Reading a text put together from its parts -----

  lemma {:induction false} DigitsRun(a: string, b: string)
    requires AllDigits(a) && (b == [] || !IsDigit(b[0]))
    ensures Digits(a + b) == |a|
    decreases |a|
  {
    if a == [] {
      assert a + b == b;
    } else {
      assert (a + b)[1..] == a[1..] + b;
      DigitsRun(a[1..], b);
    }
  }

  predicate IsSign(sign: string) {
    sign == "" || sign == "-" || sign == "+" || sign == " "
  }

  lemma SignRead(sign: string, body: string)
    requires IsSign(sign) && body != [] && IsDigit(body[0])
    ensures ReadSign(sign + body) == sign && (sign + body)[|sign|..] == body
  {
  }

  /** Sign, digits, point or none, digits and an end that does not start with a digit or a
      point are read as such. */
  lemma ReadParts(sign: string, whole: string, dot: string, fraction: string, end: string)
    requires IsSign(sign) && whole != [] && AllDigits(whole) && AllDigits(fraction)
    requires dot == "." || (dot == "" && fraction == "")
    requires end == [] || (!IsDigit(end[0]) && end[0] != '.')
    ensures ReadNumber(sign + (whole + (dot + (fraction + end)))) ==
      match ReadPower(end)
      case None => None
      case Some(power) => Some(Reading(sign, whole, dot == ".", fraction, power))
  {
    hide ReadPower, AllDigits;
    var after := dot + (fraction + end);
    assert AllDigits(whole) && IsDigit((whole + after)[0]) by { FirstIsDigit(whole); }
    SignRead(sign, whole + after);
    if dot == "" {
      assert after == end;
    }
    RunSplit(whole, after);
    if dot == "." {
      assert after[1..] == fraction + end;
      RunSplit(fraction, end);
    }
  }

  lemma RunSplit(a: string, b: string)
    requires AllDigits(a) && (b == [] || !IsDigit(b[0]))
    ensures Digits(a + b) == |a| && (a + b)[..|a|] == a && (a + b)[|a|..] == b
  {
    hide AllDigits;
    DigitsRun(a, b);
  }

  lemma FirstIsDigit(s: string)
    requires AllDigits(s) && s != []
    ensures IsDigit(s[0])
  {
  }

  // ----- The two styles -----

  lemma FixedParts(sign: string, fract: int, decexp: int, alt: bool, precision: nat)
    requires Scaled(fract) && IsSign(sign)
    ensures var n := Places(precision + decexp);
      var fr, d := Rounded(fract, n), Carried(fract, n, decexp);
      ReadNumber(sign + FixedText(fract, decexp, alt, precision)) ==
        Some(Reading(sign, WholePart(fr, d), alt || precision > 0, FractionPart(fr, d, precision), None))
  {
    hide WholePart, FractionPart, Rounded, Carries, ReadNumber, AllDigits;
    var n := Places(precision + decexp);
    var fr, d := Rounded(fract, n), Carried(fract, n, decexp);
    var whole, dot, fraction := WholePart(fr, d), Dot(alt, precision), FractionPart(fr, d, precision);
    WholeNotEmpty(fr, d);
    ReadParts(sign, whole, dot, fraction, "");
    assert fraction + "" == fraction;
    assert FixedText(fract, decexp, alt, precision) == whole + (dot + (fraction + ""));
  }

  lemma WholeNotEmpty(fr: int, d: int)
    requires 0 <= fr < ONE
    ensures WholePart(fr, d) != []
  {
  }

  /** A decimal exponent with two digits is read as that exponent. */
  lemma ExponentReads(letter: char, e: int)
    requires -1000 < e < 1000 && (letter == 'e' || letter == 'E')
    ensures var s := ExponentText(letter, e);
      && |s| == 4 && !IsDigit(s[0]) && s[0] != '.'
      && if -100 < e < 100 then
           && AllDigits(s[2..]) && Number(s[2..]) == (if e < 0 then -e else e)
           && ReadPower(s) == Some(Some(Power(letter, e < 0, s[2..])))
         else ReadPower(s) == None
  {
    var a := if e < 0 then -e else e;
    var s := ExponentText(letter, e);
    var t := s[2..];
    assert t == [s[2], s[3]];
    assert s[2] as int == a / 10 + 48;
    if a < 100 {
      assert IsDigit(s[2]) && DigitValue(s[2]) == a / 10;
      assert IsDigit(s[3]) && DigitValue(s[3]) == a % 10;
      assert t[..1] == [s[2]];
      NumberOne(s[2]);
      assert AllDigits(t) && Number(t) == a;
      assert t + [] == t;
      DigitsRun(t, []);
    } else {
      assert !IsDigit(s[2]);
      assert Digits(t) == 0;
    }
  }

  lemma ScientificParts(sign: string, letter: char, fract: int, decexp: int, alt: bool, precision: nat)
    requires Scaled(fract) && IsSign(sign) && -900 < decexp < 900 && (letter == 'e' || letter == 'E')
    ensures var n := Places(precision + 1);
      var fr, d := Rounded(fract, n), Carried(fract, n, decexp);
      ReadNumber(sign + ScientificText(letter, fract, decexp, alt, precision)) ==
        if -100 < d - 1 < 100 then
          Some(Reading(sign, Emitted(fr, 16, 1), alt || precision > 0, Emitted(RestAfter(fr, 16, 1), 15, precision),
                       Some(Power(letter, d - 1 < 0, ExponentText(letter, d - 1)[2..]))))
        else None
  {
    hide Emitted, RestAfter, Rounded, Carries, ReadNumber, AllDigits, ReadPower, ExponentText;
    var n := Places(precision + 1);
    var fr, d := Rounded(fract, n), Carried(fract, n, decexp);
    var whole, dot, fraction := Emitted(fr, 16, 1), Dot(alt, precision), Emitted(RestAfter(fr, 16, 1), 15, precision);
    var end := ExponentText(letter, d - 1);
    ExponentReads(letter, d - 1);
    ReadParts(sign, whole, dot, fraction, end);
    assert ScientificText(letter, fract, decexp, alt, precision) == whole + (dot + (fraction + end));
  }

  /** Zero, in either style, is a point among zeros, and a power of zero. */
  lemma ZeroTextIs(c: char, alt: bool, precision: nat)
    ensures ZeroText(c, alt, precision) ==
      "0" + (Dot(alt, precision) + (Repeat('0', precision) + (if c == 'f' then "" else ExponentText(c, 0))))
  {
    hide Emitted, RestAfter, AllDigits, ExponentText, Dot, FractionPart, ZeroRounded, Repeat;
    var n := if c == 'f' then precision else precision + 1;
    var fr := ZeroRounded(n);
    ZeroDigits(fr, n);
    var dot, zeros := Dot(alt, precision), Repeat('0', precision);
    if c == 'f' {
      ZeroFraction(fr, precision);
      InOne("0", dot, zeros, "");
      assert "0" + dot + zeros + "" == "0" + dot + zeros;
    } else {
      EmittedConcat(fr, 16, 1, precision);
      ZeroSplit(Emitted(fr, 16, 1), Emitted(RestAfter(fr, 16, 1), 15, precision), precision);
      InOne("0", dot, zeros, ExponentText(c, 0));
    }
  }

  lemma InOne(a: string, b: string, c: string, d: string)
    ensures a + b + c + d == a + (b + (c + d))
  {
  }

  lemma ZeroFraction(fr: int, precision: nat)
    requires 0 <= fr < ONE
    ensures FractionPart(fr, 0, precision) == Emitted(fr, 16, precision)
  {
    hide Emitted;
    assert Repeat('0', 0) + Emitted(fr, 16, precision) == Emitted(fr, 16, precision);
  }

  lemma ZeroSplit(a: string, b: string, n: nat)
    requires |a| == 1 && a + b == Repeat('0', n + 1)
    ensures a == "0" && b == Repeat('0', n)
  {
    assert a == (a + b)[..1] && b == (a + b)[1..];
  }

  lemma ZeroParts(sign: string, c: char, alt: bool, precision: nat)
    requires IsSign(sign) && (c == 'f' || c == 'e' || c == 'E')
    ensures ReadNumber(sign + ZeroText(c, alt, precision)) ==
      Some(Reading(sign, "0", alt || precision > 0, Repeat('0', precision), if c == 'f' then None else Some(Power(c, false, "00"))))
  {
    hide ReadNumber, ReadPower, ExponentText, AllDigits;
    ZeroTextIs(c, alt, precision);
    ZerosAllDigits(precision);
    if c == 'f' {
      NoPower();
      ReadParts(sign, "0", Dot(alt, precision), Repeat('0', precision), "");
    } else {
      ExponentReads(c, 0);
      ZeroPower(c);
      ReadParts(sign, "0", Dot(alt, precision), Repeat('0', precision), ExponentText(c, 0));
    }
  }

  lemma NoPower()
    ensures ReadPower("") == Some(None)
  {
  }

  lemma ZeroPower(c: char)
    ensures ExponentText(c, 0)[2..] == "00"
  {
  }

  lemma ZerosAllDigits(n: nat)
    ensures AllDigits("0") && AllDigits(Repeat('0', n))
  {
  }

  /** Half a unit of the last place has no digit other than zero before it. */
  lemma ZeroDigits(fr: int, n: nat)
    requires fr == ZeroRounded(n)
    ensures Emitted(fr, 16, n) == Repeat('0', n)
  {
    hide Emitted, HalfUnit, Prod;
    var m := Places(n);
    HalfUnitExact(m);
    Pow10Le(m, 16);
    Pow10Sixteen();
    DigitsSpell(fr, 16, m);
    assert Number(Emitted(fr, 16, m)) == 0;
    NumberZeroDigits(Emitted(fr, 16, m));
    if n > 16 {
      EmittedConcat(fr, 16, 16, n - 16);
      EmittedZeros(RestAfter(fr, 16, 16), n - 16);
      assert Repeat('0', 16) + Repeat('0', n - 16) == Repeat('0', n);
    }
  }

  lemma {:induction false} NumberZeroDigits(s: string)
    requires AllDigits(s) && Number(s) == 0
    ensures s == Repeat('0', |s|)
    decreases |s|
  {
    if s != [] {
      NumberZeroDigits(s[..|s| - 1]);
      assert s == s[..|s| - 1] + [s[|s| - 1]];
    }
  }

  // ----- Significant digits -----

  lemma SignificantAll(s: string)
    requires s != [] && s[0] != '0'
    ensures Significant(s) == |s|
  {
  }

  lemma EmittedFirst(fr: int, n: nat)
    requires ONE <= 10 * fr && fr < ONE && n > 0
    ensures Emitted(fr, 16, n)[0] != '0'
  {
    hide Emitted;
    EmittedHead(fr, 16, n);
    FirstDigit(fr);
    EmittedHead(fr, 16, 1);
  }

  lemma {:induction false} SignificantAfterZeros(n: nat, s: string)
    ensures Significant(Repeat('0', n) + s) == Significant(s)
    decreases n
  {
    if n == 0 {
      assert Repeat('0', 0) + s == s;
    } else {
      assert (Repeat('0', n) + s)[1..] == Repeat('0', n - 1) + s;
      SignificantAfterZeros(n - 1, s);
    }
  }

  /** In the f style all digits from the first one of the number on are significant. */
  lemma FixedSignificant(fr: int, d: int, precision: nat)
    requires ONE <= 10 * fr && 0 <= fr < ONE
    ensures Significant(WholePart(fr, d) + FractionPart(fr, d, precision)) == (if d + precision > 0 then d + precision else 0)
  {
    hide Emitted, AllDigits;
    var s := WholePart(fr, d) + FractionPart(fr, d, precision);
    if d > 0 {
      EmittedConcat(fr, 16, d, precision);
      EmittedFirst(fr, d + precision);
      SignificantAll(s);
    } else {
      var zeros := Least(-d, precision);
      var rest := Emitted(fr, 16, precision - zeros);
      assert s == Repeat('0', zeros + 1) + rest;
      SignificantAfterZeros(zeros + 1, rest);
      if precision > zeros {
        EmittedFirst(fr, precision - zeros);
        SignificantAll(rest);
      }
    }
  }

  lemma ScientificSignificant(fr: int, precision: nat)
    requires ONE <= 10 * fr && 0 <= fr < ONE
    ensures Significant(Emitted(fr, 16, 1) + Emitted(RestAfter(fr, 16, 1), 15, precision)) == precision + 1
  {
    hide Emitted, AllDigits;
    EmittedConcat(fr, 16, 1, precision);
    EmittedFirst(fr, precision + 1);
    SignificantAll(Emitted(fr, 16, precision + 1));
  }
}
