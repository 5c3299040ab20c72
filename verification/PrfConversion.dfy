// The integer conversions: which text a value is converted to, how long it is, and
// what it says to a reader of positional notation.
module PrfConversion {
  import opened Words
  import opened Numerals
  import opened PrfInteger

  const MAXFLD := 200

  // ----- The conversion -----

  datatype Conversion = Decimal | Unsigned | Octal | Hex | HexUpper | Pointer

  datatype Flags = Flags(minus: bool, plus: bool, space: bool, alt: bool, zero: bool)

  function TextOf(conv: Conversion, value: int, f: Flags, precision: int): string
    requires ValueOk(conv, value)
  {
    match conv
    case Decimal => DecText(value, f.plus, f.space, precision)
    case Unsigned => Padded(Numeral(value, 10), precision)
    case Octal => OctalText(value, f.alt, precision)
    case Hex => HexText(value, f.alt, precision, false)
    case HexUpper => HexText(value, f.alt, precision, true)
    case Pointer => HexText(value, true, 8, false)
  }

  /** How much of the text zero fill goes behind. */
  function PrefixOf(conv: Conversion, value: int, f: Flags): nat {
    match conv
    case Decimal => if f.plus || f.space || value < 0 then 1 else 0
    case Hex => if f.alt then 2 else 0
    case HexUpper => if f.alt then 2 else 0
    case _ => 0
  }

  function Capped(precision: int): int {
    if precision > MAXFLD then -1 else precision
  }

  // ----- Which calls fit the buffer -----

  /** A value of the conversion's type. */
  predicate ValueOk(conv: Conversion, value: int) {
    if conv.Decimal? then -0x8000_0000 <= value <= 0x7fff_ffff else 0 <= value < TWO32
  }

  /** What stands before the digits. */
  function Lead(conv: Conversion, value: int, f: Flags): nat {
    match conv
    case Decimal => if value < 0 || f.plus || f.space then 1 else 0
    case Unsigned => 0
    case Octal => if f.alt && value != 0 then 1 else 0
    case Hex => if f.alt then 2 else 0
    case HexUpper => if f.alt then 2 else 0
    case Pointer => 2
  }

  /** The least number of digits the conversion asks for. */
  function LeastDigits(conv: Conversion, value: int, f: Flags, precision: int): int {
    if conv.Pointer? then 8 else if conv.Octal? && f.alt && value == 0 then 1 else precision
  }

  function BaseOf(conv: Conversion): nat {
    match conv
    case Decimal => 10
    case Unsigned => 10
    case Octal => 8
    case Hex => 16
    case HexUpper => 16
    case Pointer => 16
  }

  /** What a caller can check: the digits asked for and what stands before them are no
      more than MAXFLD characters. */
  predicate Fits(conv: Conversion, value: int, f: Flags, precision: int) {
    Lead(conv, value, f) + LeastDigits(conv, value, f, precision) <= MAXFLD
  }

  lemma TextLength(conv: Conversion, value: int, f: Flags, precision: int)
    requires ValueOk(conv, value)
    ensures var digits := |Numeral(Magnitude(value), BaseOf(conv))|;
      var least := LeastDigits(conv, value, f, precision);
      |TextOf(conv, value, f, precision)| == Lead(conv, value, f) + if digits < least then least else digits
  {
    hide Numeral;
    if conv.Octal? && value == 0 { ZeroNumeral(8); }
  }

  /** The text and its terminator stay inside the buffer if and only if the call fits. */
  lemma TextFitsIff(conv: Conversion, value: int, f: Flags, precision: int)
    requires ValueOk(conv, value)
    ensures |TextOf(conv, value, f, precision)| < MAXFLD + 1 <==> Fits(conv, value, f, precision)
  {
    hide Numeral, TextOf, LeastDigits;
    TextLength(conv, value, f, precision);
    WordNumeral(Magnitude(value), BaseOf(conv));
  }

  /** A precision below MAXFLD always fits, but for # in hexadecimal at the very end. */
  lemma SmallPrecisionFits(conv: Conversion, value: int, f: Flags, precision: int)
    requires ValueOk(conv, value) && precision < MAXFLD
    ensures !f.alt ==> Fits(conv, value, f, precision)
    ensures precision < MAXFLD - 1 ==> Fits(conv, value, f, precision)
  {
  }

  /** The test on the precision lets MAXFLD through, and then there is no room for a sign;
      the alternative form of hexadecimal overruns the buffer from one less. */
  lemma OverrunExamples()
    ensures Capped(200) == 200 && |TextOf(Decimal, 1, Flags(false, true, false, false, false), 200)| == MAXFLD + 1
    ensures Capped(199) == 199 && |TextOf(Hex, 1, Flags(false, false, false, true, false), 199)| == MAXFLD + 1
  {
    hide Numeral, TextOf;
    TextLength(Decimal, 1, Flags(false, true, false, false, false), 200);
    TextLength(Hex, 1, Flags(false, false, false, true, false), 199);
    WordNumeral(1, 10);
    WordNumeral(1, 16);
  }

  lemma PrefixFits(conv: Conversion, value: int, f: Flags, precision: int)
    requires ValueOk(conv, value)
    ensures PrefixOf(conv, value, f) <= |TextOf(conv, value, f, precision)|
  {
    hide Numeral;
  }

  /** The switch of pos_libc_prf, for the integer conversions. */
  method Convert(buf: array<char>, conv: Conversion, value: int, f: Flags, precision: int) returns (c: nat)
    requires ValueOk(conv, value)
    requires |TextOf(conv, value, f, precision)| < buf.Length
    modifies buf
    ensures c == |TextOf(conv, value, f, precision)| && buf[..c] == TextOf(conv, value, f, precision)
  {
    hide Numeral, HexText, OctalText, DecText, Padded;
    match conv
    case Decimal => c := ToDec(buf, value, f.plus, f.space, precision);
    case Unsigned =>
      c := ToX(buf, 0, value, 10, precision);
      assert buf[0..c] == buf[..c];
    case Octal => c := ToOctal(buf, value, f.alt, precision);
    case Hex => c := ToHex(buf, value, f.alt, precision, 'x');
    case HexUpper => c := ToHex(buf, value, f.alt, precision, 'X');
    case Pointer => c := ToHex(buf, value, true, 8, 'x');
  }

  // ----- What the text says -----

  /** The value of a digit character, in either case. */
  function DigitIn(c: char): int {
    if '0' <= c <= '9' then c as int - 48
    else if 'a' <= c <= 'z' then c as int - 87
    else if 'A' <= c <= 'Z' then c as int - 55
    else -1
  }

  /** Digits of the base, the letters among them in one case. */
  predicate DigitsOf(s: string, base: int, upper: bool) {
    forall i :: 0 <= i < |s| ==> 0 <= DigitIn(s[i]) < base && !(if upper then 'a' <= s[i] <= 'z' else 'A' <= s[i] <= 'Z')
  }

  /** The number in positional notation. */
  function Positional(s: string, base: int): int
    decreases |s|
  {
    if s == [] then 0 else Positional(s[..|s| - 1], base) * base + DigitIn(s[|s| - 1])
  }

  lemma PositionalAppend(s: string, c: char, base: int)
    ensures Positional(s + [c], base) == Positional(s, base) * base + DigitIn(c)
  {
    assert (s + [c])[..|s|] == s;
  }

  lemma DigitCharIn(d: int, base: int, upper: bool)
    requires 0 <= d < base <= 36
    ensures DigitIn(Cased(DigitChar(d), upper)) == d && DigitsOf([Cased(DigitChar(d), upper)], base, upper)
  {
  }

  lemma DigitsOfAppend(s: string, c: char, base: int, upper: bool)
    requires DigitsOf(s, base, upper) && DigitsOf([c], base, upper)
    ensures DigitsOf(s + [c], base, upper)
  {
    hide DigitIn;
    assert [c][0] == c;
  }

  /** A numeral, in either case, is the number in positional notation. */
  lemma {:induction false} NumeralPositional(n: nat, base: nat, upper: bool)
    requires 2 <= base <= 36
    ensures var s := CasedText(Numeral(n, base), upper);
      s != [] && DigitsOf(s, base, upper) && Positional(s, base) == n && (s[0] == '0' ==> n == 0)
    decreases n
  {
    hide Positional, DigitsOf, DigitIn, DigitChar, UpperChar, Numeral;
    NumeralStep(n, base);
    var d, q := LastDigit(n, base), OtherDigits(n, base);
    var front := if q != 0 then Numeral(q, base) else [];
    var c := Cased(DigitChar(d), upper);
    assert CasedText([DigitChar(d)], upper) == [c];
    CasedConcat(front, [DigitChar(d)], upper);
    DigitCharIn(d, base, upper);
    if q != 0 {
      NumeralPositional(q, base, upper);
      DigitsOfAppend(CasedText(front, upper), c, base, upper);
    } else {
      NothingPositional(base);
      assert CasedText([], upper) == [];
      assert [] + [c] == [c];
      ZeroDigit(c);
    }
    PositionalAppend(CasedText(front, upper), c, base);
    LastAndOthers(n, base);
  }

  lemma NothingPositional(base: int)
    ensures Positional([], base) == 0
  {
  }

  lemma ZeroDigit(c: char)
    ensures c == '0' ==> DigitIn(c) == 0
  {
  }

  lemma LastAndOthers(n: nat, base: nat)
    requires 2 <= base <= 36
    ensures n == OtherDigits(n, base) * base + LastDigit(n, base)
  {
  }

  lemma {:induction false} LeadingZerosPositional(k: nat, s: string, base: int)
    ensures Positional(Repeat('0', k) + s, base) == Positional(s, base)
    decreases k + |s|
  {
    var z := Repeat('0', k);
    if s != [] {
      assert (z + s)[..|z + s| - 1] == z + s[..|s| - 1];
      LeadingZerosPositional(k, s[..|s| - 1], base);
    } else if k > 0 {
      assert z + s == Repeat('0', k - 1) + ['0'];
      assert (z + s)[..k - 1] == Repeat('0', k - 1) + [];
      LeadingZerosPositional(k - 1, [], base);
    } else {
      assert z + s == s;
    }
  }

  lemma ZerosAreDigits(k: nat, s: string, base: int, upper: bool)
    requires base >= 2 && DigitsOf(s, base, upper)
    ensures DigitsOf(Repeat('0', k) + s, base, upper)
  {
  }

  /** So is a padded one, and it has no more leading zeros than it is padded with. */
  lemma PaddedPositional(n: nat, base: nat, least: int, upper: bool)
    requires 2 <= base <= 36
    ensures var s := CasedText(Padded(Numeral(n, base), least), upper);
      && s != [] && |s| >= least && DigitsOf(s, base, upper) && Positional(s, base) == n
      && (s[0] == '0' && n > 0 ==> |s| == least)
  {
    hide Numeral, DigitsOf, Positional, UpperChar;
    NumeralPositional(n, base, upper);
    var s := Numeral(n, base);
    if |s| < least {
      var z := Repeat('0', least - |s|);
      CasedZeros(least - |s|, upper);
      CasedConcat(z, s, upper);
      LeadingZerosPositional(least - |s|, CasedText(s, upper), base);
      ZerosAreDigits(least - |s|, CasedText(s, upper), base, upper);
    }
  }

  lemma CasedZeros(k: nat, upper: bool)
    ensures CasedText(Repeat('0', k), upper) == Repeat('0', k)
  {
  }

  /** What stands before the digits: the sign, or the mark of the base. */
  function LeadText(conv: Conversion, value: int, f: Flags): string {
    match conv
    case Decimal => if value < 0 then "-" else if f.plus then "+" else if f.space then " " else ""
    case Unsigned => ""
    case Octal => ""
    case Hex => if f.alt then "0x" else ""
    case HexUpper => if f.alt then "0X" else ""
    case Pointer => "0x"
  }

  /** The lead, and digits that give the magnitude of the value. */
  predicate Says(s: string, conv: Conversion, value: int, f: Flags) {
    var lead := LeadText(conv, value, f);
    && |lead| < |s| && s[..|lead|] == lead
    && DigitsOf(s[|lead|..], BaseOf(conv), conv.HexUpper?)
    && Positional(s[|lead|..], BaseOf(conv)) == if value < 0 then -value else value
  }

  lemma SaysFromParts(lead: string, digits: string, conv: Conversion, value: int, f: Flags)
    requires lead == LeadText(conv, value, f) && digits != [] && DigitsOf(digits, BaseOf(conv), conv.HexUpper?)
    requires Positional(digits, BaseOf(conv)) == if value < 0 then -value else value
    ensures Says(lead + digits, conv, value, f) && (lead + digits)[|lead|..] == digits
  {
    hide DigitsOf, Positional;
    assert (lead + digits)[..|lead|] == lead && (lead + digits)[|lead|..] == digits;
  }

  /** The text of a conversion in its parts. */
  lemma TextParts(conv: Conversion, value: int, f: Flags, precision: int) returns (digits: string)
    requires ValueOk(conv, value)
    ensures TextOf(conv, value, f, precision) == LeadText(conv, value, f) + digits
    ensures digits != [] && DigitsOf(digits, BaseOf(conv), conv.HexUpper?)
    ensures Positional(digits, BaseOf(conv)) == if value < 0 then -value else value
    ensures |digits| >= LeastDigits(conv, value, f, precision)
    ensures conv.Octal? && f.alt ==> digits[0] == '0'
    ensures digits[0] == '0' && value != 0 && !(conv.Octal? && f.alt) ==> |digits| == LeastDigits(conv, value, f, precision)
  {
    hide Numeral, DigitsOf, Positional, UpperChar, Padded;
    var n, base, upper := Magnitude(value), BaseOf(conv), conv.HexUpper?;
    var least := if conv.Pointer? then 8 else precision;
    PaddedPositional(n, base, least, upper);
    digits := CasedText(Padded(Numeral(n, base), least), upper);
    match conv
    case Octal =>
      if f.alt {
        if value == 0 {
          PaddedPositional(0, 8, 1, false);
          digits := "0";
          assert Padded(Numeral(0, 8), 1) == "0" by { ZeroOctal(); }
        } else {
          assert Repeat('0', 1) == "0";
          LeadingZerosPositional(1, digits, 8);
          ZerosAreDigits(1, digits, 8, false);
          digits := "0" + digits;
        }
      }
      assert "" + digits == digits;
    case Unsigned => assert "" + digits == digits;
    case Decimal =>
    case Pointer =>
    case Hex =>
    case HexUpper => UpperHex(value, f.alt, precision);
  }

  lemma ZeroOctal()
    ensures Padded(Numeral(0, 8), 1) == "0"
  {
  }

  lemma UpperHex(value: nat, alt: bool, precision: int)
    ensures HexText(value, alt, precision, true) == (if alt then "0X" else "") + CasedText(Padded(Numeral(value, 16), precision), true)
  {
    hide Numeral, Padded;
    var s := Padded(Numeral(value, 16), precision);
    if alt {
      CasedConcat("0x", s, true);
      assert Upper("0x") == "0X";
    } else {
      assert "" + s == s && "" + CasedText(s, true) == CasedText(s, true);
    }
  }

  /** Main result: the text of every conversion is its sign or mark and digits, of the
      base and in the case asked for, that give the value in positional notation; there
      are as many as asked for, and no more zeros before the first other digit than that
      takes. */
  lemma TextSays(conv: Conversion, value: int, f: Flags, precision: int)
    requires ValueOk(conv, value)
    ensures var s := TextOf(conv, value, f, precision);
      var lead := |LeadText(conv, value, f)|;
      && Says(s, conv, value, f)
      && |s| - lead >= LeastDigits(conv, value, f, precision)
      && (conv.Octal? && f.alt ==> s[0] == '0')
      && (s[lead] == '0' && value != 0 && !(conv.Octal? && f.alt) ==> |s| - lead == LeastDigits(conv, value, f, precision))
  {
    hide TextOf, Positional, DigitsOf;
    var digits := TextParts(conv, value, f, precision);
    SaysFromParts(LeadText(conv, value, f), digits, conv, value, f);
  }

  /** A signed decimal starts with a minus exactly when it is negative, with a plus or a
      blank exactly when it is not and the flags ask for it, and otherwise with a digit. */
  lemma DecimalSign(value: int, f: Flags, precision: int)
    requires ValueOk(Decimal, value)
    ensures var s := TextOf(Decimal, value, f, precision);
      && s != []
      && (s[0] == '-' <==> value < 0)
      && (s[0] == '+' <==> value >= 0 && f.plus)
      && (s[0] == ' ' <==> value >= 0 && !f.plus && f.space)
      && ('0' <= s[0] <= '9' <==> value >= 0 && !f.plus && !f.space)
  {
    hide TextOf, Positional;
    var digits := TextParts(Decimal, value, f, precision);
    assert 0 <= DigitIn(digits[0]) < 10;
  }

  /** Hexadecimal in lower case has no upper-case letter, and in upper case no other. */
  lemma HexInCase(value: int, f: Flags, precision: int, i: nat)
    requires ValueOk(Hex, value)
    ensures var s := TextOf(Hex, value, f, precision); i < |s| ==> !('A' <= s[i] <= 'Z')
    ensures var s := TextOf(HexUpper, value, f, precision); i < |s| ==> !('a' <= s[i] <= 'z')
    ensures var s := TextOf(Pointer, value, f, precision); i < |s| ==> !('A' <= s[i] <= 'Z')
  {
    hide TextOf, Positional, DigitIn;
    var a := TextParts(Hex, value, f, precision);
    var b := TextParts(HexUpper, value, f, precision);
    var c := TextParts(Pointer, value, f, precision);
  }
}
