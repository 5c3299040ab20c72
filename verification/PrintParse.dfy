// Printing and then parsing: which numerals come back as the number they were
// made from.
module PrintParse {
  import opened Words
  import opened Numerals
  import opened PrfInteger
  import opened PrfConversion
  import opened Strtol

  // ----- Reading digits -----

  /** All characters count in the base, and none is the terminator. */
  predicate Digits(t: string, base: int) {
    forall i :: 0 <= i < |t| ==> DigitOf(t[i], base).Digit? && t[i] != NUL
  }

  function Read(t: string, base: int, number: int): int
    requires Digits(t, base)
    decreases |t|
  {
    if t == [] then number else Read(t[1..], base, (number * base + DigitOf(t[0], base).value) % TWO32)
  }

  lemma {:induction false} ScanReads(s: string, i: nat, base: int, number: int)
    requires i <= |s| && Digits(s[i..], base)
    ensures Scan(s, i, base, number) == (Read(s[i..], base, number), |s|)
    decreases |s| - i
  {
    hide DigitOf;
    if i < |s| {
      assert s[i..][0] == s[i] && s[i..][1..] == s[i + 1..];
      ScanReads(s, i + 1, base, (number * base + DigitOf(s[i], base).value) % TWO32);
    }
  }

  lemma {:induction false} ReadConcat(t: string, u: string, base: int, number: int)
    requires Digits(t, base) && Digits(u, base)
    ensures Digits(t + u, base)
    ensures Read(t + u, base, number) == Read(u, base, Read(t, base, number))
    decreases |t|
  {
    hide DigitOf;
    if t == [] {
      assert t + u == u;
    } else {
      assert (t + u)[1..] == t[1..] + u;
      ReadConcat(t[1..], u, base, (number * base + DigitOf(t[0], base).value) % TWO32);
    }
  }

  lemma DigitCharReads(d: int, base: int)
    requires 0 <= d < base <= 36
    ensures DigitOf(DigitChar(d), base) == Digit(d) && DigitOf(UpperChar(DigitChar(d)), base) == Digit(d)
    ensures DigitChar(d) != NUL && UpperChar(DigitChar(d)) != NUL
  {
  }

  lemma ReadOne(c: char, base: int, number: int)
    requires DigitOf(c, base).Digit? && c != NUL
    ensures Digits([c], base) && Read([c], base, number) == (number * base + DigitOf(c, base).value) % TWO32
  {
    assert [c][1..] == [];
  }

  /** A numeral reads as its number, modulo 2^32. */
  lemma {:induction false} NumeralReads(n: nat, base: nat, upper: bool)
    requires 2 <= base <= 36
    ensures Digits(CasedText(Numeral(n, base), upper), base)
    ensures Read(CasedText(Numeral(n, base), upper), base, 0) == n % TWO32
    decreases n
  {
    hide Read, Digits, DigitOf, DigitChar, UpperChar;
    NumeralStep(n, base);
    var d, q := n % base, n / base;
    ModBound(n, base);
    var front := if q != 0 then Numeral(q, base) else [];
    var c := Cased(DigitChar(d), upper);
    assert CasedText([DigitChar(d)], upper) == [c];
    CasedConcat(front, [DigitChar(d)], upper);
    DigitCharReads(d, base);
    if q != 0 { NumeralReads(q, base, upper); } else { ReadNone(base); assert CasedText([], upper) == []; }
    ReadOne(c, base, q % TWO32);
    ReadConcat(CasedText(front, upper), [c], base, 0);
    DivIdentity(n, base);
  }

  lemma ReadNone(base: int)
    ensures Digits([], base) && Read([], base, 0) == 0
  {
  }

  lemma ModBound(n: nat, base: nat)
    requires base >= 2
    ensures 0 <= n % base < base && 0 <= n / base
  {
  }

  lemma DivIdentity(n: nat, base: nat)
    requires base >= 2
    ensures (n / base % TWO32 * base + n % base) % TWO32 == n % TWO32
  {
    var q := n / base;
    var k, r := q / TWO32, q % TWO32;
    assert n == q * base + n % base && q == TWO32 * k + r;
    assert q * base == TWO32 * (k * base) + r * base;
    WholeTurns(r * base + n % base, k * base);
  }

  lemma WholeTurns(x: int, m: int)
    ensures (x + TWO32 * m) % TWO32 == x % TWO32
  {
  }

  lemma {:induction false} ZerosRead(k: nat, base: int)
    requires 2 <= base
    ensures Digits(Repeat('0', k), base) && Read(Repeat('0', k), base, 0) == 0
  {
    if k > 0 {
      ZerosRead(k - 1, base);
      assert Repeat('0', k)[1..] == Repeat('0', k - 1);
    }
  }

  /** Leading zeros do not matter to the reading loop. */
  lemma PaddedReads(n: nat, base: nat, minlen: int, upper: bool)
    requires 2 <= base <= 36
    ensures Digits(CasedText(Padded(Numeral(n, base), minlen), upper), base)
    ensures Read(CasedText(Padded(Numeral(n, base), minlen), upper), base, 0) == n % TWO32
  {
    hide Read, Digits, Numeral;
    NumeralReads(n, base, upper);
    var s := Numeral(n, base);
    if |s| < minlen {
      var z := Repeat('0', minlen - |s|);
      ZerosRead(minlen - |s|, base);
      assert CasedText(z, upper) == z;
      CasedConcat(z, s, upper);
      ReadConcat(z, CasedText(s, upper), base, 0);
    }
  }

  // ----- Round trips -----

  /** A text whose scanning part is digits, from its start on. */
  lemma ParseScanned(s: string, base: int, start: nat, b: int)
    requires (2 <= base <= 36 || base == 0) && start <= |s| && s != [] && !Blank(s[0])
    requires Prefixed(s, 0, base) == Go(start, b) && Digits(s[start..], b)
    ensures Parse(s, base) == Parsed(Read(s[start..], b, 0), |s|)
  {
    hide Scan, Read, Digits, Prefixed;
    ScanReads(s, start, b, 0);
  }

  lemma HexSplit(n: nat, precision: int, upper: bool)
    requires n < TWO32
    ensures var s := HexText(n, true, precision, upper);
      |s| > 2 && s[0] == '0' && s[1] == (if upper then 'X' else 'x')
      && s[2..] == CasedText(Padded(Numeral(n, 16), precision), upper)
  {
    hide Numeral;
  }

  /** Main result: what %#x and %#X print, in base 0, is read back exactly, with any
      number of leading zeros. */
  lemma HexRoundTrip(n: nat, precision: int, upper: bool)
    requires n < TWO32
    ensures Parse(HexText(n, true, precision, upper), 0) == Parsed(n, |HexText(n, true, precision, upper)|)
  {
    hide Numeral, Read, Digits, HexText, Padded, Parse;
    var s := HexText(n, true, precision, upper);
    HexSplit(n, precision, upper);
    PaddedReads(n, 16, precision, upper);
    ParseScanned(s, 0, 2, 16);
  }

  lemma {:induction false} LeadingDigit(n: nat, base: nat)
    requires 2 <= base <= 36
    ensures Numeral(n, base)[0] == '0' <==> n == 0
    ensures base == 10 ==> '0' <= Numeral(n, base)[0] <= '9'
    decreases n
  {
    if n >= base {
      DivSmaller(n, base);
      AtLeastOne(n, base);
      LeadingDigit(n / base, base);
    }
  }

  /** What %u prints, in base 10, is read back exactly, zeros or not. */
  lemma DecimalRoundTrip(n: nat, precision: int)
    requires n < TWO32
    ensures Parse(Padded(Numeral(n, 10), precision), 10) == Parsed(n, |Padded(Numeral(n, 10), precision)|)
  {
    hide Numeral, Read, Digits, Parse;
    var s := Padded(Numeral(n, 10), precision);
    LeadingDigit(n, 10);
    PaddedReads(n, 10, precision, false);
    assert s[0..] == s;
    ParseScanned(s, 10, 0, 10);
  }

  /** In base 0 it is read back exactly when it does not start with a zero; otherwise
      the result is 0 and the rest is not read. */
  lemma DecimalBaseZeroIff(n: nat, precision: int)
    requires 0 < n < TWO32
    ensures Parse(Padded(Numeral(n, 10), precision), 0) == Parsed(n, |Padded(Numeral(n, 10), precision)|) <==>
      precision <= |Numeral(n, 10)|
    ensures precision > |Numeral(n, 10)| ==> Parse(Padded(Numeral(n, 10), precision), 0) == Parsed(0, 1)
  {
    hide Numeral, Read, Digits;
    var t := Numeral(n, 10);
    var s := Padded(t, precision);
    LeadingDigit(n, 10);
    PaddedReads(n, 10, precision, false);
    if precision <= |t| {
      assert s[0..] == s;
      hide Parse;
      ParseScanned(s, 0, 0, 10);
    } else {
      SecondDigit(n, precision);
    }
  }

  lemma SecondDigit(n: nat, precision: int)
    requires precision > |Numeral(n, 10)|
    ensures var s := Padded(Numeral(n, 10), precision); |s| > 1 && s[0] == '0' && '0' <= s[1] <= '9'
  {
    hide Numeral;
    LeadingDigit(n, 10);
  }

  /** What %#o prints, in base 8, is read back exactly. */
  lemma OctalRoundTrip(n: nat, precision: int)
    requires n < TWO32
    ensures Parse(OctalText(n, true, precision), 8) == Parsed(n, |OctalText(n, true, precision)|)
  {
    hide Numeral, Read, Digits, Parse;
    var s := OctalText(n, true, precision);
    if n == 0 {
      assert s == "0" && s[1..] == [];
      ReadNone(8);
      assert Prefixed(s, 0, 8) == Go(1, 8);
      ParseScanned(s, 8, 1, 8);
    } else {
      PaddedReads(n, 8, precision, false);
      assert s[1..] == Padded(Numeral(n, 8), precision);
      OctalNotO(s);
      ParseScanned(s, 8, 1, 8);
    }
  }

  lemma OctalNotO(s: string)
    requires |s| > 1 && Digits(s[1..], 8)
    ensures s[1] != 'o' && s[1] != 'O'
  {
    assert s[1..][0] == s[1];
  }

  /** In base 16 the same text is read back exactly when its first digit is not a
      lower-case letter; otherwise the result is 0. */
  lemma HexBaseSixteenIff(n: nat, precision: int, upper: bool)
    requires n < TWO32
    ensures var s := HexText(n, true, precision, upper);
      && |s| > 2
      && (Parse(s, 16) == Parsed(n, |s|) <==> s[2] <= 'F')
      && (s[2] > 'F' ==> Parse(s, 16) == Parsed(0, 1))
  {
    hide Numeral, Read, Digits, HexText, Padded;
    var s := HexText(n, true, precision, upper);
    HexSplit(n, precision, upper);
    PaddedReads(n, 16, precision, upper);
    if s[2] <= 'F' {
      hide Parse;
      ParseScanned(s, 16, 2, 16);
    }
  }

  /** A blank after a decimal number is not where reading stops: it counts as the
      digit -23, and is read. */
  lemma BlankIsRead(n: nat)
    requires 0 < n < TWO32
    ensures Parse(Numeral(n, 10) + " ", 10) == Parsed((n * 10 - 23) % TWO32, |Numeral(n, 10)| + 1)
  {
    hide Numeral, Read, Digits, Parse;
    var t := Numeral(n, 10);
    var s := t + " ";
    LeadingDigit(n, 10);
    NumeralReads(n, 10, false);
    ReadOne(' ', 10, n);
    ReadConcat(t, " ", 10, 0);
    assert s[0..] == s;
    ParseScanned(s, 10, 0, 10);
  }

  // ----- Any base, blanks in front, and any conversion -----

  predicate AllBlank(s: string) {
    forall i :: 0 <= i < |s| ==> s[i] == ' ' || s[i] == '\r' || s[i] == '\n'
  }

  lemma {:induction false} SkipRun(b: string, t: string, i: nat)
    requires AllBlank(b) && i <= |b| && t != [] && !Blank(t[0])
    ensures SkipBlanks(b + t, i) == |b|
    decreases |b| - i
  {
    if i < |b| {
      assert (b + t)[i] == b[i];
      SkipRun(b, t, i + 1);
    } else {
      assert (b + t)[i] == t[0];
    }
  }

  /** A text after blanks, whose scanning part is digits. */
  lemma ParseAfterBlanks(b: string, t: string, base: int, start: nat, rbase: int)
    requires (2 <= base <= 36 || base == 0) && AllBlank(b) && t != [] && !Blank(t[0]) && start <= |t|
    requires Prefixed(b + t, |b|, base) == Go(|b| + start, rbase) && Digits(t[start..], rbase)
    ensures Parse(b + t, base) == Parsed(Read(t[start..], rbase, 0), |b + t|)
  {
    hide Scan, Read, Digits, Prefixed;
    SkipRun(b, t, 0);
    assert (b + t)[|b| + start..] == t[start..];
    ScanReads(b + t, |b| + start, rbase, 0);
  }

  /** A first digit of zero may be left unread. */
  lemma ReadPastZero(t: string, base: int)
    requires 2 <= base && t != [] && t[0] == '0' && Digits(t, base)
    ensures Digits(t[1..], base) && Read(t, base, 0) == Read(t[1..], base, 0)
  {
    assert forall i :: 0 <= i < |t[1..]| ==> t[1..][i] == t[i + 1];
  }

  lemma FirstAlnum(t: string, base: int, upper: bool)
    requires base <= 36 && t != [] && DigitsOf(t, base, upper)
    ensures !Blank(t[0]) && t[0] != NUL && t[0] >= '0' && !('9' < t[0] < 'A') && t[0] <= 'z'
  {
  }

  /** In base 8 or 16 no digit is taken for the letter of a mark. */
  lemma NoMark(t: string, base: int, upper: bool)
    requires DigitsOf(t, base, upper) && |t| > 1
    ensures base == 8 ==> t[1] != 'o' && t[1] != 'O'
    ensures base == 16 ==> t[1] != 'x' && t[1] != 'X'
  {
  }

  /** Main result: in every base from 2 to 36 the digits of a number, in either case, with
      any leading zeros and after any blanks, are read back to their end as the number,
      modulo 2^32. */
  lemma AnyBaseReadBack(b: string, n: nat, base: nat, least: int, upper: bool)
    requires AllBlank(b) && 2 <= base <= 36
    ensures var s := b + CasedText(Padded(Numeral(n, base), least), upper);
      Parse(s, base) == Parsed(n % TWO32, |s|)
  {
    hide Numeral, Read, Digits, Parse, DigitsOf, Positional, UpperChar, Padded, AllBlank;
    var t := CasedText(Padded(Numeral(n, base), least), upper);
    PaddedReads(n, base, least, upper);
    PaddedPositional(n, base, least, upper);
    FirstAlnum(t, base, upper);
    if |t| > 1 { NoMark(t, base, upper); }
    assert At(b + t, |b|) == t[0];
    assert At(b + t, |b| + 1) == if |t| > 1 then t[1] else NUL;
    if base == 8 && t[0] == '0' {
      ReadPastZero(t, base);
      ParseAfterBlanks(b, t, base, 1, base);
    } else {
      assert t[0..] == t;
      ParseAfterBlanks(b, t, base, 0, base);
    }
  }

  /** A letter, in either case, that is no digit of the base. */
  predicate StopsIn(c: char, base: int) {
    DigitIn(c) >= base && DigitIn(c) >= 10
  }

  lemma {:induction false} ScanStops(t: string, c: char, more: string, i: nat, base: int, number: int)
    requires 2 <= base <= 36 && i <= |t| && Digits(t, base) && StopsIn(c, base)
    ensures Scan(t + ([c] + more), i, base, number) == (Read(t[i..], base, number), |t|)
    decreases |t| - i
  {
    var s := t + ([c] + more);
    if i < |t| {
      assert s[i] == t[i] == t[i..][0] && t[i..][1..] == t[i + 1..];
      assert DigitOf(t[i], base).Digit? && t[i] != NUL;
      ScanStops(t, c, more, i + 1, base, (number * base + DigitOf(t[i], base).value) % TWO32);
    } else {
      assert s[i] == c && t[i..] == [];
    }
  }

  /** Reading stops before the first letter that is no digit of the base. */
  lemma LetterStops(b: string, n: nat, base: nat, least: int, upper: bool, c: char, more: string)
    requires AllBlank(b) && 2 <= base <= 36 && StopsIn(c, base)
    requires (base == 8 ==> c != 'o' && c != 'O') && (base == 16 ==> c != 'x' && c != 'X')
    ensures var t := b + CasedText(Padded(Numeral(n, base), least), upper);
      Parse(t + ([c] + more), base) == Parsed(n % TWO32, |t|)
  {
    hide Numeral, Read, Digits, DigitsOf, Positional, UpperChar, Padded, AllBlank, Scan, StopsIn;
    var t := CasedText(Padded(Numeral(n, base), least), upper);
    PaddedReads(n, base, least, upper);
    PaddedPositional(n, base, least, upper);
    FirstAlnum(t, base, upper);
    if |t| > 1 { NoMark(t, base, upper); }
    var s := b + t + ([c] + more);
    assert s == b + (t + ([c] + more));
    SkipRun(b, t + ([c] + more), 0);
    assert At(s, |b|) == t[0] && At(s, |b| + 1) == if |t| > 1 then t[1] else c;
    assert !Blank(c) by { LetterNoBlank(c, base); }
    var start := if base == 8 && t[0] == '0' then 1 else 0;
    if start == 1 { ReadPastZero(t, base); }
    assert t[0..] == t;
    assert Digits(t[start..], base) && Read(t[start..], base, 0) == n % TWO32;
    ScanStopsAt(b + t[..start], t[start..], c, more, base);
    assert b + t[..start] + (t[start..] + ([c] + more)) == s;
    assert s[|b + t|] == c;
  }

  lemma LetterNoBlank(c: char, base: int)
    requires StopsIn(c, base)
    ensures !Blank(c)
  {
  }

  /** The same for digits that other characters stand before. */
  lemma ScanStopsAt(a: string, t: string, c: char, more: string, base: int)
    requires 2 <= base <= 36 && Digits(t, base) && StopsIn(c, base)
    ensures Scan(a + (t + ([c] + more)), |a|, base, 0) == (Read(t, base, 0), |a| + |t|)
  {
    hide *;
    var s := t + ([c] + more);
    ScanStops(t, c, more, 0, base, 0);
    assert t[0..] == t;
    ScanShift(a, s, 0, base, 0);
    assert |a| + 0 == |a|;
  }

  lemma {:induction false} ScanShift(a: string, s: string, i: nat, base: int, number: int)
    requires i <= |s|
    ensures var r := Scan(s, i, base, number); Scan(a + s, |a| + i, base, number) == (r.0, |a| + r.1)
    decreases |s| - i
  {
    if i < |s| {
      assert (a + s)[|a| + i] == s[i];
      match DigitOf(s[i], base)
      case Stop =>
      case Digit(d) =>
        if s[i] != NUL { ScanShift(a, s, i + 1, base, (number * base + d) % TWO32); }
    }
  }

  /** Octal digits behind 0o or 0O are read back in base 8 and in base 0. */
  lemma OctalMarkReadBack(b: string, n: nat, least: int, upper: bool)
    requires AllBlank(b)
    ensures var s := b + ((if upper then "0O" else "0o") + Padded(Numeral(n, 8), least));
      Parse(s, 8) == Parsed(n % TWO32, |s|) && Parse(s, 0) == Parsed(n % TWO32, |s|)
  {
    hide Numeral, Read, Digits, Parse, Padded, AllBlank;
    PaddedReads(n, 8, least, false);
    var t := (if upper then "0O" else "0o") + Padded(Numeral(n, 8), least);
    assert t[2..] == Padded(Numeral(n, 8), least);
    assert At(b + t, |b|) == '0' && At(b + t, |b| + 1) == t[1];
    ParseAfterBlanks(b, t, 8, 2, 8);
    ParseAfterBlanks(b, t, 0, 2, 8);
  }

  /** What a text is when no digit of the base comes first: nothing but blanks, a letter
      that is no digit of the base or one of the characters between the two alphabets, or
      any other character. */
  lemma OtherFirst(b: string, s: string, base: int)
    requires AllBlank(b) && (2 <= base <= 36 || base == 0)
    ensures Parse(b, base) == Parsed(0, |b|)
    ensures s != [] && ('A' <= s[0] <= 'z') && (base == 0 || DigitIn(s[0]) < 0 || DigitIn(s[0]) >= base) ==>
      Parse(b + s, base) == Parsed(0, |b|)
    ensures s != [] && s[0] != NUL && s[0] != ' ' && s[0] != '\r' && s[0] != '\n' && (s[0] < '0' || '9' < s[0] < 'A' || 'z' < s[0]) ==>
      Parse(b + s, base) == Parsed(0, -1)
  {
    hide AllBlank;
    assert b + [] == b;
    SkipAll(b, 0);
    if s != [] && !Blank(s[0]) {
      SkipRun(b, s, 0);
      assert At(b + s, |b|) == s[0];
    }
  }

  lemma {:induction false} SkipAll(b: string, i: nat)
    requires AllBlank(b) && i <= |b|
    ensures SkipBlanks(b, i) == |b|
    decreases |b| - i
  {
    if i < |b| { SkipAll(b, i + 1); }
  }

  /** A base is accepted exactly when it is 0 or from 2 to 36. */
  lemma BaseAcceptedIff(base: int)
    ensures Parse("1", base) == Parsed(1, 1) <==> base == 0 || 2 <= base <= 36
  {
    if base == 0 || 2 <= base <= 36 {
      assert DigitOf('1', base) == Digit(1);
    }
  }

  /** Signs, tabs and all other characters before '0' that are not blanks are refused. */
  lemma OtherStartRefused(b: string, s: string, base: int)
    requires AllBlank(b) && s != [] && s[0] != NUL && s[0] < '0' && s[0] != ' ' && s[0] != '\r' && s[0] != '\n'
    ensures Parse(b + s, base) == Parsed(0, -1)
  {
    SkipRun(b, s, 0);
  }

  /** The base in which a conversion's text is to be read. */
  function ParseBase(conv: Conversion, f: Flags): nat {
    if conv.Pointer? || (f.alt && (conv.Hex? || conv.HexUpper?)) then 0 else BaseOf(conv)
  }

  /** Main result: what a conversion prints is read back, in its base, as the value, to its
      end, if and only if it has no sign: a minus and a plus are refused, a blank is not. */
  lemma ConversionReadBackIff(conv: Conversion, value: int, f: Flags, precision: int)
    requires ValueOk(conv, value)
    ensures var s := TextOf(conv, value, f, precision);
      Parse(s, ParseBase(conv, f)) == Parsed(value, |s|) <==> value >= 0 && !(conv.Decimal? && f.plus)
  {
    hide Numeral, Parse, HexText, OctalText, Padded;
    var s := TextOf(conv, value, f, precision);
    match conv
    case Pointer => HexRoundTrip(value, 8, false);
    case Unsigned =>
      AnyBaseReadBack("", value, 10, precision, false);
      assert "" + s == s;
    case Octal =>
      if f.alt { OctalRoundTrip(value, precision); } else { PlainOctal(value, precision); }
    case Hex =>
      if f.alt { HexRoundTrip(value, precision, false); } else { PlainHexText(value, precision, false); }
    case HexUpper =>
      if f.alt { HexRoundTrip(value, precision, true); } else { PlainHexText(value, precision, true); }
    case Decimal =>
      if value < 0 || f.plus {
        OtherStartRefused("", s, 10);
        assert "" + s == s;
      } else {
        AnyBaseReadBack(DecSign(value, f.plus, f.space), value, 10, precision, false);
      }
  }

  lemma PlainOctal(value: nat, precision: int)
    requires value < TWO32
    ensures var s := OctalText(value, false, precision); Parse(s, 8) == Parsed(value, |s|)
  {
    hide Numeral, Parse, Padded;
    AnyBaseReadBack("", value, 8, precision, false);
    assert "" + Padded(Numeral(value, 8), precision) == Padded(Numeral(value, 8), precision);
  }

  lemma PlainHexText(value: nat, precision: int, upper: bool)
    requires value < TWO32
    ensures var s := HexText(value, false, precision, upper); Parse(s, 16) == Parsed(value, |s|)
  {
    hide Numeral, Parse, Padded;
    AnyBaseReadBack("", value, 16, precision, upper);
    var s := CasedText(Padded(Numeral(value, 16), precision), upper);
    assert "" + Padded(Numeral(value, 16), precision) == Padded(Numeral(value, 16), precision);
    assert "" + s == s;
  }
}
