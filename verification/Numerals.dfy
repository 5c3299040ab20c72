// Numerals in a base, as the integer conversions write them and the number parser
// reads them.
module Numerals {
  import opened Words
  import opened Bits

  /** The digit characters 0-9a-z. */
  function DigitChar(d: int): (c: char)
    requires 0 <= d < 36
  {
    ('0' as int + d + (if d > 9 then 'a' as int - '0' as int - 10 else 0)) as char
  }

  /** a-z to A-Z. */
  function UpperChar(c: char): char {
    if 'a' <= c <= 'z' then (c as int + 'A' as int - 'a' as int) as char else c
  }

  function Upper(s: string): (u: string)
    ensures |u| == |s| && forall i :: 0 <= i < |s| ==> u[i] == UpperChar(s[i])
  {
    seq(|s|, i requires 0 <= i < |s| => UpperChar(s[i]))
  }

  /** A character as written, or in upper case. */
  function Cased(c: char, upper: bool): char {
    if upper then UpperChar(c) else c
  }

  function CasedText(s: string, upper: bool): string {
    if upper then Upper(s) else s
  }

  lemma CasedConcat(s: string, t: string, upper: bool)
    ensures CasedText(s + t, upper) == CasedText(s, upper) + CasedText(t, upper)
  {
    hide UpperChar;
    if upper {
      var whole, parts := Upper(s + t), Upper(s) + Upper(t);
      assert |whole| == |parts|;
      forall i | 0 <= i < |whole| ensures whole[i] == parts[i] {
        if i >= |s| { assert (s + t)[i] == t[i - |s|]; }
      }
      assert whole == parts;
    }
  }

  lemma DivSmaller(n: nat, base: nat)
    requires n > 0 && base >= 2
    ensures 0 <= n / base < n
  {
    var q := n / base;
    assert n == base * q + n % base;
    if q >= n { MulGrows(base, q); }
  }

  lemma MulGrows(b: nat, q: nat)
    requires b >= 2 && q >= 1
    ensures b * q >= 2 * q
  {
  }

  /** The numeral of `n`, most significant digit first, without leading zeros. */
  function Numeral(n: nat, base: nat): (s: string)
    requires 2 <= base <= 36
    ensures |s| >= 1
    decreases n
  {
    if n < base then [DigitChar(n)]
    else
      DivSmaller(n, base);
      Numeral(n / base, base) + [DigitChar(n % base)]
  }

  /** A numeral has at most as many digits as the number has bits. */
  lemma {:induction false} NumeralShort(n: nat, base: nat, bits: nat)
    requires 2 <= base <= 36 && bits >= 1 && n < Pow2(bits)
    ensures |Numeral(n, base)| <= bits
    decreases bits
  {
    if n >= base {
      HalfAtMost(n, base);
      assert Pow2(bits) == 2 * Pow2(bits - 1);
      assert Pow2(1) == 2 * Pow2(0) == 2;
      NumeralShort(n / base, base, bits - 1);
    }
  }

  lemma HalfAtMost(n: nat, base: nat)
    requires base >= 2
    ensures 0 <= 2 * (n / base) <= n
  {
    var q := n / base;
    assert n == base * q + n % base;
    if q > 0 { MulGrows(base, q); }
  }

  /** A 32-bit number has at most 32 digits in any base. */
  lemma WordNumeral(n: nat, base: nat)
    requires n < TWO32 && 2 <= base <= 36
    ensures 1 <= |Numeral(n, base)| <= 32
  {
    hide Numeral, Pow2;
    Pow2Zero();
    Pow2Eight(0);
    Pow2Eight(8);
    Pow2Eight(16);
    Pow2Eight(24);
    NumeralShort(n, base, 32);
  }

  lemma ZeroNumeral(base: nat)
    requires 2 <= base <= 36
    ensures |Numeral(0, base)| == 1
  {
  }

  /** Leading zeros up to a minimum length. */
  function Padded(s: string, minlen: int): string {
    if |s| < minlen then Repeat('0', minlen - |s|) + s else s
  }

  function Reversed(s: string): (r: string)
    ensures |r| == |s| && forall i :: 0 <= i < |s| ==> r[i] == s[|s| - 1 - i]
  {
    seq(|s|, i requires 0 <= i < |s| => s[|s| - 1 - i])
  }

  lemma ReversedTwice(s: string)
    ensures Reversed(Reversed(s)) == s
  {
  }

  lemma ReversedAppend(s: string, c: char)
    ensures Reversed([c] + s) == Reversed(s) + [c] && Reversed(s + [c]) == [c] + Reversed(s)
  {
  }

  /** Zeros added at the end come out in front. */
  lemma ReversedPadded(s: string, minlen: int)
    ensures Reversed(s + Repeat('0', if |s| < minlen then minlen - |s| else 0)) == Padded(Reversed(s), minlen)
  {
  }
}
