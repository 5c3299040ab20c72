// Numerals: what a string of digits denotes, in any base up to 36.
module Decimal {
  import opened Words

  predicate IsDigit(c: char) {
    '0' <= c <= '9'
  }

  function DigitValue(c: char): (d: int)
    requires IsDigit(c)
    ensures 0 <= d <= 9
  {
    c as int - '0' as int
  }

  predicate AllDigits(s: string) {
    forall i :: 0 <= i < |s| ==> IsDigit(s[i])
  }

  function Pow10(n: nat): (p: int)
    ensures p >= 1
  {
    if n == 0 then 1 else 10 * Pow10(n - 1)
  }

  /** The number that a string of decimal digits denotes. */
  function Number(s: string): (n: nat)
    requires AllDigits(s)
    decreases |s|
  {
    if s == [] then 0 else 10 * Number(s[..|s| - 1]) + DigitValue(s[|s| - 1])
  }

  function Prod(a: int, b: int): int {
    a * b
  }

  lemma {:induction false} NumberConcat(s: string, t: string)
    requires AllDigits(s) && AllDigits(t)
    ensures AllDigits(s + t)
    ensures Number(s + t) == Prod(Number(s), Pow10(|t|)) + Number(t)
    decreases |t|
  {
    hide Prod;
    if t == [] {
      assert s + t == s;
      ProdOne(Number(s));
    } else {
      var t1 := t[..|t| - 1];
      assert (s + t)[..|s + t| - 1] == s + t1;
      NumberConcat(s, t1);
      ProdTen(Number(s), Pow10(|t1|));
    }
  }

  lemma ProdOne(a: int)
    ensures Prod(a, 1) == a && Prod(0, a) == 0 && Prod(1, a) == a
  {
  }

  lemma ProdTen(a: int, b: int)
    ensures Prod(a, 10 * b) == 10 * Prod(a, b) && Prod(10 * a, b) == 10 * Prod(a, b)
  {
  }

  lemma ProdPlus(a: int, b: int, c: int)
    ensures Prod(a + b, c) == Prod(a, c) + Prod(b, c)
  {
  }

  lemma ProdComm(a: int, b: int)
    ensures Prod(a, b) == Prod(b, a)
  {
  }

  lemma ProdLe(a: int, b: int, c: int)
    requires a <= b && c >= 0
    ensures Prod(a, c) <= Prod(b, c)
  {
  }

  lemma NumberOne(c: char)
    requires IsDigit(c)
    ensures Number([c]) == DigitValue(c)
  {
    assert [c][..0] == [];
  }

  lemma {:induction false} NumberZeros(n: nat)
    ensures Number(Repeat('0', n)) == 0
  {
    if n > 0 {
      assert Repeat('0', n)[..n - 1] == Repeat('0', n - 1);
      NumberZeros(n - 1);
    }
  }

  /** Leading zeros do not count. */
  lemma NumberLeadingZeros(n: nat, t: string)
    requires AllDigits(t)
    ensures Number(Repeat('0', n) + t) == Number(t)
  {
    hide Prod;
    NumberConcat(Repeat('0', n), t);
    NumberZeros(n);
    ProdOne(Pow10(|t|));
  }
}
