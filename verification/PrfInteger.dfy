// The integer conversions of the printf engine: digits written backwards into the
// buffer, padded and reversed in place.
module PrfInteger {
  import opened Words
  import opened Numerals

  const NUL: char := '\0'

  /** Characters of the buffer outside [from, to) are as before. */
  twostate predicate OnlyChanges(buf: array<char>, from: int, to: int)
    reads buf
  {
    forall i :: 0 <= i < buf.Length && !(from <= i < to) ==> buf[i] == old(buf[i])
  }

  /** pos_libc_reverse_and_pad: `start` and `end` index the digits written so far. */
  method ReverseAndPad(buf: array<char>, start0: nat, end0: nat, minlen: int) returns (len: nat)
    requires start0 < end0 < buf.Length && start0 + minlen < buf.Length
    modifies buf
    ensures var s := old(buf[start0..end0]);
      && len == (if |s| < minlen then minlen else |s|) && start0 + len < buf.Length
      && buf[start0..start0 + len] == Padded(Reversed(s), minlen) && buf[start0 + len] == NUL
    ensures forall i :: 0 <= i < start0 || start0 + len < i < buf.Length ==> buf[i] == old(buf[i])
  {
    var start, end := start0, end0;
    ghost var s := buf[start0..end0];
    ghost var was := buf[..];
    while end - start < minlen
      invariant end0 <= end && (end == end0 || end - start0 <= minlen) && end < buf.Length
      invariant buf[start0..end] == s + Repeat('0', end - end0)
      invariant forall i :: 0 <= i < start0 || end < i < buf.Length ==> buf[i] == was[i]
    {
      buf[end] := '0';
      end := end + 1;
      assert buf[start0..end] == buf[start0..end - 1] + ['0'];
    }
    buf[end] := NUL;
    len := end - start;
    ghost var digits := buf[start0..end];
    ReverseInPlace(buf, start, end);
    ReversedPadded(s, minlen);
  }

  /** The swap loop of pos_libc_reverse_and_pad. */
  method ReverseInPlace(buf: array<char>, start0: nat, end0: nat)
    requires start0 < end0 <= buf.Length
    modifies buf
    ensures buf[start0..end0] == Reversed(old(buf[start0..end0]))
    ensures OnlyChanges(buf, start0, end0)
  {
    var start, end := start0, end0 - 1;
    while end > start
      invariant start0 <= start <= end + 1 && start - start0 == end0 - 1 - end
      invariant forall i :: start0 <= i < start ==> buf[i] == old(buf[start0 + end0 - 1 - i]) && buf[start0 + end0 - 1 - i] == old(buf[i])
      invariant forall i :: start <= i <= end ==> buf[i] == old(buf[i])
      invariant OnlyChanges(buf, start0, end0)
    {
      var tmp := buf[end];
      buf[end] := buf[start];
      buf[start] := tmp;
      end := end - 1;
      start := start + 1;
    }
  }

  /** The digits of `n`, least significant first: the loop of pos_libc_to_x. */
  method WriteDigits(buf: array<char>, pos0: nat, n0: nat, base: nat) returns (pos: nat)
    requires 2 <= base <= 36 && pos0 + |Numeral(n0, base)| < buf.Length
    modifies buf
    ensures pos == pos0 + |Numeral(n0, base)| && buf[pos0..pos] == Reversed(Numeral(n0, base))
    ensures OnlyChanges(buf, pos0, pos)
  {
    hide Numeral, DigitChar, LastDigit, OtherDigits;
    pos := pos0;
    var n: nat := n0;
    var more := true;
    ghost var rest := Numeral(n0, base);
    while more
      invariant pos0 <= pos && pos + |rest| == pos0 + |Numeral(n0, base)|
      invariant rest == if more then Numeral(n, base) else []
      invariant Numeral(n0, base) == rest + Reversed(buf[pos0..pos])
      invariant OnlyChanges(buf, pos0, pos)
      decreases more, n
    {
      NumeralStep(n, base);
      var d, q := LastDigit(n, base), OtherDigits(n, base);
      n := q;
      ghost var written := buf[pos0..pos];
      buf[pos] := DigitChar(d);
      pos := pos + 1;
      more := n != 0;
      ReversedAppend(written, DigitChar(d));
      assert buf[pos0..pos] == written + [DigitChar(d)];
      rest := if more then Numeral(n, base) else [];
    }
    ReversedTwice(buf[pos0..pos]);
  }

  function LastDigit(n: nat, base: nat): int
    requires base > 0
  {
    n % base
  }

  function OtherDigits(n: nat, base: nat): int
    requires base > 0
  {
    n / base
  }

  lemma NumeralStep(n: nat, base: nat)
    requires 2 <= base <= 36
    ensures var (d, q) := (LastDigit(n, base), OtherDigits(n, base));
      && 0 <= d < base && 0 <= q && (n > 0 ==> q < n) && (n == 0 ==> q == 0)
      && Numeral(n, base) == (if q != 0 then Numeral(q, base) else []) + [DigitChar(d)]
  {
    if n > 0 { DivSmaller(n, base); }
    if n >= base {
      AtLeastOne(n, base);
    } else {
      SmallDiv(n, base);
    }
  }

  lemma AtLeastOne(n: nat, base: nat)
    requires 2 <= base <= n
    ensures n / base >= 1
  {
  }

  lemma SmallDiv(n: nat, base: nat)
    requires n < base
    ensures n / base == 0 && n % base == n
  {
  }

  /** pos_libc_to_x: the numeral of `n`, with leading zeros up to `minlen`. */
  method ToX(buf: array<char>, pos: nat, n: nat, base: nat, minlen: int) returns (len: nat)
    requires 2 <= base <= 36 && n < TWO32
    requires pos + |Padded(Numeral(n, base), minlen)| < buf.Length
    modifies buf
    ensures len == |Padded(Numeral(n, base), minlen)|
    ensures buf[pos..pos + len] == Padded(Numeral(n, base), minlen) && buf[pos + len] == NUL
    ensures forall i :: 0 <= i < pos || pos + len < i < buf.Length ==> buf[i] == old(buf[i])
  {
    hide Numeral;
    var end := WriteDigits(buf, pos, n, base);
    ReversedTwice(Numeral(n, base));
    len := ReverseAndPad(buf, pos, end, minlen);
  }

  /** pos_libc_uc: upper-case up to the terminator at `end`. */
  method UpperCase(buf: array<char>, from: nat, end: nat)
    requires from <= end < buf.Length && buf[end] == NUL && (forall i :: from <= i < end ==> buf[i] != NUL)
    modifies buf
    ensures buf[from..end] == Upper(old(buf[from..end])) && buf[end] == NUL
    ensures OnlyChanges(buf, from, end)
  {
    var p: int := from;
    while buf[p] != NUL
      invariant from <= p <= end && buf[end] == NUL
      invariant forall i :: p <= i < end ==> buf[i] == old(buf[i])
      invariant forall i :: from <= i < p ==> buf[i] == UpperChar(old(buf[i]))
      invariant OnlyChanges(buf, from, end)
      decreases end - p
    {
      if 'a' <= buf[p] <= 'z' {
        buf[p] := (buf[p] as int + 'A' as int - 'a' as int) as char;
      }
      p := p + 1;
    }
  }

  // ----- The conversions -----

  function HexText(value: nat, alt: bool, precision: int, upper: bool): string {
    var s := (if alt then "0x" else "") + Padded(Numeral(value, 16), precision);
    if upper then Upper(s) else s
  }

  /** In octal the alternative form puts a zero in front, once only for zero. */
  function OctalText(value: nat, alt: bool, precision: int): string {
    if alt && value == 0 then "0" else (if alt then "0" else "") + Padded(Numeral(value, 8), precision)
  }

  function Magnitude(value: int): nat {
    if value < 0 then -value else value
  }

  function DecSign(value: int, plus: bool, space: bool): string {
    if value < 0 then "-" else if plus then "+" else if space then " " else ""
  }

  function DecText(value: int, plus: bool, space: bool, precision: int): string {
    DecSign(value, plus, space) + Padded(Numeral(Magnitude(value), 10), precision)
  }

  lemma {:induction false} NumeralPlain(n: nat, base: nat)
    requires 2 <= base <= 36
    ensures forall i :: 0 <= i < |Numeral(n, base)| ==> Numeral(n, base)[i] != NUL
    decreases n
  {
    if n >= base {
      DivSmaller(n, base);
      NumeralPlain(n / base, base);
    }
  }

  /** pos_libc_to_hex. */
  method ToHex(buf: array<char>, value: nat, alt: bool, precision: int, prefix: char) returns (len: nat)
    requires value < TWO32 && |HexText(value, alt, precision, prefix == 'X')| < buf.Length
    modifies buf
    ensures len == |HexText(value, alt, precision, prefix == 'X')| && buf[..len] == HexText(value, alt, precision, prefix == 'X')
  {
    hide HexText, Upper;
    HexCases(value, alt, precision);
    len := PlainHex(buf, value, alt, precision);
    if prefix == 'X' {
      UpperText(buf, len, HexText(value, alt, precision, false));
    }
  }

  /** The text in lower case, with its terminator. */
  method PlainHex(buf: array<char>, value: nat, alt: bool, precision: int) returns (len: nat)
    requires value < TWO32 && |HexText(value, alt, precision, false)| < buf.Length
    modifies buf
    ensures len == |HexText(value, alt, precision, false)| && buf[..len] == HexText(value, alt, precision, false) && buf[len] == NUL
  {
    hide Numeral, Padded;
    var pos := WritePrefix(buf, alt);
    var l := ToX(buf, pos, value, 16, precision);
    len := l + pos;
    assert buf[..len] == buf[..pos] + buf[pos..len];
  }

  method UpperText(buf: array<char>, len: nat, ghost text: string)
    requires len < buf.Length && buf[..len] == text && buf[len] == NUL && forall i :: 0 <= i < |text| ==> text[i] != NUL
    modifies buf
    ensures buf[..len] == Upper(text)
  {
    hide Upper, UpperChar;
    forall i | 0 <= i < len ensures buf[i] != NUL { assert buf[i] == buf[..len][i]; }
    assert buf[0..len] == buf[..len];
    UpperCase(buf, 0, len);
    assert buf[0..len] == buf[..len];
  }

  /** The 0x of the alternative form. */
  method WritePrefix(buf: array<char>, alt: bool) returns (pos: nat)
    requires alt ==> buf.Length >= 2
    modifies buf
    ensures pos == (if alt then 2 else 0) && (alt ==> buf.Length >= 2)
    ensures buf[..pos] == if alt then "0x" else ""
  {
    pos := 0;
    if alt {
      buf[0] := '0';
      buf[1] := 'x';
      pos := 2;
    }
  }

  /** The text in upper case, and that no character of it is a terminator. */
  lemma HexCases(value: nat, alt: bool, precision: int)
    ensures var s := HexText(value, alt, precision, false);
      && HexText(value, alt, precision, true) == Upper(s) && |Upper(s)| == |s|
      && forall i :: 0 <= i < |s| ==> s[i] != NUL
  {
    hide Numeral, Upper;
    NumeralPlain(value, 16);
  }

  /** pos_libc_to_octal. */
  method ToOctal(buf: array<char>, value: nat, alt: bool, precision: int) returns (len: nat)
    requires value < TWO32 && |OctalText(value, alt, precision)| < buf.Length
    modifies buf
    ensures len == |OctalText(value, alt, precision)| && buf[..len] == OctalText(value, alt, precision)
  {
    hide Numeral;
    var pos := 0;
    if alt {
      buf[0] := '0';
      pos := 1;
      if value == 0 {
        buf[1] := NUL;
        return 1;
      }
    }
    len := ToX(buf, pos, value, 8, precision);
    assert buf[..pos + len] == (if alt then "0" else "") + buf[pos..pos + len];
    len := pos + len;
  }

  /** pos_libc_to_dec.  The most negative value is its own magnitude as uint32_t. */
  method ToDec(buf: array<char>, value0: int, plus: bool, space: bool, precision: int) returns (len: nat)
    requires -0x8000_0000 <= value0 <= 0x7fff_ffff && |DecText(value0, plus, space, precision)| < buf.Length
    modifies buf
    ensures len == |DecText(value0, plus, space, precision)| && buf[..len] == DecText(value0, plus, space, precision)
  {
    hide Numeral;
    var value, pos := value0, 0;
    if value < 0 {
      buf[0] := '-';
      pos := 1;
      if value != -0x8000_0000 {
        value := -value;
      }
    } else if plus {
      buf[0] := '+';
      pos := 1;
    } else if space {
      buf[0] := ' ';
      pos := 1;
    }
    var unsigned := value % TWO32;
    assert unsigned == Magnitude(value0);
    len := ToX(buf, pos, unsigned, 10, precision);
    assert buf[..pos + len] == buf[..pos] + buf[pos..pos + len];
    assert buf[..pos] == DecSign(value0, plus, space);
    len := pos + len;
  }
}
