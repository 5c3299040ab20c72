// The number parser of the UART editor, which reads what the integer conversions
// write.
module Strtol {
  import opened Words
  import opened Numerals
  import opened PrfInteger

  /** Character `i` of a C string: its terminator follows the last one. */
  function At(s: string, i: nat): char {
    if i < |s| then s[i] else NUL
  }

  predicate Blank(c: char) {
    c == ' ' || c == '\r' || c == '\n'
  }

  /** What a character counts as in the scanning loop.  Decimal digits count in every
      base, and every character below 'A' that is not one counts as a negative digit. */
  datatype Digit = Digit(value: int) | Stop

  function DigitOf(c: char, base: int): Digit {
    if '0' <= c <= '9' then Digit(c as int - '0' as int)
    else
      var t := UpperChar(c) as int - 'A' as int + 10;
      if t < base then Digit(t) else Stop
  }

  /** The scanning loop from position `i` on: the number, modulo 2^32, and where it
      stops. */
  function Scan(s: string, i: nat, base: int, number: int): (r: (int, nat))
    requires i <= |s|
    ensures i <= r.1 <= |s|
    decreases |s| - i
  {
    if i == |s| || s[i] == NUL then (number, i)
    else match DigitOf(s[i], base)
      case Stop => (number, i)
      case Digit(d) => Scan(s, i + 1, base, (number * base + d) % TWO32)
  }

  function SkipBlanks(s: string, i: nat): (j: nat)
    requires i <= |s|
    ensures i <= j <= |s| && (j < |s| ==> !Blank(s[j]))
    decreases |s| - i
  {
    if i < |s| && Blank(s[i]) then SkipBlanks(s, i + 1) else i
  }

  /** Where scanning starts and in which base, or an early return. */
  datatype Prefix = Go(start: nat, base: int) | Zero(end: nat) | NoEnd

  function Prefixed(s: string, i: nat, base: int): (p: Prefix)
    requires i <= |s|
    ensures p.Go? ==> i <= p.start <= |s|
  {
    var c, d := At(s, i), At(s, i + 1);
    if c == NUL then Zero(i)
    else if c < '0' || ('9' < c < 'A') || c > 'z' then NoEnd
    else if base == 8 && c == '0' then Go(if d == 'o' || d == 'O' then i + 2 else i + 1, 8)
    else if base == 16 && c == '0' && (d == 'x' || d == 'X') then
      if At(s, i + 2) > 'F' then Zero(i + 1) else Go(i + 2, 16)
    else if base == 0 && c == '0' then
      if d == 'o' || d == 'O' then Go(i + 2, 8)
      else if d == 'x' || d == 'X' then Go(i + 2, 16)
      else Zero(i + 1)
    else if base == 0 && '1' <= c <= '9' then Go(i, 10)
    else Go(i, base)
  }

  /** ustrtol: the number, and the end position where it is set. */
  datatype Parsed = Parsed(number: int, end: int)

  /** The end position is not set on some returns. */
  const UNSET := -1

  function Parse(s: string, base: int): Parsed {
    if (base < 2 || base > 36) && base != 0 then Parsed(0, UNSET)
    else
      match Prefixed(s, SkipBlanks(s, 0), base)
      case NoEnd => Parsed(0, UNSET)
      case Zero(end) => Parsed(0, end)
      case Go(start, b) =>
        var r := Scan(s, start, b, 0);
        Parsed(r.0, if r.1 < |s| && Blank(s[r.1]) then r.1 + 1 else r.1)
  }

  predicate CString(s: string) {
    forall i :: 0 <= i < |s| ==> s[i] != NUL
  }

  // ----- The loop -----

  method ScanLoop(s: string, start: nat, base: int) returns (number: int, end: nat)
    requires CString(s) && start <= |s|
    ensures (number, end) == Scan(s, start, base, 0)
  {
    number, end := 0, start;
    while At(s, end) != NUL
      invariant start <= end <= |s| && Scan(s, end, base, number) == Scan(s, start, base, 0)
      decreases |s| - end
    {
      var c := s[end];
      var digit;
      if '0' <= c <= '9' {
        digit := c as int - '0' as int;
      } else {
        var t := if 'a' <= c <= 'z' then c as int - ('a' as int - 'A' as int) else c as int;
        if t - 'A' as int + 10 < base {
          digit := t - 'A' as int + 10;
        } else {
          break;
        }
      }
      number := (number * base + digit) % TWO32;
      end := end + 1;
    }
  }

  method Ustrtol(s: string, base0: int) returns (r: Parsed)
    requires CString(s)
    ensures r == Parse(s, base0)
  {
    hide Scan, CString;
    var base := base0;
    if (base < 2 || base > 36) && base != 0 {
      return Parsed(0, UNSET);
    }
    var p := SkipLoop(s);
    if At(s, p) == NUL {
      return Parsed(0, p);
    }
    var c := At(s, p);
    if c < '0' || ('9' < c < 'A') || c > 'z' {
      return Parsed(0, UNSET);
    }
    if base == 8 && c == '0' {
      p := p + 1;
      if At(s, p) == 'o' || At(s, p) == 'O' {
        p := p + 1;
      }
    } else if base == 16 {
      if c == '0' {
        p := p + 1;
        if At(s, p) == 'x' || At(s, p) == 'X' {
          p := p + 1;
          if At(s, p) > 'f' || At(s, p) > 'F' {
            p := p - 1;
            return Parsed(0, p);
          }
        } else {
          p := p - 1;
        }
      }
    } else if base == 0 {
      if c == '0' {
        p := p + 1;
        if At(s, p) == 'o' || At(s, p) == 'O' {
          base := 8;
          p := p + 1;
        } else if At(s, p) == 'x' || At(s, p) == 'X' {
          base := 16;
          p := p + 1;
        } else {
          return Parsed(0, p);
        }
      } else if '1' <= c <= '9' {
        base := 10;
      }
    }
    var number, end := ScanLoop(s, p, base);
    if Blank(At(s, end)) {
      end := end + 1;
    }
    return Parsed(number, end);
  }

  method SkipLoop(s: string) returns (p: nat)
    requires CString(s)
    ensures p == SkipBlanks(s, 0)
  {
    p := 0;
    while Blank(At(s, p))
      invariant p <= |s| && SkipBlanks(s, p) == SkipBlanks(s, 0)
      decreases |s| - p
    {
      p := p + 1;
    }
  }
}
