// The field of an integer conversion: the text is made at the front of the buffer
// and moved and filled there, with a move that overlaps itself.
module PrfField {
  import opened Words
  import opened Bits
  import opened Numerals
  import opened PrfInteger
  import opened PrfConversion

  // ----- memmove -----

  /** memmove within one buffer: for every overlap the source bytes arrive unharmed. */
  method Memmove(a: array<char>, dest0: nat, src0: nat, n0: nat)
    requires a.Length < TWO32 && dest0 + n0 <= a.Length && src0 + n0 <= a.Length
    modifies a
    ensures a[dest0..dest0 + n0] == old(a[src0..src0 + n0])
    ensures OnlyChanges(a, dest0, dest0 + n0)
  {
    var dest, src, n := dest0, src0, n0;
    ghost var was := a[..];
    Distance(dest, src, n, a.Length);
    if (dest - src) % TWO32 < n {
      MoveBackwards(a, dest, src, n);
    } else {
      while n > 0
        invariant 0 <= n <= n0 && dest == dest0 + (n0 - n) && src == src0 + (n0 - n)
        invariant forall i :: dest0 <= i < dest ==> a[i] == old(a[src0 + i - dest0])
        invariant forall i :: src <= i < src0 + n0 ==> a[i] == old(a[i])
        invariant OnlyChanges(a, dest0, dest)
      {
        a[dest] := a[src];
        dest := dest + 1;
        src := src + 1;
        n := n - 1;
      }
      SameSlice(a[..], was, dest0, src0, n0);
    }
  }

  lemma SameSlice(now: string, was: string, dest: nat, src: nat, n: nat)
    requires dest + n <= |now| && src + n <= |was|
    requires forall i :: dest <= i < dest + n ==> now[i] == was[src + i - dest]
    ensures now[dest..dest + n] == was[src..src + n]
  {
  }

  /** The unsigned distance is less than the length exactly when the destination starts
      inside the source. */
  lemma Distance(dest: nat, src: nat, n: nat, length: nat)
    requires dest + n <= length < TWO32 && src + n <= length
    ensures (dest - src) % TWO32 < n <==> src <= dest < src + n
  {
    if dest >= src {
      DivModUnique(dest - src, TWO32, 0, dest - src);
    } else {
      DivModUnique(dest - src, TWO32, -1, dest - src + TWO32);
    }
  }

  /** The copy from the end, for a destination that starts inside the source. */
  method MoveBackwards(a: array<char>, dest: nat, src: nat, n0: nat)
    requires dest + n0 <= a.Length && src + n0 <= a.Length && src <= dest
    modifies a
    ensures a[dest..dest + n0] == old(a[src..src + n0])
    ensures OnlyChanges(a, dest, dest + n0)
  {
    var n := n0;
    while n > 0
      invariant 0 <= n <= n0
      invariant forall i :: dest + n <= i < dest + n0 ==> a[i] == old(a[src + i - dest])
      invariant forall i :: 0 <= i < dest + n && i < a.Length ==> a[i] == old(a[i])
      invariant OnlyChanges(a, dest, dest + n0)
    {
      n := n - 1;
      a[dest + n] := a[src + n];
    }
  }

  // ----- Justification -----

  /** What a field should be: blanks around the text, or zeros after its prefix. */
  function FieldText(text: string, width: int, minus: bool, zero: bool, prefix: nat): string
    requires prefix <= |text|
  {
    if |text| >= width then text
    else if minus then text + Repeat(' ', width - |text|)
    else if !zero then Repeat(' ', width - |text|) + text
    else text[..prefix] + Repeat('0', width - |text|) + text[prefix..]
  }

  /** What is made: the prefix characters that the moved text has overwritten are
      the moved text's. */
  function MadeText(text: string, width: int, minus: bool, zero: bool, prefix: nat): string
    requires prefix <= |text|
  {
    if |text| >= width || minus || !zero then FieldText(text, width, minus, zero, prefix)
    else
      var gap := width - |text|;
      seq(prefix, i requires 0 <= i < prefix => if i < gap then text[i] else text[i - gap]) + Repeat('0', gap) + text[prefix..]
  }

  /** A prefix of at most one character survives, and so does a longer one when the
      gap is no shorter than it. */
  lemma MadeAsMeant(text: string, width: int, minus: bool, zero: bool, prefix: nat)
    requires prefix <= |text| && (prefix <= 1 || width - |text| >= prefix)
    ensures MadeText(text, width, minus, zero, prefix) == FieldText(text, width, minus, zero, prefix)
  {
  }

  /** For the two-character prefix of #x with zero fill the field comes out as meant
      exactly when the width is not one more than the text: then the x is lost. */
  lemma PrefixKeptIff(text: string, width: int)
    requires |text| >= 2 && text[0] == '0' && (text[1] == 'x' || text[1] == 'X')
    ensures MadeText(text, width, false, true, 2) == FieldText(text, width, false, true, 2) <==> width != |text| + 1
  {
    if width == |text| + 1 {
      assert MadeText(text, width, false, true, 2)[1] == '0';
      assert FieldText(text, width, false, true, 2)[1] == text[1];
    }
  }

  lemma MadeLength(text: string, width: int, minus: bool, zero: bool, prefix: nat)
    requires prefix <= |text|
    ensures |MadeText(text, width, minus, zero, prefix)| == if |text| < width then width else |text|
  {
  }

  lemma LostPrefixExample()
    ensures MadeText("0xab", 5, false, true, 2) == "000ab"
  {
  }

  /** Fill buf[from..end] with one character. */
  method FillIn(buf: array<char>, from: nat, end: nat, c: char)
    requires from <= end <= buf.Length
    modifies buf
    ensures forall i :: from <= i < end ==> buf[i] == c
    ensures OnlyChanges(buf, from, end)
  {
    for i := from to end
      invariant forall j :: from <= j < i ==> buf[j] == c
      invariant OnlyChanges(buf, from, end)
    {
      buf[i] := c;
    }
  }

  /** The justification step of pos_libc_prf. */
  method Justify(buf: array<char>, c0: nat, width: nat, minus: bool, zero: bool, prefix0: nat) returns (c: nat)
    requires c0 < buf.Length && width < buf.Length < TWO32 && prefix0 <= c0
    modifies buf
    ensures c == (if c0 < width then width else c0)
    ensures buf[..c] == MadeText(old(buf[..c0]), width, minus, zero, prefix0)
  {
    c := c0;
    var prefix := prefix0;
    ghost var text := buf[..c0];
    if c < width {
      if minus {
        FillIn(buf, c, width, ' ');
        assert buf[..width] == text + Repeat(' ', width - c0);
      } else {
        Memmove(buf, width - c, 0, c + 1);
        assert buf[width - c0..width] == text by { assert buf[width - c0..width + 1][..c0] == text; }
        if !zero {
          prefix := 0;
        }
        ghost var moved := buf[..];
        FillIn(buf, prefix, width - c + prefix, if zero then '0' else ' ');
        JustifyRight(text, moved[..width], buf[..width], width, zero, prefix0);
      }
      c := width;
    }
  }

  lemma JustifyRight(text: string, moved: string, made: string, width: nat, zero: bool, prefix: nat)
    requires |text| < width == |moved| == |made| && prefix <= |text|
    requires forall i :: 0 <= i < width - |text| && i < |text| ==> moved[i] == text[i]
    requires moved[width - |text|..] == text
    requires var p := if zero then prefix else 0;
      && (forall i :: p <= i < width - |text| + p ==> made[i] == if zero then '0' else ' ')
      && (forall i :: 0 <= i < p || width - |text| + p <= i < width ==> made[i] == moved[i])
    ensures made == MadeText(text, width, false, zero, prefix)
  {
    var gap := width - |text|;
    var meant := MadeText(text, width, false, zero, prefix);
    MovedText(text, moved, gap);
    assert |made| == |meant|;
    forall i | 0 <= i < width ensures made[i] == meant[i] {
    }
  }

  lemma MovedText(text: string, moved: string, gap: nat)
    requires gap <= |moved| && moved[gap..] == text
    ensures forall i :: gap <= i < |moved| ==> moved[i] == text[i - gap]
  {
    forall i | gap <= i < |moved| ensures moved[i] == text[i - gap] { assert moved[gap..][i - gap] == moved[i]; }
  }

  // ----- The field -----

  function Clamped(width: int): nat {
    var w := if width < 0 then -width else width;
    if w > MAXFLD then MAXFLD else w
  }

  // ----- What the field says -----

  /** Blanks around a sign or mark and digits that give the value. */
  ghost predicate FieldSays(field: string, conv: Conversion, value: int, f: Flags) {
    exists before: nat, after: nat :: SaysBetween(field, before, after, conv, value, f)
  }

  ghost predicate SaysBetween(field: string, before: nat, after: nat, conv: Conversion, value: int, f: Flags) {
    && before + after <= |field|
    && (forall i :: 0 <= i < before || |field| - after <= i < |field| ==> field[i] == ' ')
    && Says(field[before..|field| - after], conv, value, f)
  }

  /** Zeros go over the mark of the base, or before it. */
  predicate LosesMark(conv: Conversion, f: Flags, length: nat, width: int, minus: bool, zero: bool) {
    zero && !minus && length < width && (conv.Pointer? || (f.alt && (conv.Hex? || conv.HexUpper?) && width == length + 1))
  }

  lemma ZeroFillSays(conv: Conversion, value: int, f: Flags, precision: int, width: int)
    requires ValueOk(conv, value)
    requires var text := TextOf(conv, value, f, precision); |text| < width && !LosesMark(conv, f, |text|, width, false, true)
    ensures PrefixOf(conv, value, f) <= |TextOf(conv, value, f, precision)|
    ensures Says(MadeText(TextOf(conv, value, f, precision), width, false, true, PrefixOf(conv, value, f)), conv, value, f)
  {
    hide TextOf, DigitsOf, Positional, MadeText, Says;
    var digits := TextParts(conv, value, f, precision);
    var lead, text := LeadText(conv, value, f), TextOf(conv, value, f, precision);
    LeadIsPrefix(conv, value, f);
    ZeroFilled(lead, digits, width);
    ZerosAreDigits(width - |text|, digits, BaseOf(conv), conv.HexUpper?);
    LeadingZerosPositional(width - |text|, digits, BaseOf(conv));
    SaysFromParts(lead, Repeat('0', width - |text|) + digits, conv, value, f);
  }

  /** Zero fill puts the zeros between the two. */
  lemma ZeroFilled(lead: string, digits: string, width: int)
    requires |lead + digits| < width && (|lead| <= 1 || |lead| <= width - |lead + digits|)
    ensures MadeText(lead + digits, width, false, true, |lead|) == lead + (Repeat('0', width - |lead + digits|) + digits)
  {
    hide MadeText;
    var text := lead + digits;
    MadeAsMeant(text, width, false, true, |lead|);
    assert text[..|lead|] == lead && text[|lead|..] == digits;
  }

  lemma LeadIsPrefix(conv: Conversion, value: int, f: Flags)
    requires !conv.Pointer?
    ensures PrefixOf(conv, value, f) == |LeadText(conv, value, f)| <= 2
    ensures |LeadText(conv, value, f)| == 2 ==> f.alt && (conv.Hex? || conv.HexUpper?)
  {
  }

  lemma MarkLost(conv: Conversion, value: int, f: Flags, precision: int, width: int)
    requires ValueOk(conv, value)
    requires PrefixOf(conv, value, f) <= |TextOf(conv, value, f, precision)|
    requires LosesMark(conv, f, |TextOf(conv, value, f, precision)|, width, false, true)
    ensures var field := MadeText(TextOf(conv, value, f, precision), width, false, true, PrefixOf(conv, value, f));
      |field| >= 2 && field[0] == '0' && field[1] == '0'
  {
    hide TextOf, DigitsOf, Positional;
    var digits := TextParts(conv, value, f, precision);
  }

  /** For every call the field says the value if and only if zero fill does not take the
      mark of the base away. */
  lemma FieldSaysIff(conv: Conversion, value: int, f: Flags, width: int, minus: bool, zero: bool, precision: int)
    requires ValueOk(conv, value)
    ensures PrefixOf(conv, value, f) <= |TextOf(conv, value, f, precision)|
    ensures var text := TextOf(conv, value, f, precision);
      FieldSays(MadeText(text, width, minus, zero, PrefixOf(conv, value, f)), conv, value, f) <==>
      !LosesMark(conv, f, |text|, width, minus, zero)
  {
    hide TextOf, Says, MadeText, LosesMark;
    PrefixFits(conv, value, f, precision);
    TextSays(conv, value, f, precision);
    var text := TextOf(conv, value, f, precision);
    var prefix := PrefixOf(conv, value, f);
    var field := MadeText(text, width, minus, zero, prefix);
    if LosesMark(conv, f, |text|, width, minus, zero) {
      assert zero && !minus && MarkNamed(conv, f) by { LosesWhen(conv, f, |text|, width, minus, zero); }
      MarkLost(conv, value, f, precision, width);
      forall before: nat, after: nat ensures !SaysBetween(field, before, after, conv, value, f) {
        if SaysBetween(field, before, after, conv, value, f) {
          assert before == 0;
          MarkSaid(field[..|field| - after], conv, value, f);
        }
      }
    } else if |text| < width && zero && !minus {
      ZeroFillSays(conv, value, f, precision, width);
      assert field[0..|field| - 0] == field;
      assert SaysBetween(field, 0, 0, conv, value, f);
    } else {
      BlankFillSays(text, width, minus, zero, prefix, conv, value, f);
    }
  }

  predicate MarkNamed(conv: Conversion, f: Flags) {
    conv.Pointer? || (f.alt && (conv.Hex? || conv.HexUpper?))
  }

  lemma LosesWhen(conv: Conversion, f: Flags, length: nat, width: int, minus: bool, zero: bool)
    requires LosesMark(conv, f, length, width, minus, zero)
    ensures zero && !minus && MarkNamed(conv, f)
  {
  }

  lemma MarkSaid(s: string, conv: Conversion, value: int, f: Flags)
    requires Says(s, conv, value, f) && MarkNamed(conv, f)
    ensures |s| >= 2 && s[1] != '0'
  {
    hide DigitsOf, Positional;
    var lead := LeadText(conv, value, f);
    assert s[..2][1] == s[1];
  }

  lemma BlankFillSays(text: string, width: int, minus: bool, zero: bool, prefix: nat, conv: Conversion, value: int, f: Flags)
    requires prefix <= |text| && Says(text, conv, value, f) && (|text| >= width || minus || !zero)
    ensures FieldSays(MadeText(text, width, minus, zero, prefix), conv, value, f)
  {
    hide Says;
    var field := MadeText(text, width, minus, zero, prefix);
    var gap := |field| - |text|;
    if |text| < width && !minus {
      assert field[gap..|field| - 0] == text;
      assert SaysBetween(field, gap, 0, conv, value, f);
    } else {
      assert field[0..|field| - gap] == text;
      assert SaysBetween(field, 0, gap, conv, value, f);
    }
  }

  // ----- The call -----

  /** One integer conversion of pos_libc_prf, for a call that fits the buffer. */
  method Format(conv: Conversion, value: int, f: Flags, width0: int, precision0: int) returns (field: string)
    requires ValueOk(conv, value)
    requires Fits(conv, value, f, Capped(precision0))
    ensures var precision := if precision0 > 200 then -1 else precision0;
      var width := if width0 < -200 || width0 > 200 then 200 else if width0 < 0 then -width0 else width0;
      var text, prefix := TextOf(conv, value, f, precision), PrefixOf(conv, value, f);
      && prefix <= |text|
      && field == MadeText(text, width, f.minus || width0 < 0, f.zero && precision == -1, prefix)
      && |field| == (if |text| < width then width else |text|)
      && (FieldSays(field, conv, value, f) <==>
            !LosesMark(conv, f, |text|, width, f.minus || width0 < 0, f.zero && precision == -1))
  {
    hide Numeral, HexText, OctalText, DecText, MadeText, FieldSays, LosesMark, TextOf;
    TextFitsIff(conv, value, f, Capped(precision0));
    FieldSaysIff(conv, value, f, Clamped(width0), f.minus || width0 < 0, f.zero && (Capped(precision0) == -1), Capped(precision0));
    var minus, width := f.minus, width0;
    if width < 0 {
      minus := true;
      width := -width;
    }
    if width > MAXFLD {
      width := MAXFLD;
    }
    var precision := precision0;
    if precision > MAXFLD {
      precision := -1;
    }
    var zero := f.zero;
    var buf := new char[MAXFLD + 1];
    var c := Convert(buf, conv, value, f, precision);
    var prefix := PrefixOf(conv, value, f);
    PrefixFits(conv, value, f, precision);
    MadeLength(TextOf(conv, value, f, precision), Clamped(width0), f.minus || width0 < 0, f.zero && precision == -1, prefix);
    if precision != -1 {
      zero := false;
    }
    c := Justify(buf, c, width, minus, zero, prefix);
    field := buf[..c];
  }

  /** Main result: but for # with zero fill, the field is as long as the longer of
      text and width, and is blanks and the text, the text and blanks, or its sign,
      zeros and its digits. */
  lemma FieldShape(conv: Conversion, value: int, f: Flags, width: nat, minus: bool, zero: bool, precision: int)
    requires ValueOk(conv, value)
    requires !(f.alt && zero && (conv.Hex? || conv.HexUpper?))
    ensures PrefixOf(conv, value, f) <= |TextOf(conv, value, f, precision)|
    ensures var text := TextOf(conv, value, f, precision);
      var prefix := PrefixOf(conv, value, f);
      var field := MadeText(text, width, minus, zero, prefix);
      && |field| == (if |text| < width then width else |text|)
      && (|text| < width ==>
            if minus then field == text + Repeat(' ', width - |text|)
            else if !zero then field == Repeat(' ', width - |text|) + text
            else field == text[..prefix] + Repeat('0', width - |text|) + text[prefix..])
  {
    hide Numeral, TextOf;
    PrefixFits(conv, value, f, precision);
    if PrefixOf(conv, value, f) <= 1 {
      MadeAsMeant(TextOf(conv, value, f, precision), width, minus, zero, PrefixOf(conv, value, f));
    }
  }
}
