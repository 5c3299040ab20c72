// The CRC is the remainder of long division over GF(2).  Polynomials are bit
// sequences, highest power first.
module CrcDivision {
  import Words
  import opened Crc
  import opened CrcDetects

  /** x^16 + x^12 + x^5 + 1 less its leading term: the powers 15 down to 0. */
  function LowTerms(): (g: seq<bool>)
    ensures |g| == 16
  {
    [false, false, false, true, false, false, false, false, false, false, true, false, false, false, false, true]
  }

  /** Schoolbook division: while there are more than 16 terms, subtract the divisor
      when the leading term is there, and go on to the next power. */
  function Remainder(m: seq<bool>): (r: seq<bool>)
    decreases |m|
  {
    if |m| <= 16 then m
    else if m[0] then Remainder(Subtract(m[1..]))
    else Remainder(m[1..])
  }

  function Subtract(m: seq<bool>): (r: seq<bool>)
    requires |m| >= 16
    ensures |r| == |m| && forall i :: 0 <= i < |m| ==> r[i] == (m[i] != (i < 16 && LowTerms()[i]))
  {
    seq(|m|, i requires 0 <= i < |m| => m[i] != (i < 16 && LowTerms()[i]))
  }

  /** Bit `i` of the register, counted from the top. */
  predicate BitAt(c: bv16, i: nat)
    decreases i
  {
    if i == 0 then Top(c) else BitAt(Up(c), i - 1)
  }

  /** The register laid over the front of a message. */
  function Overlay(c: bv16, m: seq<bool>): (r: seq<bool>)
    ensures |r| == |m| && forall i :: 0 <= i < |m| ==> r[i] == (m[i] != (i < 16 && BitAt(c, i)))
  {
    seq(|m|, i requires 0 <= i < |m| => m[i] != (i < 16 && BitAt(c, i)))
  }

  lemma {:induction false} BitAtXor(c: bv16, d: bv16, i: nat)
    ensures BitAt(Xor(c, d), i) == (BitAt(c, i) != BitAt(d, i))
    decreases i
  {
    hide Xor, Up, Top;
    if i == 0 {
      TopXor(c, d);
    } else {
      UpXor(c, d);
      BitAtXor(Up(c), Up(d), i - 1);
    }
  }

  lemma UpZero()
    ensures Up(0) == 0 && !Top(0)
  {
  }

  lemma {:induction false} BitAtZero(i: nat)
    ensures !BitAt(0, i)
    decreases i
  {
    hide Up, Top;
    UpZero();
    if i > 0 { BitAtZero(i - 1); }
  }

  /** Bit 16 counted from the top has moved out. */
  lemma BitAtPast(c: bv16)
    ensures !BitAt(c, 16)
  {
    hide Up, Top;
    assert BitAt(c, 16) == BitAt(Up(Up(Up(Up(c)))), 12) by { BitAt4(c, 12); }
    assert BitAt(c, 16) == BitAt(Up(Up(Up(Up(Up(Up(Up(Up(c)))))))), 8) by { BitAt4(Up(Up(Up(Up(c)))), 8); }
    BitAt4(Up(Up(Up(Up(Up(Up(Up(Up(c)))))))), 4);
    BitAt4(Up(Up(Up(Up(Up(Up(Up(Up(Up(Up(Up(Up(c)))))))))))), 0);
    UpAll(c);
    UpZero();
  }

  lemma BitAt4(c: bv16, i: nat)
    ensures BitAt(c, i + 4) == BitAt(Up(Up(Up(Up(c)))), i)
  {
    hide Up, Top;
    assert BitAt(c, i + 4) == BitAt(Up(c), i + 3);
    assert BitAt(Up(c), i + 3) == BitAt(Up(Up(c)), i + 2);
    assert BitAt(Up(Up(c)), i + 2) == BitAt(Up(Up(Up(c))), i + 1);
  }

  lemma UpAll(c: bv16)
    ensures Up(Up(Up(Up(Up(Up(Up(Up(Up(Up(Up(Up(Up(Up(Up(Up(c)))))))))))))))) == 0
  {
  }

  /** The generator's bits are its polynomial's low terms. */
  lemma GeneratorBits(i: nat)
    requires i < 16
    ensures BitAt(Generator(true), i) == LowTerms()[i]
  {
    var c := Generator(true);
    BitAtWord(c, i);
  }

  lemma BitAtWord(c: bv16, i: nat)
    requires i < 16 && c == 0x1021
    ensures BitAt(c, i) == (i == 3 || i == 10 || i == 15)
  {
    hide Top;
    var c4, c8, c12 := 0x0210 as bv16, 0x2100 as bv16, 0x1000 as bv16;
    assert Up(Up(Up(Up(c)))) == c4 && Up(Up(Up(Up(c4)))) == c8 && Up(Up(Up(Up(c8)))) == c12;
    var d := if i < 4 then c else if i < 8 then c4 else if i < 12 then c8 else c12;
    if i >= 4 { BitAt4(c, i - 4); }
    if i >= 8 { BitAt4(c4, i - 8); }
    if i >= 12 { BitAt4(c8, i - 12); }
    assert BitAt(c, i) == BitAt(d, i % 4);
    Nibble(d, i % 4);
  }

  lemma Nibble(d: bv16, i: nat)
    requires i < 4 && (d == 0x1021 || d == 0x0210 || d == 0x2100 || d == 0x1000)
    ensures BitAt(d, i) == ((i == 3 && (d == 0x1021 || d == 0x1000)) || (i == 2 && d == 0x2100))
  {
    assert BitAt(d, 0) == Top(d) && BitAt(d, 1) == Top(Up(d));
    assert BitAt(Up(d), 1) == Top(Up(Up(d)));
    assert BitAt(d, 2) == Top(Up(Up(d)));
    assert BitAt(Up(Up(d)), 1) == Top(Up(Up(Up(d))));
    assert BitAt(d, 3) == Top(Up(Up(Up(d))));
  }

  /** The bits of the register after one more message bit. */
  lemma FeedBits(c: bv16, x: bool, i: nat)
    requires i < 16
    ensures BitAt(Feed(c, x), i) == (BitAt(c, i + 1) != ((Top(c) != x) && LowTerms()[i]))
  {
    hide Xor, Up, Top, TopBit, Generator, LowTerms;
    var y := Xor(c, TopBit(x));
    BitAtXor(Up(y), Generator(Top(y)), i);
    BitAtXor(c, TopBit(x), i + 1);
    TopXor(c, TopBit(x));
    TopBitIs(x);
    BitAtZero(i);
    GeneratorBits(i);
    NoGenerator();
  }

  lemma NoGenerator()
    ensures Generator(false) == 0
  {
  }

  /** One division step on the overlaid message is one step of the register. */
  lemma DivisionStep(c: bv16, m: seq<bool>)
    requires |m| > 16
    ensures var o := Overlay(c, m);
      (if o[0] then Subtract(o[1..]) else o[1..]) == Overlay(Feed(c, m[0]), m[1..])
  {
    hide Feed, Top, Up, LowTerms;
    var o := Overlay(c, m);
    var l, r := if o[0] then Subtract(o[1..]) else o[1..], Overlay(Feed(c, m[0]), m[1..]);
    assert o[0] == (m[0] != Top(c));
    forall i | 0 <= i < |r| ensures l[i] == r[i] {
      if i < 16 { FeedBits(c, m[0], i); }
      if i == 15 { BitAtPast(c); }
    }
  }

  lemma {:induction false} RegisterDivides(c: bv16, bits: seq<bool>)
    ensures Remainder(Overlay(c, bits + Words.Repeat(false, 16))) == Overlay(Register(c, bits), Words.Repeat(false, 16))
    decreases |bits|
  {
    hide Feed, Subtract, Overlay, Words.Repeat;
    if bits == [] {
      assert bits + Words.Repeat(false, 16) == Words.Repeat(false, 16);
    } else {
      var m := bits + Words.Repeat(false, 16);
      DivisionStep(c, m);
      assert m[1..] == bits[1..] + Words.Repeat(false, 16);
      RegisterDivides(Feed(c, bits[0]), bits[1..]);
    }
  }

  /** Main result: the CRC of a message is the remainder of the message, moved up
      16 places, by the generator. */
  lemma CrcIsRemainder(data: seq<byte>)
    ensures Remainder(BitsOf(data) + Words.Repeat(false, 16)) == seq(16, i requires 0 <= i < 16 => BitAt(CrcFrom(0, data), i))
  {
    hide Register, BitsOf, Remainder, Up, Top;
    var m := BitsOf(data) + Words.Repeat(false, 16);
    forall i | 0 <= i < 16 ensures !BitAt(0, i) { BitAtZero(i); }
    assert Overlay(0, m) == m;
    RegisterDivides(0, BitsOf(data));
  }
}
