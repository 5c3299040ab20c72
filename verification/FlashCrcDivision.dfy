// What the CRC-32 computes: the remainder of a long division over GF(2).  Its register
// is the remainder read from the lowest bit up, and so are the bytes of the message.
// Polynomials are bit sequences, highest power first.
module FlashCrcDivision {
  import Words
  import opened FlashCrc

  /** The powers of the divisor. */
  const POWERS: set<int> := {32, 26, 23, 22, 16, 12, 11, 10, 8, 7, 5, 4, 2, 1, 0}

  /** The divisor less its leading term, from power 31 down. */
  function LowTerms(): (g: seq<bool>)
    ensures |g| == 32 && forall i :: 0 <= i < 32 ==> g[i] == (31 - i in POWERS)
  {
    seq(32, i requires 0 <= i < 32 => 31 - i in POWERS)
  }

  /** Schoolbook division: while there are more than 32 terms, subtract the divisor when
      the leading term is there, and go on to the next power. */
  function Remainder(m: seq<bool>): (r: seq<bool>)
    decreases |m|
  {
    if |m| <= 32 then m
    else if m[0] then Remainder(Subtract(m[1..]))
    else Remainder(m[1..])
  }

  function Subtract(m: seq<bool>): (r: seq<bool>)
    ensures |r| == |m| && forall i :: 0 <= i < |m| ==> r[i] == (m[i] != (i < 32 && LowTerms()[i]))
  {
    seq(|m|, i requires 0 <= i < |m| => m[i] != (i < 32 && LowTerms()[i]))
  }

  /** The bits of a byte, least significant first. */
  function ByteBits(b: bv8): (bits: seq<bool>)
    ensures |bits| == 8
  {
    [b & 1 != 0, b & 2 != 0, b & 4 != 0, b & 8 != 0, b & 0x10 != 0, b & 0x20 != 0, b & 0x40 != 0, b & 0x80 != 0]
  }

  function MessageBits(data: seq<bv8>): (bits: seq<bool>)
    decreases |data|
  {
    if data == [] then [] else ByteBits(data[0]) + MessageBits(data[1..])
  }

  // ----- The register, bit by bit -----

  /** A message bit, where it meets the register. */
  function LowOne(bit: bool): bv32 {
    if bit then 1 else 0
  }

  /** Take one message bit into the register. */
  function Feed(c: bv32, bit: bool): bv32 {
    CrcBit(Mix(c, LowOne(bit)))
  }

  function Register(c: bv32, bits: seq<bool>): bv32
    decreases |bits|
  {
    if bits == [] then c else Register(Feed(c, bits[0]), bits[1..])
  }

  /** Bit `i` of the register, counted from the bottom. */
  predicate LowBit(c: bv32, i: nat)
    decreases i
  {
    if i == 0 then Odd(c) else LowBit(Down(c), i - 1)
  }

  lemma MixAssoc(a: bv32, b: bv32, c: bv32)
    ensures Mix(Mix(a, b), c) == Mix(a, Mix(b, c)) && Mix(b, c) == Mix(c, b)
  {
  }

  lemma OddMix(a: bv32, b: bv32)
    ensures Odd(Mix(a, b)) == (Odd(a) != Odd(b))
  {
  }

  lemma DownMix(a: bv32, b: bv32)
    ensures Down(Mix(a, b)) == Mix(Down(a), Down(b))
  {
  }

  lemma LowOneIs(bit: bool)
    ensures Odd(LowOne(bit)) == bit && Down(LowOne(bit)) == 0
  {
  }

  lemma MixZero(a: bv32)
    ensures Mix(a, 0) == a
  {
  }

  function Down4(c: bv32): bv32 {
    Down(Down(Down(Down(c))))
  }

  lemma LowBit4(c: bv32, i: nat)
    ensures LowBit(c, i + 4) == LowBit(Down4(c), i)
  {
    hide Down, Odd;
    assert LowBit(c, i + 4) == LowBit(Down(c), i + 3);
    assert LowBit(Down(c), i + 3) == LowBit(Down(Down(c)), i + 2);
    assert LowBit(Down(Down(c)), i + 2) == LowBit(Down(Down(Down(c))), i + 1);
  }

  // ----- A byte is eight message bits -----

  function LowBits(b: bv32, n: nat): (bits: seq<bool>)
    decreases n
  {
    if n == 0 then [] else [Odd(b)] + LowBits(Down(b), n - 1)
  }

  function DownBy(b: bv32, n: nat): bv32
    decreases n
  {
    if n == 0 then b else DownBy(Down(b), n - 1)
  }

  lemma {:induction false} ShiftedFront(c: bv32, n: nat)
    ensures Shifted(c, n + 1) == Shifted(CrcBit(c), n)
    decreases n
  {
    hide CrcBit;
    if n > 0 { ShiftedFront(c, n - 1); }
  }

  /** A shift of the register with a whole byte in it takes the byte's lowest bit in. */
  lemma FeedLowest(c: bv32, b: bv32)
    ensures CrcBit(Mix(c, b)) == Mix(Feed(c, Odd(b)), Down(b))
  {
    hide Mix, Odd, Down, Polynomial, LowOne;
    var x := LowOne(Odd(b));
    LowOneIs(Odd(b));
    OddMix(c, b);
    OddMix(c, x);
    DownMix(c, b);
    DownMix(c, x);
    MixZero(Down(c));
    var p := Polynomial(Odd(Mix(c, b)));
    MixAssoc(Down(c), Down(b), p);
    MixAssoc(Down(c), p, Down(b));
  }

  lemma {:induction false} ShiftsFeed(c: bv32, b: bv32, n: nat)
    ensures Shifted(Mix(c, b), n) == Mix(Register(c, LowBits(b, n)), DownBy(b, n))
    decreases n
  {
    hide CrcBit, Mix, Odd, Down, Feed;
    if n > 0 {
      FeedLowest(c, b);
      ShiftedFront(Mix(c, b), n - 1);
      ShiftsFeed(Feed(c, Odd(b)), Down(b), n - 1);
      var bits := LowBits(b, n);
      assert bits[0] == Odd(b) && bits[1..] == LowBits(Down(b), n - 1);
    }
  }

  lemma ByteGone(b: bv8)
    ensures DownBy(b as bv32, 8) == 0
  {
    hide Down;
    var c := b as bv32;
    assert DownBy(c, 8) == DownBy(Down(Down(c)), 6);
    assert DownBy(Down(Down(c)), 6) == DownBy(Down(Down(Down(Down(c)))), 4);
    var d := Down(Down(Down(Down(c))));
    assert DownBy(d, 4) == DownBy(Down(Down(d)), 2);
    assert DownBy(Down(Down(d)), 2) == Down(Down(Down(Down(d))));
    EightDown(b);
  }

  lemma EightDown(b: bv8)
    ensures Down(Down(Down(Down(Down(Down(Down(Down(b as bv32)))))))) == 0
  {
  }

  lemma {:induction false} LowBitsAt(b: bv32, n: nat)
    ensures |LowBits(b, n)| == n && forall i :: 0 <= i < n ==> LowBits(b, n)[i] == LowBit(b, i)
    decreases n
  {
    hide Odd, Down;
    if n > 0 {
      LowBitsAt(Down(b), n - 1);
      var bits := LowBits(b, n);
      forall i | 0 <= i < n ensures bits[i] == LowBit(b, i) {
        if i > 0 { assert bits[i] == LowBits(Down(b), n - 1)[i - 1]; }
      }
    }
  }

  /** The lowest four bits. */
  lemma FirstBits(c: bv32)
    ensures LowBit(c, 0) == Odd(c) && LowBit(c, 1) == Odd(Down(c))
    ensures LowBit(c, 2) == Odd(Down(Down(c))) && LowBit(c, 3) == Odd(Down(Down(Down(c))))
  {
    hide Odd, Down;
    assert LowBit(Down(c), 1) == Odd(Down(Down(c)));
    assert LowBit(Down(c), 2) == LowBit(Down(Down(c)), 1) == Odd(Down(Down(Down(c))));
  }

  lemma ByteBitsDown(b: bv8)
    ensures var c := b as bv32;
      && Odd(c) == (b & 1 != 0) && Odd(Down(c)) == (b & 2 != 0)
      && Odd(Down(Down(c))) == (b & 4 != 0) && Odd(Down(Down(Down(c)))) == (b & 8 != 0)
    ensures var d := Down4(b as bv32);
      && Odd(d) == (b & 0x10 != 0) && Odd(Down(d)) == (b & 0x20 != 0)
      && Odd(Down(Down(d))) == (b & 0x40 != 0) && Odd(Down(Down(Down(d)))) == (b & 0x80 != 0)
  {
  }

  lemma ByteBitAt(b: bv8, i: nat)
    requires i < 8
    ensures LowBit(b as bv32, i) == ByteBits(b)[i]
  {
    hide Odd, Down, LowBit, Down4;
    var c := b as bv32;
    ByteBitsDown(b);
    FirstBits(c);
    FirstBits(Down4(c));
    if i >= 4 { LowBit4(c, i - 4); }
  }

  lemma ByteLowBits(b: bv8)
    ensures LowBits(b as bv32, 8) == ByteBits(b)
  {
    hide Odd, Down, LowBits, ByteBits, LowBit;
    LowBitsAt(b as bv32, 8);
    forall i | 0 <= i < 8 ensures LowBits(b as bv32, 8)[i] == ByteBits(b)[i] { ByteBitAt(b, i); }
  }

  /** The loop over the bytes is the register fed with the message, bit by bit. */
  lemma {:induction false} CrcIsRegister(c: bv32, data: seq<bv8>)
    ensures CrcFrom(c, data) == Register(c, MessageBits(data))
    decreases |data|
  {
    hide Mix, Feed, ByteBits, Shifted;
    if data != [] {
      var b := data[0] as bv32;
      ShiftsFeed(c, b, 8);
      ByteGone(data[0]);
      ByteLowBits(data[0]);
      var next := Register(c, ByteBits(data[0]));
      MixZero(next);
      CrcIsRegister(next, data[1..]);
      RegisterConcat(c, ByteBits(data[0]), MessageBits(data[1..]));
    }
  }

  lemma {:induction false} RegisterConcat(c: bv32, a: seq<bool>, b: seq<bool>)
    ensures Register(c, a + b) == Register(Register(c, a), b)
    decreases |a|
  {
    hide Feed;
    if a == [] {
      assert a + b == b;
    } else {
      RegisterConcat(Feed(c, a[0]), a[1..], b);
      assert (a + b)[1..] == a[1..] + b;
    }
  }

  // ----- The register divides -----

  lemma {:induction false} LowBitMix(c: bv32, d: bv32, i: nat)
    ensures LowBit(Mix(c, d), i) == (LowBit(c, i) != LowBit(d, i))
    decreases i
  {
    hide Mix, Down, Odd;
    if i == 0 {
      OddMix(c, d);
    } else {
      DownMix(c, d);
      LowBitMix(Down(c), Down(d), i - 1);
    }
  }

  lemma DownZero()
    ensures Down(0) == 0 && !Odd(0)
  {
  }

  lemma {:induction false} LowBitZero(i: nat)
    ensures !LowBit(0, i)
    decreases i
  {
    hide Down, Odd;
    DownZero();
    if i > 0 { LowBitZero(i - 1); }
  }

  /** Bit 32 counted from the bottom has moved out. */
  lemma LowBitPast(c: bv32)
    ensures !LowBit(c, 32)
  {
    hide Down, Odd, LowBit, Down4;
    LowBit16(c, 16);
    LowBit16(Down4(Down4(Down4(Down4(c)))), 0);
    AllDown(c);
    LowBitZero(0);
  }

  lemma LowBit16(c: bv32, i: nat)
    ensures LowBit(c, i + 16) == LowBit(Down4(Down4(Down4(Down4(c)))), i)
  {
    hide Down, Odd, LowBit;
    LowBit4(c, i + 12);
    LowBit4(Down4(c), i + 8);
    LowBit4(Down4(Down4(c)), i + 4);
    LowBit4(Down4(Down4(Down4(c))), i);
  }

  lemma AllDown(c: bv32)
    ensures Down4(Down4(Down4(Down4(Down4(Down4(Down4(Down4(c)))))))) == 0
  {
  }

  /** The bits of the polynomial's word are its terms. */
  lemma PolynomialBits(i: nat)
    requires i < 32
    ensures LowBit(Polynomial(true), i) == (31 - i in POWERS)
  {
    hide Down, Odd, LowBit, Down4;
    NibblesOfPolynomial();
    var words := [0xEDB8_8320, 0x0EDB_8832, 0x00ED_B883, 0x000E_DB88, 0x0000_EDB8, 0x0000_0EDB, 0x0000_00ED, 0x0000_000E];
    var k := i / 4;
    NibbleReached(words, k, i % 4);
    NibbleBits(words[k], k, i % 4);
  }

  lemma NibblesOfPolynomial()
    ensures Polynomial(true) == 0xEDB8_8320
    ensures Down4(0xEDB8_8320) == 0x0EDB_8832 && Down4(0x0EDB_8832) == 0x00ED_B883 && Down4(0x00ED_B883) == 0x000E_DB88
    ensures Down4(0x000E_DB88) == 0x0000_EDB8 && Down4(0x0000_EDB8) == 0x0000_0EDB && Down4(0x0000_0EDB) == 0x0000_00ED
    ensures Down4(0x0000_00ED) == 0x0000_000E
  {
  }

  lemma {:induction false} NibbleReached(words: seq<bv32>, k: nat, j: nat)
    requires k < |words| && forall m :: 0 < m < |words| ==> words[m] == Down4(words[m - 1])
    ensures LowBit(words[0], 4 * k + j) == LowBit(words[k], j)
    decreases k
  {
    hide Down, Odd, LowBit;
    if k > 0 {
      NibbleReached(words, k - 1, j + 4);
      LowBit4(words[k - 1], j);
    }
  }

  lemma NibbleBits(word: bv32, k: nat, j: nat)
    requires k < 8 && j < 4
    requires word == [0xEDB8_8320, 0x0EDB_8832, 0x00ED_B883, 0x000E_DB88, 0x0000_EDB8, 0x0000_0EDB, 0x0000_00ED, 0x0000_000E][k]
    ensures LowBit(word, j) == (31 - (4 * k + j) in POWERS)
  {
  }

  /** The bits of the register after one more message bit. */
  lemma FeedBits(c: bv32, x: bool, i: nat)
    requires i < 32
    ensures LowBit(Feed(c, x), i) == (LowBit(c, i + 1) != ((Odd(c) != x) && LowTerms()[i]))
  {
    hide Mix, Down, Odd, LowOne, Polynomial, POWERS;
    var y := Mix(c, LowOne(x));
    LowBitMix(Down(y), Polynomial(Odd(y)), i);
    LowBitMix(c, LowOne(x), i + 1);
    OddMix(c, LowOne(x));
    LowOneIs(x);
    LowBitZero(i);
    PolynomialBits(i);
    NoPolynomial();
  }

  lemma NoPolynomial()
    ensures Polynomial(false) == 0
  {
  }

  /** The register laid over the front of a message. */
  function Overlay(c: bv32, m: seq<bool>): (r: seq<bool>)
    ensures |r| == |m| && forall i :: 0 <= i < |m| ==> r[i] == (m[i] != (i < 32 && LowBit(c, i)))
  {
    seq(|m|, i requires 0 <= i < |m| => m[i] != (i < 32 && LowBit(c, i)))
  }

  /** One division step on the overlaid message is one step of the register. */
  lemma DivisionStep(c: bv32, m: seq<bool>)
    requires |m| > 32
    ensures var o := Overlay(c, m);
      (if o[0] then Subtract(o[1..]) else o[1..]) == Overlay(Feed(c, m[0]), m[1..])
  {
    hide Feed, Odd, Down, LowTerms;
    var o := Overlay(c, m);
    var l, r := if o[0] then Subtract(o[1..]) else o[1..], Overlay(Feed(c, m[0]), m[1..]);
    assert o[0] == (m[0] != Odd(c));
    forall i | 0 <= i < |r| ensures l[i] == r[i] {
      if i < 32 { FeedBits(c, m[0], i); }
      if i == 31 { LowBitPast(c); }
    }
  }

  lemma {:induction false} RegisterDivides(c: bv32, bits: seq<bool>)
    ensures Remainder(Overlay(c, bits + Words.Repeat(false, 32))) == Overlay(Register(c, bits), Words.Repeat(false, 32))
    decreases |bits|
  {
    hide Feed, Subtract, Overlay, Words.Repeat;
    if bits == [] {
      assert bits + Words.Repeat(false, 32) == Words.Repeat(false, 32);
    } else {
      var m := bits + Words.Repeat(false, 32);
      DivisionStep(c, m);
      assert m[1..] == bits[1..] + Words.Repeat(false, 32);
      RegisterDivides(Feed(c, bits[0]), bits[1..]);
    }
  }

  /** The first 32 terms turned round: ones laid over the front. */
  function OnesOver(m: seq<bool>): (r: seq<bool>)
    ensures |r| == |m| && forall i :: 0 <= i < |m| ==> r[i] == (m[i] != (i < 32))
  {
    seq(|m|, i requires 0 <= i < |m| => m[i] != (i < 32))
  }

  /** The start value is all ones. */
  lemma MaskBit(i: nat)
    requires i < 32
    ensures LowBit(MASK, i)
  {
    hide Down, Odd, LowBit, Down4;
    NibblesOfMask();
    var words := [0xFFFF_FFFF, 0x0FFF_FFFF, 0x00FF_FFFF, 0x000F_FFFF, 0x0000_FFFF, 0x0000_0FFF, 0x0000_00FF, 0x0000_000F];
    NibbleReached(words, i / 4, i % 4);
    FullNibble(words[i / 4], i / 4, i % 4);
  }

  lemma NibblesOfMask()
    ensures Down4(0xFFFF_FFFF) == 0x0FFF_FFFF && Down4(0x0FFF_FFFF) == 0x00FF_FFFF && Down4(0x00FF_FFFF) == 0x000F_FFFF
    ensures Down4(0x000F_FFFF) == 0x0000_FFFF && Down4(0x0000_FFFF) == 0x0000_0FFF && Down4(0x0000_0FFF) == 0x0000_00FF
    ensures Down4(0x0000_00FF) == 0x0000_000F
  {
  }

  lemma FullNibble(word: bv32, k: nat, j: nat)
    requires k < 8 && j < 4
    requires word == [0xFFFF_FFFF, 0x0FFF_FFFF, 0x00FF_FFFF, 0x000F_FFFF, 0x0000_FFFF, 0x0000_0FFF, 0x0000_00FF, 0x0000_000F][k]
    ensures LowBit(word, j)
  {
    FirstBits(word);
  }

  /** Main result: the CRC of a message, complemented and read from the lowest bit up, is
      the remainder of the message, read from the lowest bit of each byte up, with ones
      laid over its front and moved up 32 places, by the divisor. */
  lemma Crc32IsRemainder(data: seq<bv8>)
    ensures Remainder(OnesOver(MessageBits(data) + Words.Repeat(false, 32))) ==
      seq(32, i requires 0 <= i < 32 => !LowBit(Crc32(data), i))
  {
    hide Register, MessageBits, Remainder, Down, Odd, CrcFrom, Mix, Overlay;
    var m := MessageBits(data) + Words.Repeat(false, 32);
    forall i | 0 <= i < 32 ensures LowBit(MASK, i) { MaskBit(i); }
    assert Overlay(MASK, m) == OnesOver(m);
    RegisterDivides(MASK, MessageBits(data));
    CrcIsRegister(MASK, data);
    forall i | 0 <= i < 32 ensures LowBit(Crc32(data), i) == !LowBit(CrcFrom(MASK, data), i) {
      LowBitMix(CrcFrom(MASK, data), MASK, i);
    }
  }
}
