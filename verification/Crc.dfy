// The CRC-16 of the XMODEM link: the bit-serial register, division by
// x^16 + x^12 + x^5 + 1 over GF(2), and what the checksum detects.
module Crc {
  type byte = bv8

  // ----- The bit-serial register -----

  function Xor(c: bv16, d: bv16): bv16 {
    c ^ d
  }

  function Up(m: bv16): bv16 {
    m << 1
  }

  predicate Top(c: bv16) {
    c & 0x8000 != 0
  }

  /** The generator x^16 + x^12 + x^5 + 1 without its leading term, or nothing. */
  function Generator(out: bool): bv16 {
    if out then 0x1021 else 0
  }

  /** A message bit, where it meets the register. */
  function TopBit(bit: bool): bv16 {
    if bit then 0x8000 else 0
  }

  /** One shift of the register, subtracting the generator when a bit falls out. */
  function BitStep(c: bv16): bv16 {
    Xor(Up(c), Generator(Top(c)))
  }

  /** Take one message bit into the register. */
  function Feed(c: bv16, bit: bool): bv16 {
    BitStep(Xor(c, TopBit(bit)))
  }

  function Register(c: bv16, bits: seq<bool>): bv16
    decreases |bits|
  {
    if bits == [] then c else Register(Feed(c, bits[0]), bits[1..])
  }

  /** The bits of a byte, most significant first. */
  function ByteBits(b: byte): (bits: seq<bool>)
    ensures |bits| == 8
  {
    [b & 0x80 != 0, b & 0x40 != 0, b & 0x20 != 0, b & 0x10 != 0, b & 8 != 0, b & 4 != 0, b & 2 != 0, b & 1 != 0]
  }

  function BitsOf(data: seq<byte>): (bits: seq<bool>)
    ensures |bits| == 8 * |data|
  {
    if data == [] then [] else ByteBits(data[0]) + BitsOf(data[1..])
  }

  /** The CRC of `data`, continuing from `crc`. */
  function CrcFrom(crc: bv16, data: seq<byte>): bv16 {
    Register(crc, BitsOf(data))
  }

  function Shift8(c: bv16): bv16 {
    BitStep(BitStep(BitStep(BitStep(BitStep(BitStep(BitStep(BitStep(c))))))))
  }

  // ----- Concatenation -----

  lemma {:induction false} RegisterConcat(c: bv16, a: seq<bool>, b: seq<bool>)
    ensures Register(c, a + b) == Register(Register(c, a), b)
    decreases |a|
  {
    hide Feed;
    if a == [] {
      assert a + b == b;
    } else {
      RegisterConcat(Feed(c, a[0]), a[1..], b);
      assert (a + b)[1..] == a[1..] + b;
    }
  }

  lemma {:induction false} BitsConcat(a: seq<byte>, b: seq<byte>)
    ensures BitsOf(a + b) == BitsOf(a) + BitsOf(b)
    decreases |a|
  {
    hide ByteBits;
    if a == [] {
      assert a + b == b;
    } else {
      BitsConcat(a[1..], b);
      assert (a + b)[1..] == a[1..] + b;
    }
  }

  /** A checksum may be computed piece by piece. */
  lemma CrcConcat(c: bv16, a: seq<byte>, b: seq<byte>)
    ensures CrcFrom(c, a + b) == CrcFrom(CrcFrom(c, a), b)
  {
    hide Register, BitsOf;
    BitsConcat(a, b);
    RegisterConcat(c, BitsOf(a), BitsOf(b));
  }

  lemma CrcEmpty(c: bv16)
    ensures CrcFrom(c, []) == c
  {
  }

  // ----- Exclusive or -----

  lemma XorComm(a: bv16, b: bv16)
    ensures Xor(a, b) == Xor(b, a)
  {
  }

  lemma XorAssoc(a: bv16, b: bv16, c: bv16)
    ensures Xor(Xor(a, b), c) == Xor(a, Xor(b, c))
  {
  }

  lemma XorZero(a: bv16)
    ensures Xor(a, 0) == a && Xor(a, a) == 0
  {
  }

  lemma XorSwap(a: bv16, b: bv16, p: bv16, q: bv16)
    ensures Xor(Xor(a, b), Xor(p, q)) == Xor(Xor(a, p), Xor(b, q))
  {
    hide Xor;
    XorAssoc(a, b, Xor(p, q));
    XorAssoc(b, p, q);
    XorComm(b, p);
    XorAssoc(p, b, q);
    XorAssoc(a, p, Xor(b, q));
  }

  lemma XorTwice(c: bv16, m: bv16)
    ensures Xor(Xor(c, m), m) == c
  {
    hide Xor;
    XorAssoc(c, m, m);
    XorZero(m);
    XorZero(c);
  }

  // ----- The register is linear -----

  lemma UpXor(c: bv16, d: bv16)
    ensures Up(Xor(c, d)) == Xor(Up(c), Up(d))
  {
  }

  lemma TopXor(c: bv16, d: bv16)
    ensures Top(Xor(c, d)) == (Top(c) != Top(d))
  {
  }

  lemma GeneratorXor(t: bool, u: bool)
    ensures Generator(t != u) == Xor(Generator(t), Generator(u))
  {
  }

  lemma BitStepAdd(c: bv16, d: bv16)
    ensures BitStep(Xor(c, d)) == Xor(BitStep(c), BitStep(d))
  {
    hide Top, Generator, Xor, Up;
    UpXor(c, d);
    TopXor(c, d);
    GeneratorXor(Top(c), Top(d));
    XorSwap(Up(c), Up(d), Generator(Top(c)), Generator(Top(d)));
  }

  /** The byte in the top half of the register. */
  function High(b: byte): bv16 {
    (b as bv16) << 8
  }

  lemma DropTop(m: bv16)
    ensures Up(Xor(m, TopBit(Top(m)))) == Up(m) && !Top(Xor(m, TopBit(Top(m))))
  {
    hide Top, TopBit, Xor, Up;
    UpXor(m, TopBit(Top(m)));
    TopXor(m, TopBit(Top(m)));
    TopBitIs(Top(m));
    XorZero(Up(m));
  }

  lemma TopBitIs(x: bool)
    ensures Up(TopBit(x)) == 0 && Top(TopBit(x)) == x
  {
  }

  /** Feeding the top bit of `m` is shifting, with `m` laid over the register. */
  lemma FeedOverlay(r: bv16, m: bv16)
    ensures Feed(Xor(r, m), Top(m)) == Xor(BitStep(r), Up(m))
  {
    hide Top, TopBit, Xor, Up;
    XorAssoc(r, m, TopBit(Top(m)));
    BitStepAdd(r, Xor(m, TopBit(Top(m))));
    DropTop(m);
    XorZero(Up(m));
  }

  lemma BitsOverlay(b: byte)
    ensures var m := High(b);
      ByteBits(b) == [Top(m), Top(Up(m)), Top(Up(Up(m))), Top(Up(Up(Up(m)))), Top(Up(Up(Up(Up(m))))),
        Top(Up(Up(Up(Up(Up(m)))))), Top(Up(Up(Up(Up(Up(Up(m))))))), Top(Up(Up(Up(Up(Up(Up(Up(m))))))))]
  {
  }

  lemma NothingLeft(r: bv16, b: byte)
    ensures Xor(r, Up(Up(Up(Up(Up(Up(Up(Up(High(b)))))))))) == r
  {
  }

  /** Eight bits of one byte are eight shifts of the register with the byte in its top half. */
  lemma RegisterByte(c: bv16, b: byte)
    ensures Register(c, ByteBits(b)) == Shift8(Xor(c, High(b)))
  {
    hide Feed, BitStep, ByteBits, Top, Xor, Up, High;
    BitsOverlay(b);
    var m0, r0 := High(b), Xor(c, High(b));
    var m1, r1 := Up(m0), BitStep(r0);
    var m2, r2 := Up(m1), BitStep(r1);
    var m3, r3 := Up(m2), BitStep(r2);
    var m4, r4 := Up(m3), BitStep(r3);
    var m5, r5 := Up(m4), BitStep(r4);
    var m6, r6 := Up(m5), BitStep(r5);
    var m7, r7 := Up(m6), BitStep(r6);
    Register8(c, Top(m0), Top(m1), Top(m2), Top(m3), Top(m4), Top(m5), Top(m6), Top(m7));
    XorTwice(c, m0);
    FeedOverlay(r0, m0);
    FeedOverlay(r1, m1);
    FeedOverlay(r2, m2);
    FeedOverlay(r3, m3);
    FeedOverlay(r4, m4);
    FeedOverlay(r5, m5);
    FeedOverlay(r6, m6);
    FeedOverlay(r7, m7);
    NothingLeft(BitStep(r7), b);
  }

  lemma Register8(c: bv16, x0: bool, x1: bool, x2: bool, x3: bool, x4: bool, x5: bool, x6: bool, x7: bool)
    ensures Register(c, [x0, x1, x2, x3, x4, x5, x6, x7]) ==
      Feed(Feed(Feed(Feed(Feed(Feed(Feed(Feed(c, x0), x1), x2), x3), x4), x5), x6), x7)
  {
    hide Feed, Register;
    var c4 := Feed(Feed(Feed(Feed(c, x0), x1), x2), x3);
    Register4(c, x0, x1, x2, x3);
    Register4(c4, x4, x5, x6, x7);
    RegisterConcat(c, [x0, x1, x2, x3], [x4, x5, x6, x7]);
    assert [x0, x1, x2, x3] + [x4, x5, x6, x7] == [x0, x1, x2, x3, x4, x5, x6, x7];
  }

  lemma Register4(c: bv16, x0: bool, x1: bool, x2: bool, x3: bool)
    ensures Register(c, [x0, x1, x2, x3]) == Feed(Feed(Feed(Feed(c, x0), x1), x2), x3)
  {
    hide Feed;
    assert [x0, x1, x2, x3][1..] == [x1, x2, x3];
    assert [x1, x2, x3][1..] == [x2, x3];
    assert [x2, x3][1..] == [x3];
    assert [x3][1..] == [];
    assert Register(Feed(Feed(Feed(c, x0), x1), x2), [x3]) == Feed(Feed(Feed(Feed(c, x0), x1), x2), x3);
    assert Register(Feed(Feed(c, x0), x1), [x2, x3]) == Feed(Feed(Feed(Feed(c, x0), x1), x2), x3);
  }

  /** One more byte. */
  lemma CrcAppend(c: bv16, data: seq<byte>, b: byte)
    ensures CrcFrom(c, data + [b]) == Shift8(Xor(CrcFrom(c, data), High(b)))
  {
    hide Register, Shift8, Xor, High;
    CrcConcat(c, data, [b]);
    BitsOne(b);
    RegisterByte(CrcFrom(c, data), b);
  }

  lemma BitsOne(b: byte)
    ensures BitsOf([b]) == ByteBits(b)
  {
    hide ByteBits;
    assert [b][1..] == [];
  }

  // ----- Linearity -----

  lemma Shift8Add(c: bv16, d: bv16)
    ensures Shift8(Xor(c, d)) == Xor(Shift8(c), Shift8(d))
  {
    hide BitStep, Xor;
    var c1, d1 := BitStep(c), BitStep(d);
    var c2, d2 := BitStep(c1), BitStep(d1);
    var c3, d3 := BitStep(c2), BitStep(d2);
    var c4, d4 := BitStep(c3), BitStep(d3);
    var c5, d5 := BitStep(c4), BitStep(d4);
    var c6, d6 := BitStep(c5), BitStep(d5);
    var c7, d7 := BitStep(c6), BitStep(d6);
    BitStepAdd(c, d);
    BitStepAdd(c1, d1);
    BitStepAdd(c2, d2);
    BitStepAdd(c3, d3);
    BitStepAdd(c4, d4);
    BitStepAdd(c5, d5);
    BitStepAdd(c6, d6);
    BitStepAdd(c7, d7);
  }
}
