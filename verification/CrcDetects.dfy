// What the checksum detects.  A frame is a block followed by its two checksum
// bytes; the receiver accepts it when the CRC of the block is those two bytes.
module CrcDetects {
  import opened Crc
  import Words

  /** The 16-bit number of two bytes. */
  function Word(hi: byte, lo: byte): bv16 {
    Xor(High(hi), lo as bv16)
  }

  /** check() in CRC mode on a block of |frame| - 2 bytes. */
  predicate Accepts(frame: seq<byte>)
    requires |frame| >= 2
  {
    var n := |frame| - 2;
    CrcFrom(0, frame[..n]) == Word(frame[n], frame[n + 1])
  }

  // ----- The residue -----

  lemma XorIsZero(a: bv16, b: bv16)
    requires Xor(a, b) == 0
    ensures a == b
  {
  }

  lemma BitStepZero(c: bv16)
    ensures BitStep(c) == 0 <==> c == 0
  {
  }

  lemma Shift8Zero(c: bv16)
    ensures Shift8(c) == 0 <==> c == 0
  {
    hide BitStep;
    var c1 := BitStep(c);
    var c2 := BitStep(c1);
    var c3 := BitStep(c2);
    var c4 := BitStep(c3);
    var c5 := BitStep(c4);
    var c6 := BitStep(c5);
    var c7 := BitStep(c6);
    BitStepZero(c);
    BitStepZero(c1);
    BitStepZero(c2);
    BitStepZero(c3);
    BitStepZero(c4);
    BitStepZero(c5);
    BitStepZero(c6);
    BitStepZero(c7);
  }

  lemma LowByteMovesUp(lo: byte)
    ensures Shift8(lo as bv16) == High(lo)
  {
  }

  /** Running the register on over the two checksum bytes leaves nothing exactly
      when the checksum is right. */
  lemma ResidueZero(data: seq<byte>, hi: byte, lo: byte)
    ensures CrcFrom(0, data + [hi, lo]) == 0 <==> CrcFrom(0, data) == Word(hi, lo)
  {
    hide CrcFrom, Shift8, Xor, High;
    var r, l := CrcFrom(0, data), lo as bv16;
    assert data + [hi, lo] == data + [hi] + [lo];
    CrcAppend(0, data, hi);
    CrcAppend(0, data + [hi], lo);
    var y := Xor(r, High(hi));
    // the CRC is Shift8(Shift8(y) - Shift8(l)), which is Shift8(Shift8(y - l))
    LowByteMovesUp(lo);
    Shift8Add(y, l);
    Shift8Zero(Xor(Shift8(y), High(lo)));
    Shift8Zero(Xor(y, l));
    XorAssoc(r, High(hi), l);
    if Xor(y, l) == 0 { XorIsZero(r, Word(hi, lo)); }
    XorZero(r);
  }

  /** A frame is accepted exactly when its register ends at zero. */
  lemma AcceptsIsResidue(frame: seq<byte>)
    requires |frame| >= 2
    ensures Accepts(frame) <==> CrcFrom(0, frame) == 0
  {
    hide CrcFrom, Word;
    var n := |frame| - 2;
    ResidueZero(frame[..n], frame[n], frame[n + 1]);
    assert frame == frame[..n] + [frame[n], frame[n + 1]];
  }

  /** The sender's checksum bytes, high byte first, are always accepted. */
  lemma SentFrameAccepted(data: seq<byte>, hi: byte, lo: byte)
    requires hi == (CrcFrom(0, data) >> 8) as byte && lo == (CrcFrom(0, data) & 0xff) as byte
    ensures Accepts(data + [hi, lo])
  {
    hide CrcFrom, Word;
    var frame := data + [hi, lo];
    assert frame[..|data|] == data;
    SplitWord(CrcFrom(0, data));
  }

  lemma SplitWord(c: bv16)
    ensures Word((c >> 8) as byte, (c & 0xff) as byte) == c
  {
  }

  // ----- Linearity over whole messages -----

  /** The bits in which two messages of one length differ. */
  function Difference(a: seq<bool>, b: seq<bool>): (e: seq<bool>)
    requires |a| == |b|
    ensures |e| == |a| && forall i :: 0 <= i < |e| ==> e[i] == (a[i] != b[i])
  {
    seq(|a|, i requires 0 <= i < |a| => a[i] != b[i])
  }

  lemma TopBitXor(x: bool, y: bool)
    ensures TopBit(x != y) == Xor(TopBit(x), TopBit(y))
  {
  }

  lemma FeedAdd(c: bv16, d: bv16, x: bool, y: bool)
    ensures Feed(Xor(c, d), x != y) == Xor(Feed(c, x), Feed(d, y))
  {
    hide BitStep, Xor, TopBit;
    TopBitXor(x, y);
    XorSwap(c, d, TopBit(x), TopBit(y));
    BitStepAdd(Xor(c, TopBit(x)), Xor(d, TopBit(y)));
  }

  lemma {:induction false} RegisterAdd(c: bv16, d: bv16, a: seq<bool>, b: seq<bool>)
    requires |a| == |b|
    ensures Register(Xor(c, d), Difference(a, b)) == Xor(Register(c, a), Register(d, b))
    decreases |a|
  {
    hide Feed, Xor;
    if a != [] {
      FeedAdd(c, d, a[0], b[0]);
      RegisterAdd(Feed(c, a[0]), Feed(d, b[0]), a[1..], b[1..]);
      assert Difference(a, b)[1..] == Difference(a[1..], b[1..]);
    }
  }

  // ----- Bursts -----

  function Down(m: bv16): bv16 {
    m >> 1
  }

  predicate Odd(m: bv16) {
    m & 1 != 0
  }

  /** The low `k` bits of `m` are clear. */
  predicate Clear(m: bv16, k: nat)
    decreases k
  {
    k == 0 || (!Odd(m) && Clear(Down(m), k - 1))
  }

  /** The bits `w`, first bit on top, as a register value. */
  function Placed(w: seq<bool>): bv16
    decreases |w|
  {
    if w == [] then 0 else Xor(TopBit(w[0]), Down(Placed(w[1..])))
  }

  lemma DownTop(m: bv16)
    ensures !Top(Down(m))
  {
  }

  lemma TopBitTop(x: bool)
    ensures Top(TopBit(x)) == x
  {
  }

  lemma OddXor(c: bv16, d: bv16)
    ensures Odd(Xor(c, d)) == (Odd(c) != Odd(d))
  {
  }

  lemma DownXor(c: bv16, d: bv16)
    ensures Down(Xor(c, d)) == Xor(Down(c), Down(d))
  {
  }

  lemma DownZero(m: bv16)
    requires !Odd(m) && Down(m) == 0
    ensures m == 0
  {
  }

  lemma {:induction false} ClearZero(k: nat)
    ensures Clear(0, k)
  {
    if k > 0 {
      ClearZero(k - 1);
      assert Down(0) == 0 && !Odd(0);
    }
  }

  lemma {:induction false} ClearXor(a: bv16, b: bv16, k: nat)
    requires Clear(a, k) && Clear(b, k)
    ensures Clear(Xor(a, b), k)
    decreases k
  {
    hide Xor, Odd, Down;
    if k > 0 {
      OddXor(a, b);
      DownXor(a, b);
      ClearXor(Down(a), Down(b), k - 1);
    }
  }

  lemma {:induction false} ClearLess(m: bv16, k: nat, j: nat)
    requires Clear(m, k) && j <= k
    ensures Clear(m, j)
    decreases j
  {
    hide Odd, Down;
    if j > 0 { ClearLess(Down(m), k - 1, j - 1); }
  }

  lemma ClearTopBit(x: bool)
    ensures Clear(TopBit(x), 15)
  {
    if !x { ClearZero(15); } else {
      assert Clear(8, 3) by { assert Down(2) == 1 && Down(4) == 2 && Down(8) == 4; assert Clear(2, 1); assert Clear(4, 2); }
      assert Clear(0x80, 7) by { assert Down(0x10) == 8 && Down(0x20) == 0x10 && Down(0x40) == 0x20 && Down(0x80) == 0x40;
        assert Clear(0x10, 4); assert Clear(0x20, 5); assert Clear(0x40, 6); }
      assert Clear(0x800, 11) by { assert Down(0x100) == 0x80 && Down(0x200) == 0x100 && Down(0x400) == 0x200 && Down(0x800) == 0x400;
        assert Clear(0x100, 8); assert Clear(0x200, 9); assert Clear(0x400, 10); }
      assert Clear(0x8000, 15) by { assert Down(0x1000) == 0x800 && Down(0x2000) == 0x1000 && Down(0x4000) == 0x2000 && Down(0x8000) == 0x4000;
        assert Clear(0x1000, 12); assert Clear(0x2000, 13); assert Clear(0x4000, 14); }
    }
  }

  lemma {:induction false} PlacedClear(w: seq<bool>)
    requires |w| <= 16
    ensures Clear(Placed(w), 16 - |w|)
    decreases |w|
  {
    hide Xor, Odd, Down, TopBit;
    if w == [] {
      ClearZero(16);
    } else {
      PlacedClear(w[1..]);
      ClearTopBit(w[0]);
      ClearLess(TopBit(w[0]), 15, 16 - |w|);
      ClearXor(TopBit(w[0]), Down(Placed(w[1..])), 16 - |w|);
    }
  }

  /** Only one register value leads to an even one in a step: what moved up. */
  lemma StepBack(y: bv16, p: bv16)
    requires BitStep(y) == p && !Odd(p)
    ensures y == Down(p)
  {
  }

  /** Up to 16 bits drive only one register value to zero: the bits themselves. */
  lemma {:induction false} RegisterBack(c: bv16, w: seq<bool>)
    requires |w| <= 16 && Register(c, w) == 0
    ensures c == Placed(w)
    decreases |w|
  {
    hide Xor, Odd, Down, TopBit, BitStep;
    if w != [] {
      RegisterBack(Feed(c, w[0]), w[1..]);
      PlacedClear(w[1..]);
      StepBack(Xor(c, TopBit(w[0])), Placed(w[1..]));
      XorTwice(c, TopBit(w[0]));
      XorComm(Down(Placed(w[1..])), TopBit(w[0]));
    }
  }

  lemma {:induction false} PlacedZero(w: seq<bool>)
    requires |w| <= 16 && Placed(w) == 0
    ensures forall i :: 0 <= i < |w| ==> !w[i]
    decreases |w|
  {
    hide Xor, Odd, Down, TopBit, Top;
    if w != [] {
      var rest := Placed(w[1..]);
      TopXor(TopBit(w[0]), Down(rest));
      TopBitTop(w[0]);
      DownTop(rest);
      TopZero();
      XorIsZero(TopBit(w[0]), Down(rest));
      PlacedClear(w[1..]);
      FalseBit();
      DownZero(rest);
      PlacedZero(w[1..]);
    }
  }

  lemma TopZero()
    ensures !Top(0)
  {
  }

  lemma FalseBit()
    ensures TopBit(false) == 0
  {
  }

  lemma FeedZero(c: bv16)
    ensures Feed(c, false) == 0 <==> c == 0
  {
    hide BitStep, Xor;
    FalseBit();
    XorZero(c);
    BitStepZero(c);
  }

  /** Zero bits neither start nor stop an error. */
  lemma {:induction false} RegisterZeros(c: bv16, n: nat)
    ensures Register(c, Words.Repeat(false, n)) == 0 <==> c == 0
    decreases n
  {
    hide Feed;
    if n > 0 {
      FeedZero(c);
      RegisterZeros(Feed(c, false), n - 1);
      assert Words.Repeat(false, n)[1..] == Words.Repeat(false, n - 1);
    }
  }

  /** An error confined to 16 neighbouring bits never cancels out. */
  lemma BurstNonZero(e: seq<bool>, p: nat, n: nat)
    requires n <= 16 && p + n <= |e|
    requires forall i :: 0 <= i < |e| && e[i] ==> p <= i < p + n
    requires exists i :: 0 <= i < |e| && e[i]
    ensures Register(0, e) != 0
  {
    hide Register;
    var i :| 0 <= i < |e| && e[i];
    var w, q := e[p..p + n], |e| - p - n;
    assert e == Words.Repeat(false, p) + (w + Words.Repeat(false, q));
    RegisterConcat(0, Words.Repeat(false, p), w + Words.Repeat(false, q));
    RegisterZeros(0, p);
    RegisterConcat(0, w, Words.Repeat(false, q));
    RegisterZeros(Register(0, w), q);
    assert w[i - p] == e[i];
    if Register(0, w) == 0 {
      RegisterBack(0, w);
      PlacedZero(w);
    }
  }

  lemma ByteBitsInjective(a: byte, b: byte)
    requires ByteBits(a) == ByteBits(b)
    ensures a == b
  {
    var s, t := ByteBits(a), ByteBits(b);
    assert s[0] == t[0] && s[1] == t[1] && s[2] == t[2] && s[3] == t[3];
    assert s[4] == t[4] && s[5] == t[5] && s[6] == t[6] && s[7] == t[7];
  }

  lemma {:induction false} BitsInjective(f: seq<byte>, g: seq<byte>)
    requires |f| == |g| && BitsOf(f) == BitsOf(g)
    ensures f == g
    decreases |f|
  {
    hide ByteBits;
    if f != [] {
      assert BitsOf(f)[..8] == ByteBits(f[0]) && BitsOf(g)[..8] == ByteBits(g[0]);
      assert BitsOf(f)[8..] == BitsOf(f[1..]) && BitsOf(g)[8..] == BitsOf(g[1..]);
      ByteBitsInjective(f[0], g[0]);
      BitsInjective(f[1..], g[1..]);
      assert f == [f[0]] + f[1..] && g == [g[0]] + g[1..];
    }
  }

  /** Main result: when an accepted frame is changed in at most 16 neighbouring
      bits, wherever they are and whatever their new values, it is rejected. */
  lemma BurstDetected(f: seq<byte>, g: seq<byte>, p: nat, n: nat)
    requires |f| == |g| && |f| >= 2 && f != g && Accepts(f)
    requires n <= 16 && p + n <= 8 * |f|
    requires forall i :: 0 <= i < 8 * |f| && BitsOf(f)[i] != BitsOf(g)[i] ==> p <= i < p + n
    ensures !Accepts(g)
  {
    hide Register, BitsOf, Accepts, Xor;
    var e := Difference(BitsOf(f), BitsOf(g));
    if forall i :: 0 <= i < |e| ==> !e[i] {
      assert BitsOf(f) == BitsOf(g);
      BitsInjective(f, g);
    }
    BurstNonZero(e, p, n);
    RegisterAdd(0, 0, BitsOf(f), BitsOf(g));
    XorZero(0);
    AcceptsIsResidue(f);
    AcceptsIsResidue(g);
  }

  lemma {:induction false} BitsAt(f: seq<byte>, i: nat)
    requires i < 8 * |f|
    ensures BitsOf(f)[i] == ByteBits(f[i / 8])[i % 8]
    decreases |f|
  {
    hide ByteBits;
    if i >= 8 {
      BitsAt(f[1..], i - 8);
    }
  }

  /** In particular, changing two adjacent bytes of an accepted frame, or one, is
      always noticed, at any position in a block of any length. */
  lemma AdjacentBytesDetected(f: seq<byte>, g: seq<byte>, j: nat)
    requires |f| == |g| && |f| >= 2 && f != g && Accepts(f) && j + 1 < |f|
    requires forall k :: 0 <= k < |f| && k != j && k != j + 1 ==> f[k] == g[k]
    ensures !Accepts(g)
  {
    hide BitsOf, Accepts, ByteBits;
    forall i | 0 <= i < 8 * |f| && BitsOf(f)[i] != BitsOf(g)[i] ensures 8 * j <= i < 8 * j + 16 {
      BitsAt(f, i);
      BitsAt(g, i);
    }
    BurstDetected(f, g, 8 * j, 16);
  }
}
