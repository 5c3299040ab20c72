// The CRC-32 that seals the header of a flash image.
module FlashCrc {
  const MASK: bv32 := 0xffff_ffff

  function Mix(crc: bv32, b: bv32): bv32 {
    crc ^ b
  }

  predicate Odd(c: bv32) {
    c & 1 == 1
  }

  function Down(c: bv32): bv32 {
    c >> 1
  }

  function Polynomial(out: bool): bv32 {
    if out then 0xEDB8_8320 else 0
  }

  /** One shift of the register, with the polynomial mixed in when a bit falls out. */
  function CrcBit(crc: bv32): bv32 {
    Mix(Down(crc), Polynomial(Odd(crc)))
  }

  /** The register after `n` shifts. */
  function Shifted(c: bv32, n: nat): bv32 {
    if n == 0 then c else CrcBit(Shifted(c, n - 1))
  }

  function EightBits(c: bv32): bv32 {
    Shifted(c, 8)
  }

  function CrcFrom(crc: bv32, data: seq<bv8>): bv32
    decreases |data|
  {
    if data == [] then crc else CrcFrom(EightBits(Mix(crc, data[0] as bv32)), data[1..])
  }

  function Crc32(data: seq<bv8>): bv32 {
    Mix(CrcFrom(MASK, data), MASK)
  }

  method GetCrc(data: seq<bv8>) returns (r: bv32)
    ensures r == Crc32(data)
  {
    hide EightBits, Mix, CrcBit, Shifted;
    var crc := MASK;
    var i := 0;
    assert data[0..] == data;
    while i < |data|
      invariant 0 <= i <= |data| && CrcFrom(crc, data[i..]) == CrcFrom(MASK, data)
    {
      assert data[i..][0] == data[i] && data[i..][1..] == data[i + 1..];
      crc := ShiftOut(Mix(crc, data[i] as bv32));
      i := i + 1;
    }
    r := Mix(crc, MASK);
  }

  method ShiftOut(c: bv32) returns (crc: bv32)
    ensures crc == EightBits(c)
  {
    crc := c;
    for i := 0 to 8
      invariant crc == Shifted(c, i)
    {
      hide Mix, Down, Odd, Polynomial;
      crc := OneShift(crc);
    }
  }

  /** The body of the inner loop. */
  method OneShift(c: bv32) returns (crc: bv32)
    ensures crc == CrcBit(c)
  {
    hide Masked, Mix;
    var mask := if c & 1 == 1 then MASK else 0;
    PolynomialMasked();
    crc := Mix(c >> 1, Masked(mask));
  }

  /** The polynomial, or nothing. */
  function Masked(mask: bv32): bv32 {
    0xEDB8_8320 & mask
  }

  lemma PolynomialMasked()
    ensures Masked(MASK) == 0xEDB8_8320 && Masked(0) == 0
  {
  }

  // ----- What it detects -----

  /** No shift loses anything: the bit that falls out comes back at the top. */
  lemma BitInjective(c: bv32, d: bv32)
    requires CrcBit(c) == CrcBit(d)
    ensures c == d
  {
  }

  lemma MixInjective(c: bv32, a: bv32, b: bv32)
    ensures Mix(c, a) == Mix(c, b) ==> a == b
    ensures Mix(a, c) == Mix(b, c) ==> a == b
  {
  }

  lemma {:induction false} ShiftedInjective(c: bv32, d: bv32, n: nat)
    requires c != d
    ensures Shifted(c, n) != Shifted(d, n)
  {
    hide CrcBit;
    if n > 0 {
      ShiftedInjective(c, d, n - 1);
      if Shifted(c, n) == Shifted(d, n) {
        BitInjective(Shifted(c, n - 1), Shifted(d, n - 1));
      }
    }
  }

  lemma EightInjective(c: bv32, d: bv32)
    requires c != d
    ensures EightBits(c) != EightBits(d)
  {
    hide Shifted;
    ShiftedInjective(c, d, 8);
  }

  lemma Widened(a: bv8, b: bv8)
    requires a != b
    ensures (a as bv32) != (b as bv32)
  {
  }

  /** Registers that differ stay different over the same data. */
  lemma {:induction false} CrcKeepsApart(c: bv32, d: bv32, data: seq<bv8>)
    requires c != d
    ensures CrcFrom(c, data) != CrcFrom(d, data)
    decreases |data|
  {
    hide EightBits, Mix;
    if data != [] {
      var x, y := Mix(c, data[0] as bv32), Mix(d, data[0] as bv32);
      MixInjective(data[0] as bv32, c, d);
      EightInjective(x, y);
      CrcKeepsApart(EightBits(x), EightBits(y), data[1..]);
    }
  }

  /** Data of the same length that differ in exactly one byte have different registers. */
  lemma {:induction false} OneByteFrom(c: bv32, data: seq<bv8>, other: seq<bv8>, k: nat)
    requires |data| == |other| && k < |data| && data[k] != other[k]
    requires forall i :: 0 <= i < |data| && i != k ==> data[i] == other[i]
    ensures CrcFrom(c, data) != CrcFrom(c, other)
    decreases k
  {
    hide EightBits, Mix;
    var x, y := Mix(c, data[0] as bv32), Mix(c, other[0] as bv32);
    if k == 0 {
      Widened(data[0], other[0]);
      MixInjective(c, data[0] as bv32, other[0] as bv32);
      EightInjective(x, y);
      assert data[1..] == other[1..];
      CrcKeepsApart(EightBits(x), EightBits(y), data[1..]);
    } else {
      OneByteFrom(EightBits(x), data[1..], other[1..], k - 1);
    }
  }

  /** A header with one wrong byte, whichever, fails its check. */
  lemma OneByteShows(data: seq<bv8>, other: seq<bv8>, k: nat)
    requires |data| == |other| && k < |data| && data[k] != other[k]
    requires forall i :: 0 <= i < |data| && i != k ==> data[i] == other[i]
    ensures Crc32(data) != Crc32(other)
  {
    hide CrcFrom, Mix;
    OneByteFrom(MASK, data, other, k);
    MixInjective(MASK, CrcFrom(MASK, data), CrcFrom(MASK, other));
  }
}
