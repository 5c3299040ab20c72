// The two 64-bit helpers of the float conversion: halving and dividing by five,
// each with rounding, on machines without 64-bit division.
module PrfDivide {
  import opened Words

  const TWO64 := 0x1_0000_0000_0000_0000

  /** uint64_t values. */
  predicate Word64(v: int) {
    0 <= v < TWO64
  }

  /** pos_libc_rlrshift: halve, rounding a half up. */
  function Halved(v: int): (r: int)
    requires v >= 0
    ensures 0 <= r && v <= 2 * r <= v + 1
  {
    v % 2 + v / 2
  }

  /** What pos_libc_ldiv5 computes: the nearest fifth, for all but the two largest
      values, where adding two wraps around. */
  function Fifth(v: int): (q: int)
    requires Word64(v)
    ensures 0 <= q && (v <= TWO64 - 3 ==> v - 2 <= 5 * q <= v + 2)
  {
    if v <= TWO64 - 3 then (v + 2) / 5 else 0
  }

  /** One of the three partial divisions: `hi` fits 32 bits before the narrowing. */
  method DivideStep(rem: int, shift: int) returns (q: int)
    requires Word64(rem) && (shift == TWO32 || shift == 8 || shift == 1) && rem < TWO32 * shift
    ensures rem / shift < TWO32
    ensures q % shift == 0 && 0 <= 5 * q <= rem < 5 * q + 5 * shift
  {
    StepFacts(rem, shift);
    var hi := rem / shift % TWO32;
    Narrowed(rem / shift, TWO32);
    Narrowed(hi / 5 * shift, TWO64);
    q := hi / 5 * shift % TWO64;
  }

  lemma Narrowed(x: int, m: int)
    requires 0 <= x < m
    ensures x % m == x
  {
  }

  lemma StepFacts(rem: int, shift: int)
    requires Word64(rem) && (shift == TWO32 || shift == 8 || shift == 1) && rem < TWO32 * shift
    ensures 0 <= rem / shift < TWO32
    ensures var q := rem / shift / 5 * shift; q % shift == 0 && q < TWO64 && 0 <= 5 * q <= rem < 5 * q + 5 * shift
  {
    if shift == TWO32 {
      assert rem / shift == rem / TWO32;
    } else if shift == 8 {
      assert rem / shift == rem / 8;
    } else {
      assert rem / shift == rem;
    }
  }

  /** pos_libc_ldiv5: three 32-bit divisions, at shifts 32, 3 and 0. */
  method Ldiv5(v: int) returns (quot: int)
    requires Word64(v)
    ensures quot == Fifth(v)
  {
    var shifts := [TWO32, 8, 1];
    var rem := (v + 2) % TWO64;
    quot := 0;
    for i := 0 to 3
      invariant 0 <= rem && 0 <= quot && rem + 5 * quot == (v + 2) % TWO64
      invariant i == 1 ==> rem < 5 * TWO32
      invariant i == 2 ==> rem < 40
      invariant i == 3 ==> rem < 5
    {
      assert rem < TWO32 * shifts[i];
      var q := DivideStep(rem, shifts[i]);
      rem := rem - q * 5;
      quot := quot + q;
    }
  }

  method Rlrshift(v: int) returns (r: int)
    requires Word64(v)
    ensures r == Halved(v) && Word64(r)
  {
    r := v % 2 + v / 2;
  }
}
