// The aligned variant, as a value: a first-fit allocation of a bigger block
// whose two ends are given back.  Its net effect for block sizes that are a
// multiple of the chunk granularity, and what goes wrong for all others.
module AlignedAlloc {
  import opened Bits
  import opened FreeList

  datatype Outcome = Failed | Got(addr: int, free: seq<Chunk>)

  function AllocSpec(f: seq<Chunk>, size: int): Outcome {
    var k := FirstFit(f, AlignUp(size));
    if k == |f| then Failed else Got(f[k].addr, Take(f, k, AlignUp(size)))
  }

  function FreeSpec(f: seq<Chunk>, addr: int, size: int): seq<Chunk> {
    Insert(f, Chunk(addr, AlignUp(size)))
  }

  /** The bigger block that leaves room to give both ends back. */
  function BiggerSize(size: int, align: int): int {
    size + align + HEADER * 2
  }

  /** Cut the block out of the bigger one at `result`; `g` is the list without it. */
  function Carve(g: seq<Chunk>, result: int, size: int, align: int): Outcome
    requires align >= HEADER
  {
    var first := RoundUp(result, align);
    var headerSize := first - result;
    var aligned := if headerSize != 0 && headerSize < HEADER then first + align else first;
    var h := if headerSize != 0 then FreeSpec(g, result, headerSize) else g;
    Got(aligned, FreeSpec(h, aligned + size, BiggerSize(size, align) - headerSize - size))
  }

  function AlignSpec(f: seq<Chunk>, size: int, align: int): Outcome {
    if align < HEADER then AllocSpec(f, size) else
    match AllocSpec(f, BiggerSize(size, align))
    case Failed => Failed
    case Got(result, g) => Carve(g, result, size, align)
  }

  // ----- What a plain allocation does -----

  /** Success hands out free bytes only, and exactly those leave the list. */
  lemma AllocEffect(f: seq<Chunk>, size: int, lo: int, hi: int)
    requires Canonical(f, lo, hi) && size > 0
    ensures AllocSpec(f, size).Failed? <==> forall i :: 0 <= i < |f| ==> f[i].size < AlignUp(size)
    ensures AllocSpec(f, size).Got? ==>
      var (r, g) := (AllocSpec(f, size).addr, AllocSpec(f, size).free);
      var c := Chunk(r, AlignUp(size));
      && Canonical(g, lo, hi) && r % HEADER == 0 && lo <= r && r + c.size <= hi
      && (forall b :: Holds(c, b) ==> Covers(f, b))
      && (forall b :: Covers(g, b) <==> Covers(f, b) && !Holds(c, b))
      && Total(g) == Total(f) - c.size
  {
    var n := AlignUp(size);
    var k := FirstFit(f, n);
    if k < |f| {
      TakeCanonical(f, k, n, lo, hi);
      TakeTotal(f, k, n);
      forall b ensures Covers(Take(f, k, n), b) <==> Covers(f, b) && !Holds(Chunk(f[k].addr, n), b) {
        TakeCovers(f, k, n, b);
      }
      forall b | Holds(Chunk(f[k].addr, n), b) ensures Covers(f, b) {
        assert Holds(f[k], b);
      }
    }
  }

  /** `r` is the lowest address at which a free chunk with at least `n` bytes starts. */
  ghost predicate LowestFit(f: seq<Chunk>, n: int, r: int) {
    && (exists i :: 0 <= i < |f| && f[i].addr == r && f[i].size >= n)
    && (forall i :: 0 <= i < |f| && f[i].size >= n ==> r <= f[i].addr)
  }

  /** An allocation is served from the chunk at the lowest address that is big enough. */
  lemma AllocLowest(f: seq<Chunk>, size: int)
    requires Separated(f) && AllocSpec(f, size).Got?
    ensures LowestFit(f, AlignUp(size), AllocSpec(f, size).addr)
  {
    var k := FirstFit(f, AlignUp(size));
    assert f[k].addr == AllocSpec(f, size).addr;
    forall i | 0 <= i < |f| && f[i].size >= AlignUp(size) ensures f[k].addr <= f[i].addr {
      if k < i { SeparatedStarts(f, k, i); }
    }
  }

  lemma SeparatedStarts(f: seq<Chunk>, i: nat, j: nat)
    requires Separated(f) && i < j < |f|
    ensures f[i].addr < f[j].addr
  {
  }

  /** Giving back bytes that are not free adds exactly those bytes. */
  lemma FreeEffect(f: seq<Chunk>, addr: int, size: int)
    requires Separated(f) && size > 0
    requires forall b :: Holds(Chunk(addr, AlignUp(size)), b) ==> !Covers(f, b)
    ensures var g := FreeSpec(f, addr, size);
      && Separated(g) && Total(g) == Total(f) + AlignUp(size)
      && (forall b :: Covers(g, b) <==> Covers(f, b) || Holds(Chunk(addr, AlignUp(size)), b))
  {
    var c := Chunk(addr, AlignUp(size));
    ApartFromBytes(f, c);
    InsertSeparated(f, c);
    InsertTotal(f, c);
    forall b ensures Covers(Insert(f, c), b) <==> Covers(f, b) || Holds(c, b) { InsertCovers(f, c, b); }
  }

  lemma RoundedStart(result: int, align: int)
    requires result % HEADER == 0 && align >= HEADER && IsPow2(align)
    ensures align % HEADER == 0 && RoundUp(result, align) % HEADER == 0
    ensures MultipleOf(RoundUp(result, align), align) && result <= RoundUp(result, align) < result + align
  {
    var k: nat :| align == Pow2(k);
    Pow2Multiple(k);
    MultipleOfMultiple(RoundUp(result, align), align);
  }

  lemma AlignedSizes(size: int, align: int, head: int)
    requires align % HEADER == 0 && head % HEADER == 0
    ensures AlignUp(head) == head
    ensures AlignUp(align + HEADER * 2 - head) == align + HEADER * 2 - head
    ensures AlignUp(size + align + HEADER * 2) == AlignUp(size) + align + HEADER * 2
  {
  }

  /** The list with the lead [result, r), if there is one, and the tail given back. */
  function EndsGiven(g: seq<Chunk>, result: int, r: int, size: int, tail: int): seq<Chunk> {
    FreeSpec(if r == result then g else FreeSpec(g, result, r - result), r + size, tail)
  }

  /** The lead is a multiple of 8, so it is never too short to be a chunk: the
      step to the next aligned address is never taken. */
  lemma CarveStart(g: seq<Chunk>, result: int, size: int, align: int)
    requires result % HEADER == 0 && align >= HEADER && IsPow2(align)
    ensures var r := RoundUp(result, align);
      Carve(g, result, size, align) == Got(r, EndsGiven(g, result, r, size, align + HEADER * 2 - (r - result)))
  {
    hide FreeSpec, RoundUp, IsPow2;
    RoundedStart(result, align);
  }

  /** Giving back the lead and the tail of a taken stretch keeps only the middle. */
  lemma GiveBackEnds(g: seq<Chunk>, result: int, r: int, size: int, tail: int)
    requires Separated(g) && size > 0 && tail > 0 && result <= r
    requires AlignUp(r - result) == r - result && AlignUp(tail) == tail
    requires forall b :: result <= b < r + size + tail ==> !Covers(g, b)
    ensures var h := EndsGiven(g, result, r, size, tail);
      && Separated(h) && Total(h) == Total(g) + (r - result) + tail
      && (forall b :: Covers(h, b) <==> Covers(g, b) || result <= b < r || r + size <= b < r + size + tail)
  {
    hide FreeSpec, Total, Separated, Covers, AlignUp;
    var h := if r == result then g else FreeSpec(g, result, r - result);
    if r != result {
      FreeEffect(g, result, r - result);
    }
    FreeEffect(h, r + size, tail);
  }

  /** What carving leaves: everything but the block and the bytes past the tail. */
  lemma CarveEffect(g: seq<Chunk>, result: int, size: int, align: int)
    requires Separated(g) && size > 0 && align >= HEADER && IsPow2(align) && result % HEADER == 0
    requires forall b :: result <= b < result + BiggerSize(size, align) ==> !Covers(g, b)
    ensures Carve(g, result, size, align).Got?
    ensures var (r, h) := (Carve(g, result, size, align).addr, Carve(g, result, size, align).free);
      && MultipleOf(r, align) && r % HEADER == 0 && result <= r && r + size + HEADER < result + BiggerSize(size, align)
      && Separated(h) && Total(h) == Total(g) + align + HEADER * 2
      && (forall b :: Covers(h, b) <==>
            Covers(g, b) || (result <= b < result + BiggerSize(size, align) && !Holds(Chunk(r, size), b)))
  {
    hide FreeSpec, RoundUp, IsPow2, MultipleOf, Separated, Total, Covers, AlignUp, Carve, Holds, BiggerSize, EndsGiven;
    var r := RoundUp(result, align);
    var tail := align + HEADER * 2 - (r - result);
    RoundedStart(result, align);
    TailEnds(result, r, size, align);
    CarveStart(g, result, size, align);
    AlignedSizes(size, align, r - result);
    GiveBackEnds(g, result, r, size, tail);
    CarveBytes(g, EndsGiven(g, result, r, size, tail), result, r, size, tail);
  }

  /** The bytes between the bigger block's ends, but for the block itself. */
  lemma CarveBytes(g: seq<Chunk>, h: seq<Chunk>, result: int, r: int, size: int, tail: int)
    requires result <= r && size > 0 && tail > 0
    requires forall b :: Covers(h, b) <==> Covers(g, b) || result <= b < r || r + size <= b < r + size + tail
    ensures forall b :: Covers(h, b) <==>
      Covers(g, b) || (result <= b < r + size + tail && !Holds(Chunk(r, size), b))
  {
    hide Covers, Holds;
    forall b ensures Covers(h, b) <==> Covers(g, b) || (result <= b < r + size + tail && !Holds(Chunk(r, size), b)) {
      AroundBlock(b, result, r, size, tail);
    }
  }

  lemma AroundBlock(b: int, result: int, r: int, size: int, tail: int)
    requires result <= r && size > 0 && tail > 0
    ensures (result <= b < r || r + size <= b < r + size + tail) <==>
      (result <= b < r + size + tail && !Holds(Chunk(r, size), b))
  {
  }

  lemma TailEnds(result: int, r: int, size: int, align: int)
    requires result <= r < result + align
    ensures r + size + (align + HEADER * 2 - (r - result)) == result + BiggerSize(size, align)
    ensures r + size + HEADER < result + BiggerSize(size, align)
  {
  }

  /** Net effect for every size: the block leaves the free bytes, and so do the
      `lost` bytes between the tail and the rounded end of the bigger block. */
  lemma AlignBytes(f: seq<Chunk>, size: int, align: int, lo: int, hi: int)
    requires Canonical(f, lo, hi) && size > 0 && align >= HEADER && IsPow2(align)
    requires AlignSpec(f, size, align).Got?
    ensures AllocSpec(f, BiggerSize(size, align)).Got?
    ensures var (r, h) := (AlignSpec(f, size, align).addr, AlignSpec(f, size, align).free);
      var end := AllocSpec(f, BiggerSize(size, align)).addr + BiggerSize(size, align);
      var lost := Chunk(end, AlignUp(size) - size);
      && Separated(h) && r % HEADER == 0 && MultipleOf(r, align)
      && lo <= r && r + size + HEADER < end && end + lost.size <= hi
      && (forall b :: Holds(Chunk(r, size), b) || Holds(lost, b) ==> Covers(f, b))
      && (forall b :: Covers(h, b) <==> Covers(f, b) && !Holds(Chunk(r, size), b) && !Holds(lost, b))
      && Total(h) == Total(f) - AlignUp(size)
  {
    hide AllocSpec, Carve, IsPow2, MultipleOf, Separated, Aligned, Within, Total, Covers, AlignUp;
    AllocEffect(f, BiggerSize(size, align), lo, hi);
    AlignIsMultiple(align);
    AlignedSizes(size, align, 0);
    var bigger := AllocSpec(f, BiggerSize(size, align));
    CarveEffect(bigger.free, bigger.addr, size, align);
  }

  /** A stretch of the region with no free byte in it may be freed. */
  lemma StretchFreeable(g: seq<Chunk>, a: int, n: int, lo: int, hi: int)
    requires Canonical(g, lo, hi) && n > 0 && a % HEADER == 0 && n % HEADER == 0 && lo <= a && a + n <= hi
    requires forall b :: a <= b < a + n ==> !Covers(g, b)
    ensures Freeable(g, Chunk(a, n), lo, hi)
    ensures Canonical(Insert(g, Chunk(a, n)), lo, hi)
    ensures forall b :: Covers(Insert(g, Chunk(a, n)), b) <==> Covers(g, b) || a <= b < a + n
  {
    hide Covers, Insert, Separated, Aligned, Within;
    var c := Chunk(a, n);
    ApartFromBytes(g, c);
    InsertCanonical(g, c, lo, hi);
    forall b ensures Covers(Insert(g, c), b) <==> Covers(g, b) || Holds(c, b) { InsertCovers(g, c, b); }
  }

  /** With a block size that is a multiple of 8 both ends of the bigger block may
      be freed in turn, and everything free at any point was free before. */
  lemma EndsFreeable(f: seq<Chunk>, g: seq<Chunk>, result: int, size: int, align: int, lo: int, hi: int)
    requires Canonical(f, lo, hi) && size > 0 && align >= HEADER && IsPow2(align) && size % HEADER == 0
    requires AllocSpec(f, BiggerSize(size, align)) == Got(result, g)
    ensures var lead := RoundUp(result, align) - result;
      && 0 <= lead < align && lead % HEADER == 0
      && EndsOk(f, g, result, result + lead, size, align + HEADER * 2 - lead, lo, hi)
  {
    hide AllocSpec, RoundUp, IsPow2, MultipleOf, Covers, Canonical, EndsOk, AlignUp;
    AllocEffect(f, BiggerSize(size, align), lo, hi);
    RoundedStart(result, align);
    var r := RoundUp(result, align);
    PieceSizes(result, r, size, align);
    CutEnds(f, g, result, r, size, align + HEADER * 2 - (r - result), lo, hi);
  }

  lemma PieceSizes(result: int, r: int, size: int, align: int)
    requires result % HEADER == 0 && r % HEADER == 0 && size % HEADER == 0 && align % HEADER == 0
    ensures (r - result) % HEADER == 0 && (align + HEADER * 2 - (r - result)) % HEADER == 0
    ensures AlignUp(BiggerSize(size, align)) == BiggerSize(size, align)
  {
  }

  /** The lead [result, r) and the tail after the block at `r` may be freed. */
  ghost predicate EndsOk(f: seq<Chunk>, g: seq<Chunk>, result: int, r: int, size: int, tail: int, lo: int, hi: int) {
    var h := if r != result then Insert(g, Chunk(result, r - result)) else g;
    && (r != result ==> HEADER <= r - result && Freeable(g, Chunk(result, r - result), lo, hi))
    && Freeable(h, Chunk(r + size, tail), lo, hi)
    && (forall b :: Covers(h, b) ==> Covers(f, b))
    && (forall b :: Covers(Insert(h, Chunk(r + size, tail)), b) ==> Covers(f, b))
  }

  lemma AlignUpExact(n: int)
    requires n % HEADER == 0
    ensures AlignUp(n) == n
  {
  }

  lemma CutEnds(f: seq<Chunk>, g: seq<Chunk>, result: int, r: int, size: int, tail: int, lo: int, hi: int)
    requires Canonical(g, lo, hi) && 0 < size && 0 < tail && result <= r
    requires result % HEADER == 0 && r % HEADER == 0 && size % HEADER == 0 && tail % HEADER == 0
    requires lo <= result && r + size + tail <= hi
    requires forall b :: Covers(g, b) ==> Covers(f, b)
    requires forall b :: result <= b < r + size + tail ==> !Covers(g, b) && Covers(f, b)
    ensures EndsOk(f, g, result, r, size, tail, lo, hi)
  {
    hide Covers, Insert, Freeable, Canonical;
    var h := if r != result then Insert(g, Chunk(result, r - result)) else g;
    if r != result {
      StretchFreeable(g, result, r - result, lo, hi);
    }
    StretchFreeable(h, r + size, tail, lo, hi);
  }

  lemma AlignIsMultiple(align: int)
    requires align >= HEADER && IsPow2(align)
    ensures align % HEADER == 0
  {
    RoundedStart(0, align);
  }

  /** With a block size that is a multiple of 8 the aligned allocation removes
      exactly its block and keeps the list canonical. */
  lemma AlignEffect(f: seq<Chunk>, size: int, align: int, lo: int, hi: int)
    requires Canonical(f, lo, hi) && size > 0 && align >= HEADER && IsPow2(align) && size % HEADER == 0
    requires AlignSpec(f, size, align).Got?
    ensures var (r, h) := (AlignSpec(f, size, align).addr, AlignSpec(f, size, align).free);
      && MultipleOf(r, align) && r % HEADER == 0 && lo <= r && r + size <= hi
      && Canonical(h, lo, hi) && Total(h) == Total(f) - size
      && (forall b :: Holds(Chunk(r, size), b) ==> Covers(f, b))
      && (forall b :: Covers(h, b) <==> Covers(f, b) && !Holds(Chunk(r, size), b))
  {
    hide AlignSpec, AllocSpec, IsPow2, MultipleOf, Separated, Aligned, Within, Total, Covers;
    AlignBytes(f, size, align, lo, hi);
    var r, h := AlignSpec(f, size, align).addr, AlignSpec(f, size, align).free;
    CanonicalFromBytes(f, h, Chunk(r, size), lo, hi);
  }

  /** A separated list is 8-aligned when its bytes come in whole 8-byte groups. */
  lemma CanonicalFromBytes(f: seq<Chunk>, h: seq<Chunk>, c: Chunk, lo: int, hi: int)
    requires Canonical(f, lo, hi) && Separated(h) && c.addr % HEADER == 0 && c.size % HEADER == 0
    requires forall b :: Covers(h, b) <==> Covers(f, b) && !Holds(c, b)
    ensures Canonical(h, lo, hi)
  {
    hide Covers;
    forall i | 0 <= i < |h|
      ensures h[i].addr % HEADER == 0 && h[i].size % HEADER == 0 && lo <= h[i].addr && h[i].addr + h[i].size <= hi
    {
      ChunkFromBytes(f, h, c, i, lo, hi);
    }
  }

  lemma ChunkFromBytes(f: seq<Chunk>, h: seq<Chunk>, c: Chunk, i: nat, lo: int, hi: int)
    requires Canonical(f, lo, hi) && Separated(h) && c.addr % HEADER == 0 && c.size % HEADER == 0 && i < |h|
    requires forall b :: Covers(h, b) <==> Covers(f, b) && !Holds(c, b)
    ensures h[i].addr % HEADER == 0 && h[i].size % HEADER == 0 && lo <= h[i].addr && h[i].addr + h[i].size <= hi
  {
    hide Separated, Aligned, Within, Covers;
    var a, e := h[i].addr, h[i].addr + h[i].size;
    ChunkEnds(h, i);
    EdgeAligned(f, h, c, a);
    EdgeAligned(f, h, c, e);
    CoveredWithin(f, a, lo, hi);
    CoveredWithin(f, e - 1, lo, hi);
  }

  lemma CoveredWithin(f: seq<Chunk>, b: int, lo: int, hi: int)
    requires Within(f, lo, hi) && Covers(f, b)
    ensures lo <= b < hi
  {
  }

  /** Where coverage changes there is an 8-byte boundary. */
  lemma EdgeAligned(f: seq<Chunk>, h: seq<Chunk>, c: Chunk, x: int)
    requires Aligned(f) && c.addr % HEADER == 0 && c.size % HEADER == 0
    requires forall b :: Covers(h, b) <==> Covers(f, b) && !Holds(c, b)
    requires Covers(h, x) != Covers(h, x - 1)
    ensures x % HEADER == 0
  {
    hide Covers, Aligned;
    Granular(f, x);
    Granular(f, x - 1);
  }

  lemma ChunkEnds(h: seq<Chunk>, i: nat)
    requires Separated(h) && i < |h|
    ensures Covers(h, h[i].addr) && !Covers(h, h[i].addr - 1)
    ensures Covers(h, h[i].addr + h[i].size - 1) && !Covers(h, h[i].addr + h[i].size)
  {
    assert Holds(h[i], h[i].addr) && Holds(h[i], h[i].addr + h[i].size - 1);
  }

  /** Coverage by a canonical list is constant on 8-byte groups. */
  lemma Granular(f: seq<Chunk>, b: int)
    requires Aligned(f)
    ensures Covers(f, b) <==> Covers(f, b - b % HEADER)
  {
    forall i | 0 <= i < |f| ensures Holds(f[i], b) <==> Holds(f[i], b - b % HEADER) {
      GranularChunk(f[i], b);
    }
  }

  lemma GranularChunk(c: Chunk, b: int)
    requires c.addr % HEADER == 0 && c.size % HEADER == 0
    ensures Holds(c, b) <==> Holds(c, b - b % HEADER)
  {
  }

  /** A successful aligned allocation keeps the list canonical exactly for sizes
      that are multiples of 8: for every other size the tail is freed misaligned. */
  lemma AlignCanonicalIff(f: seq<Chunk>, size: int, align: int, lo: int, hi: int)
    requires Canonical(f, lo, hi) && size > 0 && align >= HEADER && IsPow2(align)
    requires AlignSpec(f, size, align).Got?
    ensures Canonical(AlignSpec(f, size, align).free, lo, hi) <==> size % HEADER == 0
  {
    hide AlignSpec, AllocSpec, IsPow2, MultipleOf, Separated, Aligned, Within, Covers;
    if size % HEADER == 0 {
      AlignEffect(f, size, align, lo, hi);
    } else {
      AlignBytes(f, size, align, lo, hi);
      TailMisaligned(f, AlignSpec(f, size, align).free, AlignSpec(f, size, align).addr, size);
    }
  }

  /** The block's last byte and the next one share an 8-byte group, but only the
      second of them is free. */
  lemma TailMisaligned(f: seq<Chunk>, h: seq<Chunk>, r: int, size: int)
    requires Aligned(f) && r % HEADER == 0 && size > 0 && size % HEADER != 0
    requires forall b :: Holds(Chunk(r, size), b) ==> Covers(f, b) && !Covers(h, b)
    requires Covers(f, r + size) ==> Covers(h, r + size)
    ensures !Aligned(h)
  {
    hide Covers, Aligned;
    var b := r + size;
    Granular(f, b);
    Granular(f, b - 1);
    if Aligned(h) {
      Granular(h, b);
      Granular(h, b - 1);
    }
  }

  /** An aligned allocation fails if and only if no chunk has room for the block, a whole
      alignment step and two headers, rounded up to 8. */
  lemma AlignFailsIff(f: seq<Chunk>, size: int, align: int, lo: int, hi: int)
    requires Canonical(f, lo, hi) && size > 0 && align >= HEADER
    ensures AlignSpec(f, size, align).Failed? <==> forall i :: 0 <= i < |f| ==> f[i].size < AlignUp(size + align + 16)
  {
    hide AllocSpec, Carve;
    AllocEffect(f, BiggerSize(size, align), lo, hi);
    if AllocSpec(f, BiggerSize(size, align)).Got? {
      CarveGives(AllocSpec(f, BiggerSize(size, align)).free, AllocSpec(f, BiggerSize(size, align)).addr, size, align);
    }
  }

  lemma CarveGives(g: seq<Chunk>, result: int, size: int, align: int)
    requires align >= HEADER
    ensures Carve(g, result, size, align).Got?
  {
  }

  /** So one fails although a free chunk is as big as the block and aligned as asked for. */
  lemma AlignRefusesFit()
    ensures AlignSpec([Chunk(64, 24)], 24, 64) == Failed && 64 % 64 == 0
  {
    assert FirstFit([Chunk(64, 24)], AlignUp(24 + 64 + 16)) == 1 by { assert [Chunk(64, 24)][1..] == []; }
  }

  /** A block of 12 bytes at an 8-byte boundary leaves a chunk at address 20. */
  lemma AlignedTailCounterexample()
    ensures AlignSpec([Chunk(8, 256)], 12, 8) == Got(8, [Chunk(20, 24), Chunk(48, 216)])
  {
    hide Insert, RoundUp;
    assert FirstFit([Chunk(8, 256)], 40) == 0;
    assert AllocSpec([Chunk(8, 256)], 36) == Got(8, [Chunk(48, 216)]);
    assert RoundUp(8, 8) == 8 by { DivModUnique(15, 8, 1, 7); }
    assert Insert([Chunk(48, 216)], Chunk(20, 24)) == [Chunk(20, 24), Chunk(48, 216)] by { InsertBefore(); }
  }

  lemma InsertBefore()
    ensures Insert([Chunk(48, 216)], Chunk(20, 24)) == [Chunk(20, 24), Chunk(48, 216)]
  {
    assert Below([Chunk(48, 216)], 20) == 0;
  }
}
