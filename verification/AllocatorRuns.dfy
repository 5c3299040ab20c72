// Whole runs of the allocator: every sequence of allocations, aligned
// allocations and frees of blocks that were handed out.
module AllocatorRuns {
  import opened Bits
  import opened FreeList
  import opened BankCounts
  import opened AlignedAlloc
  import opened Allocator
  import opened Headers

  datatype Op = Alloc(size: int) | AllocAlign(size: int, align: int) | Release(index: nat)

  /** The free list and the blocks handed out, with their rounded sizes. */
  datatype State = State(free: seq<Chunk>, live: seq<Chunk>)

  /** What the allocator demands of its caller. */
  ghost predicate Allowed(s: State, op: Op) {
    match op
    case Alloc(size) => size > 0
    case AllocAlign(size, align) => size > 0 && (align >= HEADER ==> IsPow2(align) && size % HEADER == 0)
    case Release(i) => i < |s.live|
  }

  ghost function Step(s: State, op: Op): State
    requires Allowed(s, op)
  {
    match op
    case Alloc(size) => Granted(s, AllocSpec(s.free, size), size)
    case AllocAlign(size, align) => Granted(s, AlignSpec(s.free, size, align), size)
    case Release(i) => State(FreeSpec(s.free, s.live[i].addr, s.live[i].size), s.live[..i] + s.live[i + 1..])
  }

  ghost function Granted(s: State, o: Outcome, size: int): State {
    match o
    case Failed => s
    case Got(addr, rest) => State(rest, s.live + [Chunk(addr, AlignUp(size))])
  }

  ghost predicate RunAllowed(s: State, ops: seq<Op>)
    decreases |ops|
  {
    ops == [] || (Allowed(s, ops[0]) && RunAllowed(Step(s, ops[0]), ops[1..]))
  }

  ghost function Run(s: State, ops: seq<Op>): State
    requires RunAllowed(s, ops)
    decreases |ops|
  {
    if ops == [] then s else Run(Step(s, ops[0]), ops[1..])
  }

  // ----- The invariant -----

  ghost predicate LiveOk(live: seq<Chunk>, lo: int, hi: int) {
    && Aligned(live) && Within(live, lo, hi)
    && (forall i :: 0 <= i < |live| ==> live[i].size > 0)
    && (forall i, j :: 0 <= i < j < |live| ==> Disjoint(live[i], live[j]))
  }

  /** Every byte of the region is free or in a live block, and not both. */
  ghost predicate Partition(s: State, lo: int, hi: int) {
    forall b :: lo <= b < hi ==> (Covers(s.free, b) <==> !Covers(s.live, b))
  }

  ghost predicate Inv(s: State, lo: int, hi: int) {
    && Canonical(s.free, lo, hi)
    && LiveOk(s.live, lo, hi)
    && Partition(s, lo, hi)
    && Total(s.free) + Total(s.live) == hi - lo
  }

  lemma CoversWithin(f: seq<Chunk>, lo: int, hi: int)
    requires Within(f, lo, hi)
    ensures forall b :: Covers(f, b) ==> lo <= b < hi
  {
  }

  lemma InitInv(lo: int, hi: int)
    requires lo < hi && lo % HEADER == 0 && hi % HEADER == 0
    ensures Inv(State([Chunk(lo, hi - lo)], []), lo, hi)
  {
    var f := [Chunk(lo, hi - lo)];
    assert f[1..] == [];
    forall b | lo <= b < hi ensures Covers(f, b) { assert Holds(f[0], b); }
  }

  /** A block cut from free bytes joins the live blocks. */
  lemma GrantInv(s: State, addr: int, rest: seq<Chunk>, size: int, lo: int, hi: int)
    requires Inv(s, lo, hi) && Canonical(rest, lo, hi)
    requires size > 0 && size % HEADER == 0 && addr % HEADER == 0 && lo <= addr && addr + size <= hi
    requires forall b :: Holds(Chunk(addr, size), b) ==> Covers(s.free, b)
    requires forall b :: Covers(rest, b) <==> Covers(s.free, b) && !Holds(Chunk(addr, size), b)
    requires Total(rest) == Total(s.free) - size
    ensures Inv(State(rest, s.live + [Chunk(addr, size)]), lo, hi)
  {
    hide Covers, Canonical;
    var c := Chunk(addr, size);
    forall b ensures Covers(s.live + [c], b) <==> Covers(s.live, b) || Holds(c, b) {
      CoversConcat(s.live, [c], b);
      CoversOne(c, b);
    }
    TotalConcat(s.live, [c]);
    assert [c][1..] == [];
    forall i | 0 <= i < |s.live| ensures Disjoint(s.live[i], c) {
      LiveApart(s, c, i, lo, hi);
    }
  }

  lemma LiveApart(s: State, c: Chunk, i: nat, lo: int, hi: int)
    requires Partition(s, lo, hi) && i < |s.live| && s.live[i].size > 0 && c.size > 0
    requires lo <= c.addr && c.addr + c.size <= hi
    requires forall b :: Holds(c, b) ==> Covers(s.free, b)
    ensures Disjoint(s.live[i], c)
  {
    var b := if s.live[i].addr < c.addr then c.addr else s.live[i].addr;
    if !Disjoint(s.live[i], c) {
      assert Holds(s.live[i], b);
      assert Holds(c, b);
    }
  }

  lemma AllocInv(s: State, size: int, lo: int, hi: int)
    requires Inv(s, lo, hi) && size > 0
    ensures Inv(Granted(s, AllocSpec(s.free, size), size), lo, hi)
  {
    hide Inv, AllocSpec, Covers, Canonical, Total;
    InvCanonical(s, lo, hi);
    AllocEffect(s.free, size, lo, hi);
    if AllocSpec(s.free, size).Got? {
      GrantInv(s, AllocSpec(s.free, size).addr, AllocSpec(s.free, size).free, AlignUp(size), lo, hi);
    }
  }

  lemma InvCanonical(s: State, lo: int, hi: int)
    requires Inv(s, lo, hi)
    ensures Canonical(s.free, lo, hi)
  {
  }

  lemma AllocAlignInv(s: State, size: int, align: int, lo: int, hi: int)
    requires Inv(s, lo, hi) && size > 0 && (align >= HEADER ==> IsPow2(align) && size % HEADER == 0)
    ensures Inv(Granted(s, AlignSpec(s.free, size, align), size), lo, hi)
  {
    if align < HEADER {
      AllocInv(s, size, lo, hi);
    } else {
      hide Inv, AlignSpec, Covers, Canonical, Total, IsPow2;
      InvCanonical(s, lo, hi);
      if AlignSpec(s.free, size, align).Got? {
        AlignEffect(s.free, size, align, lo, hi);
        AlignUpExact(size);
        GrantInv(s, AlignSpec(s.free, size, align).addr, AlignSpec(s.free, size, align).free, size, lo, hi);
      }
    }
  }

  /** A live block may be freed. */
  lemma LiveFreeable(s: State, i: nat, lo: int, hi: int)
    requires Inv(s, lo, hi) && i < |s.live|
    ensures Freeable(s.free, s.live[i], lo, hi) && AlignUp(s.live[i].size) == s.live[i].size
  {
    hide Covers, Aligned, Separated;
    var c := s.live[i];
    LiveAligned(s.live, i);
    forall b | Holds(c, b) ensures !Covers(s.free, b) {
      LiveCovers(s.live, i, b);
    }
    ApartFromBytes(s.free, c);
  }

  lemma LiveAligned(f: seq<Chunk>, i: nat)
    requires Aligned(f) && i < |f|
    ensures f[i].addr % HEADER == 0 && f[i].size % HEADER == 0 && AlignUp(f[i].size) == f[i].size
  {
  }

  lemma LiveCovers(f: seq<Chunk>, i: nat, b: int)
    requires i < |f| && Holds(f[i], b)
    ensures Covers(f, b)
  {
  }

  lemma ReleaseInv(s: State, i: nat, lo: int, hi: int)
    requires Inv(s, lo, hi) && i < |s.live|
    ensures Inv(Step(s, Release(i)), lo, hi)
  {
    hide Inv, Covers, Separated, Aligned, Within, Total, Insert, AlignUp;
    var c := s.live[i];
    var rest := s.live[..i] + s.live[i + 1..];
    LiveFreeable(s, i, lo, hi);
    InsertCanonical(s.free, c, lo, hi);
    InsertTotal(s.free, c);
    LiveRest(s, i, lo, hi);
    forall b | lo <= b < hi ensures Covers(Insert(s.free, c), b) <==> !Covers(rest, b) {
      InsertCovers(s.free, c, b);
      LiveRestCovers(s, i, lo, hi, b);
    }
    InvFrom(State(Insert(s.free, c), rest), lo, hi);
  }

  lemma InvFrom(s: State, lo: int, hi: int)
    requires Canonical(s.free, lo, hi) && LiveOk(s.live, lo, hi) && Partition(s, lo, hi)
    requires Total(s.free) + Total(s.live) == hi - lo
    ensures Inv(s, lo, hi)
  {
  }

  lemma LiveRest(s: State, i: nat, lo: int, hi: int)
    requires Inv(s, lo, hi) && i < |s.live|
    ensures var rest := s.live[..i] + s.live[i + 1..];
      LiveOk(rest, lo, hi) && Total(s.free) + s.live[i].size + Total(rest) == hi - lo
  {
    hide Canonical, Partition, Disjoint, Total, Aligned, Within;
    TotalAt(s.live, i);
    TotalConcat(s.live[..i], s.live[i + 1..]);
    RestElements(s.live, i, lo, hi);
  }

  lemma RestElements(f: seq<Chunk>, i: nat, lo: int, hi: int)
    requires Aligned(f) && Within(f, lo, hi) && i < |f|
    ensures Aligned(f[..i] + f[i + 1..]) && Within(f[..i] + f[i + 1..], lo, hi)
  {
    var rest := f[..i] + f[i + 1..];
    forall j | 0 <= j < |rest| ensures rest[j] == f[if j < i then j else j + 1] {
    }
  }

  lemma LiveRestCovers(s: State, i: nat, lo: int, hi: int, b: int)
    requires Inv(s, lo, hi) && i < |s.live| && lo <= b < hi
    ensures Covers(s.live[..i] + s.live[i + 1..], b) <==> !Covers(s.free, b) && !Holds(s.live[i], b)
  {
    hide Canonical, Aligned, Within, Covers, Total;
    var f, rest := s.live, s.live[..i] + s.live[i + 1..];
    assert f == f[..i] + [f[i]] + f[i + 1..];
    CoversSplice(f[..i], f[i], f[i + 1..], b);
    CoversConcat(f[..i], f[i + 1..], b);
    if Holds(f[i], b) {
      OnlyHolder(f, i, b);
    }
  }

  lemma OnlyHolder(f: seq<Chunk>, i: nat, b: int)
    requires (forall j, k :: 0 <= j < k < |f| ==> Disjoint(f[j], f[k])) && i < |f| && Holds(f[i], b)
    ensures !Covers(f[..i] + f[i + 1..], b)
  {
    var rest := f[..i] + f[i + 1..];
    forall j | 0 <= j < |rest| ensures !Holds(rest[j], b) {
      assert rest[j] == f[if j < i then j else j + 1];
    }
  }

  // ----- Main results -----

  lemma StepInv(s: State, op: Op, lo: int, hi: int)
    requires Inv(s, lo, hi) && Allowed(s, op)
    ensures Inv(Step(s, op), lo, hi)
  {
    hide Inv, AllocSpec, AlignSpec, FreeSpec, IsPow2;
    match op
    case Alloc(size) => AllocInv(s, size, lo, hi);
    case AllocAlign(size, align) => AllocAlignInv(s, size, align, lo, hi);
    case Release(i) => ReleaseInv(s, i, lo, hi);
  }

  /** Every run keeps live blocks disjoint, aligned and inside the region, apart
      from the free chunks, and free plus live bytes equal to the region. */
  lemma {:induction false} RunInv(s: State, ops: seq<Op>, lo: int, hi: int)
    requires Inv(s, lo, hi) && RunAllowed(s, ops)
    ensures Inv(Run(s, ops), lo, hi)
    decreases |ops|
  {
    hide Inv, Step, Allowed;
    if ops != [] {
      StepInv(s, ops[0], lo, hi);
      RunInv(Step(s, ops[0]), ops[1..], lo, hi);
    }
  }

  /** The free list depends only on which bytes are live, not on the history. */
  lemma HistoryIndependent(s: State, t: State, lo: int, hi: int)
    requires Inv(s, lo, hi) && Inv(t, lo, hi)
    requires forall b :: Covers(s.live, b) <==> Covers(t.live, b)
    ensures s.free == t.free
  {
    hide Covers, Separated, Aligned, Within, Total;
    CoversWithin(s.free, lo, hi);
    CoversWithin(t.free, lo, hi);
    Unique(s.free, t.free);
  }

  /** After any run that gives every block back, in any order, the free list is
      the single chunk it started from. */
  lemma AllReleased(ops: seq<Op>, lo: int, hi: int)
    requires lo < hi && lo % HEADER == 0 && hi % HEADER == 0
    requires RunAllowed(State([Chunk(lo, hi - lo)], []), ops)
    requires Run(State([Chunk(lo, hi - lo)], []), ops).live == []
    ensures Run(State([Chunk(lo, hi - lo)], []), ops).free == [Chunk(lo, hi - lo)]
  {
    hide Inv, Run, RunAllowed;
    var s := State([Chunk(lo, hi - lo)], []);
    InitInv(lo, hi);
    RunInv(s, ops, lo, hi);
    HistoryIndependent(s, Run(s, ops), lo, hi);
  }

  /** A call that writes in free bytes only leaves the words of live blocks alone.
      Alloc and AllocAlign write in bytes free before, Free in bytes free after. */
  lemma LiveUntouched(s: State, i: nat, m: seq<int>, m': seq<int>, w: nat, lo: int, hi: int)
    requires Inv(s, lo, hi) && i < |s.live| && WritesIn(m, m', s.free)
    requires w < |m| && Holds(s.live[i], 4 * w)
    ensures m'[w] == m[w]
  {
    hide Covers, Canonical, Total;
    LiveCovers(s.live, i, 4 * w);
  }

  /** A bank is off exactly when all its bytes are free and none is in a header,
      so a bank that is off holds no byte of a live block. */
  lemma OffBankIdle(h: Heap, live: seq<Chunk>, k: nat)
    requires h.Valid() && h.trackPower && k < h.pwdCount.Length
    requires Inv(State(h.free, live), h.lo, h.hi)
    ensures var s := h.firstBankAddr + BankBase(k, h.BankSize());
      && (k in h.poweredDown <==> forall b :: s <= b < s + h.BankSize() ==> CoversBody(h.free, b))
      && (k in h.poweredDown ==> forall b :: s <= b < s + h.BankSize() ==> !Covers(live, b))
  {
    hide Covers, CoversBody, Separated, Pow2, BankBase, BodyIn;
    var s, w := h.firstBankAddr + BankBase(k, h.BankSize()), h.BankSize();
    assert h.pwdCount[..][k] == h.Count(h.free, k);
    ChunkSizes(h.free, h.lo, h.hi);
    if k in h.poweredDown {
      forall b | s <= b < s + w ensures CoversBody(h.free, b) && !Covers(live, b) {
        FullWindow(h.free, s, w, b);
        BodyIsFree(h.free, b);
        CoversWithin(h.free, h.lo, h.hi);
      }
    }
    if forall b :: s <= b < s + w ==> CoversBody(h.free, b) {
      WindowFull(h.free, s, w);
    }
  }

  lemma ChunkSizes(f: seq<Chunk>, lo: int, hi: int)
    requires Canonical(f, lo, hi)
    ensures forall i :: 0 <= i < |f| ==> f[i].size >= HEADER
  {
  }

  lemma BodyIsFree(f: seq<Chunk>, b: int)
    requires CoversBody(f, b)
    ensures Covers(f, b)
  {
    var i :| 0 <= i < |f| && InBody(f[i], b);
    assert Holds(f[i], b);
  }

  // ----- A heap that writes into a bank that is off -----

  /** Banks of 16 bytes from address 16 on, and 64 free bytes in them: the header behind a
      block of 24 bytes lies in the second bank, which is off when it is written. */
  method DarkHeap() returns (h: Heap, result: int)
    ensures fresh(h) && h.Valid() && h.trackPower && result == 16
    ensures h.dark == [40, 44]
  {
    hide Canonical, Spelled, Heap.Counted, Heap.InStep, IsPow2, Heap.AllocDark;
    var memory, counters := new int[20], new int[4];
    h := new Heap(memory, counters, 4, 16);
    h.Init(16, 64);
    SmallBanks(h);
    h.BeginTracking();
    assert h.free == [Chunk(16, 64)];
    SecondBankOff(h);
    result := h.Alloc(24);
    assert FirstFit([Chunk(16, 64)], 24) == 0;
  }

  lemma SmallBanks(h: Heap)
    requires h.bankSizeLog2 == 4 && h.firstBankAddr == 16 && h.pwdCount.Length == 4
    ensures h.BankSize() == 16 && h.InBanks(16, 64)
  {
    assert Pow2(4) == 2 * Pow2(3) == 4 * Pow2(2) == 8 * Pow2(1) == 16;
    assert BankBase(4, 16) == BankBase(3, 16) + 16 == BankBase(2, 16) + 32 == BankBase(1, 16) + 48 == 64;
  }

  lemma SecondBankOff(h: Heap)
    requires h.Valid() && h.trackPower && h.free == [Chunk(16, 64)]
    requires h.bankSizeLog2 == 4 && h.firstBankAddr == 16 && h.pwdCount.Length == 4
    ensures h.AllocDark(h.free, 24) == [40, 44]
  {
    hide Pow2, BodyIn, Separated, Aligned, Within, Spelled;
    SmallBanks(h);
    assert BankBase(1, 16) == 16;
    assert h.InBank(40, 1) && h.InBank(44, 1);
    h.NewHeaderOffIff(h.free, 0, 40, 1);
    h.NewHeaderOffIff(h.free, 0, 44, 1);
    assert FirstFit(h.free, 24) == 0;
  }
}
