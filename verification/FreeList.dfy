// The free list of the size-known allocator, as a value: an address-ordered
// sequence of chunks.  This file holds the three edits the allocator makes to
// the list, what each does to the set of free bytes, and the theorem that the
// set of free bytes determines the list.
module FreeList {
  /** sizeof(pos_alloc_chunk_t), which is also MIN_CHUNK_SIZE. */
  const HEADER := 8

  /** `size` bytes from byte address `addr`: a free chunk or a live block. */
  datatype Chunk = Chunk(addr: int, size: int)

  function AlignUp(n: int): (r: int)
    ensures r % HEADER == 0 && n <= r < n + HEADER
  {
    (n + HEADER - 1) / HEADER * HEADER
  }

  function AlignDown(n: int): (r: int)
    ensures r % HEADER == 0 && n - HEADER < r <= n
  {
    n / HEADER * HEADER
  }

  ghost predicate Holds(c: Chunk, b: int) {
    c.addr <= b < c.addr + c.size
  }

  ghost predicate Disjoint(c: Chunk, d: Chunk) {
    c.addr + c.size <= d.addr || d.addr + d.size <= c.addr
  }

  // ----- Canonical lists -----

  /** Strictly address-ordered and fully coalesced: a gap follows every chunk. */
  ghost predicate Separated(f: seq<Chunk>) {
    && (forall i :: 0 <= i < |f| ==> f[i].size > 0)
    && (forall i, j :: 0 <= i < j < |f| ==> f[i].addr + f[i].size < f[j].addr)
  }

  ghost predicate Aligned(f: seq<Chunk>) {
    forall i :: 0 <= i < |f| ==> f[i].addr % HEADER == 0 && f[i].size % HEADER == 0
  }

  ghost predicate Within(f: seq<Chunk>, lo: int, hi: int) {
    forall i :: 0 <= i < |f| ==> lo <= f[i].addr && f[i].addr + f[i].size <= hi
  }

  ghost predicate Canonical(f: seq<Chunk>, lo: int, hi: int) {
    Separated(f) && Aligned(f) && Within(f, lo, hi)
  }

  /** Byte `b` lies in some chunk of `f`. */
  ghost predicate Covers(f: seq<Chunk>, b: int) {
    exists i :: 0 <= i < |f| && Holds(f[i], b)
  }

  /** No byte of `c` lies in a chunk of `f`. */
  ghost predicate Apart(f: seq<Chunk>, c: Chunk) {
    forall i :: 0 <= i < |f| ==> Disjoint(f[i], c)
  }

  /** A block that may be freed into `f`. */
  ghost predicate Freeable(f: seq<Chunk>, c: Chunk, lo: int, hi: int) {
    && Canonical(f, lo, hi) && Apart(f, c)
    && c.size > 0 && c.addr % HEADER == 0 && c.size % HEADER == 0 && lo <= c.addr && c.addr + c.size <= hi
  }

  ghost function Total(f: seq<Chunk>): int {
    if f == [] then 0 else f[0].size + Total(f[1..])
  }

  // ----- The allocator's edits -----

  /** Index of the first chunk with at least `n` bytes; |f| when there is none. */
  function FirstFit(f: seq<Chunk>, n: int): (k: nat)
    ensures k <= |f|
    ensures forall i :: 0 <= i < k ==> f[i].size < n
    ensures k < |f| ==> f[k].size >= n
  {
    if f == [] || f[0].size >= n then 0 else 1 + FirstFit(f[1..], n)
  }

  /** Remove the first `n` bytes of chunk `k`, and the chunk when nothing is left. */
  function Take(f: seq<Chunk>, k: nat, n: int): seq<Chunk>
    requires k < |f|
  {
    if f[k].size == n then f[..k] + f[k + 1..]
    else f[k := Chunk(f[k].addr + n, f[k].size - n)]
  }

  /** Number of leading chunks that start below address `a`. */
  function Below(f: seq<Chunk>, a: int): (k: nat)
    ensures k <= |f|
    ensures forall i :: 0 <= i < k ==> f[i].addr < a
    ensures k < |f| ==> f[k].addr >= a
  {
    if f == [] || f[0].addr >= a then 0 else 1 + Below(f[1..], a)
  }

  predicate JoinsNext(f: seq<Chunk>, c: Chunk) {
    var k := Below(f, c.addr);
    k < |f| && c.addr + c.size == f[k].addr
  }

  predicate JoinsPrev(f: seq<Chunk>, c: Chunk) {
    var k := Below(f, c.addr);
    k > 0 && f[k - 1].addr + f[k - 1].size == c.addr
  }

  /** The block with the chunk that follows it, when they touch. */
  function Grown(f: seq<Chunk>, c: Chunk): Chunk {
    if JoinsNext(f, c) then Chunk(c.addr, c.size + f[Below(f, c.addr)].size) else c
  }

  /** Put block `c` back, merging it with the chunks it touches. */
  function Insert(f: seq<Chunk>, c: Chunk): seq<Chunk> {
    var k := Below(f, c.addr);
    var g := Grown(f, c);
    var rest := if JoinsNext(f, c) then f[k + 1..] else f[k..];
    if JoinsPrev(f, c) then f[..k - 1] + [Chunk(f[k - 1].addr, f[k - 1].size + g.size)] + rest
    else f[..k] + [g] + rest
  }

  // ----- Uniqueness: the free bytes determine the list -----

  lemma CoversTail(f: seq<Chunk>, b: int)
    requires f != []
    ensures Covers(f, b) <==> Holds(f[0], b) || Covers(f[1..], b)
  {
    if Covers(f, b) && !Holds(f[0], b) {
      var i :| 0 <= i < |f| && Holds(f[i], b);
      assert Holds(f[1..][i - 1], b);
    }
    if Covers(f[1..], b) {
      var i :| 0 <= i < |f[1..]| && Holds(f[1..][i], b);
      assert Holds(f[i + 1], b);
    }
  }

  lemma CoversFirst(f: seq<Chunk>)
    requires Separated(f) && f != []
    ensures Covers(f, f[0].addr)
  {
    assert Holds(f[0], f[0].addr);
  }

  lemma FirstChunkAgrees(f: seq<Chunk>, g: seq<Chunk>)
    requires Separated(f) && Separated(g) && f != [] && g != []
    requires forall b :: Covers(f, b) ==> Covers(g, b)
    ensures g[0].addr <= f[0].addr
    ensures g[0].addr == f[0].addr ==> f[0].size <= g[0].size
  {
    assert Holds(f[0], f[0].addr) && Covers(g, f[0].addr);
    var b := g[0].addr + g[0].size;
    assert Holds(f[0], b) ==> Covers(f, b);
  }

  /** Two separated lists that cover the same bytes are the same list. */
  lemma {:induction false} Unique(f: seq<Chunk>, g: seq<Chunk>)
    requires Separated(f) && Separated(g)
    requires forall b :: Covers(f, b) <==> Covers(g, b)
    ensures f == g
  {
    if f == [] || g == [] {
      if f != [] { CoversFirst(f); }
      if g != [] { CoversFirst(g); }
    } else {
      FirstChunkAgrees(f, g);
      FirstChunkAgrees(g, f);
      forall b ensures Covers(f[1..], b) <==> Covers(g[1..], b) {
        CoversTail(f, b);
        CoversTail(g, b);
      }
      Unique(f[1..], g[1..]);
      assert f == [f[0]] + f[1..] && g == [g[0]] + g[1..];
    }
  }

  // ----- Concatenation -----

  lemma CoversConcat(f: seq<Chunk>, g: seq<Chunk>, b: int)
    ensures Covers(f + g, b) <==> Covers(f, b) || Covers(g, b)
  {
    var h := f + g;
    if Covers(h, b) {
      var i :| 0 <= i < |h| && Holds(h[i], b);
      if i < |f| { assert Holds(f[i], b); } else { assert Holds(g[i - |f|], b); }
    }
    if Covers(f, b) {
      var i :| 0 <= i < |f| && Holds(f[i], b);
      assert Holds(h[i], b);
    }
    if Covers(g, b) {
      var i :| 0 <= i < |g| && Holds(g[i], b);
      assert Holds(h[|f| + i], b);
    }
  }

  lemma CoversOne(c: Chunk, b: int)
    ensures Covers([c], b) <==> Holds(c, b)
  {
    if Holds(c, b) { assert Holds([c][0], b); }
  }

  /** The bytes covered by a prefix, one chunk and a suffix. */
  lemma CoversSplice(f: seq<Chunk>, c: Chunk, g: seq<Chunk>, b: int)
    ensures Covers(f + [c] + g, b) <==> Covers(f, b) || Holds(c, b) || Covers(g, b)
  {
    CoversConcat(f + [c], g, b);
    CoversConcat(f, [c], b);
    CoversOne(c, b);
  }

  lemma SeparatedSlice(f: seq<Chunk>, p: nat, q: nat)
    requires Separated(f) && p <= q <= |f|
    ensures Separated(f[p..q])
  {
  }

  lemma SeparatedConcat(f: seq<Chunk>, g: seq<Chunk>)
    requires Separated(f) && Separated(g)
    requires f != [] && g != [] ==> f[|f| - 1].addr + f[|f| - 1].size < g[0].addr
    ensures Separated(f + g)
  {
    var h := f + g;
    forall i, j | 0 <= i < j < |h| ensures h[i].addr + h[i].size < h[j].addr {
      if i < |f| <= j {
        var l := f[|f| - 1];
        assert i < |f| - 1 ==> f[i].addr + f[i].size < l.addr && l.size > 0;
        assert j > |f| ==> g[0].addr + g[0].size < g[j - |f|].addr && g[0].size > 0;
      }
    }
  }

  /** Chunks p..q of a separated list replaced by one that fits in their place. */
  lemma SeparatedSplice(f: seq<Chunk>, p: nat, q: nat, c: Chunk)
    requires Separated(f) && p <= q <= |f| && c.size > 0
    requires p > 0 ==> f[p - 1].addr + f[p - 1].size < c.addr
    requires q < |f| ==> c.addr + c.size < f[q].addr
    ensures Separated(f[..p] + [c] + f[q..])
  {
    SeparatedSlice(f, 0, p);
    SeparatedSlice(f, q, |f|);
    SeparatedConcat(f[..p], [c]);
    SeparatedConcat(f[..p] + [c], f[q..]);
  }

  lemma AlignedSplice(f: seq<Chunk>, p: nat, q: nat, c: Chunk)
    requires Aligned(f) && p <= q <= |f| && c.addr % HEADER == 0 && c.size % HEADER == 0
    ensures Aligned(f[..p] + [c] + f[q..])
  {
    var h := f[..p] + [c] + f[q..];
    forall i | 0 <= i < |h| ensures h[i] == c || h[i] in f {
    }
  }

  lemma WithinSplice(f: seq<Chunk>, p: nat, q: nat, c: Chunk, lo: int, hi: int)
    requires Within(f, lo, hi) && p <= q <= |f| && lo <= c.addr && c.addr + c.size <= hi
    ensures Within(f[..p] + [c] + f[q..], lo, hi)
  {
    var h := f[..p] + [c] + f[q..];
    forall i | 0 <= i < |h| ensures h[i] == c || h[i] in f {
    }
  }

  // ----- What Take does -----

  lemma TakeSplits(f: seq<Chunk>, k: nat, n: int)
    requires k < |f|
    ensures f == f[..k] + [f[k]] + f[k + 1..]
    ensures f[k].size == n ==> Take(f, k, n) == f[..k] + f[k + 1..]
    ensures f[k].size != n ==> Take(f, k, n) == f[..k] + [Chunk(f[k].addr + n, f[k].size - n)] + f[k + 1..]
  {
  }

  lemma TakeSeparated(f: seq<Chunk>, k: nat, n: int)
    requires Separated(f) && k < |f| && 0 < n <= f[k].size
    ensures Separated(Take(f, k, n))
  {
    TakeSplits(f, k, n);
    if f[k].size == n {
      SeparatedSlice(f, 0, k);
      SeparatedSlice(f, k + 1, |f|);
      SeparatedConcat(f[..k], f[k + 1..]);
    } else {
      SeparatedSplice(f, k, k + 1, Chunk(f[k].addr + n, f[k].size - n));
    }
  }

  lemma TakeCanonical(f: seq<Chunk>, k: nat, n: int, lo: int, hi: int)
    requires Canonical(f, lo, hi) && k < |f| && 0 < n <= f[k].size && n % HEADER == 0
    ensures Canonical(Take(f, k, n), lo, hi)
  {
    TakeSeparated(f, k, n);
    TakeSplits(f, k, n);
    if f[k].size != n {
      AlignedSplice(f, k, k + 1, Chunk(f[k].addr + n, f[k].size - n));
      WithinSplice(f, k, k + 1, Chunk(f[k].addr + n, f[k].size - n), lo, hi);
    }
  }

  /** Taking removes exactly the block's bytes from the free bytes. */
  lemma TakeCovers(f: seq<Chunk>, k: nat, n: int, b: int)
    requires Separated(f) && k < |f| && 0 < n <= f[k].size
    ensures Covers(Take(f, k, n), b) <==> Covers(f, b) && !Holds(Chunk(f[k].addr, n), b)
  {
    TakeSplits(f, k, n);
    CoversSplice(f[..k], f[k], f[k + 1..], b);
    CoversConcat(f[..k], f[k + 1..], b);
    CoversSplice(f[..k], Chunk(f[k].addr + n, f[k].size - n), f[k + 1..], b);
  }

  // ----- What Insert does -----

  /** The block falls between chunks Below - 1 and Below. */
  lemma BelowSplits(f: seq<Chunk>, c: Chunk)
    requires Separated(f) && Apart(f, c) && c.size > 0
    ensures var k := Below(f, c.addr);
      && (k > 0 ==> f[k - 1].addr + f[k - 1].size <= c.addr)
      && (k < |f| ==> c.addr + c.size <= f[k].addr)
  {
    var k := Below(f, c.addr);
    assert k > 0 ==> Disjoint(f[k - 1], c);
    assert k < |f| ==> Disjoint(f[k], c);
  }

  /** The chunk that holds the block after the merge, and the chunks p..q it replaces. */
  function Merged(f: seq<Chunk>, c: Chunk): (m: Chunk) {
    var g := Grown(f, c);
    var k := Below(f, c.addr);
    if JoinsPrev(f, c) then Chunk(f[k - 1].addr, f[k - 1].size + g.size) else g
  }

  function MergeFrom(f: seq<Chunk>, c: Chunk): (p: nat)
    ensures p <= Below(f, c.addr)
  {
    if JoinsPrev(f, c) then Below(f, c.addr) - 1 else Below(f, c.addr)
  }

  function MergeTo(f: seq<Chunk>, c: Chunk): (q: nat)
    ensures Below(f, c.addr) <= q <= |f|
  {
    if JoinsNext(f, c) then Below(f, c.addr) + 1 else Below(f, c.addr)
  }

  lemma InsertSplices(f: seq<Chunk>, c: Chunk)
    ensures Insert(f, c) == f[..MergeFrom(f, c)] + [Merged(f, c)] + f[MergeTo(f, c)..]
  {
  }

  lemma InsertSeparated(f: seq<Chunk>, c: Chunk)
    requires Separated(f) && Apart(f, c) && c.size > 0
    ensures Separated(Insert(f, c))
  {
    BelowSplits(f, c);
    InsertSplices(f, c);
    SeparatedSplice(f, MergeFrom(f, c), MergeTo(f, c), Merged(f, c));
  }

  lemma MergedFits(f: seq<Chunk>, c: Chunk, lo: int, hi: int)
    requires Aligned(f) && Within(f, lo, hi) && c.size > 0 && (forall i :: 0 <= i < |f| ==> f[i].size > 0)
    requires c.addr % HEADER == 0 && c.size % HEADER == 0 && lo <= c.addr && c.addr + c.size <= hi
    ensures var m := Merged(f, c);
      m.addr % HEADER == 0 && m.size % HEADER == 0 && lo <= m.addr && m.addr + m.size <= hi
  {
    hide Below;
  }

  lemma InsertCanonical(f: seq<Chunk>, c: Chunk, lo: int, hi: int)
    requires Canonical(f, lo, hi) && Apart(f, c) && c.size > 0
    requires c.addr % HEADER == 0 && c.size % HEADER == 0 && lo <= c.addr && c.addr + c.size <= hi
    ensures Canonical(Insert(f, c), lo, hi)
  {
    var m, p, q := Merged(f, c), MergeFrom(f, c), MergeTo(f, c);
    InsertSeparated(f, c);
    MergedFits(f, c, lo, hi);
    InsertSplices(f, c);
    AlignedSplice(f, p, q, m);
    WithinSplice(f, p, q, m, lo, hi);
  }

  lemma InThree(f: seq<Chunk>, p: nat, q: nat)
    requires p <= q <= |f|
    ensures f == f[..p] + (f[p..q] + f[q..])
  {
  }

  /** Inserting adds exactly the block's bytes to the free bytes. */
  lemma InsertCovers(f: seq<Chunk>, c: Chunk, b: int)
    requires Separated(f) && Apart(f, c) && c.size > 0
    ensures Covers(Insert(f, c), b) <==> Covers(f, b) || Holds(c, b)
  {
    hide Covers, Insert, Merged, Below, Separated, Apart;
    var p, q := MergeFrom(f, c), MergeTo(f, c);
    InsertSplices(f, c);
    CoversSplice(f[..p], Merged(f, c), f[q..], b);
    InThree(f, p, q);
    CoversConcat(f[..p], f[p..q] + f[q..], b);
    CoversConcat(f[p..q], f[q..], b);
    MergedCovers(f, c, b);
  }

  /** The chunks around the block, and the block's place between them. */
  lemma MergeSlices(f: seq<Chunk>, c: Chunk)
    ensures var (k, p, q) := (Below(f, c.addr), MergeFrom(f, c), MergeTo(f, c));
      && p <= k <= q <= |f| && f[p..q] == f[p..k] + f[k..q]
      && (if JoinsPrev(f, c) then k > 0 && p == k - 1 && f[p..k] == [f[k - 1]] else p == k && f[p..k] == [])
      && (if JoinsNext(f, c) then k < |f| && q == k + 1 && f[k..q] == [f[k]] else q == k && f[k..q] == [])
  {
    hide Below, JoinsPrev, JoinsNext, MergeFrom, MergeTo;
    PrevSlice(f, c);
    NextSlice(f, c);
    TwoSlices(f, MergeFrom(f, c), Below(f, c.addr), MergeTo(f, c));
  }

  lemma PrevSlice(f: seq<Chunk>, c: Chunk)
    ensures var (k, p) := (Below(f, c.addr), MergeFrom(f, c));
      if JoinsPrev(f, c) then k > 0 && p == k - 1 && f[p..k] == [f[k - 1]] else p == k && f[p..k] == []
  {
    hide Below;
    var k := Below(f, c.addr);
    if k > 0 { OneSlice(f, k - 1); }
  }

  lemma NextSlice(f: seq<Chunk>, c: Chunk)
    ensures var (k, q) := (Below(f, c.addr), MergeTo(f, c));
      if JoinsNext(f, c) then k < |f| && q == k + 1 && f[k..q] == [f[k]] else q == k && f[k..q] == []
  {
    hide Below;
    var k := Below(f, c.addr);
    if k < |f| { OneSlice(f, k); }
  }

  lemma OneSlice(f: seq<Chunk>, k: nat)
    requires k < |f|
    ensures f[k..k + 1] == [f[k]]
  {
  }

  lemma TwoSlices(f: seq<Chunk>, p: nat, k: nat, q: nat)
    requires p <= k <= q <= |f|
    ensures f[p..q] == f[p..k] + f[k..q]
  {
  }

  lemma CoversNone(b: int)
    ensures !Covers([], b)
  {
  }

  /** The chunks that are merged have bytes. */
  lemma MergedSizes(f: seq<Chunk>, c: Chunk)
    requires Separated(f) && Apart(f, c) && c.size > 0
    ensures JoinsPrev(f, c) ==> f[Below(f, c.addr) - 1].size > 0
    ensures JoinsNext(f, c) ==> f[Below(f, c.addr)].size > 0
  {
    hide Below;
  }

  lemma MergedCovers(f: seq<Chunk>, c: Chunk, b: int)
    requires Separated(f) && Apart(f, c) && c.size > 0
    ensures Holds(Merged(f, c), b) <==> Covers(f[MergeFrom(f, c)..MergeTo(f, c)], b) || Holds(c, b)
  {
    hide Below, Covers, Separated, Apart;
    var k, p, q := Below(f, c.addr), MergeFrom(f, c), MergeTo(f, c);
    MergeSlices(f, c);
    MergedSizes(f, c);
    CoversNone(b);
    if p < k { CoversOne(f[k - 1], b); }
    if k < q { CoversOne(f[k], b); }
    CoversConcat(f[p..k], f[k..q], b);
  }

  lemma ApartFromBytes(f: seq<Chunk>, c: Chunk)
    requires c.size > 0 && Separated(f)
    requires forall b :: Holds(c, b) ==> !Covers(f, b)
    ensures Apart(f, c)
  {
    forall i | 0 <= i < |f| ensures Disjoint(f[i], c) {
      var b := if f[i].addr < c.addr then c.addr else f[i].addr;
      assert Holds(f[i], b) ==> Covers(f, b);
    }
  }

  // ----- Sums -----

  lemma {:induction false} TotalConcat(f: seq<Chunk>, g: seq<Chunk>)
    ensures Total(f + g) == Total(f) + Total(g)
  {
    if f == [] {
      assert f + g == g;
    } else {
      TotalConcat(f[1..], g);
      assert (f + g)[1..] == f[1..] + g;
    }
  }

  lemma TotalAt(f: seq<Chunk>, k: nat)
    requires k < |f|
    ensures Total(f) == Total(f[..k]) + f[k].size + Total(f[k + 1..])
  {
    assert f == f[..k] + ([f[k]] + f[k + 1..]);
    TotalConcat(f[..k], [f[k]] + f[k + 1..]);
    assert ([f[k]] + f[k + 1..])[1..] == f[k + 1..];
  }

  lemma TakeTotal(f: seq<Chunk>, k: nat, n: int)
    requires k < |f|
    ensures Total(Take(f, k, n)) == Total(f) - n
  {
    var g := Take(f, k, n);
    TotalAt(f, k);
    TotalConcat(f[..k], f[k + 1..]);
    if f[k].size != n {
      TotalAt(g, k);
      assert g[..k] == f[..k] && g[k + 1..] == f[k + 1..];
    }
  }

  lemma InsertTotal(f: seq<Chunk>, c: Chunk)
    ensures Total(Insert(f, c)) == Total(f) + c.size
  {
    hide Total, Insert, Merged, MergeFrom, MergeTo, Below;
    InsertSplices(f, c);
    TotalSplice(f, MergeFrom(f, c), MergeTo(f, c), Merged(f, c));
    MergedSize(f, c);
  }

  /** Chunks p..q replaced by one. */
  lemma TotalSplice(f: seq<Chunk>, p: nat, q: nat, c: Chunk)
    requires p <= q <= |f|
    ensures Total(f[..p] + [c] + f[q..]) == Total(f) - Total(f[p..q]) + c.size
  {
    hide Total;
    TotalConcat(f[..p] + [c], f[q..]);
    TotalConcat(f[..p], [c]);
    TotalOne(c);
    assert f == f[..p] + f[p..q] + f[q..];
    TotalConcat(f[..p] + f[p..q], f[q..]);
    TotalConcat(f[..p], f[p..q]);
  }

  lemma MergedSize(f: seq<Chunk>, c: Chunk)
    ensures Merged(f, c).size == Total(f[MergeFrom(f, c)..MergeTo(f, c)]) + c.size
  {
    hide Below, Total;
    var k, p, q := Below(f, c.addr), MergeFrom(f, c), MergeTo(f, c);
    MergeSlices(f, c);
    TotalNone();
    if p < k { TotalOne(f[k - 1]); }
    if k < q { TotalOne(f[k]); }
    TotalConcat(f[p..k], f[k..q]);
  }

  lemma TotalNone()
    ensures Total([]) == 0
  {
  }

  lemma TotalOne(c: Chunk)
    ensures Total([c]) == c.size
  {
    assert [c][1..] == [];
  }

  // ----- Round trips -----

  /** Freeing a block just taken gives back the identical list. */
  lemma TakeThenInsert(f: seq<Chunk>, k: nat, n: int)
    requires Separated(f) && k < |f| && 0 < n <= f[k].size
    ensures Insert(Take(f, k, n), Chunk(f[k].addr, n)) == f
  {
    var c := Chunk(f[k].addr, n);
    var g := Take(f, k, n);
    forall b ensures Covers(g, b) <==> Covers(f, b) && !Holds(c, b) { TakeCovers(f, k, n, b); }
    ApartFromBytes(g, c);
    InsertSeparated(g, c);
    forall b ensures Covers(Insert(g, c), b) <==> Covers(f, b) {
      InsertCovers(g, c, b);
      assert Holds(c, b) ==> Holds(f[k], b);
    }
    Unique(Insert(g, c), f);
  }

  /** The order in which two disjoint blocks are freed does not matter. */
  lemma InsertsCommute(f: seq<Chunk>, c: Chunk, d: Chunk)
    requires Separated(f) && c.size > 0 && d.size > 0
    requires Apart(f, c) && Apart(f, d) && Disjoint(c, d)
    ensures Insert(Insert(f, c), d) == Insert(Insert(f, d), c)
  {
    InsertTwice(f, c, d);
    InsertTwice(f, d, c);
    Unique(Insert(Insert(f, c), d), Insert(Insert(f, d), c));
  }

  lemma InsertTwice(f: seq<Chunk>, c: Chunk, d: Chunk)
    requires Separated(f) && c.size > 0 && d.size > 0
    requires Apart(f, c) && Apart(f, d) && Disjoint(c, d)
    ensures Separated(Insert(f, c)) && Apart(Insert(f, c), d)
    ensures Separated(Insert(Insert(f, c), d))
    ensures forall b :: Covers(Insert(Insert(f, c), d), b) <==> Covers(f, b) || Holds(c, b) || Holds(d, b)
  {
    var g := Insert(f, c);
    InsertSeparated(f, c);
    forall b ensures Covers(g, b) <==> Covers(f, b) || Holds(c, b) { InsertCovers(f, c, b); }
    ApartFromBytes(g, d);
    InsertSeparated(g, d);
    forall b ensures Covers(Insert(g, d), b) <==> Covers(g, b) || Holds(d, b) { InsertCovers(g, d, b); }
  }
}
