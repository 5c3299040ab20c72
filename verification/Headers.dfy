// Chunk headers in memory.  Memory is a sequence of 32-bit words; the header of
// the chunk at byte address a is the pair of words a / 4 (its size) and
// a / 4 + 1 (the address of the next chunk, 0 after the last).
module Headers {
  import opened Bits
  import opened FreeList

  function Word(a: int): int {
    a / 4
  }

  /** Address of chunk `i`, or NULL past the end. */
  ghost function AddrOf(f: seq<Chunk>, i: int): int {
    if 0 <= i < |f| then f[i].addr else 0
  }

  ghost predicate InMemory(m: seq<int>, a: int) {
    0 <= Word(a) && Word(a) + 1 < |m|
  }

  ghost predicate HeaderIs(m: seq<int>, a: int, size: int, next: int) {
    InMemory(m, a) && m[Word(a)] == size && m[Word(a) + 1] == next
  }

  /** The headers in memory, from `head` on, spell the list `f`. */
  ghost predicate Spelled(m: seq<int>, f: seq<Chunk>, head: int) {
    && head == AddrOf(f, 0)
    && (forall i :: 0 <= i < |f| ==> HeaderIs(m, f[i].addr, f[i].size, AddrOf(f, i + 1)))
  }

  ghost function SetSize(m: seq<int>, a: int, size: int): seq<int>
    requires InMemory(m, a)
  {
    m[Word(a) := size]
  }

  ghost function SetNext(m: seq<int>, a: int, next: int): seq<int>
    requires InMemory(m, a)
  {
    m[Word(a) + 1 := next]
  }

  /** Words that differ between two memories lie in bytes that `f` covers. */
  ghost predicate WritesIn(m: seq<int>, m': seq<int>, f: seq<Chunk>) {
    |m| == |m'| && forall w :: 0 <= w < |m| && m[w] != m'[w] ==> Covers(f, 4 * w)
  }

  // ----- Headers do not overlap -----

  /** The headers of different chunks are different words. */
  lemma HeadersApart(f: seq<Chunk>, i: nat, j: nat, lo: int, hi: int)
    requires Canonical(f, lo, hi) && i < j < |f|
    ensures Word(f[i].addr) + 1 < Word(f[j].addr)
  {
    assert f[i].size >= HEADER && f[i].addr + f[i].size < f[j].addr;
  }

  lemma AtLeastHeader(f: seq<Chunk>, lo: int, hi: int)
    requires Canonical(f, lo, hi)
    ensures forall i :: 0 <= i < |f| ==> f[i].size >= HEADER
  {
  }

  lemma HeaderCovered(f: seq<Chunk>, i: nat, lo: int, hi: int)
    requires Canonical(f, lo, hi) && i < |f|
    ensures Covers(f, 4 * Word(f[i].addr)) && Covers(f, 4 * (Word(f[i].addr) + 1))
  {
    hide Separated, Within, Covers, Word;
    AtLeastHeader(f, lo, hi);
    ChunkCovers(f, i, f[i].addr);
    ChunkCovers(f, i, f[i].addr + 4);
    WordAddress(f[i].addr);
  }

  lemma ChunkCovers(f: seq<Chunk>, i: nat, b: int)
    requires i < |f| && Holds(f[i], b)
    ensures Covers(f, b)
  {
  }

  /** The two words at a multiple of eight. */
  lemma WordAddress(a: int)
    requires a % HEADER == 0
    ensures 4 * Word(a) == a && 4 * (Word(a) + 1) == a + 4
  {
    var q := a / HEADER;
    assert a == 8 * q;
    DivModUnique(a, 4, 2 * q, 0);
  }

  lemma HeaderInMemory(f: seq<Chunk>, i: nat, lo: int, hi: int, m: seq<int>)
    requires Canonical(f, lo, hi) && i < |f| && 0 <= lo && hi <= 4 * |m|
    ensures InMemory(m, f[i].addr)
  {
    assert f[i].size >= HEADER;
  }

  lemma HeaderOf(m: seq<int>, f: seq<Chunk>, head: int, i: nat)
    requires Spelled(m, f, head) && i < |f|
    ensures HeaderIs(m, f[i].addr, f[i].size, AddrOf(f, i + 1))
  {
  }

  // ----- The list after an edit -----

  /** Chunks p..q replaced by `mid`: memory spells the new list when the words of
      the chunks that stay are as they were and the links around `mid` are set. */
  lemma SpelledSplice(m: seq<int>, m': seq<int>, f: seq<Chunk>, head: int, head': int, p: nat, q: nat, mid: seq<Chunk>)
    requires Spelled(m, f, head) && p <= q <= |f| && |mid| <= 1 && |m'| == |m|
    requires forall i :: 0 <= i < p - 1 ==> HeaderIs(m', f[i].addr, f[i].size, AddrOf(f, i + 1))
    requires forall i :: q <= i < |f| ==> HeaderIs(m', f[i].addr, f[i].size, AddrOf(f, i + 1))
    requires mid != [] ==> HeaderIs(m', mid[0].addr, mid[0].size, AddrOf(f, q))
    requires var t := if mid == [] then AddrOf(f, q) else mid[0].addr;
      if p > 0 then head' == head && HeaderIs(m', f[p - 1].addr, f[p - 1].size, t) else head' == t
    ensures Spelled(m', f[..p] + mid + f[q..], head')
  {
    hide HeaderIs, Canonical;
    var g := f[..p] + mid + f[q..];
    forall i | 0 <= i < |g| ensures HeaderIs(m', g[i].addr, g[i].size, AddrOf(g, i + 1)) {
      if i < p {
      } else if i < p + |mid| {
      } else {
        assert g[i] == f[i - p - |mid| + q];
      }
    }
  }

  // ----- Memory after an allocation -----

  /** The writes of an allocation of `n` bytes from chunk `k`. */
  ghost function TakeWrites(m: seq<int>, f: seq<Chunk>, k: nat, n: int): seq<int>
    requires k < |f| && InMemory(m, f[k].addr + n) && (k > 0 ==> InMemory(m, f[k - 1].addr))
  {
    var a := f[k].addr + n;
    var m1 := SetNext(SetSize(m, a, f[k].size - n), a, AddrOf(f, k + 1));
    if k > 0 then SetNext(m1, f[k - 1].addr, a) else m1
  }

  /** The writes of an allocation of the whole chunk `k`. */
  ghost function TakeWholeWrites(m: seq<int>, f: seq<Chunk>, k: nat): seq<int>
    requires k < |f| && (k > 0 ==> InMemory(m, f[k - 1].addr))
  {
    if k > 0 then SetNext(m, f[k - 1].addr, AddrOf(f, k + 1)) else m
  }

  lemma TakeWholeSpelled(m: seq<int>, f: seq<Chunk>, head: int, k: nat, lo: int, hi: int)
    requires Canonical(f, lo, hi) && 0 <= lo && hi <= 4 * |m|
    requires Spelled(m, f, head) && k < |f|
    ensures k > 0 ==> InMemory(m, f[k - 1].addr)
    ensures var m' := TakeWholeWrites(m, f, k);
      && Spelled(m', Take(f, k, f[k].size), if k > 0 then head else AddrOf(f, k + 1))
      && WritesIn(m, m', f)
  {
    hide Canonical, Covers, Word, Spelled, Take;
    if k > 0 { HeaderInMemory(f, k - 1, lo, hi, m); HeaderCovered(f, k - 1, lo, hi); HeaderOf(m, f, head, k - 1); }
    var m' := TakeWholeWrites(m, f, k);
    TakeWholeLinks(m, f, head, k);
    hide TakeWholeWrites, HeaderIs, InMemory, WritesIn;
    forall i | 0 <= i < |f| && i != k && i != k - 1 ensures HeaderIs(m', f[i].addr, f[i].size, AddrOf(f, i + 1)) {
      TakeWholeKeeps(m, f, head, k, i, lo, hi);
    }
    assert head == AddrOf(f, 0) by { SpelledHead(m, f, head); }
    SpelledSplice(m, m', f, head, if k > 0 then head else AddrOf(f, k + 1), k, k + 1, []);
    TakeSplits(f, k, f[k].size);
    assert f[..k] + [] == f[..k];
  }

  /** The link written, and that it is the only word. */
  lemma TakeWholeLinks(m: seq<int>, f: seq<Chunk>, head: int, k: nat)
    requires Spelled(m, f, head) && k < |f|
    requires k > 0 ==> InMemory(m, f[k - 1].addr) && Covers(f, 4 * (Word(f[k - 1].addr) + 1))
    ensures var m' := TakeWholeWrites(m, f, k);
      && |m'| == |m| && WritesIn(m, m', f)
      && (k > 0 ==> HeaderIs(m', f[k - 1].addr, f[k - 1].size, AddrOf(f, k + 1)))
  {
    hide Covers, Word, Spelled;
    if k > 0 { HeaderOf(m, f, head, k - 1); }
  }

  lemma TakeWholeKeeps(m: seq<int>, f: seq<Chunk>, head: int, k: nat, i: nat, lo: int, hi: int)
    requires Canonical(f, lo, hi) && Spelled(m, f, head) && k < |f| && (k > 0 ==> InMemory(m, f[k - 1].addr))
    requires i < |f| && i != k && i != k - 1
    ensures HeaderIs(TakeWholeWrites(m, f, k), f[i].addr, f[i].size, AddrOf(f, i + 1))
  {
    hide Canonical, Word, Spelled;
    HeaderOf(m, f, head, i);
    if k > 0 {
      if i < k { HeadersApart(f, i, k - 1, lo, hi); } else { HeadersApart(f, k - 1, i, lo, hi); }
    }
  }

  lemma SpelledHead(m: seq<int>, f: seq<Chunk>, head: int)
    requires Spelled(m, f, head)
    ensures head == AddrOf(f, 0)
  {
  }

  lemma TakeSpelled(m: seq<int>, f: seq<Chunk>, head: int, k: nat, n: int, lo: int, hi: int)
    requires Canonical(f, lo, hi) && 0 <= lo && hi <= 4 * |m|
    requires Spelled(m, f, head) && k < |f| && 0 < n < f[k].size && n % HEADER == 0
    ensures InMemory(m, f[k].addr + n) && (k > 0 ==> InMemory(m, f[k - 1].addr))
    ensures var m' := TakeWrites(m, f, k, n);
      && Spelled(m', Take(f, k, n), if k > 0 then head else f[k].addr + n)
      && WritesIn(m, m', f)
  {
    hide Canonical, Covers, Word, Spelled, Take, TakeWrites, HeaderIs, WritesIn;
    var g := Take(f, k, n);
    TakeLinks(m, f, head, k, n, lo, hi);
    var m' := TakeWrites(m, f, k, n);
    forall i | 0 <= i < |f| && i != k && i != k - 1 ensures HeaderIs(m', f[i].addr, f[i].size, AddrOf(f, i + 1)) {
      TakeKeeps(m, f, head, k, n, i, lo, hi);
    }
    TakeElements(f, k, n);
    SpelledSplice(m, m', f, head, if k > 0 then head else g[k].addr, k, k + 1, [g[k]]);
    TakeSplits(f, k, n);
    TakeWritesIn(m, f, k, n, lo, hi);
  }

  /** The new header and the link to it. */
  lemma TakeLinks(m: seq<int>, f: seq<Chunk>, head: int, k: nat, n: int, lo: int, hi: int)
    requires Canonical(f, lo, hi) && 0 <= lo && hi <= 4 * |m|
    requires Spelled(m, f, head) && k < |f| && 0 < n < f[k].size && n % HEADER == 0
    ensures InMemory(m, f[k].addr + n) && (k > 0 ==> InMemory(m, f[k - 1].addr))
    ensures var (m', a) := (TakeWrites(m, f, k, n), f[k].addr + n);
      && |m'| == |m| && HeaderIs(m', a, f[k].size - n, AddrOf(f, k + 1))
      && (k > 0 ==> HeaderIs(m', f[k - 1].addr, f[k - 1].size, a))
  {
    hide Canonical, Word, Spelled, Take;
    var g := Take(f, k, n);
    TakeCanonical(f, k, n, lo, hi);
    TakeElements(f, k, n);
    HeaderInMemory(g, k, lo, hi, m);
    if k > 0 {
      HeaderInMemory(g, k - 1, lo, hi, m);
      HeaderOf(m, f, head, k - 1);
      HeadersApart(g, k - 1, k, lo, hi);
    }
  }

  /** The headers of the other chunks. */
  lemma TakeKeeps(m: seq<int>, f: seq<Chunk>, head: int, k: nat, n: int, i: nat, lo: int, hi: int)
    requires Canonical(f, lo, hi) && Spelled(m, f, head) && k < |f| && 0 < n < f[k].size && n % HEADER == 0
    requires InMemory(m, f[k].addr + n) && (k > 0 ==> InMemory(m, f[k - 1].addr))
    requires i < |f| && i != k && i != k - 1
    ensures HeaderIs(TakeWrites(m, f, k, n), f[i].addr, f[i].size, AddrOf(f, i + 1))
  {
    hide Canonical, Word, Spelled, Take;
    var g := Take(f, k, n);
    TakeCanonical(f, k, n, lo, hi);
    TakeElements(f, k, n);
    HeaderOf(m, f, head, i);
    if i < k { HeadersApart(g, i, k, lo, hi); } else { HeadersApart(g, k, i, lo, hi); }
    if k > 0 {
      if i < k { HeadersApart(g, i, k - 1, lo, hi); } else { HeadersApart(g, k - 1, i, lo, hi); }
    }
  }

  lemma TakeElements(f: seq<Chunk>, k: nat, n: int)
    requires k < |f| && n != f[k].size
    ensures var g := Take(f, k, n);
      |g| == |f| && g[k] == Chunk(f[k].addr + n, f[k].size - n) && (forall i :: 0 <= i < |f| && i != k ==> g[i] == f[i])
  {
  }

  lemma TakeWritesIn(m: seq<int>, f: seq<Chunk>, k: nat, n: int, lo: int, hi: int)
    requires Canonical(f, lo, hi) && k < |f| && 0 < n < f[k].size && n % HEADER == 0
    requires InMemory(m, f[k].addr + n) && (k > 0 ==> InMemory(m, f[k - 1].addr))
    ensures WritesIn(m, TakeWrites(m, f, k, n), f)
  {
    hide Canonical, Covers, Word, Take;
    var g := Take(f, k, n);
    TakeCanonical(f, k, n, lo, hi);
    TakeElements(f, k, n);
    if k > 0 { HeaderCovered(f, k - 1, lo, hi); }
    HeaderCovered(g, k, lo, hi);
    CanonicalSeparated(f, lo, hi);
    TakenCovered(f, k, n, 4 * Word(g[k].addr));
    TakenCovered(f, k, n, 4 * (Word(g[k].addr) + 1));
  }

  lemma CanonicalSeparated(f: seq<Chunk>, lo: int, hi: int)
    requires Canonical(f, lo, hi)
    ensures Separated(f)
  {
  }

  lemma TakenCovered(f: seq<Chunk>, k: nat, n: int, b: int)
    requires Separated(f) && k < |f| && 0 < n <= f[k].size && Covers(Take(f, k, n), b)
    ensures Covers(f, b)
  {
    TakeCovers(f, k, n, b);
  }

  // ----- Memory after a free -----

  /** The writes of freeing block `c`. */
  ghost function InsertWrites(m: seq<int>, f: seq<Chunk>, c: Chunk): seq<int>
    requires InMemory(m, c.addr) && (Below(f, c.addr) > 0 ==> InMemory(m, f[Below(f, c.addr) - 1].addr))
  {
    var k := Below(f, c.addr);
    var g := Grown(f, c);
    var m1 := SetNext(SetSize(m, c.addr, g.size), c.addr, AddrOf(f, MergeTo(f, c)));
    if k == 0 then m1
    else if JoinsPrev(f, c) then
      SetNext(SetSize(m1, f[k - 1].addr, f[k - 1].size + g.size), f[k - 1].addr, AddrOf(f, MergeTo(f, c)))
    else SetNext(m1, f[k - 1].addr, c.addr)
  }

  lemma BlockApart(f: seq<Chunk>, c: Chunk, i: nat, lo: int, hi: int)
    requires Freeable(f, c, lo, hi) && i < |f|
    ensures Word(f[i].addr) + 1 < Word(c.addr) || Word(c.addr) + 1 < Word(f[i].addr)
  {
    assert Disjoint(f[i], c) && f[i].size >= HEADER;
  }

  lemma InsertInMemory(m: seq<int>, f: seq<Chunk>, c: Chunk, lo: int, hi: int)
    requires Freeable(f, c, lo, hi) && 0 <= lo && hi <= 4 * |m|
    ensures InMemory(m, c.addr)
    ensures Below(f, c.addr) > 0 ==> InMemory(m, f[Below(f, c.addr) - 1].addr)
  {
    hide Below, Separated;
    var k := Below(f, c.addr);
    assert c.size >= HEADER;
    if k > 0 { HeaderInMemory(f, k - 1, lo, hi, m); }
  }

  /** The header of a chunk that the free leaves alone. */
  lemma InsertKeeps(m: seq<int>, f: seq<Chunk>, head: int, c: Chunk, i: nat, lo: int, hi: int)
    requires Freeable(f, c, lo, hi) && 0 <= lo && hi <= 4 * |m|
    requires InMemory(m, c.addr) && (Below(f, c.addr) > 0 ==> InMemory(m, f[Below(f, c.addr) - 1].addr))
    requires Spelled(m, f, head) && i < |f| && i != Below(f, c.addr) - 1
    ensures HeaderIs(InsertWrites(m, f, c), f[i].addr, f[i].size, AddrOf(f, i + 1))
  {
    hide Canonical, Apart, Word, Spelled, Below, Grown, JoinsPrev, JoinsNext;
    var k := Below(f, c.addr);
    HeaderOf(m, f, head, i);
    BlockApart(f, c, i, lo, hi);
    if k > 0 {
      if i < k - 1 { HeadersApart(f, i, k - 1, lo, hi); } else { HeadersApart(f, k - 1, i, lo, hi); }
    }
  }

  /** The headers around the freed block. */
  lemma InsertSets(m: seq<int>, f: seq<Chunk>, head: int, c: Chunk, lo: int, hi: int)
    requires Freeable(f, c, lo, hi) && 0 <= lo && hi <= 4 * |m|
    requires InMemory(m, c.addr) && (Below(f, c.addr) > 0 ==> InMemory(m, f[Below(f, c.addr) - 1].addr))
    requires Spelled(m, f, head)
    ensures var (m', g) := (InsertWrites(m, f, c), Merged(f, c));
      && |m'| == |m|
      && HeaderIs(m', g.addr, g.size, AddrOf(f, MergeTo(f, c)))
      && (Below(f, c.addr) > 0 && !JoinsPrev(f, c) ==>
            HeaderIs(m', f[Below(f, c.addr) - 1].addr, f[Below(f, c.addr) - 1].size, c.addr) && g.addr == c.addr)
  {
    hide Canonical, Apart, Word, Spelled, Below, JoinsNext;
    var k := Below(f, c.addr);
    if k > 0 {
      HeaderOf(m, f, head, k - 1);
      BlockApart(f, c, k - 1, lo, hi);
    }
  }

  lemma InsertSpelled(m: seq<int>, f: seq<Chunk>, head: int, c: Chunk, lo: int, hi: int)
    requires Freeable(f, c, lo, hi) && 0 <= lo && hi <= 4 * |m|
    requires Spelled(m, f, head)
    ensures InMemory(m, c.addr) && (Below(f, c.addr) > 0 ==> InMemory(m, f[Below(f, c.addr) - 1].addr))
    ensures var m' := InsertWrites(m, f, c);
      && Spelled(m', Insert(f, c), if Below(f, c.addr) > 0 then head else c.addr)
      && WritesIn(m, m', Insert(f, c))
  {
    hide Freeable, Canonical, HeaderIs, Spelled, Insert, InsertWrites, Below, Grown, Merged, WritesIn;
    InsertInMemory(m, f, c, lo, hi);
    var m', k, p, q := InsertWrites(m, f, c), Below(f, c.addr), MergeFrom(f, c), MergeTo(f, c);
    forall i | 0 <= i < |f| && i + 1 != k ensures HeaderIs(m', f[i].addr, f[i].size, AddrOf(f, i + 1)) {
      InsertKeeps(m, f, head, c, i, lo, hi);
    }
    InsertSets(m, f, head, c, lo, hi);
    if p > 0 && p < k { assert HeaderIs(m', f[p - 1].addr, f[p - 1].size, AddrOf(f, p)); }
    SpelledHead(m, f, head);
    InsertSplices(f, c);
    InsertMergedAddr(f, c);
    SpelledSplice(m, m', f, head, if k > 0 then head else c.addr, p, q, [Merged(f, c)]);
    InsertWritesIn(m, f, c, lo, hi);
  }

  lemma InsertMergedAddr(f: seq<Chunk>, c: Chunk)
    ensures Merged(f, c).addr == if JoinsPrev(f, c) then f[Below(f, c.addr) - 1].addr else c.addr
  {
  }

  lemma InsertWritesIn(m: seq<int>, f: seq<Chunk>, c: Chunk, lo: int, hi: int)
    requires Freeable(f, c, lo, hi)
    requires InMemory(m, c.addr) && (Below(f, c.addr) > 0 ==> InMemory(m, f[Below(f, c.addr) - 1].addr))
    ensures WritesIn(m, InsertWrites(m, f, c), Insert(f, c))
  {
    hide Covers, Insert, InsertWrites, Below, Separated, Aligned, Within, Word;
    var k := Below(f, c.addr);
    InsertWritesWhere(m, f, c);
    BlockWords(c);
    InsertCovers(f, c, c.addr);
    InsertCovers(f, c, c.addr + 4);
    if k > 0 {
      HeaderCovered(f, k - 1, lo, hi);
      InsertCovers(f, c, 4 * Word(f[k - 1].addr));
      InsertCovers(f, c, 4 * (Word(f[k - 1].addr) + 1));
    }
  }

  lemma BlockWords(c: Chunk)
    requires c.size > 0 && c.addr % HEADER == 0 && c.size % HEADER == 0
    ensures 4 * Word(c.addr) == c.addr && 4 * (Word(c.addr) + 1) == c.addr + 4
    ensures Holds(c, c.addr) && Holds(c, c.addr + 4)
  {
    hide Word;
    WordAddress(c.addr);
  }

  /** A free writes in the block's header and in the one before it only. */
  lemma InsertWritesWhere(m: seq<int>, f: seq<Chunk>, c: Chunk)
    requires InMemory(m, c.addr) && (Below(f, c.addr) > 0 ==> InMemory(m, f[Below(f, c.addr) - 1].addr))
    ensures var (m', k) := (InsertWrites(m, f, c), Below(f, c.addr));
      && |m'| == |m|
      && forall w :: 0 <= w < |m| && m[w] != m'[w] ==>
           w == Word(c.addr) || w == Word(c.addr) + 1 || (k > 0 && (w == Word(f[k - 1].addr) || w == Word(f[k - 1].addr) + 1))
  {
    hide Word, Below, Grown, MergeTo, JoinsPrev;
  }
}
