// The power accounting of the allocator, as arithmetic on free lists: how many
// bytes of a memory bank lie in the body of a free chunk, that is, in a free
// chunk but not in its header.
module BankCounts {
  import opened FreeList

  /** Start of bank `k`, relative to the first bank. */
  ghost function BankBase(k: nat, bankSize: int): int {
    if k == 0 then 0 else BankBase(k - 1, bankSize) + bankSize
  }

  /** Bytes that [a, a + n) and [s, s + w) share. */
  ghost function Overlap(a: int, n: int, s: int, w: int): int {
    var from := if a < s then s else a;
    var to := if a + n < s + w then a + n else s + w;
    if from < to then to - from else 0
  }

  ghost predicate InBody(c: Chunk, b: int) {
    c.addr + HEADER <= b < c.addr + c.size
  }

  ghost predicate CoversBody(f: seq<Chunk>, b: int) {
    exists i :: 0 <= i < |f| && InBody(f[i], b)
  }

  ghost function BodyOf(c: Chunk, s: int, w: int): int {
    Overlap(c.addr + HEADER, c.size - HEADER, s, w)
  }

  /** Free bytes in the window [s, s + w) less the header bytes in it. */
  ghost function BodyIn(f: seq<Chunk>, s: int, w: int): int {
    if f == [] then 0 else BodyOf(f[0], s, w) + BodyIn(f[1..], s, w)
  }

  lemma {:induction false} BankBaseMonotone(j: nat, k: nat, bankSize: int)
    requires j < k && bankSize > 0
    ensures BankBase(j, bankSize) + bankSize <= BankBase(k, bankSize)
  {
    if j < k - 1 {
      BankBaseMonotone(j, k - 1, bankSize);
    }
  }

  lemma {:induction false} BankBaseAt(k: nat, bankSize: int)
    ensures BankBase(k, bankSize) == k * bankSize
  {
    if k > 0 {
      BankBaseAt(k - 1, bankSize);
    }
  }

  lemma {:induction false} BodyConcat(f: seq<Chunk>, g: seq<Chunk>, s: int, w: int)
    ensures BodyIn(f + g, s, w) == BodyIn(f, s, w) + BodyIn(g, s, w)
  {
    hide BodyOf;
    if f == [] {
      assert f + g == g;
    } else {
      BodyConcat(f[1..], g, s, w);
      assert (f + g)[1..] == f[1..] + g;
    }
  }

  lemma BodyNone(s: int, w: int)
    ensures BodyIn([], s, w) == 0
  {
  }

  lemma BodyOne(c: Chunk, s: int, w: int)
    ensures BodyIn([c], s, w) == BodyOf(c, s, w)
  {
    hide BodyOf;
    assert [c][1..] == [];
  }

  lemma BodySplice(f: seq<Chunk>, c: Chunk, g: seq<Chunk>, s: int, w: int)
    ensures BodyIn(f + [c] + g, s, w) == BodyIn(f, s, w) + BodyOf(c, s, w) + BodyIn(g, s, w)
  {
    hide BodyOf;
    BodyConcat(f + [c], g, s, w);
    BodyConcat(f, [c], s, w);
    BodyOne(c, s, w);
  }

  // ----- The accounting calls of an allocation and of a free are exact -----

  /** Bytes an allocation of `n` bytes from chunk `c` accounts as used. */
  ghost function AllocCharge(c: Chunk, n: int, s: int, w: int): int {
    Overlap(c.addr + HEADER, n - HEADER, s, w) + (if c.size == n then 0 else Overlap(c.addr + n, HEADER, s, w))
  }

  lemma TakeBody(f: seq<Chunk>, k: nat, n: int, s: int, w: int)
    requires k < |f| && HEADER <= n && w >= 0 && (f[k].size == n || n + HEADER <= f[k].size)
    ensures BodyIn(Take(f, k, n), s, w) == BodyIn(f, s, w) - AllocCharge(f[k], n, s, w)
  {
    var c := Chunk(f[k].addr + n, f[k].size - n);
    TakeSplits(f, k, n);
    BodySplice(f[..k], f[k], f[k + 1..], s, w);
    if f[k].size == n {
      BodyConcat(f[..k], f[k + 1..], s, w);
    } else {
      BodySplice(f[..k], c, f[k + 1..], s, w);
      assert BodyOf(c, s, w) == BodyOf(f[k], s, w) - AllocCharge(f[k], n, s, w);
    }
  }

  /** Bytes that freeing block `c` accounts as free again. */
  ghost function FreeCharge(f: seq<Chunk>, c: Chunk, s: int, w: int): int {
    (if JoinsNext(f, c) then Overlap(f[Below(f, c.addr)].addr, HEADER, s, w) else 0)
    + (if JoinsPrev(f, c) then Overlap(c.addr, c.size, s, w) else Overlap(c.addr + HEADER, c.size - HEADER, s, w))
  }

  lemma InsertBody(f: seq<Chunk>, c: Chunk, s: int, w: int)
    requires c.size >= HEADER && w >= 0 && (forall i :: 0 <= i < |f| ==> f[i].size >= HEADER)
    ensures BodyIn(Insert(f, c), s, w) == BodyIn(f, s, w) + FreeCharge(f, c, s, w)
  {
    hide BodyOf, BodyIn, FreeCharge, Merged, Insert, Below;
    var p, q := MergeFrom(f, c), MergeTo(f, c);
    InsertSplices(f, c);
    BodySplice(f[..p], Merged(f, c), f[q..], s, w);
    assert f == f[..p] + (f[p..q] + f[q..]);
    BodyConcat(f[..p], f[p..q] + f[q..], s, w);
    BodyConcat(f[p..q], f[q..], s, w);
    MergedBody(f, c, s, w);
  }

  lemma MergedBody(f: seq<Chunk>, c: Chunk, s: int, w: int)
    requires c.size >= HEADER && w >= 0 && (forall i :: 0 <= i < |f| ==> f[i].size >= HEADER)
    ensures BodyOf(Merged(f, c), s, w) ==
      BodyIn(f[MergeFrom(f, c)..MergeTo(f, c)], s, w) + FreeCharge(f, c, s, w)
  {
    hide Overlap, Below, BodyIn;
    var k := Below(f, c.addr);
    MergedSlice(f, c, s, w);
    if JoinsNext(f, c) {
      OverlapAdd(c.addr + HEADER, c.size - HEADER, HEADER, s, w);
      OverlapAdd(c.addr + HEADER, c.size, f[k].size - HEADER, s, w);
    }
    if JoinsPrev(f, c) {
      var a := f[k - 1].addr;
      OverlapAdd(a + HEADER, f[k - 1].size - HEADER, c.size, s, w);
      if JoinsNext(f, c) {
        OverlapAdd(a + HEADER, f[k - 1].size - HEADER + c.size, HEADER, s, w);
        OverlapAdd(a + HEADER, f[k - 1].size + c.size, f[k].size - HEADER, s, w);
      }
    }
  }

  lemma OverlapAdd(a: int, n: int, m: int, s: int, w: int)
    requires n >= 0 && m >= 0 && w >= 0
    ensures Overlap(a, n + m, s, w) == Overlap(a, n, s, w) + Overlap(a + n, m, s, w)
  {
  }

  lemma MergedSlice(f: seq<Chunk>, c: Chunk, s: int, w: int)
    ensures var k := Below(f, c.addr);
      BodyIn(f[MergeFrom(f, c)..MergeTo(f, c)], s, w) ==
        (if JoinsPrev(f, c) then BodyOf(f[k - 1], s, w) else 0) + (if JoinsNext(f, c) then BodyOf(f[k], s, w) else 0)
  {
    hide BodyOf, Below, BodyIn;
    var k, p, q := Below(f, c.addr), MergeFrom(f, c), MergeTo(f, c);
    MergeSlices(f, c);
    BodyNone(s, w);
    if p < k { BodyOne(f[k - 1], s, w); }
    if k < q { BodyOne(f[k], s, w); }
    BodyConcat(f[p..k], f[k..q], s, w);
  }

  // ----- Bounds: a full counter means a bank of free body bytes only -----

  lemma {:induction false} BodyNonNegative(f: seq<Chunk>, s: int, w: int)
    ensures BodyIn(f, s, w) >= 0
  {
    if f != [] {
      BodyNonNegative(f[1..], s, w);
    }
  }

  /** The bodies of a list that starts at or after `a` fit in the window past `a`. */
  lemma {:induction false} BodyBound(f: seq<Chunk>, s: int, w: int)
    requires Separated(f) && (forall i :: 0 <= i < |f| ==> f[i].size >= HEADER) && w >= 0
    ensures BodyIn(f, s, w) <= w
    ensures f != [] ==> BodyIn(f, s, w) <= Overlap(f[0].addr, f[|f| - 1].addr + f[|f| - 1].size - f[0].addr, s, w)
  {
    if |f| == 1 {
      BodyOne(f[0], s, w);
      assert f == [f[0]];
    } else if |f| > 1 {
      BodyBound(f[1..], s, w);
      assert f[1..][|f| - 2] == f[|f| - 1];
    }
  }

  /** A byte of the window outside every body leaves room in the count. */
  lemma {:induction false} BodySplit(f: seq<Chunk>, s: int, w: int, b: int)
    requires s <= b < s + w && !CoversBody(f, b) && (forall i :: 0 <= i < |f| ==> f[i].size >= HEADER)
    ensures BodyIn(f, s, w) == BodyIn(f, s, b - s) + BodyIn(f, b + 1, s + w - b - 1)
  {
    if f != [] {
      assert !InBody(f[0], b);
      forall i | 0 <= i < |f[1..]| ensures !InBody(f[1..][i], b) { assert !InBody(f[i + 1], b); }
      BodySplit(f[1..], s, w, b);
    }
  }

  /** The count of a window is its width exactly when every byte is a body byte. */
  lemma FullWindow(f: seq<Chunk>, s: int, w: int, b: int)
    requires Separated(f) && (forall i :: 0 <= i < |f| ==> f[i].size >= HEADER)
    requires BodyIn(f, s, w) == w && s <= b < s + w
    ensures CoversBody(f, b)
  {
    if !CoversBody(f, b) {
      BodySplit(f, s, w, b);
      BodyBound(f, s, b - s);
      BodyBound(f, b + 1, s + w - b - 1);
    }
  }

  /** And conversely: a bank of body bytes only has a full count. */
  lemma {:induction false} WindowFull(f: seq<Chunk>, s: int, w: nat)
    requires forall b :: s <= b < s + w ==> CoversBody(f, b)
    requires Separated(f) && (forall i :: 0 <= i < |f| ==> f[i].size >= HEADER)
    ensures BodyIn(f, s, w) == w
    decreases w
  {
    if w == 0 {
      BodyBound(f, s, w);
      BodyNonNegative(f, s, w);
    } else {
      WindowFull(f, s, w - 1);
      OneByte(f, s + w - 1);
      WindowAdd(f, s, w - 1, 1);
    }
  }

  lemma {:induction false} WindowAdd(f: seq<Chunk>, s: int, v: nat, w: nat)
    requires forall i :: 0 <= i < |f| ==> f[i].size >= HEADER
    ensures BodyIn(f, s, v + w) == BodyIn(f, s, v) + BodyIn(f, s + v, w)
  {
    if f != [] {
      WindowAdd(f[1..], s, v, w);
    }
  }

  lemma {:induction false} OneByte(f: seq<Chunk>, b: int)
    requires CoversBody(f, b) && Separated(f) && (forall i :: 0 <= i < |f| ==> f[i].size >= HEADER)
    ensures BodyIn(f, b, 1) == 1
  {
    BodyBound(f, b, 1);
    var i :| 0 <= i < |f| && InBody(f[i], b);
    assert f == f[..i] + [f[i]] + f[i + 1..];
    BodySplice(f[..i], f[i], f[i + 1..], b, 1);
    BodyNonNegative(f[..i], b, 1);
    BodyNonNegative(f[i + 1..], b, 1);
  }

  // ----- Windows around one byte -----

  /** No byte of a header is a body byte. */
  lemma HeaderNoBody(f: seq<Chunk>, j: nat, x: int)
    requires Separated(f) && (forall i :: 0 <= i < |f| ==> f[i].size >= HEADER)
    requires j < |f| && f[j].addr <= x < f[j].addr + HEADER
    ensures !CoversBody(f, x)
  {
    forall i | 0 <= i < |f| ensures !InBody(f[i], x) {
      if i < j { assert f[i].addr + f[i].size < f[j].addr; }
      if j < i { assert f[j].addr + f[j].size < f[i].addr; }
    }
  }

  /** Nor of a block apart from the chunks. */
  lemma BlockNoBody(f: seq<Chunk>, c: Chunk, x: int)
    requires Apart(f, c) && Holds(c, x)
    ensures !CoversBody(f, x)
  {
    forall i | 0 <= i < |f| ensures !InBody(f[i], x) {
      assert Disjoint(f[i], c);
    }
  }

  /** Nor is the byte after a chunk. */
  lemma EndNoBody(f: seq<Chunk>, j: nat)
    requires Separated(f) && j < |f|
    ensures !CoversBody(f, f[j].addr + f[j].size)
  {
    forall i | 0 <= i < |f| ensures !InBody(f[i], f[j].addr + f[j].size) {
      if i < j { assert f[i].addr + f[i].size < f[j].addr; }
      if j < i { assert f[j].addr + f[j].size < f[i].addr; }
    }
  }

  /** A window around a body byte is full if and only if it lies in that chunk's body. */
  lemma FullAround(f: seq<Chunk>, k: nat, x: int, s: int, w: nat)
    requires Separated(f) && (forall i :: 0 <= i < |f| ==> f[i].size >= HEADER)
    requires k < |f| && InBody(f[k], x) && s <= x < s + w
    ensures BodyIn(f, s, w) == w <==> f[k].addr + HEADER <= s && s + w <= f[k].addr + f[k].size
  {
    hide CoversBody, BodyIn, Separated;
    if BodyIn(f, s, w) == w {
      var before, after := f[k].addr + HEADER - 1, f[k].addr + f[k].size;
      if s <= before {
        FullWindow(f, s, w, before);
        HeaderNoBody(f, k, before);
      }
      if after < s + w {
        FullWindow(f, s, w, after);
        EndNoBody(f, k);
      }
    }
    if f[k].addr + HEADER <= s && s + w <= f[k].addr + f[k].size {
      forall b | s <= b < s + w ensures CoversBody(f, b) { BodyCovered(f, k, b); }
      WindowFull(f, s, w);
    }
  }

  lemma BodyCovered(f: seq<Chunk>, k: nat, b: int)
    requires k < |f| && InBody(f[k], b)
    ensures CoversBody(f, b)
  {
  }
}
