// The allocator itself: chunk headers stored inside the free memory, a pointer
// to the first of them, and the per-bank power counters.
module Allocator {
  import opened Bits
  import opened FreeList
  import opened BankCounts
  import opened AlignedAlloc
  import opened Headers

  /** A call of the power controller: these banks, up or down. */
  datatype PowerRequest = PowerRequest(banks: set<nat>, up: bool)

  /** 2^32, the size of the address space. */
  const ADDRESSES := 0x1_0000_0000
  const INT_MAX := 0x7fff_ffff

  class Heap {
    /** The memory, one entry per 32-bit word: byte address a is in mem[a / 4]. */
    const mem: array<int>
    var firstFree: int

    var trackPower: bool
    const pwdCount: array<int>
    const bankSizeLog2: nat
    const firstBankAddr: int

    /** The power controller: every request so far, and the banks now off. */
    var requests: seq<PowerRequest>
    var poweredDown: set<nat>

    /** Addresses written while their bank was off. */
    ghost var dark: seq<int>

    /** The region given to the allocator, and the free chunks in it. */
    ghost var lo: int
    ghost var hi: int
    ghost var free: seq<Chunk>

    ghost function BankSize(): (b: int)
      ensures b >= 1
    {
      Pow2(bankSizeLog2)
    }

    /** Bank `k`'s free bytes less the header bytes in them. */
    ghost function Count(f: seq<Chunk>, k: nat): int {
      BodyIn(f, firstBankAddr + BankBase(k, BankSize()), BankSize())
    }

    /** Every bank counter is the count of its bank. */
    ghost predicate Counted(f: seq<Chunk>)
      reads pwdCount
    {
      forall k: nat :: k < pwdCount.Length ==> pwdCount[k] == Count(f, k)
    }

    /** The banks that are off are those whose counter is the bank size. */
    ghost predicate InStep(counts: seq<int>, down: set<nat>) {
      forall k: nat :: k in down <==> k < |counts| && counts[k] == BankSize()
    }

    ghost predicate InBanks(a: int, n: int) {
      firstBankAddr <= a && a + n <= firstBankAddr + BankBase(pwdCount.Length, BankSize())
    }

    ghost predicate RegionOk()
      reads this
    {
      && mem != pwdCount && 4 * mem.Length <= ADDRESSES
      && 0 < lo <= hi <= 4 * mem.Length && lo % HEADER == 0 && hi % HEADER == 0 && hi - lo <= INT_MAX
      && (trackPower ==> InBanks(lo, hi - lo) && BankSize() < ADDRESSES)
    }

    ghost predicate Valid()
      reads this, mem, pwdCount
    {
      && RegionOk()
      && Canonical(free, lo, hi)
      && Spelled(mem[..], free, firstFree)
      && (trackPower ==> Counted(free) && InStep(pwdCount[..], poweredDown))
    }

    // ----- Power accounting -----

    /** pos_alloc_power_ctrl. */
    method PowerCtrl(banks: set<nat>, up: bool)
      modifies this`requests, this`poweredDown
      ensures requests == old(requests) + [PowerRequest(banks, up)]
      ensures poweredDown == if up then old(poweredDown) - banks else old(poweredDown) + banks
    {
      requests := requests + [PowerRequest(banks, up)];
      poweredDown := if up then poweredDown - banks else poweredDown + banks;
    }

    /** Bytes of [a, a + n) in bank `k`. */
    ghost function Share(a: int, n: int, k: nat): int {
      Overlap(a, n, firstBankAddr + BankBase(k, BankSize()), BankSize())
    }

    /** Bank `k`'s counter once [a, a + n) is accounted in. */
    ghost function Target(was: seq<int>, a: int, n: int, factor: int, k: nat): int
      requires k < |was|
    {
      if factor == -1 then was[k] - Share(a, n, k) else was[k] + Share(a, n, k)
    }

    /** Where the loop of Account stands: banks below `bank` are done. */
    ghost predicate AccountAt(was: seq<int>, now: seq<int>, a: int, n: int, factor: int, bank: nat) {
      && |now| == |was|
      && (forall k: nat :: k < |was| && k < bank ==> now[k] == Target(was, a, n, factor, k))
      && (forall k: nat :: bank <= k < |was| ==> now[k] == was[k])
    }

    /** The banks to switch so far. */
    ghost predicate CtrlAt(was: seq<int>, a: int, n: int, factor: int, bank: nat, ctrl: set<nat>) {
      forall k: nat :: k in ctrl <==> k < bank && k < |was| && (was[k] == BankSize()) != (Target(was, a, n, factor, k) == BankSize())
    }

    /** Where the cursor of Account stands: `size` bytes of [c, c + n) to go. */
    ghost predicate CursorAt(c: int, n: int, bank: nat, addr: int, size: int, iterSize: int) {
      var at := c + n - size;
      && addr == BankBase(bank, BankSize())
      && (if size == 0 then n == 0 || c + n <= addr else
          && at == (if c < addr then addr else c) && at < addr + BankSize()
          && iterSize == (if size < addr + BankSize() - at then size else addr + BankSize() - at))
    }

    /** One more bank done. */
    lemma AccountNext(was: seq<int>, now: seq<int>, now': seq<int>, a: int, n: int, factor: int, bank: nat,
                      ctrl: set<nat>, switched: bool)
      requires AccountAt(was, now, a, n, factor, bank) && CtrlAt(was, a, n, factor, bank, ctrl)
      requires bank < |was| == |now'| && now'[bank] == Target(was, a, n, factor, bank)
      requires forall k: nat :: k < |was| && k != bank ==> now'[k] == now[k]
      requires switched <==> (now[bank] == BankSize()) != (now'[bank] == BankSize())
      ensures AccountAt(was, now', a, n, factor, bank + 1)
      ensures CtrlAt(was, a, n, factor, bank + 1, if switched then ctrl + {bank} else ctrl)
    {
      hide Target, Pow2;
    }

    /** All banks done. */
    lemma AccountDone(was: seq<int>, now: seq<int>, a: int, n: int, factor: int, bank: nat, ctrl: set<nat>)
      requires AccountAt(was, now, a, n, factor, bank) && CtrlAt(was, a, n, factor, bank, ctrl)
      requires forall k: nat :: k >= bank ==> Share(a, n, k) == 0
      ensures forall k: nat :: k < |was| ==> now[k] == Target(was, a, n, factor, k)
      ensures ctrl == Crossed(was, now)
    {
      hide Share, Pow2;
    }

    lemma IterIsShare(chunk: int, n: int, bank: nat, addr: int, size: int, iterSize: int)
      requires CursorAt(chunk - firstBankAddr, n, bank, addr, size, iterSize) && 0 < size <= n
      ensures 0 < iterSize <= size && Share(chunk, n, bank) == iterSize
      ensures var rest := size - iterSize;
        CursorAt(chunk - firstBankAddr, n, bank + 1, addr + BankSize(), rest, if BankSize() > rest then rest else BankSize())
    {
    }

    lemma LastBank(chunk: int, n: int, bank: nat, addr: int, size: int, iterSize: int)
      requires CursorAt(chunk - firstBankAddr, n, bank, addr, size, iterSize) && 0 < size <= n && InBanks(chunk, n)
      ensures bank < pwdCount.Length
    {
      if pwdCount.Length < bank { BankBaseMonotone(pwdCount.Length, bank, BankSize()); }
    }

    /** The banks whose counter reached the bank size or left it. */
    ghost function Crossed(was: seq<int>, now: seq<int>): set<nat>
      requires |was| == |now|
    {
      set k: nat | k < |was| && (was[k] == BankSize()) != (now[k] == BankSize())
    }

    /** Which bank holds the byte at `addr` past the first bank. */
    lemma BankOf(addr: int) returns (bank: nat)
      requires addr >= 0
      ensures bank == RoundDown(addr, BankSize()) / BankSize() && BankBase(bank, BankSize()) == RoundDown(addr, BankSize())
    {
      hide Pow2, BankBase, RoundDown;
      var b := BankSize();
      RoundDownIs(addr, b);
      bank := addr / b;
      BankBaseAt(bank, b);
    }

    lemma ShareBefore(a: int, n: int, bank: nat)
      requires a - firstBankAddr >= BankBase(bank, BankSize())
      ensures forall k: nat :: k < bank ==> Share(a, n, k) == 0
    {
      forall k: nat | k < bank ensures Share(a, n, k) == 0 { BankBaseMonotone(k, bank, BankSize()); }
    }

    lemma ShareAfter(a: int, n: int, bank: nat)
      requires a + n - firstBankAddr <= BankBase(bank, BankSize())
      ensures forall k: nat :: k >= bank ==> Share(a, n, k) == 0
    {
      forall k: nat | k >= bank ensures Share(a, n, k) == 0 {
        if k > bank { BankBaseMonotone(bank, k, BankSize()); }
      }
    }

    /** One bank of the loop: whether it must be switched. */
    method AccountBank(bank: nat, iterSize: int, factor: int) returns (switched: bool)
      requires factor == 1 || factor == -1
      requires bank < pwdCount.Length && 0 < iterSize && BankSize() < ADDRESSES
      requires 0 <= pwdCount[bank] <= BankSize()
      requires 0 <= (if factor == -1 then pwdCount[bank] - iterSize else pwdCount[bank] + iterSize) <= BankSize()
      modifies pwdCount
      ensures pwdCount[bank] == if factor == -1 then old(pwdCount[bank]) - iterSize else old(pwdCount[bank]) + iterSize
      ensures forall k: nat :: k < pwdCount.Length && k != bank ==> pwdCount[k] == old(pwdCount[k])
      ensures switched <==> (old(pwdCount[bank]) == BankSize()) != (pwdCount[bank] == BankSize())
    {
      hide Pow2;
      var bankSize := Pow2(bankSizeLog2);
      switched := false;
      if factor == -1 && pwdCount[bank] == bankSize {
        switched := true;
      }
      var next := pwdCount[bank] + (if factor == -1 then -iterSize else iterSize);
      pwdCount[bank] := next % ADDRESSES;
      if pwdCount[bank] == bankSize {
        switched := true;
      }
    }

    method Account(chunk: int, size0: int, factor: int)
      requires factor == 1 || factor == -1
      requires size0 >= 0 && InBanks(chunk, size0) && BankSize() < ADDRESSES
      requires forall k: nat :: k < pwdCount.Length ==> 0 <= pwdCount[k] <= BankSize()
      requires forall k: nat :: k < pwdCount.Length ==> 0 <= Target(pwdCount[..], chunk, size0, factor, k) <= BankSize()
      modifies pwdCount, this`requests, this`poweredDown
      ensures forall k: nat :: k < pwdCount.Length ==> pwdCount[k] == Target(old(pwdCount[..]), chunk, size0, factor, k)
      ensures var crossed := Crossed(old(pwdCount[..]), pwdCount[..]);
        && requests == old(requests) + (if crossed == {} then [] else [PowerRequest(crossed, factor == -1)])
        && poweredDown == if factor == -1 then old(poweredDown) - crossed else old(poweredDown) + crossed
    {
      hide Pow2, RoundDown, Overlap, BankBase;
      ghost var was := pwdCount[..];
      var size := size0;
      var bankSize := Pow2(bankSizeLog2);
      var chunkAddr := chunk - firstBankAddr;
      var addr := RoundDown(chunkAddr, bankSize);
      var iterSize := addr + bankSize - chunkAddr;
      var bank := addr / bankSize;
      var banksCtrl: set<nat> := {};

      ghost var bank0 := BankOf(chunkAddr);
      ShareBefore(chunk, size0, bank);
      if iterSize > size {
        iterSize := size;
      }

      while size != 0
        invariant 0 <= size <= size0 && bank >= 0
        invariant CursorAt(chunkAddr, size0, bank, addr, size, iterSize)
        invariant AccountAt(was, pwdCount[..], chunk, size0, factor, bank)
        invariant CtrlAt(was, chunk, size0, factor, bank, banksCtrl)
        invariant requests == old(requests) && poweredDown == old(poweredDown)
      {
        hide CursorAt, CtrlAt, Crossed;
        ghost var now := pwdCount[..];
        IterIsShare(chunk, size0, bank, addr, size, iterSize);
        LastBank(chunk, size0, bank, addr, size, iterSize);
        assert 0 <= Target(was, chunk, size0, factor, bank) <= BankSize();
        assert now[bank] == was[bank];
        var switched := AccountBank(bank, iterSize, factor);
        AccountNext(was, now, pwdCount[..], chunk, size0, factor, bank, banksCtrl, switched);
        if switched {
          banksCtrl := banksCtrl + {bank};
        }
        addr := addr + bankSize;
        size := size - iterSize;
        iterSize := bankSize;
        bank := bank + 1;
        if iterSize > size {
          iterSize := size;
        }
      }
      if size0 > 0 { ShareAfter(chunk, size0, bank); } else { NoShare(chunk); }
      AccountDone(was, pwdCount[..], chunk, size0, factor, bank, banksCtrl);
      hide CursorAt, AccountAt, CtrlAt;
      if banksCtrl != {} {
        PowerCtrl(banksCtrl, factor == -1);
      }
    }

    lemma NoShare(a: int)
      ensures forall k: nat :: Share(a, 0, k) == 0
    {
    }

    // ----- Counters follow the free list -----

    lemma CountRange(f: seq<Chunk>, k: nat)
      requires Canonical(f, lo, hi)
      ensures 0 <= Count(f, k) <= BankSize()
    {
      hide Pow2;
      AtLeastHeader(f, lo, hi);
      BodyNonNegative(f, firstBankAddr + BankBase(k, BankSize()), BankSize());
      BodyBound(f, firstBankAddr + BankBase(k, BankSize()), BankSize());
    }

    /** The account calls of an allocation bring the counts to the new list. */
    lemma CountTake(f: seq<Chunk>, i: nat, n: int, k: nat)
      requires Canonical(f, lo, hi) && i < |f| && 0 < n <= f[i].size && n % HEADER == 0
      ensures Count(Take(f, i, n), k) ==
        Count(f, k) - Share(f[i].addr + HEADER, n - HEADER, k) - (if f[i].size == n then 0 else Share(f[i].addr + n, HEADER, k))
    {
      hide Pow2, BodyIn, Overlap, BankBase, Separated;
      TakeBody(f, i, n, firstBankAddr + BankBase(k, BankSize()), BankSize());
    }

    /** And so do those of a free. */
    lemma CountInsert(f: seq<Chunk>, c: Chunk, k: nat)
      requires Freeable(f, c, lo, hi)
      ensures Count(Insert(f, c), k) == Count(f, k)
        + (if JoinsNext(f, c) then Share(f[Below(f, c.addr)].addr, HEADER, k) else 0)
        + (if JoinsPrev(f, c) then Share(c.addr, c.size, k) else Share(c.addr + HEADER, c.size - HEADER, k))
    {
      hide Pow2, BodyIn, Overlap, BankBase, Separated, Insert, Below;
      AtLeastHeader(f, lo, hi);
      InsertBody(f, c, firstBankAddr + BankBase(k, BankSize()), BankSize());
    }

    lemma ShareNonNegative(a: int, n: int)
      ensures forall k: nat :: Share(a, n, k) >= 0
    {
    }

    /** The requests of a call: every one goes in direction `up` and names only banks that
        the call has switched that way, and no other bank has been switched.  Without
        tracking there is none. */
    ghost predicate Requested(before: seq<PowerRequest>, after: seq<PowerRequest>, down: set<nat>, now: set<nat>, up: bool)
      reads this`trackPower
    {
      && before <= after && (!trackPower ==> after == before && now == down)
      && (if up then now <= down else down <= now)
      && (forall i :: |before| <= i < |after| ==>
            && after[i].up == up && after[i].banks != {}
            && after[i].banks <= if up then down - now else now - down)
      && (forall k :: k in (if up then down - now else now - down) ==> NamedIn(after[|before|..], k))
    }

    /** Bank `k` is in one of the requests. */
    ghost predicate NamedIn(r: seq<PowerRequest>, k: nat) {
      exists i :: 0 <= i < |r| && k in r[i].banks
    }

    lemma NamedInConcat(a: seq<PowerRequest>, b: seq<PowerRequest>, k: nat)
      ensures NamedIn(a + b, k) <==> NamedIn(a, k) || NamedIn(b, k)
    {
      if NamedIn(a, k) {
        var i :| 0 <= i < |a| && k in a[i].banks;
        assert (a + b)[i] == a[i];
      }
      if NamedIn(b, k) {
        var i :| 0 <= i < |b| && k in b[i].banks;
        assert (a + b)[|a| + i] == b[i];
      }
    }

    lemma RequestedNone(r: seq<PowerRequest>, down: set<nat>, up: bool)
      ensures Requested(r, r, down, down, up)
    {
    }

    /** Two calls in the same direction. */
    lemma RequestedTwice(r0: seq<PowerRequest>, r1: seq<PowerRequest>, r2: seq<PowerRequest>,
                         d0: set<nat>, d1: set<nat>, d2: set<nat>, up: bool)
      requires Requested(r0, r1, d0, d1, up) && Requested(r1, r2, d1, d2, up)
      ensures Requested(r0, r2, d0, d2, up)
    {
      hide NamedIn;
      assert r2[|r0|..] == r1[|r0|..] + r2[|r1|..];
      forall k ensures NamedIn(r2[|r0|..], k) <==> NamedIn(r1[|r0|..], k) || NamedIn(r2[|r1|..], k) {
        NamedInConcat(r1[|r0|..], r2[|r1|..], k);
      }
      forall i | |r0| <= i < |r2|
        ensures r2[i].up == up && r2[i].banks != {} && r2[i].banks <= if up then d0 - d2 else d2 - d0
      {
        if i < |r1| { assert r2[i] == r1[i]; }
      }
    }

    /** Requesting exactly the banks that crossed keeps the controller in step. */
    lemma StepKept(was: seq<int>, now: seq<int>, down: set<nat>, up: bool)
      requires |was| == |now| && InStep(was, down)
      requires forall k: nat :: k < |was| ==> was[k] <= BankSize() && now[k] <= BankSize()
      requires forall k: nat :: k < |was| ==> if up then now[k] <= was[k] else was[k] <= now[k]
      ensures InStep(now, if up then down - Crossed(was, now) else down + Crossed(was, now))
      ensures if up then Crossed(was, now) <= down else Crossed(was, now) !! down
    {
    }

    /** One request, or none, for the banks that crossed. */
    lemma StepRequested(before: seq<PowerRequest>, after: seq<PowerRequest>, crossed: set<nat>, down: set<nat>, up: bool)
      requires trackPower && after == before + (if crossed == {} then [] else [PowerRequest(crossed, up)])
      requires if up then crossed <= down else crossed !! down
      ensures Requested(before, after, down, if up then down - crossed else down + crossed, up)
    {
      assert after[|before|..] == if crossed == {} then [] else [PowerRequest(crossed, up)];
      forall k | k in crossed ensures NamedIn(after[|before|..], k) {
        assert k in after[|before|..][0].banks;
      }
    }

    method AccountAlloc(chunk: int, size: int)
      requires trackPower ==> size >= 0 && InBanks(chunk, size) && BankSize() < ADDRESSES
      requires trackPower ==> forall k: nat :: k < pwdCount.Length ==> Share(chunk, size, k) <= pwdCount[k] <= BankSize()
      modifies pwdCount, this`requests, this`poweredDown
      ensures trackPower ==> forall k: nat :: k < pwdCount.Length ==> pwdCount[k] == old(pwdCount[k]) - Share(chunk, size, k)
      ensures trackPower && InStep(old(pwdCount[..]), old(poweredDown)) ==> InStep(pwdCount[..], poweredDown)
      ensures (trackPower ==> InStep(old(pwdCount[..]), old(poweredDown))) ==>
        Requested(old(requests), requests, old(poweredDown), poweredDown, true)
      ensures !trackPower ==> unchanged(pwdCount) && requests == old(requests) && poweredDown == old(poweredDown)
    {
      hide Pow2, Overlap, BankBase, Share, Crossed, Requested;
      RequestedNone(requests, poweredDown, true);
      if trackPower {
        ghost var was, down := pwdCount[..], poweredDown;
        ShareNonNegative(chunk, size);
        Account(chunk, size, -1);
        assert forall k: nat :: k < pwdCount.Length ==> pwdCount[k] == Target(was, chunk, size, -1, k);
        if InStep(was, down) {
          StepKept(was, pwdCount[..], down, true);
          ghost var crossed := Crossed(was, pwdCount[..]);
          StepRequested(old(requests), requests, crossed, down, true);
        }
      }
    }

    method AccountFree(chunk: int, size: int)
      requires trackPower ==> size >= 0 && InBanks(chunk, size) && BankSize() < ADDRESSES
      requires trackPower ==> forall k: nat :: k < pwdCount.Length ==> 0 <= pwdCount[k] <= BankSize() - Share(chunk, size, k)
      modifies pwdCount, this`requests, this`poweredDown
      ensures trackPower ==> forall k: nat :: k < pwdCount.Length ==> pwdCount[k] == old(pwdCount[k]) + Share(chunk, size, k)
      ensures trackPower && InStep(old(pwdCount[..]), old(poweredDown)) ==> InStep(pwdCount[..], poweredDown)
      ensures (trackPower ==> InStep(old(pwdCount[..]), old(poweredDown))) ==>
        Requested(old(requests), requests, old(poweredDown), poweredDown, false)
      ensures !trackPower ==> unchanged(pwdCount) && requests == old(requests) && poweredDown == old(poweredDown)
    {
      hide Pow2, Overlap, BankBase, Share, Crossed, Requested;
      RequestedNone(requests, poweredDown, false);
      if trackPower {
        ghost var was, down := pwdCount[..], poweredDown;
        ShareNonNegative(chunk, size);
        Account(chunk, size, 1);
        assert forall k: nat :: k < pwdCount.Length ==> pwdCount[k] == Target(was, chunk, size, 1, k);
        if InStep(was, down) {
          StepKept(was, pwdCount[..], down, false);
          ghost var crossed := Crossed(was, pwdCount[..]);
          StepRequested(old(requests), requests, crossed, down, false);
        }
      }
    }

    // ----- Writes into banks that are off -----

    ghost predicate InBank(x: int, k: nat) {
      var s := firstBankAddr + BankBase(k, BankSize());
      s <= x < s + BankSize()
    }

    ghost predicate Off(x: int)
      reads this`poweredDown
    {
      exists k: nat :: k in poweredDown && InBank(x, k)
    }

    /** What a write to `x` adds to the writes into banks that are off. */
    ghost function Unpowered(x: int): seq<int>
      reads this`poweredDown, this`trackPower
    {
      if trackPower && Off(x) then [x] else []
    }

    /** Only bytes behind the headers of free chunks are in banks that are off. */
    lemma OffIsBody(f: seq<Chunk>, x: int)
      requires Canonical(f, lo, hi) && PowerOk(f) && trackPower && Off(x)
      ensures CoversBody(f, x)
    {
      hide Pow2, BankBase, BodyIn, Separated, CoversBody;
      var k: nat :| k in poweredDown && InBank(x, k);
      assert pwdCount[..][k] == Count(f, k);
      AtLeastHeader(f, lo, hi);
      FullWindow(f, firstBankAddr + BankBase(k, BankSize()), BankSize(), x);
    }

    /** So a header that is there is in banks that are on. */
    lemma OnHeader(f: seq<Chunk>, j: nat, x: int)
      requires Canonical(f, lo, hi) && PowerOk(f) && j < |f| && f[j].addr <= x < f[j].addr + HEADER
      ensures Unpowered(x) == []
    {
      hide PowerOk, CoversBody, Off;
      AtLeastHeader(f, lo, hi);
      HeaderNoBody(f, j, x);
      if trackPower && Off(x) { OffIsBody(f, x); }
    }

    /** And so is a block that is to be freed. */
    lemma OnBlock(f: seq<Chunk>, c: Chunk, x: int)
      requires Freeable(f, c, lo, hi) && PowerOk(f) && Holds(c, x)
      ensures Unpowered(x) == []
    {
      hide PowerOk, Off, Separated, Aligned, Within, CoversBody;
      BlockNoBody(f, c, x);
      if trackPower && Off(x) { OffIsBody(f, x); }
    }

    /** Main result on power: a byte of a free chunk's body, such as one of a new header there,
        is in a bank that is off if and only if the bank lies in that chunk's body. */
    lemma NewHeaderOffIff(f: seq<Chunk>, k: nat, x: int, b: nat)
      requires RegionOk() && Canonical(f, lo, hi) && PowerOk(f) && trackPower
      requires k < |f| && f[k].addr + HEADER <= x < f[k].addr + f[k].size && InBank(x, b)
      ensures var s := firstBankAddr + BankBase(b, BankSize());
        Off(x) <==> f[k].addr + HEADER <= s && s + BankSize() <= f[k].addr + f[k].size
    {
      hide Pow2, BodyIn, Separated, BankBase;
      var s := firstBankAddr + BankBase(b, BankSize());
      AtLeastHeader(f, lo, hi);
      FullAround(f, k, x, s, BankSize());
      if b >= pwdCount.Length { BankAfter(b); }
      assert pwdCount[..][b] == Count(f, b);
      forall j: nat | InBank(x, j) ensures j == b { SameBank(x, j, b); }
    }

    lemma BankAfter(b: nat)
      requires b >= pwdCount.Length
      ensures BankBase(pwdCount.Length, BankSize()) <= BankBase(b, BankSize())
    {
      if b > pwdCount.Length { BankBaseMonotone(pwdCount.Length, b, BankSize()); }
    }

    lemma SameBank(x: int, j: nat, k: nat)
      requires InBank(x, j) && InBank(x, k)
      ensures j == k
    {
      hide BankBase, Pow2;
      if j < k { BankBaseMonotone(j, k, BankSize()); }
      if k < j { BankBaseMonotone(k, j, BankSize()); }
    }

    /** The writes of an allocation into banks that are off: of the new header only. */
    ghost function AllocDark(f: seq<Chunk>, size: int): seq<int>
      reads this`poweredDown, this`trackPower
    {
      var n := AlignUp(size);
      var k := FirstFit(f, n);
      if k < |f| && f[k].size != n then Unpowered(f[k].addr + n) + Unpowered(f[k].addr + n + 4) else []
    }

    // ----- The operations -----

    constructor (memory: array<int>, counters: array<int>, log2: nat, bankAddr: int)
      ensures mem == memory && pwdCount == counters && bankSizeLog2 == log2 && firstBankAddr == bankAddr
      ensures requests == [] && poweredDown == {} && dark == [] && !trackPower
    {
      mem, pwdCount, bankSizeLog2, firstBankAddr := memory, counters, log2, bankAddr;
      firstFree, trackPower, requests, poweredDown := 0, false, [], {};
      dark, lo, hi, free := [], 0, 0, [];
    }

    /** pos_alloc_init. A region of less than 8 aligned bytes leaves no usable
        list: an empty chunk, or a pointer to a header that was never written. */
    method Init(chunk0: int, size0: int)
      requires mem != pwdCount && 4 * mem.Length <= ADDRESSES && 0 < chunk0 && size0 <= INT_MAX
      requires chunk0 + size0 <= 4 * mem.Length && AlignUp(chunk0) + HEADER <= 4 * mem.Length
      modifies this, mem
      ensures var chunk := AlignUp(chunk0);
        var size := size0 - (chunk - chunk0);
        && firstFree == chunk && !trackPower
        && (size >= HEADER ==>
              (Valid() && free == [Chunk(chunk, AlignDown(size))] && lo == chunk && hi == chunk + AlignDown(size)))
        && (0 < size ==> HeaderIs(mem[..], chunk, AlignDown(size), 0))
        && (size <= 0 ==> mem[..] == old(mem[..]))
      ensures requests == old(requests) && poweredDown == old(poweredDown) && dark == old(dark)
    {
      hide AlignUp, AlignDown, Word, InBanks, Counted, InStep, Pow2;
      WordInside(AlignUp(chunk0), mem.Length);
      var chunk := AlignUp(chunk0);
      trackPower := false;
      firstFree := chunk;
      var size := size0 - (chunk - chunk0);
      if size > 0 {
        mem[Word(chunk)] := AlignDown(size);
        mem[Word(chunk) + 1] := 0;
      }
      lo, hi, free := chunk, chunk + AlignDown(size), [Chunk(chunk, AlignDown(size))];
      if size >= HEADER { OneChunk(mem[..], chunk, AlignDown(size)); }
      hide Canonical, Spelled;
    }

    lemma OneChunk(m: seq<int>, addr: int, size: int)
      requires HeaderIs(m, addr, size, 0) && addr % HEADER == 0 && size % HEADER == 0 && size > 0
      ensures Canonical([Chunk(addr, size)], addr, addr + size) && Spelled(m, [Chunk(addr, size)], addr)
    {
    }

    lemma WordInside(a: int, words: nat)
      requires a % HEADER == 0 && 0 <= a && a + HEADER <= 4 * words
      ensures 0 <= Word(a) && Word(a) + 1 < words
    {
      WordAddress(a);
    }

    /** What it takes to turn power tracking on: every counter at the free bytes of its bank
        less its headers, and the full banks off.  Each chunk's body is accounted as free. */
    method BeginTracking()
      requires Valid() && !trackPower && InBanks(lo, hi - lo) && BankSize() < ADDRESSES
      modifies this`trackPower, this`requests, this`poweredDown, pwdCount
      ensures Valid() && trackPower
      ensures Requested(old(requests), requests, {}, poweredDown, false)
    {
      hide Canonical, Spelled, InBanks, InStep, Pow2, BankBase, Requested;
      trackPower := true;
      poweredDown := {};
      ZeroCounters();
      RequestedNone(requests, {}, false);
      var pt := firstFree;
      ghost var i := 0;
      assert free[..0] == [];
      SpelledHead(mem[..], free, firstFree);
      CountedNone();
      while pt != 0
        invariant RegionOk() && Canonical(free, lo, hi) && Spelled(mem[..], free, firstFree) && trackPower
        invariant 0 <= i <= |free| && pt == AddrOf(free, i)
        invariant Counted(free[..i]) && InStep(pwdCount[..], poweredDown)
        invariant Requested(old(requests), requests, {}, poweredDown, false)
        decreases |free| - i
      {
        HeaderOf(mem[..], free, firstFree, i);
        ghost var r, d := requests, poweredDown;
        TrackChunk(pt, mem[Word(pt)], i);
        RequestedTwice(old(requests), r, requests, {}, d, poweredDown, false);
        i := i + 1;
        pt := mem[Word(pt) + 1];
      }
      AllSeen(i);
      assert free[..i] == free;
    }

    lemma AllSeen(i: nat)
      requires RegionOk() && Canonical(free, lo, hi) && i <= |free| && AddrOf(free, i) == 0
      ensures i == |free|
    {
      NonNull(free, i);
    }

    method ZeroCounters()
      modifies pwdCount
      ensures forall k :: 0 <= k < pwdCount.Length ==> pwdCount[k] == 0
    {
      for k := 0 to pwdCount.Length
        invariant forall j :: 0 <= j < k ==> pwdCount[j] == 0
      {
        pwdCount[k] := 0;
      }
    }

    lemma CountedNone()
      requires (forall k :: 0 <= k < pwdCount.Length ==> pwdCount[k] == 0) && poweredDown == {}
      ensures Counted([]) && InStep(pwdCount[..], poweredDown)
    {
      hide Pow2;
    }

    /** One more chunk accounted. */
    method TrackChunk(pt: int, size: int, ghost i: nat)
      requires RegionOk() && Canonical(free, lo, hi) && trackPower && InStep(pwdCount[..], poweredDown)
      requires i < |free| && pt == free[i].addr && size == free[i].size && Counted(free[..i])
      modifies this`requests, this`poweredDown, pwdCount
      ensures Counted(free[..i + 1]) && InStep(pwdCount[..], poweredDown)
      ensures Requested(old(requests), requests, old(poweredDown), poweredDown, false)
    {
      hide InBanks, Share, Canonical, InStep, Pow2, Count, Requested;
      forall k: nat
        ensures Count(free[..i + 1], k) == Count(free[..i], k) + Share(pt + HEADER, size - HEADER, k)
        ensures 0 <= Count(free[..i], k) && Count(free[..i + 1], k) <= BankSize()
      {
        CountNext(i, k);
      }
      WholeIsChunk(free, i);
      AllInBanks(free, i, HEADER, size - HEADER);
      AccountFree(pt + HEADER, size - HEADER);
    }

    lemma CountNext(i: nat, k: nat)
      requires RegionOk() && Canonical(free, lo, hi) && i < |free|
      ensures Count(free[..i + 1], k) == Count(free[..i], k) + Share(free[i].addr + HEADER, free[i].size - HEADER, k)
      ensures 0 <= Count(free[..i], k) && Count(free[..i + 1], k) <= BankSize()
    {
      hide Pow2, BodyIn, BankBase, Overlap;
      var s := firstBankAddr + BankBase(k, BankSize());
      assert free[..i + 1] == free[..i] + [free[i]];
      BodyConcat(free[..i], [free[i]], s, BankSize());
      BodyOne(free[i], s, BankSize());
      BodyNonNegative(free[..i], s, BankSize());
      PrefixCanonical(i + 1);
      CountRange(free[..i + 1], k);
    }

    lemma PrefixCanonical(i: nat)
      requires Canonical(free, lo, hi) && i <= |free|
      ensures Canonical(free[..i], lo, hi)
    {
    }

    /** pos_alloc_info. */
    method Info() returns (size: int, firstChunk: int, nbChunks: int)
      requires Valid()
      ensures size == Total(free) && firstChunk == AddrOf(free, 0) && nbChunks == |free|
    {
      firstChunk := firstFree;
      size, nbChunks := 0, 0;
      var pt := firstFree;
      while pt != 0
        invariant 0 <= nbChunks <= |free| && pt == AddrOf(free, nbChunks) && size == Total(free[..nbChunks])
        decreases |free| - nbChunks
      {
        HeaderOf(mem[..], free, firstFree, nbChunks);
        TotalStep(free, nbChunks);
        size := size + mem[Word(pt)];
        nbChunks := nbChunks + 1;
        pt := mem[Word(pt) + 1];
      }
      assert free[..|free|] == free;
    }

    lemma TotalStep(f: seq<Chunk>, k: nat)
      requires k < |f|
      ensures Total(f[..k + 1]) == Total(f[..k]) + f[k].size
    {
      assert f[..k + 1] == f[..k] + [f[k]];
      TotalConcat(f[..k], [f[k]]);
    }

    /** The loop of pos_alloc: the first chunk with `size` bytes, and its predecessor. */
    method FindFit(size: int) returns (pt: int, prev: int, ghost k: nat)
      requires Valid()
      ensures pt == AddrOf(free, FirstFit(free, size)) && prev == AddrOf(free, FirstFit(free, size) - 1)
      ensures k == FirstFit(free, size)
      ensures pt != 0 <==> k < |free|
    {
      hide Canonical, Spelled, InStep, Counted, InBanks, FirstFit;
      pt, prev, k := firstFree, 0, 0;
      SpelledHead(mem[..], free, firstFree);
      NonNull(free, 0);
      if |free| > 0 { HeaderOf(mem[..], free, firstFree, 0); }
      while pt != 0 && mem[Word(pt)] < size
        invariant k <= |free| && pt == AddrOf(free, k) && prev == AddrOf(free, k - 1)
        invariant forall i :: 0 <= i < k ==> free[i].size < size
        invariant pt != 0 <==> k < |free|
        invariant k < |free| ==> HeaderIs(mem[..], free[k].addr, free[k].size, AddrOf(free, k + 1))
        decreases |free| - k
      {
        prev := pt;
        pt := mem[Word(pt) + 1];
        k := k + 1;
        NonNull(free, k);
        if k < |free| { HeaderOf(mem[..], free, firstFree, k); }
      }
      FirstFitIs(free, size, k);
    }

    lemma NonNull(f: seq<Chunk>, k: nat)
      requires Canonical(f, lo, hi) && 0 < lo && k <= |f|
      ensures AddrOf(f, k) != 0 <==> k < |f|
      ensures k < |f| && 4 * mem.Length >= hi ==> InMemory(mem[..], f[k].addr)
    {
      if k < |f| { AtLeastHeader(f, lo, hi); }
    }

    lemma FirstFitIs(f: seq<Chunk>, size: int, k: nat)
      requires k <= |f| && (forall i :: 0 <= i < k ==> f[i].size < size) && (k < |f| ==> f[k].size >= size)
      ensures k == FirstFit(f, size)
    {
    }

    /** pos_alloc. */
    method Alloc(size0: int) returns (result: int)
      requires Valid() && 0 < size0 <= INT_MAX - 7
      modifies this, mem, pwdCount
      ensures Valid() && lo == old(lo) && hi == old(hi) && trackPower == old(trackPower)
      ensures match AllocSpec(old(free), size0)
        case Failed => result == 0 && free == old(free) && unchanged(this, mem, pwdCount)
        case Got(addr, rest) => result == addr && free == rest
      ensures result != 0 ==> LowestFit(old(free), AlignUp(size0), result)
      ensures Requested(old(requests), requests, old(poweredDown), poweredDown, true)
      ensures WritesIn(old(mem[..]), mem[..], old(free))
      ensures dark == old(dark) + old(AllocDark(free, size0))
    {
      hide Canonical, RegionOk, Spelled, Counted, InStep, Take, FirstFit, Covers, Unpowered, Requested, LowestFit;
      RequestedNone(requests, poweredDown, true);
      var size := AlignUp(size0);
      var pt, prev;
      ghost var k;
      pt, prev, k := FindFit(size);
      if pt == 0 {
        return 0;
      }
      HeaderOf(mem[..], free, firstFree, k);
      if mem[Word(pt)] == size {
        TakeChunk(pt, prev, k);
      } else {
        ShrinkChunk(pt, prev, size, k);
      }
      result := pt;
      FitIsLowest(old(free), size0);
    }

    lemma FitIsLowest(f: seq<Chunk>, size: int)
      requires Canonical(f, lo, hi) && AllocSpec(f, size).Got?
      ensures LowestFit(f, AlignUp(size), AllocSpec(f, size).addr)
    {
      AllocLowest(f, size);
    }

    /** The part of Valid that the accounting calls see and restore. */
    ghost predicate PowerOk(f: seq<Chunk>)
      reads this`poweredDown, this`trackPower, pwdCount
    {
      trackPower ==> Counted(f) && InStep(pwdCount[..], poweredDown)
    }

    /** Account the whole chunk `k` as used, all but its header. */
    method ChargeWhole(pt: int, n: int, ghost f: seq<Chunk>, ghost k: nat)
      requires RegionOk() && Canonical(f, lo, hi) && PowerOk(f)
      requires k < |f| && pt == f[k].addr && n == f[k].size
      modifies pwdCount, this`requests, this`poweredDown
      ensures PowerOk(Take(f, k, n))
      ensures Requested(old(requests), requests, old(poweredDown), poweredDown, true)
    {
      hide Pow2, InBanks, Share, Canonical, Take, Count, InStep, Requested;
      ghost var g := Take(f, k, n);
      TakeCanonical1(f, k, n);
      forall b: nat ensures 0 <= Count(g, b) && Count(f, b) <= BankSize() && Count(g, b) == Count(f, b) - Share(pt + HEADER, n - HEADER, b) {
        CountTake1(f, k, n, b);
        CountRange(f, b);
        CountRange(g, b);
      }
      ShareNonNegative(pt + HEADER, n - HEADER);
      if trackPower {
        WholeIsChunk(f, k);
        AllInBanks(f, k, HEADER, n - HEADER);
      }
      AccountAlloc(pt + HEADER, n - HEADER);
    }

    lemma WholeIsChunk(f: seq<Chunk>, k: nat)
      requires Canonical(f, lo, hi) && k < |f|
      ensures HEADER <= f[k].size
    {
    }

    lemma TakeCanonical1(f: seq<Chunk>, k: nat, n: int)
      requires Canonical(f, lo, hi) && k < |f| && (n == f[k].size || (0 < n < f[k].size && n % HEADER == 0))
      ensures Canonical(Take(f, k, n), lo, hi) && 0 < n
    {
      TakeCanonical(f, k, n, lo, hi);
    }

    lemma CountTake1(f: seq<Chunk>, i: nat, n: int, k: nat)
      requires Canonical(f, lo, hi) && i < |f| && (n == f[i].size || (0 < n < f[i].size && n % HEADER == 0))
      ensures Count(Take(f, i, n), k) ==
        Count(f, k) - Share(f[i].addr + HEADER, n - HEADER, k) - (if f[i].size == n then 0 else Share(f[i].addr + n, HEADER, k))
    {
      CountTake(f, i, n, k);
    }

    /** A stretch of a free chunk lies in the banks. */
    lemma AllInBanks(f: seq<Chunk>, k: nat, from: int, n: int)
      requires RegionOk() && trackPower && Canonical(f, lo, hi) && k < |f| && 0 <= from && 0 <= n && from + n <= f[k].size
      ensures InBanks(f[k].addr + from, n)
    {
      hide BankBase, Pow2;
    }

    /** The branch of pos_alloc where the whole chunk disappears. */
    method TakeChunk(pt: int, prev: int, ghost k: nat)
      requires Valid() && k < |free| && pt == free[k].addr && prev == AddrOf(free, k - 1)
      modifies this, mem, pwdCount
      ensures Valid() && lo == old(lo) && hi == old(hi) && trackPower == old(trackPower)
      ensures free == Take(old(free), k, old(free[k].size))
      ensures Requested(old(requests), requests, old(poweredDown), poweredDown, true)
      ensures WritesIn(old(mem[..]), mem[..], old(free))
      ensures dark == old(dark)
    {
      hide Pow2, InBanks, Canonical, Take, Counted, InStep, Spelled, WritesIn, Requested, Unpowered;
      ghost var f, m, head := free, mem[..], firstFree;
      TakeWholeSpelled(m, f, head, k, lo, hi);
      TakeCanonical1(f, k, f[k].size);
      HeaderOf(m, f, head, k);
      if k > 0 { NonNull(f, k - 1); }
      var n, next := mem[Word(pt)], mem[Word(pt) + 1];
      if prev != 0 {
        OnHeader(f, k - 1, prev + 4);
        mem[Word(prev) + 1] := next;
        dark := dark + Unpowered(prev + 4);
      } else {
        firstFree := next;
      }
      assert mem[..] == TakeWholeWrites(m, f, k);
      ChargeWhole(pt, n, f, k);
      free := Take(f, k, n);
    }

    /** Account the first `n` bytes of chunk `k` as used, all but its header, and
        then the header of what is left. */
    method ChargeShrunk(pt: int, n: int, ghost f: seq<Chunk>, ghost k: nat)
      requires RegionOk() && Canonical(f, lo, hi) && PowerOk(f)
      requires k < |f| && pt == f[k].addr && 0 < n < f[k].size && n % HEADER == 0
      modifies pwdCount, this`requests, this`poweredDown
      ensures PowerOk(Take(f, k, n))
      ensures Requested(old(requests), requests, old(poweredDown), poweredDown, true)
    {
      hide Pow2, InBanks, Share, Canonical, Take, Count, InStep, Requested;
      ghost var g := Take(f, k, n);
      TakeCanonical1(f, k, n);
      forall b: nat
        ensures 0 <= Count(g, b) && Count(f, b) <= BankSize()
          && Count(g, b) == Count(f, b) - Share(pt + HEADER, n - HEADER, b) - Share(pt + n, HEADER, b)
      {
        CountTake1(f, k, n, b);
        CountRange(f, b);
        CountRange(g, b);
      }
      ShareNonNegative(pt + HEADER, n - HEADER);
      ShareNonNegative(pt + n, HEADER);
      if trackPower {
        RestIsChunk(f, k, n);
        AllInBanks(f, k, HEADER, n - HEADER);
        AllInBanks(f, k, n, HEADER);
      }
      ghost var r0, d0 := requests, poweredDown;
      AccountAlloc(pt + HEADER, n - HEADER);
      ghost var r1, d1 := requests, poweredDown;
      AccountAlloc(pt + n, HEADER);
      RequestedTwice(r0, r1, requests, d0, d1, poweredDown, true);
    }

    lemma RestIsChunk(f: seq<Chunk>, k: nat, n: int)
      requires Canonical(f, lo, hi) && k < |f| && 0 < n < f[k].size && n % HEADER == 0
      ensures HEADER <= n && n + HEADER <= f[k].size
    {
    }

    /** The header of what is left of a chunk, and the link to it. */
    method WriteRest(pt: int, prev: int, size: int)
      requires InMemory(mem[..], pt) && InMemory(mem[..], pt + size) && Word(pt) + 1 < Word(pt + size)
      requires prev != 0 ==> InMemory(mem[..], prev)
      modifies mem, this`firstFree, this`dark
      ensures firstFree == if prev != 0 then old(firstFree) else pt + size
      ensures var m1 := SetNext(SetSize(old(mem[..]), pt + size, old(mem[Word(pt)]) - size), pt + size, old(mem[Word(pt) + 1]));
        mem[..] == if prev != 0 then SetNext(m1, prev, pt + size) else m1
      ensures dark == old(dark) + (Unpowered(pt + size) + Unpowered(pt + size + 4)) + (if prev != 0 then Unpowered(prev + 4) else [])
    {
      hide Word, Unpowered;
      var newPt := pt + size;
      mem[Word(newPt)] := mem[Word(pt)] - size;
      dark := dark + Unpowered(newPt);
      mem[Word(newPt) + 1] := mem[Word(pt) + 1];
      dark := dark + Unpowered(newPt + 4);
      if prev != 0 {
        mem[Word(prev) + 1] := newPt;
        dark := dark + Unpowered(prev + 4);
      } else {
        firstFree := newPt;
      }
    }

    /** The branch of pos_alloc where the end of the chunk stays free. */
    method ShrinkChunk(pt: int, prev: int, size: int, ghost k: nat)
      requires Valid() && k < |free| && pt == free[k].addr && prev == AddrOf(free, k - 1)
      requires 0 < size < free[k].size && size % HEADER == 0
      modifies this, mem, pwdCount
      ensures Valid() && lo == old(lo) && hi == old(hi) && trackPower == old(trackPower)
      ensures free == Take(old(free), k, size)
      ensures Requested(old(requests), requests, old(poweredDown), poweredDown, true)
      ensures WritesIn(old(mem[..]), mem[..], old(free))
      ensures dark == old(dark) + old(Unpowered(pt + size) + Unpowered(pt + size + 4))
    {
      hide Pow2, InBanks, Canonical, Take, Counted, InStep, Spelled, WritesIn, Requested, Unpowered, Word;
      ghost var f, m, head := free, mem[..], firstFree;
      TakeSpelled(m, f, head, k, size, lo, hi);
      TakeCanonical1(f, k, size);
      HeaderOf(m, f, head, k);
      if k > 0 { NonNull(f, k - 1); }
      ShrinkHeaderFar(f, k, size);
      if k > 0 { OnHeader(f, k - 1, prev + 4); }
      WriteRest(pt, prev, size);
      assert mem[..] == TakeWrites(m, f, k, size);
      ChargeShrunk(pt, size, f, k);
      free := Take(f, k, size);
    }

    /** The new header does not overwrite the old one. */
    lemma ShrinkHeaderFar(f: seq<Chunk>, k: nat, n: int)
      requires Canonical(f, lo, hi) && k < |f| && 0 < n < f[k].size && n % HEADER == 0
      ensures Word(f[k].addr) + 1 < Word(f[k].addr + n)
    {
    }

    /** The loop of pos_free: the chunks around address `chunk`. */
    method FindGap(chunk: int) returns (next: int, prev: int, ghost k: nat)
      requires Valid()
      ensures next == AddrOf(free, Below(free, chunk)) && prev == AddrOf(free, Below(free, chunk) - 1)
      ensures k == Below(free, chunk)
      ensures next != 0 <==> k < |free|
      ensures prev != 0 <==> k > 0
      ensures k > 0 ==> InMemory(mem[..], prev)
      ensures k < |free| ==> InMemory(mem[..], next)
    {
      hide Canonical, Spelled, InStep, Counted, InBanks, Below;
      next, prev, k := firstFree, 0, 0;
      SpelledHead(mem[..], free, firstFree);
      NonNull(free, 0);
      if |free| > 0 { HeaderOf(mem[..], free, firstFree, 0); }
      while next != 0 && next < chunk
        invariant k <= |free| && next == AddrOf(free, k) && prev == AddrOf(free, k - 1)
        invariant forall i :: 0 <= i < k ==> free[i].addr < chunk
        invariant next != 0 <==> k < |free|
        invariant prev != 0 <==> k > 0
        invariant k > 0 ==> InMemory(mem[..], prev)
        invariant k < |free| ==> HeaderIs(mem[..], free[k].addr, free[k].size, AddrOf(free, k + 1))
        decreases |free| - k
      {
        prev := next;
        next := mem[Word(next) + 1];
        k := k + 1;
        NonNull(free, k);
        if k < |free| { HeaderOf(mem[..], free, firstFree, k); }
      }
      BelowIs(free, chunk, k);
    }

    lemma BelowIs(f: seq<Chunk>, a: int, k: nat)
      requires k <= |f| && (forall i :: 0 <= i < k ==> f[i].addr < a) && (k < |f| ==> f[k].addr >= a)
      ensures k == Below(f, a)
    {
    }

    /** Account what freeing `c` makes available: the header of a chunk that `c`
        merges with, and `c` itself, less its header when it stays a chunk. */
    method Refund(next: int, chunk: int, size: int, joinsNext: bool, joinsPrev: bool, ghost f: seq<Chunk>)
      requires RegionOk() && Freeable(f, Chunk(chunk, size), lo, hi) && PowerOk(f)
      requires joinsNext == JoinsNext(f, Chunk(chunk, size)) && joinsPrev == JoinsPrev(f, Chunk(chunk, size))
      requires joinsNext ==> next == f[Below(f, chunk)].addr
      modifies pwdCount, this`requests, this`poweredDown
      ensures PowerOk(Insert(f, Chunk(chunk, size)))
      ensures Requested(old(requests), requests, old(poweredDown), poweredDown, false)
    {
      hide Pow2, InBanks, Share, Canonical, Insert, Below, Count, InStep, Requested;
      ghost var r0, d0 := requests, poweredDown;
      RequestedNone(r0, d0, false);
      ghost var c := Chunk(chunk, size);
      ghost var g := Insert(f, c);
      InsertCanonical(f, c, lo, hi);
      forall b: nat
        ensures 0 <= Count(f, b) && Count(g, b) <= BankSize()
          && Count(g, b) == Count(f, b) + (if joinsNext then Share(next, HEADER, b) else 0)
               + (if joinsPrev then Share(chunk, size, b) else Share(chunk + HEADER, size - HEADER, b))
      {
        CountInsert(f, c, b);
        CountRange(f, b);
        CountRange(g, b);
      }
      ShareNonNegative(next, HEADER);
      ShareNonNegative(chunk, size);
      ShareNonNegative(chunk + HEADER, size - HEADER);
      if trackPower { FreedInBanks(f, c, next); }
      if joinsNext {
        AccountFree(next, HEADER);
      }
      ghost var r1, d1 := requests, poweredDown;
      if joinsPrev {
        AccountFree(chunk, size);
      } else {
        AccountFree(chunk + HEADER, size - HEADER);
      }
      RequestedTwice(r0, r1, requests, d0, d1, poweredDown, false);
    }

    lemma FreedInBanks(f: seq<Chunk>, c: Chunk, next: int)
      requires RegionOk() && trackPower && Freeable(f, c, lo, hi)
      ensures HEADER <= c.size && InBanks(c.addr, c.size) && InBanks(c.addr + HEADER, c.size - HEADER)
      ensures JoinsNext(f, c) && next == f[Below(f, c.addr)].addr ==> InBanks(next, HEADER)
    {
      hide BankBase, Pow2;
      if JoinsNext(f, c) { AtLeastHeader(f, lo, hi); }
    }

    /** The block's header, merged with the chunk behind it where they touch. */
    ghost function BlockWrites(m: seq<int>, chunk: int, size: int, next: int): seq<int>
      requires InMemory(m, chunk) && (next != 0 ==> InMemory(m, next)) && (chunk + size == next ==> next != 0)
    {
      var joins := chunk + size == next;
      SetNext(SetSize(m, chunk, if joins then size + m[Word(next)] else size), chunk, if joins then m[Word(next) + 1] else next)
    }

    /** The header before it, which grows or links to it. */
    ghost function LinkWrites(m: seq<int>, chunk: int, prev: int): seq<int>
      requires InMemory(m, chunk) && (prev != 0 ==> InMemory(m, prev))
    {
      if prev == 0 then m
      else if prev + m[Word(prev)] == chunk then
        SetNext(SetSize(m, prev, m[Word(prev)] + m[Word(chunk)]), prev, m[Word(chunk) + 1])
      else SetNext(m, prev, chunk)
    }

    /** Write the freed block's header, merged with the chunk that follows it. */
    method WriteBlock(chunk: int, size: int, next: int) returns (joinsNext: bool)
      requires InMemory(mem[..], chunk) && chunk + size > 0
      requires next != 0 ==> InMemory(mem[..], next) && (Word(next) + 1 < Word(chunk) || Word(chunk) + 1 < Word(next))
      modifies mem, this`dark
      ensures joinsNext == (chunk + size == next)
      ensures dark == old(dark) + (Unpowered(chunk) + Unpowered(chunk + 4))
      ensures mem[..] == BlockWrites(old(mem[..]), chunk, size, next)
    {
      hide Word, Unpowered;
      joinsNext := chunk + size == next;
      if joinsNext {
        mem[Word(chunk)] := size + mem[Word(next)];
        dark := dark + Unpowered(chunk);
        mem[Word(chunk) + 1] := mem[Word(next) + 1];
        dark := dark + Unpowered(chunk + 4);
      } else {
        mem[Word(chunk)] := size;
        dark := dark + Unpowered(chunk);
        mem[Word(chunk) + 1] := next;
        dark := dark + Unpowered(chunk + 4);
      }
    }

    /** Link the block written at `chunk` from its predecessor, or merge it in. */
    method LinkBlock(chunk: int, prev: int) returns (joinsPrev: bool)
      requires InMemory(mem[..], chunk)
      requires prev != 0 ==> InMemory(mem[..], prev) && (Word(prev) + 1 < Word(chunk) || Word(chunk) + 1 < Word(prev))
      modifies mem, this`firstFree, this`dark
      ensures dark == old(dark) + (if joinsPrev then Unpowered(prev) else []) + (if prev != 0 then Unpowered(prev + 4) else [])
      ensures joinsPrev == (prev != 0 && prev + old(mem[..])[Word(prev)] == chunk)
      ensures firstFree == if prev != 0 then old(firstFree) else chunk
      ensures mem[..] == LinkWrites(old(mem[..]), chunk, prev)
    {
      hide Word, Unpowered;
      joinsPrev := false;
      if prev != 0 {
        if prev + mem[Word(prev)] == chunk {
          joinsPrev := true;
          mem[Word(prev)] := mem[Word(prev)] + mem[Word(chunk)];
          dark := dark + Unpowered(prev);
          mem[Word(prev) + 1] := mem[Word(chunk) + 1];
          dark := dark + Unpowered(prev + 4);
        } else {
          mem[Word(prev) + 1] := chunk;
          dark := dark + Unpowered(prev + 4);
        }
      } else {
        firstFree := chunk;
      }
    }

    /** The header writes of pos_free. */
    method WriteFreed(chunk: int, size: int, next: int, prev: int, ghost f: seq<Chunk>) returns (joinsNext: bool, joinsPrev: bool)
      requires RegionOk() && Freeable(f, Chunk(chunk, size), lo, hi) && Spelled(mem[..], f, firstFree)
      requires next == AddrOf(f, Below(f, chunk)) && (next != 0 <==> Below(f, chunk) < |f|)
      requires prev == AddrOf(f, Below(f, chunk) - 1) && (prev != 0 <==> Below(f, chunk) > 0)
      requires PowerOk(f)
      modifies mem, this`firstFree, this`dark
      ensures dark == old(dark)
      ensures joinsNext == JoinsNext(f, Chunk(chunk, size)) && joinsPrev == JoinsPrev(f, Chunk(chunk, size))
      ensures joinsNext ==> next == f[Below(f, chunk)].addr
      ensures Spelled(mem[..], Insert(f, Chunk(chunk, size)), firstFree)
      ensures WritesIn(old(mem[..]), mem[..], Insert(f, Chunk(chunk, size)))
    {
      hide RegionOk, Freeable, Canonical, Insert, Spelled, WritesIn, Below, Word, Unpowered, PowerOk, InsertWrites, BlockWrites, LinkWrites, BlockHeader;
      ghost var m, c, k := mem[..], Chunk(chunk, size), Below(f, chunk);
      FreedIsBlock(f, c);
      InsertSpelled(m, f, firstFree, c, lo, hi);
      if k > 0 { HeaderOf(m, f, firstFree, k - 1); BlockApart(f, c, k - 1, lo, hi); }
      if k < |f| { HeaderOf(m, f, firstFree, k); BlockApart(f, c, k, lo, hi); }
      BlockAndLinkOn(f, c, prev);
      BlockWritten(m, f, c, next);
      LinkWritten(m, f, c, prev);
      joinsNext := WriteBlock(chunk, size, next);
      joinsPrev := LinkBlock(chunk, prev);
    }

    /** The block's header, as it is written: what it merges with behind it. */
    ghost function BlockHeader(m: seq<int>, f: seq<Chunk>, c: Chunk): seq<int>
      requires InMemory(m, c.addr)
    {
      SetNext(SetSize(m, c.addr, Grown(f, c).size), c.addr, AddrOf(f, MergeTo(f, c)))
    }

    /** The first half of a free's writes. */
    lemma BlockWritten(m: seq<int>, f: seq<Chunk>, c: Chunk, next: int)
      requires InMemory(m, c.addr) && c.addr + c.size > 0 && next == AddrOf(f, Below(f, c.addr)) && (next != 0 <==> Below(f, c.addr) < |f|)
      requires next != 0 ==> HeaderIs(m, next, f[Below(f, c.addr)].size, AddrOf(f, Below(f, c.addr) + 1))
      requires next != 0 ==> Word(next) + 1 < Word(c.addr) || Word(c.addr) + 1 < Word(next)
      ensures c.addr + c.size == next <==> JoinsNext(f, c)
      ensures BlockWrites(m, c.addr, c.size, next) == BlockHeader(m, f, c)
    {
      hide Below, Word;
    }

    /** And with the second half they are all the writes of the specification. */
    lemma LinkWritten(m: seq<int>, f: seq<Chunk>, c: Chunk, prev: int)
      requires InMemory(m, c.addr) && prev == AddrOf(f, Below(f, c.addr) - 1) && (prev != 0 <==> Below(f, c.addr) > 0)
      requires prev != 0 ==> HeaderIs(m, prev, f[Below(f, c.addr) - 1].size, AddrOf(f, Below(f, c.addr)))
      requires prev != 0 ==> Word(prev) + 1 < Word(c.addr) || Word(c.addr) + 1 < Word(prev)
      ensures var m1 := BlockHeader(m, f, c);
        && InMemory(m1, c.addr) && (prev != 0 ==> InMemory(m1, prev))
        && (prev != 0 && prev + m1[Word(prev)] == c.addr <==> JoinsPrev(f, c))
        && LinkWrites(m1, c.addr, prev) == InsertWrites(m, f, c)
    {
      hide Below, Word, Grown, MergeTo, JoinsNext;
    }

    /** The words a free writes are in banks that are on. */
    lemma BlockAndLinkOn(f: seq<Chunk>, c: Chunk, prev: int)
      requires RegionOk() && Freeable(f, c, lo, hi) && PowerOk(f) && prev == AddrOf(f, Below(f, c.addr) - 1)
      ensures Unpowered(c.addr) == [] && Unpowered(c.addr + 4) == []
      ensures Below(f, c.addr) > 0 ==> Unpowered(prev) == [] && Unpowered(prev + 4) == []
    {
      hide Unpowered, PowerOk, Canonical, Below;
      FreedIsChunk(c);
      OnBlock(f, c, c.addr);
      OnBlock(f, c, c.addr + 4);
      var k := Below(f, c.addr);
      if k > 0 {
        OnHeader(f, k - 1, prev);
        OnHeader(f, k - 1, prev + 4);
      }
    }

    lemma FreedIsChunk(c: Chunk)
      requires c.size > 0 && c.size % HEADER == 0
      ensures c.size >= HEADER
    {
    }

    /** pos_free. */
    method Free(chunk: int, size0: int)
      requires Valid() && 0 < size0 <= INT_MAX - 7 && Freeable(free, Chunk(chunk, AlignUp(size0)), lo, hi)
      modifies this, mem, pwdCount
      ensures Valid() && lo == old(lo) && hi == old(hi) && trackPower == old(trackPower)
      ensures free == FreeSpec(old(free), chunk, size0)
      ensures Requested(old(requests), requests, old(poweredDown), poweredDown, false)
      ensures WritesIn(old(mem[..]), mem[..], free)
      ensures dark == old(dark)
    {
      hide Pow2, InBanks, Canonical, Freeable, Insert, Counted, InStep, Spelled, WritesIn, AlignUp, Below, JoinsNext, JoinsPrev, Requested;
      var size := AlignUp(size0);
      ghost var f, c := free, Chunk(chunk, size);
      FreedCanonical(f, c);
      var next, prev;
      ghost var k;
      next, prev, k := FindGap(chunk);
      var joinsNext, joinsPrev := WriteFreed(chunk, size, next, prev, f);
      Refund(next, chunk, size, joinsNext, joinsPrev, f);
      free := Insert(f, c);
    }

    lemma FreedCanonical(f: seq<Chunk>, c: Chunk)
      requires Freeable(f, c, lo, hi)
      ensures Canonical(Insert(f, c), lo, hi)
    {
      InsertCanonical(f, c, lo, hi);
    }

    lemma FreedIsBlock(f: seq<Chunk>, c: Chunk)
      requires RegionOk() && Freeable(f, c, lo, hi)
      ensures c.addr + c.size > 0 && 0 <= lo && hi <= 4 * mem.Length
    {
    }

    /** Free both ends of the bigger block at `first`. */
    method CutOut(first: int, size: int, align: int, ghost f: seq<Chunk>) returns (result: int)
      requires Valid() && 0 < size && align >= HEADER && IsPow2(align) && size % HEADER == 0
      requires BiggerSize(size, align) <= INT_MAX - 7
      requires Canonical(f, lo, hi) && AllocSpec(f, BiggerSize(size, align)) == Got(first, free)
      modifies this, mem, pwdCount
      ensures Valid() && lo == old(lo) && hi == old(hi) && trackPower == old(trackPower)
      ensures Carve(old(free), first, size, align) == Got(result, free)
      ensures Requested(old(requests), requests, old(poweredDown), poweredDown, false)
      ensures WritesIn(old(mem[..]), mem[..], f)
      ensures dark == old(dark)
    {
      hide RegionOk, Canonical, Freeable, Spelled, Counted, InStep, AllocSpec, Insert, Covers, RoundUp, IsPow2, AlignUp, Requested;
      ghost var r0, d0 := requests, poweredDown;
      RequestedNone(r0, d0, false);
      EndsFreeable(f, free, first, size, align, lo, hi);
      AlignIsMultiple(align);
      AlignedSizes(size, align, RoundUp(first, align) - first);
      ghost var m := mem[..];
      result := RoundUp(first, align);
      var headerSize := result - first;
      if headerSize != 0 {
        if headerSize < HEADER {
          result := result + align;
        }
        Free(first, headerSize);
      }
      ghost var m1, h := mem[..], free;
      ghost var r1, d1 := requests, poweredDown;
      Free(result + size, BiggerSize(size, align) - headerSize - size);
      RequestedTwice(r0, r1, requests, d0, d1, poweredDown, false);
      WritesTrans(m, m1, mem[..], h, free, f);
    }

    lemma WritesTrans(m: seq<int>, m1: seq<int>, m2: seq<int>, g: seq<Chunk>, h: seq<Chunk>, f: seq<Chunk>)
      requires WritesIn(m, m1, g) && WritesIn(m1, m2, h)
      requires forall b :: Covers(g, b) || Covers(h, b) ==> Covers(f, b)
      ensures WritesIn(m, m2, f)
    {
    }

    lemma AllocNonNull(f: seq<Chunk>, size: int)
      requires RegionOk() && Canonical(f, lo, hi) && size > 0
      ensures AllocSpec(f, size).Got? ==> AllocSpec(f, size).addr != 0
    {
      AllocEffect(f, size, lo, hi);
    }

    /** Requests of an allocation and then of frees. */
    ghost predicate RequestedUpDown(before: seq<PowerRequest>, after: seq<PowerRequest>, down: set<nat>, now: set<nat>)
      reads this`trackPower
    {
      exists n: nat, mid: set<nat> | n <= |after| ::
        Requested(before, after[..n], down, mid, true) && Requested(after[..n], after, mid, now, false)
    }

    lemma UpThenDown(r0: seq<PowerRequest>, r1: seq<PowerRequest>, r2: seq<PowerRequest>, d0: set<nat>, d1: set<nat>, d2: set<nat>)
      requires Requested(r0, r1, d0, d1, true) && (Requested(r1, r2, d1, d2, false) || (r1 == r2 && d1 == d2))
      ensures RequestedUpDown(r0, r2, d0, d2)
    {
      RequestedNone(r1, d1, false);
      assert Requested(r1, r2, d1, d2, false);
      assert r1 <= r2;
      hide Requested;
      assert r2[..|r1|] == r1;
    }

    /** pos_alloc_align, for the sizes that keep the list canonical (AlignCanonicalIff). */
    method AllocAlign(size: int, align: int) returns (result: int)
      requires Valid() && 0 < size <= INT_MAX - 7
      requires align >= HEADER ==> IsPow2(align) && size % HEADER == 0 && BiggerSize(size, align) <= INT_MAX - 7
      modifies this, mem, pwdCount
      ensures Valid() && lo == old(lo) && hi == old(hi) && trackPower == old(trackPower)
      ensures match AlignSpec(old(free), size, align)
        case Failed => result == 0 && free == old(free) && mem[..] == old(mem[..])
        case Got(addr, rest) => result == addr && free == rest
      ensures RequestedUpDown(old(requests), requests, old(poweredDown), poweredDown)
      ensures WritesIn(old(mem[..]), mem[..], old(free))
      ensures dark == old(dark) + old(AllocDark(free, if align < HEADER then size else BiggerSize(size, align)))
    {
      hide RegionOk, Canonical, Spelled, Counted, InStep, AllocSpec, Carve, Covers, IsPow2, AllocDark, Requested, RequestedUpDown, LowestFit;
      if align < HEADER {
        result := Alloc(size);
        UpThenDown(old(requests), requests, requests, old(poweredDown), poweredDown, poweredDown);
        return;
      }
      ghost var f, m := free, mem[..];
      var first := Alloc(BiggerSize(size, align));
      AllocNonNull(f, BiggerSize(size, align));
      ghost var r1, d1 := requests, poweredDown;
      if first == 0 {
        UpThenDown(old(requests), r1, r1, old(poweredDown), d1, d1);
        return 0;
      }
      ghost var m1 := mem[..];
      result := CutOut(first, size, align, f);
      UpThenDown(old(requests), r1, requests, old(poweredDown), d1, poweredDown);
      WritesTrans(m, m1, mem[..], f, f, f);
    }
  }
}
