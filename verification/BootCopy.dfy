// The copying loop of the second-stage loader, step by step: what it stores, and
// exactly when it leaves through its own size test.
module BootCopy {
  import opened Words
  import opened Rv32
  import opened BootImage
  import opened BootRun
  import opened BootLoader

  /** The most words the loop can copy: the last of them lands on its own first
      instruction, which is not executed again. */
  const ROOM := 0x200e

  /** The loop's head, with the addresses in t0 and t3; none of its code stored over. */
  predicate Copying(s: State, from: int, dest: int) {
    && s.pc == LOADER + 52 && CopyCode(s.mem) && Get(s.regs, T0) == from && Get(s.regs, T3) == dest
    && Code(from) && from <= 0x7fff_0000 && Code(dest) && dest <= LOADER + 52
  }

  /** At the loop's head once the loop has stored over it. */
  predicate SelfMade(s: State) {
    s.pc == LOADER + 52 && Get(s.regs, T3) > LOADER + 52
  }

  /** For `n` steps the machine runs, neither leaves the loop nor executes an instruction
      that the loop has stored. */
  ghost predicate Looping(s: State, n: nat) {
    forall m: nat :: m < n ==> Run(s, m).Some? && Run(s, m).value.pc != LOADER + 72 && !SelfMade(Run(s, m).value)
  }

  /** The loop falls through its branch, with no instruction executed that it has stored. */
  ghost predicate LeavesBySizeTest(s: State) {
    exists n: nat :: Run(s, n).Some? && Run(s, n).value.pc == LOADER + 72 &&
      forall m: nat :: m < n ==> Run(s, m).Some? && !SelfMade(Run(s, m).value)
  }

  // ----- Steps -----

  lemma RunNext(s: State, m: nat, t: State, u: State)
    requires Run(s, m) == Some(t) && Step(t) == Some(u)
    ensures Run(s, m + 1) == Some(u)
  {
    hide Step;
    RunAdd(s, m, t, 1);
    assert Run(u, 0) == Some(u);
  }

  lemma LoopingNext(s: State, m: nat, t: State)
    requires Looping(s, m) && Run(s, m) == Some(t) && t.pc != LOADER + 72 && !SelfMade(t)
    ensures Looping(s, m + 1)
  {
    hide Run, SelfMade;
  }

  lemma LoopingJoin(s: State, m: nat, t: State, n: nat)
    requires Looping(s, m) && Run(s, m) == Some(t) && Looping(t, n)
    ensures Looping(s, m + n)
  {
    hide Run, SelfMade;
    forall j: nat | j < m + n ensures Run(s, j).Some? && Run(s, j).value.pc != LOADER + 72 && !SelfMade(Run(s, j).value) {
      if j >= m { RunAdd(s, m, t, j - m); }
    }
  }

  /** A step within the loop. */
  lemma StepWithin(s: State, m: nat, t: State, u: State)
    requires Looping(s, m) && Run(s, m) == Some(t) && Step(t) == Some(u)
    requires t.pc != LOADER + 72 && !SelfMade(t)
    ensures Looping(s, m + 1) && Run(s, m + 1) == Some(u)
  {
    hide Looping, Run, Step, SelfMade;
    RunNext(s, m, t, u);
    LoopingNext(s, m, t);
  }

  // ----- One turn -----

  lemma OneTurn(s: State, from: int, dest: int) returns (t: State)
    requires Copying(s, from, dest) && from + 4 <= dest && from + 4 in s.mem && Word(s.mem[from + 4])
    ensures Run(s, 5) == Some(t) && Looping(s, 5)
    ensures t.mem == s.mem[dest := s.mem[from + 4]] && CopyRest(t.mem) && (dest < LOADER + 52 ==> CopyCode(t.mem))
    ensures Get(t.regs, T0) == from + 4 && Get(t.regs, T3) == dest + 4 && Get(t.regs, T2) == Get(s.regs, T2)
    ensures t.pc == if from + 4 == Get(s.regs, T2) then LOADER + 72 else LOADER + 52
    ensures from + 4 != Get(s.regs, T2) && dest < LOADER + 52 ==> Copying(t, from + 4, dest + 4)
  {
    hide Reaches, Get, Put, Decode, Step, Run, Looping;
    ReachesSelf(s);
    RunNone(s);
    var s1 := DoLw(s, s, T1, T0, 4);
    StepWithin(s, 0, s, s1);
    var s2 := DoAddi(s, s1, T0, T0, 4);
    StepWithin(s, 1, s1, s2);
    assert Get(s2.regs, T0) == from + 4 && Get(s2.regs, T1) == s.mem[from + 4] && Get(s2.regs, T3) == dest;
    var s3 := DoSw(s, s2, T3, T1);
    StepWithin(s, 2, s2, s3);
    assert CopyRest(s3.mem) && (dest < LOADER + 52 ==> CopyCode(s3.mem));
    hide Has;
    var s4 := DoAddi(s, s3, T3, T3, 4);
    StepWithin(s, 3, s3, s4);
    assert Get(s4.regs, T3) == dest + 4;
    t := DoBne(s, s4, T0, T2, -16);
    StepWithin(s, 4, s4, t);
  }

  lemma RunNone(s: State)
    ensures Run(s, 0) == Some(s) && Looping(s, 0)
  {
  }

  // ----- Many turns -----

  /** As long as the size test is not met before, every word goes to its place, and none
      of the loop's code is executed that has been stored over. */
  lemma {:induction false} CopyTurns(s: State, from: int, dest: int, words: seq<int>) returns (t: State)
    requires Copying(s, from, dest) && AllWords(words) && Holds(s.mem, from + 4, words)
    requires from + 4 + 4 * |words| <= dest && dest + 4 * |words| <= LOADER + 56
    requires forall j :: 0 < j < |words| ==> Get(s.regs, T2) != from + 4 * j
    ensures Run(s, 5 * |words|) == Some(t) && Looping(s, 5 * |words|)
    ensures t.mem == Stored(s.mem, dest, words) && CopyRest(t.mem) && (dest + 4 * |words| <= LOADER + 52 ==> CopyCode(t.mem))
    ensures Get(t.regs, T0) == from + 4 * |words| && Get(t.regs, T3) == dest + 4 * |words| && Get(t.regs, T2) == Get(s.regs, T2)
    ensures t.pc == if words != [] && from + 4 * |words| == Get(s.regs, T2) then LOADER + 72 else LOADER + 52
    decreases |words|
  {
    hide Reaches, Get, Holds, CopyRest, Has, Run, Looping, Stored;
    if words == [] {
      t := s;
      RunNone(s);
      StoredNone(s.mem, dest);
    } else {
      HoldsAt(s.mem, from + 4, words, 0);
      var u := OneTurn(s, from, dest);
      var rest := words[1..];
      StoredFirst(s.mem, dest, words);
      if rest == [] {
        t := u;
      } else {
        HoldsTail(s.mem, from + 4, words);
        HoldsKept(s.mem, dest, words[0], from + 8, rest);
        assert Get(s.regs, T2) != from + 4 * 1;
        NotMetLater(Get(s.regs, T2), from, |words|);
        t := CopyTurns(u, from + 4, dest + 4, rest);
        RunAdd(s, 5, u, 5 * |rest|);
        LoopingJoin(s, 5, u, 5 * |rest|);
      }
    }
  }

  lemma StoredNone(mem: Memory, a: int)
    ensures Stored(mem, a, []) == mem
  {
  }

  lemma StoredFirst(mem: Memory, a: int, words: seq<int>)
    requires words != []
    ensures Stored(mem, a, words) == Stored(mem[a := words[0]], a + 4, words[1..])
    ensures |words| == 1 ==> Stored(mem, a, words) == mem[a := words[0]]
  {
  }

  lemma HoldsTail(mem: Memory, a: int, words: seq<int>)
    requires Holds(mem, a, words) && AllWords(words) && words != []
    ensures Holds(mem, a + 4, words[1..]) && AllWords(words[1..])
  {
    hide Holds;
    assert words == [words[0]] + words[1..];
    HoldsSplit(mem, a, [words[0]], words[1..]);
  }

  lemma NotMetLater(end: int, from: int, n: nat)
    requires n > 0 && forall j :: 0 < j < n ==> end != from + 4 * j
    ensures forall j :: 0 < j < n - 1 ==> end != from + 4 + 4 * j
  {
    forall j | 0 < j < n - 1 ensures end != from + 4 + 4 * j {
      assert end != from + 4 * (j + 1);
    }
  }

  // ----- Exactly when it leaves -----

  predicate SizeFits(size: int) {
    0 < size <= 4 * ROOM && size % 4 == 0
  }

  /** The test compares addresses modulo 2^32. */
  lemma TestMet(from: int, size: int, j: nat)
    requires Word(size) && 0 <= from && from + 4 * j < TWO32
    ensures (from + size) % TWO32 == from + 4 * j <==> size == 4 * j
  {
  }

  lemma NeverMet(from: int, size: int, n: nat)
    requires Word(size) && !SizeFits(size) && n <= ROOM && 0 <= from && from + 4 * ROOM < TWO32
    ensures forall j :: 0 < j <= n ==> (from + size) % TWO32 != from + 4 * j
  {
    forall j | 0 < j <= n ensures (from + size) % TWO32 != from + 4 * j {
      TestMet(from, size, j);
    }
  }

  /** A machine at the loop's head that cannot load the next word stops. */
  lemma Unreadable(s: State, from: int, dest: int)
    requires Copying(s, from, dest) && from + 4 !in s.mem
    ensures Step(s) == None
  {
    hide Get, Put, Decode, CopyRest;
    assert Has(s.mem, s.pc, Lw(T1, T0, 4));
    assert Step(s) == Exec(s, Lw(T1, T0, 4));
    hide Step, Has;
    assert (from + 4) % TWO32 == from + 4;
  }

  /** The words of the record, as far as memory can be read and as the loop can copy. */
  predicate Supply(mem: Memory, a: int, words: seq<int>) {
    Holds(mem, a, words) && AllWords(words) && |words| <= ROOM && (|words| < ROOM ==> a + 4 * |words| !in mem)
  }

  /** A size that does not fit is never met. */
  lemma NoLeaving(s: State, from: int, size: int, words: seq<int>)
    requires Copying(s, from, PROGRAM) && Word(size) && Get(s.regs, T2) == (from + size) % TWO32
    requires Supply(s.mem, from + 4, words) && from + 4 + 4 * ROOM <= PROGRAM && !SizeFits(size)
    ensures !LeavesBySizeTest(s)
  {
    hide Get, Holds, CopyRest, Has, Run, AllWords, Stored, Step;
    NeverMet(from, size, |words|);
    var t := CopyTurns(s, from, PROGRAM, words);
    var k := 5 * |words|;
    forall n: nat | Run(s, n).Some? && Run(s, n).value.pc == LOADER + 72
      ensures exists m: nat :: m < n && !(Run(s, m).Some? && !SelfMade(Run(s, m).value))
    {
      assert n > k;
      if |words| == ROOM {
        assert SelfMade(Run(s, k).value);
      } else {
        StillUnread(s.mem, from, words);
        Unreadable(t, from + 4 * |words|, PROGRAM + 4 * |words|);
        StopsThere(s, k, t, n);
      }
    }
  }

  lemma StopsThere(s: State, k: nat, t: State, n: nat)
    requires Run(s, k) == Some(t) && Step(t) == None && n > k
    ensures Run(s, n) == None
  {
    hide Step;
    RunAdd(s, k, t, n - k);
  }

  lemma StillUnread(mem: Memory, from: int, words: seq<int>)
    requires from + 4 + 4 * |words| !in mem && from + 4 + 4 * |words| < PROGRAM
    ensures from + 4 + 4 * |words| !in Stored(mem, PROGRAM, words)
  {
    hide Stored;
    StoredExactly(mem, PROGRAM, words);
  }

  /** Main result on the loop: it leaves through its own size test, without executing an
      instruction that it has stored itself, if and only if the size is a positive
      multiple of four of at most 0x8038. */
  lemma LeavesIff(s: State, from: int, size: int, words: seq<int>)
    requires Copying(s, from, PROGRAM) && Word(size) && Get(s.regs, T2) == (from + size) % TWO32
    requires Supply(s.mem, from + 4, words) && from + 4 + 4 * ROOM <= PROGRAM
    requires SizeFits(size) ==> size <= 4 * |words|
    ensures LeavesBySizeTest(s) <==> SizeFits(size)
  {
    hide Get, Holds, CopyRest, Has, Run, Stored, AllWords, Copying;
    if SizeFits(size) {
      var t := CopyRecord(s, from, size, words);
    } else {
      NoLeaving(s, from, size, words);
    }
  }

  lemma TakeWords(mem: Memory, a: int, words: seq<int>, k: nat)
    requires Holds(mem, a, words) && AllWords(words) && k <= |words|
    ensures Holds(mem, a, words[..k]) && AllWords(words[..k])
  {
  }

  /** And then the record's words are where they should be. */
  lemma CopyRecord(s: State, from: int, size: int, words: seq<int>) returns (t: State)
    requires Copying(s, from, PROGRAM) && SizeFits(size) && Get(s.regs, T2) == (from + size) % TWO32
    requires Holds(s.mem, from + 4, words) && AllWords(words) && size <= 4 * |words| && from + 4 + 4 * ROOM <= PROGRAM
    ensures LeavesBySizeTest(s) && Reaches(s, t) && t.pc == LOADER + 72 && CopyRest(t.mem)
    ensures t.mem == Stored(s.mem, PROGRAM, words[..size / 4])
  {
    hide Get, Holds, CopyRest, Has, Run, Stored, AllWords;
    var k := size / 4;
    TakeWords(s.mem, from + 4, words, k);
    forall j | 0 < j <= k ensures Get(s.regs, T2) == from + 4 * j <==> j == k {
      TestMet(from, size, j);
    }
    t := CopyTurns(s, from, PROGRAM, words[..k]);
    assert Run(s, 5 * k) == Some(t);
  }

  /** For every other size the loop stores over its own first instruction, and is about
      to execute what it has stored there. */
  lemma Overruns(s: State, from: int, size: int, words: seq<int>) returns (t: State)
    requires Copying(s, from, PROGRAM) && Word(size) && Get(s.regs, T2) == (from + size) % TWO32 && !SizeFits(size)
    requires Holds(s.mem, from + 4, words) && AllWords(words) && |words| == ROOM && from + 4 + 4 * ROOM <= PROGRAM
    ensures Reaches(s, t) && SelfMade(t) && Get(t.regs, T3) == LOADER + 56
    ensures t.mem == Stored(s.mem, PROGRAM, words) && CopyRest(t.mem)
    ensures LOADER + 52 in t.mem && t.mem[LOADER + 52] == words[ROOM - 1]
  {
    hide Get, Holds, CopyRest, Has, Run, Stored, AllWords;
    NeverMet(from, size, |words|);
    t := CopyTurns(s, from, PROGRAM, words);
    assert Run(s, 5 * ROOM) == Some(t);
    StoredExactly(s.mem, PROGRAM, words);
    HoldsAt(t.mem, PROGRAM, words, ROOM - 1);
  }
}
