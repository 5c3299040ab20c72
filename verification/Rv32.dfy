// The part of the RV32I base instruction set the boot image uses: decoding (section
// 2.2 of the RISC-V Unprivileged ISA) and execution (sections 2.4 to 2.6).
module Rv32 {
  import opened Words

  datatype Instr =
    | Lui(rd: int, imm: int)
    | Addi(rd: int, rs1: int, imm: int)
    | Andi(rd: int, rs1: int, imm: int)
    | Slli(rd: int, rs1: int, shamt: int)
    | Add(rd: int, rs1: int, rs2: int)
    | Lw(rd: int, rs1: int, imm: int)
    | Lb(rd: int, rs1: int, imm: int)
    | Sw(rs1: int, rs2: int, imm: int)
    | Sb(rs1: int, rs2: int, imm: int)
    | Bne(rs1: int, rs2: int, imm: int)
    | Jalr(rd: int, rs1: int, imm: int)
    | Unknown

  // ----- Decoding -----

  function Signed12(x: int): int {
    if x < 2048 then x else x - 4096
  }

  function BranchOffset(w: int): int {
    2 * (w / 0x100 % 16) + 32 * (w / 0x200_0000 % 64) + 2048 * (w / 0x80 % 2) - 4096 * (w / 0x8000_0000 % 2)
  }

  function Decode(w: int): (i: Instr) {
    var op, rd, f3 := w % 0x80, w / 0x80 % 32, w / 0x1000 % 8;
    var rs1, rs2, f7 := w / 0x8000 % 32, w / 0x10_0000 % 32, w / 0x200_0000 % 128;
    var imm := Signed12(w / 0x10_0000 % 4096);
    if op == 0x37 then Lui(rd, w / 0x1000 % 0x10_0000 * 0x1000)
    else if op == 0x13 && f3 == 0 then Addi(rd, rs1, imm)
    else if op == 0x13 && f3 == 7 then Andi(rd, rs1, imm)
    else if op == 0x13 && f3 == 1 && f7 == 0 then Slli(rd, rs1, rs2)
    else if op == 0x33 && f3 == 0 && f7 == 0 then Add(rd, rs1, rs2)
    else if op == 0x03 && f3 == 2 then Lw(rd, rs1, imm)
    else if op == 0x03 && f3 == 0 then Lb(rd, rs1, imm)
    else if op == 0x23 && f3 == 2 then Sw(rs1, rs2, Signed12(f7 * 32 + rd))
    else if op == 0x23 && f3 == 0 then Sb(rs1, rs2, Signed12(f7 * 32 + rd))
    else if op == 0x63 && f3 == 1 then Bne(rs1, rs2, BranchOffset(w))
    else if op == 0x67 && f3 == 0 then Jalr(rd, rs1, imm)
    else Unknown
  }

  // ----- Registers -----

  type Registers = s: seq<int> | |s| == 32 witness seq(32, i => 0)

  /** x0 reads as zero. */
  function Get(regs: Registers, r: int): int {
    if 0 < r < 32 then regs[r] else 0
  }

  /** A write to x0 is dropped. */
  function Put(regs: Registers, r: int, v: int): (q: Registers)
    ensures forall j :: Get(q, j) == if j == r && 0 < r < 32 then v else Get(regs, j)
  {
    if 0 < r < 32 then regs[r := v] else regs
  }

  // ----- Memory: words, by the address of their first byte -----

  type Memory = map<int, int>

  function ByteWeight(k: int): int {
    if k == 0 then 1 else if k == 1 then 0x100 else if k == 2 then 0x1_0000 else 0x100_0000
  }

  function ByteOf(word: int, k: int): (b: int)
    ensures 0 <= b < 256
  {
    word / ByteWeight(k) % 256
  }

  function Signed8(x: int): int {
    if x < 128 then x else x - 256
  }

  function WithByte(word: int, k: int, b: int): int {
    word + (b - ByteOf(word, k)) * ByteWeight(k)
  }

  // ----- Execution -----

  datatype State = State(pc: int, regs: Registers, mem: Memory)

  /** Bitwise and of two words. */
  function And(a: int, b: int): int
    decreases if a < 0 then 0 else a
  {
    if a <= 0 || b <= 0 then 0 else a % 2 * (b % 2) + 2 * And(a / 2, b / 2)
  }

  function PowerOfTwo(n: int): int
    decreases n
  {
    if n <= 0 then 1 else 2 * PowerOfTwo(n - 1)
  }

  function Next(s: State): int {
    (s.pc + 4) % TWO32
  }

  /** The effect of writing a register and going on to the next instruction. */
  function Wrote(s: State, rd: int, v: int): Option<State> {
    Some(State(Next(s), Put(s.regs, rd, v % TWO32), s.mem))
  }

  /** None where the machine would trap: a misaligned or unmapped access, or an
      instruction outside this subset. */
  function Exec(s: State, i: Instr): Option<State> {
    match i
    case Lui(rd, imm) => Wrote(s, rd, imm)
    case Addi(rd, rs1, imm) => Wrote(s, rd, Get(s.regs, rs1) + imm)
    case Andi(rd, rs1, imm) => Wrote(s, rd, And(Get(s.regs, rs1), imm % TWO32))
    case Slli(rd, rs1, shamt) => Wrote(s, rd, Get(s.regs, rs1) * PowerOfTwo(shamt))
    case Add(rd, rs1, rs2) => Wrote(s, rd, Get(s.regs, rs1) + Get(s.regs, rs2))
    case Lw(rd, rs1, imm) =>
      var a := (Get(s.regs, rs1) + imm) % TWO32;
      if a % 4 == 0 && a in s.mem then Wrote(s, rd, s.mem[a]) else None
    case Lb(rd, rs1, imm) =>
      var a := (Get(s.regs, rs1) + imm) % TWO32;
      if a - a % 4 in s.mem then Wrote(s, rd, Signed8(ByteOf(s.mem[a - a % 4], a % 4))) else None
    case Sw(rs1, rs2, imm) =>
      var a := (Get(s.regs, rs1) + imm) % TWO32;
      if a % 4 == 0 then Some(State(Next(s), s.regs, s.mem[a := Get(s.regs, rs2)])) else None
    case Sb(rs1, rs2, imm) =>
      var a := (Get(s.regs, rs1) + imm) % TWO32;
      if a - a % 4 in s.mem then
        var w := WithByte(s.mem[a - a % 4], a % 4, Get(s.regs, rs2) % 256);
        Some(State(Next(s), s.regs, s.mem[a - a % 4 := w]))
      else None
    case Bne(rs1, rs2, imm) =>
      Some(s.(pc := if Get(s.regs, rs1) != Get(s.regs, rs2) then (s.pc + imm) % TWO32 else Next(s)))
    case Jalr(rd, rs1, imm) =>
      var target := (Get(s.regs, rs1) + imm) % TWO32;
      Some(State(target - target % 2, Put(s.regs, rd, Next(s)), s.mem))
    case Unknown => None
  }

  function Step(s: State): Option<State> {
    if s.pc % 4 == 0 && s.pc in s.mem then Exec(s, Decode(s.mem[s.pc])) else None
  }

  function Run(s: State, n: nat): Option<State>
    decreases n
  {
    if n == 0 then Some(s)
    else match Step(s) case None => None case Some(t) => Run(t, n - 1)
  }

  ghost predicate Reaches(s: State, t: State) {
    exists n: nat :: Run(s, n) == Some(t)
  }

  lemma {:induction false} RunAdd(s: State, m: nat, t: State, n: nat)
    requires Run(s, m) == Some(t)
    ensures Run(s, m + n) == Run(t, n)
    decreases m
  {
    hide Step;
    if m > 0 { RunAdd(Step(s).value, m - 1, t, n); }
  }

  lemma ReachesSelf(s: State)
    ensures Reaches(s, s)
  {
    assert Run(s, 0) == Some(s);
  }

  lemma ReachesJoin(s: State, t: State, u: State)
    requires Reaches(s, t) && Reaches(t, u)
    ensures Reaches(s, u)
  {
    hide Run;
    var m: nat :| Run(s, m) == Some(t);
    var n: nat :| Run(t, n) == Some(u);
    RunAdd(s, m, t, n);
  }

  /** The instruction `i` is at the address `a`. */
  predicate Has(mem: Memory, a: int, i: Instr) {
    a % 4 == 0 && a in mem && Decode(mem[a]) == i
  }

  /** One more instruction executed. */
  lemma Advance(s: State, t: State, i: Instr) returns (u: State)
    requires Reaches(s, t) && Has(t.mem, t.pc, i) && Exec(t, i).Some?
    ensures Reaches(s, u) && Exec(t, i) == Some(u) && Step(t) == Some(u)
  {
    hide Decode, Exec;
    u := Exec(t, i).value;
    assert Step(t) == Some(u);
    assert Run(u, 0) == Some(u);
    assert Run(t, 1) == Some(u);
    ReachesJoin(s, t, u);
  }

  // ----- Words in a row -----

  /** `words` are stored from `a` on. */
  predicate Holds(mem: Memory, a: int, words: seq<int>) {
    forall i :: 0 <= i < |words| ==> a + 4 * i in mem && mem[a + 4 * i] == words[i]
  }

  /** `n` words from `a` on. */
  predicate Within(x: int, a: int, n: int) {
    a <= x < a + 4 * n
  }

  /** Memory with `words` stored from `a` on. */
  function Stored(mem: Memory, a: int, words: seq<int>): Memory
    decreases |words|
  {
    if words == [] then mem else Stored(mem[a := words[0]], a + 4, words[1..])
  }

  /** That stores exactly those words, and touches nothing else. */
  lemma {:induction false} StoredExactly(mem: Memory, a: int, words: seq<int>)
    ensures Holds(Stored(mem, a, words), a, words)
    ensures forall x :: x in mem && !Within(x, a, |words|) ==> x in Stored(mem, a, words) && Stored(mem, a, words)[x] == mem[x]
    ensures forall x :: x in Stored(mem, a, words) ==> x in mem || Within(x, a, |words|)
    decreases |words|
  {
    if words != [] {
      var m := mem[a := words[0]];
      var final := Stored(m, a + 4, words[1..]);
      assert Stored(mem, a, words) == final;
      StoredExactly(m, a + 4, words[1..]);
      hide Stored;
      assert a in final && final[a] == words[0];
      forall i | 0 <= i < |words| ensures a + 4 * i in final && final[a + 4 * i] == words[i] {
        if i > 0 { assert words[1..][i - 1] == words[i] && a + 4 + 4 * (i - 1) == a + 4 * i; }
      }
    }
  }
}
