// What the generated image does when it is run.
module BootRun {
  import opened Words
  import opened Bits
  import opened Rv32
  import opened BootImage

  const START := 0x1a00_0080
  const RECORD := 0x1a00_0400
  const PADS := 0x1a10_1000
  const PROGRAM := 0x1c00_0000
  const LOADER := 0x1c00_8000

  const T0 := 5
  const T1 := 6
  const T2 := 7
  const T3 := 28

  // ----- Memory -----

  lemma HoldsAt(mem: Memory, a: int, words: seq<int>, i: nat)
    requires Holds(mem, a, words) && i < |words|
    ensures a + 4 * i in mem && mem[a + 4 * i] == words[i]
  {
  }

  lemma HoldsSplit(mem: Memory, a: int, u: seq<int>, v: seq<int>)
    ensures Holds(mem, a, u + v) <==> Holds(mem, a, u) && Holds(mem, a + 4 * |u|, v)
  {
    if Holds(mem, a, u + v) {
      forall i | 0 <= i < |u| ensures a + 4 * i in mem && mem[a + 4 * i] == u[i] {
        assert (u + v)[i] == u[i];
      }
      forall i | 0 <= i < |v| ensures a + 4 * |u| + 4 * i in mem && mem[a + 4 * |u| + 4 * i] == v[i] {
        HoldsAt(mem, a, u + v, |u| + i);
      }
    }
    if Holds(mem, a, u) && Holds(mem, a + 4 * |u|, v) {
      forall i | 0 <= i < |u + v| ensures a + 4 * i in mem && mem[a + 4 * i] == (u + v)[i] {
        if i >= |u| { HoldsAt(mem, a + 4 * |u|, v, i - |u|); }
      }
    }
  }

  lemma HoldsKept(mem: Memory, x: int, v: int, a: int, words: seq<int>)
    requires Holds(mem, a, words) && !Within(x, a, |words|)
    ensures Holds(mem[x := v], a, words)
  {
  }

  // ----- Materialising a word -----

  /** lui and addi together give the word, whatever its bit 11 is. */
  lemma Materialises(data: int)
    requires Word(data)
    ensures (Upper20(data) + Signed12(data % 0x1000)) % TWO32 == data
    ensures Word(Upper20(data))
  {
    var q, low := data / 0x1000, data % 0x1000;
    assert data == q * 0x1000 + low && 0 <= q < 0x10_0000;
    Bit11(q, low);
    if low < 0x800 {
      assert Upper20(data) == q * 0x1000;
    } else if q < 0xf_ffff {
      assert Upper20(data) == q * 0x1000 + 0x1000;
    } else {
      assert Upper20(data) == 0;
      DivModUnique(low - 0x1000, TWO32, -1, data);
    }
  }

  /** Bit 11 says whether the lower 12 bits will be taken as negative. */
  lemma Bit11(q: int, low: int)
    requires 0 <= low < 0x1000
    ensures (q * 0x1000 + low) / 0x800 % 2 == if low >= 0x800 then 1 else 0
  {
    var top := if low >= 0x800 then 1 else 0;
    DivModUnique(q * 0x1000 + low, 0x800, 2 * q + top, low - 0x800 * top);
    DivModUnique(2 * q + top, 2, q, top);
  }

  lemma UpperAligned(data: int)
    requires Word(data)
    ensures Upper20(data) % 0x1000 == 0
  {
  }

  lemma LuiFields(q: int, rest: int)
    requires 0 <= q < 0x10_0000 && 0 <= rest < 0x1000
    ensures var w := q * 0x1000 + rest;
      w % 0x80 == rest % 0x80 && w / 0x80 % 32 == rest / 0x80 && w / 0x1000 == q
  {
    var w, r := q * 0x1000 + rest, rest / 0x80;
    DivModUnique(w, 0x80, q * 0x20 + r, rest % 0x80);
    DivModUnique(q * 0x20 + r, 32, q, r);
    DivModUnique(w, 0x1000, q, rest);
  }

  lemma DecodeLui(upper: int, rest: int)
    requires Word(upper) && upper % 0x1000 == 0 && (rest == 0x2b7 || rest == 0x3b7)
    ensures Decode(upper + rest) == Lui(if rest == 0x2b7 then T0 else T2, upper)
  {
    hide Signed12, BranchOffset;
    LuiFields(upper / 0x1000, rest);
  }

  lemma LowFields(low: int, rest: int)
    requires 0 <= low < 0x1000 && 0 <= rest < 0x10_0000
    ensures var w := low * 0x10_0000 + rest;
      w % 0x80 == rest % 0x80 && w / 0x80 % 32 == rest / 0x80 % 32
  {
    var r := rest / 0x80;
    DivModUnique(low * 0x10_0000 + rest, 0x80, low * 0x2000 + r, rest % 0x80);
    DivModUnique(low * 0x2000 + r, 32, low * 0x100 + r / 32, r % 32);
  }

  lemma MiddleField(low: int, rest: int)
    requires 0 <= low < 0x1000 && 0 <= rest < 0x10_0000
    ensures (low * 0x10_0000 + rest) / 0x1000 % 8 == rest / 0x1000 % 8
  {
    var r := rest / 0x1000;
    DivModUnique(low * 0x10_0000 + rest, 0x1000, low * 0x100 + r, rest % 0x1000);
    DivModUnique(low * 0x100 + r, 8, low * 0x20 + r / 8, r % 8);
  }

  lemma HighFields(low: int, rest: int)
    requires 0 <= low < 0x1000 && 0 <= rest < 0x10_0000
    ensures var w := low * 0x10_0000 + rest;
      w / 0x8000 % 32 == rest / 0x8000 % 32 && w / 0x10_0000 % 4096 == low
  {
    var r := rest / 0x8000;
    DivModUnique(low * 0x10_0000 + rest, 0x8000, low * 0x20 + r, rest % 0x8000);
    DivModUnique(low * 0x20 + r, 32, low + r / 32, r % 32);
    DivModUnique(low * 0x10_0000 + rest, 0x10_0000, low, rest);
  }

  lemma DecodeAddi(low: int, rest: int)
    requires 0 <= low < 0x1000 && (rest == 0x2_8293 || rest == 0x3_8393)
    ensures var rd := if rest == 0x2_8293 then T0 else T2;
      Decode(low * 0x10_0000 + rest) == Addi(rd, rd, Signed12(low))
  {
    hide Signed12, BranchOffset;
    LowFields(low, rest);
    MiddleField(low, rest);
    HighFields(low, rest);
  }

  lemma DecodeRest()
    ensures Decode(0x13) == Addi(0, 0, 0)
    ensures Decode(0x53_2023) == Sw(T1, T0, 0)
    ensures Decode(0x43_0313) == Addi(T1, T1, 4)
  {
  }

  lemma BlockWords(data: int)
    requires Word(data)
    ensures var b := Block(data);
      && Decode(b[0]) == Lui(T0, Upper20(data)) && Decode(b[1]) == Addi(T0, T0, Signed12(data % 0x1000))
      && Decode(b[2]) == Addi(0, 0, 0) && Decode(b[3]) == Sw(T1, T0, 0) && Decode(b[4]) == Addi(T1, T1, 4)
  {
    hide Decode, Upper20, Signed12;
    Materialises(data);
    UpperAligned(data);
    DecodeLui(Upper20(data), 0x2b7);
    DecodeAddi(data % 0x1000, 0x2_8293);
    DecodeRest();
  }

  // ----- Storing a list of words -----

  lemma BlockCode(mem: Memory, a: int, data: int)
    requires Word(data) && a % 4 == 0 && Holds(mem, a, Block(data))
    ensures Has(mem, a, Lui(T0, Upper20(data))) && Has(mem, a + 4, Addi(T0, T0, Signed12(data % 0x1000)))
    ensures Has(mem, a + 8, Addi(0, 0, 0)) && Has(mem, a + 12, Sw(T1, T0, 0)) && Has(mem, a + 16, Addi(T1, T1, 4))
  {
    hide Decode, Upper20, Signed12, Block, Holds;
    BlockWords(data);
    var b := Block(data);
    HoldsAt(mem, a, b, 0);
    HoldsAt(mem, a, b, 1);
    HoldsAt(mem, a, b, 2);
    HoldsAt(mem, a, b, 3);
    HoldsAt(mem, a, b, 4);
  }

  /** A code address, with room after it. */
  predicate Code(a: int) {
    a % 4 == 0 && 0 <= a < 0x8000_0000
  }

  // ----- One instruction at a time -----

  lemma DoLui(o: State, s: State, rd: int, imm: int) returns (t: State)
    requires Reaches(o, s) && Code(s.pc) && Has(s.mem, s.pc, Lui(rd, imm)) && Word(imm)
    ensures Reaches(o, t) && Step(s) == Some(t) && t == State(s.pc + 4, Put(s.regs, rd, imm), s.mem)
  {
    hide Reaches, Has, Put, Step;
    t := Advance(o, s, Lui(rd, imm));
  }

  lemma DoAddi(o: State, s: State, rd: int, rs1: int, imm: int) returns (t: State)
    requires Reaches(o, s) && Code(s.pc) && Has(s.mem, s.pc, Addi(rd, rs1, imm))
    ensures Reaches(o, t) && Step(s) == Some(t) && t == State(s.pc + 4, Put(s.regs, rd, (Get(s.regs, rs1) + imm) % TWO32), s.mem)
  {
    hide Reaches, Has, Put, Get, Step;
    t := Advance(o, s, Addi(rd, rs1, imm));
  }

  lemma DoSw(o: State, s: State, rs1: int, rs2: int) returns (t: State)
    requires Reaches(o, s) && Code(s.pc) && Has(s.mem, s.pc, Sw(rs1, rs2, 0)) && Code(Get(s.regs, rs1))
    ensures Reaches(o, t) && Step(s) == Some(t) && t == State(s.pc + 4, s.regs, s.mem[Get(s.regs, rs1) := Get(s.regs, rs2)])
  {
    hide Reaches, Has, Get, Step;
    t := Advance(o, s, Sw(rs1, rs2, 0));
  }

  lemma DoLw(o: State, s: State, rd: int, rs1: int, imm: int) returns (t: State)
    requires Reaches(o, s) && Code(s.pc) && Has(s.mem, s.pc, Lw(rd, rs1, imm))
    requires Code(Get(s.regs, rs1) + imm) && Get(s.regs, rs1) + imm in s.mem
    requires Word(s.mem[Get(s.regs, rs1) + imm])
    ensures Reaches(o, t) && Step(s) == Some(t) && t == State(s.pc + 4, Put(s.regs, rd, s.mem[Get(s.regs, rs1) + imm]), s.mem)
  {
    hide Reaches, Has, Put, Get, Step;
    t := Advance(o, s, Lw(rd, rs1, imm));
  }

  lemma DoBne(o: State, s: State, rs1: int, rs2: int, imm: int) returns (t: State)
    requires Reaches(o, s) && Code(s.pc) && Code(s.pc + imm) && Has(s.mem, s.pc, Bne(rs1, rs2, imm))
    ensures Reaches(o, t) && Step(s) == Some(t)
    ensures t == State(if Get(s.regs, rs1) == Get(s.regs, rs2) then s.pc + 4 else s.pc + imm, s.regs, s.mem)
  {
    hide Reaches, Has, Get, Step;
    t := Advance(o, s, Bne(rs1, rs2, imm));
  }

  lemma DoJump(o: State, s: State, rs1: int) returns (t: State)
    requires Reaches(o, s) && Code(s.pc) && Has(s.mem, s.pc, Jalr(0, rs1, 0)) && Code(Get(s.regs, rs1))
    ensures Reaches(o, t) && Step(s) == Some(t) && t == State(Get(s.regs, rs1), s.regs, s.mem)
  {
    hide Reaches, Has, Get, Step;
    var target := Get(s.regs, rs1);
    assert target % TWO32 == target && target % 2 == 0;
    assert Put(s.regs, 0, Next(s)) == s.regs;
    hide Put, Next, Decode;
    t := Advance(o, s, Jalr(0, rs1, 0));
  }

  /** One block stores its word at the address in t1, which moves on. */
  lemma RunBlock(o: State, s: State, data: int) returns (t: State)
    requires Reaches(o, s) && Word(data) && Code(s.pc) && Code(Get(s.regs, T1))
    requires Holds(s.mem, s.pc, Block(data)) && s.pc + 20 <= 0x7fff_0000 && s.pc + 16 != Get(s.regs, T1)
    ensures Reaches(o, t) && t.pc == s.pc + 20
    ensures t.mem == s.mem[Get(s.regs, T1) := data] && Get(t.regs, T1) == Get(s.regs, T1) + 4
  {
    hide Reaches, Get, Put, Step, Upper20, Signed12, Decode, Holds, Block;
    var a := Get(s.regs, T1);
    BlockCode(s.mem, s.pc, data);
    Materialises(data);
    t := DoLui(o, s, T0, Upper20(data));
    t := DoAddi(o, t, T0, T0, Signed12(data % 0x1000));
    assert Get(t.regs, T0) == data && Get(t.regs, T1) == a;
    t := DoAddi(o, t, 0, 0, 0);
    t := DoSw(o, t, T1, T0);
    assert Has(t.mem, t.pc, Addi(T1, T1, 4));
    t := DoAddi(o, t, T1, T1, 4);
  }

  predicate AllWords(words: seq<int>) {
    forall i :: 0 <= i < |words| ==> Word(words[i])
  }

  /** Main result: for every list of words, the blocks emitted for it store exactly that
      list, at the address in t1 and onwards. */
  lemma {:induction false} RunBlocks(o: State, s: State, words: seq<int>) returns (t: State)
    requires Reaches(o, s) && AllWords(words) && Code(s.pc) && Code(Get(s.regs, T1))
    requires Holds(s.mem, s.pc, Blocks(words))
    requires s.pc + 20 * |words| <= Get(s.regs, T1) <= 0x7fff_0000 - 4 * |words|
    ensures Reaches(o, t) && t.pc == s.pc + 20 * |words| && Get(t.regs, T1) == Get(s.regs, T1) + 4 * |words|
    ensures t.mem == Stored(s.mem, Get(s.regs, T1), words)
    decreases |words|
  {
    hide Reaches, Get, Holds, Block, Step;
    if words == [] {
      t := s;
    } else {
      var a := Get(s.regs, T1);
      HoldsSplit(s.mem, s.pc, Block(words[0]), Blocks(words[1..]));
      t := RunBlock(o, s, words[0]);
      HoldsKept(s.mem, a, words[0], s.pc + 20, Blocks(words[1..]));
      t := RunBlocks(o, t, words[1..]);
    }
  }
}
