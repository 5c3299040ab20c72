// The second-stage loader: what it copies, and where it ends.
module BootLoader {
  import opened Words
  import opened Bits
  import opened Rv32
  import opened BootImage
  import opened BootRun

  // ----- Its code -----

  predicate SelectCode(mem: Memory) {
    && Has(mem, LOADER, Lui(T2, PADS)) && Has(mem, LOADER + 4, Addi(T1, 0, 0xff))
    && Has(mem, LOADER + 8, Sb(T2, T1, 0)) && Has(mem, LOADER + 12, Sb(T2, T1, 4))
    && Has(mem, LOADER + 16, Lui(T1, 0x1_0000))
  }

  predicate DelayCode(mem: Memory) {
    Has(mem, LOADER + 20, Addi(T1, T1, -1)) && Has(mem, LOADER + 24, Bne(T1, 0, -4))
  }

  predicate ChooseCode(mem: Memory) {
    && Has(mem, LOADER + 28, Lb(T1, T2, 8)) && Has(mem, LOADER + 32, Andi(T1, T1, 1))
    && Has(mem, LOADER + 36, Slli(T1, T1, 12)) && Has(mem, LOADER + 40, Add(T0, T0, T1))
  }

  predicate SizeCode(mem: Memory) {
    Has(mem, LOADER + 44, Lw(T2, T0, 0)) && Has(mem, LOADER + 48, Add(T2, T2, T0))
  }

  /** The copying loop less its first instruction, and the jump to the program. */
  predicate CopyRest(mem: Memory) {
    && Has(mem, LOADER + 56, Addi(T0, T0, 4))
    && Has(mem, LOADER + 60, Sw(T3, T1, 0)) && Has(mem, LOADER + 64, Addi(T3, T3, 4))
    && Has(mem, LOADER + 68, Bne(T0, T2, -16))
    && Has(mem, LOADER + 72, Lui(T1, PROGRAM)) && Has(mem, LOADER + 76, Jalr(0, T1, 0))
  }

  predicate CopyCode(mem: Memory) {
    Has(mem, LOADER + 52, Lw(T1, T0, 4)) && CopyRest(mem)
  }

  lemma DecodeSelect()
    ensures var l := Loader();
      Decode(l[0]) == Lui(T2, PADS) && Decode(l[1]) == Addi(T1, 0, 0xff) && Decode(l[4]) == Lui(T1, 0x1_0000)
  {
    hide BranchOffset;
  }

  lemma DecodePads()
    ensures var l := Loader(); Decode(l[2]) == Sb(T2, T1, 0) && Decode(l[3]) == Sb(T2, T1, 4)
  {
    hide BranchOffset;
  }

  lemma DelayOffset()
    ensures BranchOffset(0xfe03_1ee3) == -4
  {
    assert 0xfe03_1ee3 / 0x100 % 16 == 14 && 0xfe03_1ee3 / 0x200_0000 % 64 == 63;
    assert 0xfe03_1ee3 / 0x80 % 2 == 1 && 0xfe03_1ee3 / 0x8000_0000 % 2 == 1;
  }

  lemma CopyOffset()
    ensures BranchOffset(0xfe72_98e3) == -16
  {
    assert 0xfe72_98e3 / 0x100 % 16 == 8 && 0xfe72_98e3 / 0x200_0000 % 64 == 63;
    assert 0xfe72_98e3 / 0x80 % 2 == 1 && 0xfe72_98e3 / 0x8000_0000 % 2 == 1;
  }

  lemma DecodeCount()
    ensures Decode(Loader()[5]) == Addi(T1, T1, -1)
  {
    hide BranchOffset;
  }

  lemma DecodeDelay()
    ensures Decode(Loader()[6]) == Bne(T1, 0, -4)
  {
    hide BranchOffset;
    DelayOffset();
  }

  lemma DecodeSelector()
    ensures var l := Loader(); Decode(l[7]) == Lb(T1, T2, 8) && Decode(l[8]) == Andi(T1, T1, 1)
  {
    hide BranchOffset;
  }

  lemma DecodeChoose()
    ensures var l := Loader(); Decode(l[9]) == Slli(T1, T1, 12) && Decode(l[10]) == Add(T0, T0, T1)
  {
    hide BranchOffset;
  }

  lemma DecodeSize()
    ensures var l := Loader(); Decode(l[11]) == Lw(T2, T0, 0) && Decode(l[12]) == Add(T2, T2, T0)
  {
  }

  lemma DecodeLoad()
    ensures var l := Loader(); Decode(l[13]) == Lw(T1, T0, 4) && Decode(l[14]) == Addi(T0, T0, 4)
  {
    hide BranchOffset;
  }

  lemma DecodeCopy()
    ensures var l := Loader(); Decode(l[15]) == Sw(T3, T1, 0) && Decode(l[16]) == Addi(T3, T3, 4)
  {
    hide BranchOffset;
  }

  lemma DecodeTest()
    ensures Decode(Loader()[17]) == Bne(T0, T2, -16)
  {
    hide BranchOffset;
    CopyOffset();
  }

  lemma DecodeEnd()
    ensures var l := Loader(); Decode(l[18]) == Lui(T1, PROGRAM) && Decode(l[19]) == Jalr(0, T1, 0)
  {
    hide BranchOffset;
  }

  lemma HoldsHas(mem: Memory, a: int, words: seq<int>, i: nat, instr: Instr)
    requires Holds(mem, a, words) && i < |words| && a % 4 == 0 && Decode(words[i]) == instr
    ensures Has(mem, a + 4 * i, instr)
  {
    hide Decode;
  }

  lemma LoaderCode(mem: Memory)
    requires Holds(mem, LOADER, Loader())
    ensures SelectCode(mem) && DelayCode(mem) && ChooseCode(mem) && SizeCode(mem) && CopyCode(mem)
  {
    hide Decode, Loader, Holds, Has;
    var l := Loader();
    DecodeSelect();
    DecodePads();
    HoldsHas(mem, LOADER, l, 0, Lui(T2, PADS));
    HoldsHas(mem, LOADER, l, 1, Addi(T1, 0, 0xff));
    HoldsHas(mem, LOADER, l, 2, Sb(T2, T1, 0));
    HoldsHas(mem, LOADER, l, 3, Sb(T2, T1, 4));
    HoldsHas(mem, LOADER, l, 4, Lui(T1, 0x1_0000));
    DecodeCount();
    DecodeDelay();
    HoldsHas(mem, LOADER, l, 5, Addi(T1, T1, -1));
    HoldsHas(mem, LOADER, l, 6, Bne(T1, 0, -4));
    DecodeSelector();
    DecodeChoose();
    HoldsHas(mem, LOADER, l, 7, Lb(T1, T2, 8));
    HoldsHas(mem, LOADER, l, 8, Andi(T1, T1, 1));
    HoldsHas(mem, LOADER, l, 9, Slli(T1, T1, 12));
    HoldsHas(mem, LOADER, l, 10, Add(T0, T0, T1));
    DecodeSize();
    HoldsHas(mem, LOADER, l, 11, Lw(T2, T0, 0));
    HoldsHas(mem, LOADER, l, 12, Add(T2, T2, T0));
    DecodeLoad();
    DecodeCopy();
    HoldsHas(mem, LOADER, l, 13, Lw(T1, T0, 4));
    HoldsHas(mem, LOADER, l, 14, Addi(T0, T0, 4));
    HoldsHas(mem, LOADER, l, 15, Sw(T3, T1, 0));
    HoldsHas(mem, LOADER, l, 16, Addi(T3, T3, 4));
    DecodeTest();
    DecodeEnd();
    HoldsHas(mem, LOADER, l, 17, Bne(T0, T2, -16));
    HoldsHas(mem, LOADER, l, 18, Lui(T1, PROGRAM));
    HoldsHas(mem, LOADER, l, 19, Jalr(0, T1, 0));
  }

  // ----- Its stages -----

  lemma DoAdd(o: State, s: State, rd: int, rs1: int, rs2: int) returns (t: State)
    requires Reaches(o, s) && Code(s.pc) && Has(s.mem, s.pc, Add(rd, rs1, rs2))
    ensures Reaches(o, t)
    ensures t == State(s.pc + 4, Put(s.regs, rd, (Get(s.regs, rs1) + Get(s.regs, rs2)) % TWO32), s.mem)
  {
    hide Reaches, Has, Put, Get, Step;
    t := Advance(o, s, Add(rd, rs1, rs2));
  }

  /** The low byte of a word set to 0xff. */
  function PadSet(mem: Memory, a: int): Memory
    requires a in mem
  {
    mem[a := WithByte(mem[a], 0, 0xff)]
  }

  lemma DoSb(o: State, s: State, rs1: int, rs2: int, imm: int) returns (t: State)
    requires Reaches(o, s) && Code(s.pc) && Has(s.mem, s.pc, Sb(rs1, rs2, imm))
    requires Code(Get(s.regs, rs1) + imm) && Get(s.regs, rs1) + imm in s.mem && Get(s.regs, rs2) == 0xff
    ensures Reaches(o, t) && t == State(s.pc + 4, s.regs, PadSet(s.mem, Get(s.regs, rs1) + imm))
  {
    hide Reaches, Has, Get, WithByte, Step;
    t := Advance(o, s, Sb(rs1, rs2, imm));
  }

  /** The pads are set up, and the delay loop's counter. */
  lemma Select(o: State, s: State) returns (t: State)
    requires Reaches(o, s) && s.pc == LOADER && SelectCode(s.mem) && PADS in s.mem && PADS + 4 in s.mem
    ensures Reaches(o, t) && t.pc == LOADER + 20 && t.mem == PadSet(PadSet(s.mem, PADS), PADS + 4)
    ensures Get(t.regs, T0) == Get(s.regs, T0) && Get(t.regs, T3) == Get(s.regs, T3)
    ensures Get(t.regs, T1) == 0x1_0000 && Get(t.regs, T2) == PADS
  {
    hide Reaches, Get, Put, Decode, WithByte, Step;
    t := DoLui(o, s, T2, PADS);
    t := DoAddi(o, t, T1, 0, 0xff);
    assert Get(t.regs, T1) == 0xff by { ZeroReads(s); }
    t := DoSb(o, t, T2, T1, 0);
    t := DoSb(o, t, T2, T1, 4);
    assert Has(t.mem, t.pc, Lui(T1, 0x1_0000));
    t := DoLui(o, t, T1, 0x1_0000);
  }

  lemma ZeroReads(s: State)
    ensures forall regs: Registers :: Get(regs, 0) == 0
  {
  }

  /** The delay loop ends, after as many rounds as t1 says. */
  lemma {:induction false} Delay(o: State, s: State) returns (t: State)
    requires Reaches(o, s) && s.pc == LOADER + 20 && DelayCode(s.mem) && 0 < Get(s.regs, T1) <= 0x1_0000
    ensures Reaches(o, t) && t.pc == LOADER + 28 && t.mem == s.mem
    ensures Get(t.regs, T0) == Get(s.regs, T0) && Get(t.regs, T2) == Get(s.regs, T2) && Get(t.regs, T3) == Get(s.regs, T3)
    decreases Get(s.regs, T1)
  {
    hide Reaches, Get, Put, Has, Step;
    ZeroReads(s);
    t := DoAddi(o, s, T1, T1, -1);
    assert Get(t.regs, T1) == Get(s.regs, T1) - 1;
    t := DoBne(o, t, T1, 0, -4);
    if Get(t.regs, T1) != 0 {
      var u := t;
      t := Delay(o, u);
    }
  }

  /** Only the lowest bit of the selector is left. */
  lemma LowestBit(word: int)
    requires Word(word)
    ensures And(Signed8(ByteOf(word, 0)) % TWO32, 1) == word % 2
  {
    var b := ByteOf(word, 0);
    LowByte(word);
    ExtendedByte(b);
    hide ByteOf, Signed8;
    AndOne(Signed8(b) % TWO32);
  }

  lemma LowByte(word: int)
    requires Word(word)
    ensures ByteOf(word, 0) % 2 == word % 2
  {
    var q, b := word / 256, word % 256;
    DivModUnique(word, 2, 128 * q + b / 2, b % 2);
  }

  lemma ExtendedByte(b: int)
    requires 0 <= b < 256
    ensures 0 <= Signed8(b) % TWO32 && Signed8(b) % TWO32 % 2 == b % 2
  {
    if b < 128 {
      assert Signed8(b) % TWO32 == b;
    } else {
      assert Signed8(b) % TWO32 == b + 0xffff_ff00;
    }
  }

  lemma AndOne(v: int)
    requires v >= 0
    ensures And(v, 1) == v % 2
  {
    assert And(v / 2, 0) == 0;
  }

  lemma Twelve()
    ensures PowerOfTwo(12) == 0x1000
  {
    assert PowerOfTwo(4) == 16;
    assert PowerOfTwo(8) == 256;
  }

  /** The record the selector chooses. */
  function Chosen(selector: int): int {
    RECORD + selector % 2 * 0x1000
  }

  lemma Choose(o: State, s: State) returns (t: State)
    requires Reaches(o, s) && s.pc == LOADER + 28 && ChooseCode(s.mem)
    requires Get(s.regs, T0) == RECORD && Get(s.regs, T2) == PADS && PADS + 8 in s.mem && Word(s.mem[PADS + 8])
    ensures Reaches(o, t) && t.pc == LOADER + 44 && t.mem == s.mem
    ensures Get(t.regs, T0) == Chosen(s.mem[PADS + 8]) && Get(t.regs, T3) == Get(s.regs, T3)
  {
    hide Reaches, Get, Put, Has, And, Signed8, ByteOf, PowerOfTwo, Step;
    var selector := s.mem[PADS + 8];
    t := Advance(o, s, Lb(T1, T2, 8));
    t := Advance(o, t, Andi(T1, T1, 1));
    LowestBit(selector);
    assert Get(t.regs, T1) == selector % 2;
    t := Advance(o, t, Slli(T1, T1, 12));
    Twelve();
    assert Get(t.regs, T1) == selector % 2 * 0x1000;
    t := DoAdd(o, t, T0, T0, T1);
  }

  /** The end of the record, from its size. */
  lemma Size(o: State, s: State) returns (t: State)
    requires Reaches(o, s) && s.pc == LOADER + 44 && SizeCode(s.mem)
    requires Code(Get(s.regs, T0)) && Get(s.regs, T0) in s.mem && Word(s.mem[Get(s.regs, T0)])
    ensures Reaches(o, t) && t.pc == LOADER + 52 && t.mem == s.mem
    ensures Get(t.regs, T0) == Get(s.regs, T0) && Get(t.regs, T3) == Get(s.regs, T3)
    ensures Get(t.regs, T2) == (Get(s.regs, T0) + s.mem[Get(s.regs, T0)]) % TWO32
  {
    hide Reaches, Get, Put, Has, Step;
    t := DoLw(o, s, T2, T0, 0);
    t := DoAdd(o, t, T2, T2, T0);
  }
}
