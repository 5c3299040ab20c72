// The whole image: from its first instruction to the program it carries.
module BootTransfer {
  import opened Words
  import opened Rv32
  import opened BootImage
  import opened BootRun
  import opened BootLoader
  import opened BootCopy

  // ----- Memory after stores -----

  lemma HoldsFrame(mem: Memory, b: int, stored: seq<int>, a: int, words: seq<int>)
    requires Holds(mem, a, words) && (a + 4 * |words| <= b || b + 4 * |stored| <= a)
    ensures Holds(Stored(mem, b, stored), a, words)
  {
    hide Stored;
    StoredExactly(mem, b, stored);
    forall i | 0 <= i < |words| ensures a + 4 * i in Stored(mem, b, stored) && Stored(mem, b, stored)[a + 4 * i] == words[i] {
      HoldsAt(mem, a, words, i);
      assert !Within(a + 4 * i, b, |stored|);
    }
  }

  predicate HasPads(mem: Memory) {
    PADS in mem && PADS + 4 in mem && PADS + 8 in mem && Word(mem[PADS + 8])
  }

  lemma PadsKept(mem: Memory)
    requires HasPads(mem)
    ensures var m := Stored(mem, LOADER, Loader()); HasPads(m) && m[PADS + 8] == mem[PADS + 8]
  {
    hide Stored, Loader;
    StoredExactly(mem, LOADER, Loader());
    assert !Within(PADS, LOADER, 20) && !Within(PADS + 4, LOADER, 20) && !Within(PADS + 8, LOADER, 20);
  }

  /** The two pad registers the loader sets. */
  function PadsSet(mem: Memory): Memory
    requires HasPads(mem)
  {
    PadSet(PadSet(mem, PADS), PADS + 4)
  }

  lemma PadsApart(mem: Memory, a: int, words: seq<int>)
    requires HasPads(mem) && Holds(mem, a, words)
    requires PADS + 8 <= a || a + 4 * |words| <= PADS
    ensures Holds(PadsSet(mem), a, words) && HasPads(PadsSet(mem)) && PadsSet(mem)[PADS + 8] == mem[PADS + 8]
  {
    hide WithByte, Holds;
    HoldsKept(mem, PADS, WithByte(mem[PADS], 0, 0xff), a, words);
    var m := PadSet(mem, PADS);
    HoldsKept(m, PADS + 4, WithByte(m[PADS + 4], 0, 0xff), a, words);
  }

  // ----- The loader as a whole -----

  /** A record: the size of a program in bytes, then the program. */
  predicate Record(mem: Memory, a: int, size: int, words: seq<int>) {
    Holds(mem, a, [size] + words)
  }

  /** Up to the copying loop. */
  lemma ToCopying(o: State, s: State, size: int, words: seq<int>) returns (t: State)
    requires Reaches(o, s) && s.pc == LOADER && Holds(s.mem, LOADER, Loader()) && HasPads(s.mem)
    requires Get(s.regs, T0) == RECORD && Get(s.regs, T3) == PROGRAM
    requires Record(s.mem, Chosen(s.mem[PADS + 8]), size, words) && Word(size) && |words| <= ROOM
    ensures var from := Chosen(s.mem[PADS + 8]);
      && Reaches(o, t) && Copying(t, from, PROGRAM) && t.mem == PadsSet(s.mem)
      && Holds(t.mem, from + 4, words) && Get(t.regs, T2) == (from + size) % TWO32
  {
    hide Reaches, Get, Holds, Stored, Loader, SelectCode, DelayCode, ChooseCode, SizeCode, CopyCode, PadSet;
    var from := Chosen(s.mem[PADS + 8]);
    LoaderCode(s.mem);
    t := Select(o, s);
    PadsApart(s.mem, LOADER, Loader());
    PadsApart(s.mem, from, [size] + words);
    LoaderCode(t.mem);
    var u := t;
    t := Delay(o, u);
    u := t;
    t := Choose(o, u);
    u := t;
    HoldsAt(t.mem, from, [size] + words, 0);
    t := Size(o, u);
    HoldsSplit(t.mem, from, [size], words);
  }

  /** From the end of the loop to the program. */
  lemma ToProgram(o: State, s: State) returns (t: State)
    requires Reaches(o, s) && s.pc == LOADER + 72 && CopyRest(s.mem)
    ensures Reaches(o, t) && t.pc == PROGRAM && t.mem == s.mem
  {
    hide Reaches, Get, Put, Has, Step;
    t := DoLui(o, s, T1, PROGRAM);
    t := DoJump(o, t, T1);
  }

  /** The loader copies the record the selector chooses, and jumps to the copy. */
  lemma LoaderRuns(o: State, s: State, words: seq<int>) returns (t: State)
    requires Reaches(o, s) && s.pc == LOADER && Holds(s.mem, LOADER, Loader()) && HasPads(s.mem)
    requires Get(s.regs, T0) == RECORD && Get(s.regs, T3) == PROGRAM
    requires Record(s.mem, Chosen(s.mem[PADS + 8]), 4 * |words|, words) && AllWords(words) && 0 < |words| <= ROOM
    ensures Reaches(o, t) && t.pc == PROGRAM && t.mem == Stored(PadsSet(s.mem), PROGRAM, words)
  {
    hide Reaches, Get, Holds, Stored, Loader, PadsSet, AllWords, Copying, CopyRest;
    var from := Chosen(s.mem[PADS + 8]);
    var u := ToCopying(o, s, 4 * |words|, words);
    t := CopyRecord(u, from, 4 * |words|, words);
    assert words[..4 * |words| / 4] == words;
    ReachesJoin(o, u, t);
    var v := t;
    t := ToProgram(o, v);
  }

  // ----- The image as a whole -----

  const ENTRY := 0x1a00_0214

  lemma HoldsThree(mem: Memory, a: int, u: seq<int>, v: seq<int>, w: seq<int>)
    requires Holds(mem, a, u + v + w)
    ensures Holds(mem, a, u) && Holds(mem, a + 4 * |u|, v) && Holds(mem, a + 4 * |u| + 4 * |v|, w)
  {
    hide Holds;
    HoldsSplit(mem, a, u + v, w);
    HoldsSplit(mem, a, u, v);
  }

  lemma TailParts(mem: Memory, a: int, pre: seq<int>, fill: seq<int>, size: int, words: seq<int>)
    requires Holds(mem, a, pre + fill + [size] + words)
    ensures Holds(mem, a, pre) && Holds(mem, a + 4 * |pre| + 4 * |fill|, [size] + words)
  {
    hide Holds;
    HoldsSplit(mem, a, pre + fill + [size], words);
    HoldsThree(mem, a, pre, fill, [size]);
    HoldsSplit(mem, a + 4 * |pre| + 4 * |fill|, [size], words);
  }

  lemma RecordPart(mem: Memory, size: int, words: seq<int>)
    requires Holds(mem, START, ImageOf(size, words))
    ensures Holds(mem, START, Preamble(size)) && Record(mem, RECORD, size, words)
  {
    hide Holds, Preamble, Repeat;
    TailParts(mem, START, Preamble(size), Repeat(0, 115), size, words);
  }

  lemma PreambleParts(mem: Memory, size: int)
    requires Holds(mem, START, Preamble(size))
    ensures Holds(mem, START, [0x1c00_8337]) && Holds(mem, START + 4, Blocks(Loader())) && Holds(mem, ENTRY, Entry(size))
  {
    hide Holds, Loader, Blocks, Entry;
    HoldsThree(mem, START, [0x1c00_8337], Blocks(Loader()), Entry(size));
  }

  lemma DecodeEntry(size: int)
    ensures var e := Entry(size);
      Decode(e[0]) == Lui(T0, 0x1a00_0000) && Decode(e[1]) == Addi(T0, T0, 0x400) && Decode(e[2]) == Addi(0, 0, 0)
  {
    hide BranchOffset, LuiWord, AddiWord;
  }

  lemma DecodeJump(size: int)
    ensures var e := Entry(size);
      Decode(e[5]) == Lui(T3, PROGRAM) && Decode(e[6]) == Lui(T1, LOADER) && Decode(e[7]) == Jalr(0, T1, 0)
  {
    hide BranchOffset, LuiWord, AddiWord;
  }

  lemma DecodeSizeWords(size: int)
    requires Word(size)
    ensures var e := Entry(size);
      Decode(e[3]) == Lui(T2, Upper20(size)) && Decode(e[4]) == Addi(T2, T2, Signed12(size % 0x1000))
  {
    hide Decode, Upper20, Signed12;
    Materialises(size);
    UpperAligned(size);
    DecodeLui(Upper20(size), 0x3b7);
    DecodeAddi(size % 0x1000, 0x3_8393);
  }

  predicate EntryCode(mem: Memory, size: int) {
    && Has(mem, ENTRY, Lui(T0, 0x1a00_0000)) && Has(mem, ENTRY + 4, Addi(T0, T0, 0x400))
    && Has(mem, ENTRY + 8, Addi(0, 0, 0)) && Has(mem, ENTRY + 12, Lui(T2, Upper20(size)))
    && Has(mem, ENTRY + 16, Addi(T2, T2, Signed12(size % 0x1000))) && Has(mem, ENTRY + 20, Lui(T3, PROGRAM))
    && Has(mem, ENTRY + 24, Lui(T1, LOADER)) && Has(mem, ENTRY + 28, Jalr(0, T1, 0))
  }

  lemma EntryHas(mem: Memory, size: int)
    requires Word(size) && Holds(mem, ENTRY, Entry(size))
    ensures EntryCode(mem, size)
  {
    hide Decode, Entry, Holds, Has, Upper20, Signed12;
    var e := Entry(size);
    DecodeEntry(size);
    DecodeJump(size);
    DecodeSizeWords(size);
    HoldsHas(mem, ENTRY, e, 0, Lui(T0, 0x1a00_0000));
    HoldsHas(mem, ENTRY, e, 1, Addi(T0, T0, 0x400));
    HoldsHas(mem, ENTRY, e, 2, Addi(0, 0, 0));
    HoldsHas(mem, ENTRY, e, 3, Lui(T2, Upper20(size)));
    HoldsHas(mem, ENTRY, e, 4, Addi(T2, T2, Signed12(size % 0x1000)));
    HoldsHas(mem, ENTRY, e, 5, Lui(T3, PROGRAM));
    HoldsHas(mem, ENTRY, e, 6, Lui(T1, LOADER));
    HoldsHas(mem, ENTRY, e, 7, Jalr(0, T1, 0));
  }

  lemma RunEntry(o: State, s: State, size: int) returns (t: State)
    requires Reaches(o, s) && s.pc == ENTRY && Word(size) && EntryCode(s.mem, size)
    ensures Reaches(o, t) && t.pc == LOADER && t.mem == s.mem
    ensures Get(t.regs, T0) == RECORD && Get(t.regs, T3) == PROGRAM
  {
    hide Reaches, Get, Put, Has, Upper20, Signed12, Step;
    Materialises(size);
    t := DoLui(o, s, T0, 0x1a00_0000);
    t := DoAddi(o, t, T0, T0, 0x400);
    assert Get(t.regs, T0) == RECORD;
    t := DoAddi(o, t, 0, 0, 0);
    t := DoLui(o, t, T2, Upper20(size));
    t := DoAddi(o, t, T2, T2, Signed12(size % 0x1000));
    assert Get(t.regs, T0) == RECORD;
    t := DoLui(o, t, T3, PROGRAM);
    t := DoLui(o, t, T1, LOADER);
    t := DoJump(o, t, T1);
  }

  /** Memory once the loader has been stored. */
  function WithLoader(mem: Memory): Memory {
    Stored(mem, LOADER, Loader())
  }

  lemma LoaderIsWords()
    ensures AllWords(Loader())
  {
  }

  /** From the image's first instruction to the loader's. */
  lemma ToLoader(s: State, file: seq<Byte>) returns (t: State)
    requires s.pc == START && Holds(s.mem, START, Image(file)) && HasPads(s.mem)
    ensures Reaches(s, t) && t.pc == LOADER && t.mem == WithLoader(s.mem)
    ensures Holds(t.mem, LOADER, Loader()) && HasPads(t.mem) && t.mem[PADS + 8] == s.mem[PADS + 8]
    ensures Get(t.regs, T0) == RECORD && Get(t.regs, T3) == PROGRAM
  {
    hide Reaches, Get, Put, Holds, Stored, Loader, Blocks, AllWords, Has, ImageOf, Entry, Decode, FileWords, EntryCode, Step;
    var size := |file| % TWO32;
    RecordPart(s.mem, |file| % TWO32, FileWords(file));
    PreambleParts(s.mem, size);
    ReachesSelf(s);
    FirstHas(s.mem);
    t := DoLui(s, s, T1, LOADER);
    LoaderIsWords();
    var u := t;
    t := RunBlocks(s, u, Loader());
    HoldsFrame(s.mem, LOADER, Loader(), ENTRY, Entry(size));
    StoredExactly(s.mem, LOADER, Loader());
    PadsKept(s.mem);
    EntryHas(t.mem, size);
    u := t;
    t := RunEntry(s, u, size);
  }

  lemma FirstHas(mem: Memory)
    requires Holds(mem, START, [0x1c00_8337])
    ensures Has(mem, START, Lui(T1, LOADER))
  {
    assert Decode(0x1c00_8337) == Lui(T1, LOADER);
    hide Decode;
    HoldsHas(mem, START, [0x1c00_8337], 0, Lui(T1, LOADER));
  }

  /** The record at the chosen place is still there once the loader is stored. */
  lemma RecordKept(mem: Memory, a: int, size: int, words: seq<int>)
    requires Record(mem, a, size, words) && a + 4 + 4 * |words| <= LOADER
    ensures Record(WithLoader(mem), a, size, words)
  {
    hide Stored, Holds, Loader;
    HoldsFrame(mem, LOADER, Loader(), a, [size] + words);
  }

  /** Whichever record the selector chooses is the program that runs. */
  lemma ChosenBoots(s: State, file: seq<Byte>, words: seq<int>) returns (t: State)
    requires s.pc == START && Holds(s.mem, START, Image(file)) && HasPads(s.mem)
    requires Record(s.mem, Chosen(s.mem[PADS + 8]), 4 * |words|, words) && AllWords(words) && 0 < |words| <= ROOM
    ensures Reaches(s, t) && t.pc == PROGRAM && HasPads(WithLoader(s.mem))
    ensures t.mem == Stored(PadsSet(WithLoader(s.mem)), PROGRAM, words)
    ensures Holds(t.mem, PROGRAM, words)
  {
    hide Reaches, Get, Holds, Stored, Loader, AllWords, Image, PadsSet, Record, WithLoader;
    t := ToLoader(s, file);
    RecordKept(s.mem, Chosen(s.mem[PADS + 8]), 4 * |words|, words);
    var u := t;
    t := LoaderRuns(s, u, words);
    StoredExactly(PadsSet(WithLoader(s.mem)), PROGRAM, words);
  }

  /** Main result: with the selector's lowest bit clear, running the image of a file whose
      length is a positive multiple of four, up to 0x8038, ends at the first address of
      the program memory, with the file's words from there on. */
  lemma ImageBoots(s: State, file: seq<Byte>) returns (t: State)
    requires s.pc == START && Holds(s.mem, START, Image(file)) && HasPads(s.mem) && s.mem[PADS + 8] % 2 == 0
    requires 0 < |file| <= 4 * ROOM && |file| % 4 == 0
    ensures Reaches(s, t) && t.pc == PROGRAM && Holds(t.mem, PROGRAM, FileWords(file))
    ensures HasPads(WithLoader(s.mem)) && t.mem == Stored(PadsSet(WithLoader(s.mem)), PROGRAM, FileWords(file))
  {
    hide Reaches, Holds, Stored, Loader, ImageOf, PadsSet, WithLoader, FileWords, Blocks, Entry;
    RecordPart(s.mem, |file| % TWO32, FileWords(file));
    assert |file| == 4 * |FileWords(file)|;
    t := ChosenBoots(s, file, FileWords(file));
  }

  // ----- Exactly when the loop ends -----

  predicate WordsOnly(mem: Memory) {
    forall a :: a in mem ==> Word(mem[a])
  }

  /** Up to `n` words from `a` on, as far as memory can be read. */
  function Readable(mem: Memory, a: int, n: nat): (words: seq<int>)
    ensures |words| <= n
    decreases n
  {
    if n == 0 || a !in mem then [] else [mem[a]] + Readable(mem, a + 4, n - 1)
  }

  lemma {:induction false} ReadableHolds(mem: Memory, a: int, n: nat)
    requires WordsOnly(mem)
    ensures var w := Readable(mem, a, n); Holds(mem, a, w) && AllWords(w) && (|w| < n ==> a + 4 * |w| !in mem)
    decreases n
  {
    hide WordsOnly;
    if n > 0 && a in mem {
      WordAt(mem, a);
      ReadableHolds(mem, a + 4, n - 1);
      var rest := Readable(mem, a + 4, n - 1);
      HoldsOne(mem, a);
      HoldsSplit(mem, a, [mem[a]], rest);
    }
  }

  lemma WordAt(mem: Memory, a: int)
    requires WordsOnly(mem) && a in mem
    ensures Word(mem[a])
  {
  }

  lemma HoldsOne(mem: Memory, a: int)
    requires a in mem
    ensures Holds(mem, a, [mem[a]])
  {
  }

  /** Words that memory holds can be read. */
  lemma ReadsHeld(mem: Memory, a: int, held: seq<int>, w: seq<int>, n: nat)
    requires Holds(mem, a, held) && (|w| < n ==> a + 4 * |w| !in mem)
    ensures |w| >= n || |w| >= |held|
  {
    if |w| < |held| { HoldsAt(mem, a, held, |w|); }
  }

  /** What the loader's stores and the pads leave unmapped. */
  lemma StillUnmapped(mem: Memory, x: int)
    requires x !in mem && x < LOADER && HasPads(mem)
    ensures HasPads(WithLoader(mem)) && x !in PadsSet(WithLoader(mem))
  {
    hide Stored, Loader, WithByte;
    PadsKept(mem);
    StoredExactly(mem, LOADER, Loader());
  }

  /** The loader's loop about to start on the image's own record. */
  lemma AtLoop(s: State, file: seq<Byte>, words: seq<int>) returns (t: State)
    requires s.pc == START && Holds(s.mem, START, Image(file)) && HasPads(s.mem) && s.mem[PADS + 8] % 2 == 0
    requires Holds(s.mem, RECORD + 4, words) && |words| <= ROOM
    ensures var size := |file| % TWO32;
      && Reaches(s, t) && Copying(t, RECORD, PROGRAM) && Get(t.regs, T2) == (RECORD + size) % TWO32
      && Holds(t.mem, RECORD + 4, words) && HasPads(WithLoader(s.mem)) && t.mem == PadsSet(WithLoader(s.mem))
  {
    hide Reaches, Get, Holds, Stored, Loader, ImageOf, PadsSet, WithLoader, Copying, FileWords;
    var size := |file| % TWO32;
    RecordPart(s.mem, size, FileWords(file));
    HoldsSplit(s.mem, RECORD, [size], FileWords(file));
    HoldsSplit(s.mem, RECORD, [size], words);
    var u := ToLoader(s, file);
    RecordKept(s.mem, RECORD, size, words);
    t := ToCopying(s, u, size, words);
  }

  /** Main result: with the selector's lowest bit clear, running the image of any file comes
      to the copying loop, and the loop leaves through its own size test, without executing
      an instruction that it has stored itself, if and only if the file's length, as the
      32-bit size field has it, is a positive multiple of four of at most 0x8038. */
  lemma ImageLeavesIff(s: State, file: seq<Byte>) returns (t: State)
    requires s.pc == START && Holds(s.mem, START, Image(file)) && HasPads(s.mem) && s.mem[PADS + 8] % 2 == 0
    requires WordsOnly(s.mem)
    ensures Reaches(s, t) && Copying(t, RECORD, PROGRAM)
    ensures LeavesBySizeTest(t) <==> 0 < |file| % TWO32 <= 4 * ROOM && |file| % TWO32 % 4 == 0
  {
    hide Reaches, Get, Holds, Stored, Loader, ImageOf, PadsSet, WithLoader, Copying, FileWords, AllWords, Readable, WordsOnly, LeavesBySizeTest;
    var size := |file| % TWO32;
    var words := Readable(s.mem, RECORD + 4, ROOM);
    ReadableHolds(s.mem, RECORD + 4, ROOM);
    RecordPart(s.mem, size, FileWords(file));
    HoldsSplit(s.mem, RECORD, [size], FileWords(file));
    ReadsHeld(s.mem, RECORD + 4, FileWords(file), words, ROOM);
    t := AtLoop(s, file, words);
    if |words| < ROOM { StillUnmapped(s.mem, RECORD + 4 + 4 * |words|); }
    SizeHeld(|file|, |words|);
    LeavesIff(t, RECORD, size, words);
  }

  /** A size that fits is not more than what the image has of the file. */
  lemma SizeHeld(length: nat, readable: nat)
    requires readable >= ROOM || readable >= length / 4
    ensures SizeFits(length % TWO32) ==> length % TWO32 <= 4 * readable
  {
  }

  /** For every other length, be it no multiple of four, zero or more than 0x8038, the loop
      overwrites its own first instruction with the word 0x200d behind the size, and goes
      on to execute that word. */
  lemma ImageOverruns(s: State, file: seq<Byte>, words: seq<int>) returns (t: State)
    requires s.pc == START && Holds(s.mem, START, Image(file)) && HasPads(s.mem) && s.mem[PADS + 8] % 2 == 0
    requires !(0 < |file| % TWO32 <= 4 * ROOM && |file| % TWO32 % 4 == 0)
    requires Holds(s.mem, RECORD + 4, words) && AllWords(words) && |words| == ROOM
    ensures Reaches(s, t) && t.pc == LOADER + 52 && Get(t.regs, T3) == LOADER + 56 && CopyRest(t.mem)
    ensures LOADER + 52 in t.mem && t.mem[LOADER + 52] == words[0x200d] && Holds(t.mem, PROGRAM, words)
  {
    hide Reaches, Get, Holds, Stored, Loader, ImageOf, PadsSet, WithLoader, Copying, FileWords, AllWords, CopyRest;
    var u := AtLoop(s, file, words);
    t := Overruns(u, RECORD, |file| % TWO32, words);
    ReachesJoin(s, u, t);
    StoredExactly(u.mem, PROGRAM, words);
  }

  /** What happens then is up to that word.  It may even be a jump to the loader's end, and
      the program is started all the same. */
  lemma OverrunMayBoot(s: State, file: seq<Byte>, words: seq<int>) returns (t: State)
    requires s.pc == START && Holds(s.mem, START, Image(file)) && HasPads(s.mem) && s.mem[PADS + 8] % 2 == 0
    requires !(0 < |file| % TWO32 <= 4 * ROOM && |file| % TWO32 % 4 == 0)
    requires Holds(s.mem, RECORD + 4, words) && AllWords(words) && |words| == ROOM && words[0x200d] == 0x010e_0067
    ensures Reaches(s, t) && t.pc == PROGRAM && Holds(t.mem, PROGRAM, words)
  {
    hide Reaches, Get, Put, Holds, Stored, Loader, Image, AllWords, CopyRest, FileWords, Step;
    var u := ImageOverruns(s, file, words);
    EscapeDecodes();
    hide Decode;
    var v := Advance(s, u, Jalr(0, T3, 16));
    assert v.pc == LOADER + 72;
    t := ToProgram(s, v);
  }

  lemma EscapeDecodes()
    ensures Decode(0x010e_0067) == Jalr(0, T3, 16)
  {
    hide BranchOffset;
  }
}
