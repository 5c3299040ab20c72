// The boot-image generator: the words it emits for a program file.
module BootImage {
  import opened Words

  // ----- The image -----

  /** The upper 20 bits of a word, one more if the lower 12 will be taken as negative. */
  function Upper20(data: int): int {
    (data - data % 0x1000 + (if data / 0x800 % 2 == 1 then 0x1000 else 0)) % TWO32
  }

  /** lui, with everything but the immediate given. */
  function LuiWord(data: int, rest: int): int {
    Upper20(data) + rest
  }

  /** addi, with everything but the immediate given. */
  function AddiWord(data: int, rest: int): int {
    data % 0x1000 * 0x10_0000 + rest
  }

  /** Code that stores a word at the address in t1, and moves t1 on. */
  function Block(data: int): (b: seq<int>)
    ensures |b| == 5
  {
    [LuiWord(data, 0x2b7), AddiWord(data, 0x2_8293), 0x13, 0x53_2023, 0x43_0313]
  }

  function Blocks(words: seq<int>): (b: seq<int>)
    ensures |b| == 5 * |words|
    decreases |words|
  {
    if words == [] then [] else Block(words[0]) + Blocks(words[1..])
  }

  lemma {:induction false} BlocksAppend(words: seq<int>, w: int)
    ensures Blocks(words + [w]) == Blocks(words) + Block(w)
    decreases |words|
  {
    hide Block;
    if words == [] {
      assert Blocks([w]) == Block(w) + Blocks([]);
    } else {
      assert (words + [w])[1..] == words[1..] + [w];
      BlocksAppend(words[1..], w);
      assert Blocks(words + [w]) == Block(words[0]) + (Blocks(words[1..]) + Block(w));
    }
  }

  /** The second-stage loader. */
  function Loader(): (l: seq<int>)
    ensures |l| == 20
  {
    [0x1a10_13b7, 0x0ff0_0313, 0x0063_8023, 0x0063_8223, 0x0001_0337, 0xfff3_0313, 0xfe03_1ee3,
     0x0083_8303, 0x0013_7313, 0x00c3_1313, 0x0062_82b3,
     0x0002_a383, 0x0053_83b3, 0x0042_a303, 0x0042_8293, 0x006e_2023, 0x004e_0e13, 0xfe72_98e3,
     0x1c00_0337, 0x0003_0067]
  }

  /** The jump to the loader, with its arguments. */
  function Entry(fsize: int): (e: seq<int>)
    ensures |e| == 8
  {
    [0x1a00_02b7, 0x4002_8293, 0x13, LuiWord(fsize, 0x3b7), AddiWord(fsize, 0x3_8393), 0x1c00_0e37, 0x1c00_8337, 0x3_0067]
  }

  /** A file read four bytes at a time; a rest shorter than that is dropped. */
  function FileWords(file: seq<Byte>): (w: seq<int>)
    ensures |w| == |file| / 4 && forall i :: 0 <= i < |w| ==> Word(w[i])
    decreases |file|
  {
    if |file| < 4 then []
    else [LittleEndian(file[0], file[1], file[2], file[3])] + FileWords(file[4..])
  }

  function Preamble(fsize: int): (p: seq<int>)
    ensures |p| == 109
  {
    [0x1c00_8337] + Blocks(Loader()) + Entry(fsize)
  }

  function ImageOf(size: int, words: seq<int>): (image: seq<int>)
    ensures |image| == 225 + |words|
  {
    Preamble(size) + Repeat(0, 115) + [size] + words
  }

  function Image(file: seq<Byte>): (image: seq<int>) {
    ImageOf(|file| % TWO32, FileWords(file))
  }

  /** What is in the image, which is loaded from byte address 0x80 on: code, zeros up to
      0x400, the size, and the file's words; the last bytes of a file that is no multiple of
      four are left out. */
  lemma ImageLayout(file: seq<Byte>, i: nat)
    ensures |Image(file)| == 225 + |file| / 4 && 0x80 + 4 * 224 == 0x400
    ensures 109 <= i < 224 ==> Image(file)[i] == 0
    ensures Image(file)[224] == |file| % TWO32
    ensures 4 * i + 4 <= |file| ==>
      Image(file)[225 + i] == LittleEndian(file[4 * i], file[4 * i + 1], file[4 * i + 2], file[4 * i + 3])
  {
    hide Preamble, FileWords, LittleEndian;
    PartsAt(Preamble(|file| % TWO32), Repeat(0, 115), |file| % TWO32, FileWords(file));
    if 4 * i + 4 <= |file| { FileWordAt(file, i); }
  }

  lemma PartsAt(a: seq<int>, b: seq<int>, x: int, c: seq<int>)
    ensures var s := a + b + [x] + c;
      && (forall i :: |a| <= i < |a| + |b| ==> s[i] == b[i - |a|])
      && s[|a| + |b|] == x && forall i :: 0 <= i < |c| ==> s[|a| + |b| + 1 + i] == c[i]
  {
  }

  lemma {:induction false} FileWordAt(file: seq<Byte>, i: nat)
    requires 4 * i + 4 <= |file|
    ensures FileWords(file)[i] == LittleEndian(file[4 * i], file[4 * i + 1], file[4 * i + 2], file[4 * i + 3])
    decreases i
  {
    hide LittleEndian;
    if i > 0 {
      FileWordAt(file[4..], i - 1);
    }
  }

  // ----- The generator -----

  /** The output file, as words, and the count of bytes written. */
  class Writer {
    var out: seq<int>
    var writeSize: int

    constructor ()
      ensures out == [] && writeSize == 0
    {
      out, writeSize := [], 0;
    }

    method DataWrite(data: int)
      modifies this
      ensures out == old(out) + [data] && writeSize == (old(writeSize) + 4) % TWO32
    {
      out := out + [data];
      writeSize := (writeSize + 4) % TWO32;
    }

    method WriteWordToRAM(data: int)
      requires Word(writeSize)
      modifies this
      ensures out == old(out) + Block(data) && writeSize == (old(writeSize) + 20) % TWO32
    {
      hide LuiWord, AddiWord;
      ghost var start, size := out, writeSize;
      var negative := if data / 0x800 % 2 == 1 then 0x1000 else 0;
      DataWrite((data - data % 0x1000 + negative) % TWO32 + 0x2b7);
      DataWrite(data % 0x1000 * 0x10_0000 + 0x2_8293);
      Counted(size, 4);
      assert out == start + [LuiWord(data, 0x2b7), AddiWord(data, 0x2_8293)] by { MaterialiseWords(data); }
      DataWrite(0x13);
      Counted(size, 8);
      DataWrite(0x53_2023);
      Counted(size, 12);
      DataWrite(0x43_0313);
      Counted(size, 16);
    }

    method WriteLoader()
      requires 0 <= writeSize < 0x100
      modifies this
      ensures out == old(out) + Blocks(Loader()) && writeSize == old(writeSize) + 400
    {
      hide Loader, Block;
      var ram := Loader();
      var i := 0;
      while i < |ram|
        invariant 0 <= i <= |ram|
        invariant out == old(out) + Blocks(ram[..i]) && writeSize == old(writeSize) + 20 * i
      {
        WriteWordToRAM(ram[i]);
        BlocksAppend(ram[..i], ram[i]);
        assert ram[..i + 1] == ram[..i] + [ram[i]];
        i := i + 1;
      }
      assert ram[..i] == ram;
    }

    /** The size of the program, into t2. */
    method WriteSize(fsize: int)
      requires 0 <= writeSize < 0x1000
      modifies this
      ensures out == old(out) + [LuiWord(fsize, 0x3b7), AddiWord(fsize, 0x3_8393)] && writeSize == old(writeSize) + 8
    {
      var negative := if fsize / 0x800 % 2 == 1 then 0x1000 else 0;
      DataWrite((fsize - fsize % 0x1000 + negative) % TWO32 + 0x3b7);
      DataWrite(fsize % 0x1000 * 0x10_0000 + 0x3_8393);
    }

    method WriteEntry(fsize: int)
      requires 0 <= writeSize < 0x800
      modifies this
      ensures out == old(out) + Entry(fsize) && writeSize == old(writeSize) + 32
    {
      hide LuiWord, AddiWord;
      ghost var start := out;
      DataWrite(0x1a00_02b7);
      DataWrite(0x4002_8293);
      DataWrite(0x13);
      assert out == start + [0x1a00_02b7, 0x4002_8293, 0x13] && writeSize == old(writeSize) + 12;
      WriteSize(fsize);
      DataWrite(0x1c00_0e37);
      DataWrite(0x1c00_8337);
      DataWrite(0x3_0067);
    }

    method WritePadding()
      requires writeSize == 436
      modifies this
      ensures out == old(out) + Repeat(0, 115)
    {
      ghost var n := 0;
      while writeSize < 0x380
        invariant 0 <= n <= 115 && writeSize == 436 + 4 * n && out == old(out) + Repeat(0, n)
        decreases 0x380 - writeSize
      {
        DataWrite(0);
        assert Repeat(0, n + 1) == Repeat(0, n) + [0];
        n := n + 1;
      }
    }

    method WriteFile(file: seq<Byte>)
      modifies this
      ensures out == old(out) + FileWords(file)
    {
      hide FileWords, LittleEndian;
      var i := 0;
      assert FileWords(file[i..]) == FileWords(file) by { assert file[0..] == file; }
      while i + 4 <= |file|
        invariant 0 <= i <= |file|
        invariant out + FileWords(file[i..]) == old(out) + FileWords(file)
      {
        NextWord(file, i);
        ghost var w := LittleEndian(file[i], file[i + 1], file[i + 2], file[i + 3]);
        Shifted(out, w, FileWords(file[i + 4..]));
        DataWrite(LittleEndian(file[i], file[i + 1], file[i + 2], file[i + 3]));
        i := i + 4;
      }
      LastWord(file, i);
    }

    /** main: the image of the file. */
    method Convert(file: seq<Byte>)
      requires out == [] && writeSize == 0
      modifies this
      ensures out == Image(file)
    {
      hide Loader, Blocks, Entry, Repeat, FileWords;
      var fsize := |file| % TWO32;
      DataWrite(0x1c00_8337);
      WriteLoader();
      WriteEntry(fsize);
      assert out == Preamble(fsize);
      WritePadding();
      DataWrite(fsize);
      WriteFile(file);
    }
  }

  lemma MaterialiseWords(data: int)
    ensures LuiWord(data, 0x2b7) == (data - data % 0x1000 + (if data / 0x800 % 2 == 1 then 0x1000 else 0)) % TWO32 + 0x2b7
    ensures AddiWord(data, 0x2_8293) == data % 0x1000 * 0x10_0000 + 0x2_8293
  {
  }

  /** Counting on modulo 2^32. */
  lemma Counted(size: int, n: nat)
    requires Word(size) && n <= 16
    ensures ((size + n) % TWO32 + 4) % TWO32 == (size + n + 4) % TWO32
  {
  }

  lemma Shifted(s: seq<int>, w: int, t: seq<int>)
    ensures s + ([w] + t) == (s + [w]) + t
  {
  }

  lemma NextWord(file: seq<Byte>, i: nat)
    requires i + 4 <= |file|
    ensures FileWords(file[i..]) ==
      [LittleEndian(file[i], file[i + 1], file[i + 2], file[i + 3])] + FileWords(file[i + 4..])
  {
    assert file[i..][4..] == file[i + 4..];
  }

  lemma LastWord(file: seq<Byte>, i: nat)
    requires i <= |file| < i + 4
    ensures FileWords(file[i..]) == []
  {
  }
}
