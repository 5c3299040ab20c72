// The writer of flash images, version 2 and unencrypted: a boot header, the program's
// segments, a table of components and their data.
module FlashImage {
  import opened Words
  import opened Bits
  import opened FlashCrc

  const BOOT_ADDR := 0x1c00_0000

  type Bytes = seq<Byte>

  datatype Segment = Segment(base: int, data: Bytes)
  datatype Boot = Boot(entry: int, segments: seq<Segment>)
  datatype Comp = Comp(name: string, data: Bytes)

  // ----- Fields -----

  function Low(v: int): Byte {
    v % 256
  }

  function U32(v: int): (b: Bytes)
    ensures |b| == 4
  {
    [Low(v), Low(v / 0x100), Low(v / 0x1_0000), Low(v / 0x100_0000)]
  }

  function U64(v: int): (b: Bytes)
    ensures |b| == 8
  {
    U32(v) + U32(v / TWO32)
  }

  function Zeros(n: int): (z: Bytes)
    ensures |z| == if n < 0 then 0 else n
  {
    if n < 0 then [] else Repeat(0, n)
  }

  /** A character in UTF-8. */
  function Utf8(c: char): (b: Bytes)
    ensures 1 <= |b| <= 4 && (|b| == 1 <==> c as int < 0x80)
  {
    var x := c as int;
    if x < 0x80 then [Low(x)]
    else if x < 0x800 then [Low(0xc0 + x / 0x40), Low(0x80 + x % 0x40)]
    else if x < 0x1_0000 then [Low(0xe0 + x / 0x1000), Low(0x80 + x / 0x40 % 0x40), Low(0x80 + x % 0x40)]
    else [Low(0xf0 + x / 0x4_0000), Low(0x80 + x / 0x1000 % 0x40), Low(0x80 + x / 0x40 % 0x40), Low(0x80 + x % 0x40)]
  }

  /** The character that a byte sequence in UTF-8 stands for, by its first byte. */
  function FromUtf8(b: Bytes): int
    requires 1 <= |b| <= 4
  {
    var first: int := b[0];
    if |b| == 1 then first
    else if |b| == 2 then More(first - 192, b[1])
    else if |b| == 3 then More(More(first - 224, b[1]), b[2])
    else More(More(More(first - 240, b[1]), b[2]), b[3])
  }

  /** Six more bits. */
  function More(x: int, b: int): int {
    x * 64 + (b - 128)
  }

  lemma SixBits(x: int)
    requires x >= 0
    ensures More(x / 0x40, 0x80 + x % 0x40) == x && 128 <= 0x80 + x % 0x40 < 192
  {
  }

  lemma ByteIs(v: int)
    requires 0 <= v < 256
    ensures Low(v) == v
  {
  }

  lemma DivDiv(x: int)
    requires 0 <= x < 0x11_0000
    ensures x / 0x40 / 0x40 == x / 0x1000 && x / 0x1000 / 0x40 == x / 0x4_0000
    ensures 0 <= x / 0x40 && 0 <= x / 0x1000 && 0 <= x / 0x4_0000 < 8
    ensures (x < 0x800 ==> x / 0x40 < 32) && (x < 0x1_0000 ==> x / 0x1000 < 16)
  {
  }

  /** A character's bytes stand for it; the first says how many there are, and the others
      are from 128 to 191. */
  lemma Utf8Decoded(c: char)
    ensures var b := Utf8(c);
      && FromUtf8(b) == c as int
      && (if |b| == 1 then b[0] < 128 else if |b| == 2 then 192 <= b[0] < 224 else if |b| == 3 then 224 <= b[0] < 240 else 240 <= b[0] < 248)
      && forall i :: 1 <= i < |b| ==> 128 <= b[i] < 192
  {
    hide Low, More;
    var x := c as int;
    assert 0 <= x < 0x11_0000;
    DivDiv(x);
    SixBits(x);
    SixBits(x / 0x40);
    SixBits(x / 0x1000);
    ByteIs(0x80 + x % 0x40);
    ByteIs(0x80 + x / 0x40 % 0x40);
    ByteIs(0x80 + x / 0x1000 % 0x40);
    if x < 0x80 {
      ByteIs(x);
    } else if x < 0x800 {
      ByteIs(0xc0 + x / 0x40);
    } else if x < 0x1_0000 {
      ByteIs(0xe0 + x / 0x1000);
    } else {
      ByteIs(0xf0 + x / 0x4_0000);
    }
  }

  function Encoded(name: string): (b: Bytes)
    ensures |b| >= |name|
    decreases |name|
  {
    if name == "" then [] else Utf8(name[0]) + Encoded(name[1..])
  }

  predicate Ascii(name: string) {
    forall i :: 0 <= i < |name| ==> name[i] as int < 0x80
  }

  // ----- Layout -----

  function BlocksOf(size: int, block: int): (n: int)
    requires size >= 0 && block > 0
    ensures n >= 0 && size <= n * block
  {
    RoundedUp(size, block);
    (size + block - 1) / block
  }

  lemma RoundedUp(x: int, a: int)
    requires x >= 0 && a > 0
    ensures (x + a - 1) / a >= 0 && x <= (x + a - 1) / a * a < x + a
  {
    var y := x + a - 1;
    assert y == y / a * a + y % a;
  }

  /** The room a segment takes, in whole blocks. */
  function Room(s: Segment, block: int): (r: int)
    requires block > 0
    ensures r >= |s.data|
  {
    BlocksOf(|s.data|, block) * block
  }

  /** Where the first byte after the last segment's room is. */
  function EndOffset(segments: seq<Segment>, at: int, block: int): (e: int)
    requires block > 0
    ensures e >= at
    decreases |segments|
  {
    if segments == [] then at else EndOffset(segments[1..], at + Room(segments[0], block), block)
  }

  function FirstOffset(n: nat, block: int): (f: int)
    requires block > 0
    ensures f >= 20 + 64 * n
  {
    RoundUp(20 + 64 * n, block)
  }

  /** Where the component table starts. */
  function FsOffset(boot: Boot, block: int): (f: int)
    requires block > 0
    ensures f >= EndOffset(boot.segments, FirstOffset(|boot.segments|, block), block)
  {
    RoundUp(EndOffset(boot.segments, FirstOffset(|boot.segments|, block), block), 8)
  }

  function Area(s: Segment, at: int, block: int): (b: Bytes)
    requires block > 0
    ensures |b| == 16
  {
    U32(at) + U32(s.base) + U32(|s.data|) + U32(BlocksOf(|s.data|, block))
  }

  function AreaTable(segments: seq<Segment>, at: int, block: int): (b: Bytes)
    requires block > 0
    ensures |b| == 16 * |segments|
    decreases |segments|
  {
    if segments == [] then []
    else Area(segments[0], at, block) + AreaTable(segments[1..], at + Room(segments[0], block), block)
  }

  function HeaderBody(boot: Boot, block: int): (b: Bytes)
    requires block > 0
    ensures |b| == 16 + 64 * |boot.segments|
  {
    var n := |boot.segments|;
    U32(FsOffset(boot, block)) + U32(n) + U32(boot.entry) + U32(BOOT_ADDR)
    + AreaTable(boot.segments, FirstOffset(n, block), block) + Zeros(48 * n)
  }

  /** The checksum, as the field it is stored in. */
  function Seal(body: Bytes): (v: int)
    ensures Word(v)
  {
    Crc32(ToBits(body)) as int
  }

  /** Bytes as the checksum takes them. */
  function ToBits(body: Bytes): (b: seq<bv8>)
    ensures |b| == |body|
  {
    seq(|body|, i requires 0 <= i < |body| => body[i] as bv8)
  }

  function Header(boot: Boot, block: int): (b: Bytes)
    requires block > 0
    ensures |b| == 20 + 64 * |boot.segments|
  {
    HeaderBody(boot, block) + U32(Seal(HeaderBody(boot, block)))
  }

  // ----- The output: the buffer and the cursor kept beside it -----

  datatype Out = Out(buff: Bytes, cursor: int)

  /** Zeros up to an offset.  Going backwards moves the cursor only. */
  function PadTo(o: Out, offset: int): Out {
    Out(o.buff + Zeros(offset - o.cursor), offset)
  }

  function Append(o: Out, data: Bytes): Out {
    Out(o.buff + data, o.cursor + |data|)
  }

  function PlaceSegments(o: Out, segments: seq<Segment>, at: int, block: int): Out
    requires block > 0
    decreases |segments|
  {
    if segments == [] then o
    else PlaceSegments(Append(PadTo(o, at), segments[0].data), segments[1..], at + Room(segments[0], block), block)
  }

  function BootPart(boot: Boot, block: int): Out
    requires block > 0
  {
    var n := |boot.segments|;
    var header := Out(Header(boot, block), 20 + 64 * n);
    PadTo(PlaceSegments(header, boot.segments, FirstOffset(n, block), block), FsOffset(boot, block))
  }

  function EntrySize(c: Comp): nat {
    13 + |c.name|
  }

  function EntriesSize(comps: seq<Comp>): nat
    decreases |comps|
  {
    if comps == [] then 0 else EntrySize(comps[0]) + EntriesSize(comps[1..])
  }

  function HeaderSize(comps: seq<Comp>): nat {
    12 + EntriesSize(comps)
  }

  function Up4(x: int): (r: int)
    ensures x <= r < x + 4 && r % 4 == 0
  {
    (x + 3) / 4 * 4
  }

  function Entry(c: Comp, addr: int): Bytes {
    U32(addr) + U32(|c.data|) + U32(|c.name| + 1) + Encoded(c.name) + [0]
  }

  /** The table's entries, for component data from address `at` on. */
  function Entries(comps: seq<Comp>, at: int): Bytes
    decreases |comps|
  {
    if comps == [] then []
    else Entry(comps[0], Up4(at)) + Entries(comps[1..], Up4(at) + |comps[0].data|)
  }

  function PlaceComps(o: Out, comps: seq<Comp>, at: int): Out
    decreases |comps|
  {
    if comps == [] then o
    else PlaceComps(Append(PadTo(o, Up4(at)), comps[0].data), comps[1..], Up4(at) + |comps[0].data|)
  }

  function Table(comps: seq<Comp>, at: int): Bytes {
    U64(HeaderSize(comps)) + U32(|comps|) + Entries(comps, at)
  }

  function WithComps(o: Out, comps: seq<Comp>): Out {
    var at := o.cursor + HeaderSize(comps);
    PlaceComps(Append(o, Table(comps, at)), comps, at)
  }

  function Image(boot: Option<Boot>, comps: seq<Comp>, block: int): Out
    requires block > 0
  {
    WithComps(match boot case None => Out(U64(8), 8) case Some(b) => BootPart(b, block), comps)
  }

  // ----- The writer -----

  class Writer {
    var buff: Bytes
    var flashOffset: int
    const blockSize: int

    ghost function Output(): Out
      reads this
    {
      Out(buff, flashOffset)
    }

    constructor (hyper: bool)
      ensures Output() == Out([], 0) && blockSize == if hyper then 1024 else 4096
    {
      buff, flashOffset := [], 0;
      blockSize := if hyper then 1024 else 4096;
    }

    method Pad(padsize: int)
      modifies this`buff, this`flashOffset
      ensures Output() == PadTo(old(Output()), old(flashOffset) + padsize)
    {
      flashOffset := flashOffset + padsize;
      var i := 0;
      while i < padsize
        invariant 0 <= i && (if padsize >= 0 then i <= padsize else i == 0)
        invariant buff == old(buff) + Zeros(i) && flashOffset == old(flashOffset) + padsize
      {
        assert Zeros(i + 1) == Zeros(i) + [0];
        buff := buff + [0];
        i := i + 1;
      }
      assert Zeros(i) == Zeros(padsize);
    }

    method AppendInt(value: int)
      requires Word(value)
      modifies this`buff, this`flashOffset
      ensures Output() == Append(old(Output()), U32(value))
    {
      buff := buff + U32(value);
      flashOffset := flashOffset + 4;
    }

    /** The same, into a buffer that is not the output. */
    method PackInt(value: int, buffer: Bytes) returns (r: Bytes)
      requires Word(value)
      ensures r == buffer + U32(value)
    {
      r := buffer + U32(value);
    }

    method AppendLongInt(value: int)
      requires Word(value)
      modifies this`buff, this`flashOffset
      ensures Output() == Append(old(Output()), U64(value))
    {
      buff := buff + U64(value);
      flashOffset := flashOffset + 8;
    }

    method AppendBuffer(buffer: Bytes, padToOffset: Option<int>)
      modifies this`buff, this`flashOffset
      ensures var o := old(Output());
        Output() == Append(match padToOffset case None => o case Some(offset) => PadTo(o, offset), buffer)
    {
      if padToOffset.Some? {
        Pad(padToOffset.value - flashOffset);
      }
      buff := buff + buffer;
      flashOffset := flashOffset + |buffer|;
    }

    /** The area information: where each segment goes, and in how many blocks. */
    method PlanAreas(segments: seq<Segment>, start: int) returns (offsets: seq<int>, nbBlocks: seq<int>, end: int)
      requires blockSize > 0
      ensures |offsets| == |nbBlocks| == |segments| && end == EndOffset(segments, start, blockSize)
      ensures forall i :: 0 <= i < |segments| ==>
        offsets[i] == OffsetOf(segments, start, blockSize, i) && nbBlocks[i] == BlocksOf(|segments[i].data|, blockSize)
    {
      hide BlocksOf;
      offsets, nbBlocks, end := [], [], start;
      var index := 0;
      while index < |segments|
        invariant 0 <= index <= |segments| && |offsets| == |nbBlocks| == index
        invariant end == OffsetOf(segments, start, blockSize, index)
        invariant forall i :: 0 <= i < index ==>
          offsets[i] == OffsetOf(segments, start, blockSize, i) && nbBlocks[i] == BlocksOf(|segments[i].data|, blockSize)
      {
        var n := BlocksOf(|segments[index].data|, blockSize);
        offsets, nbBlocks := offsets + [end], nbBlocks + [n];
        OffsetNext(segments, start, blockSize, index);
        end := end + n * blockSize;
        index := index + 1;
      }
      OffsetLast(segments, start, blockSize);
    }

    method BuildAreas(prefix: Bytes, segments: seq<Segment>, start: int, offsets: seq<int>, nbBlocks: seq<int>)
      returns (header: Bytes)
      requires blockSize > 0 && |offsets| == |nbBlocks| == |segments|
      requires forall i :: 0 <= i < |segments| ==>
        offsets[i] == OffsetOf(segments, start, blockSize, i) && nbBlocks[i] == BlocksOf(|segments[i].data|, blockSize)
      requires 0 <= start && EndOffset(segments, start, blockSize) < TWO32 && forall s :: s in segments ==> Word(s.base)
      ensures header == prefix + AreaTable(segments, start, blockSize)
    {
      hide BlocksOf, U32, AreaTable, OffsetOf, EndOffset, Room;
      header := prefix;
      var i := 0;
      assert segments[0..] == segments && OffsetOf(segments, start, blockSize, 0) == start by { OffsetFirst(segments, start, blockSize); }
      while i < |segments|
        invariant 0 <= i <= |segments|
        invariant header + AreaTable(segments[i..], OffsetOf(segments, start, blockSize, i), blockSize)
          == prefix + AreaTable(segments, start, blockSize)
      {
        AreaTableAt(segments, start, blockSize, i);
        ghost var before := header;
        OffsetFits(segments, start, blockSize, i);
        header := PackInt(offsets[i], header);
        header := PackInt(segments[i].base, header);
        header := PackInt(|segments[i].data|, header);
        header := PackInt(nbBlocks[i], header);
        assert header == before + Area(segments[i], offsets[i], blockSize);
        i := i + 1;
      }
      AreaTableEnd(segments, OffsetOf(segments, start, blockSize, i), blockSize);
    }

    method WriteSegments(segments: seq<Segment>, start: int, offsets: seq<int>)
      requires blockSize > 0 && |offsets| == |segments|
      requires forall i :: 0 <= i < |segments| ==> offsets[i] == OffsetOf(segments, start, blockSize, i)
      modifies this`buff, this`flashOffset
      ensures Output() == PlaceSegments(old(Output()), segments, start, blockSize)
    {
      hide PlaceSegments, OffsetOf, Append, PadTo;
      var i := 0;
      assert segments[0..] == segments && OffsetOf(segments, start, blockSize, 0) == start by { OffsetFirst(segments, start, blockSize); }
      while i < |segments|
        invariant 0 <= i <= |segments|
        invariant PlaceSegments(Output(), segments[i..], OffsetOf(segments, start, blockSize, i), blockSize)
          == PlaceSegments(old(Output()), segments, start, blockSize)
      {
        PlaceSegmentsAt(Output(), segments, start, blockSize, i);
        AppendBuffer(segments[i].data, Some(offsets[i]));
        i := i + 1;
      }
      PlaceSegmentsEnd(Output(), segments, OffsetOf(segments, start, blockSize, i), blockSize);
    }

    /** The boot header, the area table and the segments. */
    method DumpFlashHeader(boot: Boot)
      requires blockSize > 0 && Output() == Out([], 0)
      requires Word(boot.entry) && (forall s :: s in boot.segments ==> Word(s.base)) && FsOffset(boot, blockSize) < TWO32
      modifies this`buff, this`flashOffset
      ensures Output() == BootPart(boot, blockSize)
    {
      hide U32, AreaTable, OffsetOf, EndOffset, Zeros, Crc32, ToBits, PlaceSegments, RoundUp;
      var segments := boot.segments;
      var n := |segments|;
      var crcOffset := 16 + 64 * n;
      var first := RoundUp(crcOffset + 4, blockSize);
      var offsets, nbBlocks, end := PlanAreas(segments, first);
      var fsOffset := RoundUp(end, 8);
      var header := PackInt(fsOffset, []);
      header := PackInt(n, header);
      header := PackInt(boot.entry, header);
      header := PackInt(BOOT_ADDR, header);
      header := BuildAreas(header, segments, first, offsets, nbBlocks);
      header := header + Zeros(crcOffset - flashOffset - |header|);
      assert header == HeaderBody(boot, blockSize);
      var crc := GetCrc(ToBits(header));
      header := PackInt(crc as int, header);
      AppendBuffer(header, None);
      assert Output() == Out(Header(boot, blockSize), 20 + 64 * n);
      WriteSegments(segments, first, offsets);
      Pad(fsOffset - flashOffset);
    }

    method PlanComps(comps: seq<Comp>, start: int) returns (addrs: seq<int>)
      ensures |addrs| == |comps| && forall i :: 0 <= i < |comps| ==> addrs[i] == AddrOf(comps, start, i)
    {
      hide Up4, AddrOf;
      addrs := [];
      var flashAddr := start;
      if comps != [] { AddrFirst(comps, start); }
      var i := 0;
      while i < |comps|
        invariant 0 <= i <= |comps| && |addrs| == i
        invariant i < |comps| ==> Up4(flashAddr) == AddrOf(comps, start, i)
        invariant forall k :: 0 <= k < i ==> addrs[k] == AddrOf(comps, start, k)
      {
        addrs := addrs + [Up4(flashAddr)];
        flashAddr := Up4(flashAddr) + |comps[i].data|;
        if i + 1 < |comps| { AddrNext(comps, start, i); }
        i := i + 1;
      }
    }

    method WriteEntries(comps: seq<Comp>, start: int, addrs: seq<int>)
      requires |addrs| == |comps| && forall i :: 0 <= i < |comps| ==> addrs[i] == AddrOf(comps, start, i)
      requires start >= EntriesSize(comps) && CompsEnd(comps, start) < TWO32
      modifies this`buff, this`flashOffset
      ensures Output() == Append(old(Output()), Entries(comps, start))
    {
      hide U32, Encoded, Entries, AddrOf, EntriesSize, CompsEnd;
      var i := 0;
      ghost var done: Bytes := [];
      EntriesFrom0(comps, start);
      while i < |comps|
        invariant 0 <= i <= |comps|
        invariant Output() == Append(old(Output()), done)
        invariant done + EntriesFrom(comps, start, i) == Entries(comps, start)
      {
        AddrFits(comps, start, i);
        EntriesNext(comps, start, i);
        WriteEntry(comps[i], addrs[i]);
        done := done + Entry(comps[i], addrs[i]);
        i := i + 1;
      }
    }

    method WriteEntry(c: Comp, addr: int)
      requires Word(addr) && Word(|c.data|) && Word(|c.name| + 1)
      modifies this`buff, this`flashOffset
      ensures Output() == Append(old(Output()), Entry(c, addr))
    {
      hide U32, Encoded;
      AppendInt(addr);
      AppendInt(|c.data|);
      AppendInt(|c.name| + 1);
      AppendBuffer(Encoded(c.name), None);
      AppendBuffer([0], None);
    }

    method WriteComps(comps: seq<Comp>, start: int, addrs: seq<int>)
      requires |addrs| == |comps| && forall i :: 0 <= i < |comps| ==> addrs[i] == AddrOf(comps, start, i)
      modifies this`buff, this`flashOffset
      ensures Output() == PlaceComps(old(Output()), comps, start)
    {
      hide PlaceComps, AddrOf, Append, PadTo;
      var i := 0;
      PlaceFrom0(old(Output()), comps, start);
      while i < |comps|
        invariant 0 <= i <= |comps|
        invariant PlaceFrom(Output(), comps, start, i) == PlaceComps(old(Output()), comps, start)
      {
        PlaceNext(Output(), comps, start, i);
        AppendBuffer(comps[i].data, Some(addrs[i]));
        i := i + 1;
      }
    }

    /** The component table and the components. */
    method DumpComps(comps: seq<Comp>)
      requires flashOffset >= 0 && CompsEnd(comps, flashOffset + HeaderSize(comps)) < TWO32
      modifies this`buff, this`flashOffset
      ensures Output() == WithComps(old(Output()), comps)
    {
      hide U32, U64, Entries, EntriesSize, CompsEnd, PlaceComps;
      var headerSize := 12;
      var i := 0;
      assert comps[0..] == comps;
      while i < |comps|
        invariant 0 <= i <= |comps| && headerSize + EntriesSize(comps[i..]) == HeaderSize(comps)
        invariant Output() == old(Output())
      {
        SizeNext(comps, i);
        headerSize := headerSize + 12;
        headerSize := headerSize + |comps[i].name| + 1;
        i := i + 1;
      }
      SizeEnd(comps);
      var flashAddr := flashOffset + headerSize;
      var addrs := PlanComps(comps, flashAddr);
      CompsFit(comps, flashAddr);
      AppendLongInt(headerSize);
      AppendInt(|comps|);
      WriteEntries(comps, flashAddr, addrs);
      AppendThree(old(Output()), U64(headerSize), U32(|comps|), Entries(comps, flashAddr));
      WriteComps(comps, flashAddr, addrs);
    }

    /** The whole image. */
    method DumpToBuff(boot: Option<Boot>, comps: seq<Comp>)
      requires blockSize > 0 && Output() == Out([], 0) && Fits(boot, comps, blockSize)
      modifies this`buff, this`flashOffset
      ensures Output() == Image(boot, comps, blockSize)
    {
      hide BootPart, FsOffset, WithComps, CompsEnd, HeaderSize, U64;
      match boot {
        case None =>
          AppendLongInt(8);
          assert [] + U64(8) == U64(8);
        case Some(b) =>
          BootPartEnds(b, blockSize, HeaderSize(comps), comps);
          DumpFlashHeader(b);
      }
      DumpComps(comps);
    }
  }

  // ----- Offsets, one after the other -----

  function OffsetOf(segments: seq<Segment>, at: int, block: int, i: nat): (r: int)
    requires block > 0 && i <= |segments|
    ensures r >= at
    decreases i
  {
    if i == 0 then at else OffsetOf(segments[1..], at + Room(segments[0], block), block, i - 1)
  }

  lemma OffsetFirst(segments: seq<Segment>, at: int, block: int)
    requires block > 0
    ensures OffsetOf(segments, at, block, 0) == at
  {
  }

  lemma {:induction false} OffsetNext(segments: seq<Segment>, at: int, block: int, i: nat)
    requires block > 0 && i < |segments|
    ensures OffsetOf(segments, at, block, i + 1) == OffsetOf(segments, at, block, i) + Room(segments[i], block)
    decreases i
  {
    hide Room;
    if i > 0 { OffsetNext(segments[1..], at + Room(segments[0], block), block, i - 1); }
  }

  lemma {:induction false} OffsetLast(segments: seq<Segment>, at: int, block: int)
    requires block > 0
    ensures OffsetOf(segments, at, block, |segments|) == EndOffset(segments, at, block)
    decreases |segments|
  {
    hide Room;
    if segments != [] { OffsetLast(segments[1..], at + Room(segments[0], block), block); }
  }

  /** Every offset, size and block count is less than the end offset. */
  lemma {:induction false} OffsetFits(segments: seq<Segment>, at: int, block: int, i: nat)
    requires block > 0 && i < |segments| && at >= 0
    ensures OffsetOf(segments, at, block, i) + Room(segments[i], block) <= EndOffset(segments, at, block)
    ensures |segments[i].data| <= Room(segments[i], block) && BlocksOf(|segments[i].data|, block) <= Room(segments[i], block)
    decreases i
  {
    hide BlocksOf;
    MulAtLeast(BlocksOf(|segments[i].data|, block), block);
    if i > 0 { OffsetFits(segments[1..], at + Room(segments[0], block), block, i - 1); }
  }

  lemma MulAtLeast(n: nat, block: int)
    requires block > 0
    ensures n <= n * block
  {
  }

  lemma AreaTableAt(segments: seq<Segment>, at: int, block: int, i: nat)
    requires block > 0 && i < |segments|
    ensures var o := OffsetOf(segments, at, block, i);
      AreaTable(segments[i..], o, block)
      == Area(segments[i], o, block) + AreaTable(segments[i + 1..], OffsetOf(segments, at, block, i + 1), block)
  {
    hide Area, Room, OffsetOf;
    OffsetNext(segments, at, block, i);
    assert segments[i..][1..] == segments[i + 1..];
  }

  lemma AreaTableEnd(segments: seq<Segment>, at: int, block: int)
    requires block > 0
    ensures AreaTable(segments[|segments|..], at, block) == []
  {
  }

  lemma PlaceSegmentsAt(o: Out, segments: seq<Segment>, at: int, block: int, i: nat)
    requires block > 0 && i < |segments|
    ensures var f := OffsetOf(segments, at, block, i);
      PlaceSegments(o, segments[i..], f, block)
      == PlaceSegments(Append(PadTo(o, f), segments[i].data), segments[i + 1..], OffsetOf(segments, at, block, i + 1), block)
  {
    hide Append, PadTo, Room, OffsetOf;
    OffsetNext(segments, at, block, i);
    assert segments[i..][1..] == segments[i + 1..];
  }

  lemma PlaceSegmentsEnd(o: Out, segments: seq<Segment>, at: int, block: int)
    requires block > 0
    ensures PlaceSegments(o, segments[|segments|..], at, block) == o
  {
  }

  // ----- Component addresses, one after the other -----

  function AddrOf(comps: seq<Comp>, at: int, i: nat): int
    requires i < |comps|
    decreases i
  {
    if i == 0 then Up4(at) else AddrOf(comps[1..], Up4(at) + |comps[0].data|, i - 1)
  }

  function CompsEnd(comps: seq<Comp>, at: int): (e: int)
    ensures e >= at
    decreases |comps|
  {
    if comps == [] then at else CompsEnd(comps[1..], Up4(at) + |comps[0].data|)
  }

  /** The fields fit their 32 bits, as packing them demands. */
  predicate Fits(boot: Option<Boot>, comps: seq<Comp>, block: int)
    requires block > 0
  {
    match boot
    case None => CompsEnd(comps, 8 + HeaderSize(comps)) < TWO32
    case Some(b) =>
      && Word(b.entry) && (forall s :: s in b.segments ==> Word(s.base))
      && CompsEnd(comps, FsOffset(b, block) + HeaderSize(comps)) < TWO32
  }

  lemma BootPartEnds(boot: Boot, block: int, size: nat, comps: seq<Comp>)
    requires block > 0
    ensures BootPart(boot, block).cursor == FsOffset(boot, block) && 0 <= FsOffset(boot, block)
    ensures FsOffset(boot, block) <= CompsEnd(comps, FsOffset(boot, block) + size)
  {
  }

  lemma AppendThree(o: Out, a: Bytes, b: Bytes, c: Bytes)
    ensures Append(Append(Append(o, a), b), c) == Append(o, a + b + c)
  {
    assert o.buff + a + b + c == o.buff + (a + b + c);
  }

  lemma AddrFirst(comps: seq<Comp>, at: int)
    requires comps != []
    ensures AddrOf(comps, at, 0) == Up4(at)
  {
  }

  lemma {:induction false} AddrNext(comps: seq<Comp>, at: int, i: nat)
    requires i + 1 < |comps|
    ensures AddrOf(comps, at, i + 1) == Up4(AddrOf(comps, at, i) + |comps[i].data|)
    decreases i
  {
    hide Up4;
    var next := Up4(at) + |comps[0].data|;
    if i > 0 { AddrNext(comps[1..], next, i - 1); } else { AddrFirst(comps[1..], next); }
  }

  lemma {:induction false} AddrFits(comps: seq<Comp>, at: int, i: nat)
    requires i < |comps| && at >= EntriesSize(comps)
    ensures at <= AddrOf(comps, at, i) && AddrOf(comps, at, i) + |comps[i].data| <= CompsEnd(comps, at)
    ensures |comps[i].name| + 1 <= CompsEnd(comps, at)
    decreases i
  {
    hide Up4;
    if i > 0 { AddrFits(comps[1..], Up4(at) + |comps[0].data|, i - 1); }
  }

  lemma {:induction false} CompsFit(comps: seq<Comp>, at: int)
    requires at >= HeaderSize(comps)
    ensures |comps| <= HeaderSize(comps) <= CompsEnd(comps, at)
    decreases |comps|
  {
    if comps != [] { CompsFit(comps[1..], at); }
  }

  lemma SizeNext(comps: seq<Comp>, i: nat)
    requires i < |comps|
    ensures EntriesSize(comps[i..]) == 13 + |comps[i].name| + EntriesSize(comps[i + 1..])
  {
    assert comps[i..][1..] == comps[i + 1..];
  }

  lemma SizeEnd(comps: seq<Comp>)
    ensures EntriesSize(comps[|comps|..]) == 0
  {
  }

  /** Where the search for the address of component `i` starts. */
  function StartOf(comps: seq<Comp>, at: int, i: nat): int
    requires i <= |comps|
    decreases i
  {
    if i == 0 then at else StartOf(comps[1..], Up4(at) + |comps[0].data|, i - 1)
  }

  lemma {:induction false} StartAddr(comps: seq<Comp>, at: int, i: nat)
    requires i < |comps|
    ensures AddrOf(comps, at, i) == Up4(StartOf(comps, at, i))
    ensures StartOf(comps, at, i + 1) == AddrOf(comps, at, i) + |comps[i].data|
    decreases i
  {
    hide Up4;
    if i > 0 { StartAddr(comps[1..], Up4(at) + |comps[0].data|, i - 1); }
  }

  /** The entries from component `i` on. */
  function EntriesFrom(comps: seq<Comp>, at: int, i: nat): Bytes
    requires i <= |comps|
  {
    Entries(comps[i..], StartOf(comps, at, i))
  }

  lemma EntriesFrom0(comps: seq<Comp>, at: int)
    ensures EntriesFrom(comps, at, 0) == Entries(comps, at) && EntriesFrom(comps, at, |comps|) == []
  {
    assert comps[0..] == comps;
  }

  lemma EntriesNext(comps: seq<Comp>, at: int, i: nat)
    requires i < |comps|
    ensures EntriesFrom(comps, at, i) == Entry(comps[i], AddrOf(comps, at, i)) + EntriesFrom(comps, at, i + 1)
  {
    hide Entry, Up4, AddrOf, StartOf;
    StartAddr(comps, at, i);
    assert comps[i..][1..] == comps[i + 1..];
  }

  function PlaceFrom(o: Out, comps: seq<Comp>, at: int, i: nat): Out
    requires i <= |comps|
  {
    PlaceComps(o, comps[i..], StartOf(comps, at, i))
  }

  lemma PlaceFrom0(o: Out, comps: seq<Comp>, at: int)
    ensures PlaceFrom(o, comps, at, 0) == PlaceComps(o, comps, at)
    ensures forall p: Out :: PlaceFrom(p, comps, at, |comps|) == p
  {
    assert comps[0..] == comps;
  }

  lemma PlaceNext(o: Out, comps: seq<Comp>, at: int, i: nat)
    requires i < |comps|
    ensures PlaceFrom(o, comps, at, i) == PlaceFrom(Append(PadTo(o, AddrOf(comps, at, i)), comps[i].data), comps, at, i + 1)
  {
    hide Append, PadTo, Up4, AddrOf, StartOf;
    StartAddr(comps, at, i);
    assert comps[i..][1..] == comps[i + 1..];
  }
}
