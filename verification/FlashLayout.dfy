// The fields of a flash image that say where things are and how long: the boot address,
// every segment's place and block count, and the length of the component table.
module FlashLayout {
  import opened Words
  import opened Bits
  import opened FlashImage
  import opened FlashReadBack

  // ----- The area table -----

  /** The entry of segment `i`. */
  lemma {:induction false} AreaAt(img: Bytes, p: int, segments: seq<Segment>, at: int, block: int, i: nat)
    requires block > 0 && i < |segments| && At(img, p, AreaTable(segments, at, block))
    ensures At(img, p + 16 * i, Area(segments[i], OffsetOf(segments, at, block, i), block))
    decreases i
  {
    hide At, Area, Room;
    var next := at + Room(segments[0], block);
    AtSplit(img, p, Area(segments[0], at, block), AreaTable(segments[1..], next, block));
    if i == 0 {
      OffsetFirst(segments, at, block);
    } else {
      AreaAt(img, p + 16, segments[1..], next, block, i - 1);
    }
  }

  lemma BlocksRead(img: Bytes, p: int, s: Segment, at: int, block: int)
    requires block > 0 && At(img, p, Area(s, at, block)) && Word(at) && Word(BlocksOf(|s.data|, block))
    ensures ReadInt(img, p) == at && ReadInt(img, p + 12) == BlocksOf(|s.data|, block)
  {
    hide U32, At, ReadInt, BlocksOf;
    var n := BlocksOf(|s.data|, block);
    AtSplit(img, p, U32(at) + U32(s.base) + U32(|s.data|), U32(n));
    AtSplit(img, p, U32(at) + U32(s.base), U32(|s.data|));
    AtSplit(img, p, U32(at), U32(s.base));
    IntAt(img, p, at);
    IntAt(img, p + 12, n);
  }

  /** As many blocks as it takes, and no more. */
  lemma LeastBlocks(size: int, block: int)
    requires size >= 0 && block > 0
    ensures var n := BlocksOf(size, block); size <= n * block < size + block && n <= n * block
  {
    RoundedUp(size, block);
    if BlocksOf(size, block) > 0 { TimesGrows(BlocksOf(size, block), block); }
  }

  lemma {:induction false} TimesGrows(n: int, block: int)
    requires n >= 0 && block >= 1
    ensures n <= n * block
    decreases n
  {
    if n > 0 {
      TimesGrows(n - 1, block);
      assert n * block == (n - 1) * block + block;
    }
  }

  lemma {:induction false} OffsetMultiple(segments: seq<Segment>, at: int, block: int, i: nat)
    requires block > 0 && i <= |segments| && MultipleOf(at, block)
    ensures MultipleOf(OffsetOf(segments, at, block, i), block)
    decreases i
  {
    hide BlocksOf;
    if i > 0 {
      AddMultiple(at, BlocksOf(|segments[0].data|, block), block);
      OffsetMultiple(segments[1..], at + Room(segments[0], block), block, i - 1);
    }
  }

  lemma AddMultiple(x: int, n: int, a: int)
    requires a > 0 && MultipleOf(x, a)
    ensures MultipleOf(x + n * a, a)
  {
    var q := x / a;
    assert x + n * a == (q + n) * a + 0;
    DivModUnique(x + n * a, a, q + n, 0);
  }

  /** What the area table says of segment `i`: it starts at a multiple of the block size,
      the first one behind the header, every other behind the blocks of the one before; and
      it has the least number of blocks that holds it. */
  ghost predicate AreaSays(img: Bytes, boot: Boot, block: int, i: nat)
    requires block > 0 && i < |boot.segments|
  {
    var p, n := 16 + 16 * i, 20 + 64 * |boot.segments|;
    var offset, blocks := ReadInt(img, p), ReadInt(img, p + 12);
    && MultipleOf(offset, block)
    && |boot.segments[i].data| <= blocks * block < |boot.segments[i].data| + block
    && (i == 0 ==> n <= offset < n + block)
    && (i > 0 ==> offset == ReadInt(img, p - 16) + ReadInt(img, p - 4) * block)
  }

  lemma AreaRow(img: Bytes, boot: Boot, block: int, i: nat)
    requires block > 0 && i < |boot.segments| && FsOffset(boot, block) < TWO32
    requires At(img, 16, AreaTable(boot.segments, FirstOffset(|boot.segments|, block), block))
    ensures var s := boot.segments;
      && ReadInt(img, 16 + 16 * i) == OffsetOf(s, FirstOffset(|s|, block), block, i)
      && ReadInt(img, 16 + 16 * i + 12) == BlocksOf(|s[i].data|, block)
  {
    hide At, ReadInt, BlocksOf, OffsetOf, AreaTable, FirstOffset, EndOffset, RoundUp, Area;
    var s, first := boot.segments, FirstOffset(|boot.segments|, block);
    AreaAt(img, 16, s, first, block, i);
    EndsBelow(boot, block);
    OffsetFits(s, first, block, i);
    LeastBlocks(|s[i].data|, block);
    RoomFits(s, first, block, i);
    BlocksRead(img, 16 + 16 * i, s[i], OffsetOf(s, first, block, i), block);
  }

  /** A segment's room ends before the end offset. */
  lemma {:induction false} RoomFits(s: seq<Segment>, at: int, block: int, i: nat)
    requires block > 0 && i < |s|
    ensures OffsetOf(s, at, block, i) + Room(s[i], block) <= EndOffset(s, at, block)
    decreases i
  {
    hide Room;
    if i > 0 { RoomFits(s[1..], at + Room(s[0], block), block, i - 1); } else { OffsetFirst(s, at, block); }
  }

  /** Main result: the header of every image gives 0x1c000000 as boot address, and its area
      table says where the segments are and how many blocks they take. */
  lemma HeaderSays(boot: Boot, comps: seq<Comp>, block: int, i: nat)
    requires block > 0 && Fits(Some(boot), comps, block)
    ensures var img := Image(Some(boot), comps, block).buff;
      && ReadInt(img, 12) == 0x1c00_0000
      && (i < |boot.segments| ==> AreaSays(img, boot, block, i))
  {
    hide At, Header, BootPart, WithComps, AreaTable, FsOffset, CompsEnd, HeaderSize, HeaderChecks, FirstOffset, ReadInt, OffsetOf, BlocksOf,
      SegmentsAt;
    var img, o := Image(Some(boot), comps, block).buff, BootPart(boot, block);
    BootPlaced(boot, block);
    WithCompsGrows(o, comps);
    assert img == WithComps(o, comps).buff;
    WholeAt(Header(boot, block), img);
    BootPartEnds(boot, block, HeaderSize(comps), comps);
    HeaderFields(img, boot, block);
    BootAddress(img, boot, block);
    if i < |boot.segments| {
      var s, first := boot.segments, FirstOffset(|boot.segments|, block);
      AreaRow(img, boot, block, i);
      LeastBlocks(|s[i].data|, block);
      FirstIs(|s|, block);
      OffsetMultiple(s, first, block, i);
      if i == 0 {
        OffsetFirst(s, first, block);
      } else {
        AreaRow(img, boot, block, i - 1);
        OffsetNext(s, first, block, i - 1);
      }
    }
  }

  /** Where the area table says the last segment's blocks end; without segments, where the
      first one would start. */
  ghost function AreasEnd(img: Bytes, boot: Boot, block: int): int
    requires block > 0
  {
    var n := |boot.segments|;
    if n == 0 then FirstOffset(0, block) else ReadInt(img, 16 * n) + ReadInt(img, 16 * n + 12) * block
  }

  /** Main result: the component table starts at the first multiple of eight behind the
      last segment's blocks. */
  lemma TableStart(boot: Boot, comps: seq<Comp>, block: int)
    requires block > 0 && Fits(Some(boot), comps, block)
    ensures var img := Image(Some(boot), comps, block).buff;
      ReadInt(img, 0) % 8 == 0 && AreasEnd(img, boot, block) <= ReadInt(img, 0) < AreasEnd(img, boot, block) + 8
  {
    hide At, Header, BootPart, WithComps, AreaTable, FsOffset, CompsEnd, HeaderSize, HeaderChecks, FirstOffset, ReadInt, OffsetOf, BlocksOf,
      SegmentsAt, EndOffset;
    var img, o := Image(Some(boot), comps, block).buff, BootPart(boot, block);
    BootPlaced(boot, block);
    WithCompsGrows(o, comps);
    assert img == WithComps(o, comps).buff;
    WholeAt(Header(boot, block), img);
    BootPartEnds(boot, block, HeaderSize(comps), comps);
    HeaderFields(img, boot, block);
    var s, first := boot.segments, FirstOffset(|boot.segments|, block);
    TableBehind(boot, block);
    OffsetLast(s, first, block);
    if |s| > 0 {
      AreaRow(img, boot, block, |s| - 1);
      OffsetNext(s, first, block, |s| - 1);
    } else {
      OffsetFirst0(s, first, block);
    }
  }

  lemma OffsetFirst0(s: seq<Segment>, at: int, block: int)
    requires block > 0 && s == []
    ensures EndOffset(s, at, block) == at
  {
  }

  lemma TableBehind(boot: Boot, block: int)
    requires block > 0
    ensures var end := EndOffset(boot.segments, FirstOffset(|boot.segments|, block), block);
      FsOffset(boot, block) % 8 == 0 && end <= FsOffset(boot, block) < end + 8
  {
    hide EndOffset, FirstOffset, RoundDown;
  }

  lemma FirstIs(n: nat, block: int)
    requires block > 0
    ensures MultipleOf(FirstOffset(n, block), block) && 20 + 64 * n <= FirstOffset(n, block) < 20 + 64 * n + block
  {
  }

  lemma BootAddress(img: Bytes, boot: Boot, block: int)
    requires block > 0 && At(img, 0, HeaderBody(boot, block))
    ensures ReadInt(img, 12) == 0x1c00_0000
  {
    hide At, U32, AreaTable, FsOffset, FirstOffset, Zeros, ReadInt;
    var n := |boot.segments|;
    var a, b, c, d := U32(FsOffset(boot, block)), U32(n), U32(boot.entry), U32(BOOT_ADDR);
    var t, z := AreaTable(boot.segments, FirstOffset(n, block), block), Zeros(48 * n);
    AtSplit(img, 0, a + b + c + d + t, z);
    AtSplit(img, 0, a + b + c + d, t);
    AtSplit(img, 0, a + b + c, d);
    IntAt(img, 12, BOOT_ADDR);
  }

  // ----- The component table -----

  function ReadLong(img: Bytes, p: int): int {
    ReadInt(img, p) + TWO32 * ReadInt(img, p + 4)
  }

  lemma LongAt(img: Bytes, p: int, v: int)
    requires At(img, p, U64(v)) && Word(v)
    ensures ReadLong(img, p) == v
  {
    hide At, U32, ReadInt;
    AtSplit(img, p, U32(v), U32(v / TWO32));
    IntAt(img, p, v);
    IntAt(img, p + 4, 0);
  }

  /** Where a reader that follows the path lengths comes to after `n` entries. */
  function EntriesEnd(img: Bytes, p: int, n: nat): int
    decreases n
  {
    if n == 0 then p else EntriesEnd(img, p + 12 + ReadInt(img, p + 8), n - 1)
  }

  lemma {:induction false} EntriesEndAt(img: Bytes, p: int, comps: seq<Comp>, at: int)
    requires At(img, p, Entries(comps, at)) && CompsFitAt(comps, at) && AllAscii(comps)
    ensures EntriesEnd(img, p, |comps|) == p + EntriesSize(comps)
    decreases |comps|
  {
    hide At, CompsFitAt, ReadInt, Entry, Up4, Ascii, Encoded;
    if comps != [] {
      var c, addr, next := comps[0], Up4(at), Up4(at) + |comps[0].data|;
      AtSplit(img, p, Entry(c, addr), Entries(comps[1..], next));
      CompsFitTail(comps, at);
      EntryRead(img, p, c, addr);
      EncodedLength(c.name);
      EntryLength(c, addr);
      EntriesEndAt(img, p + 13 + |c.name|, comps[1..], next);
    }
  }

  /** Main result: the component table starts where the first word of the image says, and
      with names in ASCII its own first field is its length, up to the end of the last
      entry. */
  lemma TableLengthSaid(boot: Option<Boot>, comps: seq<Comp>, block: int)
    requires block > 0 && Fits(boot, comps, block) && AllAscii(comps)
    ensures var img := Image(boot, comps, block).buff;
      var t := ReadInt(img, 0);
      && ReadInt(img, t + 8) == |comps|
      && t + ReadLong(img, t) == EntriesEnd(img, t + 12, |comps|)
  {
    hide At, Image, WithComps, ReadInt, AllAscii, CompsEnd, Entries, InStep, EntriesSize, U64, U32;
    var o := StartRead(boot, comps, block);
    var img := Image(boot, comps, block).buff;
    var at := o.cursor + HeaderSize(comps);
    TableAt(o, comps);
    CompsFit(comps, at);
    TableRead(img, o.cursor, comps, at);
    assert CompsFitAt(comps, at);
    EntriesEndAt(img, o.cursor + 12, comps, at);
    AtSplit(img, o.cursor, U64(HeaderSize(comps)) + U32(|comps|), Entries(comps, at));
    AtSplit(img, o.cursor, U64(HeaderSize(comps)), U32(|comps|));
    LongAt(img, o.cursor, HeaderSize(comps));
  }

  // ----- The gaps -----

  ghost predicate InSegment(segments: seq<Segment>, at: int, block: int, p: int)
    requires block > 0
  {
    exists i: nat :: i < |segments| && OffsetOf(segments, at, block, i) <= p < OffsetOf(segments, at, block, i) + |segments[i].data|
  }

  ghost predicate InComp(comps: seq<Comp>, at: int, p: int) {
    exists i: nat :: i < |comps| && AddrOf(comps, at, i) <= p < AddrOf(comps, at, i) + |comps[i].data|
  }

  /** A byte between what was there and what is appended at an offset is zero. */
  lemma PaddedWithZero(o: Out, offset: int, data: Bytes, p: int)
    requires InStep(o) && o.cursor <= p < offset
    ensures var q := Append(PadTo(o, offset), data); p < |q.buff| && q.buff[p] == 0
  {
  }

  lemma PrefixByte(a: Bytes, b: Bytes, p: int)
    requires a <= b && 0 <= p < |a|
    ensures a[p] == b[p]
  {
  }

  lemma {:induction false} SegmentGaps(o: Out, segments: seq<Segment>, at: int, block: int, p: int)
    requires block > 0 && InStep(o) && o.cursor <= at && !InSegment(segments, at, block, p)
    requires o.cursor <= p < |PlaceSegments(o, segments, at, block).buff|
    ensures PlaceSegments(o, segments, at, block).buff[p] == 0
    decreases |segments|
  {
    hide Append, PadTo, Room;
    if segments == [] {
      assert false;
    } else {
      var q, next := Append(PadTo(o, at), segments[0].data), at + Room(segments[0], block);
      Grows(o, at, segments[0].data);
      OffsetFirst(segments, at, block);
      if p < q.cursor {
        assert p < at;
        PaddedWithZero(o, at, segments[0].data, p);
        SegmentsGrow(q, segments[1..], next, block);
        PrefixByte(q.buff, PlaceSegments(q, segments[1..], next, block).buff, p);
      } else {
        forall i: nat | i < |segments| - 1
          ensures !(OffsetOf(segments[1..], next, block, i) <= p < OffsetOf(segments[1..], next, block, i) + |segments[1..][i].data|)
        {
          assert OffsetOf(segments, at, block, i + 1) == OffsetOf(segments[1..], next, block, i);
        }
        SegmentGaps(q, segments[1..], next, block, p);
      }
    }
  }

  lemma {:induction false} CompGaps(o: Out, comps: seq<Comp>, at: int, p: int)
    requires InStep(o) && o.cursor <= at && !InComp(comps, at, p)
    requires o.cursor <= p < |PlaceComps(o, comps, at).buff|
    ensures PlaceComps(o, comps, at).buff[p] == 0
    decreases |comps|
  {
    hide Append, PadTo, Up4;
    if comps == [] {
      assert false;
    } else {
      var q, next := Append(PadTo(o, Up4(at)), comps[0].data), Up4(at) + |comps[0].data|;
      Grows(o, Up4(at), comps[0].data);
      AddrFirst(comps, at);
      if p < q.cursor {
        assert p < Up4(at);
        PaddedWithZero(o, Up4(at), comps[0].data, p);
        CompsGrow(q, comps[1..], next);
        PrefixByte(q.buff, PlaceComps(q, comps[1..], next).buff, p);
      } else {
        forall i: nat | i < |comps| - 1
          ensures !(AddrOf(comps[1..], next, i) <= p < AddrOf(comps[1..], next, i) + |comps[1..][i].data|)
        {
          assert AddrOf(comps, at, i + 1) == AddrOf(comps[1..], next, i);
        }
        CompGaps(q, comps[1..], next, p);
      }
    }
  }

  /** Where nothing belongs: behind the area table in the header, between the segments and
      behind them, and between the components. */
  ghost predicate InGap(boot: Boot, comps: seq<Comp>, block: int, p: int)
    requires block > 0
  {
    var n := |boot.segments|;
    var table := FsOffset(boot, block);
    || 16 + 16 * n <= p < 16 + 64 * n
    || (20 + 64 * n <= p < table && !InSegment(boot.segments, FirstOffset(n, block), block, p))
    || (table + HeaderSize(comps) <= p && !InComp(comps, table + HeaderSize(comps), p))
  }

  lemma HeaderGap(boot: Boot, block: int, p: int)
    requires block > 0 && 16 + 16 * |boot.segments| <= p < 16 + 64 * |boot.segments|
    ensures Header(boot, block)[p] == 0
  {
    hide AreaTable, U32, Seal, FsOffset, FirstOffset;
  }

  lemma BootGap(boot: Boot, block: int, p: int)
    requires block > 0
    requires var n := |boot.segments|; 20 + 64 * n <= p < FsOffset(boot, block) && !InSegment(boot.segments, FirstOffset(n, block), block, p)
    ensures p < |BootPart(boot, block).buff| && BootPart(boot, block).buff[p] == 0
  {
    hide Header, FirstOffset, EndOffset, PlaceSegments, RoundUp, InSegment, FsOffset;
    var n := |boot.segments|;
    var header, first := Out(Header(boot, block), 20 + 64 * n), FirstOffset(n, block);
    SegmentsGrow(header, boot.segments, first, block);
    var q := PlaceSegments(header, boot.segments, first, block);
    EndsBelow(boot, block);
    if p < q.cursor {
      SegmentGaps(header, boot.segments, first, block, p);
    } else {
      PaddedWithZero(q, FsOffset(boot, block), [], p);
    }
  }

  /** Main result: with names in ASCII every byte of an image that belongs to nothing is
      zero. */
  lemma GapsAreZero(boot: Boot, comps: seq<Comp>, block: int, p: int)
    requires block > 0 && AllAscii(comps) && InGap(boot, comps, block, p)
    ensures var img := Image(Some(boot), comps, block).buff; 0 <= p < |img| ==> img[p] == 0
  {
    hide Header, FirstOffset, EndOffset, PlaceSegments, PlaceComps, RoundUp, InSegment, InComp, FsOffset, BootPart, Table, AllAscii, HeaderSize,
      SegmentsAt;
    var img, o := Image(Some(boot), comps, block).buff, BootPart(boot, block);
    var n := |boot.segments|;
    BootPlaced(boot, block);
    WithCompsGrows(o, comps);
    if 0 <= p < |img| {
      if p < 16 + 64 * n {
        HeaderGap(boot, block, p);
        PrefixByte(Header(boot, block), o.buff, p);
        PrefixByte(o.buff, img, p);
      } else if p < FsOffset(boot, block) {
        BootGap(boot, block, p);
        PrefixByte(o.buff, img, p);
      } else {
        var at := o.cursor + HeaderSize(comps);
        var h := Append(o, Table(comps, at));
        TableLength(comps, at);
        CompGaps(h, comps, at, p);
      }
    }
  }
}
