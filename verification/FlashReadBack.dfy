// Reading a flash image back: what its reader finds in it.
module FlashReadBack {
  import opened Words
  import opened Bits
  import opened FlashCrc
  import opened FlashImage

  // ----- The reader -----

  function ReadInt(img: Bytes, p: int): (v: int)
    ensures v >= 0
  {
    if 0 <= p && p + 4 <= |img| then LittleEndian(img[p], img[p + 1], img[p + 2], img[p + 3]) else 0
  }

  function Cut(img: Bytes, p: int, n: int): Bytes {
    if 0 <= p && 0 <= n && p + n <= |img| then img[p..p + n] else []
  }

  function ReadAreas(img: Bytes, p: int, n: nat): seq<Segment>
    decreases n
  {
    if n == 0 then []
    else [Segment(ReadInt(img, p + 4), Cut(img, ReadInt(img, p), ReadInt(img, p + 8)))] + ReadAreas(img, p + 16, n - 1)
  }

  /** The area table says how many segments there are, and where. */
  function ReadBoot(img: Bytes): Boot {
    Boot(ReadInt(img, 8), ReadAreas(img, 16, ReadInt(img, 4)))
  }

  /** The checksum after the header is the header's. */
  predicate HeaderChecks(img: Bytes) {
    var n := 16 + 64 * ReadInt(img, 4);
    n + 4 <= |img| && ReadInt(img, n) == Crc32(ToBits(img[..n])) as int
  }

  datatype File = File(path: Bytes, data: Bytes)

  function ReadEntries(img: Bytes, p: int, n: nat): seq<File>
    decreases n
  {
    if n == 0 then []
    else
      var length := ReadInt(img, p + 8);
      [File(Cut(img, p + 12, length - 1), Cut(img, ReadInt(img, p), ReadInt(img, p + 4)))]
      + ReadEntries(img, p + 12 + length, n - 1)
  }

  /** The first word says where the component table is. */
  function ReadComps(img: Bytes): seq<File> {
    var t := ReadInt(img, 0);
    ReadEntries(img, t + 12, ReadInt(img, t + 8))
  }

  /** The components as their reader should find them. */
  function Files(comps: seq<Comp>): (f: seq<File>)
    ensures |f| == |comps|
    decreases |comps|
  {
    if comps == [] then [] else [File(Encoded(comps[0].name), comps[0].data)] + Files(comps[1..])
  }

  predicate AllAscii(comps: seq<Comp>) {
    forall i :: 0 <= i < |comps| ==> Ascii(comps[i].name)
  }

  // ----- Bytes at a place -----

  predicate At(img: Bytes, p: int, w: Bytes) {
    0 <= p && p + |w| <= |img| && img[p..p + |w|] == w
  }

  lemma AtSplit(img: Bytes, p: int, u: Bytes, v: Bytes)
    requires At(img, p, u + v)
    ensures At(img, p, u) && At(img, p + |u|, v)
  {
    var w := img[p..p + |u + v|];
    assert w[..|u|] == u && w[|u|..] == v;
  }

  lemma AtPrefix(a: Bytes, b: Bytes, p: int, w: Bytes)
    requires a <= b && At(a, p, w)
    ensures At(b, p, w)
  {
    assert b[..|a|] == a;
    assert b[p..p + |w|] == b[..|a|][p..p + |w|];
  }

  lemma CutAt(img: Bytes, p: int, w: Bytes)
    requires At(img, p, w)
    ensures Cut(img, p, |w|) == w
  {
  }

  lemma FourBytes(v: int)
    requires Word(v)
    ensures LittleEndian(v % 256, v / 0x100 % 256, v / 0x1_0000 % 256, v / 0x100_0000 % 256) == v
  {
    var a := v / 0x100;
    var b := a / 0x100;
    var c := b / 0x100;
    assert a == v / 0x100 && b == v / 0x1_0000 && c == v / 0x100_0000;
    assert v == 0x100 * a + v % 256 && a == 0x100 * b + a % 256 && b == 0x100 * c + b % 256 && c % 256 == c;
  }

  lemma IntAt(img: Bytes, p: int, v: int)
    requires At(img, p, U32(v)) && Word(v)
    ensures ReadInt(img, p) == v
  {
    var w := img[p..p + 4];
    assert w[0] == img[p] && w[1] == img[p + 1] && w[2] == img[p + 2] && w[3] == img[p + 3];
    assert w == U32(v);
    hide LittleEndian;
    FourBytes(v);
  }

  // ----- The output grows, in step with its cursor -----

  predicate InStep(o: Out) {
    o.cursor == |o.buff|
  }

  lemma Grows(o: Out, offset: int, data: Bytes)
    ensures var q := Append(PadTo(o, offset), data);
      && o.buff <= q.buff && q.cursor == offset + |data|
      && (InStep(o) && o.cursor <= offset ==> InStep(q) && At(q.buff, offset, data))
  {
  }

  lemma {:induction false} SegmentsGrow(o: Out, segments: seq<Segment>, at: int, block: int)
    requires block > 0 && InStep(o) && o.cursor <= at
    ensures var q := PlaceSegments(o, segments, at, block);
      InStep(q) && o.buff <= q.buff && q.cursor <= EndOffset(segments, at, block)
    decreases |segments|
  {
    hide Append, PadTo, Room;
    if segments != [] {
      Grows(o, at, segments[0].data);
      SegmentsGrow(Append(PadTo(o, at), segments[0].data), segments[1..], at + Room(segments[0], block), block);
    }
  }

  lemma {:induction false} SegmentPlaced(o: Out, segments: seq<Segment>, at: int, block: int, i: nat)
    requires block > 0 && InStep(o) && o.cursor <= at && i < |segments|
    ensures At(PlaceSegments(o, segments, at, block).buff, OffsetOf(segments, at, block, i), segments[i].data)
    decreases i
  {
    hide Append, PadTo, Room, At;
    Grows(o, at, segments[0].data);
    var q, next := Append(PadTo(o, at), segments[0].data), at + Room(segments[0], block);
    if i == 0 {
      SegmentsGrow(q, segments[1..], next, block);
      AtPrefix(q.buff, PlaceSegments(q, segments[1..], next, block).buff, at, segments[0].data);
    } else {
      SegmentPlaced(q, segments[1..], next, block, i - 1);
    }
  }

  lemma {:induction false} CompsGrow(o: Out, comps: seq<Comp>, at: int)
    ensures o.buff <= PlaceComps(o, comps, at).buff
    ensures InStep(o) && o.cursor <= at ==> InStep(PlaceComps(o, comps, at)) && PlaceComps(o, comps, at).cursor <= CompsEnd(comps, at)
    decreases |comps|
  {
    hide Append, PadTo, Up4;
    if comps != [] {
      Grows(o, Up4(at), comps[0].data);
      CompsGrow(Append(PadTo(o, Up4(at)), comps[0].data), comps[1..], Up4(at) + |comps[0].data|);
    }
  }

  lemma {:induction false} CompPlaced(o: Out, comps: seq<Comp>, at: int, i: nat)
    requires InStep(o) && o.cursor <= at && i < |comps|
    ensures At(PlaceComps(o, comps, at).buff, AddrOf(comps, at, i), comps[i].data)
    decreases i
  {
    hide Append, PadTo, Up4, At;
    Grows(o, Up4(at), comps[0].data);
    var q, next := Append(PadTo(o, Up4(at)), comps[0].data), Up4(at) + |comps[0].data|;
    if i == 0 {
      CompsGrow(q, comps[1..], next);
      AtPrefix(q.buff, PlaceComps(q, comps[1..], next).buff, Up4(at), comps[0].data);
    } else {
      CompPlaced(q, comps[1..], next, i - 1);
    }
  }

  // ----- Names -----

  lemma {:induction false} EncodedLength(name: string)
    ensures |Encoded(name)| == |name| <==> Ascii(name)
    decreases |name|
  {
    hide Utf8;
    if name != "" {
      EncodedLength(name[1..]);
      assert Ascii(name) <==> name[0] as int < 0x80 && Ascii(name[1..]) by {
        assert name == [name[0]] + name[1..];
      }
    }
  }

  lemma {:induction false} EntriesLength(comps: seq<Comp>, at: int)
    ensures AllAscii(comps) ==> |Entries(comps, at)| == EntriesSize(comps)
    decreases |comps|
  {
    hide Encoded, U32, Up4, Ascii;
    if comps != [] {
      EncodedLength(comps[0].name);
      EntriesLength(comps[1..], Up4(at) + |comps[0].data|);
    }
  }

  // ----- Reading the segments -----

  lemma AreaRead(img: Bytes, p: int, s: Segment, at: int, block: int)
    requires block > 0 && At(img, p, Area(s, at, block)) && Word(at) && Word(s.base) && Word(|s.data|)
    ensures ReadInt(img, p) == at && ReadInt(img, p + 4) == s.base && ReadInt(img, p + 8) == |s.data|
  {
    hide U32, At, ReadInt, BlocksOf;
    var n := BlocksOf(|s.data|, block);
    AtSplit(img, p, U32(at) + U32(s.base) + U32(|s.data|), U32(n));
    AtSplit(img, p, U32(at) + U32(s.base), U32(|s.data|));
    AtSplit(img, p, U32(at), U32(s.base));
    IntAt(img, p, at);
    IntAt(img, p + 4, s.base);
    IntAt(img, p + 8, |s.data|);
  }

  predicate SegmentsAt(img: Bytes, segments: seq<Segment>, at: int, block: int)
    requires block > 0
  {
    forall i :: 0 <= i < |segments| ==> At(img, OffsetOf(segments, at, block, i), segments[i].data)
  }

  lemma SegmentsAtTail(img: Bytes, segments: seq<Segment>, at: int, block: int)
    requires block > 0 && segments != [] && SegmentsAt(img, segments, at, block)
    ensures At(img, at, segments[0].data) && SegmentsAt(img, segments[1..], at + Room(segments[0], block), block)
  {
    hide At, Room;
    OffsetFirst(segments, at, block);
    assert At(img, OffsetOf(segments, at, block, 0), segments[0].data);
    var rest, next := segments[1..], at + Room(segments[0], block);
    forall i | 0 <= i < |rest| ensures At(img, OffsetOf(rest, next, block, i), rest[i].data) {
      assert OffsetOf(segments, at, block, i + 1) == OffsetOf(rest, next, block, i);
      assert At(img, OffsetOf(segments, at, block, i + 1), segments[i + 1].data);
    }
  }

  lemma {:induction false} AreasRead(img: Bytes, p: int, segments: seq<Segment>, at: int, block: int)
    requires block > 0 && At(img, p, AreaTable(segments, at, block)) && SegmentsAt(img, segments, at, block)
    requires 0 <= at && EndOffset(segments, at, block) < TWO32 && forall s :: s in segments ==> Word(s.base)
    ensures ReadAreas(img, p, |segments|) == segments
    decreases |segments|
  {
    hide At, SegmentsAt, ReadInt, Cut, Area, Room;
    if segments != [] {
      var s, next := segments[0], at + Room(segments[0], block);
      AtSplit(img, p, Area(s, at, block), AreaTable(segments[1..], next, block));
      assert s in segments;
      AreaRead(img, p, s, at, block);
      SegmentsAtTail(img, segments, at, block);
      CutAt(img, at, s.data);
      AreasRead(img, p + 16, segments[1..], next, block);
    }
  }

  // ----- Reading the components -----

  lemma EntryRead(img: Bytes, p: int, c: Comp, addr: int)
    requires At(img, p, Entry(c, addr)) && Word(addr) && Word(|c.data|) && Word(|c.name| + 1)
    ensures ReadInt(img, p) == addr && ReadInt(img, p + 4) == |c.data| && ReadInt(img, p + 8) == |c.name| + 1
    ensures At(img, p + 12, Encoded(c.name))
  {
    hide U32, At, ReadInt, Encoded;
    var a, b, d, e := U32(addr), U32(|c.data|), U32(|c.name| + 1), Encoded(c.name);
    AtSplit(img, p, a + b + d + e, [0]);
    AtSplit(img, p, a + b + d, e);
    AtSplit(img, p, a + b, d);
    AtSplit(img, p, a, b);
    IntAt(img, p, addr);
    IntAt(img, p + 4, |c.data|);
    IntAt(img, p + 8, |c.name| + 1);
  }

  predicate CompsAt(img: Bytes, comps: seq<Comp>, at: int) {
    forall i :: 0 <= i < |comps| ==> At(img, AddrOf(comps, at, i), comps[i].data)
  }

  lemma CompsAtTail(img: Bytes, comps: seq<Comp>, at: int)
    requires comps != [] && CompsAt(img, comps, at)
    ensures At(img, Up4(at), comps[0].data) && CompsAt(img, comps[1..], Up4(at) + |comps[0].data|)
  {
    hide At, Up4;
    AddrFirst(comps, at);
    assert At(img, AddrOf(comps, at, 0), comps[0].data);
    var rest, next := comps[1..], Up4(at) + |comps[0].data|;
    forall i | 0 <= i < |rest| ensures At(img, AddrOf(rest, next, i), rest[i].data) {
      assert AddrOf(comps, at, i + 1) == AddrOf(rest, next, i);
      assert At(img, AddrOf(comps, at, i + 1), comps[i + 1].data);
    }
  }

  /** The sizes and addresses in the entries fit their fields. */
  predicate CompsFitAt(comps: seq<Comp>, at: int) {
    at >= EntriesSize(comps) && CompsEnd(comps, at) < TWO32
  }

  lemma CompsFitTail(comps: seq<Comp>, at: int)
    requires comps != [] && CompsFitAt(comps, at)
    ensures CompsFitAt(comps[1..], Up4(at) + |comps[0].data|)
    ensures Word(Up4(at)) && Word(|comps[0].data|) && Word(|comps[0].name| + 1)
  {
    AddrFirst(comps, at);
    AddrFits(comps, at, 0);
    hide Up4;
  }

  lemma {:induction false} EntriesRead(img: Bytes, p: int, comps: seq<Comp>, at: int)
    requires At(img, p, Entries(comps, at)) && CompsAt(img, comps, at) && CompsFitAt(comps, at) && AllAscii(comps)
    ensures ReadEntries(img, p, |comps|) == Files(comps)
    decreases |comps|
  {
    hide At, CompsAt, CompsFitAt, ReadInt, Cut, Entry, Up4, Ascii, Encoded;
    if comps != [] {
      var c, addr, next := comps[0], Up4(at), Up4(at) + |comps[0].data|;
      AtSplit(img, p, Entry(c, addr), Entries(comps[1..], next));
      CompsFitTail(comps, at);
      EntryRead(img, p, c, addr);
      CompsAtTail(img, comps, at);
      CutAt(img, addr, c.data);
      CutAt(img, p + 12, Encoded(c.name));
      EncodedLength(c.name);
      EntryLength(c, addr);
      EntriesRead(img, p + 13 + |c.name|, comps[1..], next);
    }
  }

  lemma EntryLength(c: Comp, addr: int)
    ensures |Entry(c, addr)| == 13 + |Encoded(c.name)|
  {
    hide U32, Encoded;
  }

  /** A name that takes more bytes than characters is cut short. */
  lemma {:induction false} EntriesReadOnlyIf(img: Bytes, p: int, comps: seq<Comp>, at: int)
    requires At(img, p, Entries(comps, at)) && CompsFitAt(comps, at)
    requires ReadEntries(img, p, |comps|) == Files(comps)
    ensures AllAscii(comps)
    decreases |comps|
  {
    hide At, CompsFitAt, ReadInt, Cut, Entry, Up4, Ascii, Encoded;
    if comps != [] {
      var c, addr, next := comps[0], Up4(at), Up4(at) + |comps[0].data|;
      AtSplit(img, p, Entry(c, addr), Entries(comps[1..], next));
      CompsFitTail(comps, at);
      EntryRead(img, p, c, addr);
      assert ReadEntries(img, p, |comps|)[0].path == Cut(img, p + 12, |c.name|);
      assert Files(comps)[0].path == Encoded(c.name);
      CutShort(img, p + 12, Encoded(c.name), |c.name|);
      EncodedLength(c.name);
      EntryLength(c, addr);
      TailEqual(img, p, comps);
      EntriesReadOnlyIf(img, p + 13 + |c.name|, comps[1..], next);
    }
  }

  lemma CutShort(img: Bytes, p: int, w: Bytes, n: nat)
    requires At(img, p, w) && n <= |w|
    ensures |Cut(img, p, n)| == n
  {
  }

  lemma TailEqual(img: Bytes, p: int, comps: seq<Comp>)
    requires comps != [] && ReadEntries(img, p, |comps|) == Files(comps)
    ensures ReadEntries(img, p + 12 + ReadInt(img, p + 8), |comps| - 1) == Files(comps[1..])
  {
    hide ReadInt, Cut, Encoded;
    assert ReadEntries(img, p, |comps|)[1..] == ReadEntries(img, p + 12 + ReadInt(img, p + 8), |comps| - 1);
    assert Files(comps)[1..] == Files(comps[1..]);
  }

  // ----- The header -----

  lemma HeaderFields(img: Bytes, boot: Boot, block: int)
    requires block > 0 && At(img, 0, Header(boot, block))
    requires Word(boot.entry) && 0 <= FsOffset(boot, block) < TWO32
    ensures ReadInt(img, 0) == FsOffset(boot, block) && ReadInt(img, 4) == |boot.segments| && ReadInt(img, 8) == boot.entry
    ensures At(img, 16, AreaTable(boot.segments, FirstOffset(|boot.segments|, block), block))
    ensures At(img, 0, HeaderBody(boot, block)) && HeaderChecks(img)
  {
    HeaderSplit(img, boot, block);
    hide *;
    var n := |boot.segments|;
    SegmentCount(boot, block);
    IntAt(img, 0, FsOffset(boot, block));
    IntAt(img, 4, n);
    IntAt(img, 8, boot.entry);
    BodyChecks(img, HeaderBody(boot, block), n);
  }

  lemma BodyCut(img: Bytes, body: Bytes)
    requires At(img, 0, body)
    ensures |body| <= |img| && img[..|body|] == body
  {
  }

  lemma CutFits(img: Bytes, p: int, w: Bytes)
    requires At(img, p, w)
    ensures p + |w| <= |img|
  {
  }

  lemma BodyChecks(img: Bytes, body: Bytes, n: nat)
    requires ReadInt(img, 4) == n && |body| == 16 + 64 * n
    requires At(img, 0, body) && At(img, 16 + 64 * n, U32(Seal(body)))
    ensures HeaderChecks(img)
  {
    hide ReadInt, U32, Crc32, ToBits, At;
    BodyCut(img, body);
    CutFits(img, 16 + 64 * n, U32(Seal(body)));
    IntAt(img, 16 + 64 * n, Seal(body));
  }

  lemma SegmentCount(boot: Boot, block: int)
    requires block > 0 && FsOffset(boot, block) < TWO32
    ensures Word(|boot.segments|) && Word(FsOffset(boot, block))
  {
    hide EndOffset, RoundUp;
  }

  lemma HeaderSplit(img: Bytes, boot: Boot, block: int)
    requires block > 0 && At(img, 0, Header(boot, block))
    ensures var n := |boot.segments|;
      && At(img, 0, U32(FsOffset(boot, block))) && At(img, 4, U32(n)) && At(img, 8, U32(boot.entry))
      && At(img, 16, AreaTable(boot.segments, FirstOffset(n, block), block))
      && At(img, 0, HeaderBody(boot, block)) && At(img, 16 + 64 * n, U32(Seal(HeaderBody(boot, block))))
  {
    hide At, U32, Seal, AreaTable, FsOffset, FirstOffset, Zeros;
    var n := |boot.segments|;
    var a, b, c, d := U32(FsOffset(boot, block)), U32(n), U32(boot.entry), U32(BOOT_ADDR);
    var t, z := AreaTable(boot.segments, FirstOffset(n, block), block), Zeros(48 * n);
    AtSplit(img, 0, HeaderBody(boot, block), U32(Seal(HeaderBody(boot, block))));
    AtSplit(img, 0, a + b + c + d + t, z);
    AtSplit(img, 0, a + b + c + d, t);
    AtSplit(img, 0, a + b + c, d);
    AtSplit(img, 0, a + b, c);
    AtSplit(img, 0, a, b);
  }

  // ----- Main results -----

  /** The boot part is in step with its cursor and has the segments in their places. */
  lemma BootPlaced(boot: Boot, block: int)
    requires block > 0
    ensures var o := BootPart(boot, block);
      var first := FirstOffset(|boot.segments|, block);
      && InStep(o) && o.cursor == FsOffset(boot, block) && Header(boot, block) <= o.buff
      && SegmentsAt(o.buff, boot.segments, first, block)
  {
    hide Header, FirstOffset, EndOffset, PlaceSegments, OffsetOf, RoundUp, At;
    var n := |boot.segments|;
    var header, first := Out(Header(boot, block), 20 + 64 * n), FirstOffset(n, block);
    SegmentsGrow(header, boot.segments, first, block);
    var p := PlaceSegments(header, boot.segments, first, block);
    var o := BootPart(boot, block);
    assert p.buff <= o.buff;
    forall i | 0 <= i < n ensures At(o.buff, OffsetOf(boot.segments, first, block, i), boot.segments[i].data) {
      SegmentPlaced(header, boot.segments, first, block, i);
      AtPrefix(p.buff, o.buff, OffsetOf(boot.segments, first, block, i), boot.segments[i].data);
    }
  }

  lemma SegmentsAtPrefix(a: Bytes, b: Bytes, segments: seq<Segment>, at: int, block: int)
    requires a <= b && block > 0 && SegmentsAt(a, segments, at, block)
    ensures SegmentsAt(b, segments, at, block)
  {
    hide At, OffsetOf;
    forall i | 0 <= i < |segments| ensures At(b, OffsetOf(segments, at, block, i), segments[i].data) {
      AtPrefix(a, b, OffsetOf(segments, at, block, i), segments[i].data);
    }
  }

  lemma WithCompsGrows(o: Out, comps: seq<Comp>)
    ensures o.buff <= WithComps(o, comps).buff
  {
    hide Table, HeaderSize;
    var at := o.cursor + HeaderSize(comps);
    CompsGrow(Append(o, Table(comps, at)), comps, at);
  }

  lemma WholeAt(w: Bytes, img: Bytes)
    requires w <= img
    ensures At(img, 0, w)
  {
  }

  /** Main result, segments: the image's area table leads the reader to exactly the
      segments given, and its header passes its check, whatever the components. */
  lemma BootReadBack(boot: Boot, comps: seq<Comp>, block: int)
    requires block > 0 && Fits(Some(boot), comps, block)
    ensures var img := Image(Some(boot), comps, block).buff;
      ReadBoot(img) == boot && HeaderChecks(img)
  {
    hide At, Header, BootPart, WithComps, SegmentsAt, AreaTable, ReadAreas, FsOffset, CompsEnd, HeaderSize, HeaderChecks, FirstOffset;
    var img, o := Image(Some(boot), comps, block).buff, BootPart(boot, block);
    BootPlaced(boot, block);
    WithCompsGrows(o, comps);
    assert img == WithComps(o, comps).buff;
    WholeAt(Header(boot, block), img);
    BootPartEnds(boot, block, HeaderSize(comps), comps);
    HeaderFields(img, boot, block);
    SegmentsAtPrefix(o.buff, img, boot.segments, FirstOffset(|boot.segments|, block), block);
    EndsBelow(boot, block);
    AreasRead(img, 16, boot.segments, FirstOffset(|boot.segments|, block), block);
  }

  lemma EndsBelow(boot: Boot, block: int)
    requires block > 0
    ensures EndOffset(boot.segments, FirstOffset(|boot.segments|, block), block) <= FsOffset(boot, block)
    ensures 0 <= FirstOffset(|boot.segments|, block)
  {
    hide EndOffset, RoundUp;
  }

  /** What comes before the components, and that it says where they start. */
  lemma StartRead(boot: Option<Boot>, comps: seq<Comp>, block: int) returns (o: Out)
    requires block > 0 && Fits(boot, comps, block)
    ensures InStep(o) && Image(boot, comps, block) == WithComps(o, comps)
    ensures 0 <= o.cursor && CompsEnd(comps, o.cursor + HeaderSize(comps)) < TWO32
    ensures ReadInt(Image(boot, comps, block).buff, 0) == o.cursor
  {
    hide At, Header, BootPart, WithComps, FsOffset, CompsEnd, HeaderSize, ReadInt, U32, SegmentsAt, HeaderChecks, FirstOffset;
    var img := Image(boot, comps, block).buff;
    match boot {
      case None =>
        o := Out(U64(8), 8);
        WithCompsGrows(o, comps);
        WholeAt(U64(8), img);
        AtSplit(img, 0, U32(8), U32(8 / TWO32));
        IntAt(img, 0, 8);
      case Some(b) =>
        o := BootPart(b, block);
        BootPlaced(b, block);
        BootPartEnds(b, block, HeaderSize(comps), comps);
        WithCompsGrows(o, comps);
        WholeAt(Header(b, block), img);
        HeaderFields(img, b, block);
    }
  }

  lemma TableRead(img: Bytes, p: int, comps: seq<Comp>, at: int)
    requires At(img, p, Table(comps, at)) && Word(|comps|)
    ensures ReadInt(img, p + 8) == |comps| && At(img, p + 12, Entries(comps, at))
  {
    hide At, U32, U64, Entries, HeaderSize, ReadInt;
    AtSplit(img, p, U64(HeaderSize(comps)) + U32(|comps|), Entries(comps, at));
    AtSplit(img, p, U64(HeaderSize(comps)), U32(|comps|));
    IntAt(img, p + 8, |comps|);
  }

  lemma TableAt(o: Out, comps: seq<Comp>)
    requires InStep(o)
    ensures var at := o.cursor + HeaderSize(comps);
      At(WithComps(o, comps).buff, o.cursor, Table(comps, at))
  {
    hide Table, HeaderSize, PlaceComps;
    var at := o.cursor + HeaderSize(comps);
    var h := Append(o, Table(comps, at));
    CompsGrow(h, comps, at);
    assert At(h.buff, o.cursor, Table(comps, at));
    AtPrefix(h.buff, WithComps(o, comps).buff, o.cursor, Table(comps, at));
  }

  /** With names in ASCII the cursor is in step with the buffer, and the components
      are where their entries say. */
  lemma CompsPlaced(o: Out, comps: seq<Comp>)
    requires InStep(o) && AllAscii(comps)
    ensures InStep(WithComps(o, comps)) && CompsAt(WithComps(o, comps).buff, comps, o.cursor + HeaderSize(comps))
  {
    hide At, Entries, PlaceComps, AddrOf, AllAscii, U32, U64, EntriesSize;
    var at := o.cursor + HeaderSize(comps);
    EntriesLength(comps, at);
    var h := Append(o, Table(comps, at));
    assert InStep(h) && h.cursor == at;
    CompsGrow(h, comps, at);
    forall i | 0 <= i < |comps| ensures At(WithComps(o, comps).buff, AddrOf(comps, at, i), comps[i].data) {
      CompPlaced(h, comps, at, i);
    }
  }

  /** Main result, components: the table leads the reader to exactly the components
      given, if and only if all their names are in ASCII. */
  lemma CompsReadBackIff(boot: Option<Boot>, comps: seq<Comp>, block: int)
    requires block > 0 && Fits(boot, comps, block)
    ensures ReadComps(Image(boot, comps, block).buff) == Files(comps) <==> AllAscii(comps)
    ensures AllAscii(comps) ==> InStep(Image(boot, comps, block))
  {
    hide At, Image, WithComps, Table, ReadEntries, ReadInt, Files, AllAscii, CompsAt, CompsEnd, EntriesSize, Entries, InStep;
    var o := StartRead(boot, comps, block);
    var img := Image(boot, comps, block).buff;
    var at := o.cursor + HeaderSize(comps);
    TableAt(o, comps);
    CompsFit(comps, at);
    TableRead(img, o.cursor, comps, at);
    assert CompsFitAt(comps, at);
    if AllAscii(comps) {
      CompsPlaced(o, comps);
      EntriesRead(img, o.cursor + 12, comps, at);
    }
    if ReadComps(img) == Files(comps) {
      EntriesReadOnlyIf(img, o.cursor + 12, comps, at);
    }
  }

  // ----- Regions -----

  /** The segments' regions follow the header, one after the other in whole blocks, and
      end before the component table; the components' data follow the table, each at a
      multiple of four and after the one before. */
  lemma RegionsApart(boot: Boot, comps: seq<Comp>, block: int, i: nat, j: nat)
    requires block > 0
    ensures var (s, f) := (boot.segments, FirstOffset(|boot.segments|, block));
      && |Header(boot, block)| <= f
      && (i < j < |s| ==> OffsetOf(s, f, block, i) + |s[i].data| <= OffsetOf(s, f, block, j))
      && (j < |s| ==> f <= OffsetOf(s, f, block, j) && OffsetOf(s, f, block, j) + |s[j].data| <= FsOffset(boot, block))
    ensures var at := FsOffset(boot, block) + HeaderSize(comps);
      && (i < j < |comps| ==> AddrOf(comps, at, i) + |comps[i].data| <= AddrOf(comps, at, j))
      && (AllAscii(comps) ==> |Table(comps, at)| == HeaderSize(comps))
      && (j < |comps| ==> at <= AddrOf(comps, at, j) && AddrOf(comps, at, j) % 4 == 0)
  {
    hide OffsetOf, AddrOf, Up4, EndOffset, Room, RoundUp, HeaderSize, Header, Table, AllAscii;
    var s, f := boot.segments, FirstOffset(|boot.segments|, block);
    if i < j < |s| { OffsetsGrow(s, f, block, i, j); }
    if j < |s| { OffsetFits(s, f, block, j); }
    var at := FsOffset(boot, block) + HeaderSize(comps);
    TableLength(comps, at);
    if i < j < |comps| { AddrsGrow(comps, at, i, j); }
    if j < |comps| {
      StartAddr(comps, at, j);
      StartGrows(comps, at, j);
    }
  }

  lemma TableLength(comps: seq<Comp>, at: int)
    ensures AllAscii(comps) ==> |Table(comps, at)| == HeaderSize(comps)
  {
    hide Entries, EntriesSize, AllAscii, U32, U64;
    EntriesLength(comps, at);
  }

  lemma {:induction false} OffsetsGrow(s: seq<Segment>, at: int, block: int, i: nat, j: nat)
    requires block > 0 && i < j < |s|
    ensures OffsetOf(s, at, block, i) + |s[i].data| <= OffsetOf(s, at, block, j)
    decreases j
  {
    hide OffsetOf, Room;
    OffsetNext(s, at, block, j - 1);
    if i < j - 1 { OffsetsGrow(s, at, block, i, j - 1); }
  }

  lemma {:induction false} AddrsGrow(comps: seq<Comp>, at: int, i: nat, j: nat)
    requires i < j < |comps|
    ensures AddrOf(comps, at, i) + |comps[i].data| <= AddrOf(comps, at, j)
    decreases j
  {
    hide AddrOf, Up4;
    AddrNext(comps, at, j - 1);
    if i < j - 1 { AddrsGrow(comps, at, i, j - 1); }
  }

  lemma {:induction false} StartGrows(comps: seq<Comp>, at: int, j: nat)
    requires j < |comps|
    ensures at <= StartOf(comps, at, j)
    decreases j
  {
    hide Up4;
    if j > 0 { StartGrows(comps[1..], Up4(at) + |comps[0].data|, j - 1); }
  }
}
