// The sender and the receiver joined by a line that loses and damages packets and
// replies.  The two are in lock-step: a reply is read, or given up for lost, before
// the next transmission.
module XmodemLink {
  import opened Crc
  import opened CrcDetects
  import opened XmodemReceiver
  import opened XmodemReceiverSafety
  import opened XmodemSender

  /** What happens to a transmission, and to the answer to it. */
  datatype Forward = Lost | Intact | Damaged(bytes: seq<byte>)
  datatype Event = Event(forward: Forward, answered: bool, noise: Input)

  /** The two ends; `up` is Waiting while the receiver runs. */
  datatype Link = Link(tx: Tx, rx: Rx, up: Outcome)

  datatype Setup = Setup(blocks: seq<seq<byte>>, size: nat, retry: int, destsz: int, dest0: seq<byte>)

  predicate SetupOk(u: Setup) {
    && (u.size == 128 || u.size == 1024)
    && (forall i :: 0 <= i < |u.blocks| ==> |u.blocks[i]| == u.size)
    && u.destsz <= |u.dest0|
  }

  function Bytes(data: seq<byte>): (line: seq<Input>)
    ensures |line| == |data| && forall i :: 0 <= i < |data| ==> line[i] == Byte(data[i])
  {
    seq(|data|, i requires 0 <= i < |data| => Byte(data[i]))
  }

  /** Damage shows: to a packet, in its complement or its checksum; to an end of
      transmission, in that it is no longer a control byte of the protocol. */
  predicate DamageShows(u: Setup, k: nat, d: seq<byte>) {
    if k < |u.blocks| then
      && |d| == u.size + 5 && d[0] == Transmission(u.blocks, k, true)[0]
      && !(d[1] == !d[2] && Check(true, d[3..], u.size))
    else |d| == 1 && d[0] != SOH && d[0] != STX && d[0] != EOT && d[0] != CAN
  }

  predicate EventOk(u: Setup, s: Link, e: Event)
    requires s.tx.Sending?
  {
    && e.noise != Byte(ACK)
    && (e.forward.Damaged? ==> DamageShows(u, s.tx.block, e.forward.bytes))
  }

  /** What reaches the receiver of block `k`'s transmission. */
  function Line(u: Setup, k: nat, f: Forward): seq<byte> {
    match f
    case Lost => []
    case Intact => Transmission(u.blocks, k, true)
    case Damaged(d) => d
  }

  function Hear(u: Setup, s: Link, line: seq<byte>): (Outcome, Rx)
    requires Sane(s.rx, u.destsz)
  {
    if s.up != Waiting then (s.up, s.rx) else Serve(s.rx, u.destsz, Bytes(line))
  }

  function Reply(s: Link, heard: Rx, e: Event): Input {
    if e.answered && |heard.sent| > |s.rx.sent| then Byte(heard.sent[|s.rx.sent|]) else e.noise
  }

  /** One transmission and the answer to it. */
  function Exchange(u: Setup, s: Link, e: Event): Link
    requires s.tx.Sending? && Sane(s.rx, u.destsz)
  {
    var heard := Hear(u, s, Line(u, s.tx.block, e.forward));
    Link(TxStep(s.tx, |u.blocks|, u.retry, Reply(s, heard.1, e)), heard.1, heard.0)
  }

  // ----- The invariant -----

  /** The accepted payloads are the first blocks of the file, and are as many as the
      sender has had acknowledged, or one more. */
  predicate InStep(u: Setup, s: Link) {
    && |s.rx.accepted| <= |u.blocks| && s.rx.accepted == u.blocks[..|s.rx.accepted|]
    && (s.tx.Sending? ==> s.tx.block <= |s.rx.accepted| <= s.tx.block + 1)
  }

  predicate LinkOk(u: Setup, s: Link) {
    && SetupOk(u)
    && RxOk(s.rx, u.destsz, u.dest0) && Sane(s.rx, u.destsz)
    && (s.up == Waiting ==> RxAlive(s.rx))
    && InStep(u, s)
    && s.up != Cancelled
    && (s.up.Finished? ==> |s.rx.accepted| == |u.blocks| && s.up.len == s.rx.len)
    && (s.tx == Closed(true) ==> s.up.Finished?)
  }

  /** The sender has heard the receiver ask for CRC mode. */
  function LinkStart(u: Setup): Link {
    Link(Sending(0, 0), Start(u.dest0), Waiting)
  }

  lemma LinkStartOk(u: Setup)
    requires SetupOk(u)
    ensures LinkOk(u, LinkStart(u))
  {
    hide RxOk, RxAlive, Sane;
    StartOk(u.dest0, u.destsz);
    assert Start(u.dest0).accepted == [] == u.blocks[..0] by { StartEmpty(u.dest0); }
  }

  lemma StartEmpty(dest: seq<byte>)
    ensures Start(dest).accepted == []
  {
  }

  // ----- Reception of one transmission -----

  lemma {:induction false} CollectAll(d: seq<byte>, rest: seq<Input>)
    ensures Collect(Bytes(d) + rest, |d|) == (d, rest)
    decreases |d|
  {
    if d == [] {
      assert Bytes(d) + rest == rest;
    } else {
      CollectAll(d[1..], rest);
      assert (Bytes(d) + rest)[1..] == Bytes(d[1..]) + rest;
      assert (Bytes(d) + rest)[0] == Byte(d[0]);
      assert d == [d[0]] + d[1..];
    }
  }

  /** A whole packet on the line is one OnPacket. */
  lemma ServeOnePacket(r: Rx, destsz: int, p: seq<byte>, bufsz: nat, rest: seq<Input>)
    requires Sane(r, destsz) && (r.crc || r.trychar == LETTER_C)
    requires |p| == bufsz + 5 && ((p[0] == SOH && bufsz == 128) || (p[0] == STX && bufsz == 1024))
    ensures var o := Opened(r);
      && o.crc && o.trychar == 0 && Sane(o, destsz)
      && var next := OnPacket(o, destsz, p[1..], bufsz);
        Serve(r, destsz, Bytes(p) + rest) ==
          if next.0 != Waiting then next else (OnPacketSane(o, destsz, p[1..], bufsz); Serve(Wait(next.1), destsz, rest))
  {
    hide OnPacket, Collect, Wait;
    var input := Bytes(p) + rest;
    assert input[0] == Byte(p[0]);
    assert input[1..] == Bytes(p[1..]) + rest;
    CollectAll(p[1..], rest);
    OnPacketSane(Opened(r), destsz, p[1..], bufsz);
    hide Serve;
    assert Serve(r, destsz, input) == ServePacket(r, destsz, input[1..], bufsz) by { ServePacketStart(r, destsz, input, bufsz); }
  }

  lemma ServePacketStart(r: Rx, destsz: int, input: seq<Input>, bufsz: nat)
    requires Sane(r, destsz) && input != []
    requires (input[0] == Byte(SOH) && bufsz == 128) || (input[0] == Byte(STX) && bufsz == 1024)
    ensures Serve(r, destsz, input) == ServePacket(r, destsz, input[1..], bufsz)
  {
    hide ServePacket;
  }

  // ----- Sequence numbers -----

  lemma ComplementByte(x: byte)
    ensures x == !(0xff - x)
  {
  }

  lemma NextDiffers(x: byte)
    ensures NextNo(x) != x && (NextNo(x) != 0 ==> NextNo(x) - 1 == x)
  {
  }

  /** The header of a block's packet, seen by a receiver that expects `packetno`. */
  lemma HeaderSeen(packetno: byte, x: byte)
    ensures HeaderOk(packetno, x, 0xff - x) <==> x == packetno || (packetno != 0 && x == packetno - 1)
  {
    ComplementByte(x);
  }

  lemma SeqNoNext(k: nat)
    ensures SeqNo(k + 1) == NextNo(SeqNo(k))
  {
  }

  // ----- A packet of the sender, as the receiver sees it -----

  lemma PacketData(u: Setup, k: nat)
    requires SetupOk(u) && k < |u.blocks|
    ensures var p := Transmission(u.blocks, k, true);
      && |p| == u.size + 5 && p[0] == (if u.size == 128 then SOH else STX)
      && p[1] == SeqNo(k + 1) && p[2] == 0xff - SeqNo(k + 1)
      && p[1..][2..2 + u.size] == u.blocks[k] && Check(true, p[1..][2..], u.size)
  {
    hide Accepts, CrcFrom, SeqNo, HighByte, LowByte;
    var b := u.blocks[k];
    var crc := CrcFrom(0, b);
    var frame := b + [HighByte(crc), LowByte(crc)];
    var p := Transmission(u.blocks, k, true);
    assert p[3..] == frame && p[1..][2..] == p[3..];
    assert frame[..u.size + 2] == frame;
    FrameAccepted(b);
  }

  /** An intact packet with the expected number is stored and acknowledged. */
  lemma NewBlockStored(u: Setup, o: Rx, k: nat)
    requires SetupOk(u) && k < |u.blocks| && Sane(o, u.destsz) && o.crc && o.packetno == SeqNo(k + 1)
    ensures var p := Transmission(u.blocks, k, true);
      && |p| == u.size + 5
      && var next := OnPacket(o, u.destsz, p[1..], u.size);
        && next.0 == Waiting && next.1.accepted == o.accepted + [u.blocks[k]] && next.1.sent == o.sent + [ACK]
  {
    hide Accept, SeqNo, Check, HeaderOk, Transmission;
    PacketData(u, k);
    var d := Transmission(u.blocks, k, true)[1..];
    HeaderSeen(o.packetno, SeqNo(k + 1));
    AcceptFields(o, u.destsz, u.blocks[k]);
    OnPacketWelcome(o, u.destsz, d, u.size);
  }

  /** An intact repetition of the block before is acknowledged again, unless the
      expected number has just wrapped to 0: then it is refused. */
  lemma OldBlockAnswered(u: Setup, o: Rx, k: nat)
    requires SetupOk(u) && k < |u.blocks| && Sane(o, u.destsz) && o.crc && o.packetno == SeqNo(k + 2) && o.retrans >= 1
    ensures var p := Transmission(u.blocks, k, true);
      && |p| == u.size + 5
      && var next := OnPacket(o, u.destsz, p[1..], u.size);
        && next.1.accepted == o.accepted && !next.0.Finished? && next.0 != Cancelled
        && next.1.sent == o.sent + (if o.packetno == 0 then [NAK] else if o.retrans > 1 then [ACK] else [CAN, CAN, CAN])
        && (next.0 == Waiting <==> o.packetno == 0 || o.retrans > 1)
        && next.1.trychar == o.trychar
  {
    hide Accept, SeqNo, Check, HeaderOk, Transmission, NextNo, Welcome;
    OldBlockSeen(u, o.packetno, k);
    if o.packetno != 0 { OnPacketWelcome(o, u.destsz, Transmission(u.blocks, k, true)[1..], u.size); }
  }

  /** A repetition is welcome unless the expected number is 0, and has not that number. */
  lemma OldBlockSeen(u: Setup, packetno: byte, k: nat)
    requires SetupOk(u) && k < |u.blocks| && packetno == SeqNo(k + 2)
    ensures var p := Transmission(u.blocks, k, true);
      && |p| == u.size + 5 && p[1..][0] != packetno
      && (Welcome(packetno, true, p[1..], u.size) <==> packetno != 0)
  {
    hide SeqNo, Check, HeaderOk, Transmission, NextNo;
    PacketData(u, k);
    SeqNoNext(k + 1);
    NextDiffers(SeqNo(k + 1));
    HeaderSeen(packetno, SeqNo(k + 1));
  }

  /** A packet whose damage shows is refused. */
  lemma DamagedRefused(u: Setup, o: Rx, k: nat, d: seq<byte>)
    requires SetupOk(u) && k < |u.blocks| && Sane(o, u.destsz) && o.crc && DamageShows(u, k, d)
    ensures OnPacket(o, u.destsz, d[1..], u.size) == (Waiting, o.(sent := o.sent + [NAK]))
  {
    hide Accept, Check, Transmission;
    assert d[1..][2..] == d[3..];
  }

  // ----- One exchange keeps the invariant -----

  /** What hearing one transmission of block `k` may do to the receiver. */
  predicate HeardOk(u: Setup, s: Link, k: nat, heard: (Outcome, Rx)) {
    var r := heard.1;
    && (r.accepted == s.rx.accepted || (k == |s.rx.accepted| && k < |u.blocks| && r.accepted == s.rx.accepted + [u.blocks[k]]))
    && heard.0 != Cancelled && (heard.0.Finished? ==> s.up.Finished? || k == |u.blocks|)
    && (|r.sent| > |s.rx.sent| && r.sent[|s.rx.sent|] == ACK ==> if k < |u.blocks| then |r.accepted| > k else heard.0.Finished?)
  }

  lemma HearPacket(u: Setup, s: Link, k: nat, f: Forward)
    requires LinkOk(u, s) && s.tx.Sending? && s.tx.block == k < |u.blocks| && s.up == Waiting
    requires f.Damaged? ==> DamageShows(u, k, f.bytes)
    ensures HeardOk(u, s, k, Hear(u, s, Line(u, k, f)))
  {
    hide RxOk, Transmission, OnPacket, SeqNo, Serve;
    var line := Line(u, k, f);
    if f == Lost {
      ServeNothing(s.rx, u.destsz, Bytes(line));
    } else {
      LineShape(u, k, f);
      assert Bytes(line) + [] == Bytes(line);
      ServeOnePacket(s.rx, u.destsz, line, u.size, []);
      var o := Opened(s.rx);
      var next := OnPacket(o, u.destsz, line[1..], u.size);
      RxNumber(s.rx, u.destsz, u.dest0);
      if f.Damaged? {
        DamagedRefused(u, o, k, f.bytes);
      } else if |s.rx.accepted| == k {
        NewBlockStored(u, o, k);
      } else {
        OldBlockAnswered(u, o, k);
      }
      if next.0 == Waiting {
        OnPacketSane(o, u.destsz, line[1..], u.size);
        OnPacketOk(o, u.destsz, line[1..], u.size, u.dest0) by { OpenedOk(s.rx, u.destsz, u.dest0); }
        ServeNothing(Wait(next.1), u.destsz, []);
      }
    }
  }

  lemma ServeNothing(r: Rx, destsz: int, input: seq<Input>)
    requires Sane(r, destsz) && input == []
    ensures Serve(r, destsz, input) == (Waiting, r)
  {
  }

  lemma RxNumber(r: Rx, destsz: int, dest0: seq<byte>)
    requires RxOk(r, destsz, dest0)
    ensures r.packetno == SeqNo(|r.accepted| + 1)
  {
  }

  lemma LineShape(u: Setup, k: nat, f: Forward)
    requires SetupOk(u) && k < |u.blocks| && f != Lost && (f.Damaged? ==> DamageShows(u, k, f.bytes))
    ensures var p := Line(u, k, f); |p| == u.size + 5 && p[0] == (if u.size == 128 then SOH else STX)
  {
    hide Transmission, Check, SeqNo;
    PacketData(u, k);
  }

  lemma HearEot(u: Setup, s: Link, f: Forward)
    requires LinkOk(u, s) && s.tx.Sending? && s.tx.block == |u.blocks| && s.up == Waiting
    requires f.Damaged? ==> DamageShows(u, |u.blocks|, f.bytes)
    ensures HeardOk(u, s, |u.blocks|, Hear(u, s, Line(u, |u.blocks|, f)))
  {
    hide RxOk, SeqNo;
    var line := Line(u, |u.blocks|, f);
    var input := Bytes(line);
    if f == Lost {
      ServeNothing(s.rx, u.destsz, input);
    } else {
      assert |input| == 1 && input[0] == Byte(line[0]) && input[1..] == [];
      ServeNothing(Wait(s.rx), u.destsz, input[1..]);
    }
  }

  /** The receiver's own promises carry over. */
  lemma HearKeeps(u: Setup, s: Link, line: seq<byte>)
    requires LinkOk(u, s)
    ensures var heard := Hear(u, s, line);
      && RxOk(heard.1, u.destsz, u.dest0) && Sane(heard.1, u.destsz)
      && (heard.0 == Waiting ==> RxAlive(heard.1))
      && (heard.0.Finished? ==> heard.0.len == heard.1.len)
  {
    hide RxOk, RxAlive, Sane, Serve, InStep;
    if s.up == Waiting {
      ServeOk(s.rx, u.destsz, Bytes(line), u.dest0);
      RxSane(Serve(s.rx, u.destsz, Bytes(line)).1, u.destsz, u.dest0);
    }
  }

  lemma HearAny(u: Setup, s: Link, e: Event)
    requires LinkOk(u, s) && s.tx.Sending? && EventOk(u, s, e)
    ensures s.tx.block <= |u.blocks|
    ensures HeardOk(u, s, s.tx.block, Hear(u, s, Line(u, s.tx.block, e.forward)))
  {
    hide RxOk, RxAlive, Sane, Serve, DamageShows, Line;
    if s.up == Waiting {
      if s.tx.block < |u.blocks| {
        HearPacket(u, s, s.tx.block, e.forward);
      } else {
        HearEot(u, s, e.forward);
      }
    }
  }

  lemma ExchangeOk(u: Setup, s: Link, e: Event)
    requires LinkOk(u, s) && s.tx.Sending? && EventOk(u, s, e)
    ensures LinkOk(u, Exchange(u, s, e))
  {
    hide RxOk, RxAlive, Serve, DamageShows, Line, Hear;
    var k := s.tx.block;
    var heard := Hear(u, s, Line(u, k, e.forward));
    HearKeeps(u, s, Line(u, k, e.forward));
    HearAny(u, s, e);
    HearDead(u, s, Line(u, k, e.forward));
  }

  /** A receiver that has returned says nothing and changes nothing. */
  lemma HearDead(u: Setup, s: Link, line: seq<byte>)
    requires Sane(s.rx, u.destsz)
    ensures s.up != Waiting ==> Hear(u, s, line) == (s.up, s.rx)
  {
  }
}
