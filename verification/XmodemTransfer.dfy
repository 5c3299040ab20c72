// Whole transfers over the lossy line: what holds in every run, what a success
// means, when a transfer succeeds and when it can no longer succeed.
module XmodemTransfer {
  import Words
  import opened Crc
  import opened CrcDetects
  import opened XmodemReceiver
  import opened XmodemReceiverSafety
  import opened XmodemSender
  import opened XmodemStart
  import opened XmodemLink
  import opened XmodemControl

  /** The events happen one after the other until the sender returns. */
  ghost predicate RunAllowed(u: Setup, s: Link, events: seq<Event>)
    decreases |events|
  {
    s.tx.Sending? && events != [] ==>
      EventOk(u, s, events[0]) && Sane(s.rx, u.destsz) && RunAllowed(u, Exchange(u, s, events[0]), events[1..])
  }

  ghost function Run(u: Setup, s: Link, events: seq<Event>): Link
    requires RunAllowed(u, s, events)
    decreases |events|
  {
    if s.tx.Closed? || events == [] then s else Run(u, Exchange(u, s, events[0]), events[1..])
  }

  lemma {:induction false} RunKeeps(u: Setup, s: Link, events: seq<Event>)
    requires LinkOk(u, s) && RunAllowed(u, s, events)
    ensures LinkOk(u, Run(u, s, events))
    decreases |events|
  {
    hide LinkOk, Exchange, EventOk;
    if s.tx.Sending? && events != [] {
      LinkSane(u, s);
      ExchangeOk(u, s, events[0]);
      RunKeeps(u, Exchange(u, s, events[0]), events[1..]);
    }
  }

  lemma LinkSane(u: Setup, s: Link)
    requires LinkOk(u, s)
    ensures Sane(s.rx, u.destsz)
  {
  }

  /** Main result, safety: in every run the blocks the receiver has accepted are the
      first blocks of the file, in order and once each, across every wrap of the
      sequence number, and lead the acknowledged ones by none or one. */
  lemma RunInStep(u: Setup, events: seq<Event>)
    requires SetupOk(u) && RunAllowed(u, LinkStart(u), events)
    ensures var s := Run(u, LinkStart(u), events);
      && |s.rx.accepted| <= |u.blocks| && s.rx.accepted == u.blocks[..|s.rx.accepted|]
      && (s.tx.Sending? ==> s.tx.block <= |s.rx.accepted| <= s.tx.block + 1)
  {
    hide RxOk, RxAlive, Run, RunAllowed;
    LinkStartOk(u);
    RunKeeps(u, LinkStart(u), events);
  }

  /** Main result, meaning of success: when send returns True the receiver has
      returned normally, and its buffer holds the file padded to whole blocks, as far
      as it fits, and is otherwise untouched. */
  lemma SuccessMeansDelivered(file: seq<byte>, pad: byte, u: Setup, events: seq<Event>) returns (fill: nat)
    requires SetupOk(u) && u.blocks == Blocks(file, u.size, pad)
    requires RunAllowed(u, LinkStart(u), events) && Run(u, LinkStart(u), events).tx == Closed(true)
    ensures fill < u.size
    ensures var s := Run(u, LinkStart(u), events);
      var data := file + Words.Repeat(pad, fill);
      && s.up == Finished(Fits(u.destsz, |data|))
      && Filled(s.rx.dest, u.dest0, u.destsz, data)
  {
    hide RxAlive, Run, RunAllowed, Flat, Blocks, SeqNo;
    LinkStartOk(u);
    RunKeeps(u, LinkStart(u), events);
    fill := BlocksSpellFile(file, u.size, pad);
    var s := Run(u, LinkStart(u), events);
    assert u.blocks[..|u.blocks|] == u.blocks;
    assert s.rx.accepted == u.blocks;
  }

  // ----- The receiver's side is the receiver -----

  /** All that reaches the receiver in a run. */
  ghost function Heard(u: Setup, s: Link, events: seq<Event>): seq<Input>
    requires RunAllowed(u, s, events)
    decreases |events|
  {
    if s.tx.Closed? || events == [] then []
    else Bytes(Line(u, s.tx.block, events[0].forward)) + Heard(u, Exchange(u, s, events[0]), events[1..])
  }

  /** Serving a line and what follows it is serving the one after the other. */
  lemma ServeLine(u: Setup, s: Link, e: Event, rest: seq<Input>)
    requires LinkOk(u, s) && s.tx.Sending? && EventOk(u, s, e) && s.up == Waiting && Sane(s.rx, u.destsz)
    ensures var line := Bytes(Line(u, s.tx.block, e.forward));
      var first := Serve(s.rx, u.destsz, line);
      && Sane(first.1, u.destsz)
      && Serve(s.rx, u.destsz, line + rest) == if first.0 == Waiting then Serve(first.1, u.destsz, rest) else first
  {
    hide RxOk, Transmission, OnPacket, SeqNo;
    var k, f := s.tx.block, e.forward;
    var line := Line(u, k, f);
    HearKeeps(u, s, line);
    if f == Lost {
      assert Bytes(line) + rest == rest;
      ServeNothing(s.rx, u.destsz, Bytes(line));
    } else if k < |u.blocks| {
      hide Serve;
      LineShape(u, k, f);
      ServeOnePacket(s.rx, u.destsz, line, u.size, rest);
      ServeOnePacket(s.rx, u.destsz, line, u.size, []);
      assert Bytes(line) + [] == Bytes(line);
      var next := OnPacket(Opened(s.rx), u.destsz, line[1..], u.size);
      if next.0 == Waiting {
        OnPacketSane(Opened(s.rx), u.destsz, line[1..], u.size);
        ServeNothing(Wait(next.1), u.destsz, []);
      }
    } else {
      OneByteLine(u, s, e);
      ServeOneByte(s.rx, u.destsz, line, rest);
    }
  }

  lemma OneByteLine(u: Setup, s: Link, e: Event)
    requires s.tx.Sending? && s.tx.block >= |u.blocks| && EventOk(u, s, e) && e.forward != Lost
    ensures var line := Line(u, s.tx.block, e.forward);
      |line| == 1 && line[0] != SOH && line[0] != STX && line[0] != CAN
  {
  }

  lemma ServeOneByte(r: Rx, destsz: int, line: seq<byte>, rest: seq<Input>)
    requires Sane(r, destsz) && |line| == 1 && line[0] != SOH && line[0] != STX && line[0] != CAN
    ensures var first := Serve(r, destsz, Bytes(line));
      && Sane(first.1, destsz)
      && Serve(r, destsz, Bytes(line) + rest) == if first.0 == Waiting then Serve(first.1, destsz, rest) else first
  {
    assert Bytes(line)[1..] == [];
    assert (Bytes(line) + rest)[1..] == rest;
    ServeNothing(Wait(r), destsz, []);
  }

  /** A run, and whatever reaches the receiver after it, is one input to the receiver. */
  lemma {:induction false} RunThenServe(u: Setup, s: Link, events: seq<Event>, rest: seq<Input>)
    requires LinkOk(u, s) && RunAllowed(u, s, events) && s.up == Waiting && Sane(s.rx, u.destsz)
    ensures var t := Run(u, s, events);
      && Sane(t.rx, u.destsz)
      && Serve(s.rx, u.destsz, Heard(u, s, events) + rest) ==
        if t.up == Waiting then Serve(t.rx, u.destsz, rest) else (t.up, t.rx)
    decreases |events|
  {
    hide LinkOk, EventOk, Serve, Line, TxStep;
    if s.tx.Closed? || events == [] {
      assert Heard(u, s, events) + rest == rest;
    } else {
      var e := events[0];
      ExchangeOk(u, s, e);
      var next := Exchange(u, s, e);
      var more := Heard(u, next, events[1..]);
      ServeLine(u, s, e, more + rest);
      HeardSplit(Bytes(Line(u, s.tx.block, e.forward)), more, rest);
      LinkSane(u, next);
      if next.up == Waiting {
        RunThenServe(u, next, events[1..], rest);
      } else {
        DeadForever(u, next, events[1..]);
      }
    }
  }

  lemma HeardSplit(a: seq<Input>, b: seq<Input>, c: seq<Input>)
    ensures a + b + c == a + (b + c)
  {
  }

  /** The receiver's state after a run is what the receiver computes from all the
      bytes that reached it, taken as one input. */
  lemma RunIsServe(u: Setup, s: Link, events: seq<Event>)
    requires LinkOk(u, s) && RunAllowed(u, s, events) && s.up == Waiting && Sane(s.rx, u.destsz)
    ensures Serve(s.rx, u.destsz, Heard(u, s, events)) == (Run(u, s, events).up, Run(u, s, events).rx)
  {
    hide LinkOk, RunAllowed, Run, Heard, Serve;
    RunThenServe(u, s, events, []);
    assert Heard(u, s, events) + [] == Heard(u, s, events);
    var t := Run(u, s, events);
    ServeNothing(t.rx, u.destsz, []);
  }

  /** Main result, meaning of failure: when send gives up and its two cancels arrive, a
      receiver that still runs ends as cancelled, with the first blocks of the file in
      its buffer and the rest of the buffer untouched. */
  lemma FailureCancels(u: Setup, events: seq<Event>, rest: seq<Input>)
    requires SetupOk(u) && RunAllowed(u, LinkStart(u), events)
    requires Run(u, LinkStart(u), events).tx == Closed(false) && Run(u, LinkStart(u), events).up == Waiting
    ensures Sane(Start(u.dest0), u.destsz)
    ensures var s := Run(u, LinkStart(u), events);
      var end := Serve(Start(u.dest0), u.destsz, Heard(u, LinkStart(u), events) + (Bytes(Flat(ABORT)) + rest));
      && end == (Cancelled, s.rx.(sent := s.rx.sent + [0x06]))
      && |end.1.accepted| <= |u.blocks| && end.1.accepted == u.blocks[..|end.1.accepted|]
      && Filled(end.1.dest, u.dest0, u.destsz, Flat(end.1.accepted))
  {
    hide RxAlive, Run, RunAllowed, Heard, Flat, SeqNo, Serve, Filled;
    LinkStartOk(u);
    StartOk(u.dest0, u.destsz);
    RunKeeps(u, LinkStart(u), events);
    RunThenServe(u, LinkStart(u), events, Bytes(Flat(ABORT)) + rest);
    AbortCancels(Run(u, LinkStart(u), events).rx, u.destsz, rest);
  }

  lemma {:induction false} DeadForever(u: Setup, s: Link, events: seq<Event>)
    requires RunAllowed(u, s, events) && s.up != Waiting
    ensures Run(u, s, events).up == s.up && Run(u, s, events).rx == s.rx
    decreases |events|
  {
    hide EventOk, Line, TxStep, Reply;
    if s.tx.Sending? && events != [] {
      DeadForever(u, Exchange(u, s, events[0]), events[1..]);
    }
  }

  // ----- The sender's side is the sender -----

  /** The replies that reach the sender in a run. */
  ghost function Answers(u: Setup, s: Link, events: seq<Event>): seq<Input>
    requires RunAllowed(u, s, events)
    decreases |events|
  {
    if s.tx.Closed? || events == [] then []
    else
      [Reply(s, Hear(u, s, Line(u, s.tx.block, events[0].forward)).1, events[0])]
      + Answers(u, Exchange(u, s, events[0]), events[1..])
  }

  ghost predicate Agree(replies: Replies, n: nat, answers: seq<Input>) {
    forall i :: 0 <= i < |answers| ==> replies(n + i) == answers[i]
  }

  lemma AgreeTail(replies: Replies, n: nat, first: Input, rest: seq<Input>)
    requires Agree(replies, n, [first] + rest)
    ensures replies(n) == first && Agree(replies, n + 1, rest)
  {
    assert ([first] + rest)[0] == first;
    forall i | 0 <= i < |rest| ensures replies(n + 1 + i) == rest[i] {
      assert ([first] + rest)[i + 1] == rest[i];
    }
  }

  /** What the sender puts on the line in a run. */
  ghost function Transmitted(u: Setup, s: Link, events: seq<Event>): seq<seq<byte>>
    requires RunAllowed(u, s, events)
    decreases |events|
  {
    if s.tx.Closed? || events == [] then []
    else [Transmission(u.blocks, s.tx.block, true)] + Transmitted(u, Exchange(u, s, events[0]), events[1..])
  }

  /** What is left for the sender after a run is what is left for a sender that hears the
      run's replies, and has put the run's transmissions on its wire. */
  lemma {:induction false} RunIsRest(u: Setup, s: Link, events: seq<Event>, replies: Replies, n: nat)
    requires RunAllowed(u, s, events) && (s.tx.Sending? ==> s.tx.block <= |u.blocks|)
    requires Agree(replies, n, Answers(u, s, events))
    ensures var t := Run(u, s, events).tx;
      && (t.Sending? ==> t.block <= |u.blocks|)
      && var rest := Rest(u.blocks, true, t, u.retry, replies, n + |Answers(u, s, events)|);
        Rest(u.blocks, true, s.tx, u.retry, replies, n) == (rest.0, Transmitted(u, s, events) + rest.1)
    decreases |events|
  {
    hide Hear, Reply, Line, EventOk, Agree, Rest, Transmission;
    if s.tx.Sending? && events != [] {
      var next := Exchange(u, s, events[0]);
      var answers := Answers(u, next, events[1..]);
      AgreeTail(replies, n, Reply(s, Hear(u, s, Line(u, s.tx.block, events[0].forward)).1, events[0]), answers);
      RunIsRest(u, next, events[1..], replies, n + 1);
      RestStep(u.blocks, true, s.tx, u.retry, replies, n);
      var rest := Rest(u.blocks, true, Run(u, s, events).tx, u.retry, replies, n + 1 + |answers|);
      WireAssoc([Transmission(u.blocks, s.tx.block, true)], Transmitted(u, next, events[1..]), rest.1);
    } else {
      var rest := Rest(u.blocks, true, s.tx, u.retry, replies, n);
      assert [] + rest.1 == rest.1;
    }
  }

  /** When the first reply that decides is the character the receiver asks with before it
      has heard anything, and the replies from then on are a run's, send starts in CRC
      mode, puts exactly the run's transmissions on the wire (and two cancels after a
      failure), and returns True if and only if the run ends in success. */
  lemma RunIsSend(file: seq<byte>, pad: byte, u: Setup, events: seq<Event>, replies: Replies, n: nat)
    requires SetupOk(u) && u.blocks == Blocks(file, u.size, pad) && RunAllowed(u, LinkStart(u), events)
    requires n < Attempts(u.retry) && Undecided(replies, n) && replies(n) == Byte(Start(u.dest0).sent[0])
    requires Agree(replies, n + 1, Answers(u, LinkStart(u), events)) && Run(u, LinkStart(u), events).tx.Closed?
    ensures AwaitStart(replies, 0, 0, false, u.retry) == Begin(true, n + 1)
    ensures Rest(u.blocks, true, Sending(0, 0), u.retry, replies, n + 1) ==
      (Run(u, LinkStart(u), events).tx == Closed(true), Transmitted(u, LinkStart(u), events))
  {
    hide Run, RunAllowed, Answers, Agree, AwaitStart, Transmitted, Rest;
    AsksForCrc(u.dest0, u.destsz, []);
    StartIff(replies, u.retry, Begin(true, n + 1));
    RunIsRest(u, LinkStart(u), events, replies, n + 1);
    var t := Run(u, LinkStart(u), events).tx;
    RestClosed(u.blocks, true, t.ok, u.retry, replies, n + 1 + |Answers(u, LinkStart(u), events)|);
    assert Transmitted(u, LinkStart(u), events) + [] == Transmitted(u, LinkStart(u), events);
  }

  // ----- When transfers succeed -----

  const GOOD: Event := Event(Intact, true, Quiet)

  lemma GoodAllowed(u: Setup, s: Link)
    requires s.tx.Sending?
    ensures EventOk(u, s, GOOD)
  {
  }

  /** One undisturbed exchange, from ends that agree. */
  lemma GoodExchange(u: Setup, s: Link)
    requires LinkOk(u, s) && s.tx.Sending? && s.up == Waiting && |s.rx.accepted| == s.tx.block
    ensures Sane(s.rx, u.destsz)
    ensures var next := Exchange(u, s, GOOD);
      if s.tx.block < |u.blocks| then next.tx == Sending(s.tx.block + 1, 0) && next.up == Waiting && |next.rx.accepted| == s.tx.block + 1
      else next.tx == Closed(true)
  {
    hide RxOk, Transmission, OnPacket, SeqNo;
    var k := s.tx.block;
    if k < |u.blocks| {
      hide Serve;
      LineShape(u, k, Intact);
      var line := Line(u, k, Intact);
      assert Bytes(line) + [] == Bytes(line);
      ServeOnePacket(s.rx, u.destsz, line, u.size, []);
      RxNumber(s.rx, u.destsz, u.dest0);
      NewBlockStored(u, Opened(s.rx), k);
      OpenedOk(s.rx, u.destsz, u.dest0);
      OnPacketOk(Opened(s.rx), u.destsz, line[1..], u.size, u.dest0);
      OnPacketSane(Opened(s.rx), u.destsz, line[1..], u.size);
      ServeNothing(Wait(OnPacket(Opened(s.rx), u.destsz, line[1..], u.size).1), u.destsz, []);
    } else {
      EotServed(u, s);
    }
  }

  lemma EotServed(u: Setup, s: Link)
    requires LinkOk(u, s) && s.tx.Sending? && s.up == Waiting && s.tx.block == |u.blocks|
    ensures Exchange(u, s, GOOD).tx == Closed(true)
  {
    hide RxOk, RxAlive;
    var input := Bytes(Line(u, |u.blocks|, Intact));
    assert input[0] == Byte(EOT);
  }

  /** From any point of any run where the ends agree, an undisturbed line brings the
      transfer to success. */
  lemma {:induction false} AgreedLineSucceeds(u: Setup, s: Link, events: seq<Event>)
    requires LinkOk(u, s) && s.tx.Sending? && s.up == Waiting && |s.rx.accepted| == s.tx.block
    requires |events| == |u.blocks| + 1 - s.tx.block && forall i :: 0 <= i < |events| ==> events[i] == GOOD
    ensures RunAllowed(u, s, events) && Run(u, s, events).tx == Closed(true)
    decreases |events|
  {
    hide LinkOk, Exchange, EventOk;
    LinkSane(u, s);
    GoodAllowed(u, s);
    GoodExchange(u, s);
    ExchangeOk(u, s, GOOD);
    BlockInRange(u, s);
    var next := Exchange(u, s, GOOD);
    if s.tx.block < |u.blocks| {
      AgreedLineSucceeds(u, next, events[1..]);
    }
  }

  lemma BlockInRange(u: Setup, s: Link)
    requires LinkOk(u, s) && s.tx.Sending?
    ensures s.tx.block <= |u.blocks|
  {
  }

  // ----- The wrap of the sequence number -----

  /** A repetition of a block already stored is acknowledged exactly when the block's
      number is not 255 (and the receiver has a retry left). */
  lemma RepetitionAcknowledgedIff(u: Setup, s: Link)
    requires LinkOk(u, s) && s.tx.Sending? && s.up == Waiting && |s.rx.accepted| == s.tx.block + 1
    ensures Sane(s.rx, u.destsz)
    ensures Exchange(u, s, GOOD).tx == Sending(s.tx.block + 1, 0) <==> SeqNo(s.tx.block + 1) != 0xff && s.rx.retrans > 1
    ensures SeqNo(s.tx.block + 1) != 0xff && s.rx.retrans > 1 ==>
      Exchange(u, s, GOOD).up == Waiting && |Exchange(u, s, GOOD).rx.accepted| == s.tx.block + 1
  {
    hide RxOk, Transmission, OnPacket, SeqNo, Serve;
    var k := s.tx.block;
    LineShape(u, k, Intact);
    var line := Line(u, k, Intact);
    assert Bytes(line) + [] == Bytes(line);
    ServeOnePacket(s.rx, u.destsz, line, u.size, []);
    RxNumber(s.rx, u.destsz, u.dest0);
    OldBlockAnswered(u, Opened(s.rx), k);
    WrapNumber(k);
    var next := OnPacket(Opened(s.rx), u.destsz, line[1..], u.size);
    if next.0 == Waiting {
      OpenedOk(s.rx, u.destsz, u.dest0);
      OnPacketOk(Opened(s.rx), u.destsz, line[1..], u.size, u.dest0);
      OnPacketSane(Opened(s.rx), u.destsz, line[1..], u.size);
      ServeNothing(Wait(next.1), u.destsz, []);
    }
  }

  lemma WrapNumber(k: nat)
    ensures SeqNo(k + 2) == 0 <==> SeqNo(k + 1) == 0xff
  {
    hide SeqNo, NextNo;
    SeqNoNext(k + 1);
    NextIsZero(SeqNo(k + 1));
  }

  lemma NextIsZero(x: byte)
    ensures NextNo(x) == 0 <==> x == 0xff
  {
  }

  // ----- Exactly when a transfer can still succeed -----

  /** The receiver runs, and either the ends agree or the repetition that the sender
      owes would be acknowledged. */
  predicate CanGoOn(u: Setup, s: Link) {
    s.tx.Sending? && s.up == Waiting &&
    (|s.rx.accepted| == s.tx.block || (SeqNo(s.tx.block + 1) != 0xff && s.rx.retrans > 1))
  }

  /** The sender has given up, or has yet to and never will succeed. */
  ghost predicate Hopeless(u: Setup, s: Link) {
    s.tx == Closed(false) || (s.tx.Sending? && !CanGoOn(u, s))
  }

  /** What a receiver that is one block ahead makes of a repetition, or of what is left
      of one, when it would not acknowledge it. */
  lemma RefusedOrDead(u: Setup, o: Rx, k: nat, f: Forward)
    requires SetupOk(u) && k < |u.blocks| && Sane(o, u.destsz) && o.crc && o.packetno == SeqNo(k + 2) && o.retrans >= 1
    requires o.packetno == 0 || o.retrans <= 1
    requires o.trychar == 0 && f != Lost && (f.Damaged? ==> DamageShows(u, k, f.bytes))
    ensures var line := Line(u, k, f);
      && |line| == u.size + 5
      && var next := OnPacket(o, u.destsz, line[1..], u.size);
        && next.1.accepted == o.accepted && next.1.trychar == 0
        && next.1.sent == o.sent + (if next.0 == Waiting then [NAK] else [CAN, CAN, CAN])
        && (next.0 == Waiting ==> o.packetno == 0 || next.1.retrans <= 1)
  {
    hide Transmission, SeqNo, Accept, HeaderOk, Check;
    LineShape(u, k, f);
    if f.Damaged? {
      DamagedRefused(u, o, k, f.bytes);
    } else {
      OldBlockAnswered(u, o, k);
    }
  }

  lemma SilentStays(u: Setup, s: Link, e: Event)
    requires s.tx.Sending? && EventOk(u, s, e) && Sane(s.rx, u.destsz) && s.up != Waiting
    ensures Hopeless(u, Exchange(u, s, e))
  {
    hide Serve, SeqNo;
  }

  /** The block ahead is one of the file. */
  lemma AheadInRange(u: Setup, s: Link)
    requires LinkOk(u, s) && s.tx.Sending? && |s.rx.accepted| != s.tx.block
    ensures s.tx.block < |u.blocks| && |s.rx.accepted| == s.tx.block + 1
  {
  }

  lemma AheadStays(u: Setup, s: Link, e: Event)
    requires LinkOk(u, s) && s.tx.Sending? && EventOk(u, s, e) && s.up == Waiting
    requires |s.rx.accepted| == s.tx.block + 1 && s.tx.block < |u.blocks|
    requires SeqNo(s.tx.block + 1) == 0xff || s.rx.retrans <= 1
    ensures Sane(s.rx, u.destsz) && Hopeless(u, Exchange(u, s, e))
  {
    hide RxOk, Transmission, OnPacket, SeqNo, Serve;
    var k := s.tx.block;
    var line := Line(u, k, e.forward);
    if e.forward == Lost {
      ServeNothing(s.rx, u.destsz, Bytes(line));
    } else {
      LineShape(u, k, e.forward);
      assert Bytes(line) + [] == Bytes(line);
      ServeOnePacket(s.rx, u.destsz, line, u.size, []);
      RxNumber(s.rx, u.destsz, u.dest0);
      WrapNumber(k);
      RefusedOrDead(u, Opened(s.rx), k, e.forward);
      var next := OnPacket(Opened(s.rx), u.destsz, line[1..], u.size);
      if next.0 == Waiting {
        OnPacketSane(Opened(s.rx), u.destsz, line[1..], u.size);
        ServeNothing(Wait(next.1), u.destsz, []);
      }
    }
  }

  lemma HopelessStays(u: Setup, s: Link, e: Event)
    requires LinkOk(u, s) && s.tx.Sending? && EventOk(u, s, e) && Hopeless(u, s)
    ensures Sane(s.rx, u.destsz) && Hopeless(u, Exchange(u, s, e))
  {
    hide Exchange, EventOk, SeqNo;
    LinkSane(u, s);
    if s.up != Waiting {
      SilentStays(u, s, e);
    } else {
      AheadInRange(u, s);
      AheadStays(u, s, e);
    }
  }

  /** From a hopeless point no continuation succeeds, however good the line. */
  lemma {:induction false} HopelessNeverSucceeds(u: Setup, s: Link, events: seq<Event>)
    requires LinkOk(u, s) && RunAllowed(u, s, events) && Hopeless(u, s)
    ensures Run(u, s, events).tx != Closed(true)
    decreases |events|
  {
    hide LinkOk, Exchange, EventOk, CanGoOn;
    if s.tx.Sending? && events != [] {
      HopelessStays(u, s, events[0]);
      ExchangeOk(u, s, events[0]);
      HopelessNeverSucceeds(u, Exchange(u, s, events[0]), events[1..]);
    }
  }

  /** In particular: when the acknowledgement of a block numbered 255 is lost, the
      receiver refuses every repetition, and the transfer is lost. */
  lemma LostAckAtWrapIsFatal(u: Setup, s: Link, events: seq<Event>)
    requires LinkOk(u, s) && RunAllowed(u, s, events) && s.tx.Sending?
    requires |s.rx.accepted| == s.tx.block + 1 && SeqNo(s.tx.block + 1) == 0xff
    ensures Run(u, s, events).tx != Closed(true)
  {
    hide LinkOk, Run, RunAllowed, SeqNo;
    HopelessNeverSucceeds(u, s, events);
  }

  function GoodLine(n: nat): (events: seq<Event>)
    ensures |events| == n && forall i :: 0 <= i < n ==> events[i] == GOOD
  {
    seq(n, i => GOOD)
  }

  // ----- The wrap is reached -----

  /** The packet arrives, the acknowledgement does not. */
  const LOST_ACK: Event := Event(Intact, false, Quiet)

  lemma LostAckAllowed(u: Setup, s: Link)
    requires s.tx.Sending?
    ensures EventOk(u, s, LOST_ACK)
  {
  }

  /** Losing the acknowledgement of a new block leaves the receiver one ahead. */
  lemma LostAckExchange(u: Setup, s: Link)
    requires LinkOk(u, s) && s.tx.Sending? && s.up == Waiting && |s.rx.accepted| == s.tx.block < |u.blocks|
    requires s.tx.errors == 0 && u.retry >= 1
    ensures Sane(s.rx, u.destsz)
    ensures var next := Exchange(u, s, LOST_ACK);
      next.tx == Sending(s.tx.block, 1) && next.up == Waiting && |next.rx.accepted| == s.tx.block + 1
  {
    hide LinkOk, Serve, SeqNo, Transmission;
    GoodExchange(u, s);
    assert Line(u, s.tx.block, GOOD.forward) == Line(u, s.tx.block, LOST_ACK.forward);
  }

  /** After as many good exchanges as that the rest of the run goes on from there. */
  lemma {:induction false} GoodThen(u: Setup, s: Link, n: nat, rest: seq<Event>) returns (t: Link)
    requires LinkOk(u, s) && s.tx.Sending? && s.up == Waiting && |s.rx.accepted| == s.tx.block && s.tx.block + n <= |u.blocks|
    requires s.tx.errors == 0
    ensures LinkOk(u, t) && t.tx == Sending(s.tx.block + n, 0) && t.up == Waiting && |t.rx.accepted| == t.tx.block
    ensures RunAllowed(u, s, GoodLine(n)) && t == Run(u, s, GoodLine(n))
    ensures RunAllowed(u, s, GoodLine(n) + rest) <==> RunAllowed(u, t, rest)
    ensures RunAllowed(u, t, rest) ==> Run(u, s, GoodLine(n) + rest) == Run(u, t, rest)
    decreases n
  {
    hide LinkOk, Exchange, EventOk;
    if n == 0 {
      t := s;
      assert GoodLine(0) + rest == rest;
    } else {
      LinkSane(u, s);
      GoodAllowed(u, s);
      GoodExchange(u, s);
      ExchangeOk(u, s, GOOD);
      var events := GoodLine(n) + rest;
      assert events[0] == GOOD && events[1..] == GoodLine(n - 1) + rest && GoodLine(n)[1..] == GoodLine(n - 1);
      t := GoodThen(u, Exchange(u, s, GOOD), n - 1, rest);
    }
  }

  lemma NoEvents(u: Setup, s: Link)
    ensures RunAllowed(u, s, []) && Run(u, s, []) == s
  {
  }

  lemma OneEvent(u: Setup, s: Link, e: Event, rest: seq<Event>)
    requires s.tx.Sending? && EventOk(u, s, e) && Sane(s.rx, u.destsz)
    ensures RunAllowed(u, s, [e] + rest) <==> RunAllowed(u, Exchange(u, s, e), rest)
    ensures RunAllowed(u, s, [e] + rest) ==> Run(u, s, [e] + rest) == Run(u, Exchange(u, s, e), rest)
  {
    hide Exchange, EventOk;
    assert ([e] + rest)[1..] == rest;
  }

  /** With 255 blocks or more, a line that loses nothing but the acknowledgement of the
      255th ends in failure, whatever comes after. */
  lemma WrapFails(u: Setup, more: seq<Event>) returns (t: Link)
    requires SetupOk(u) && |u.blocks| >= 255 && u.retry >= 1
    ensures LinkOk(u, t) && t.tx == Sending(254, 1) && t.up == Waiting && |t.rx.accepted| == 255 && SeqNo(255) == 0xff
    ensures RunAllowed(u, LinkStart(u), GoodLine(254) + [LOST_ACK]) && Run(u, LinkStart(u), GoodLine(254) + [LOST_ACK]) == t
    ensures RunAllowed(u, t, more) ==>
      && RunAllowed(u, LinkStart(u), GoodLine(254) + ([LOST_ACK] + more))
      && Run(u, LinkStart(u), GoodLine(254) + ([LOST_ACK] + more)).tx != Closed(true)
  {
    hide LinkOk, Exchange, EventOk, SeqNo, GoodLine, RunAllowed, Run, Sane;
    LinkStartOk(u);
    StartEmpty(u.dest0);
    var s := GoodThen(u, LinkStart(u), 254, [LOST_ACK]);
    var s' := GoodThen(u, LinkStart(u), 254, [LOST_ACK] + more);
    assert s == s';
    LostAckAllowed(u, s);
    LostAckExchange(u, s);
    ExchangeOk(u, s, LOST_ACK);
    SeqNoCounts(255);
    t := Exchange(u, s, LOST_ACK);
    OneEvent(u, s, LOST_ACK, []);
    OneEvent(u, s, LOST_ACK, more);
    assert [LOST_ACK] + [] == [LOST_ACK];
    NoEvents(u, t);
    if RunAllowed(u, t, more) { LostAckAtWrapIsFatal(u, t, more); }
  }

  /** From a point that is not hopeless an undisturbed line brings success, one exchange
      a block and one for the end. */
  lemma GoodLineSucceeds(u: Setup, s: Link) returns (n: nat)
    requires LinkOk(u, s) && CanGoOn(u, s)
    ensures n == |u.blocks| + 1 - s.tx.block
    ensures RunAllowed(u, s, GoodLine(n)) && Run(u, s, GoodLine(n)).tx == Closed(true)
  {
    hide LinkOk, Exchange, EventOk, SeqNo, GoodLine;
    n := |u.blocks| + 1 - s.tx.block by { BlockInRange(u, s); }
    if |s.rx.accepted| == s.tx.block {
      AgreedLineSucceeds(u, s, GoodLine(n));
    } else {
      AheadInRange(u, s);
      LinkSane(u, s);
      GoodAllowed(u, s);
      RepetitionAcknowledgedIff(u, s);
      ExchangeOk(u, s, GOOD);
      AgreedLineSucceeds(u, Exchange(u, s, GOOD), GoodLine(n)[1..]);
    }
  }

  /** Main result: from any point of any run, the transfer can still succeed if and only
      if the receiver runs and either the ends agree or the number of the block to repeat
      is not 255 and the receiver has a retry left. */
  lemma SuccessPossibleIff(u: Setup, s: Link)
    requires LinkOk(u, s) && s.tx.Sending?
    ensures (exists events :: RunAllowed(u, s, events) && Run(u, s, events).tx == Closed(true)) <==> CanGoOn(u, s)
  {
    hide LinkOk, Run, RunAllowed, CanGoOn;
    if CanGoOn(u, s) {
      var n := GoodLineSucceeds(u, s);
      assert RunAllowed(u, s, GoodLine(n));
    } else {
      forall events | RunAllowed(u, s, events) ensures Run(u, s, events).tx != Closed(true) {
        HopelessNeverSucceeds(u, s, events);
      }
    }
  }

  // ----- Which damage shows -----

  /** A burst of at most 16 bits in the data and checksum of a packet always shows. */
  lemma BurstShows(u: Setup, k: nat, d: seq<byte>, p: nat, n: nat)
    requires SetupOk(u) && k < |u.blocks| && |d| == u.size + 5 && n <= 16
    requires var sent := Transmission(u.blocks, k, true);
      && |sent| == |d| && d[..3] == sent[..3] && d[3..] != sent[3..] && p + n <= 8 * |d[3..]|
      && forall i :: 0 <= i < 8 * |d[3..]| && BitsOf(sent[3..])[i] != BitsOf(d[3..])[i] ==> p <= i < p + n
    ensures DamageShows(u, k, d)
  {
    hide BitsOf, Accepts, Transmission, SeqNo;
    PacketData(u, k);
    var sent := Transmission(u.blocks, k, true);
    assert sent[1..][2..] == sent[3..];
    assert sent[3..][..u.size + 2] == sent[3..] && d[3..][..u.size + 2] == d[3..];
    BurstDetected(sent[3..], d[3..], p, n);
    assert sent[0] == sent[..3][0] && d[0] == d[..3][0];
  }
}
