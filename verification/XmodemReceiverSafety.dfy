// What the receiver keeps on every input whatsoever.
module XmodemReceiverSafety {
  import opened Crc
  import opened XmodemReceiver

  /** Sequence number of block `n`: n modulo 256. */
  function SeqNo(n: nat): byte
    decreases n
  {
    if n == 0 then 0 else NextNo(SeqNo(n - 1))
  }

  lemma NextNoCounts(x: byte)
    ensures NextNo(x) as int == if x == 0xff then 0 else x as int + 1
  {
  }

  /** The sequence number is the block's number modulo 256. */
  lemma {:induction false} SeqNoCounts(n: nat)
    ensures SeqNo(n) as int == n % 256
  {
    hide NextNo;
    if n > 0 {
      SeqNoCounts(n - 1);
      NextNoCounts(SeqNo(n - 1));
      CountOn(n - 1);
    }
  }

  lemma CountOn(n: nat)
    ensures (n + 1) % 256 == if n % 256 == 255 then 0 else n % 256 + 1
  {
  }

  /** The payloads one after the other. */
  function Flat(blocks: seq<seq<byte>>): seq<byte>
    decreases |blocks|
  {
    if blocks == [] then [] else Flat(blocks[..|blocks| - 1]) + blocks[|blocks| - 1]
  }

  lemma FlatAppend(blocks: seq<seq<byte>>, b: seq<byte>)
    ensures Flat(blocks + [b]) == Flat(blocks) + b
  {
    assert (blocks + [b])[..|blocks|] == blocks;
  }

  /** How many of `n` bytes a destination of `destsz` bytes takes. */
  function Fits(destsz: int, n: nat): nat {
    if destsz < 0 then 0 else if n < destsz then n else destsz
  }

  /** The destination holds the accepted bytes as far as they fit, and the rest of
      it is as it was. */
  predicate Filled(dest: seq<byte>, dest0: seq<byte>, destsz: int, data: seq<byte>) {
    && destsz <= |dest0|
    && dest == data[..Fits(destsz, |data|)] + dest0[Fits(destsz, |data|)..]
  }

  predicate RxOk(r: Rx, destsz: int, dest0: seq<byte>) {
    && r.packetno == SeqNo(|r.accepted| + 1)
    && r.len == Fits(destsz, |Flat(r.accepted)|)
    && Filled(r.dest, dest0, destsz, Flat(r.accepted))
  }

  /** While it serves: the retry counter is what the duplicates have left of it, and
      the mode is CRC from the first packet on. */
  predicate RxAlive(r: Rx) {
    && r.retrans + r.dups == MAXRETRANS && r.retrans >= 1
    && (r.trychar == LETTER_C || (r.trychar == 0 && r.crc))
  }

  lemma RxSane(r: Rx, destsz: int, dest0: seq<byte>)
    requires RxOk(r, destsz, dest0)
    ensures Sane(r, destsz)
  {
    hide Flat, SeqNo;
  }

  lemma StartOk(dest: seq<byte>, destsz: int)
    requires destsz <= |dest|
    ensures RxOk(Start(dest), destsz, dest) && RxAlive(Start(dest)) && Sane(Start(dest), destsz)
  {
    assert SeqNo(1) == NextNo(SeqNo(0));
    assert Flat([]) == [];
  }

  /** Storing a payload extends the filled part by what fits of it. */
  lemma StoreFills(dest: seq<byte>, dest0: seq<byte>, destsz: int, data: seq<byte>, payload: seq<byte>)
    requires Filled(dest, dest0, destsz, data)
    ensures var len := Fits(destsz, |data|);
      var count := Room(destsz, len, |payload|);
      && (if count > 0 then len + count else len) == Fits(destsz, |data + payload|)
      && Filled(if count > 0 then Stored(dest, len, payload, count) else dest, dest0, destsz, data + payload)
  {
    var len := Fits(destsz, |data|);
    var count := Room(destsz, len, |payload|);
    if count > 0 {
      TakeMore(data, payload, count);
      SplitAt(data, dest0[len..]);
      DropMore(dest0, len, count);
    } else {
      TakeSame(data, payload, len);
    }
  }

  lemma TakeMore(data: seq<byte>, payload: seq<byte>, count: nat)
    requires count <= |payload|
    ensures (data + payload)[..|data| + count] == data + payload[..count]
  {
  }

  lemma TakeSame(data: seq<byte>, payload: seq<byte>, len: nat)
    requires len <= |data|
    ensures (data + payload)[..len] == data[..len]
  {
  }

  lemma SplitAt(a: seq<byte>, b: seq<byte>)
    ensures (a + b)[..|a|] == a && forall k: nat :: k <= |b| ==> (a + b)[|a| + k..] == b[k..]
  {
  }

  lemma DropMore(s: seq<byte>, n: nat, k: nat)
    requires n + k <= |s|
    ensures s[n..][k..] == s[n + k..]
  {
  }

  lemma AcceptOk(r: Rx, destsz: int, payload: seq<byte>, dest0: seq<byte>)
    requires RxOk(r, destsz, dest0) && Sane(r, destsz)
    ensures RxOk(Accept(r, destsz, payload), destsz, dest0)
  {
    hide Filled, Stored, Room, Flat, NextNo;
    FlatAppend(r.accepted, payload);
    StoreFills(r.dest, dest0, destsz, Flat(r.accepted), payload);
  }

  lemma OnPacketOk(r: Rx, destsz: int, data: seq<byte>, bufsz: nat, dest0: seq<byte>)
    requires RxOk(r, destsz, dest0) && RxAlive(r) && r.trychar == 0 && Sane(r, destsz) && |data| == PacketSize(bufsz, r.crc)
    ensures var next := OnPacket(r, destsz, data, bufsz);
      && RxOk(next.1, destsz, dest0) && next.1.trychar == 0
      && (next.0 == Waiting ==> RxAlive(next.1))
      && (next.0 == TooManyRetries ==> next.1.dups == MAXRETRANS - 1)
      && (next.0 == Waiting || next.0 == TooManyRetries)
  {
    hide Welcome, Filled, Flat, SeqNo, Accept;
    if Welcome(r.packetno, r.crc, data, bufsz) && data[0] == r.packetno {
      AcceptOk(r, destsz, data[2..2 + bufsz], dest0);
      AcceptFields(r, destsz, data[2..2 + bufsz]);
    }
  }

  lemma AcceptFields(r: Rx, destsz: int, payload: seq<byte>)
    requires Sane(r, destsz)
    ensures var a := Accept(r, destsz, payload);
      a.retrans == MAXRETRANS + 1 && a.dups == 0 && a.trychar == r.trychar && a.crc == r.crc && a.sent == r.sent
      && a.accepted == r.accepted + [payload] && a.packetno == NextNo(r.packetno)
  {
  }

  lemma WaitOk(r: Rx, destsz: int, dest0: seq<byte>)
    ensures RxOk(r, destsz, dest0) ==> RxOk(Wait(r), destsz, dest0)
    ensures RxAlive(r) ==> RxAlive(Wait(r))
    ensures Sane(r, destsz) ==> Sane(Wait(r), destsz)
  {
  }

  /** Main result: on every input the receiver's packet number counts the accepted
      payloads, the buffer holds their bytes as far as they fit and is otherwise
      untouched, and it gives up exactly after acknowledging 24 duplicates in a row. */
  lemma {:induction false} ServeOk(r: Rx, destsz: int, input: seq<Input>, dest0: seq<byte>)
    requires RxOk(r, destsz, dest0) && RxAlive(r) && Sane(r, destsz)
    ensures var end := Serve(r, destsz, input);
      && RxOk(end.1, destsz, dest0)
      && (end.0 == Waiting ==> RxAlive(end.1))
      && (end.0 == TooManyRetries ==> end.1.dups == MAXRETRANS - 1)
      && (end.0.Finished? ==> end.0.len == end.1.len)
    decreases |input|, 0
  {
    hide RxOk, RxAlive, ServePacket, Wait;
    if input != [] {
      WaitOk(r, destsz, dest0);
      match input[0]
      case Quiet => ServeOk(Wait(r), destsz, input[1..], dest0);
      case Byte(c) =>
        if c == SOH {
          ServePacketOk(r, destsz, input[1..], 128, dest0);
        } else if c == STX {
          ServePacketOk(r, destsz, input[1..], 1024, dest0);
        } else if c == EOT {
          SentOk(r, destsz, dest0, r.sent + [ACK]);
        } else if c == CAN {
          if |input| > 1 {
            SentOk(r, destsz, dest0, r.sent + [ACK]);
            if input[1] != Byte(CAN) {
              ServeOk(Wait(r), destsz, input[2..], dest0);
            }
          }
        } else {
          ServeOk(Wait(r), destsz, input[1..], dest0);
        }
    }
  }

  lemma SentOk(r: Rx, destsz: int, dest0: seq<byte>, sent: seq<byte>)
    requires RxOk(r, destsz, dest0)
    ensures RxOk(r.(sent := sent), destsz, dest0)
  {
  }

  lemma {:induction false} ServePacketOk(r: Rx, destsz: int, input: seq<Input>, bufsz: nat, dest0: seq<byte>)
    requires RxOk(r, destsz, dest0) && RxAlive(r) && Sane(r, destsz)
    ensures var end := ServePacket(r, destsz, input, bufsz);
      && RxOk(end.1, destsz, dest0)
      && (end.0 == Waiting ==> RxAlive(end.1))
      && (end.0 == TooManyRetries ==> end.1.dups == MAXRETRANS - 1)
      && (end.0.Finished? ==> end.0.len == end.1.len)
    decreases |input|, 1
  {
    hide OnPacket, Serve, Collect, Wait, RxOk;
    var o := Opened(r);
    OpenedOk(r, destsz, dest0);
    var got := Collect(input, PacketSize(bufsz, o.crc));
    if |got.0| == PacketSize(bufsz, o.crc) {
      OnPacketOk(o, destsz, got.0, bufsz, dest0);
      OnPacketSane(o, destsz, got.0, bufsz);
      var next := OnPacket(o, destsz, got.0, bufsz);
      WaitOk(next.1, destsz, dest0);
      if next.0 == Waiting {
        ServeOk(Wait(next.1), destsz, got.1, dest0);
      }
    }
  }

  lemma OpenedOk(r: Rx, destsz: int, dest0: seq<byte>)
    requires RxOk(r, destsz, dest0) && RxAlive(r) && Sane(r, destsz)
    ensures RxOk(Opened(r), destsz, dest0) && RxAlive(Opened(r)) && Opened(r).crc && Sane(Opened(r), destsz)
  {
    hide Filled, Flat, SeqNo;
  }
}
