// The XMODEM receiver: a loop over the bytes that arrive, which fills the
// destination buffer.  The loop is proved to compute the function Serve; what
// the receiver promises is then proved of Serve, for every input.
module XmodemReceiver {
  import opened Crc
  import opened CrcTable
  import opened CrcDetects

  const SOH: byte := 0x01
  const STX: byte := 0x02
  const EOT: byte := 0x04
  const ACK: byte := 0x06
  const NAK: byte := 0x15
  const CAN: byte := 0x18
  const LETTER_C: byte := 0x43
  const MAXRETRANS := 25

  /** What one wait on the line brings: a byte, or nothing before the time-out. */
  datatype Input = Quiet | Byte(value: byte)

  /** Waiting: the input so far ends here. */
  datatype Outcome = Waiting | Finished(len: int) | Cancelled | TooManyRetries

  /** The receiver's variables, what it has sent, the payloads it has accepted and
      the duplicates it has acknowledged since the last of them. */
  datatype Rx = Rx(packetno: byte, trychar: byte, crc: bool, len: int, retrans: int,
                   dest: seq<byte>, sent: seq<byte>, accepted: seq<seq<byte>>, dups: nat)

  // ----- check -----

  function ByteSum(data: seq<byte>): byte
    decreases |data|
  {
    if data == [] then 0 else ByteSum(data[..|data| - 1]) + data[|data| - 1]
  }

  predicate Check(crc: bool, buf: seq<byte>, sz: nat)
    requires |buf| >= sz + 2 || (!crc && |buf| == sz + 1)
  {
    if crc then Accepts(buf[..sz + 2]) else ByteSum(buf[..sz]) == buf[sz]
  }

  /** The two checksum bytes as check() adds them up. */
  function SumWord(hi: byte, lo: byte): bv16 {
    ((hi as bv16) << 8) + (lo as bv16)
  }

  lemma WordIsSum(hi: byte, lo: byte)
    ensures SumWord(hi, lo) == Word(hi, lo)
  {
  }

  lemma AcceptsPrefix(buf: seq<byte>, sz: nat)
    requires |buf| >= sz + 2
    ensures Accepts(buf[..sz + 2]) <==> CrcFrom(0, buf[..sz]) == Word(buf[sz], buf[sz + 1])
  {
    hide CrcFrom, Word;
    assert buf[..sz + 2][..sz] == buf[..sz];
  }

  method CheckBuffer(crc: bool, buf: seq<byte>, sz: nat) returns (ok: bool)
    requires |buf| >= sz + 2 || (!crc && |buf| == sz + 1)
    ensures ok == Check(crc, buf, sz)
  {
    hide CrcFrom, Word, SumWord, Accepts, ByteSum;
    if crc {
      var sum := Crc16Ccitt(buf, sz, 0);
      AcceptsPrefix(buf, sz);
      WordIsSum(buf[sz], buf[sz + 1]);
      var tcrc := SumWord(buf[sz], buf[sz + 1]);
      ok := sum == tcrc;
    } else {
      var cks := SumBytes(buf, sz);
      ok := cks == buf[sz];
    }
  }

  method SumBytes(buf: seq<byte>, sz: nat) returns (cks: byte)
    requires sz <= |buf|
    ensures cks == ByteSum(buf[..sz])
  {
    cks := 0;
    for i := 0 to sz
      invariant cks == ByteSum(buf[..i])
    {
      assert buf[..i + 1][..i] == buf[..i];
      cks := cks + buf[i];
    }
  }

  // ----- One packet -----

  /** The next `n` bytes on the line, however long they take. */
  function Collect(input: seq<Input>, n: nat): (r: (seq<byte>, seq<Input>))
    ensures |r.0| <= n && |r.1| <= |input|
    decreases |input|
  {
    if n == 0 || input == [] then ([], input)
    else match input[0]
      case Quiet => Collect(input[1..], n)
      case Byte(b) =>
        var rest := Collect(input[1..], n - 1);
        ([b] + rest.0, rest.1)
  }

  /** Copy `count` bytes of the payload into the destination at `at`. */
  function Stored(dest: seq<byte>, at: int, payload: seq<byte>, count: int): seq<byte>
    requires 0 <= at && 0 <= count <= |payload| && at + count <= |dest|
  {
    dest[..at] + payload[..count] + dest[at + count..]
  }

  function PacketSize(bufsz: nat, crc: bool): nat {
    bufsz + (if crc then 1 else 0) + 3
  }

  /** ++packetno. */
  function NextNo(packetno: byte): byte {
    packetno + 1
  }

  /** The header test: number and complement agree, and the number is the expected
      one or the one before.  `packetno - 1` is computed in int, so that after the
      wrap, with packetno 0, no number is the one before. */
  predicate HeaderOk(packetno: byte, number: byte, complement: byte) {
    number == !complement && (number == packetno || (packetno != 0 && number == packetno - 1))
  }

  /** The header is in order and the checksum holds. */
  predicate Welcome(packetno: byte, crc: bool, data: seq<byte>, bufsz: nat)
    requires |data| == PacketSize(bufsz, crc)
  {
    HeaderOk(packetno, data[0], data[1]) && Check(crc, data[2..], bufsz)
  }

  /** How much of a payload still fits. */
  function Room(destsz: int, len: int, bufsz: nat): int {
    if destsz - len > bufsz then bufsz else destsz - len
  }

  /** A payload with the expected number is stored, as far as it fits. */
  function Accept(r: Rx, destsz: int, payload: seq<byte>): Rx
    requires Sane(r, destsz)
  {
    var count := Room(destsz, r.len, |payload|);
    r.(dest := if count > 0 then Stored(r.dest, r.len, payload, count) else r.dest,
       len := if count > 0 then r.len + count else r.len,
       packetno := NextNo(r.packetno), retrans := MAXRETRANS + 1, accepted := r.accepted + [payload], dups := 0)
  }

  /** Count down and acknowledge, or give up. */
  function Answer(r: Rx, isNew: bool): (Outcome, Rx) {
    if r.retrans - 1 <= 0 then (TooManyRetries, r.(retrans := r.retrans - 1, sent := r.sent + [CAN, CAN, CAN]))
    else (Waiting, r.(retrans := r.retrans - 1, sent := r.sent + [ACK], dups := if isNew then 0 else r.dups + 1))
  }

  /** The state after a packet was read into the buffer. */
  function OnPacket(r: Rx, destsz: int, data: seq<byte>, bufsz: nat): (Outcome, Rx)
    requires |data| == PacketSize(bufsz, r.crc) && Sane(r, destsz)
  {
    if !Welcome(r.packetno, r.crc, data, bufsz) then (Waiting, r.(sent := r.sent + [NAK]))
    else if data[0] == r.packetno then Answer(Accept(r, destsz, data[2..2 + bufsz]), true)
    else Answer(r, false)
  }

  predicate Sane(r: Rx, destsz: int) {
    0 <= r.len <= |r.dest| && destsz <= |r.dest|
  }

  /** Going back to wait for a byte: the start character goes out again. */
  function Wait(r: Rx): Rx {
    if r.trychar != 0 then r.(sent := r.sent + [r.trychar]) else r
  }

  function Start(dest: seq<byte>): Rx {
    Wait(Rx(1, LETTER_C, false, 0, MAXRETRANS, dest, [], [], 0))
  }

  /** From a start-of-packet byte on. */
  function Opened(r: Rx): Rx {
    r.(crc := r.crc || r.trychar == LETTER_C, trychar := 0)
  }

  lemma AcceptSane(r: Rx, destsz: int, payload: seq<byte>)
    requires Sane(r, destsz)
    ensures Sane(Accept(r, destsz, payload), destsz)
  {
  }

  lemma OnPacketSane(r: Rx, destsz: int, data: seq<byte>, bufsz: nat)
    requires Sane(r, destsz) && |data| == PacketSize(bufsz, r.crc)
    ensures Sane(OnPacket(r, destsz, data, bufsz).1, destsz)
  {
    hide Welcome, Accept;
    AcceptSane(r, destsz, data[2..2 + bufsz]);
  }

  /** The receiver on an input, from a state that waits for a byte. */
  function Serve(r: Rx, destsz: int, input: seq<Input>): (Outcome, Rx)
    requires Sane(r, destsz)
    decreases |input|
  {
    if input == [] then (Waiting, r)
    else match input[0]
      case Quiet => Serve(Wait(r), destsz, input[1..])
      case Byte(c) =>
        if c == SOH then ServePacket(r, destsz, input[1..], 128)
        else if c == STX then ServePacket(r, destsz, input[1..], 1024)
        else if c == EOT then (Finished(r.len), r.(sent := r.sent + [ACK]))
        else if c == CAN then
          if |input| == 1 then (Waiting, r)
          else if input[1] == Byte(CAN) then (Cancelled, r.(sent := r.sent + [ACK]))
          else Serve(Wait(r), destsz, input[2..])
        else Serve(Wait(r), destsz, input[1..])
  }

  function ServePacket(r: Rx, destsz: int, input: seq<Input>, bufsz: nat): (Outcome, Rx)
    requires Sane(r, destsz)
    decreases |input|, 1
  {
    var o := Opened(r);
    var got := Collect(input, PacketSize(bufsz, o.crc));
    if |got.0| < PacketSize(bufsz, o.crc) then (Waiting, o)
    else
      OnPacketSane(o, destsz, got.0, bufsz);
      var next := OnPacket(o, destsz, got.0, bufsz);
      if next.0 != Waiting then next else Serve(Wait(next.1), destsz, got.1)
  }

  // ----- The loop -----

  lemma AppendByte(data: seq<byte>, b: byte, rest: seq<byte>)
    ensures data + ([b] + rest) == data + [b] + rest
  {
  }

  /** uart_read: the next `n` bytes on the line. */
  method UartRead(input: seq<Input>, pos: nat, n: nat) returns (data: seq<byte>, next: nat)
    requires pos <= |input|
    ensures pos <= next <= |input|
    ensures Collect(input[pos..], n) == (data, input[next..])
  {
    data, next := [], pos;
    ghost var all := Collect(input[pos..], n);
    assert [] + all.0 == all.0;
    while |data| < n && next < |input|
      invariant pos <= next <= |input| && |data| <= n
      invariant Collect(input[pos..], n) == (data + Collect(input[next..], n - |data|).0, Collect(input[next..], n - |data|).1)
    {
      assert input[next..][1..] == input[next + 1..];
      match input[next]
      case Quiet => next := next + 1;
      case Byte(b) =>
        AppendByte(data, b, Collect(input[next + 1..], n - |data| - 1).0);
        data := data + [b];
        next := next + 1;
    }
    assert data + [] == data;
  }

  /** memcpy of a payload's first bytes into the destination. */
  method CopyIn(dest: array<byte>, at: nat, payload: seq<byte>, count: nat)
    requires count <= |payload| && at + count <= dest.Length
    modifies dest
    ensures dest[..] == Stored(old(dest[..]), at, payload, count)
  {
    ghost var was := dest[..];
    for i := 0 to count
      invariant dest[..] == Stored(was, at, payload, i)
    {
      dest[at + i] := payload[i];
    }
  }

  /** The state of the loop as a value. */
  ghost function State(packetno: byte, trychar: byte, crc: bool, len: int, retrans: int,
                       dest: array<byte>, sent: seq<byte>, accepted: seq<seq<byte>>, dups: nat): Rx
    reads dest
  {
    Rx(packetno, trychar, crc, len, retrans, dest[..], sent, accepted, dups)
  }

  /** Store what fits of a payload with the expected number. */
  method Store(len0: int, dest: array<byte>, destsz: int, payload: seq<byte>) returns (len: int)
    requires 0 <= len0 <= dest.Length && destsz <= dest.Length
    modifies dest
    ensures var count := Room(destsz, len0, |payload|);
      && len == (if count > 0 then len0 + count else len0)
      && dest[..] == if count > 0 then Stored(old(dest[..]), len0, payload, count) else old(dest[..])
  {
    len := len0;
    var count := destsz - len;
    if count > |payload| {
      count := |payload|;
    }
    if count > 0 {
      CopyIn(dest, len, payload, count);
      len := len + count;
    }
  }

  /** What comes after a packet: accept, acknowledge again, give up or refuse. */
  method TakePacket(packetno0: byte, crc: bool, len0: int, retrans0: int, dest: array<byte>, destsz: int, sent0: seq<byte>,
                    data: seq<byte>, bufsz: nat, ghost accepted0: seq<seq<byte>>, ghost dups0: nat)
    returns (outcome: Outcome, packetno: byte, len: int, retrans: int, sent: seq<byte>,
             ghost accepted: seq<seq<byte>>, ghost dups: nat)
    requires |data| == PacketSize(bufsz, crc) && 0 <= len0 <= dest.Length && destsz <= dest.Length
    modifies dest
    ensures OnPacket(old(State(packetno0, 0, crc, len0, retrans0, dest, sent0, accepted0, dups0)), destsz, data, bufsz) ==
      (outcome, State(packetno, 0, crc, len, retrans, dest, sent, accepted, dups))
  {
    hide Check, Stored, Room, HeaderOk, NextNo;
    outcome, packetno, len, retrans, sent := Waiting, packetno0, len0, retrans0, sent0;
    accepted, dups := accepted0, dups0;
    ghost var r := State(packetno, 0, crc, len, retrans, dest, sent, accepted, dups);
    var ok := CheckBuffer(crc, data[2..], bufsz);
    if HeaderOk(packetno, data[0], data[1]) && ok {
      assert Welcome(r.packetno, crc, data, bufsz);
      hide Welcome, OnPacket;
      OnPacketWelcome(r, destsz, data, bufsz);
      ghost var isNew := data[0] == packetno;
      if data[0] == packetno {
        len := Store(len, dest, destsz, data[2..2 + bufsz]);
        packetno := NextNo(packetno);
        retrans := MAXRETRANS + 1;
        accepted, dups := accepted + [data[2..2 + bufsz]], 0;
        assert State(packetno, 0, crc, len, retrans, dest, sent, accepted, dups) == Accept(r, destsz, data[2..2 + bufsz]);
      }
      hide Accept;
      retrans := retrans - 1;
      if retrans <= 0 {
        sent := sent + [CAN, CAN, CAN];
        outcome := TooManyRetries;
      } else {
        sent := sent + [ACK];
        dups := if isNew then 0 else dups + 1;
      }
    } else {
      sent := sent + [NAK];
    }
  }

  lemma OnPacketWelcome(r: Rx, destsz: int, data: seq<byte>, bufsz: nat)
    requires Sane(r, destsz) && |data| == PacketSize(bufsz, r.crc) && Welcome(r.packetno, r.crc, data, bufsz)
    ensures OnPacket(r, destsz, data, bufsz) ==
      if data[0] == r.packetno then Answer(Accept(r, destsz, data[2..2 + bufsz]), true) else Answer(r, false)
  {
  }

  /** What the inner loop brings: a packet's first byte and the place after it, or
      the end of the reception. */
  datatype Awaited = Packet(bufsz: nat) | Ended(outcome: Outcome)

  /** The inner loop of xmodemReceive: send the start character while there is one,
      and wait for a packet, an end of transmission or two cancels. */
  method Await(input: seq<Input>, pos0: nat, trychar: byte, len: int, sent0: seq<byte>, ghost r: Rx, ghost destsz: int)
    returns (got: Awaited, pos: nat, sent: seq<byte>)
    requires pos0 <= |input| && Sane(r, destsz) && r.trychar == trychar && r.len == len && r.sent == sent0
    ensures pos0 <= pos <= |input| && (got.Packet? ==> pos0 < pos)
    ensures var end := r.(sent := sent);
      Serve(Wait(r), destsz, input[pos0..]) ==
        match got
        case Packet(bufsz) => ServePacket(end, destsz, input[pos..], bufsz)
        case Ended(outcome) => (outcome, end)
  {
    hide ServePacket;
    pos, sent := pos0, sent0;
    ghost var goal := Serve(Wait(r), destsz, input[pos0..]);
    while true
      invariant pos0 <= pos <= |input|
      invariant goal == Serve(Wait(r.(sent := sent)), destsz, input[pos..])
      decreases |input| - pos
    {
      if trychar != 0 {
        sent := sent + [trychar];
      }
      assert goal == Serve(r.(sent := sent), destsz, input[pos..]);
      if pos == |input| {
        return Ended(Waiting), pos, sent;
      }
      assert input[pos..][0] == input[pos] && input[pos..][1..] == input[pos + 1..];
      if input[pos].Byte? {
        var c := input[pos].value;
        if c == SOH {
          return Packet(128), pos + 1, sent;
        } else if c == STX {
          return Packet(1024), pos + 1, sent;
        } else if c == EOT {
          return Ended(Finished(len)), pos + 1, sent + [ACK];
        } else if c == CAN {
          if pos + 1 == |input| {
            return Ended(Waiting), pos + 1, sent;
          }
          assert input[pos..][1] == input[pos + 1] && input[pos..][2..] == input[pos + 2..];
          if input[pos + 1] == Byte(CAN) {
            return Ended(Cancelled), pos + 2, sent + [ACK];
          }
          pos := pos + 1;
        }
      }
      pos := pos + 1;
    }
  }

  /** xmodemReceive, on an input that may stop anywhere. */
  method Receive(input: seq<Input>, dest: array<byte>, destsz: int) returns (outcome: Outcome, sent: seq<byte>)
    requires destsz <= dest.Length
    modifies dest
    ensures var end := Serve(Start(old(dest[..])), destsz, input);
      outcome == end.0 && sent == end.1.sent && dest[..] == end.1.dest
  {
    hide Serve, OnPacket, Collect;
    var packetno: byte, trychar, crc, len, retrans := 1, LETTER_C, false, 0, MAXRETRANS;
    ghost var accepted, dups: nat := [], 0;
    var pos := 0;
    sent := [];
    ghost var goal := Serve(Start(dest[..]), destsz, input);
    assert input[0..] == input;
    while true
      invariant 0 <= pos <= |input| && 0 <= len <= dest.Length
      invariant goal == Serve(Wait(State(packetno, trychar, crc, len, retrans, dest, sent, accepted, dups)), destsz, input[pos..])
      decreases |input| - pos
    {
      ghost var r := State(packetno, trychar, crc, len, retrans, dest, sent, accepted, dups);
      var got;
      got, pos, sent := Await(input, pos, trychar, len, sent, r, destsz);
      if got.Ended? {
        outcome := got.outcome;
        return;
      }
      if trychar == LETTER_C {
        crc := true;
      }
      trychar := 0;
      var rsize := PacketSize(got.bufsz, crc);
      var data, next := UartRead(input, pos, rsize);
      pos := next;
      if |data| < rsize {
        outcome := Waiting;
        return;
      }
      ghost var o := State(packetno, trychar, crc, len, retrans, dest, sent, accepted, dups);
      OnPacketSane(o, destsz, data, got.bufsz);
      outcome, packetno, len, retrans, sent, accepted, dups :=
        TakePacket(packetno, crc, len, retrans, dest, destsz, sent, data, got.bufsz, accepted, dups);
      if outcome != Waiting {
        return;
      }
    }
  }
}
