// The XMODEM sender: blocks of a file, each sent until it is acknowledged.
module XmodemSender {
  import Words
  import opened Crc
  import opened CrcTable
  import opened CrcDetects
  import opened XmodemReceiver
  import opened XmodemReceiverSafety
  import opened XmodemStart

  // ----- Packets -----

  /** The file in blocks of `size` bytes, the last one filled up with `pad`. */
  function Blocks(file: seq<byte>, size: nat, pad: byte): (b: seq<seq<byte>>)
    requires size > 0
    ensures forall i :: 0 <= i < |b| ==> |b[i]| == size
    decreases |file|
  {
    if file == [] then []
    else if |file| <= size then [file + Words.Repeat(pad, size - |file|)]
    else [file[..size]] + Blocks(file[size..], size, pad)
  }

  /** _make_send_header. */
  function Header(size: nat, sequence: byte): seq<byte> {
    [if size == 128 then SOH else STX, sequence, 0xff - sequence]
  }

  function HighByte(c: bv16): byte {
    (c >> 8) as byte
  }

  function LowByte(c: bv16): byte {
    (c & 0xff) as byte
  }

  /** _make_send_checksum. */
  function Checksum(crcMode: bool, data: seq<byte>): seq<byte> {
    if crcMode then [HighByte(CrcFrom(0, data)), LowByte(CrcFrom(0, data))] else [ByteSum(data)]
  }

  function PacketOf(block: seq<byte>, sequence: byte, crcMode: bool): seq<byte> {
    Header(|block|, sequence) + block + Checksum(crcMode, block)
  }

  /** What goes out for block `k`, and after the last one. */
  function Transmission(blocks: seq<seq<byte>>, k: nat, crcMode: bool): seq<byte> {
    if k < |blocks| then PacketOf(blocks[k], SeqNo(k + 1), crcMode) else [EOT]
  }

  // ----- The sender as a machine -----

  /** `block` blocks are acknowledged; when that is all of them the end of
      transmission is being sent. */
  datatype Tx = Sending(block: nat, errors: int) | Closed(ok: bool)

  function TxStep(t: Tx, total: nat, retry: int, reply: Input): Tx
    requires t.Sending?
  {
    if reply == Byte(ACK) then
      if t.block < total then Sending(t.block + 1, 0) else Closed(true)
    else if t.errors + 1 > retry then Closed(false)
    else t.(errors := t.errors + 1)
  }

  /** Every transmission of a run, by block number, against any replies.  That this
      function terminates is that the sender halts. */
  function TxSends(t: Tx, total: nat, retry: int, replies: Replies, n: nat): seq<nat>
    requires t.Sending? ==> t.block <= total
    decreases if t.Sending? then total + 1 - t.block else 0, if t.Sending? && t.errors <= retry then retry + 1 - t.errors else 0
  {
    if t.Closed? then [] else [t.block] + TxSends(TxStep(t, total, retry, replies(n)), total, retry, replies, n + 1)
  }

  function TxEnd(t: Tx, total: nat, retry: int, replies: Replies, n: nat): bool
    requires t.Sending? ==> t.block <= total
    decreases if t.Sending? then total + 1 - t.block else 0, if t.Sending? && t.errors <= retry then retry + 1 - t.errors else 0
  {
    if t.Closed? then t.ok else TxEnd(TxStep(t, total, retry, replies(n)), total, retry, replies, n + 1)
  }

  function Wire(blocks: seq<seq<byte>>, sends: seq<nat>, crcMode: bool): seq<seq<byte>>
    decreases |sends|
  {
    if sends == [] then [] else [Transmission(blocks, sends[0], crcMode)] + Wire(blocks, sends[1..], crcMode)
  }

  /** abort(): two cancels. */
  const ABORT: seq<seq<byte>> := [[CAN], [CAN]]

  // ----- How often a block goes out -----

  function Occurrences(s: seq<nat>, k: nat): nat
    decreases |s|
  {
    if s == [] then 0 else (if s[0] == k then 1 else 0) + Occurrences(s[1..], k)
  }

  /** Against any replies at all, each block goes out at most retry + 1 times, and
      so does the end of transmission; no block goes out after a later one. */
  lemma {:induction false} SendsBounded(t: Tx, total: nat, retry: int, replies: Replies, n: nat, k: nat)
    requires t.Sending? && t.block <= total && 0 <= t.errors && (t.errors == 0 || t.errors <= retry)
    ensures var sends := TxSends(t, total, retry, replies, n);
      && Occurrences(sends, k) <= (if k == t.block then Attempts(retry) - t.errors else Attempts(retry))
      && (forall i :: 0 <= i < |sends| ==> t.block <= sends[i] <= total)
      && (forall i, j :: 0 <= i < j < |sends| ==> sends[i] <= sends[j])
    decreases total + 1 - t.block, retry + 1 - t.errors
  {
    var next := TxStep(t, total, retry, replies(n));
    var rest := TxSends(next, total, retry, replies, n + 1);
    assert ([t.block] + rest)[1..] == rest;
    if next.Sending? {
      SendsBounded(next, total, retry, replies, n + 1, k);
      if next.block > t.block { NoEarlier(rest, t.block); }
    }
  }

  /** No acknowledgement among the `n` replies from number `from` on. */
  ghost predicate Unanswered(replies: Replies, from: nat, n: nat) {
    forall i :: from <= i < from + n ==> replies(i) != Byte(ACK)
  }

  /** Block `k` goes out again and again, until reply number `n + j`, when that is the
      first acknowledgement and tries are left; then it is the next block's turn, with all
      tries before it, or the transfer has succeeded. */
  lemma {:induction false} SentUntilAnswered(k: nat, errors: nat, total: nat, retry: int, replies: Replies, n: nat, j: nat)
    requires k <= total && errors + j < Attempts(retry)
    requires Unanswered(replies, n, j) && replies(n + j) == Byte(ACK)
    ensures var next := if k < total then Sending(k + 1, 0) else Closed(true);
      && TxSends(Sending(k, errors), total, retry, replies, n)
        == Words.Repeat(k, j + 1) + TxSends(next, total, retry, replies, n + j + 1)
      && TxEnd(Sending(k, errors), total, retry, replies, n) == TxEnd(next, total, retry, replies, n + j + 1)
    decreases j
  {
    hide TxSends, TxEnd;
    SendStep(k, errors, total, retry, replies, n);
    if j == 0 {
      assert Words.Repeat(k, 1) == [k];
    } else {
      SentUntilAnswered(k, errors + 1, total, retry, replies, n + 1, j - 1);
      assert Words.Repeat(k, j + 1) == [k] + Words.Repeat(k, j);
      RepeatAssoc(k, j, TxSends(if k < total then Sending(k + 1, 0) else Closed(true), total, retry, replies, n + j + 1));
    }
  }

  lemma SendStep(k: nat, errors: int, total: nat, retry: int, replies: Replies, n: nat)
    requires k <= total
    ensures var t := TxStep(Sending(k, errors), total, retry, replies(n));
      && TxSends(Sending(k, errors), total, retry, replies, n) == [k] + TxSends(t, total, retry, replies, n + 1)
      && TxEnd(Sending(k, errors), total, retry, replies, n) == TxEnd(t, total, retry, replies, n + 1)
  {
  }

  lemma RepeatAssoc(k: nat, j: nat, rest: seq<nat>)
    ensures [k] + (Words.Repeat(k, j) + rest) == [k] + Words.Repeat(k, j) + rest
  {
  }

  /** And when none of the replies to the tries that are left acknowledges it, it goes out
      as often as that, and the transfer has failed. */
  lemma {:induction false} SentUntilGivenUp(k: nat, errors: nat, total: nat, retry: int, replies: Replies, n: nat)
    requires k <= total && errors < Attempts(retry) && Unanswered(replies, n, Attempts(retry) - errors)
    ensures TxSends(Sending(k, errors), total, retry, replies, n) == Words.Repeat(k, Attempts(retry) - errors)
    ensures !TxEnd(Sending(k, errors), total, retry, replies, n)
    decreases Attempts(retry) - errors
  {
    hide TxSends, TxEnd;
    SendStep(k, errors, total, retry, replies, n);
    if errors + 1 < Attempts(retry) {
      SentUntilGivenUp(k, errors + 1, total, retry, replies, n + 1);
      assert Words.Repeat(k, Attempts(retry) - errors) == [k] + Words.Repeat(k, Attempts(retry) - errors - 1);
    } else {
      NothingSent(false, total, retry, replies, n + 1);
      assert Words.Repeat(k, 1) == [k] + [];
    }
  }

  lemma NothingSent(ok: bool, total: nat, retry: int, replies: Replies, n: nat)
    ensures TxSends(Closed(ok), total, retry, replies, n) == [] && TxEnd(Closed(ok), total, retry, replies, n) == ok
  {
  }

  lemma {:induction false} NoEarlier(s: seq<nat>, k: nat)
    requires forall i :: 0 <= i < |s| ==> s[i] > k
    ensures Occurrences(s, k) == 0
    decreases |s|
  {
    if s != [] { NoEarlier(s[1..], k); }
  }

  // ----- What goes out in either mode -----

  /** What the rest of a run puts on the wire. */
  ghost function Rest(blocks: seq<seq<byte>>, crcMode: bool, t: Tx, retry: int, replies: Replies, n: nat): (bool, seq<seq<byte>>)
    requires t.Sending? ==> t.block <= |blocks|
  {
    (TxEnd(t, |blocks|, retry, replies, n), Wire(blocks, TxSends(t, |blocks|, retry, replies, n), crcMode))
  }

  /** The sum of the bytes. */
  function Total(data: seq<byte>): int
    decreases |data|
  {
    if data == [] then 0 else data[0] as int + Total(data[1..])
  }

  lemma {:induction false} TotalAppend(data: seq<byte>, b: byte)
    ensures Total(data + [b]) == Total(data) + b as int
    decreases |data|
  {
    if data == [] {
      assert [b][1..] == [];
    } else {
      assert (data + [b])[1..] == data[1..] + [b];
      TotalAppend(data[1..], b);
    }
  }

  function Plus(a: byte, b: byte): byte {
    a + b
  }

  function Before(b: byte): byte {
    b - 1
  }

  /** Addition of bytes, counted one by one. */
  lemma {:induction false} ByteAdd(a: byte, b: byte, n: nat)
    requires b as int == n
    ensures Plus(a, b) as int == (a as int + n) % 256
    decreases n
  {
    hide NextNo, Plus, Before;
    if n == 0 {
      NoneAdded(a, b);
    } else {
      OneMore(a, b);
      ByteAdd(a, Before(b), n - 1);
      NextMod(Plus(a, Before(b)), a as int + n - 1);
    }
  }

  lemma NextMod(x: byte, m: nat)
    requires x as int == m % 256
    ensures NextNo(x) as int == (m + 1) % 256
  {
    hide NextNo;
    NextNoCounts(x);
    CountOn(m);
  }

  lemma NoneAdded(a: byte, b: byte)
    requires b as int == 0
    ensures Plus(a, b) == a && a as int % 256 == a as int
  {
  }

  lemma OneMore(a: byte, b: byte)
    requires b as int != 0
    ensures Before(b) as int == b as int - 1
    ensures Plus(a, b) == NextNo(Plus(a, Before(b)))
  {
    NextNoCounts(Before(b));
    BackAndOn(b);
  }

  lemma BackAndOn(b: byte)
    requires b != 0
    ensures NextNo(Before(b)) == b && Before(b) != 0xff
  {
  }

  /** The one-byte checksum is the sum of the bytes modulo 256. */
  lemma {:induction false} ByteSumTotal(data: seq<byte>)
    ensures ByteSum(data) as int == Total(data) % 256
    decreases |data|
  {
    hide ByteSum, Plus;
    if data == [] {
      ByteSumNone();
    } else {
      var n := |data| - 1;
      ByteSumTotal(data[..n]);
      ByteSumLast(data);
      ByteAdd(ByteSum(data[..n]), data[n], data[n] as int);
      assert data == data[..n] + [data[n]];
      TotalAppend(data[..n], data[n]);
      AddMod(Total(data[..n]), data[n] as int);
    }
  }

  lemma ByteSumNone()
    ensures ByteSum([]) as int == 0
  {
  }

  lemma ByteSumLast(data: seq<byte>)
    requires data != []
    ensures ByteSum(data) == Plus(ByteSum(data[..|data| - 1]), data[|data| - 1])
  {
  }

  lemma AddMod(a: int, b: int)
    ensures (a % 256 + b) % 256 == (a + b) % 256
  {
  }

  /** Block `k` of the file as it goes out: kind, number, complement, data, and two bytes
      of CRC in CRC mode, otherwise one byte with the sum of the data modulo 256. */
  ghost predicate SentAs(p: seq<byte>, block: seq<byte>, k: nat, crcMode: bool) {
    var size := |block|;
    && |p| == size + (if crcMode then 5 else 4)
    && p[0] == (if size == 128 then 0x01 else 0x02)
    && p[1] as int == (k + 1) % 256 && p[2] as int == 255 - (k + 1) % 256
    && p[3..3 + size] == block
    && if crcMode then Accepts(p[3..]) else p[size + 3] as int == Total(block) % 256
  }

  lemma FrameAccepted(b: seq<byte>)
    ensures Accepts(b + [HighByte(CrcFrom(0, b)), LowByte(CrcFrom(0, b))])
  {
    hide Accepts, CrcFrom;
    SentFrameAccepted(b, HighByte(CrcFrom(0, b)), LowByte(CrcFrom(0, b)));
  }

  /** The parts of a packet. */
  lemma PacketShape(b: seq<byte>, sequence: byte, crcMode: bool)
    ensures var (p, c) := (PacketOf(b, sequence, crcMode), Checksum(crcMode, b));
      && |c| == (if crcMode then 2 else 1) && |p| == 3 + |b| + |c|
      && p[..3] == [if |b| == 128 then SOH else STX, sequence, 0xff - sequence]
      && p[3..] == b + c && p[3..3 + |b|] == b && p[3 + |b|] == c[0]
  {
    hide CrcFrom, ByteSum, HighByte, LowByte;
  }

  lemma BlockSentAs(blocks: seq<seq<byte>>, k: nat, crcMode: bool)
    requires k < |blocks|
    ensures SentAs(Transmission(blocks, k, crcMode), blocks[k], k, crcMode)
  {
    hide Accepts, CrcFrom, ByteSum, SeqNo, Total, HighByte, LowByte, PacketOf;
    var b := blocks[k];
    var p := Transmission(blocks, k, crcMode);
    PacketShape(b, SeqNo(k + 1), crcMode);
    assert p[0] == p[..3][0] && p[1] == p[..3][1] && p[2] == p[..3][2];
    SeqNoCounts(k + 1);
    Complement(SeqNo(k + 1));
    if crcMode {
      FrameAccepted(b);
    } else {
      ByteSumTotal(b);
    }
  }

  lemma Complement(x: byte)
    ensures (0xff - x) as int == 255 - x as int
  {
  }

  lemma {:induction false} WireAt(blocks: seq<seq<byte>>, sends: seq<nat>, crcMode: bool, i: nat)
    requires i < |sends|
    ensures |Wire(blocks, sends, crcMode)| == |sends|
    ensures Wire(blocks, sends, crcMode)[i] == Transmission(blocks, sends[i], crcMode)
    decreases |sends|
  {
    hide Transmission;
    if |sends| > 1 { WireAt(blocks, sends[1..], crcMode, if i == 0 then 0 else i - 1); }
  }

  /** Everything on the wire of a run is a block of the file in the run's mode, an end of
      transmission, or a cancel. */
  ghost predicate InMode(p: seq<byte>, blocks: seq<seq<byte>>, crcMode: bool) {
    p == [0x04] || p == [0x18] || exists k: nat :: k < |blocks| && SentAs(p, blocks[k], k, crcMode)
  }

  lemma RestInMode(blocks: seq<seq<byte>>, crcMode: bool, t: Tx, retry: int, replies: Replies, n: nat)
    requires t.Sending? ==> t.block <= |blocks|
    ensures forall p :: p in Rest(blocks, crcMode, t, retry, replies, n).1 ==> InMode(p, blocks, crcMode)
  {
    hide SentAs, TxSends, Wire, TxEnd;
    var sends := TxSends(t, |blocks|, retry, replies, n);
    var wire := Wire(blocks, sends, crcMode);
    forall p | p in wire ensures InMode(p, blocks, crcMode) {
      WireLength(blocks, sends, crcMode);
      var i :| 0 <= i < |wire| && wire[i] == p;
      WireAt(blocks, sends, crcMode, i);
      if sends[i] < |blocks| { BlockSentAs(blocks, sends[i], crcMode); }
    }
  }

  lemma AbortInMode(blocks: seq<seq<byte>>)
    ensures forall crcMode, p :: p in ABORT ==> InMode(p, blocks, crcMode)
  {
    hide SentAs;
  }

  lemma StartIsOne(replies: Replies, retry: int)
    ensures forall s :: StartEnds(replies, retry, s) ==> s == AwaitStart(replies, 0, 0, false, retry)
  {
    hide StartEnds, AwaitStart;
    forall s | StartEnds(replies, retry, s) ensures s == AwaitStart(replies, 0, 0, false, retry) {
      StartIff(replies, retry, s);
    }
  }

  lemma {:induction false} WireLength(blocks: seq<seq<byte>>, sends: seq<nat>, crcMode: bool)
    ensures |Wire(blocks, sends, crcMode)| == |sends|
    decreases |sends|
  {
    if sends != [] { WireLength(blocks, sends[1..], crcMode); }
  }

  // ----- The method -----

  method MakeChecksum(crcMode: bool, data: seq<byte>) returns (sum: seq<byte>)
    ensures sum == Checksum(crcMode, data)
  {
    hide CrcFrom, ByteSum, HighByte, LowByte;
    assert data[..|data|] == data;
    if crcMode {
      var crc := Crc16Ccitt(data, |data|, 0);
      sum := [HighByte(crc), LowByte(crc)];
    } else {
      var cks := SumBytes(data, |data|);
      sum := [cks];
    }
  }

  lemma RestStep(blocks: seq<seq<byte>>, crcMode: bool, t: Tx, retry: int, replies: Replies, n: nat)
    requires t.Sending? && t.block <= |blocks|
    ensures var next := Rest(blocks, crcMode, TxStep(t, |blocks|, retry, replies(n)), retry, replies, n + 1);
      Rest(blocks, crcMode, t, retry, replies, n) == (next.0, [Transmission(blocks, t.block, crcMode)] + next.1)
  {
    hide Transmission;
    var sends := TxSends(TxStep(t, |blocks|, retry, replies(n)), |blocks|, retry, replies, n + 1);
    assert ([t.block] + sends)[1..] == sends;
  }

  lemma RestClosed(blocks: seq<seq<byte>>, crcMode: bool, ok: bool, retry: int, replies: Replies, n: nat)
    ensures Rest(blocks, crcMode, Closed(ok), retry, replies, n) == (ok, [])
  {
  }

  /** The inner loop of send, for block `k`. */
  method SendBlock(packet: seq<byte>, retry: int, replies: Replies, n0: nat, ghost blocks: seq<seq<byte>>, ghost k: nat, ghost crcMode: bool)
    returns (acked: bool, wire: seq<seq<byte>>, n: nat)
    requires k < |blocks| && packet == Transmission(blocks, k, crcMode)
    ensures var rest := Rest(blocks, crcMode, Sending(k + 1, 0), retry, replies, n);
      Rest(blocks, crcMode, Sending(k, 0), retry, replies, n0) == if acked then (rest.0, wire + rest.1) else (false, wire)
  {
    hide Transmission, Rest;
    var errors := 0;
    wire, n := [], n0;
    ghost var goal := Rest(blocks, crcMode, Sending(k, 0), retry, replies, n0);
    assert [] + goal.1 == goal.1;
    while true
      invariant n0 <= n && 0 <= errors && (errors == 0 || errors <= retry)
      invariant var rest := Rest(blocks, crcMode, Sending(k, errors), retry, replies, n); goal == (rest.0, wire + rest.1)
      decreases retry + 1 - errors
    {
      RestStep(blocks, crcMode, Sending(k, errors), retry, replies, n);
      ghost var t := TxStep(Sending(k, errors), |blocks|, retry, replies(n));
      WireAssoc(wire, [packet], Rest(blocks, crcMode, t, retry, replies, n + 1).1);
      wire := wire + [packet];
      var reply := replies(n);
      n := n + 1;
      if reply == Byte(ACK) {
        return true, wire, n;
      }
      errors := errors + 1;
      if errors > retry {
        RestClosed(blocks, crcMode, false, retry, replies, n);
        assert wire + [] == wire;
        return false, wire, n;
      }
    }
  }

  /** The last loop of send: the end of transmission, until it is acknowledged. */
  method SendEot(retry: int, replies: Replies, n0: nat, ghost blocks: seq<seq<byte>>, ghost crcMode: bool)
    returns (acked: bool, wire: seq<seq<byte>>)
    ensures Rest(blocks, crcMode, Sending(|blocks|, 0), retry, replies, n0) == (acked, wire)
  {
    hide Rest;
    var errors, n := 0, n0;
    wire := [];
    ghost var goal := Rest(blocks, crcMode, Sending(|blocks|, 0), retry, replies, n0);
    assert [] + goal.1 == goal.1;
    while true
      invariant n0 <= n && 0 <= errors && (errors == 0 || errors <= retry)
      invariant var rest := Rest(blocks, crcMode, Sending(|blocks|, errors), retry, replies, n); goal == (rest.0, wire + rest.1)
      decreases retry + 1 - errors
    {
      RestStep(blocks, crcMode, Sending(|blocks|, errors), retry, replies, n);
      ghost var t := TxStep(Sending(|blocks|, errors), |blocks|, retry, replies(n));
      WireAssoc(wire, [[EOT]], Rest(blocks, crcMode, t, retry, replies, n + 1).1);
      wire := wire + [[EOT]];
      var reply := replies(n);
      n := n + 1;
      if reply == Byte(ACK) {
        RestClosed(blocks, crcMode, true, retry, replies, n);
        assert wire + [] == wire;
        return true, wire;
      }
      errors := errors + 1;
      if errors > retry {
        RestClosed(blocks, crcMode, false, retry, replies, n);
        assert wire + [] == wire;
        return false, wire;
      }
    }
  }

  /** XMODEM.send, against any replies. */
  method Send(file: seq<byte>, packetSize: nat, pad: byte, retry: int, replies: Replies) returns (ok: bool, wire: seq<seq<byte>>)
    requires packetSize == 128 || packetSize == 1024
    ensures match AwaitStart(replies, 0, 0, false, retry)
      case GiveUp(abort, _) => !ok && wire == if abort then ABORT else []
      case Begin(crcMode, n) =>
        var run := Rest(Blocks(file, packetSize, pad), crcMode, Sending(0, 0), retry, replies, n);
        ok == run.0 && wire == run.1 + (if ok then [] else ABORT)
    ensures forall crcMode, n: nat :: StartEnds(replies, retry, Begin(crcMode, n)) ==>
      forall p :: p in wire ==> InMode(p, Blocks(file, packetSize, pad), crcMode)
  {
    hide Rest, AwaitStart, PacketOf, Checksum, StartEnds, InMode, SentAs;
    var start := StartLoop(replies, retry);
    StartIsOne(replies, retry);
    AbortInMode(Blocks(file, packetSize, pad));
    if start.GiveUp? {
      return false, if start.abort then ABORT else [];
    }
    var crcMode, n := start.crcMode, start.next;
    ghost var blocks := Blocks(file, packetSize, pad);
    ghost var goal := Rest(blocks, crcMode, Sending(0, 0), retry, replies, n);
    RestInMode(blocks, crcMode, Sending(0, 0), retry, replies, n);
    ghost var k := 0;
    var rest := file;
    var sequence: byte := NextNo(0);
    wire := [];
    assert [] + goal.1 == goal.1 && blocks[0..] == blocks && SeqNo(1) == NextNo(SeqNo(0));
    while rest != []
      invariant 0 <= k <= |blocks| && n >= 0 && Blocks(rest, packetSize, pad) == blocks[k..] && sequence == SeqNo(k + 1)
      invariant var todo := Rest(blocks, crcMode, Sending(k, 0), retry, replies, n); goal == (todo.0, wire + todo.1)
      decreases |rest|
    {
      var take := if |rest| <= packetSize then |rest| else packetSize;
      var data := rest[..take] + Words.Repeat(pad, packetSize - take);
      assert data == blocks[k] && Blocks(rest[take..], packetSize, pad) == blocks[k + 1..] by {
        NextBlock(rest, packetSize, pad, blocks, k);
      }
      rest := rest[take..];
      var checksum := MakeChecksum(crcMode, data);
      assert Header(packetSize, sequence) + data + checksum == Transmission(blocks, k, crcMode) by {
        assert Transmission(blocks, k, crcMode) == PacketOf(blocks[k], SeqNo(k + 1), crcMode);
        PacketParts(data, sequence, crcMode);
      }
      var acked, sent;
      acked, sent, n := SendBlock(Header(packetSize, sequence) + data + checksum, retry, replies, n, blocks, k, crcMode);
      WireAssoc(wire, sent, Rest(blocks, crcMode, Sending(k + 1, 0), retry, replies, n).1);
      wire := wire + sent;
      if !acked {
        return false, wire + ABORT;
      }
      k := k + 1;
      sequence := NextNo(sequence);
    }
    var sent;
    ok, sent := SendEot(retry, replies, n, blocks, crcMode);
    wire := wire + sent + (if ok then [] else ABORT);
  }

  lemma WireAssoc(a: seq<seq<byte>>, b: seq<seq<byte>>, c: seq<seq<byte>>)
    ensures a + b + c == a + (b + c)
  {
  }

  lemma PacketParts(data: seq<byte>, sequence: byte, crcMode: bool)
    ensures PacketOf(data, sequence, crcMode) == Header(|data|, sequence) + data + Checksum(crcMode, data)
  {
  }

  lemma NextBlock(rest: seq<byte>, size: nat, pad: byte, blocks: seq<seq<byte>>, k: nat)
    requires size > 0 && rest != [] && k <= |blocks| && Blocks(rest, size, pad) == blocks[k..]
    ensures k < |blocks|
    ensures var take := if |rest| <= size then |rest| else size;
      && rest[..take] + Words.Repeat(pad, size - take) == blocks[k] && Blocks(rest[take..], size, pad) == blocks[k + 1..]
  {
    var tail := blocks[k..];
    if |rest| <= size {
      assert tail == [rest + Words.Repeat(pad, size - |rest|)];
      assert rest[..|rest|] == rest && rest[|rest|..] == [];
    } else {
      assert tail == [rest[..size]] + Blocks(rest[size..], size, pad);
      assert rest[..size] + Words.Repeat(pad, 0) == rest[..size];
      assert tail[1..] == Blocks(rest[size..], size, pad);
    }
    assert tail[0] == blocks[k] && tail[1..] == blocks[k + 1..];
  }

  // ----- The blocks are the file -----

  lemma {:induction false} FlatCons(b: seq<byte>, rest: seq<seq<byte>>)
    ensures Flat([b] + rest) == b + Flat(rest)
    decreases |rest|
  {
    if rest == [] {
      assert ([b] + rest)[..0] == [];
    } else {
      var n := |rest| - 1;
      assert ([b] + rest)[..n + 1] == [b] + rest[..n];
      FlatCons(b, rest[..n]);
    }
  }

  /** The blocks spell the file, followed by less than a block of padding. */
  lemma {:induction false} BlocksSpellFile(file: seq<byte>, size: nat, pad: byte) returns (fill: nat)
    requires size > 0
    ensures Flat(Blocks(file, size, pad)) == file + Words.Repeat(pad, fill) && fill < size
    decreases |file|
  {
    hide Flat;
    if file == [] {
      fill := 0;
      FlatNone();
    } else if |file| <= size {
      fill := size - |file|;
      FlatCons(file + Words.Repeat(pad, fill), []);
      FlatNone();
      assert [file + Words.Repeat(pad, fill)] + [] == [file + Words.Repeat(pad, fill)];
      assert file + Words.Repeat(pad, fill) + [] == file + Words.Repeat(pad, fill);
    } else {
      fill := BlocksSpellFile(file[size..], size, pad);
      FlatCons(file[..size], Blocks(file[size..], size, pad));
      assert file[..size] + (file[size..] + Words.Repeat(pad, fill)) == file + Words.Repeat(pad, fill);
    }
  }

  lemma FlatNone()
    ensures Flat([]) == []
  {
  }
}
