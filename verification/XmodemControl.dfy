// What the control bytes do to a receiver that waits for a packet: noise is passed
// over, and two cancels in a row, and nothing else, cancel the reception.
module XmodemControl {
  import Words
  import opened Crc
  import opened XmodemReceiver
  import opened XmodemReceiverSafety
  import opened XmodemSender
  import opened XmodemLink

  /** A wait that brings nothing, or a byte that means nothing to a waiting receiver. */
  predicate Noise(x: Input) {
    x != Byte(SOH) && x != Byte(STX) && x != Byte(EOT) && x != Byte(CAN)
  }

  /** `r` after `n` more waits: its start character, while it has one, has gone out
      `n` times more. */
  function Asking(r: Rx, n: nat): Rx {
    if r.trychar == 0 then r else r.(sent := r.sent + Words.Repeat(r.trychar, n))
  }

  lemma AskingOnce(r: Rx, n: nat)
    ensures Asking(Wait(r), n) == Asking(r, n + 1)
  {
    assert r.sent + [r.trychar] + Words.Repeat(r.trychar, n) == r.sent + Words.Repeat(r.trychar, n + 1);
  }

  lemma AskingNone(r: Rx)
    ensures Asking(r, 0) == r
  {
    assert r.sent + Words.Repeat(r.trychar, 0) == r.sent;
  }

  lemma AskingSane(r: Rx, destsz: int, n: nat)
    requires Sane(r, destsz)
    ensures Sane(Asking(r, n), destsz)
  {
  }

  /** Time-outs and noise bring out one start character each and change nothing else. */
  lemma {:induction false} NoisePasses(r: Rx, destsz: int, noise: seq<Input>, rest: seq<Input>)
    requires Sane(r, destsz) && forall i :: 0 <= i < |noise| ==> Noise(noise[i])
    ensures Sane(Asking(r, |noise|), destsz)
    ensures Serve(r, destsz, noise + rest) == Serve(Asking(r, |noise|), destsz, rest)
    decreases |noise|
  {
    AskingSane(r, destsz, |noise|);
    if noise == [] {
      AskingNone(r);
      assert noise + rest == rest;
    } else {
      var input := noise + rest;
      assert input[0] == noise[0] && input[1..] == noise[1..] + rest;
      OneNoise(r, destsz, input);
      NoisePasses(Wait(r), destsz, noise[1..], rest);
      AskingOnce(r, |noise| - 1);
    }
  }

  lemma OneNoise(r: Rx, destsz: int, input: seq<Input>)
    requires Sane(r, destsz) && input != [] && Noise(input[0])
    ensures Sane(Wait(r), destsz) && Serve(r, destsz, input) == Serve(Wait(r), destsz, input[1..])
  {
    hide ServePacket;
  }

  /** A receiver asks with a 'C' before anything is heard, and again for every byte of
      noise and every second of silence. */
  lemma AsksForCrc(dest: seq<byte>, destsz: int, noise: seq<Input>)
    requires destsz <= |dest| && forall i :: 0 <= i < |noise| ==> Noise(noise[i])
    ensures Start(dest).sent == [0x43] && Sane(Start(dest), destsz)
    ensures Serve(Start(dest), destsz, noise) ==
      (Waiting, Start(dest).(sent := Words.Repeat(0x43, |noise| + 1)))
  {
    hide Serve;
    var r := Start(dest);
    assert r.sent == [0x43];
    NoisePasses(r, destsz, noise, []);
    ServeNothing(Asking(r, |noise|), destsz, []);
    assert noise + [] == noise;
    var asked: seq<byte> := Words.Repeat(0x43, |noise| + 1);
    assert r.trychar == 0x43 && r.sent + Words.Repeat(r.trychar, |noise|) == asked;
    assert Asking(r, |noise|) == r.(sent := asked);
  }

  /** An end of transmission ends the reception with the bytes received so far. */
  lemma EndFinishes(r: Rx, destsz: int, rest: seq<Input>)
    requires Sane(r, destsz)
    ensures Serve(r, destsz, [Byte(0x04)] + rest) == (Finished(r.len), r.(sent := r.sent + [0x06]))
  {
    assert ([Byte(0x04)] + rest)[0] == Byte(0x04);
  }

  /** Hearing what a sender's abort() puts on the line ends the reception as cancelled:
      one acknowledgement goes out and nothing else changes, whatever follows. */
  lemma AbortCancels(r: Rx, destsz: int, rest: seq<Input>)
    requires Sane(r, destsz)
    ensures Serve(r, destsz, Bytes(Flat(ABORT)) + rest) == (Cancelled, r.(sent := r.sent + [0x06]))
  {
    AbortBytes();
    var input := Bytes(Flat(ABORT)) + rest;
    assert input[0] == Byte(0x18) && input[1] == Byte(0x18);
    TwoCancels(r, destsz, input);
  }

  lemma AbortBytes()
    ensures Flat(ABORT) == [0x18, 0x18]
  {
    assert Flat([]) == [];
    assert ABORT[..1] == [[CAN]] && ABORT[..1][..0] == [];
  }

  lemma TwoCancels(r: Rx, destsz: int, input: seq<Input>)
    requires Sane(r, destsz) && |input| >= 2 && input[0] == Byte(CAN) && input[1] == Byte(CAN)
    ensures Serve(r, destsz, input) == (Cancelled, r.(sent := r.sent + [ACK]))
  {
    hide ServePacket;
  }

  /** A cancel that is not followed by another one takes what follows it along, and the
      receiver goes on waiting. */
  lemma LoneCancelPasses(r: Rx, destsz: int, x: Input, rest: seq<Input>)
    requires Sane(r, destsz) && x != Byte(0x18)
    ensures Sane(Wait(r), destsz)
    ensures Serve(r, destsz, [Byte(0x18), x] + rest) == Serve(Wait(r), destsz, rest)
  {
    hide ServePacket;
    var input := [Byte(0x18), x] + rest;
    assert input[0] == Byte(CAN) && input[1] == x && input[2..] == rest;
  }

  /** The bytes of an input, the waits that brought nothing left out. */
  function BytesHeard(input: seq<Input>): seq<byte>
    decreases |input|
  {
    if input == [] then [] else (if input[0].Quiet? then [] else [input[0].value]) + BytesHeard(input[1..])
  }

  /** Inside a packet the receiver waits for as long as it takes: it takes the next `n`
      bytes, whatever time-outs come between them, or what there is of them. */
  lemma {:induction false} CollectTakes(input: seq<Input>, n: nat)
    ensures var (bytes, got) := (BytesHeard(input), Collect(input, n));
      var m := if n < |bytes| then n else |bytes|;
      got.0 == bytes[..m] && BytesHeard(got.1) == bytes[m..]
    decreases |input|
  {
    if n == 0 || input == [] {
      assert Collect(input, n) == ([], input);
    } else if input[0].Quiet? {
      CollectTakes(input[1..], n);
      assert BytesHeard(input) == BytesHeard(input[1..]);
    } else {
      CollectTakes(input[1..], n - 1);
      var rest := BytesHeard(input[1..]);
      assert BytesHeard(input) == [input[0].value] + rest;
      TakeDropCons(input[0].value, rest, if n - 1 < |rest| then n - 1 else |rest|);
    }
  }

  lemma TakeDropCons(b: byte, rest: seq<byte>, m: nat)
    requires m <= |rest|
    ensures ([b] + rest)[..m + 1] == [b] + rest[..m] && ([b] + rest)[m + 1..] == rest[m..]
  {
  }

  predicate CancelsAt(input: seq<Input>, i: nat) {
    i + 1 < |input| && input[i] == Byte(0x18) && input[i + 1] == Byte(0x18)
  }

  /** What is left after collecting is the end of the input. */
  lemma {:induction false} CollectRest(input: seq<Input>, n: nat) returns (k: nat)
    ensures k <= |input| && Collect(input, n).1 == input[k..]
    decreases |input|
  {
    if n == 0 || input == [] {
      k := 0;
    } else {
      var j := CollectRest(input[1..], if input[0].Quiet? then n else n - 1);
      k := j + 1;
      assert input[1..][j..] == input[k..];
    }
  }

  lemma CancelsShift(input: seq<Input>, k: nat, i: nat)
    requires k <= |input| && CancelsAt(input[k..], i)
    ensures CancelsAt(input, k + i)
  {
  }

  /** A packet's bytes never cancel: the reception may only go on to be cancelled. */
  lemma PacketGoesOn(r: Rx, destsz: int, input: seq<Input>, bufsz: nat) returns (k: nat, next: Rx)
    requires Sane(r, destsz) && ServePacket(r, destsz, input, bufsz).0 == Cancelled
    ensures k <= |input| && Sane(next, destsz) && Serve(next, destsz, input[k..]).0 == Cancelled
  {
    hide Serve, Welcome, Accept, Collect;
    var o := Opened(r);
    var got := Collect(input, PacketSize(bufsz, o.crc));
    k := CollectRest(input, PacketSize(bufsz, o.crc));
    OnPacketSane(o, destsz, got.0, bufsz);
    next := Wait(OnPacket(o, destsz, got.0, bufsz).1);
  }

  /** On every input: a reception is cancelled only by two cancels in a row. */
  lemma {:induction false} CancelledByTwo(r: Rx, destsz: int, input: seq<Input>) returns (i: nat)
    requires Sane(r, destsz) && Serve(r, destsz, input).0 == Cancelled
    ensures CancelsAt(input, i)
    decreases |input|
  {
    hide ServePacket, CancelsAt;
    if input[0] == Byte(SOH) || input[0] == Byte(STX) {
      var k, next := PacketGoesOn(r, destsz, input[1..], if input[0] == Byte(SOH) then 128 else 1024);
      assert input[1..][k..] == input[1 + k..];
      i := CancelledByTwo(next, destsz, input[1 + k..]);
      CancelsShift(input, 1 + k, i);
      i := 1 + k + i;
    } else if input[0] != Byte(CAN) {
      i := CancelledByTwo(Wait(r), destsz, input[1..]);
      CancelsShift(input, 1, i);
      i := i + 1;
    } else if input[1] != Byte(CAN) {
      i := CancelledByTwo(Wait(r), destsz, input[2..]);
      CancelsShift(input, 2, i);
      i := i + 2;
    } else {
      i := 0;
      assert CancelsAt(input, i) by { CancelsHere(input); }
    }
  }

  lemma CancelsHere(input: seq<Input>)
    requires |input| >= 2 && input[0] == Byte(CAN) && input[1] == Byte(CAN)
    ensures CancelsAt(input, 0)
  {
  }

  lemma CancelsLater(input: seq<Input>, i: nat, k: nat)
    requires CancelsAt(input, i) && k <= i
    ensures CancelsAt(input[k..], i - k)
  {
  }

  /** While no packet and no end of transmission comes, the reception is cancelled if
      and only if two cancels come in a row. */
  lemma {:induction false} CancelledIff(r: Rx, destsz: int, input: seq<Input>)
    requires Sane(r, destsz) && forall i :: 0 <= i < |input| ==> Noise(input[i]) || input[i] == Byte(CAN)
    ensures Serve(r, destsz, input).0 == Cancelled <==> exists i :: CancelsAt(input, i)
    decreases |input|
  {
    hide ServePacket, CancelsAt;
    if Serve(r, destsz, input).0 == Cancelled {
      var i := CancelledByTwo(r, destsz, input);
    } else if i: nat :| CancelsAt(input, i) {
      var k := NotCancelledStep(r, destsz, input, i);
      CancelsLater(input, i, k);
      CancelledIff(Wait(r), destsz, input[k..]);
    }
  }

  lemma NotCancelledStep(r: Rx, destsz: int, input: seq<Input>, i: nat) returns (k: nat)
    requires Sane(r, destsz) && (forall i :: 0 <= i < |input| ==> Noise(input[i]) || input[i] == Byte(CAN))
    requires Serve(r, destsz, input).0 != Cancelled && CancelsAt(input, i)
    ensures 0 < k <= i && k <= |input| && Sane(Wait(r), destsz) && Serve(Wait(r), destsz, input[k..]).0 != Cancelled
  {
    hide ServePacket;
    if input[0] == Byte(CAN) {
      k := 2;
      assert input[1] != Byte(CAN);
    } else {
      assert Noise(input[0]);
      k := 1;
    }
  }
}
