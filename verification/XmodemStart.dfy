// How the XMODEM sender starts: it waits for the receiver to ask for a mode.
module XmodemStart {
  import opened XmodemReceiver

  /** What the line brings, reply after reply, for ever. */
  type Replies = nat -> Input

  /** The first try and the retries. */
  function Attempts(retry: int): nat {
    if retry < 0 then 1 else retry + 1
  }

  /** The start: wait for the receiver to ask for a mode. */
  datatype StartUp = Begin(crcMode: bool, next: nat) | GiveUp(abort: bool, next: nat)

  /** It takes at most as many replies as there are attempts left. */
  function AwaitStart(replies: Replies, n: nat, errors: int, cancel: bool, retry: int): (r: StartUp)
    ensures n < r.next <= n + (if errors <= retry then retry + 1 - errors else 1)
    decreases if errors <= retry then retry + 1 - errors else 0
  {
    var reply := replies(n);
    if reply == Byte(NAK) then Begin(false, n + 1)
    else if reply == Byte(LETTER_C) then Begin(true, n + 1)
    else if reply == Byte(CAN) && cancel then GiveUp(false, n + 1)
    else if reply == Byte(EOT) then GiveUp(false, n + 1)
    else if errors + 1 > retry then GiveUp(true, n + 1)
    else AwaitStart(replies, n + 1, errors + 1, cancel || reply == Byte(CAN), retry)
  }

  // ----- What decides the start -----

  /** The first `m` replies leave the start open: none of them asks for a mode or ends
      the transmission, and at most one is a cancel. */
  ghost predicate Undecided(replies: Replies, m: nat) {
    && (forall i :: 0 <= i < m ==> replies(i) != Byte(0x15) && replies(i) != Byte(0x43) && replies(i) != Byte(0x04))
    && (forall i, j :: 0 <= i < j < m ==> replies(i) != Byte(0x18) || replies(j) != Byte(0x18))
  }

  ghost predicate CancelSeen(replies: Replies, m: nat) {
    exists i :: 0 <= i < m && replies(i) == Byte(0x18)
  }

  /** Reply number `s.next`, the first to decide, is the one that asks for the mode or
      calls the transmission off; or no reply decides before the tries are used up. */
  ghost predicate StartEnds(replies: Replies, retry: int, s: StartUp) {
    && 0 < s.next <= Attempts(retry) && Undecided(replies, s.next - 1)
    && var last := replies(s.next - 1);
      match s
      case Begin(crcMode, _) => last == Byte(if crcMode then 0x43 else 0x15)
      case GiveUp(abort, next) =>
        if abort then next == Attempts(retry) && Undecided(replies, next)
        else last == Byte(0x04) || (last == Byte(0x18) && CancelSeen(replies, next - 1))
  }

  lemma {:induction false} StartEndsFrom(replies: Replies, n: nat, cancel: bool, retry: int)
    requires Undecided(replies, n) && cancel == CancelSeen(replies, n) && (n == 0 || n <= retry)
    ensures StartEnds(replies, retry, AwaitStart(replies, n, n, cancel, retry))
    decreases if n <= retry then retry + 1 - n else 0
  {
    var s := AwaitStart(replies, n, n, cancel, retry);
    if s.next > n + 1 || (s.GiveUp? && s.abort) {
      assert Undecided(replies, n + 1);
      if n + 1 <= retry {
        StartEndsFrom(replies, n + 1, cancel || replies(n) == Byte(CAN), retry);
      }
    }
  }

  lemma StartEndsOnce(replies: Replies, retry: int, s: StartUp, s': StartUp)
    requires StartEnds(replies, retry, s) && StartEnds(replies, retry, s') && s.next <= s'.next
    ensures s == s'
  {
  }

  /** Main result: the first reply that decides picks the mode, a 'C' CRC mode and a NAK
      the sum of bytes; an EOT or a second cancel ends the start quietly, and it is
      aborted exactly when no reply decides within the tries. */
  lemma StartIff(replies: Replies, retry: int, s: StartUp)
    ensures AwaitStart(replies, 0, 0, false, retry) == s <==> StartEnds(replies, retry, s)
  {
    hide AwaitStart, StartEnds;
    var r := AwaitStart(replies, 0, 0, false, retry);
    StartEndsFrom(replies, 0, false, retry);
    if StartEnds(replies, retry, s) {
      if s.next <= r.next { StartEndsOnce(replies, retry, s, r); } else { StartEndsOnce(replies, retry, r, s); }
    }
  }

  // ----- The method -----

  method StartLoop(replies: Replies, retry: int) returns (r: StartUp)
    ensures r == AwaitStart(replies, 0, 0, false, retry)
    ensures 0 < r.next <= Attempts(retry)
  {
    var n, errors, cancel := 0, 0, false;
    while true
      invariant n >= 0 && AwaitStart(replies, n, errors, cancel, retry) == AwaitStart(replies, 0, 0, false, retry)
      decreases if errors <= retry then retry + 1 - errors else 0
    {
      var reply := replies(n);
      n := n + 1;
      if reply.Byte? {
        if reply.value == NAK {
          return Begin(false, n);
        } else if reply.value == LETTER_C {
          return Begin(true, n);
        } else if reply.value == CAN {
          if cancel {
            return GiveUp(false, n);
          }
          cancel := true;
        } else if reply.value == EOT {
          return GiveUp(false, n);
        }
      }
      errors := errors + 1;
      if errors > retry {
        return GiveUp(true, n);
      }
    }
  }
}
