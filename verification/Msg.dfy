/** A pooled message: its state and the fields of the resend rule. */
module Msgs {
  datatype MsgState = Inactive | Pending | InUse | Undelivered | Delivered | Processed | MarkForReuse

  datatype ConnectionType = NotSet | Internal | InboundUdp | OutboundUdp | InboundTcp | OutboundTcp

  const MAX_MSG_RETRY: nat := 10
  const MAX_RETRY_DELAY: nat := 1
  const NO_SOCKET: int := -1
  const PRIORITY_MID: int := 128

  /** `stamps` is history: the times SetMsgLastRetryTS took since the last reset. */
  datatype Msg = Msg(
    state: MsgState,
    socket: int,
    connection: ConnectionType,
    priority: int,
    retries: nat,
    delay: nat,
    lastRetry: int,
    inUseSince: int,
    stamps: seq<int>)

  /** The two readings of the clock one look at a message can take; the second is not earlier. */
  datatype Reading = Reading(check: int, stamp: int)

  predicate Running(r: Reading) {
    0 < r.check <= r.stamp
  }

  function Reset(now: int): (m: Msg)
    ensures Backoff(m)
  {
    Msg(Inactive, NO_SOCKET, NotSet, PRIORITY_MID, 0, MAX_RETRY_DELAY, 0, now, [])
  }

  function Dispatched(m: Msg): (r: Msg) {
    m.(connection := if m.connection == NotSet then Internal else m.connection, state := Pending)
  }

  /** What one look at a message in ProcessPendingMessages does to it. */
  function Looked(m: Msg, r: Reading): (next: Msg) {
    match m.state
    case Pending => m.(state := InUse)
    case Undelivered => if m.socket != NO_SOCKET then m.(state := MarkForReuse) else Resent(m, r)
    case _ => m
  }

  function Resent(m: Msg, r: Reading): (next: Msg) {
    if m.retries != 0 && m.lastRetry + m.delay > r.check then m
    else if m.lastRetry == 0 then
      m.(lastRetry := r.stamp, retries := 1, state := Pending, stamps := m.stamps + [r.stamp])
    else if m.retries > MAX_MSG_RETRY - 1 then m.(state := MarkForReuse)
    else m.(lastRetry := r.stamp, retries := m.retries + 1, delay := m.delay + m.delay, state := Pending,
            stamps := m.stamps + [r.stamp])
  }

  function Pow2(n: nat): (p: nat)
    ensures p > 0
  {
    if n == 0 then 1 else 2 * Pow2(n - 1)
  }

  /** The resend rule's invariant: count and delay belong together, and the gaps double. */
  ghost predicate Backoff(m: Msg) {
    && |m.stamps| == m.retries <= MAX_MSG_RETRY
    && m.lastRetry == (if m.retries == 0 then 0 else m.stamps[m.retries - 1])
    && m.delay == (if m.retries == 0 then MAX_RETRY_DELAY else Pow2(m.retries - 1))
    && (forall k :: 0 <= k < |m.stamps| ==> m.stamps[k] > 0)
    && Doubling(m.stamps)
  }

  /** Retry k + 1 (counting from 1) comes at least 2^(k - 1) seconds after retry k. */
  predicate Doubling(stamps: seq<int>) {
    forall k :: 1 <= k < |stamps| ==> stamps[k] >= stamps[k - 1] + Pow2(k - 1)
  }

  lemma {:induction false} LookedKeepsBackoff(m: Msg, r: Reading)
    requires Backoff(m) && Running(r)
    ensures Backoff(Looked(m, r))
  {
    if m.state == Undelivered && m.socket == NO_SOCKET {
      var next := Resent(m, r);
      if next.stamps != m.stamps {
        assert next.stamps[..|m.stamps|] == m.stamps;
      }
    }
  }

  lemma {:induction false} StampsSpread(stamps: seq<int>, n: nat)
    requires Doubling(stamps) && 0 < n <= |stamps|
    ensures stamps[n - 1] >= stamps[0] + Pow2(n - 1) - 1
  {
    if n > 1 {
      StampsSpread(stamps, n - 1);
    }
  }

  /** A message without a socket is given up only after ten retries, 1023 seconds or more after the first of them. */
  lemma {:induction false} DroppedLate(m: Msg, r: Reading)
    requires Backoff(m) && m.state == Undelivered && m.socket == NO_SOCKET
    ensures Resent(m, r).state == MarkForReuse ==> |m.stamps| == 10 && r.check >= m.stamps[0] + 1023
  {
    if Resent(m, r).state == MarkForReuse {
      StampsSpread(m.stamps, 10);
      assert Pow2(9) == 512;
    }
  }

  /** While a retry is left and its delay has passed, the message does go out again, exactly one retry richer. */
  lemma {:induction false} ResentWhenDue(m: Msg, r: Reading)
    requires Backoff(m) && m.state == Undelivered && m.socket == NO_SOCKET
    ensures Resent(m, r).state == Pending
            <==> m.retries < 10 && (m.retries == 0 || r.check >= m.lastRetry + Pow2(m.retries - 1))
    ensures Resent(m, r).state == Pending ==> Resent(m, r).stamps == m.stamps + [r.stamp]
  {
  }

  lemma {:induction false} Pow2Values()
    ensures Pow2(0) == 1 && Pow2(1) == 2 && Pow2(2) == 4 && Pow2(3) == 8 && Pow2(4) == 16
    ensures Pow2(5) == 32 && Pow2(6) == 64 && Pow2(7) == 128 && Pow2(8) == 256 && Pow2(9) == 512
  {
  }

  /** One look, case by case: `n` is what becomes of `m`. */
  ghost predicate Outcome(m: Msg, r: Reading, n: Msg) {
    match m.state
    case Pending => n == m.(state := InUse)
    case Undelivered =>
      if m.socket != -1 then n == m.(state := MarkForReuse)
      else
        var c := |m.stamps|;
        if c == 10 && r.check >= m.stamps[9] + 512 then n == m.(state := MarkForReuse)
        else if c == 0 || (c < 10 && r.check >= m.stamps[c - 1] + Pow2(c - 1)) then
          && n.state == Pending && n.stamps == m.stamps + [r.stamp]
          && n.socket == -1 && n.connection == m.connection && n.priority == m.priority && n.inUseSince == m.inUseSince
        else n == m
    case _ => n == m
  }

  lemma {:induction false} LookedOutcome(m: Msg, r: Reading)
    requires Backoff(m)
    ensures Outcome(m, r, Looked(m, r))
  {
    Pow2Values();
  }
}
