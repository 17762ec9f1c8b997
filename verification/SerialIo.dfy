/**
  Deadline-bounded serial I/O: the read, write and flush loops of
  adapters/serialport/src/session.rs. Times are in nanoseconds. The port, its clock and the
  lifecycle other threads change are arbitrary; each contract says what it assumes of them.
 */
module SerialIo {
  import opened Prelude

  const MILLISECOND := 1_000_000
  const MAX_NATIVE_TIMEOUT := 100 * MILLISECOND
  const FLUSH_POLL_INTERVAL := 5 * MILLISECOND

  datatype IoError = SessionClosed | Timeout | Disconnected | Native

  /** How one native transfer ends. Interrupted and timed-out transfers are retried. */
  datatype Transfer = Moved(count: nat) | Retry | Broken

  /** Rounds up to whole milliseconds and clamps to 1..100 ms. */
  function NormalizeTimeout(ns: nat): nat {
    var millis := ns / MILLISECOND + if ns % MILLISECOND != 0 then 1 else 0;
    var capped := if millis < 1 then 1 else if millis > 100 then 100 else millis;
    capped * MILLISECOND
  }

  /** The native timeout is within bounds, covers the remaining time up to the cap, and overshoots it by less than 1 ms. */
  lemma NormalizedTimeout(ns: nat)
    ensures MILLISECOND <= NormalizeTimeout(ns) <= MAX_NATIVE_TIMEOUT
    ensures NormalizeTimeout(ns) % MILLISECOND == 0
    ensures Min(ns, MAX_NATIVE_TIMEOUT) <= NormalizeTimeout(ns)
    ensures ns > 0 ==> NormalizeTimeout(ns) < ns + MILLISECOND
  {
  }

  /**
    A serial port. The `k`-th native call given a timeout `t` lasts `elapsed(k, t)`, and moves
    what `moved(k)` says of what it was offered. `openAt(k)` is what the `k`-th load of the
    session's lifecycle finds.
   */
  class SerialPort {
    const moved: nat -> Transfer
    const incoming: nat -> byte
    const elapsed: (nat, nat) -> nat
    const settable: nat -> bool
    const pending: nat -> Option<nat>
    const openAt: nat -> bool
    var calls: nat
    var loads: nat
    var consumed: nat
    var clock: nat
    /** Bytes the port has accepted, and every native timeout that was set. */
    ghost var accepted: seq<byte>
    ghost var timeouts: seq<nat>

    constructor (
      moved: nat -> Transfer, incoming: nat -> byte, elapsed: (nat, nat) -> nat, settable: nat -> bool,
      pending: nat -> Option<nat>, openAt: nat -> bool)
      ensures this.moved == moved && this.incoming == incoming && this.elapsed == elapsed
      ensures this.settable == settable && this.pending == pending && this.openAt == openAt
      ensures accepted == [] && timeouts == []
    {
      this.moved := moved;
      this.incoming := incoming;
      this.elapsed := elapsed;
      this.settable := settable;
      this.pending := pending;
      this.openAt := openAt;
      calls, loads, consumed, clock := 0, 0, 0, 0;
      accepted, timeouts := [], [];
    }

    /** A native call that moves nothing takes time: without this a port could spin forever. */
    ghost predicate Ticking() { forall k, t {:trigger elapsed(k, t)} :: moved(k).Retry? ==> elapsed(k, t) >= 1 }

    /** Native calls honour their timeout. */
    ghost predicate Punctual() { forall k, t :: elapsed(k, t) <= t }

    method IsOpen() returns (open: bool)
      modifies this`loads
      ensures loads == old(loads) + 1 && open == openAt(old(loads))
    {
      open := openAt(loads);
      loads := loads + 1;
    }

    method SetTimeout(t: nat) returns (ok: bool)
      modifies this`timeouts
      ensures timeouts == old(timeouts) + [t]
      ensures ok == settable(calls)
    {
      ok := settable(calls);
      timeouts := timeouts + [t];
    }

    /** Offers bytes to the port; it accepts a prefix of them. */
    method Write(bytes: seq<byte>, t: nat) returns (r: Transfer)
      modifies this`calls, this`clock, this`accepted
      ensures calls == old(calls) + 1 && clock == old(clock) + elapsed(old(calls), t)
      ensures r == (if moved(old(calls)).Moved? then Moved(Min(moved(old(calls)).count, |bytes|)) else moved(old(calls)))
      ensures r.Moved? ==> r.count <= |bytes| && accepted == old(accepted) + bytes[..r.count]
      ensures !r.Moved? ==> accepted == old(accepted)
    {
      r := moved(calls);
      if r.Moved? {
        r := Moved(Min(r.count, |bytes|));
        accepted := accepted + bytes[..r.count];
      }
      clock := clock + elapsed(calls, t);
      calls := calls + 1;
    }

    /** Reads at most `max` of the bytes still to come. */
    method Read(max: nat, t: nat) returns (r: Transfer, data: seq<byte>)
      modifies this`calls, this`clock, this`consumed
      ensures calls == old(calls) + 1 && clock == old(clock) + elapsed(old(calls), t)
      ensures r == (if moved(old(calls)).Moved? then Moved(Min(moved(old(calls)).count, max)) else moved(old(calls)))
      ensures r.Moved? ==> |data| == r.count <= max && consumed == old(consumed) + r.count
                           && forall i :: 0 <= i < |data| ==> data[i] == incoming(old(consumed) + i)
      ensures !r.Moved? ==> data == [] && consumed == old(consumed)
    {
      r, data := moved(calls), [];
      if r.Moved? {
        r := Moved(Min(r.count, max));
        data := seq(r.count, i requires 0 <= i reads this => incoming(consumed + i));
        consumed := consumed + r.count;
      }
      clock := clock + elapsed(calls, t);
      calls := calls + 1;
    }

    method Pending() returns (r: Option<nat>)
      modifies this`calls
      ensures calls == old(calls) + 1 && r == pending(old(calls))
    {
      r := pending(calls);
      calls := calls + 1;
    }

    /** A sleep of `d` lasts `d` and whatever `elapsed` adds. */
    method Sleep(d: nat)
      modifies this`calls, this`clock
      ensures calls == old(calls) + 1 && clock == old(clock) + d + elapsed(old(calls), 0)
    {
      clock := clock + d + elapsed(calls, 0);
      calls := calls + 1;
    }
  }

  function Remaining(deadline: nat, clock: nat): nat { if deadline > clock then deadline - clock else 0 }

  ghost predicate TimeoutsInRange(timeouts: seq<nat>, from: nat) {
    forall i :: from <= i < |timeouts| ==> MILLISECOND <= timeouts[i] <= MAX_NATIVE_TIMEOUT
  }

  /** What the port accepted since `before` is the first `n` bytes. */
  ghost predicate AcceptedPrefix(before: seq<byte>, after: seq<byte>, bytes: seq<byte>, n: nat) {
    n <= |bytes| && after == before + bytes[..n]
  }

  lemma PrefixGrows(bytes: seq<byte>, n: nat, count: nat)
    requires n + count <= |bytes|
    ensures bytes[..n] + bytes[n..][..count] == bytes[..n + count] && bytes[n..][count..] == bytes[n + count..]
  {
  }

  /** The last load of the session's lifecycle, of those since `from`, found it closed. */
  ghost predicate LastLoadClosed(port: SerialPort, from: nat)
    reads port
  {
    port.loads > from && !port.openAt(port.loads - 1)
  }

  /** The last native call, of those since `from`, failed. */
  ghost predicate LastCallBroke(port: SerialPort, from: nat)
    reads port
  {
    port.calls > from && port.moved(port.calls - 1).Broken?
  }

  /** The last native call, of those since `from`, moved nothing although it was offered room for `room` bytes. */
  ghost predicate LastCallEmpty(port: SerialPort, from: nat, room: nat)
    reads port
  {
    port.calls > from && port.moved(port.calls - 1).Moved? && Min(port.moved(port.calls - 1).count, room) == 0
  }

  /**
    What precedes every native transfer: the session must be open and time must be left; the native
    timeout is set to it. It is a millisecond too long at most.
   */
  method Prepare(port: SerialPort, deadline: nat) returns (r: Result<nat, IoError>)
    modifies port`loads, port`timeouts
    ensures port.loads == old(port.loads) + 1 && (r == Err(SessionClosed) <==> !port.openAt(old(port.loads)))
    ensures r == Err(Timeout) <==> port.openAt(old(port.loads)) && port.clock >= deadline
    ensures r == Err(Native) <==> port.openAt(old(port.loads)) && port.clock < deadline && !port.settable(port.calls)
    ensures r != Err(Disconnected)
    ensures r.Ok? ==> port.clock < deadline && port.clock + r.value < deadline + MILLISECOND
    ensures |port.timeouts| >= |old(port.timeouts)| && port.timeouts[..|old(port.timeouts)|] == old(port.timeouts)
    ensures TimeoutsInRange(port.timeouts, |old(port.timeouts)|)
  {
    var open := port.IsOpen();
    if !open { return Err(SessionClosed); }
    var remaining := Remaining(deadline, port.clock);
    if remaining == 0 { return Err(Timeout); }
    var timeout := NormalizeTimeout(remaining);
    NormalizedTimeout(remaining);
    var accepted := port.SetTimeout(timeout);
    if !accepted { return Err(Native); }
    r := Ok(timeout);
  }

  /** One turn of the write loop: the bytes a native write took, none when it is to be repeated. */
  method WriteOnce(port: SerialPort, rest: seq<byte>, deadline: nat) returns (r: Result<nat, IoError>)
    requires port.Ticking() && rest != []
    modifies port
    ensures port.loads == old(port.loads) + 1 && port.calls >= old(port.calls) && port.clock >= old(port.clock)
    ensures r.Ok? ==> r.value <= |rest| && port.accepted == old(port.accepted) + rest[..r.value]
    ensures r.Ok? && r.value == 0 ==> Remaining(deadline, port.clock) < Remaining(deadline, old(port.clock))
    ensures r.Err? ==> port.accepted == old(port.accepted)
    ensures r == Err(Timeout) ==> port.clock >= deadline
    ensures r == Err(SessionClosed) <==> LastLoadClosed(port, old(port.loads))
    ensures r == Err(Disconnected) <==> LastCallEmpty(port, old(port.calls), 1)
    ensures LastCallBroke(port, old(port.calls)) ==> r == Err(Native)
    ensures r == Err(Native) ==> LastCallBroke(port, old(port.calls)) || !port.settable(port.calls)
    ensures r.Ok? ==> port.calls > old(port.calls)
    ensures |port.timeouts| >= |old(port.timeouts)| && port.timeouts[..|old(port.timeouts)|] == old(port.timeouts)
    ensures TimeoutsInRange(port.timeouts, |old(port.timeouts)|)
    ensures port.Punctual() && old(port.clock) < deadline + MILLISECOND ==> port.clock < deadline + MILLISECOND
  {
    var timeout := Prepare(port, deadline);
    if timeout.Err? { return Err(timeout.error); }
    var written := port.Write(rest, timeout.value);
    match written
    case Moved(count) => r := if count == 0 then Err(Disconnected) else Ok(count);
    case Retry => r := Ok(0);
    case Broken => r := Err(Native);
  }

  /**
    Writes all bytes or fails. Whatever partial writes, interrupts and timeouts occur, the port has
    accepted a prefix of the bytes, all of them on success; each failure has its cause; and with
    punctual native calls the operation is over less than 1 ms past its deadline.
   */
  method WriteAllBounded(port: SerialPort, bytes: seq<byte>, deadline: nat) returns (r: Result<(), IoError>, ghost n: nat)
    requires port.Ticking()
    modifies port
    ensures AcceptedPrefix(old(port.accepted), port.accepted, bytes, n)
    ensures r.Ok? <==> n == |bytes|
    ensures r == Err(SessionClosed) <==> LastLoadClosed(port, old(port.loads))
    ensures r == Err(Disconnected) <==> LastCallEmpty(port, old(port.calls), 1)
    ensures LastCallBroke(port, old(port.calls)) ==> r == Err(Native)
    ensures r == Err(Native) ==> LastCallBroke(port, old(port.calls)) || !port.settable(port.calls)
    ensures r == Err(Timeout) ==> port.clock >= deadline
    ensures |port.timeouts| >= |old(port.timeouts)| && TimeoutsInRange(port.timeouts, |old(port.timeouts)|)
    ensures port.Punctual() && old(port.clock) <= deadline ==> port.clock < deadline + MILLISECOND
  {
    var rest := bytes;
    n := 0;
    while rest != []
      invariant AcceptedPrefix(old(port.accepted), port.accepted, bytes, n) && rest == bytes[n..]
      invariant port.loads >= old(port.loads) && port.calls >= old(port.calls)
      invariant !LastLoadClosed(port, old(port.loads)) && !LastCallBroke(port, old(port.calls))
      invariant !LastCallEmpty(port, old(port.calls), 1)
      invariant |port.timeouts| >= |old(port.timeouts)| && TimeoutsInRange(port.timeouts, |old(port.timeouts)|)
      invariant port.Punctual() && old(port.clock) <= deadline ==> port.clock < deadline + MILLISECOND
      decreases |rest| + Remaining(deadline, port.clock)
    {
      var written := WriteOnce(port, rest, deadline);
      if written.Err? { return Err(written.error), n; }
      PrefixGrows(bytes, n, written.value);
      rest := rest[written.value..];
      n := n + written.value;
    }
    r := Ok(());
  }

  /**
    Reads once data arrives. The result is what came next on the line, at least one byte and at
    most `max`; nothing is consumed otherwise.
   */
  method ReadBounded(port: SerialPort, max: nat, deadline: nat) returns (r: Result<seq<byte>, IoError>)
    requires port.Ticking()
    modifies port
    ensures r.Ok? <==> port.calls > old(port.calls) && port.moved(port.calls - 1).Moved? && Min(port.moved(port.calls - 1).count, max) > 0
    ensures r.Ok? ==> 1 <= |r.value| <= max && port.consumed == old(port.consumed) + |r.value|
    ensures r.Ok? ==> forall i :: 0 <= i < |r.value| ==> r.value[i] == port.incoming(old(port.consumed) + i)
    ensures r.Err? ==> port.consumed == old(port.consumed)
    ensures r == Err(SessionClosed) <==> LastLoadClosed(port, old(port.loads))
    ensures r == Err(Disconnected) <==> LastCallEmpty(port, old(port.calls), max)
    ensures LastCallBroke(port, old(port.calls)) ==> r == Err(Native)
    ensures r == Err(Native) ==> LastCallBroke(port, old(port.calls)) || !port.settable(port.calls)
    ensures port.accepted == old(port.accepted)
    ensures r == Err(Timeout) ==> port.clock >= deadline
    ensures |port.timeouts| >= |old(port.timeouts)| && TimeoutsInRange(port.timeouts, |old(port.timeouts)|)
    ensures port.Punctual() && old(port.clock) <= deadline ==> port.clock < deadline + MILLISECOND
  {
    while true
      invariant port.consumed == old(port.consumed) && port.accepted == old(port.accepted)
      invariant !LastLoadClosed(port, old(port.loads)) && !LastCallBroke(port, old(port.calls))
      invariant port.calls > old(port.calls) ==> port.moved(port.calls - 1).Retry?
      invariant port.loads >= old(port.loads) && port.calls >= old(port.calls)
      invariant |port.timeouts| >= |old(port.timeouts)| && TimeoutsInRange(port.timeouts, |old(port.timeouts)|)
      invariant port.Punctual() && old(port.clock) <= deadline ==> port.clock < deadline + MILLISECOND
      decreases Remaining(deadline, port.clock)
    {
      var timeout := Prepare(port, deadline);
      if timeout.Err? { return Err(timeout.error); }
      var read, data := port.Read(max, timeout.value);
      match read {
        case Moved(count) =>
          if count == 0 { return Err(Disconnected); }
          return Ok(data);
        case Retry =>
        case Broken => return Err(Native);
      }
    }
  }

  /** Polls and sleeps alternate: the calls at even distance from the first are polls. */
  predicate Polled(first: nat, calls: nat, k: nat) { first <= k < calls && (k - first) % 2 == 0 }

  ghost predicate LastPoll(port: SerialPort, first: nat)
    reads port
  {
    port.calls > first && Polled(first, port.calls, port.calls - 1)
  }

  /** One turn of the flush loop: whether the queue was reported empty, and the sleep if it was not. */
  method PollOnce(port: SerialPort, deadline: nat) returns (r: Result<bool, IoError>)
    modifies port`loads, port`calls, port`clock
    ensures port.loads == old(port.loads) + 1 && (r == Err(SessionClosed) <==> !port.openAt(old(port.loads)))
    ensures r == Err(Timeout) <==> port.openAt(old(port.loads)) && old(port.clock) >= deadline
    ensures r == Err(SessionClosed) || r == Err(Timeout) ==> port.calls == old(port.calls) && port.clock == old(port.clock)
    ensures r == Err(Native) ==> port.calls == old(port.calls) + 1 && port.pending(old(port.calls)).None? && port.clock == old(port.clock)
    ensures r == Ok(true) ==> port.calls == old(port.calls) + 1 && port.pending(old(port.calls)) == Some(0) && port.clock == old(port.clock)
    ensures r == Ok(false) ==>
              && port.calls == old(port.calls) + 2 && port.pending(old(port.calls)).Some? && port.pending(old(port.calls)) != Some(0)
              && port.clock == old(port.clock) + Min(deadline - old(port.clock), FLUSH_POLL_INTERVAL) + port.elapsed(old(port.calls) + 1, 0)
    ensures r.Ok? ==> old(port.clock) < deadline
    ensures r.Err? ==> r.error.SessionClosed? || r.error.Timeout? || r.error.Native?
  {
    var open := port.IsOpen();
    if !open { return Err(SessionClosed); }
    var remaining := Remaining(deadline, port.clock);
    if remaining == 0 { return Err(Timeout); }
    var pending := port.Pending();
    if pending.None? { return Err(Native); }
    if pending.value == 0 { return Ok(true); }
    port.Sleep(Min(remaining, FLUSH_POLL_INTERVAL));
    r := Ok(false);
  }

  /**
    Polls until the output queue is empty: it succeeds exactly at the first poll that reports so. With
    exact sleeps it never outlasts the deadline, and between two polls at most the interval passes.
   */
  method FlushBounded(port: SerialPort, deadline: nat) returns (r: Result<(), IoError>)
    modifies port
    ensures port.accepted == old(port.accepted) && port.consumed == old(port.consumed) && port.timeouts == old(port.timeouts)
    ensures r.Ok? ==> LastPoll(port, old(port.calls)) && port.pending(port.calls - 1) == Some(0) && port.clock < deadline
    ensures forall k :: Polled(old(port.calls), port.calls, k) && port.pending(k) == Some(0) ==> r.Ok? && k == port.calls - 1
    ensures r == Err(Timeout) ==> port.clock >= deadline
    ensures (forall k :: port.elapsed(k, 0) == 0) && old(port.clock) <= deadline ==>
              && port.clock <= deadline
              && 2 * (port.clock - old(port.clock)) <= FLUSH_POLL_INTERVAL * (port.calls - old(port.calls))
    ensures r == Err(SessionClosed) <==> LastLoadClosed(port, old(port.loads))
    ensures r == Err(Native) <==> LastPoll(port, old(port.calls)) && port.pending(port.calls - 1).None?
    ensures r != Err(Disconnected)
  {
    while true
      invariant port.accepted == old(port.accepted) && port.consumed == old(port.consumed) && port.timeouts == old(port.timeouts)
      invariant (forall k :: port.elapsed(k, 0) == 0) && old(port.clock) <= deadline ==>
                  && port.clock <= deadline
                  && 2 * (port.clock - old(port.clock)) <= FLUSH_POLL_INTERVAL * (port.calls - old(port.calls))
      invariant !LastLoadClosed(port, old(port.loads)) && port.loads >= old(port.loads) && port.calls >= old(port.calls)
      invariant (port.calls - old(port.calls)) % 2 == 0
      invariant forall k :: Polled(old(port.calls), port.calls, k) ==> port.pending(k) != Some(0)
      decreases Remaining(deadline, port.clock)
    {
      var empty := PollOnce(port, deadline);
      if empty.Err? { return Err(empty.error); }
      if empty.value { return Ok(()); }
    }
  }
}
