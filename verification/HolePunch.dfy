/** The hole-punching loop and its back-off (vntcrustdesk-src/src/common.rs:2231-2280). Times are in
    nanoseconds; every reading of the clock in the source is a separate reading here. */
module HolePunch {
  import opened Basics

  const MS: nat := 1_000_000
  const FIRST_INTERVAL_MS: nat := 20
  const MAX_INTERVAL_MS: nat := 200
  const MAX_TIME: nat := 20_000 * MS

  /** A sleep is asked for in seconds as an `f32`, whose rounding costs a nanosecond at most; the timer
      itself never wakes early. */
  const ROUNDING: nat := 1

  /** What the select wakes up with: the sleep, with the readings of `tm.elapsed()`, of
      `last_send_time.elapsed()` and of the new send time; or the socket, with the time it does so. */
  datatype Event =
    | Slept(deadlineRead: int, elapsedRead: int, sendRead: int)
    | Received(at: int, length: nat)
    | ReceiveError

  datatype Result = TimedOut | Failed | Peer(data: Option<nat>) | StillWaiting

  datatype Loop = Loop(intervalMs: nat, packets: nat, lastSend: int)

  /** The source multiplies by 1.5 in floating point and truncates; exact for these numbers. */
  function Backoff(intervalMs: nat): nat {
    Min(intervalMs * 3 / 2, MAX_INTERVAL_MS)
  }

  function AfterSleep(l: Loop, e: Event): Loop
    requires e.Slept?
  {
    if e.elapsedRead - l.lastSend >= l.intervalMs * MS
    then Loop(Backoff(l.intervalMs), l.packets + 1, e.sendRead)
    else l
  }

  /** The loop over the events, from the state `l`. */
  function Run(start: int, listen: bool, l: Loop, events: seq<Event>): (Result, Loop)
    decreases |events|
  {
    if events == [] then (StillWaiting, l) else
      match events[0]
      case Slept(deadlineRead, _, _) =>
        if deadlineRead - start > MAX_TIME then (TimedOut, l)
        else Run(start, listen, AfterSleep(l, events[0]), events[1..])
      case ReceiveError => (Failed, l)
      case Received(_, n) =>
        if listen then if n == 0 then Run(start, listen, l, events[1..]) else (Peer(Some(n)), l)
        else (Peer(None), l)
  }

  /** `punch_udp` with the first send at `firstSend` and the deadline counted from `start`. */
  method PunchUdp(firstSend: int, start: int, listen: bool, events: seq<Event>) returns (r: Result, packets: nat)
    ensures r == Run(start, listen, Loop(FIRST_INTERVAL_MS, 1, firstSend), events).0
    ensures packets == Run(start, listen, Loop(FIRST_INTERVAL_MS, 1, firstSend), events).1.packets
  {
    var retryInterval := FIRST_INTERVAL_MS;
    packets := 1;
    var lastSend := firstSend;
    var k := 0;
    while k < |events|
      invariant k <= |events|
      invariant Run(start, listen, Loop(FIRST_INTERVAL_MS, 1, firstSend), events)
                == Run(start, listen, Loop(retryInterval, packets, lastSend), events[k..])
      decreases |events| - k
    {
      assert events[k..][1..] == events[k + 1..];
      match events[k] {
      case Slept(deadlineRead, elapsedRead, sendRead) =>
        if deadlineRead - start > MAX_TIME {
          return TimedOut, packets;
        }
        if elapsedRead - lastSend >= retryInterval * MS {
          packets := packets + 1;
          retryInterval := Min(retryInterval * 3 / 2, MAX_INTERVAL_MS);
          lastSend := sendRead;
        }
      case ReceiveError =>
        return Failed, packets;
      case Received(_, n) =>
        if listen {
          if n != 0 {
            return Peer(Some(n)), packets;
          }
        } else {
          return Peer(None), packets;
        }
      }
      k := k + 1;
    }
    return StillWaiting, packets;
  }

  // ----- the back-off -----

  /** The wait before packet `n + 1`. */
  function Interval(n: nat): nat
    requires n >= 1
  {
    if n == 1 then FIRST_INTERVAL_MS else Backoff(Interval(n - 1))
  }

  lemma {:induction false} IntervalShape(n: nat)
    requires n >= 1
    ensures FIRST_INTERVAL_MS <= Interval(n) <= Interval(n + 1) <= MAX_INTERVAL_MS
    ensures n >= 7 ==> Interval(n) == MAX_INTERVAL_MS
    ensures Interval(1) == 20 && Interval(2) == 30 && Interval(3) == 45 && Interval(4) == 67
    ensures Interval(5) == 100 && Interval(6) == 150
  {
    assert Interval(2) == 30;
    assert Interval(3) == 45;
    assert Interval(4) == 67;
    assert Interval(5) == 100;
    assert Interval(6) == 150;
    assert Interval(7) == 200;
    if n > 1 {
      IntervalShape(n - 1);
    }
  }

  /** The least time, in milliseconds, between the first packet and packet `n`. */
  function Earliest(n: nat): nat
    requires n >= 1
  {
    if n == 1 then 0 else Earliest(n - 1) + Interval(n - 1)
  }

  lemma {:induction false} EarliestFrom7(n: nat)
    requires n >= 7
    ensures Earliest(n) == 412 + 200 * (n - 7)
  {
    if n == 7 {
      IntervalShape(1);
      assert Earliest(2) == 20;
      assert Earliest(3) == 50;
      assert Earliest(4) == 95;
      assert Earliest(5) == 162;
      assert Earliest(6) == 262;
    } else {
      EarliestFrom7(n - 1);
      IntervalShape(n - 1);
    }
  }

  /** The packets sent by a whole run. */
  function Packets(firstSend: int, start: int, listen: bool, events: seq<Event>): nat {
    Run(start, listen, Loop(FIRST_INTERVAL_MS, 1, firstSend), events).1.packets
  }

  /** Whatever happens, the retry interval is the back-off sequence's entry for the number of packets sent. */
  lemma {:induction false} IntervalStays(start: int, listen: bool, l: Loop, events: seq<Event>)
    requires l.packets >= 1 && l.intervalMs == Interval(l.packets)
    ensures var l' := Run(start, listen, l, events).1;
            l'.packets >= l.packets && l'.intervalMs == Interval(l'.packets)
    decreases |events|
  {
    if events != [] {
      match events[0]
      case Slept(a, _, _) =>
        if a - start <= MAX_TIME {
          IntervalStays(start, listen, AfterSleep(l, events[0]), events[1..]);
        }
      case Received(_, n) =>
        if listen && n == 0 {
          IntervalStays(start, listen, l, events[1..]);
        }
      case ReceiveError =>
    }
  }

  /** So through a whole run it never shrinks and stays between 20 and 200 ms. */
  lemma IntervalInRun(start: int, listen: bool, firstSend: int, events: seq<Event>)
    ensures var l := Run(start, listen, Loop(FIRST_INTERVAL_MS, 1, firstSend), events).1;
            && l.packets >= 1 && l.intervalMs == Interval(l.packets)
            && FIRST_INTERVAL_MS <= l.intervalMs <= MAX_INTERVAL_MS
  {
    var l0 := Loop(FIRST_INTERVAL_MS, 1, firstSend);
    IntervalStays(start, listen, l0, events);
    IntervalShape(Run(start, listen, l0, events).1.packets);
  }

  // ----- how many packets -----

  /** The clock along a run: no reading is before the one before it, and a wake-up comes after the whole
      sleep that the select began after that reading, short of `early` at most. A datagram ends the sleep,
      and the next select begins a new one. */
  ghost predicate Timed(start: int, listen: bool, early: nat, now: int, l: Loop, events: seq<Event>)
    decreases |events|
  {
    events == [] ||
    match events[0]
    case Slept(a, b, c) =>
      && now <= a <= b <= c && now + l.intervalMs * MS <= a + early
      && (a - start <= MAX_TIME ==> Timed(start, listen, early, c, AfterSleep(l, events[0]), events[1..]))
    case Received(at, n) =>
      now <= at && (listen && n == 0 ==> Timed(start, listen, early, at, l, events[1..]))
    case ReceiveError => true
  }

  /** The clock along a whole run of `punch_udp`. */
  ghost predicate TimedRun(firstSend: int, start: int, listen: bool, early: nat, events: seq<Event>) {
    firstSend <= start && Timed(start, listen, early, start, Loop(FIRST_INTERVAL_MS, 1, firstSend), events)
  }

  /** Counted from the start of the limit, no packet was early by more than one sleep may be. */
  ghost predicate OnSchedule(start: int, early: nat, now: int, l: Loop) {
    && l.packets >= 1
    && l.intervalMs == Interval(l.packets)
    && l.lastSend <= now && start <= now
    && (l.packets >= 2 ==> start + Earliest(l.packets) * MS <= l.lastSend + early)
  }

  lemma StepOnSchedule(start: int, early: nat, now: int, l: Loop, e: Event)
    requires OnSchedule(start, early, now, l) && e.Slept?
    requires now <= e.deadlineRead <= e.elapsedRead <= e.sendRead
    requires now + l.intervalMs * MS <= e.deadlineRead + early
    ensures OnSchedule(start, early, e.sendRead, AfterSleep(l, e))
    ensures start + Earliest(l.packets + 1) * MS <= e.deadlineRead + 2 * early
    ensures l.packets <= AfterSleep(l, e).packets <= l.packets + 1
  {
    assert Earliest(l.packets + 1) == Earliest(l.packets) + Interval(l.packets);
    assert Earliest(1) == 0;
  }

  /** Every packet but the first belongs to a wake-up within the limit. */
  lemma {:induction false} SentInTime(start: int, listen: bool, early: nat, now: int, l: Loop, events: seq<Event>)
    requires OnSchedule(start, early, now, l) && Timed(start, listen, early, now, l, events)
    ensures var n := Run(start, listen, l, events).1.packets;
            && n >= l.packets >= 1
            && (n > l.packets ==> Earliest(n) * MS <= MAX_TIME + 2 * early)
    decreases |events|
  {
    if events != [] {
      match events[0]
      case Slept(a, b, c) =>
        if a - start <= MAX_TIME {
          StepOnSchedule(start, early, now, l, events[0]);
          hide Earliest, Interval, AfterSleep, OnSchedule;
          SentInTime(start, listen, early, c, AfterSleep(l, events[0]), events[1..]);
        }
      case Received(at, n) =>
        if listen && n == 0 {
          SentInTime(start, listen, early, at, l, events[1..]);
        }
      case ReceiveError =>
    }
  }

  /** No run sends more than 104 packets, whatever the time between the first send and the start of the
      limit and between the readings of a wake-up. */
  lemma AtMost104(firstSend: int, start: int, listen: bool, events: seq<Event>)
    requires TimedRun(firstSend, start, listen, ROUNDING, events)
    ensures Packets(firstSend, start, listen, events) <= 104
  {
    SentInTime(start, listen, ROUNDING, start, Loop(FIRST_INTERVAL_MS, 1, firstSend), events);
    var n := Packets(firstSend, start, listen, events);
    if n > 7 {
      EarliestFrom7(n);
    }
  }

  // ----- the bound is attained -----

  /** A wake-up at the end of the sleep for every packet from `n + 1` to `last`. */
  function OnTime(n: nat, last: nat): seq<Event>
    requires 1 <= n <= last
    decreases last - n
  {
    if n == last then [] else
      var t := Earliest(n + 1) * MS;
      [Slept(t, t, t)] + OnTime(n + 1, last)
  }

  /** As long as the limit allows it, each of these wake-ups sends. */
  lemma {:induction false} OnTimeSends(n: nat, last: nat, early: nat)
    requires 1 <= n <= last && Earliest(last) * MS <= MAX_TIME
    ensures Earliest(n) * MS <= MAX_TIME
    ensures var l := Loop(Interval(n), n, Earliest(n) * MS);
            && Run(0, false, l, OnTime(n, last)).1.packets == last
            && Timed(0, false, early, Earliest(n) * MS, l, OnTime(n, last))
    decreases last - n
  {
    if n < last {
      OnTimeSends(n + 1, last, early);
      var t := Earliest(n + 1) * MS;
      assert Earliest(n + 1) == Earliest(n) + Interval(n);
      assert AfterSleep(Loop(Interval(n), n, Earliest(n) * MS), Slept(t, t, t)) == Loop(Interval(n + 1), n + 1, t);
      hide Earliest, Interval, AfterSleep;
      assert OnTime(n, last)[1..] == OnTime(n + 1, last);
    }
  }

  /** A run whose sleeps all end on time sends 104. */
  lemma Reaches104(early: nat) returns (events: seq<Event>)
    ensures TimedRun(0, 0, false, early, events) && Packets(0, 0, false, events) == 104
  {
    EarliestFrom7(104);
    events := OnTime(1, 104);
    OnTimeSends(1, 104, early);
    assert Earliest(1) == 0;
  }

  // ----- when the limit is noticed -----

  /** The event leaves the loop running: a sleep that ends within 20 seconds of the start, or an empty datagram
      at a listener. */
  predicate Passes(start: int, listen: bool, e: Event) {
    match e
    case Slept(a, _, _) => a - start <= 20_000_000_000
    case Received(_, n) => listen && n == 0
    case ReceiveError => false
  }

  /** What a wake-up does: if the whole interval has passed since the last packet, it sends one, notes the time
      after sending, and makes the interval half as long again, in whole milliseconds up to 200; otherwise
      nothing. */
  lemma WakeUpExactly(l: Loop, e: Event)
    requires e.Slept?
    ensures var l', due := AfterSleep(l, e), l.lastSend + 1_000_000 * l.intervalMs <= e.elapsedRead;
            && (!due ==> l' == l)
            && (due ==> l'.packets == l.packets + 1 && l'.lastSend == e.sendRead
                        && if 3 * l.intervalMs >= 400 then l'.intervalMs == 200
                           else 2 * l'.intervalMs <= 3 * l.intervalMs < 2 * l'.intervalMs + 2)
  {
  }

  /** The wake-ups among the events. */
  function WakeUps(events: seq<Event>): nat {
    if events == [] then 0 else (if events[0].Slept? then 1 else 0) + WakeUps(events[1..])
  }

  /** The loop reads events up to the first that does not leave it running, and that one decides the result: it
      gives up at a sleep that ends after the limit, and fails or succeeds with what the socket brings. If no
      sleep is cut short, every wake-up before that sends a packet. */
  lemma {:induction false} ResultExactly(start: int, listen: bool, now: int, l: Loop, events: seq<Event>)
    returns (k: nat)
    ensures k <= |events| && forall j :: 0 <= j < k ==> Passes(start, listen, events[j])
    ensures k < |events| ==> !Passes(start, listen, events[k])
    ensures Run(start, listen, l, events).0 ==
            if k == |events| then StillWaiting
            else match events[k]
                 case Slept(_, _, _) => TimedOut
                 case Received(_, n) => Peer(if listen then Some(n) else None)
                 case ReceiveError => Failed
    ensures l.lastSend <= now && Timed(start, listen, 0, now, l, events) ==>
              Run(start, listen, l, events).1.packets == l.packets + WakeUps(events[..k])
    decreases |events|
  {
    k := 0;
    if events != [] && Passes(start, listen, events[0]) {
      var e, rest := events[0], events[1..];
      var l' := if e.Slept? then AfterSleep(l, e) else l;
      var m := ResultExactly(start, listen, if e.Slept? then e.sendRead else e.at, l', rest);
      k := 1 + m;
      assert events[..k][1..] == rest[..m];
      assert forall j :: 0 < j < |events| ==> events[j] == rest[j - 1];
    }
  }

  /** A whole run of `punch_udp` in these terms: the packets sent are the first and one for each wake-up within
      the limit. */
  lemma PacketsExactly(firstSend: int, start: int, listen: bool, events: seq<Event>) returns (k: nat)
    requires TimedRun(firstSend, start, listen, 0, events)
    ensures k <= |events| && forall j :: 0 <= j < k ==> Passes(start, listen, events[j])
    ensures k < |events| ==> !Passes(start, listen, events[k])
    ensures Packets(firstSend, start, listen, events) == 1 + WakeUps(events[..k])
  {
    k := ResultExactly(start, listen, start, Loop(FIRST_INTERVAL_MS, 1, firstSend), events);
  }

  /** The loop gives up exactly at a sleep that ends after the limit; a datagram never makes it look. */
  lemma TimesOutExactly(start: int, listen: bool, l: Loop, events: seq<Event>)
    ensures Run(start, listen, l, events).0 == TimedOut <==>
            exists k :: 0 <= k < |events| && events[k].Slept? && events[k].deadlineRead - start > MAX_TIME
                        && forall j :: 0 <= j < k ==> Passes(start, listen, events[j])
  {
    var n := ResultExactly(start, listen, l.lastSend, l, events);
    if k :| 0 <= k < |events| && events[k].Slept? && events[k].deadlineRead - start > MAX_TIME
            && forall j :: 0 <= j < k ==> Passes(start, listen, events[j]) {
      assert k == n;
    }
  }

  /** Empty datagrams every 10 ms from time `at` on, so that no sleep ends between two of them. */
  function Keepalives(at: int, count: nat): (events: seq<Event>)
    ensures |events| == count
    decreases count
  {
    if count == 0 then [] else [Received(at, 0)] + Keepalives(at + 10 * MS, count - 1)
  }

  lemma {:induction false} KeepaliveAt(at: int, count: nat, k: nat)
    requires k < count
    ensures Keepalives(at, count)[k] == Received(at + 10 * MS * k, 0)
    decreases count
  {
    if k > 0 {
      KeepaliveAt(at + 10 * MS, count - 1, k - 1);
    }
  }

  /** A listener that keeps getting empty datagrams neither gives up nor sends, for as long as they come. */
  lemma {:induction false} DatagramsPostponeTheLimit(start: int, now: int, l: Loop, at: int, count: nat)
    requires now <= at
    ensures Run(start, true, l, Keepalives(at, count)) == (StillWaiting, l)
    ensures Timed(start, true, 0, now, l, Keepalives(at, count))
    ensures forall k :: 0 <= k < count ==> Keepalives(at, count)[k] == Received(at + 10 * MS * k, 0)
    decreases count
  {
    forall k | 0 <= k < count ensures Keepalives(at, count)[k] == Received(at + 10 * MS * k, 0) {
      KeepaliveAt(at, count, k);
    }
    if count > 0 {
      DatagramsPostponeTheLimit(start, at, l, at + 10 * MS, count - 1);
      assert Keepalives(at, count)[1..] == Keepalives(at + 10 * MS, count - 1);
    }
  }
}
