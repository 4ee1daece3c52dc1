/** The throttled timer (vntcrustdesk-src/src/common.rs:1763-1800). */
module Throttle {
  import opened Basics

  /** One poll: the instant of the inner interval if it is ready, and the time read then. */
  datatype Poll = Poll(inner: Option<int>, now: int)

  class ThrottledInterval {
    var nextTick: int
    const minInterval: nat

    /** `minInterval` is nine tenths of the inner period, which tokio requires to be positive. */
    constructor (now: int, minInterval: nat)
      requires minInterval > 0
      ensures nextTick == now && this.minInterval == minInterval
    {
      nextTick, this.minInterval := now, minInterval;
    }

    method PollTick(p: Poll) returns (ready: Option<int>)
      modifies this
      ensures ready == if Fires(old(nextTick), p) then p.inner else None
      ensures nextTick == AfterPoll(old(nextTick), minInterval, p)
      ensures p.inner.Some? && old(nextTick) <= p.now ==> ready == p.inner && nextTick == p.now + minInterval
      ensures p.inner.None? || p.now < old(nextTick) ==> ready == None && nextTick == old(nextTick)
    {
      if p.inner.Some? {
        if nextTick <= p.now {
          nextTick := p.now + minInterval;
          return p.inner;
        }
        return None;
      }
      return None;
    }

    /** A whole sequence of polls, with the times of the ready ones. */
    method PollAll(polls: seq<Poll>) returns (ticks: seq<int>)
      modifies this
      ensures ticks == Ticks(old(nextTick), minInterval, polls)
    {
      ticks := [];
      ghost var all := Ticks(nextTick, minInterval, polls);
      for k := 0 to |polls|
        invariant all == ticks + Ticks(nextTick, minInterval, polls[k..])
      {
        assert polls[k..][1..] == polls[k + 1..];
        var ready := PollTick(polls[k]);
        if ready.Some? {
          ticks := ticks + [polls[k].now];
        }
      }
    }
  }

  predicate Fires(nextTick: int, p: Poll) {
    p.inner.Some? && nextTick <= p.now
  }

  function AfterPoll(nextTick: int, minInterval: nat, p: Poll): int {
    if Fires(nextTick, p) then p.now + minInterval else nextTick
  }

  function Ticks(nextTick: int, minInterval: nat, polls: seq<Poll>): seq<int>
    decreases |polls|
  {
    if polls == [] then []
    else (if Fires(nextTick, polls[0]) then [polls[0].now] else [])
         + Ticks(AfterPoll(nextTick, minInterval, polls[0]), minInterval, polls[1..])
  }

  ghost predicate Spaced(ticks: seq<int>, gap: nat) {
    forall k :: 0 <= k < |ticks| - 1 ==> ticks[k] + gap <= ticks[k + 1]
  }

  /** Whatever the inner interval does, ready ticks are at least `minInterval` apart. */
  lemma {:induction false} TicksSpaced(nextTick: int, minInterval: nat, polls: seq<Poll>)
    ensures var ticks := Ticks(nextTick, minInterval, polls);
            Spaced(ticks, minInterval) && (ticks != [] ==> nextTick <= ticks[0])
    decreases |polls|
  {
    if polls != [] {
      TicksSpaced(AfterPoll(nextTick, minInterval, polls[0]), minInterval, polls[1..]);
    }
  }

  /** The next tick after these ticks. */
  function Due(nextTick: int, minInterval: nat, ticks: seq<int>): int {
    if ticks == [] then nextTick else ticks[|ticks| - 1] + minInterval
  }

  lemma {:induction false} OneMorePoll(nextTick: int, minInterval: nat, polls: seq<Poll>, p: Poll)
    ensures var ticks := Ticks(nextTick, minInterval, polls);
            Ticks(nextTick, minInterval, polls + [p])
            == ticks + if Fires(Due(nextTick, minInterval, ticks), p) then [p.now] else []
    decreases |polls|
  {
    if polls == [] {
      assert ([] + [p])[1..] == [];
    } else {
      assert (polls + [p])[1..] == polls[1..] + [p];
      OneMorePoll(AfterPoll(nextTick, minInterval, polls[0]), minInterval, polls[1..], p);
    }
  }

  lemma {:induction false} SpacedFrom(ticks: seq<int>, gap: nat, k: nat)
    requires Spaced(ticks, gap) && k < |ticks|
    ensures ticks[0] <= ticks[k] <= ticks[|ticks| - 1]
    decreases |ticks|
  {
    if |ticks| > 1 {
      var last := |ticks| - 1;
      SpacedFrom(ticks[..last], gap, if k < last then k else last - 1);
    }
  }

  /** A poll ticks if and only if the inner interval is ready, the first tick is due, and the minimum interval
      has passed since every tick so far: none is withheld, and there are no others. */
  lemma TicksExactly(nextTick: int, minInterval: nat, polls: seq<Poll>, p: Poll)
    ensures var ticks := Ticks(nextTick, minInterval, polls);
            Ticks(nextTick, minInterval, polls + [p]) == ticks +
            if p.inner.Some? && nextTick <= p.now && forall k :: 0 <= k < |ticks| ==> ticks[k] + minInterval <= p.now
            then [p.now] else []
    ensures Ticks(nextTick, minInterval, []) == []
  {
    var ticks := Ticks(nextTick, minInterval, polls);
    OneMorePoll(nextTick, minInterval, polls, p);
    TicksSpaced(nextTick, minInterval, polls);
    forall k | 0 <= k < |ticks| ensures ticks[0] <= ticks[k] <= ticks[|ticks| - 1] {
      SpacedFrom(ticks, minInterval, k);
    }
  }

  /** How many ticks fall in the window from `a` to `b`. */
  function CountIn(ticks: seq<int>, a: int, b: int): nat {
    if ticks == [] then 0
    else (if a <= ticks[0] <= b then 1 else 0) + CountIn(ticks[1..], a, b)
  }

  lemma {:induction false} EarlierStartAddsNothing(ticks: seq<int>, gap: nat, a: int, lo: int, b: int)
    requires Spaced(ticks, gap) && a <= lo && (ticks != [] ==> lo <= ticks[0])
    ensures CountIn(ticks, a, b) == CountIn(ticks, lo, b)
  {
    if ticks != [] {
      EarlierStartAddsNothing(ticks[1..], gap, a, lo, b);
    }
  }

  lemma {:induction false} SpacedCount(ticks: seq<int>, gap: nat, a: int, b: int)
    requires Spaced(ticks, gap)
    ensures CountIn(ticks, a, b) > 0 ==> (CountIn(ticks, a, b) - 1) * gap <= b - a
    decreases |ticks|
  {
    if ticks != [] {
      if a <= ticks[0] <= b {
        var lo := ticks[0] + gap;
        SpacedCount(ticks[1..], gap, lo, b);
        EarlierStartAddsNothing(ticks[1..], gap, a, lo, b);
        var c := CountIn(ticks[1..], lo, b);
        assert c > 0 ==> c * gap == (c - 1) * gap + gap;
      } else {
        SpacedCount(ticks[1..], gap, a, b);
      }
    }
  }

  /** The rate bound: a window of length `span`, wherever it lies, holds at most
      `span / minInterval + 1` ready ticks. */
  lemma WindowBound(nextTick: int, minInterval: nat, polls: seq<Poll>, from: int, span: nat)
    requires minInterval > 0
    ensures CountIn(Ticks(nextTick, minInterval, polls), from, from + span) <= span / minInterval + 1
  {
    var ticks := Ticks(nextTick, minInterval, polls);
    TicksSpaced(nextTick, minInterval, polls);
    SpacedCount(ticks, minInterval, from, from + span);
    var c := CountIn(ticks, from, from + span);
    if c > 0 {
      QuotientAtLeast(span, minInterval, c - 1);
    }
  }

  lemma QuotientAtLeast(span: nat, d: nat, k: nat)
    requires d > 0 && k * d <= span
    ensures k <= span / d
  {
    var q := span / d;
    assert span == q * d + span % d;
    assert (q + 1) * d == q * d + d;
    if k >= q + 1 {
      TimesMono(q + 1, k, d);
    }
  }

  lemma TimesMono(a: nat, b: nat, d: nat)
    requires a <= b
    ensures a * d <= b * d
  {
    assert (b - a) * d >= 0;
    assert b * d == a * d + (b - a) * d;
  }
}
