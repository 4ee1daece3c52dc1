/** The occupancy histogram of the audio jitter buffer and the drop decision taken from it
    (vntcrustdesk-src/src/client.rs:1238-1298), as functions on the histogram's contents. */
module AudioHistogram {
  import opened Basics

  const AUDIO_BUFFER_MS: nat := 3000
  const BUCKETS: nat := 30
  /** The constant `N` of `try_shrink`. */
  const SCALE: nat := 4
  const MIN_MODE_TO_DROP: nat := 6
  const SHRINK_PERIOD_MS: int := 12000

  /** The bucket that an occupancy of `having` samples is counted in: tenths of a second, capped. */
  function Bucket(having: nat, rate: nat): nat
    requires rate > 0
  {
    Min(having * 10 / rate, BUCKETS - 1)
  }

  /** `(x + 1) & !1` on unsigned integers. */
  function RoundUpToEven(x: nat): nat {
    (x + 1) / 2 * 2
  }

  // ----- the decision, stated on the whole histogram -----

  /** The first of the fullest buckets. */
  function FirstMode(h: seq<nat>): (m: nat)
    requires h != []
    ensures m < |h|
    ensures forall j :: 0 <= j < |h| ==> h[j] <= h[m]
    ensures forall j :: 0 <= j < m ==> h[j] < h[m]
  {
    var last := |h| - 1;
    if last == 0 then 0 else
      var m := FirstMode(h[..last]);
      assert forall j :: 0 <= j < last ==> h[..last][j] == h[j];
      if h[last] > h[m] then last else m
  }

  /** The number of empty buckets before the first nonempty one. */
  function LeadingEmpty(h: seq<nat>): (z: nat)
    ensures z <= |h|
    ensures forall j :: 0 <= j < z ==> h[j] == 0
    ensures z < |h| ==> h[z] != 0
  {
    if h == [] || h[0] != 0 then 0 else
      var z := LeadingEmpty(h[1..]);
      assert forall j :: 0 < j < |h| ==> h[j] == h[1..][j - 1];
      1 + z
  }

  /** The samples to drop once the water marks are known: nothing below 600 ms, otherwise the
      smaller of the usual and the safe level, rounded up to an even number. */
  function SkipFor(mode: nat, safe: nat, capacity: nat): nat {
    if mode < MIN_MODE_TO_DROP then 0
    else RoundUpToEven(capacity * Min(mode, safe * SCALE) / (BUCKETS * SCALE))
  }

  /** The reference decision: the fullest bucket over all thirty, and two thirds of the leading
      empty buckets as the safe level. */
  function SkipTarget(h: seq<nat>, capacity: nat): nat
    requires |h| == BUCKETS
  {
    SkipFor(FirstMode(h), LeadingEmpty(h) * 2 / 3, capacity)
  }

  /** The drop actually made when `occupied` samples are buffered. */
  function DropAmount(skip: nat, occupied: nat): (d: nat)
    ensures d <= occupied
  {
    if occupied > skip * 3 && skip > 0 then skip else 0
  }

  /** Twelve seconds have passed since the last shrink; the first call only starts the clock. */
  predicate Due(lastMs: int, nowMs: int) {
    lastMs != 0 && nowMs >= lastMs + SHRINK_PERIOD_MS
  }

  /** What one call of `try_shrink` leaves: the histogram, the time of the last shrink, and how much was
      dropped of `occupied` samples. */
  datatype Shrunk = Shrunk(hist: seq<nat>, lastMs: int, dropped: nat)

  function AfterShrink(h: seq<nat>, lastMs: int, having: nat, rate: nat, capacity: nat, occupied: nat, nowMs: int)
    : Shrunk
    requires |h| == BUCKETS && rate > 0
  {
    var b := Bucket(having, rate);
    var recorded := h[b := h[b] + 1];
    if Due(lastMs, nowMs)
    then Shrunk(seq(BUCKETS, _ => 0), nowMs, DropAmount(SkipTarget(recorded, capacity), occupied))
    else Shrunk(recorded, if lastMs == 0 then nowMs else lastMs, 0)
  }

  lemma RoundUpToEvenBounds(x: nat)
    ensures x <= RoundUpToEven(x) <= x + 1
    ensures RoundUpToEven(x) % 2 == 0
  {
  }

  /** Bucket 0 can be ignored when the mode is computed: if anything was ever recorded there, the
      safe level is zero and nothing is dropped whichever bucket wins. */
  lemma IgnoringBucketZeroIsHarmless(h: seq<nat>, capacity: nat)
    requires |h| == BUCKETS
    ensures SkipFor(FirstMode(h[0 := 0]), LeadingEmpty(h) * 2 / 3, capacity) == SkipTarget(h, capacity)
  {
    hide FirstMode, SkipFor, LeadingEmpty;
    if h[0] == 0 {
      assert h[0 := 0] == h;
    } else {
      assert LeadingEmpty(h) == 0;
      NothingSafeToDrop(FirstMode(h), capacity);
      NothingSafeToDrop(FirstMode(h[0 := 0]), capacity);
    }
  }

  lemma NothingSafeToDrop(mode: nat, capacity: nat)
    ensures SkipFor(mode, 0, capacity) == 0
  {
    assert Min(mode, 0) == 0;
    assert capacity * 0 == 0;
  }

  /** `m` is the first of the fullest among the first `n` buckets. */
  ghost predicate FirstModeOf(h: seq<nat>, n: nat, m: nat)
    requires n <= |h|
  {
    m < n && (forall j :: 0 <= j < n ==> h[j] <= h[m]) && (forall j :: 0 <= j < m ==> h[j] < h[m])
  }

  /** The source's clamp of the mode to the safe level, then the skip (client.rs:1285-1293). */
  method SkipLevel(mode: nat, safe: nat, capacity: nat) returns (skip: nat)
    requires mode >= MIN_MODE_TO_DROP
    ensures skip == SkipFor(mode, safe, capacity)
  {
    var max := mode;
    if max > safe * SCALE {
      max := safe * SCALE;
    }
    skip := RoundUpToEven(capacity * max / (BUCKETS * SCALE));
  }

  lemma LowModeKeepsAll(mode: nat, safe: nat, capacity: nat)
    requires mode < MIN_MODE_TO_DROP
    ensures SkipFor(mode, safe, capacity) == 0
  {
  }

  /** The source's loop in one pass over the array (client.rs:1261-1286), which zeroes the buckets
      as it reads them and so never lets bucket 0 win. */
  method DrainHistogram(hist: array<nat>) returns (zero: nat, max: nat)
    requires hist.Length == BUCKETS
    modifies hist
    ensures forall j :: 0 <= j < BUCKETS ==> hist[j] == 0
    ensures zero == LeadingEmpty(old(hist[..])) * 2 / 3
    ensures max == FirstMode(old(hist[..])[0 := 0])
  {
    ghost var h := hist[..];
    ghost var g := h[0 := 0];
    hide LeadingEmpty, FirstMode;
    zero, max := 0, 0;
    for i := 0 to BUCKETS
      invariant zero <= i && max < BUCKETS && (i == 0 ==> max == 0)
      invariant forall j :: 0 <= j < zero ==> h[j] == 0
      invariant zero < i ==> h[zero] != 0
      invariant i > 0 ==> FirstModeOf(g, i, max)
      invariant forall j :: 0 <= j < i ==> hist[j] == if j == max then g[j] else 0
      invariant forall j :: i <= j < BUCKETS ==> hist[j] == h[j]
    {
      if hist[i] == 0 && zero == i {
        zero := zero + 1;
      }
      if hist[i] > hist[max] {
        hist[max] := 0;
        max := i;
      } else {
        hist[i] := 0;
      }
    }
    assert max == FirstMode(g) && zero == LeadingEmpty(h);
    zero := zero * 2 / 3;
    hist[max] := 0;
  }

  // ----- the recorded window -----

  /** One call of `try_shrink`: the occupancy it was given and the sample rate in force. */
  datatype Entry = Entry(having: nat, rate: nat) {
    ghost predicate Valid() {
      rate > 0
    }
    ghost function Slot(): nat
      requires Valid()
    {
      Bucket(having, rate)
    }
  }

  ghost predicate ValidWindow(w: seq<Entry>) {
    forall k :: 0 <= k < |w| ==> w[k].Valid()
  }

  /** How many entries of the window fall in bucket `b`. */
  ghost function Count(w: seq<Entry>, b: nat): nat
    requires ValidWindow(w)
  {
    if w == [] then 0
    else Count(w[..|w| - 1], b) + if w[|w| - 1].Slot() == b then 1 else 0
  }

  /** The histogram counts the window. */
  ghost predicate Counts(h: seq<nat>, w: seq<Entry>) {
    ValidWindow(w) && forall b :: 0 <= b < |h| ==> h[b] == Count(w, b)
  }

  lemma EmptyWindow(h: seq<nat>)
    requires forall b :: 0 <= b < |h| ==> h[b] == 0
    ensures Counts(h, [])
  {
  }

  lemma CountsAppend(h: seq<nat>, w: seq<Entry>, e: Entry)
    requires |h| == BUCKETS && Counts(h, w) && e.Valid()
    ensures Counts(h[e.Slot() := h[e.Slot()] + 1], w + [e])
  {
    assert (w + [e])[..|w|] == w;
  }

  lemma {:induction false} CountsPositive(w: seq<Entry>, k: nat)
    requires ValidWindow(w) && k < |w|
    ensures Count(w, w[k].Slot()) > 0
  {
    if k < |w| - 1 {
      CountsPositive(w[..|w| - 1], k);
    }
  }

  /** Every recorded occupancy reaches the first nonempty bucket. */
  lemma LowestRecorded(h: seq<nat>, w: seq<Entry>, k: nat)
    requires |h| == BUCKETS && Counts(h, w) && k < |w|
    ensures LeadingEmpty(h) * w[k].rate <= w[k].having * 10
  {
    CountsPositive(w, k);
    FloorTimes(w[k].having * 10, w[k].rate);
    MulMono(LeadingEmpty(h), w[k].having * 10 / w[k].rate, w[k].rate);
  }

  lemma FloorTimes(x: nat, rate: nat)
    requires rate > 0
    ensures x / rate * rate <= x
  {
  }

  lemma MulMono(a: nat, b: nat, c: nat)
    requires a <= b
    ensures a * c <= b * c
  {
  }

  /** The amount skipped stays within two thirds of the lowest occupancy, up to rounding. */
  lemma SkipBound(mode: nat, empty: nat, rate: nat, having: nat)
    requires empty * rate <= having * 10
    ensures 3 * SkipFor(mode, empty * 2 / 3, 3 * rate) <= 2 * having + 3
    ensures SkipFor(mode, empty * 2 / 3, 3 * rate) % 2 == 0
  {
    hide RoundUpToEven;
    var level := Min(mode, empty * 2 / 3 * SCALE);
    LevelBound(level, empty, rate, having);
    RoundUpToEvenBounds(3 * rate * level / (BUCKETS * SCALE));
  }

  lemma LevelBound(level: nat, empty: nat, rate: nat, having: nat)
    requires 3 * level <= 8 * empty && empty * rate <= having * 10
    ensures 3 * rate * level <= 80 * having
  {
    MulMono(3 * level, 8 * empty, rate);
    assert 3 * rate * level == (3 * level) * rate;
    assert (8 * empty) * rate == 8 * (empty * rate);
  }

  /** Safe dropping: in a window recorded at the current rate, with the capacity three times that
      rate, a drop is even, less than a third of what is buffered, and at most two thirds of any
      occupancy recorded in the window plus one. */
  lemma SafeDropping(h: seq<nat>, w: seq<Entry>, rate: nat, occupied: nat, k: nat)
    requires |h| == BUCKETS && Counts(h, w) && k < |w| && w[k].rate == rate
    ensures var d := DropAmount(SkipTarget(h, 3 * rate), occupied);
            d % 2 == 0 && (d > 0 ==> 3 * d < occupied) && 3 * d <= 2 * w[k].having + 3
  {
    LowestRecorded(h, w, k);
    SkipBound(FirstMode(h), LeadingEmpty(h), rate, w[k].having);
  }

  /** The drop is safe for every occupancy recorded at this rate. */
  ghost predicate SafeFor(dropped: nat, w: seq<Entry>, rate: nat) {
    forall k :: 0 <= k < |w| && w[k].rate == rate ==> 3 * dropped <= 2 * w[k].having + 3
  }

  /** So one call of `try_shrink` drops safely for the whole window and for the occupancy it counts. */
  lemma ShrinkIsSafe(h: seq<nat>, w: seq<Entry>, lastMs: int, having: nat, rate: nat, occupied: nat, nowMs: int)
    requires |h| == BUCKETS && Counts(h, w) && rate > 0
    ensures var d := AfterShrink(h, lastMs, having, rate, 3 * rate, occupied, nowMs).dropped;
            && d % 2 == 0
            && (d > 0 ==> 3 * d < occupied && 3 * d <= 2 * having + 3 && SafeFor(d, w, rate))
  {
    hide SkipTarget, DropAmount, Counts;
    var e := Entry(having, rate);
    CountsAppend(h, w, e);
    var recorded := h[e.Slot() := h[e.Slot()] + 1];
    var d := AfterShrink(h, lastMs, having, rate, 3 * rate, occupied, nowMs).dropped;
    if Due(lastMs, nowMs) {
      SafeDropping(recorded, w + [e], rate, occupied, |w|);
      forall k | 0 <= k < |w| && w[k].rate == rate ensures 3 * d <= 2 * w[k].having + 3 {
        SafeDropping(recorded, w + [e], rate, occupied, k);
      }
    }
  }

  // ----- one call, without the functions above -----

  /** The tenth of a second that an occupancy belongs to; the last one is open. */
  ghost predicate InTenth(having: nat, rate: nat, b: nat) {
    b < 30 && b * rate <= 10 * having && (b < 29 ==> 10 * having < (b + 1) * rate)
  }

  /** The quotient `x / d`, by its bounds. */
  lemma Quotient(x: nat, d: nat, q: nat)
    requires d > 0
    ensures q == x / d <==> q * d <= x < (q + 1) * d
  {
    var r := x / d;
    assert x == r * d + x % d;
    assert (r + 1) * d == r * d + d && (q + 1) * d == q * d + d;
    if q < r {
      MulMono(q + 1, r, d);
    } else if q > r {
      MulMono(r + 1, q, d);
    }
  }

  lemma BucketExactly(having: nat, rate: nat, b: nat)
    requires rate > 0
    ensures b == Bucket(having, rate) <==> InTenth(having, rate, b)
  {
    var q := having * 10 / rate;
    Quotient(having * 10, rate, q);
    Quotient(having * 10, rate, b);
    if q >= 29 {
      MulMono(29, q, rate);
      if b < 29 {
        MulMono(b + 1, 29, rate);
      }
    } else if b == 29 {
      MulMono(q + 1, 29, rate);
    }
  }

  /** Exactly what one call does. The occupancy is counted in its tenth of a second. The first call starts
      the clock; after that nothing more happens for twelve seconds. Then the histogram is emptied; and if
      its first fullest tenth `m` is at least 6, the smaller of `m` and four times two thirds of the
      leading empty tenths `z` is taken as the level, in hundred-and-twentieths of the capacity and rounded
      to an even number `k`, and exactly `k` samples are dropped if that is less than a third of what is
      buffered. */
  lemma ShrinkExactly(h: seq<nat>, lastMs: int, having: nat, rate: nat, capacity: nat, occupied: nat, nowMs: int)
    returns (b: nat, g: seq<nat>, m: nat, z: nat, k: nat)
    requires |h| == 30 && rate > 0
    ensures InTenth(having, rate, b) && g == h[b := h[b] + 1]
    ensures m < 30 && (forall j :: 0 <= j < 30 ==> g[j] <= g[m]) && (forall j :: 0 <= j < m ==> g[j] < g[m])
    ensures z < 30 && (forall j :: 0 <= j < z ==> g[j] == 0) && g[z] > 0
    ensures var level := if m <= 4 * (2 * z / 3) then m else 4 * (2 * z / 3);
            k % 2 == 0 && 120 * k <= capacity * level + 120 && capacity * level < 120 * k + 120
    ensures AfterShrink(h, lastMs, having, rate, capacity, occupied, nowMs) ==
            if lastMs == 0 then Shrunk(g, nowMs, 0)
            else if nowMs < lastMs + 12000 then Shrunk(g, lastMs, 0)
            else Shrunk(seq(30, _ => 0), nowMs, if m >= 6 && 0 < 3 * k < occupied then k else 0)
  {
    b := Bucket(having, rate);
    BucketExactly(having, rate, b);
    g := h[b := h[b] + 1];
    m, z := FirstMode(g), LeadingEmpty(g);
    assert z < 30 by {
      assert g[b] > 0;
    }
    k := DropDecision(g, capacity, occupied);
    hide FirstMode, LeadingEmpty, Bucket, DropAmount, SkipTarget;
  }

  lemma DropDecision(g: seq<nat>, capacity: nat, occupied: nat) returns (k: nat)
    requires |g| == 30
    ensures var m, z := FirstMode(g), LeadingEmpty(g);
            var level := if m <= 4 * (2 * z / 3) then m else 4 * (2 * z / 3);
            && k % 2 == 0 && 120 * k <= capacity * level + 120 && capacity * level < 120 * k + 120
            && DropAmount(SkipTarget(g, capacity), occupied) == if m >= 6 && 0 < 3 * k < occupied then k else 0
  {
    hide FirstMode, LeadingEmpty;
    var m, z := FirstMode(g), LeadingEmpty(g);
    var level := if m <= 4 * (2 * z / 3) then m else 4 * (2 * z / 3);
    k := EvenLevel(capacity * level);
    assert SkipTarget(g, capacity) == if m >= 6 then k else 0;
    DropOrNot(k, occupied);
    DropOrNot(0, occupied);
  }

  lemma DropOrNot(skip: nat, occupied: nat)
    ensures DropAmount(skip, occupied) == if 0 < 3 * skip < occupied then skip else 0
  {
  }

  lemma EvenLevel(x: nat) returns (k: nat)
    ensures k == RoundUpToEven(x / 120)
    ensures k % 2 == 0 && 120 * k <= x + 120 && x < 120 * k + 120
  {
    k := RoundUpToEven(x / 120);
  }

  // ----- a steady window -----

  /** Every call of the window counted in the same tenth of a second. */
  ghost predicate Steady(w: seq<Entry>, b: nat) {
    forall k :: 0 <= k < |w| ==> InTenth(w[k].having, w[k].rate, b)
  }

  lemma {:induction false} SteadyCount(w: seq<Entry>, b: nat, c: nat)
    requires ValidWindow(w) && Steady(w, b)
    ensures Count(w, c) == if c == b then |w| else 0
  {
    if w != [] {
      var last := |w| - 1;
      SteadyCount(w[..last], b, c);
      BucketExactly(w[last].having, w[last].rate, b);
    }
  }

  /** Dropping does happen: if all occupancies of a window were in one tenth of a second `b` of at least
      600 ms, the call that ends it drops a quarter of `b` tenths of a second, rounded to an even number,
      whenever that is less than a third of what is buffered. */
  lemma SteadyWindowDrops(h: seq<nat>, w: seq<Entry>, lastMs: int, having: nat, rate: nat, occupied: nat, nowMs: int,
                          b: nat)
    returns (k: nat)
    requires |h| == 30 && Counts(h, w) && rate > 0 && b >= 6 && Steady(w, b) && InTenth(having, rate, b)
    requires lastMs != 0 && nowMs >= lastMs + 12000
    ensures k % 2 == 0 && 40 * k <= b * rate + 40 && b * rate < 40 * k + 40
    ensures AfterShrink(h, lastMs, having, rate, 3 * rate, occupied, nowMs).dropped
            == if 0 < 3 * k < occupied then k else 0
  {
    var c, g, m, z;
    c, g, m, z, k := ShrinkExactly(h, lastMs, having, rate, 3 * rate, occupied, nowMs);
    BucketExactly(having, rate, b);
    BucketExactly(having, rate, c);
    SteadyHistogram(h, w, b, g);
    hide AfterShrink, Counts, Steady, InTenth;
    OnlyFullest(g, b, m, z, |w| + 1);
    SteadyLevel(b, rate, k);
  }

  lemma OnlyFullest(g: seq<nat>, b: nat, m: nat, z: nat, n: nat)
    requires |g| == 30 && b < 30 && n > 0 && forall j :: 0 <= j < 30 ==> g[j] == if j == b then n else 0
    requires m < 30 && g[b] <= g[m]
    requires z < 30 && g[z] > 0
    ensures m == b && z == b
  {
  }

  lemma SteadyLevel(b: nat, rate: nat, k: nat)
    requires b >= 6
    requires var level := if b <= 4 * (2 * b / 3) then b else 4 * (2 * b / 3);
             120 * k <= 3 * rate * level + 120 && 3 * rate * level < 120 * k + 120
    ensures 40 * k <= b * rate + 40 && b * rate < 40 * k + 40
  {
    assert b <= 4 * (2 * b / 3);
    assert 3 * rate * b == 3 * (b * rate);
  }

  lemma SteadyHistogram(h: seq<nat>, w: seq<Entry>, b: nat, g: seq<nat>)
    requires |h| == 30 && Counts(h, w) && Steady(w, b) && b < 30 && g == h[b := h[b] + 1]
    ensures forall j :: 0 <= j < 30 ==> g[j] == if j == b then |w| + 1 else 0
  {
    forall j | 0 <= j < 30 ensures h[j] == if j == b then |w| else 0 {
      SteadyCount(w, b, j);
    }
  }

  // ----- how often -----

  /** The times at which a sequence of calls shrinks, when the last shrink was at `lastMs`. */
  function ShrinkTimes(lastMs: int, calls: seq<int>): seq<int>
    decreases |calls|
  {
    if calls == [] then []
    else if Due(lastMs, calls[0]) then [calls[0]] + ShrinkTimes(calls[0], calls[1..])
    else ShrinkTimes(lastMs, calls[1..])
  }

  ghost predicate InOrder(from: int, times: seq<int>, gap: nat) {
    (times != [] ==> from + gap <= times[0]) && forall k :: 0 <= k < |times| - 1 ==> times[k] + gap <= times[k + 1]
  }

  /** Some shrink, or the one at `lastMs`, is less than twelve seconds back. */
  ghost predicate Recent(now: int, lastMs: int, times: seq<int>) {
    lastMs <= now < lastMs + 12000 || exists j :: 0 <= j < |times| && times[j] <= now < times[j] + 12000
  }

  /** Two shrinks are at least twelve seconds apart, and no call is left twelve seconds behind a shrink:
      if it comes so late, it shrinks itself. */
  lemma {:induction false} ShrinksEveryTwelveSeconds(lastMs: int, calls: seq<int>)
    requires lastMs > 0 && InOrder(lastMs, calls, 0)
    ensures var times := ShrinkTimes(lastMs, calls);
            InOrder(lastMs, times, 12000) && forall k :: 0 <= k < |calls| ==> Recent(calls[k], lastMs, times)
    decreases |calls|
  {
    if calls != [] {
      var rest, times := calls[1..], ShrinkTimes(lastMs, calls);
      assert forall k :: 0 < k < |calls| ==> calls[k] == rest[k - 1];
      var from := if Due(lastMs, calls[0]) then calls[0] else lastMs;
      var later := ShrinkTimes(from, rest);
      ShrinksEveryTwelveSeconds(from, rest);
      forall k | 0 <= k < |calls| ensures Recent(calls[k], lastMs, times) {
        if k > 0 {
          assert Recent(rest[k - 1], from, later);
          if j :| 0 <= j < |later| && later[j] <= rest[k - 1] < later[j] + 12000 {
            assert later[j] == times[if from == lastMs then j else j + 1];
          }
        }
        assert Due(lastMs, calls[0]) ==> times[0] == calls[0];
      }
    }
  }
}
