/** The audio jitter buffer (vntcrustdesk-src/src/client.rs:1206-1326) and the device callback that
    empties it (client.rs:1496-1541). Each method is one critical section of the shared lock, so
    `Valid` together with the contracts describes every interleaving of the two threads. */
module AudioBuffer {
  import opened Basics
  import opened AudioHistogram
  import opened AudioStream

  /** 48000 Hz, two channels. */
  const DEFAULT_RATE: nat := 48000 * 2
  const DEFAULT_CAPACITY: nat := DEFAULT_RATE * AUDIO_BUFFER_MS / 1000

  /** The ring shared between the decoder thread and the device callback. The ring buffer crate is
      foreign; it is modelled by the sequence of buffered samples. The ghost fields are the history
      that `AudioStream` speaks of. */
  class Ring<S> {
    var capacity: nat
    var items: seq<S>
    ghost var appended: seq<S>
    ghost var delivered: seq<nat>

    ghost function Abs(): Stream<S>
      reads this
    {
      Stream(capacity, items, appended, delivered)
    }

    ghost predicate Valid()
      reads this
    {
      Refines(Abs())
    }

    constructor (capacity: nat)
      ensures Valid() && Abs() == Empty(capacity)
    {
      this.capacity, items, appended, delivered := capacity, [], [], [];
    }

    /** A fresh ring put in place of the old one. */
    method Replace(capacity: nat)
      modifies this
      ensures Valid() && Abs() == Empty(capacity)
    {
      this.capacity, items, appended, delivered := capacity, [], [], [];
    }

    /** Drops the `n` oldest samples, without handing them to the device. */
    method Skip(n: nat)
      requires Valid() && n <= |items|
      modifies this
      ensures Valid() && Abs() == Drop(old(Abs()), n) && capacity == old(capacity)
    {
      StepRefines(Abs(), Dropped(n));
      items := items[n..];
    }

    /** Drops the oldest samples that `count` more leave no room for. */
    method MakeRoom(count: nat)
      requires Valid() && count <= capacity
      modifies this
      ensures Valid() && capacity == old(capacity)
      ensures |old(items)| + count <= capacity ==> Abs() == old(Abs())
      ensures |old(items)| + count > capacity ==> Abs() == Drop(old(Abs()), |old(items)| + count - capacity)
    {
      hide Refines, Drop;
      var having := |items| + count;
      if having > capacity {
        Skip(having - capacity);
      }
    }

    /** Appends a slice; on overflow the oldest samples give way. */
    method PushSliceOverwrite(buffer: seq<S>)
      requires Valid()
      modifies this
      ensures Valid() && Abs() == Append(old(Abs()), buffer)
    {
      StepRefines(Abs(), Appended(buffer));
      var all := items + buffer;
      items := all[|all| - Min(capacity, |all|)..];
      appended := appended + buffer;
    }

    /** The device callback: takes up to `n` samples and pads the rest with silence. */
    method PopForDevice(n: nat, silence: S) returns (data: seq<S>)
      requires Valid()
      modifies this
      ensures Valid() && Abs() == Pop(old(Abs()), n)
      ensures var taken := Min(n, |old(items)|);
              data == old(items)[..taken] + seq(n - taken, _ => silence) && items == old(items)[taken..]
    {
      StepRefines(Abs(), Popped(n));
      var having := |items|;
      var count := n;
      if having < n {
        count := having;
      }
      data := items[..count] + seq(n - count, _ => silence);
      delivered := delivered + Positions(Position(Abs()), count);
      items := items[count..];
    }
  }

  /** The process-wide time of the last shrink (the `static mut tms`). */
  class ShrinkClock {
    var lastMs: int

    constructor ()
      ensures lastMs == 0
    {
      lastMs := 0;
    }
  }

  class AudioBuffer<S> {
    const ring: Ring<S>
    const hist: array<nat>
    const clock: ShrinkClock
    var rate: nat
    /** The `try_shrink` calls counted since the histogram was last emptied. */
    ghost var window: seq<Entry>

    ghost predicate Valid()
      reads this, ring, hist
    {
      && ring.Valid()
      && hist.Length == BUCKETS
      && rate > 0
      && ring.capacity == 3 * rate
      && Counts(hist[..], window)
    }

    constructor (clock: ShrinkClock)
      ensures Valid() && fresh(ring) && fresh(hist) && this.clock == clock
      ensures rate == 96000 && ring.Abs() == Empty(3 * rate) && window == []
    {
      this.clock := clock;
      ring := new Ring(DEFAULT_CAPACITY);
      hist := new nat[BUCKETS](_ => 0);
      rate := DEFAULT_RATE;
      window := [];
      new;
      assert forall b :: 0 <= b < BUCKETS ==> hist[b] == 0;
      hide Counts, Refines, Empty;
      EmptyWindow(hist[..]);
    }

    /** A new output format. Only a changed capacity replaces the ring; the histogram is kept. There is no
        ring without room: a format of no samples makes its constructor panic, before anything is set. */
    method Resize(sampleRate: nat, channels: nat) returns (ok: bool)
      requires Valid()
      modifies this, ring
      ensures Valid() && window == old(window)
      ensures ok <==> sampleRate > 0 && channels > 0
      ensures rate == if ok then sampleRate * channels else old(rate)
      ensures if rate == old(rate) then unchanged(ring) else ring.Abs() == Empty(3 * rate)
    {
      ghost var n := sampleRate * channels;
      assert n * AUDIO_BUFFER_MS / 1000 == 3 * n;
      assert n > 0 <==> sampleRate > 0 && channels > 0;
      var capacity := sampleRate * channels * AUDIO_BUFFER_MS / 1000;
      var oldCapacity := ring.capacity;
      if capacity != oldCapacity {
        if capacity == 0 {
          return false;
        }
        ring.Replace(capacity);
        rate := sampleRate * channels;
      }
      ok := true;
    }

    /** Keeps exactly the last `min(capacity, old + new)` samples and returns how many that is. */
    method AppendPcm2(buffer: seq<S>) returns (having: nat)
      requires Valid()
      modifies ring
      ensures Valid() && ring.Abs() == Append(old(ring.Abs()), buffer)
      ensures having == |ring.items| == Min(ring.capacity, |old(ring.items)| + |buffer|)
    {
      AppendKeeps(ring.Abs(), buffer);
      RoomFirst(ring.Abs(), buffer);
      hide Counts, Append, Drop, Refines;
      if |buffer| > ring.capacity {
        ring.PushSliceOverwrite(buffer);
        return ring.capacity;
      }
      ring.MakeRoom(|buffer|);
      ring.PushSliceOverwrite(buffer);
      having := |ring.items|;
    }

    /** Counts one occupancy (client.rs:1242-1246). */
    method Record(having: nat)
      requires Valid()
      modifies this, hist
      ensures Valid() && rate == old(rate)
      ensures var b := Bucket(having, rate);
              hist[..] == old(hist[..])[b := old(hist[..])[b] + 1]
      ensures window == old(window) + [Entry(having, rate)]
    {
      ghost var before, entry := hist[..], Entry(having, rate);
      var i := having * 10 / rate;
      if i > 29 {
        i := 29;
      }
      hist[i] := hist[i] + 1;
      CountsAppend(before, window, entry);
      window := window + [entry];
      assert hist[..] == before[i := before[i] + 1];
    }

    /** Empties the histogram and drops what its water marks allow (client.rs:1261-1297). */
    method DropByHistogram() returns (ghost dropped: nat)
      requires Valid()
      modifies this, ring, hist
      ensures Valid() && rate == old(rate) && ring.capacity == old(ring.capacity)
      ensures dropped == DropAmount(SkipTarget(old(hist[..]), ring.capacity), |old(ring.items)|)
      ensures ring.Abs() == Drop(old(ring.Abs()), dropped)
      ensures dropped <= |old(ring.items)| && ring.items == old(ring.items)[dropped..]
      ensures window == [] && forall j :: 0 <= j < BUCKETS ==> hist[j] == 0
    {
      ghost var recorded := hist[..];
      var zero, max := DrainHistogram(hist);
      window := [];
      EmptyWindow(hist[..]);
      hide LeadingEmpty, FirstMode, SkipFor, Counts, Drop, Refines;
      DropNothing(ring.Abs());
      IgnoringBucketZeroIsHarmless(recorded, ring.capacity);
      dropped := DropAmount(SkipTarget(recorded, ring.capacity), |ring.items|);
      if max < MIN_MODE_TO_DROP {
        LowModeKeepsAll(max, zero, ring.capacity);
        return;
      }
      var skip := SkipLevel(max, zero, ring.capacity);
      var occupied := |ring.items|;
      if occupied > skip * 3 && skip > 0 {
        ring.Skip(skip);
      }
    }

    /** Counts the occupancy `having` and, once every twelve seconds, drops old samples. The
        occupancy may be stale: the device can pop between `AppendPcm2` and this call. */
    method TryShrink(having: nat, nowMs: int) returns (ghost dropped: nat)
      requires Valid()
      modifies this, ring, hist, clock
      ensures Valid() && rate == old(rate) && ring.capacity == old(ring.capacity)
      ensures ring.Abs() == Drop(old(ring.Abs()), dropped)
      ensures dropped <= |old(ring.items)| && ring.items == old(ring.items)[dropped..]
      ensures Shrunk(hist[..], clock.lastMs, dropped)
              == AfterShrink(old(hist[..]), old(clock.lastMs), having, rate,
                             ring.capacity, |old(ring.items)|, nowMs)
      ensures window == if Due(old(clock.lastMs), nowMs) then [] else old(window) + [Entry(having, rate)]
      ensures dropped % 2 == 0 && (dropped > 0 ==> 3 * dropped < |old(ring.items)|)
      ensures dropped > 0 ==> 3 * dropped <= 2 * having + 3 && SafeFor(dropped, old(window), rate)
    {
      hide SkipTarget, DropAmount, Counts, Refines, Drop;
      dropped := 0;
      DropNothing(ring.Abs());
      ShrinkIsSafe(hist[..], window, clock.lastMs, having, rate, |ring.items|, nowMs);
      Record(having);
      if clock.lastMs == 0 {
        clock.lastMs := nowMs;
        return;
      } else if nowMs < clock.lastMs + SHRINK_PERIOD_MS {
        return;
      }
      clock.lastMs := nowMs;
      dropped := DropByHistogram();
      assert hist[..] == seq(BUCKETS, _ => 0);
    }

    /** Both halves together; `having` is then what is buffered. */
    method AppendPcm(buffer: seq<S>, nowMs: int) returns (ghost dropped: nat)
      requires Valid()
      modifies this, ring, hist, clock
      ensures Valid() && rate == old(rate) && ring.capacity == old(ring.capacity)
      ensures ring.Abs() == Drop(Append(old(ring.Abs()), buffer), dropped)
      ensures var kept := Min(ring.capacity, |old(ring.items)| + |buffer|);
              && Shrunk(hist[..], clock.lastMs, dropped)
                 == AfterShrink(old(hist[..]), old(clock.lastMs), kept, rate, ring.capacity, kept, nowMs)
              && window == (if Due(old(clock.lastMs), nowMs) then [] else old(window) + [Entry(kept, rate)])
              && dropped % 2 == 0 && (dropped > 0 ==> 3 * dropped < kept && SafeFor(dropped, old(window), rate))
    {
      hide AfterShrink, Drop, Append, Counts, Refines;
      var having := AppendPcm2(buffer);
      dropped := TryShrink(having, nowMs);
    }
  }

  lemma AppendKeeps<S>(s: Stream<S>, buffer: seq<S>)
    ensures |Append(s, buffer).items| == Min(s.capacity, |s.items| + |buffer|)
  {
  }

  /** Making room first and then appending is the same as appending. */
  lemma RoomFirst<S>(s: Stream<S>, buffer: seq<S>)
    requires Refines(s)
    ensures |buffer| <= s.capacity < |s.items| + |buffer| ==>
              Append(Drop(s, |s.items| + |buffer| - s.capacity), buffer) == Append(s, buffer)
  {
    var n := |s.items| + |buffer| - s.capacity;
    if |buffer| <= s.capacity && n > 0 {
      assert s.items[n..] + buffer == (s.items + buffer)[n..];
    }
  }
}
