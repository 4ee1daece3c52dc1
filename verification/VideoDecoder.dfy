/** The decoder failure counter of a display thread and the list of codecs given up on
    (vntcrustdesk-src/src/client.rs:1597-1662, 2917-2941). */
module VideoDecoder {
  import opened Basics

  const MAX_DECODE_FAIL_COUNTER: nat := 3
  const USIZE_MAX: nat := 0xFFFF_FFFF_FFFF_FFFF

  datatype CodecFormat = VP8 | VP9 | AV1 | H264 | H265 | Unknown

  /** A video message: its payload's format, or no payload at all, which counts as `Unknown`. */
  datatype Frame = Payload(format: CodecFormat, decoded: bool) | NoPayload {
    function Format(): CodecFormat {
      if Payload? then format else Unknown
    }
  }

  /** The number of failures at the end of the history. */
  function TrailingFailures(history: seq<bool>): (n: nat)
    ensures n <= |history|
    ensures forall k :: |history| - n <= k < |history| ==> !history[k]
    ensures n < |history| ==> history[|history| - n - 1]
  {
    if history == [] || history[|history| - 1] then 0
    else
      var rest := TrailingFailures(history[..|history| - 1]);
      assert forall k :: 0 <= k < |history| - 1 ==> history[..|history| - 1][k] == history[k];
      1 + rest
  }

  function Saturated(n: nat): nat {
    if n < USIZE_MAX then n else USIZE_MAX
  }

  /** The counter as a function of the decode results since the last reset: a history of nothing but
      failures starts at the limit, any other counts its trailing failures. */
  function CounterOf(history: seq<bool>): nat {
    var k := TrailingFailures(history);
    if k == 0 then 0
    else if k == |history| then Saturated(MAX_DECODE_FAIL_COUNTER + k - 1)
    else Saturated(k)
  }

  /** The counter has reached the limit exactly when at least one frame was decoded since the reset
      and all failed, or the last three failed. */
  lemma CounterAtLimit(history: seq<bool>)
    ensures CounterOf(history) >= MAX_DECODE_FAIL_COUNTER <==>
            || (history != [] && forall k :: 0 <= k < |history| ==> !history[k])
            || (|history| >= 3 && forall k :: |history| - 3 <= k < |history| ==> !history[k])
  {
    var n := TrailingFailures(history);
    if n < |history| {
      assert history[|history| - n - 1];
    }
  }

  /** Failures and nothing else since the reset, or three in a row at the end. */
  ghost predicate Failing(history: seq<bool>) {
    || (history != [] && forall k :: 0 <= k < |history| ==> !history[k])
    || (|history| >= 3 && !history[|history| - 1] && !history[|history| - 2] && !history[|history| - 3])
  }

  /** The counter from the history: with `n` failures at the end it is `n`, and two more if nothing else
      happened since the reset, up to the largest machine word. */
  lemma CounterExactly(history: seq<bool>, n: nat)
    requires n <= |history| && (forall k :: |history| - n <= k < |history| ==> !history[k])
    requires n < |history| ==> history[|history| - n - 1]
    ensures var c := if n == 0 then 0 else if n == |history| then n + 2 else n;
            CounterOf(history) == if c <= 0xFFFF_FFFF_FFFF_FFFF then c else 0xFFFF_FFFF_FFFF_FFFF
  {
    var t := TrailingFailures(history);
    assert t < |history| ==> history[|history| - t - 1];
    assert t == n;
  }

  /** The counter's recurrence: one success clears it, a failed first frame jumps to the limit, any
      other failure adds one, and it never passes the largest machine word. */
  lemma CounterGrows(history: seq<bool>, decoded: bool)
    ensures CounterOf(history + [decoded]) ==
            if decoded then 0
            else if history == [] then MAX_DECODE_FAIL_COUNTER
            else Saturated(CounterOf(history) + 1)
    ensures CounterOf(history) <= USIZE_MAX && (history == [] ==> CounterOf(history) == 0)
  {
    assert (history + [decoded])[..|history|] == history;
    assert TrailingFailures(history + [decoded]) == if decoded then 0 else TrailingFailures(history) + 1;
  }

  class VideoHandler {
    var format: CodecFormat
    var decoderValid: bool
    var failCounter: nat
    var firstFrame: bool
    /** The decode results since the last reset. */
    ghost var history: seq<bool>

    ghost predicate Valid()
      reads this
    {
      && failCounter == CounterOf(history)
      && (firstFrame <==> history == [])
    }

    constructor (format: CodecFormat, decoderValid: bool)
      ensures Valid() && history == [] && this.format == format && this.decoderValid == decoderValid
    {
      this.format, this.decoderValid := format, decoderValid;
      failCounter, firstFrame, history := 0, true, [];
    }

    /** A new decoder; whether it could be created is up to the codec library. */
    method Reset(format: CodecFormat, decoderValid: bool)
      modifies this
      ensures Valid() && history == [] && this.format == format && this.decoderValid == decoderValid
    {
      this.format, this.decoderValid := format, decoderValid;
      failCounter, firstFrame, history := 0, true, [];
    }

    /** One frame through the decoder; `decoded` is the codec library's `Ok(true)`. */
    method CountResult(decoded: bool)
      requires Valid()
      modifies this
      ensures Valid() && format == old(format) && decoderValid == old(decoderValid)
      ensures history == old(history) + [decoded]
    {
      CounterGrows(history, decoded);
      hide CounterOf;
      if decoded {
        failCounter := 0;
      } else {
        if failCounter < USIZE_MAX {
          if firstFrame && failCounter < MAX_DECODE_FAIL_COUNTER {
            failCounter := MAX_DECODE_FAIL_COUNTER;
          } else {
            failCounter := failCounter + 1;
          }
        }
      }
      history := history + [decoded];
      firstFrame := false;
    }

    method HandleFrame(frame: Frame, newDecoderValid: bool) returns (ok: bool)
      requires Valid()
      modifies this
      ensures Valid() && format == if frame.Payload? then frame.format else Unknown
      ensures decoderValid == if old(format) == format then old(decoderValid) else newDecoderValid
      ensures var before := if old(format) == format then old(history) else [];
              history == match frame case Payload(_, decoded) => before + [decoded] case NoPayload => before
      ensures ok == (frame.Payload? && frame.decoded)
    {
      hide CounterOf;
      if frame.Format() != format {
        Reset(frame.Format(), newDecoderValid);
      }
      match frame
      case Payload(_, decoded) =>
        CountResult(decoded);
        ok := decoded;
      case NoPayload =>
        ok := false;
    }
  }

  // ----- several display threads sharing one list -----

  /** `announcing` holds the formats whose update a thread has decided to send but not sent yet. */
  datatype Shared = Shared(marked: seq<CodecFormat>, announcing: multiset<CodecFormat>, sent: seq<CodecFormat>)

  datatype Step =
    | Mark(format: CodecFormat)       // one thread's check-and-push, under the write lock
    | Announce(format: CodecFormat)   // a thread's later send of the supported decodings

  ghost predicate Enabled(s: Shared, step: Step) {
    step.Announce? ==> step.format in s.announcing
  }

  ghost function Next(s: Shared, step: Step): Shared
    requires Enabled(s, step)
  {
    match step
    case Mark(f) =>
      if f in s.marked then s
      else s.(marked := s.marked + [f], announcing := s.announcing + multiset{f})
    case Announce(f) =>
      s.(announcing := s.announcing - multiset{f}, sent := s.sent + [f])
  }

  ghost predicate Interleaving(trace: seq<Shared>, steps: seq<Step>) {
    && |trace| == |steps| + 1
    && trace[0] == Shared([], multiset{}, [])
    && forall k :: 0 <= k < |steps| ==> Enabled(trace[k], steps[k]) && trace[k + 1] == Next(trace[k], steps[k])
  }

  /** The announced and the pending updates together are exactly the marked formats, once each. */
  ghost predicate Balanced(s: Shared) {
    NoDuplicates(s.marked) && multiset(s.sent) + s.announcing == multiset(s.marked)
  }

  lemma NoDuplicatesCount<T>(s: seq<T>, x: T)
    requires NoDuplicates(s)
    ensures multiset(s)[x] <= 1
  {
    if s != [] {
      var last := |s| - 1;
      NoDuplicatesCount(s[..last], x);
      assert s == s[..last] + [s[last]];
    }
  }

  lemma {:induction false} AlwaysBalanced(trace: seq<Shared>, steps: seq<Step>)
    requires Interleaving(trace, steps)
    ensures Balanced(trace[|steps|])
  {
    if steps != [] {
      var last := |steps| - 1;
      AlwaysBalanced(trace[..last + 1], steps[..last]);
      assert trace[last + 1] == Next(trace[last], steps[last]);
      assert trace[..last + 1][last] == trace[last];
    }
  }

  /** In every interleaving of the display threads the list has no duplicates, and at most one
      update is sent for each format, none for a format that is not in the list. */
  lemma AtMostOneUpdate(trace: seq<Shared>, steps: seq<Step>, f: CodecFormat)
    requires Interleaving(trace, steps)
    ensures NoDuplicates(trace[|steps|].marked)
    ensures multiset(trace[|steps|].sent)[f] <= if f in trace[|steps|].marked then 1 else 0
  {
    AlwaysBalanced(trace, steps);
    var s := trace[|steps|];
    NoDuplicatesCount(s.marked, f);
    assert multiset(s.sent)[f] <= (multiset(s.sent) + s.announcing)[f] == multiset(s.marked)[f];
    assert f in multiset(s.marked) <==> f in s.marked;
  }

  /** The source's list in the login configuration. */
  class UnsupportedList {
    var marked: seq<CodecFormat>

    constructor ()
      ensures marked == []
    {
      marked := [];
    }

    /** Returns whether an update has to be sent. */
    method Check(handler: VideoHandler) returns (shouldUpdate: bool)
      requires handler.Valid()
      modifies this
      ensures shouldUpdate <==>
              handler.format !in old(marked) && (!handler.decoderValid || Failing(handler.history))
      ensures marked == if shouldUpdate then old(marked) + [handler.format] else old(marked)
      ensures !handler.decoderValid || Failing(handler.history) ==>
                marked == Next(Shared(old(marked), multiset{}, []), Mark(handler.format)).marked
    {
      CounterAtLimit(handler.history);
      shouldUpdate := false;
      if !handler.decoderValid || handler.failCounter >= MAX_DECODE_FAIL_COUNTER {
        if handler.format !in marked {
          marked := marked + [handler.format];
          shouldUpdate := true;
        }
      }
    }
  }
}
