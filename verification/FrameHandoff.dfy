/** The hand-off of software-rendered frames from the decoder thread of each display to the UI
    (vntcrustdesk-src/src/flutter.rs:243-248, 657-661, 971-973, 1088-1102, 1186-1245). The producer holds
    the frames' lock only for parts of its call, and while it tells the sessions it holds only theirs, so
    its call is many atomic steps. */
module FrameHandoff {

  type Display = nat
  type SessionId = nat
  type Buffer = seq<int>

  datatype Slot = Slot(data: Buffer, valid: bool)

  /** A UI session: the displays it shows and whether its event stream is open. */
  datatype Handler = Handler(displays: seq<Display>, streaming: bool)

  /** Where the producer of a display is in `on_rgba_soft_render`; in its loop, with the sessions it has
      still to look at and whether it has told any. */
  datatype Phase = Idle | Stored | Counted(multi: bool) | Notifying(multi: bool, rest: seq<SessionId>, sent: bool)

  datatype State = State(
    slots: map<Display, Slot>,
    handlers: map<SessionId, Handler>,
    phase: map<Display, Phase>,
    raw: map<Display, Buffer>,          // the decoder's own buffer
    events: seq<(SessionId, Display)>,  // the Rgba events sent to the UI
    announced: set<Display>)            // history: an event was sent since valid last became true

  function PhaseOf(s: State, d: Display): Phase {
    if d in s.phase then s.phase[d] else Idle
  }

  function RawOf(s: State, d: Display): Buffer {
    if d in s.raw then s.raw[d] else []
  }

  /** The session's window is told about display `d`. */
  predicate Notifies(h: Handler, multi: bool, d: Display) {
    |h.displays| <= 1 && (multi ==> d in h.displays) && h.streaming
  }

  datatype Step =
    | Decode(d: Display, frame: Buffer)
    | Store(d: Display)
    | Count(d: Display)
    | BeginNotify(d: Display, order: seq<SessionId>)  // the hash map's iteration order
    | NotifyNext(d: Display)
    | Finish(d: Display)
    | GetRgba(d: Display)
    | NextRgba(d: Display)
    | SetHandlers(handlers: map<SessionId, Handler>)  // sessions opened, closed or switched
    | Clear                                           // `update_use_texture_render`

  /** The producer holds the lock of the sessions. */
  predicate InLoop(s: State, d: Display) {
    PhaseOf(s, d).Notifying? && PhaseOf(s, d).rest != []
  }

  ghost predicate Enabled(s: State, step: Step) {
    match step
    case Decode(d, _) => PhaseOf(s, d).Idle?
    case Store(d) => PhaseOf(s, d).Idle?
    case Count(d) => PhaseOf(s, d).Stored?
    case BeginNotify(d, order) => PhaseOf(s, d).Counted? && multiset(order) == multiset(s.handlers.Keys)
    case NotifyNext(d) => InLoop(s, d)
    case Finish(d) => PhaseOf(s, d).Notifying? && !InLoop(s, d)
    case SetHandlers(_) => forall d :: !InLoop(s, d)
    case _ => true
  }

  /** The events of the notification loop, in its order. */
  function Notifications(handlers: map<SessionId, Handler>, order: seq<SessionId>, multi: bool, d: Display)
    : seq<(SessionId, Display)>
    requires forall id :: id in order ==> id in handlers
  {
    if order == [] then []
    else (if Notifies(handlers[order[0]], multi, d) then [(order[0], d)] else [])
         + Notifications(handlers, order[1..], multi, d)
  }

  /** Session `id` is told about display `d`. */
  predicate Told(s: State, id: SessionId, multi: bool, d: Display) {
    id in s.handlers && Notifies(s.handlers[id], multi, d)
  }

  /** The first critical section: refuse while the UI has not fetched, otherwise swap buffers. */
  function StoreFrame(s: State, d: Display): State {
    if d in s.slots && s.slots[d].valid then s
    else
      var back := if d in s.slots then s.slots[d].data else [];
      s.(slots := s.slots[d := Slot(RawOf(s, d), true)],
         raw := s.raw[d := back],
         phase := s.phase[d := Stored],
         announced := s.announced - {d})
  }

  function Invalidate(slots: map<Display, Slot>, d: Display): map<Display, Slot> {
    if d in slots then slots[d := slots[d].(valid := false)] else slots
  }

  ghost function Next(s: State, step: Step): State
    requires Enabled(s, step)
  {
    match step
    case Decode(d, frame) => s.(raw := s.raw[d := frame])
    case Store(d) => StoreFrame(s, d)
    case Count(d) => s.(phase := s.phase[d := Counted(|s.handlers| > 1)])
    case BeginNotify(d, order) => s.(phase := s.phase[d := Notifying(PhaseOf(s, d).multi, order, false)])
    case NotifyNext(d) =>
      var p := PhaseOf(s, d);
      var told := Told(s, p.rest[0], p.multi, d);
      s.(events := if told then s.events + [(p.rest[0], d)] else s.events,
         phase := s.phase[d := Notifying(p.multi, p.rest[1..], p.sent || told)],
         announced := if told then s.announced + {d} else s.announced)
    case Finish(d) =>
      s.(phase := s.phase[d := Idle],
         slots := if PhaseOf(s, d).sent then s.slots else Invalidate(s.slots, d))
    case GetRgba(_) => s
    case NextRgba(d) => s.(slots := Invalidate(s.slots, d))
    case SetHandlers(hs) => s.(handlers := hs)
    case Clear => s.(slots := map[])
  }

  lemma OrderCovers(order: seq<SessionId>, handlers: map<SessionId, Handler>)
    requires multiset(order) == multiset(handlers.Keys)
    ensures forall id :: id in order <==> id in handlers
  {
    forall id ensures id in order <==> id in handlers {
      assert id in order <==> id in multiset(order);
    }
  }

  const START: State := State(map[], map[], map[], map[], [], {})

  /** Any interleaving of the producers, one for each display, with the UI. */
  ghost predicate Execution(trace: seq<State>, steps: seq<Step>) {
    && |trace| == |steps| + 1
    && trace[0] == START
    && forall k :: 0 <= k < |steps| ==> Enabled(trace[k], steps[k]) && trace[k + 1] == Next(trace[k], steps[k])
  }

  ghost predicate Valid(s: State, d: Display) {
    d in s.slots && s.slots[d].valid
  }

  // ----- safety -----

  ghost predicate Inv(s: State) {
    forall d :: (Valid(s, d) && PhaseOf(s, d).Idle? ==> d in s.announced)
                && (PhaseOf(s, d).Notifying? && PhaseOf(s, d).sent ==> d in s.announced)
  }

  lemma {:induction false} InvAlways(trace: seq<State>, steps: seq<Step>)
    requires Execution(trace, steps)
    ensures Inv(trace[|steps|])
  {
    if steps != [] {
      var last := |steps| - 1;
      assert Execution(trace[..last + 1], steps[..last]);
      InvAlways(trace[..last + 1], steps[..last]);
      assert Inv(trace[last]);
      assert trace[last + 1] == Next(trace[last], steps[last]);
    }
  }

  /** The step from `s` sent an event for `d`. */
  ghost predicate Sends(s: State, step: Step, d: Display)
    requires Enabled(s, step)
  {
    var s' := Next(s, step);
    step == NotifyNext(d) && |s'.events| > |s.events| && s'.events[|s'.events| - 1].1 == d
  }

  lemma AnnouncedStep(s: State, step: Step, d: Display)
    requires Enabled(s, step) && d in Next(s, step).announced
    ensures Sends(s, step, d) || (d in s.announced && (Valid(Next(s, step), d) ==> Valid(s, d)))
  {
  }

  /** `announced` means what it says: some step sent an event for `d`, and `d` has not become valid
      again since. */
  lemma {:induction false} AnnouncedMeansSent(trace: seq<State>, steps: seq<Step>, d: Display) returns (k: nat)
    requires Execution(trace, steps) && d in trace[|steps|].announced
    ensures k < |steps| && Sends(trace[k], steps[k], d)
    ensures forall j :: k < j < |steps| ==> Valid(trace[j + 1], d) ==> Valid(trace[j], d)
  {
    hide Next, Valid, Sends, Enabled;
    assert steps != [] by {
      assert trace[0] == START;
    }
    var last := |steps| - 1;
    assert trace[last + 1] == Next(trace[last], steps[last]);
    AnnouncedStep(trace[last], steps[last], d);
    if Sends(trace[last], steps[last], d) {
      k := last;
    } else {
      assert Execution(trace[..last + 1], steps[..last]);
      k := AnnouncedMeansSent(trace[..last + 1], steps[..last], d);
    }
  }

  /** Whenever the producer is back and the frame is valid, some step sent an Rgba event for the display
      and the frame has been valid ever since, so the UI has been told of it. */
  lemma ReturnedValidWasSent(trace: seq<State>, steps: seq<Step>, d: Display) returns (k: nat)
    requires Execution(trace, steps)
    requires PhaseOf(trace[|steps|], d).Idle? && Valid(trace[|steps|], d)
    ensures k < |steps| && Sends(trace[k], steps[k], d)
    ensures forall j :: k < j <= |steps| ==> Valid(trace[j], d)
  {
    InvAlways(trace, steps);
    k := AnnouncedMeansSent(trace, steps, d);
    ValidBackwards(trace, d, k + 1, |steps|);
  }

  lemma {:induction false} ValidBackwards(trace: seq<State>, d: Display, lo: nat, hi: nat)
    requires lo <= hi < |trace| && Valid(trace[hi], d)
    requires forall j :: lo <= j < hi ==> Valid(trace[j + 1], d) ==> Valid(trace[j], d)
    ensures forall j :: lo <= j <= hi ==> Valid(trace[j], d)
    decreases hi
  {
    if lo < hi {
      ValidBackwards(trace, d, lo, hi - 1);
    }
  }

  lemma {:induction false} NotificationsFor(handlers: map<SessionId, Handler>, order: seq<SessionId>, multi: bool,
                                           d: Display)
    requires forall id :: id in order ==> id in handlers
    ensures forall k :: 0 <= k < |Notifications(handlers, order, multi, d)| ==>
              Notifications(handlers, order, multi, d)[k].1 == d
    ensures Notifications(handlers, order, multi, d) != [] <==>
              exists id :: id in order && Notifies(handlers[id], multi, d)
  {
    if order != [] {
      NotificationsFor(handlers, order[1..], multi, d);
      assert forall id :: id in order <==> id == order[0] || id in order[1..];
    }
  }

  /** The events for display `d`. */
  function EventsFor(events: seq<(SessionId, Display)>, d: Display): seq<(SessionId, Display)> {
    if events == [] then []
    else
      var last := |events| - 1;
      EventsFor(events[..last], d) + if events[last].1 == d then [events[last]] else []
  }

  lemma EventsForAppend(s: State, step: Step, d: Display)
    requires Enabled(s, step)
    ensures EventsFor(Next(s, step).events, d) == EventsFor(s.events, d) +
            if step == NotifyNext(d) && Told(s, PhaseOf(s, d).rest[0], PhaseOf(s, d).multi, d)
            then [(PhaseOf(s, d).rest[0], d)] else []
  {
    if step.NotifyNext? {
      var e := (PhaseOf(s, step.d).rest[0], step.d);
      assert (s.events + [e])[..|s.events|] == s.events;
    }
  }

  /** A loop that began with `handlers`, when `sent` events had been sent for `d`, ends with `total`. */
  ghost predicate Remaining(s: State, d: Display, handlers: map<SessionId, Handler>, multi: bool,
                            sent: nat, total: seq<(SessionId, Display)>)
  {
    var p := PhaseOf(s, d);
    && p.Notifying? && p.multi == multi && (p.rest != [] ==> s.handlers == handlers)
    && (forall id :: id in p.rest ==> id in handlers)
    && EventsFor(s.events, d) + Notifications(handlers, p.rest, multi, d) == total
    && |EventsFor(s.events, d)| >= sent && p.sent == (|EventsFor(s.events, d)| > sent)
  }

  /** Steps of others leave the phase, and while the lock is held the sessions. */
  lemma OthersKeep(s: State, step: Step, d: Display)
    requires Enabled(s, step) && PhaseOf(s, d).Notifying? && step != Finish(d) && step != NotifyNext(d)
    ensures PhaseOf(Next(s, step), d) == PhaseOf(s, d)
    ensures PhaseOf(s, d).rest != [] ==> Next(s, step).handlers == s.handlers
  {
    assert PhaseOf(s, d).rest != [] ==> InLoop(s, d);
  }

  lemma OwnTurn(s: State, d: Display)
    requires Enabled(s, NotifyNext(d))
    ensures var p, s' := PhaseOf(s, d), Next(s, NotifyNext(d));
            var told := Told(s, p.rest[0], p.multi, d);
            && PhaseOf(s', d) == Notifying(p.multi, p.rest[1..], p.sent || told)
            && s'.events == s.events + (if told then [(p.rest[0], d)] else [])
            && s'.handlers == s.handlers
  {
  }

  lemma OneLess(s: State, handlers: map<SessionId, Handler>, rest: seq<SessionId>, multi: bool, d: Display,
                now: seq<(SessionId, Display)>)
    requires rest != [] && s.handlers == handlers && forall id :: id in rest ==> id in handlers
    ensures forall id :: id in rest[1..] ==> id in handlers
    ensures now + Notifications(handlers, rest, multi, d)
            == now + (if Told(s, rest[0], multi, d) then [(rest[0], d)] else [])
               + Notifications(handlers, rest[1..], multi, d)
  {
  }

  lemma StepInLoop(s: State, step: Step, d: Display, handlers: map<SessionId, Handler>, multi: bool,
                   sent: nat, total: seq<(SessionId, Display)>)
    requires Remaining(s, d, handlers, multi, sent, total) && Enabled(s, step) && step != Finish(d)
    ensures Remaining(Next(s, step), d, handlers, multi, sent, total)
  {
    EventsForAppend(s, step, d);
    var p, now := PhaseOf(s, d), EventsFor(s.events, d);
    if step == NotifyNext(d) {
      OwnTurn(s, d);
      OneLess(s, handlers, p.rest, multi, d, now);
      hide EventsFor, Notifications, Told, Next;
    } else {
      OthersKeep(s, step, d);
      hide EventsFor, Notifications, Next;
      assert now + [] == now;
    }
  }

  /** The loop over the sessions, with any steps of the others between two sessions: the events sent for the
      display and those still to come are always, in order, those of the sessions there were when it began. So
      when it is through it has told exactly these, and it knows whether there were any. */
  lemma LoopSends(trace: seq<State>, steps: seq<Step>, d: Display, i: nat, j: nat)
    requires Execution(trace, steps) && i < j <= |steps| && steps[i].BeginNotify? && steps[i].d == d
    requires forall k :: i < k < j ==> steps[k] != Finish(d)
    ensures PhaseOf(trace[i], d).Counted? && PhaseOf(trace[j], d).Notifying?
    ensures forall id :: id in steps[i].order <==> id in trace[i].handlers
    ensures forall id :: id in PhaseOf(trace[j], d).rest ==> id in trace[i].handlers
    ensures var told := Notifications(trace[i].handlers, steps[i].order, PhaseOf(trace[i], d).multi, d);
            var p := PhaseOf(trace[j], d);
            && p.multi == PhaseOf(trace[i], d).multi
            && EventsFor(trace[j].events, d) + Notifications(trace[i].handlers, p.rest, p.multi, d)
               == EventsFor(trace[i].events, d) + told
            && (p.rest == [] ==>
                  (p.sent <==> exists id :: id in trace[i].handlers && Notifies(trace[i].handlers[id], p.multi, d)))
  {
    LoopRemaining(trace, steps, d, i, j);
    NotificationsFor(trace[i].handlers, steps[i].order, PhaseOf(trace[i], d).multi, d);
    hide EventsFor, Notifies;
  }

  lemma LoopBegins(s: State, d: Display, order: seq<SessionId>)
    requires Enabled(s, BeginNotify(d, order)) && forall id :: id in order ==> id in s.handlers
    ensures var multi, before := PhaseOf(s, d).multi, EventsFor(s.events, d);
            Remaining(Next(s, BeginNotify(d, order)), d, s.handlers, multi, |before|,
                      before + Notifications(s.handlers, order, multi, d))
  {
    hide EventsFor, Notifications;
  }

  lemma {:induction false} LoopRemaining(trace: seq<State>, steps: seq<Step>, d: Display, i: nat, j: nat)
    requires Execution(trace, steps) && i < j <= |steps| && steps[i].BeginNotify? && steps[i].d == d
    requires forall k :: i < k < j ==> steps[k] != Finish(d)
    ensures PhaseOf(trace[i], d).Counted?
    ensures forall id :: id in steps[i].order <==> id in trace[i].handlers
    ensures var multi, before := PhaseOf(trace[i], d).multi, EventsFor(trace[i].events, d);
            Remaining(trace[j], d, trace[i].handlers, multi, |before|,
                      before + Notifications(trace[i].handlers, steps[i].order, multi, d))
  {
    hide EventsFor, Notifications, Remaining;
    OrderCovers(steps[i].order, trace[i].handlers);
    assert trace[j] == Next(trace[j - 1], steps[j - 1]);
    if i + 1 == j {
      LoopBegins(trace[i], d, steps[i].order);
    } else {
      hide Next, Enabled;
      LoopRemaining(trace, steps, d, i, j - 1);
      var multi, before := PhaseOf(trace[i], d).multi, EventsFor(trace[i].events, d);
      StepInLoop(trace[j - 1], steps[j - 1], d, trace[i].handlers, multi, |before|,
                 before + Notifications(trace[i].handlers, steps[i].order, multi, d));
    }
  }

  /** One step never changes a stored frame that is valid before it and after it. */
  lemma StepKeepsValidFrame(s: State, step: Step, d: Display)
    requires Enabled(s, step) && Valid(s, d) && Valid(Next(s, step), d)
    ensures Next(s, step).slots[d].data == s.slots[d].data
  {
  }

  /** The stored frame never changes while `valid` stays true, so what the UI reads through the pointer
      it got is what was there when it got it. */
  lemma {:induction false} FrameStable(trace: seq<State>, steps: seq<Step>, d: Display, i: nat, j: nat)
    requires Execution(trace, steps) && i <= j <= |steps|
    requires forall k :: i <= k <= j ==> Valid(trace[k], d)
    ensures Valid(trace[i], d) && Valid(trace[j], d) && trace[j].slots[d].data == trace[i].slots[d].data
  {
    if i < j {
      FrameStable(trace, steps, d, i, j - 1);
      assert trace[j] == Next(trace[j - 1], steps[j - 1]);
      StepKeepsValidFrame(trace[j - 1], steps[j - 1], d);
    }
  }

  /** A valid frame is the one its decoder had at the last accepted store, and it has been valid since. */
  lemma {:induction false} FrameIsLastStored(trace: seq<State>, steps: seq<Step>, d: Display) returns (k: nat)
    requires Execution(trace, steps) && Valid(trace[|steps|], d)
    ensures k < |steps| && steps[k] == Store(d) && !Valid(trace[k], d)
    ensures trace[|steps|].slots[d].data == RawOf(trace[k], d)
    ensures forall j :: k < j <= |steps| ==> Valid(trace[j], d)
  {
    var last := |steps| - 1;
    assert steps != [];
    assert trace[last + 1] == Next(trace[last], steps[last]);
    if Valid(trace[last], d) {
      assert Execution(trace[..last + 1], steps[..last]);
      k := FrameIsLastStored(trace[..last + 1], steps[..last], d);
      StepKeepsValidFrame(trace[last], steps[last], d);
    } else {
      k := last;
    }
  }

  /** A store that is accepted swaps: the UI side gets the decoder's frame, the decoder gets exactly the
      buffer that was stored, or an empty one the first time. A refused store changes nothing. */
  lemma StoreSwaps(s: State, d: Display)
    ensures var s' := StoreFrame(s, d);
            if Valid(s, d) then s' == s
            else
              && d in s'.slots && s'.slots[d] == Slot(RawOf(s, d), true)
              && RawOf(s', d) == (if d in s.slots then s.slots[d].data else [])
              && forall e :: e != d ==>
                   && RawOf(s', e) == RawOf(s, e)
                   && (e in s'.slots <==> e in s.slots)
                   && (e in s.slots ==> s'.slots[e] == s.slots[e])
  {
  }

  /** The step is a store of `d` that is not refused. */
  ghost predicate Accepted(s: State, step: Step, d: Display) {
    step == Store(d) && !Valid(s, d)
  }

  ghost predicate NoneAccepted(trace: seq<State>, steps: seq<Step>, d: Display, i: nat, j: nat)
    requires j <= |steps| < |trace|
  {
    forall k :: i <= k < j ==> !Accepted(trace[k], steps[k], d)
  }

  ghost predicate NoClear(steps: seq<Step>, i: nat, j: nat)
    requires j <= |steps|
  {
    forall k :: i <= k < j ==> !steps[k].Clear?
  }

  /** Valid or not, the stored buffer only changes at an accepted store, or goes when all are cleared. */
  lemma {:induction false} BufferKept(trace: seq<State>, steps: seq<Step>, d: Display, i: nat, j: nat)
    requires Execution(trace, steps) && i <= j <= |steps| && NoneAccepted(trace, steps, d, i, j)
    ensures d !in trace[i].slots ==> d !in trace[j].slots
    ensures d in trace[i].slots && NoClear(steps, i, j) ==>
              d in trace[j].slots && trace[i].slots[d].data == trace[j].slots[d].data
  {
    if i < j {
      BufferKept(trace, steps, d, i, j - 1);
      assert trace[j] == Next(trace[j - 1], steps[j - 1]);
      assert !Accepted(trace[j - 1], steps[j - 1], d);
    }
  }

  /** Over any run the decoder's buffers alternate: at an accepted store it gets back exactly the frame it
      handed over at the accepted store before, if the frames were not cleared since; otherwise, and at the
      first one, an empty buffer. */
  lemma SwapReturnsPreviousFrame(trace: seq<State>, steps: seq<Step>, d: Display, k: nat)
    requires Execution(trace, steps) && k < |steps| && Accepted(trace[k], steps[k], d)
    ensures NoneAccepted(trace, steps, d, 0, k) ==> RawOf(trace[k + 1], d) == []
    ensures forall i :: 0 <= i < k && Accepted(trace[i], steps[i], d) && NoneAccepted(trace, steps, d, i + 1, k) ==>
              RawOf(trace[k + 1], d) == if NoClear(steps, i + 1, k) then RawOf(trace[i], d) else []
  {
    hide StoreFrame;
    assert trace[k + 1] == Next(trace[k], steps[k]);
    StoreSwaps(trace[k], d);
    if NoneAccepted(trace, steps, d, 0, k) {
      BufferKept(trace, steps, d, 0, k);
      assert trace[0] == START;
    }
    forall i | 0 <= i < k && Accepted(trace[i], steps[i], d) && NoneAccepted(trace, steps, d, i + 1, k)
      ensures RawOf(trace[k + 1], d) == if NoClear(steps, i + 1, k) then RawOf(trace[i], d) else []
    {
      assert trace[i + 1] == Next(trace[i], steps[i]);
      StoreSwaps(trace[i], d);
      if NoClear(steps, i + 1, k) {
        BufferKept(trace, steps, d, i + 1, k);
      } else {
        var c :| i + 1 <= c < k && steps[c].Clear?;
        assert trace[c + 1] == Next(trace[c], steps[c]);
        BufferKept(trace, steps, d, c + 1, k);
      }
    }
  }

  // ----- when frames get through -----

  /** `d` has no valid frame, and all else about the frames is as it was. */
  ghost predicate ReleasedOnly(slots: map<Display, Slot>, slots': map<Display, Slot>, d: Display) {
    && slots'.Keys == slots.Keys
    && (d in slots' ==> !slots'[d].valid && slots'[d].data == slots[d].data)
    && forall e :: e in slots' && e != d ==> slots'[e] == slots[e]
  }

  /** A release takes the frame's validity and nothing else; an unsent frame is withdrawn in the same way, and
      a sent one is not touched. */
  lemma ReleaseExactly(s: State, d: Display)
    ensures ReleasedOnly(s.slots, Next(s, NextRgba(d)).slots, d) && !Valid(Next(s, NextRgba(d)), d)
    ensures Next(s, NextRgba(d)).raw == s.raw && Next(s, NextRgba(d)).phase == s.phase
    ensures Next(s, NextRgba(d)).events == s.events && Next(s, NextRgba(d)).handlers == s.handlers
    ensures Enabled(s, Finish(d)) ==>
              && PhaseOf(Next(s, Finish(d)), d).Idle?
              && if PhaseOf(s, d).sent then Next(s, Finish(d)).slots == s.slots
                 else ReleasedOnly(s.slots, Next(s, Finish(d)).slots, d)
  {
  }

  /** The step gives up the frame of `d`: the UI releases it, the producer withdraws it unsent, or all frames
      are cleared. */
  ghost predicate GivesUp(s: State, step: Step, d: Display) {
    step == NextRgba(d) || step.Clear? || (step == Finish(d) && PhaseOf(s, d).Notifying? && !PhaseOf(s, d).sent)
  }

  lemma ValidStep(s: State, step: Step, d: Display)
    requires Enabled(s, step) && !Accepted(s, step, d)
    ensures Valid(Next(s, step), d) <==> Valid(s, d) && !GivesUp(s, step, d)
  {
  }

  lemma {:induction false} ValidUntilGivenUp(trace: seq<State>, steps: seq<Step>, d: Display, i: nat, j: nat)
    requires Execution(trace, steps) && i <= j <= |steps| && NoneAccepted(trace, steps, d, i, j)
    ensures Valid(trace[j], d) <==> Valid(trace[i], d) && forall k :: i <= k < j ==> !GivesUp(trace[k], steps[k], d)
    decreases j
  {
    hide Next, Valid, GivesUp, Enabled, Accepted;
    if i < j {
      ValidUntilGivenUp(trace, steps, d, i, j - 1);
      assert trace[j] == Next(trace[j - 1], steps[j - 1]);
      ValidStep(trace[j - 1], steps[j - 1], d);
    }
  }

  /** Over any run, a store of `d` is refused if and only if the frame of the last accepted one has not been
      given up since; with no accepted store before, it is accepted. */
  lemma StoreRefusedExactly(trace: seq<State>, steps: seq<Step>, d: Display, k: nat)
    requires Execution(trace, steps) && k < |steps| && steps[k] == Store(d)
    ensures NoneAccepted(trace, steps, d, 0, k) ==> Accepted(trace[k], steps[k], d)
    ensures forall i :: 0 <= i < k && Accepted(trace[i], steps[i], d) && NoneAccepted(trace, steps, d, i + 1, k) ==>
              (Accepted(trace[k], steps[k], d) <==> exists j :: i < j < k && GivesUp(trace[j], steps[j], d))
  {
    hide Next, GivesUp, StoreFrame;
    if NoneAccepted(trace, steps, d, 0, k) {
      ValidUntilGivenUp(trace, steps, d, 0, k);
      assert trace[0] == START;
    }
    forall i | 0 <= i < k && Accepted(trace[i], steps[i], d) && NoneAccepted(trace, steps, d, i + 1, k)
      ensures Accepted(trace[k], steps[k], d) <==> exists j :: i < j < k && GivesUp(trace[j], steps[j], d)
    {
      assert trace[i + 1] == Next(trace[i], steps[i]);
      StoreValid(trace[i], d);
      ValidUntilGivenUp(trace, steps, d, i + 1, k);
    }
  }

  lemma StoreValid(s: State, d: Display)
    requires Enabled(s, Store(d))
    ensures Valid(Next(s, Store(d)), d)
  {
  }

  /** So frames keep coming: after the UI has released a frame, the next store of the display is accepted and
      puts the decoder's current frame in place. */
  lemma ReleaseLetsNextFrameIn(trace: seq<State>, steps: seq<Step>, d: Display, k: nat, j: nat)
    requires Execution(trace, steps) && k < j < |steps| && steps[k] == NextRgba(d) && steps[j] == Store(d)
    requires forall i :: k < i < j ==> steps[i] != Store(d)
    ensures Accepted(trace[j], steps[j], d)
    ensures d in trace[j + 1].slots && trace[j + 1].slots[d] == Slot(RawOf(trace[j], d), true)
  {
    hide StoreFrame;
    assert trace[k + 1] == Next(trace[k], steps[k]) && trace[j + 1] == Next(trace[j], steps[j]);
    ValidUntilGivenUp(trace, steps, d, k + 1, j);
    StoreSwaps(trace[j], d);
  }

  /** The producer of a display is never stuck: it has a step to make in every phase, whatever the others do. */
  lemma ProducerNeverStuck(s: State, d: Display, frame: Buffer, order: seq<SessionId>)
    requires multiset(order) == multiset(s.handlers.Keys)
    ensures match PhaseOf(s, d)
            case Idle => Enabled(s, Store(d)) && Enabled(s, Decode(d, frame))
            case Stored => Enabled(s, Count(d))
            case Counted(_) => Enabled(s, BeginNotify(d, order))
            case Notifying(_, rest, _) => if rest != [] then Enabled(s, NotifyNext(d)) else Enabled(s, Finish(d))
    ensures Enabled(s, NextRgba(d)) && Enabled(s, GetRgba(d)) && Enabled(s, Clear)
  {
  }

  // ----- the handler, one method for each critical section -----

  class FlutterHandler {
    var slots: map<Display, Slot>
    var handlers: map<SessionId, Handler>
    ghost var phase: map<Display, Phase>
    ghost var announced: set<Display>
    var events: seq<(SessionId, Display)>
    var raw: map<Display, Buffer>

    ghost function Abs(): State
      reads this
    {
      State(slots, handlers, phase, raw, events, announced)
    }

    constructor ()
      ensures Abs() == START
    {
      slots, handlers, phase, announced, events, raw := map[], map[], map[], {}, [], map[];
    }

    /** The decoder writes its own buffer. */
    method DecodeInto(d: Display, frame: Buffer)
      requires Enabled(Abs(), Decode(d, frame))
      modifies this
      ensures Abs() == Next(old(Abs()), Decode(d, frame)) && raw == old(raw)[d := frame]
    {
      raw := raw[d := frame];
    }

    method StoreRgba(d: Display) returns (accepted: bool)
      requires Enabled(Abs(), Store(d))
      modifies this
      ensures Abs() == Next(old(Abs()), Store(d))
      ensures accepted <==> !Valid(old(Abs()), d)
    {
      var mine := if d in raw then raw[d] else [];
      if d in slots {
        if slots[d].valid {
          return false;
        }
        raw := raw[d := slots[d].data];
        slots := slots[d := Slot(mine, true)];
      } else {
        raw := raw[d := []];
        slots := slots[d := Slot(mine, true)];
      }
      phase := phase[d := Stored];
      announced := announced - {d};
      accepted := true;
    }

    method IsMultiUiSession(ghost d: Display) returns (multi: bool)
      requires Enabled(Abs(), Count(d))
      modifies this
      ensures Abs() == Next(old(Abs()), Count(d)) && PhaseOf(Abs(), d) == Counted(multi)
      ensures multi <==> |handlers| > 1
    {
      multi := |handlers| > 1;
      phase := phase[d := Counted(multi)];
    }

    /** Takes the lock of the sessions. */
    method EnterLoop(ghost d: Display, ghost order: seq<SessionId>)
      requires Enabled(Abs(), BeginNotify(d, order))
      modifies this`phase
      ensures Abs() == Next(old(Abs()), BeginNotify(d, order))
    {
      phase := phase[d := Notifying(phase[d].multi, order, false)];
    }

    /** One session's turn. */
    method TellSession(d: Display, multi: bool, id: SessionId) returns (told: bool)
      requires Enabled(Abs(), NotifyNext(d)) && id in handlers
      requires PhaseOf(Abs(), d).multi == multi && PhaseOf(Abs(), d).rest[0] == id
      modifies this`events, this`phase, this`announced
      ensures Abs() == Next(old(Abs()), NotifyNext(d)) && told == Told(Abs(), id, multi, d)
      ensures var h := handlers[id]; told <==> |h.displays| <= 1 && (multi ==> d in h.displays) && h.streaming
      ensures events == if told then old(events) + [(id, d)] else old(events)
    {
      var h := handlers[id];
      ghost var p := phase[d];
      phase := phase[d := Notifying(multi, p.rest[1..], p.sent)];
      if |h.displays| > 1 {
        return false;
      }
      if multi {
        if d !in h.displays {
          return false;
        }
      }
      if h.streaming {
        events := events + [(id, d)];
        phase := phase[d := Notifying(multi, p.rest[1..], true)];
        announced := announced + {d};
        return true;
      }
      return false;
    }

    /** The loop over the sessions, in whatever order the map gives; here without the other threads, whose
        steps `LoopSends` allows in between. */
    method SendEvents(d: Display, multi: bool, order: seq<SessionId>) returns (isSent: bool)
      requires PhaseOf(Abs(), d) == Notifying(multi, order, false)
      requires forall id :: id in order ==> id in handlers
      modifies this`events, this`phase, this`announced
      ensures events == old(events) + Notifications(handlers, order, multi, d)
      ensures isSent == (Notifications(handlers, order, multi, d) != [])
      ensures PhaseOf(Abs(), d) == Notifying(multi, [], isSent)
    {
      isSent := false;
      ghost var all := events + Notifications(handlers, order, multi, d);
      ghost var before := events;
      for k := 0 to |order|
        invariant PhaseOf(Abs(), d) == Notifying(multi, order[k..], isSent)
        invariant all == events + Notifications(handlers, order[k..], multi, d)
        invariant |events| >= |before| && isSent == (|events| > |before|)
      {
        hide Next, Told, Notifications;
        assert order[k..][1..] == order[k + 1..];
        OwnTurn(Abs(), d);
        OneLess(Abs(), handlers, order[k..], multi, d, events);
        var told := TellSession(d, multi, order[k]);
        isSent := isSent || told;
      }
    }

    method WithdrawIfUnsent(d: Display, isSent: bool)
      requires Enabled(Abs(), Finish(d)) && PhaseOf(Abs(), d).sent == isSent
      modifies this
      ensures Abs() == Next(old(Abs()), Finish(d))
      ensures if isSent then slots == old(slots) else ReleasedOnly(old(slots), slots, d)
    {
      if !isSent {
        if d in slots {
          slots := slots[d := slots[d].(valid := false)];
        }
      }
      phase := phase[d := Idle];
    }

    /** `update_use_texture_render` gives up all frames. */
    method ClearFrames()
      modifies this`slots
      ensures Abs() == Next(old(Abs()), Clear) && slots == map[]
    {
      slots := map[];
    }

    /** The frame the returned pointer refers to, or none for a null pointer. */
    method GetFrame(d: Display) returns (found: bool, frame: Buffer)
      ensures found <==> d in slots && slots[d].valid
      ensures found ==> frame == slots[d].data
    {
      if d in slots {
        if slots[d].valid {
          return true, slots[d].data;
        }
      }
      return false, [];
    }

    method NextFrame(d: Display)
      modifies this
      ensures Abs() == Next(old(Abs()), NextRgba(d)) && ReleasedOnly(old(slots), slots, d)
    {
      if d in slots {
        slots := slots[d := slots[d].(valid := false)];
      }
    }
  }
}
