/** The two sides together: clipboards, queued change notifications and messages on their way. */
module ClipboardSync {
  import opened Basics
  import opened Clipboard

  /** One side. `applied` remembers that the clipboard was last written by an applied update, `lastSent`
      is the cached message. */
  datatype Peer = Peer(cell: seq<Data>, lastSent: seq<Data>, pending: nat, applied: bool, sent: nat)

  datatype System = System(files: bool, host: Peer, client: Peer, toHost: seq<seq<Data>>, toClient: seq<seq<Data>>) {
    function At(side: Side): Peer {
      if side.Host? then host else client
    }
    function To(side: Side): seq<seq<Data>> {
      if side.Host? then toHost else toClient
    }
    function Put(side: Side, p: Peer): System {
      if side.Host? then this.(host := p) else this.(client := p)
    }
    function PutTo(side: Side, msgs: seq<seq<Data>>): System {
      if side.Host? then this.(toHost := msgs) else this.(toClient := msgs)
    }
  }

  /** `Check` handles one notification; the clipboard may be unreadable just then, and the client may
      not be asked for its clipboard. `Deliver` applies any message on its way: updates run on threads
      of their own. What the receiver makes of the payload is left open, as is whether the write
      succeeds; a successful write notifies the receiver's own listener. `InitialSync` is what the client
      may send, once and unasked, whenever a connection is established (client/io_loop.rs:1375-1388). A
      message lost with a connection is one that is delivered as an empty update. */
  datatype Step =
    | Copy(side: Side, content: seq<Data>)
    | Check(side: Side, readable: bool, wanted: bool)
    | Deliver(side: Side, index: nat, update: seq<Data>, setSucceeds: bool)
    | InitialSync(readable: bool, wanted: bool, multi: bool)

  ghost predicate Enabled(s: System, step: Step) {
    match step
    case Copy(_, _) => true
    case Check(side, _, _) => s.At(side).pending > 0
    case Deliver(side, index, _, _) => index < |s.To(side)|
    case InitialSync(_, _, _) => true
  }

  /** What a notification finds to send. */
  function Found(s: System, side: Side, readable: bool): seq<Data> {
    if readable then Get(s.files, s.At(side).cell, side, false) else []
  }

  /** What an initial sync starts from. */
  function Initial(s: System, readable: bool): seq<Data> {
    Snapshot(s.files, s.client.cell, s.client.lastSent, Client, readable)
  }

  /** `side` sends `content` to the other side. */
  function Send(s: System, side: Side, content: seq<Data>): System {
    var p := s.At(side);
    s.Put(side, p.(sent := p.sent + 1)).PutTo(side.Other(), s.To(side.Other()) + [content])
  }

  ghost function Next(s: System, step: Step): System
    requires Enabled(s, step)
  {
    match step
    case Copy(side, content) =>
      var p := s.At(side);
      s.Put(side, p.(cell := content, pending := p.pending + 1, applied := false))
    case Check(side, readable, wanted) =>
      var p := s.At(side);
      var content := Found(s, side, readable);
      var s' := s.Put(side, p.(pending := p.pending - 1, lastSent := if content != [] then content else p.lastSent));
      if content != [] && wanted then Send(s', side, content) else s'
    case Deliver(side, index, update, setSucceeds) =>
      var s' := s.PutTo(side, s.To(side)[..index] + s.To(side)[index + 1..]);
      var p := s.At(side);
      if update != [] && setSucceeds then
        s'.Put(side, p.(cell := WithOwner(update, side), pending := p.pending + 1, applied := true))
      else s'
    case InitialSync(readable, wanted, multi) =>
      var content := Initial(s, readable);
      var s' := s.(client := s.client.(lastSent := content));
      var msg := ForPeer(content, multi);
      if msg.Some? && wanted then Send(s', Client, msg.value) else s'
  }

  function Start(files: bool): System {
    System(files, Peer([], [], 0, false, 0), Peer([], [], 0, false, 0), [], [])
  }

  /** A piece of a run, from any system. */
  ghost predicate Execution(trace: seq<System>, steps: seq<Step>) {
    && |trace| == |steps| + 1
    && forall k :: 0 <= k < |steps| ==> Enabled(trace[k], steps[k]) && trace[k + 1] == Next(trace[k], steps[k])
  }

  ghost predicate Silent(s: System, side: Side) {
    Get(s.files, s.At(side).cell, side, false) == []
  }

  /** A clipboard last written by an applied update has nothing to send. */
  ghost predicate Inv(s: System) {
    (s.host.applied ==> Silent(s, Host)) && (s.client.applied ==> Silent(s, Client))
  }

  lemma NextKeepsInv(s: System, step: Step)
    requires Inv(s) && Enabled(s, step)
    ensures Inv(Next(s, step))
  {
    hide Get;
    if step.Deliver? {
      AppliedIsSilent(s.files, step.update, step.side, step.side);
    }
  }

  lemma {:induction false} InvAlways(trace: seq<System>, steps: seq<Step>)
    requires Execution(trace, steps) && Inv(trace[0])
    ensures Inv(trace[|steps|])
  {
    if steps != [] {
      var last := |steps| - 1;
      InvAlways(trace[..last + 1], steps[..last]);
      assert trace[last + 1] == Next(trace[last], steps[last]);
      NextKeepsInv(trace[last], steps[last]);
    }
  }

  ghost predicate NoCopy(steps: seq<Step>, side: Side) {
    forall k :: 0 <= k < |steps| ==> !(steps[k].Copy? && steps[k].side == side)
  }

  /** The initial syncs among the steps. */
  function Syncs(steps: seq<Step>): nat {
    if steps == [] then 0
    else Syncs(steps[..|steps| - 1]) + if steps[|steps| - 1].InitialSync? then 1 else 0
  }

  /** Only the client has an initial sync. */
  function SyncsOf(side: Side, steps: seq<Step>): nat {
    if side.Client? then Syncs(steps) else 0
  }

  /** A side without anything to send stays that way until its next local copy, and sends at most one
      message for each of its initial syncs, so none at all without them. */
  lemma {:induction false} SilentUntilCopy(trace: seq<System>, steps: seq<Step>, side: Side)
    requires Execution(trace, steps) && NoCopy(steps, side) && Silent(trace[0], side)
    ensures Silent(trace[|steps|], side)
    ensures trace[0].At(side).sent <= trace[|steps|].At(side).sent <= trace[0].At(side).sent + SyncsOf(side, steps)
  {
    hide Silent, Next, Get, Enabled;
    if steps != [] {
      var last := |steps| - 1;
      SilentUntilCopy(trace[..last + 1], steps[..last], side);
      assert trace[last + 1] == Next(trace[last], steps[last]);
      StepKeepsSilence(trace[last], steps[last], side);
    }
  }

  lemma StepKeepsSilence(s: System, step: Step, side: Side)
    requires Enabled(s, step) && Silent(s, side) && !(step.Copy? && step.side == side)
    ensures Silent(Next(s, step), side)
    ensures s.At(side).sent <= Next(s, step).At(side).sent
            <= s.At(side).sent + if step.InitialSync? && side.Client? then 1 else 0
  {
    hide Get;
    if step.Deliver? {
      AppliedIsSilent(s.files, step.update, step.side, step.side);
    }
  }

  /** Echo freedom: in every run from the start, a side whose clipboard was last written by an applied
      update sends nothing until its next local copy or, on the client, its next initial sync; and each of
      those sends one message at most. */
  lemma EchoFree(files: bool, before: seq<System>, past: seq<Step>, trace: seq<System>, steps: seq<Step>, side: Side)
    requires Execution(before, past) && before[0] == Start(files)
    requires Execution(trace, steps) && trace[0] == before[|past|]
    requires trace[0].At(side).applied && NoCopy(steps, side)
    ensures trace[|steps|].At(side).sent <= trace[0].At(side).sent + SyncsOf(side, steps)
    ensures SyncsOf(side, steps) == 0 ==> trace[|steps|].At(side).sent == trace[0].At(side).sent
  {
    InvAlways(before, past);
    SilentUntilCopy(trace, steps, side);
  }

  /** An initial sync on a clipboard with an applied update sends it back exactly when the client has not
      sent anything before, can read the clipboard and may send, and a local copy of the update would be
      something to send to this peer. */
  lemma InitialSyncEchoes(s: System, update: seq<Data>, sync: Step)
    requires sync.InitialSync? && s.client.cell == WithOwner(update, Client) && s.client.lastSent == []
    ensures var copied := if sync.readable then Get(s.files, update, Client, true) else [];
            var msg := ForPeer(copied, sync.multi);
            var echo := if sync.wanted && msg.Some? then [msg.value] else [];
            var s' := Next(s, sync);
            && s'.toHost == s.toHost + echo
            && s'.client.sent == s.client.sent + |echo|
            && s'.client.applied == s.client.applied
  {
    hide Get, ForPeer;
    ForcedReadIgnoresOwner(s.files, update, Client, Client);
  }

  lemma Extend(trace: seq<System>, steps: seq<Step>, step: Step)
    requires Execution(trace, steps) && Enabled(trace[|steps|], step)
    ensures Execution(trace + [Next(trace[|steps|], step)], steps + [step])
  {
    hide Next, Enabled;
  }

  /** The host copies a text and the client applies it. */
  lemma TextApplied(files: bool) returns (trace: seq<System>, steps: seq<Step>)
    ensures Execution(trace, steps) && trace[0] == Start(files) && NoCopy(steps, Client)
    ensures trace[|steps|] == System(files, Peer([Text("x")], [Text("x")], 0, false, 1),
                                     Peer(WithOwner([Text("x")], Client), [], 1, true, 0), [], [])
  {
    var x := [Text("x")];
    var copy, check, deliver := Copy(Host, x), Check(Host, true, true), Deliver(Client, 0, x, true);
    SharedText(files, Host);
    hide Get, WithOwner;
    var s0 := Start(files);
    var s1 := Next(s0, copy);
    assert s1 == System(files, Peer(x, [], 1, false, 0), Peer([], [], 0, false, 0), [], []);
    var s2 := Next(s1, check);
    assert s2 == System(files, Peer(x, x, 0, false, 1), Peer([], [], 0, false, 0), [], [x]);
    Extend([s0], [], copy);
    Extend([s0] + [s1], [] + [copy], check);
    Extend([s0] + [s1] + [s2], [] + [copy] + [check], deliver);
    trace := [s0] + [s1] + [s2] + [Next(s2, deliver)];
    steps := [] + [copy] + [check] + [deliver];
  }

  /** A run with an echo: a new connection sends the host's text back although nobody copied anything on
      the client. */
  lemma EchoAfterReconnect(files: bool) returns (trace: seq<System>, steps: seq<Step>)
    ensures Execution(trace, steps) && trace[0] == Start(files) && NoCopy(steps, Client)
    ensures var s := trace[|steps|]; s.client.applied && s.client.sent == 1 && s.toHost == [[Text("x")]]
  {
    var before, past := TextApplied(files);
    var sync := InitialSync(true, true, true);
    SharedText(files, Client);
    assert ForPeer([Text("x")], true) == Some([Text("x")]);
    hide Get, ForPeer, WithOwner, Next;
    InitialSyncEchoes(before[|past|], [Text("x")], sync);
    Extend(before, past, sync);
    trace, steps := before + [Next(before[|past|], sync)], past + [sync];
  }

  lemma SharedText(files: bool, side: Side)
    ensures Get(files, [Text("x")], side, false) == [Text("x")] == Get(files, [Text("x")], side, true)
  {
    assert [Text("x")][1..] == [];
    assert GetFormats(files, [Text("x")]) == [Text("x")];
    assert Filter(Shared, [Text("x")]) == [Text("x")];
  }

  /** Content does get across: if a side copies something to send, its notification is handled, and the other
      side applies what it makes of the message, then the other clipboard is that update with its owner tag,
      waiting to be announced, and the message sent is what the first side's read found. */
  lemma CopyArrives(s: System, side: Side, content: seq<Data>, update: seq<Data>)
    requires Get(s.files, content, side, false) != [] && update != []
    ensures var msg, other := Get(s.files, content, side, false), side.Other();
            var copy, check := Copy(side, content), Check(side, true, true);
            var deliver := Deliver(other, |s.To(other)|, update, true);
            && Enabled(s, copy) && Enabled(Next(s, copy), check)
            && var s2 := Next(Next(s, copy), check);
               && s2.To(other) == s.To(other) + [msg]
               && s2.At(side) == Peer(content, msg, s.At(side).pending, false, s.At(side).sent + 1)
               && s2.At(other) == s.At(other)
               && Enabled(s2, deliver)
               && var s3 := Next(s2, deliver);
                  && s3.To(other) == s.To(other) && s3.At(side) == s2.At(side)
                  && s3.At(other).cell == update + [Special("dyn.com.rustdesk.owner", other.OwnerData())]
                  && s3.At(other).applied && s3.At(other).pending == s.At(other).pending + 1
  {
    hide Get;
    var other := side.Other();
    assert (s.To(other) + [Get(s.files, content, side, false)])[..|s.To(other)|] == s.To(other);
  }

  // ----- after the last copy -----

  /** Notifications that may still cause a message. */
  ghost function Loud(s: System): nat {
    (if Silent(s, Host) then 0 else s.host.pending) + (if Silent(s, Client) then 0 else s.client.pending)
  }

  function InFlight(s: System): nat {
    |s.toHost| + |s.toClient|
  }

  function Pending(s: System): nat {
    s.host.pending + s.client.pending
  }

  function Sent(s: System): nat {
    s.host.sent + s.client.sent
  }

  /** Every step that is neither a copy nor an initial sync lowers the lexicographic measure of loud
      notifications, messages on their way, and all notifications; and a message costs a loud
      notification. */
  lemma StepDecreases(s: System, step: Step)
    requires Enabled(s, step) && !step.Copy? && !step.InitialSync?
    ensures var s' := Next(s, step);
            && (|| Loud(s') < Loud(s)
                || (Loud(s') == Loud(s) && InFlight(s') < InFlight(s))
                || (Loud(s') == Loud(s) && InFlight(s') == InFlight(s) && Pending(s') < Pending(s)))
            && Sent(s') + Loud(s') <= Sent(s) + Loud(s)
            && Budget(s') < Budget(s)
  {
    hide Silent, Loud, Next;
    match step
    case Deliver(_, _, _, _) => DeliverCounts(s, step);
    case Check(_, _, _) => CheckCounts(s, step);
  }

  /** A delivery takes one message off its way and makes no notification loud. */
  lemma DeliverCounts(s: System, step: Step)
    requires Enabled(s, step) && step.Deliver?
    ensures var s' := Next(s, step);
            && Loud(s') <= Loud(s) && InFlight(s') == InFlight(s) - 1
            && Pending(s') <= Pending(s) + 1 && Sent(s') == Sent(s)
  {
    hide Get, WithOwner;
    AppliedIsSilent(s.files, step.update, step.side, step.side);
  }

  /** A check takes one notification, a loud one if it sends a message. */
  lemma CheckCounts(s: System, step: Step)
    requires Enabled(s, step) && step.Check?
    ensures var s' := Next(s, step);
            var messages := Sent(s') - Sent(s);
            && 0 <= messages <= 1 && InFlight(s') == InFlight(s) + messages
            && Loud(s') <= Loud(s) - messages && Pending(s') == Pending(s) - 1
  {
    hide Get;
  }

  /** An initial sync sends one message at most and changes nothing else that counts. */
  lemma SyncAddsOne(s: System, step: Step)
    requires step.InitialSync?
    ensures var s' := Next(s, step);
            && Sent(s') <= Sent(s) + 1 && Loud(s') == Loud(s)
            && Budget(s') <= Budget(s) + 2
  {
    hide Get;
  }

  /** A bound on the steps left. */
  ghost function Budget(s: System): nat {
    2 * Loud(s) + 2 * InFlight(s) + Pending(s)
  }

  ghost predicate NoCopies(steps: seq<Step>) {
    forall k :: 0 <= k < |steps| ==> !steps[k].Copy?
  }

  /** After the last user copy the messages still sent number at most the notifications pending then and
      the initial syncs to come; and the whole exchange stops within a fixed number of steps, three more
      for each initial sync. */
  lemma Quiescence(trace: seq<System>, steps: seq<Step>)
    requires Execution(trace, steps) && NoCopies(steps)
    ensures Sent(trace[|steps|]) - Sent(trace[0]) <= Loud(trace[0]) + Syncs(steps) <= Pending(trace[0]) + Syncs(steps)
    ensures |steps| <= Budget(trace[0]) + 3 * Syncs(steps)
    ensures Budget(trace[0]) <= 3 * Pending(trace[0]) + 2 * InFlight(trace[0])
  {
    QuiescenceSteps(trace, steps);
  }

  lemma {:induction false} QuiescenceSteps(trace: seq<System>, steps: seq<Step>)
    requires Execution(trace, steps) && NoCopies(steps)
    ensures Sent(trace[|steps|]) + Loud(trace[|steps|]) <= Sent(trace[0]) + Loud(trace[0]) + Syncs(steps)
    ensures |steps| + Budget(trace[|steps|]) <= Budget(trace[0]) + 3 * Syncs(steps)
  {
    hide Sent, Loud, Budget;
    if steps != [] {
      var last := |steps| - 1;
      QuiescenceSteps(trace[..last + 1], steps[..last]);
      assert trace[last + 1] == Next(trace[last], steps[last]);
      if steps[last].InitialSync? {
        SyncAddsOne(trace[last], steps[last]);
      } else {
        StepDecreases(trace[last], steps[last]);
      }
    }
  }

  /** Copies and new connections apart, it only stops when nothing is pending and nothing is on its way. */
  lemma StopsOnlyWhenQuiet(s: System)
    ensures (forall step :: Enabled(s, step) ==> step.Copy? || step.InitialSync?)
            <==> Pending(s) == 0 && InFlight(s) == 0
  {
    if s.host.pending > 0 {
      assert Enabled(s, Check(Host, true, true));
    }
    if s.client.pending > 0 {
      assert Enabled(s, Check(Client, true, true));
    }
    if |s.toHost| > 0 {
      assert Enabled(s, Deliver(Host, 0, [], true));
    }
    if |s.toClient| > 0 {
      assert Enabled(s, Deliver(Client, 0, [], true));
    }
  }
}
