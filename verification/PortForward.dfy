/** Port forwarding: local bytes read while the remote login is under way are held back, flushed once,
    and then both directions are copied (vntcrustdesk-src/src/port_forward.rs:106-219). */
module PortForward {
  import opened Basics

  /** What was handed to the remote stream: a framed protocol message, or raw bytes and whether the
      send succeeded; a failed send is only logged. */
  datatype Out = Framed(message: nat) | Raw(bytes: Bytes, ok: bool)

  /** What the login loop's select wakes up with. `sends` are the messages a handler sends in reply. */
  datatype LoginEvent =
    | RemoteTimeout
    | RemoteClosed
    | RemoteUnparsable
    | RemoteHash(sends: seq<nat>)
    | RemoteLoginError(tryAgain: bool)
    | RemotePeerInfo
    | RemoteTestDelay(sends: seq<nat>)
    | RemoteOther
    | UiLogin(sends: seq<nat>)
    | UiMessage(message: nat)
    | UiOther
    | LocalData(bytes: Bytes)
    | LocalClosed

  datatype ForwardEvent =
    | FromLocal(bytes: Bytes, ok: bool)
    | FromRemote(bytes: Bytes, ok: bool)
    | LocalEnd
    | RemoteEnd

  datatype LoginResult = LoggedIn | GivenUp | Failed | Waiting

  datatype Conn = Conn(
    buffer: Bytes,
    received: bool,
    toRemote: seq<Out>,
    toLocal: seq<Out>,
    readLocal: Bytes,    // everything read from the local socket so far
    readRemote: Bytes)   // every raw byte received from the remote so far

  const FRESH: Conn := Conn([], false, [], [], [], [])

  function FramedAll(messages: seq<nat>): (r: seq<Out>)
    ensures |r| == |messages| && forall k :: 0 <= k < |r| ==> r[k] == Framed(messages[k])
  {
    seq(|messages|, k requires 0 <= k < |messages| => Framed(messages[k]))
  }

  /** The raw bytes that went out. */
  function RawSent(outs: seq<Out>): Bytes {
    if outs == [] then []
    else
      var last := outs[|outs| - 1];
      RawSent(outs[..|outs| - 1]) + if last.Raw? && last.ok then last.bytes else []
  }

  predicate FromPeer(e: LoginEvent) {
    || e.RemoteUnparsable? || e.RemoteHash? || e.RemoteLoginError? || e.RemotePeerInfo? || e.RemoteTestDelay?
    || e.RemoteOther?
  }

  /** The effect of one event of the login loop on the connection. */
  function OnLogin(c: Conn, e: LoginEvent): Conn {
    var c' := if FromPeer(e) then c.(received := true) else c;
    match e
    case RemoteHash(sends) => c'.(toRemote := c.toRemote + FramedAll(sends))
    case RemoteTestDelay(sends) => c'.(toRemote := c.toRemote + FramedAll(sends))
    case UiLogin(sends) => c'.(toRemote := c.toRemote + FramedAll(sends))
    case UiMessage(m) => c'.(toRemote := c.toRemote + [Framed(m)])
    case LocalData(bytes) => c'.(buffer := c.buffer + bytes, readLocal := c.readLocal + bytes)
    case _ => c'
  }

  /** Whether the event ends the loop, and how. */
  function Ends(e: LoginEvent): LoginResult {
    match e
    case RemotePeerInfo => LoggedIn
    case RemoteLoginError(tryAgain) => if tryAgain then Waiting else GivenUp
    case LocalClosed => GivenUp
    case RemoteTimeout => Failed
    case RemoteClosed => Failed
    case RemoteUnparsable => Failed
    case _ => Waiting
  }

  function Login(c: Conn, events: seq<LoginEvent>): (LoginResult, Conn)
    decreases |events|
  {
    if events == [] then (Waiting, c)
    else
      var c' := OnLogin(c, events[0]);
      if Ends(events[0]).Waiting? then Login(c', events[1..]) else (Ends(events[0]), c')
  }

  function Flush(c: Conn, ok: bool): Conn {
    if c.buffer == [] then c else c.(toRemote := c.toRemote + [Raw(c.buffer, ok)])
  }

  /** One read from either side is sent on to the other. */
  function Forwarded(c: Conn, e: ForwardEvent): Conn {
    match e
    case FromLocal(bytes, ok) => c.(toRemote := c.toRemote + [Raw(bytes, ok)], readLocal := c.readLocal + bytes)
    case FromRemote(bytes, ok) => c.(toLocal := c.toLocal + [Raw(bytes, ok)], readRemote := c.readRemote + bytes)
    case _ => c
  }

  function Forward(c: Conn, events: seq<ForwardEvent>): Conn
    decreases |events|
  {
    if events == [] || events[0].LocalEnd? || events[0].RemoteEnd? then c
    else Forward(Forwarded(c, events[0]), events[1..])
  }

  // ----- conservation -----

  /** Before the login is through: nothing raw has gone out, and all that was read is held back. */
  ghost predicate HeldBack(c: Conn) {
    && (forall k :: 0 <= k < |c.toRemote| ==> c.toRemote[k].Framed?)
    && c.buffer == c.readLocal
    && c.toLocal == [] && c.readRemote == []
  }

  /** The events that end the login loop: the peer information, a refusal without another try, the local side
      closing, and a remote that is silent, gone or not understood. */
  predicate EndsLoop(e: LoginEvent) {
    || e.RemotePeerInfo? || (e.RemoteLoginError? && !e.tryAgain) || e.LocalClosed?
    || e.RemoteTimeout? || e.RemoteClosed? || e.RemoteUnparsable?
  }

  /** In every select order no raw byte reaches the remote before the peer information arrives, and
      every byte read from the local socket by then is in the buffer, in order. */
  lemma {:induction false} NothingRawBeforeLogin(c: Conn, events: seq<LoginEvent>)
    requires HeldBack(c)
    ensures HeldBack(Login(c, events).1)
    ensures Login(c, events).0.LoggedIn? <==>
              exists k :: 0 <= k < |events| && events[k].RemotePeerInfo?
                          && forall j :: 0 <= j < k ==> !EndsLoop(events[j])
  {
    var n := LoginExactly(c, events);
    HeardExactly(c, events[..n]);
    if n > 0 && events[n - 1].RemotePeerInfo? {
      assert Login(c, events).0.LoggedIn?;
    }
  }

  /** All the events so far, from `c` on. */
  function Heard(c: Conn, events: seq<LoginEvent>): Conn {
    if events == [] then c else OnLogin(Heard(c, events[..|events| - 1]), events[|events| - 1])
  }

  lemma {:induction false} HeardFirst(c: Conn, e: LoginEvent, events: seq<LoginEvent>)
    ensures Heard(c, [e] + events) == Heard(OnLogin(c, e), events)
  {
    hide OnLogin;
    var last := |events| - 1;
    if events == [] {
      assert ([e] + events)[..0] == [] && Heard(c, []) == c;
    } else {
      assert ([e] + events)[..|events|] == [e] + events[..last];
      HeardFirst(c, e, events[..last]);
    }
  }

  /** The loop reads events up to the first that ends it, whose kind decides the result. */
  lemma {:induction false} LoginExactly(c: Conn, events: seq<LoginEvent>) returns (n: nat)
    ensures n <= |events| && (forall j :: 0 <= j < n - 1 ==> !EndsLoop(events[j]))
    ensures (n == 0 <==> events == []) && (n < |events| ==> n > 0 && EndsLoop(events[n - 1]))
    ensures Login(c, events).1 == Heard(c, events[..n])
    ensures Login(c, events).0 ==
            if n == 0 || !EndsLoop(events[n - 1]) then Waiting
            else if events[n - 1].RemotePeerInfo? then LoggedIn
            else if events[n - 1].RemoteLoginError? || events[n - 1].LocalClosed? then GivenUp
            else Failed
    decreases |events|
  {
    hide OnLogin;
    n := 0;
    if events != [] {
      var rest := events[1..];
      if EndsLoop(events[0]) {
        n := 1;
        HeardFirst(c, events[0], []);
        assert events[..1] == [events[0]] + [];
      } else {
        var m := LoginExactly(OnLogin(c, events[0]), rest);
        n := 1 + m;
        HeardFirst(c, events[0], rest[..m]);
        assert events[..n] == [events[0]] + rest[..m];
        assert forall j :: 0 < j < |events| ==> events[j] == rest[j - 1];
      }
    }
  }

  /** What the local socket had to say. */
  function LocalBytes(events: seq<LoginEvent>): Bytes {
    if events == [] then []
    else
      var e := events[|events| - 1];
      LocalBytes(events[..|events| - 1]) + if e.LocalData? then e.bytes else []
  }

  /** What the handlers answer to a hash, a delay test and the user's login, and what the UI sends itself. */
  function Reply(e: LoginEvent): seq<nat> {
    match e
    case RemoteHash(sends) => sends
    case RemoteTestDelay(sends) => sends
    case UiLogin(sends) => sends
    case UiMessage(m) => [m]
    case _ => []
  }

  function Replies(events: seq<LoginEvent>): seq<nat> {
    if events == [] then [] else Replies(events[..|events| - 1]) + Reply(events[|events| - 1])
  }

  lemma FramedAppend(xs: seq<nat>, ys: seq<nat>)
    ensures FramedAll(xs + ys) == FramedAll(xs) + FramedAll(ys)
  {
  }

  lemma OneEvent(c: Conn, e: LoginEvent)
    ensures var c' := OnLogin(c, e);
            && c'.buffer == c.buffer + (if e.LocalData? then e.bytes else [])
            && c'.readLocal == c.readLocal + (if e.LocalData? then e.bytes else [])
            && c'.toRemote == c.toRemote + FramedAll(Reply(e))
            && c'.toLocal == c.toLocal && c'.readRemote == c.readRemote
            && c'.received == (c.received || !(e.RemoteTimeout? || e.RemoteClosed? || e.UiLogin? || e.UiMessage?
                                               || e.UiOther? || e.LocalData? || e.LocalClosed?))
  {
    assert FramedAll([]) == [];
    assert e.UiMessage? ==> FramedAll([e.message]) == [Framed(e.message)];
  }

  /** `c'` is `c` with these local bytes read and held, and these messages sent. */
  ghost predicate Grown(c: Conn, c': Conn, read: Bytes, sent: seq<nat>) {
    && c'.buffer == c.buffer + read && c'.readLocal == c.readLocal + read
    && c'.toRemote == c.toRemote + FramedAll(sent)
    && c'.toLocal == c.toLocal && c'.readRemote == c.readRemote
  }

  lemma GrownTwice(c: Conn, c1: Conn, c2: Conn, read: Bytes, more: Bytes, sent: seq<nat>, later: seq<nat>)
    requires Grown(c, c1, read, sent) && Grown(c1, c2, more, later)
    ensures Grown(c, c2, read + more, sent + later)
  {
    FramedAppend(sent, later);
    hide FramedAll;
  }

  /** The login loop puts all local bytes in the buffer and sends the remote exactly the messages of its
      handlers and of the UI, each in order, and nothing else. */
  lemma {:induction false} HeardExactly(c: Conn, events: seq<LoginEvent>)
    ensures Grown(c, Heard(c, events), LocalBytes(events), Replies(events))
  {
    if events != [] {
      var before, e := events[..|events| - 1], events[|events| - 1];
      HeardExactly(c, before);
      OneEvent(Heard(c, before), e);
      hide OnLogin, Reply;
      assert Grown(Heard(c, before), Heard(c, events), if e.LocalData? then e.bytes else [], Reply(e));
      hide Grown;
      GrownTwice(c, Heard(c, before), Heard(c, events), LocalBytes(before), if e.LocalData? then e.bytes else [],
                 Replies(before), Reply(e));
    }
  }

  lemma {:induction false} FramedSendsNothing(outs: seq<Out>)
    requires forall k :: 0 <= k < |outs| ==> outs[k].Framed?
    ensures RawSent(outs) == []
  {
    if outs != [] {
      FramedSendsNothing(outs[..|outs| - 1]);
    }
  }

  lemma RawSentAppend(outs: seq<Out>, o: Out)
    ensures RawSent(outs + [o]) == RawSent(outs) + if o.Raw? && o.ok then o.bytes else []
  {
    assert (outs + [o])[..|outs|] == outs;
  }

  /** The bytes of a direction are conserved up to `lost`, the number of bytes in failed sends. */
  function Lost(outs: seq<Out>): nat {
    if outs == [] then 0
    else
      var last := outs[|outs| - 1];
      Lost(outs[..|outs| - 1]) + if last.Raw? && !last.ok then |last.bytes| else 0
  }

  lemma LostAppend(outs: seq<Out>, o: Out)
    ensures Lost(outs + [o]) == Lost(outs) + if o.Raw? && !o.ok then |o.bytes| else 0
  {
    assert (outs + [o])[..|outs|] == outs;
  }

  lemma {:induction false} FramedLosesNothing(outs: seq<Out>)
    requires forall k :: 0 <= k < |outs| ==> outs[k].Framed?
    ensures Lost(outs) == 0
  {
    if outs != [] {
      FramedLosesNothing(outs[..|outs| - 1]);
    }
  }

  /** Both directions: as many bytes arrived as were read less the lost ones, and while none is lost
      exactly the bytes read, in order. */
  ghost predicate Conserved(c: Conn) {
    && |RawSent(c.toRemote)| + Lost(c.toRemote) == |c.readLocal|
    && (Lost(c.toRemote) == 0 ==> RawSent(c.toRemote) == c.readLocal)
    && |RawSent(c.toLocal)| + Lost(c.toLocal) == |c.readRemote|
    && (Lost(c.toLocal) == 0 ==> RawSent(c.toLocal) == c.readRemote)
  }

  lemma FlushConserves(c: Conn, ok: bool)
    requires HeldBack(c)
    ensures Conserved(Flush(c, ok))
  {
    FramedSendsNothing(c.toRemote);
    FramedLosesNothing(c.toRemote);
    RawSentAppend(c.toRemote, Raw(c.buffer, ok));
    LostAppend(c.toRemote, Raw(c.buffer, ok));
  }

  lemma ForwardedConserves(c: Conn, e: ForwardEvent)
    requires Conserved(c)
    ensures Conserved(Forwarded(c, e))
  {
    match e
    case FromLocal(bytes, ok) =>
      RawSentAppend(c.toRemote, Raw(bytes, ok));
      LostAppend(c.toRemote, Raw(bytes, ok));
    case FromRemote(bytes, ok) =>
      RawSentAppend(c.toLocal, Raw(bytes, ok));
      LostAppend(c.toLocal, Raw(bytes, ok));
    case _ =>
  }

  lemma {:induction false} ForwardConserves(c: Conn, events: seq<ForwardEvent>)
    requires Conserved(c)
    ensures Conserved(Forward(c, events))
    decreases |events|
  {
    hide Conserved, Forwarded;
    if events != [] && !events[0].LocalEnd? && !events[0].RemoteEnd? {
      ForwardedConserves(c, events[0]);
      ForwardConserves(Forwarded(c, events[0]), events[1..]);
    }
  }

  // What the forwarding loop is given.

  function FromLocalBytes(events: seq<ForwardEvent>): Bytes {
    if events == [] then []
    else (if events[0].FromLocal? then events[0].bytes else []) + FromLocalBytes(events[1..])
  }

  function FromRemoteBytes(events: seq<ForwardEvent>): Bytes {
    if events == [] then []
    else (if events[0].FromRemote? then events[0].bytes else []) + FromRemoteBytes(events[1..])
  }

  predicate Over(e: ForwardEvent) {
    e.LocalEnd? || e.RemoteEnd?
  }

  /** Some bytes of the local side, or of the remote one, were in a failed send. */
  predicate LocalLost(events: seq<ForwardEvent>) {
    exists k :: 0 <= k < |events| && events[k].FromLocal? && !events[k].ok && events[k].bytes != []
  }

  predicate RemoteLost(events: seq<ForwardEvent>) {
    exists k :: 0 <= k < |events| && events[k].FromRemote? && !events[k].ok && events[k].bytes != []
  }

  lemma OneForwarded(c: Conn, e: ForwardEvent)
    ensures var c' := Forwarded(c, e);
            && c'.readLocal == c.readLocal + (if e.FromLocal? then e.bytes else [])
            && c'.readRemote == c.readRemote + (if e.FromRemote? then e.bytes else [])
            && Lost(c'.toRemote) == Lost(c.toRemote) + (if e.FromLocal? && !e.ok then |e.bytes| else 0)
            && Lost(c'.toLocal) == Lost(c.toLocal) + (if e.FromRemote? && !e.ok then |e.bytes| else 0)
  {
    if e.FromLocal? {
      LostAppend(c.toRemote, Raw(e.bytes, e.ok));
    } else if e.FromRemote? {
      LostAppend(c.toLocal, Raw(e.bytes, e.ok));
    }
  }

  lemma LostFirst(e: ForwardEvent, events: seq<ForwardEvent>)
    ensures LocalLost([e] + events) <==> LocalLost(events) || (e.FromLocal? && !e.ok && e.bytes != [])
    ensures RemoteLost([e] + events) <==> RemoteLost(events) || (e.FromRemote? && !e.ok && e.bytes != [])
  {
    var all := [e] + events;
    assert forall k :: 0 <= k < |events| ==> all[k + 1] == events[k];
    if k :| 0 <= k < |events| && events[k].FromLocal? && !events[k].ok && events[k].bytes != [] {
      assert all[k + 1].FromLocal? && !all[k + 1].ok && all[k + 1].bytes != [];
    }
    if k :| 0 <= k < |events| && events[k].FromRemote? && !events[k].ok && events[k].bytes != [] {
      assert all[k + 1].FromRemote? && !all[k + 1].ok && all[k + 1].bytes != [];
    }
    assert all[0] == e;
  }

  /** What a stretch of forwarding did. */
  ghost predicate Copied(c: Conn, c': Conn, events: seq<ForwardEvent>) {
    && c'.readLocal == c.readLocal + FromLocalBytes(events)
    && c'.readRemote == c.readRemote + FromRemoteBytes(events)
    && (Lost(c'.toRemote) == 0 <==> Lost(c.toRemote) == 0 && !LocalLost(events))
    && (Lost(c'.toLocal) == 0 <==> Lost(c.toLocal) == 0 && !RemoteLost(events))
  }

  lemma CopiedFirst(c: Conn, e: ForwardEvent, c': Conn, events: seq<ForwardEvent>)
    requires Copied(Forwarded(c, e), c', events)
    ensures Copied(c, c', [e] + events)
  {
    OneForwarded(c, e);
    LostFirst(e, events);
    BytesFirst(e, events);
    hide Forwarded, Lost, LocalLost, RemoteLost, FromLocalBytes, FromRemoteBytes;
  }

  lemma CopiedNothing(c: Conn)
    ensures Copied(c, c, [])
  {
  }

  /** The forwarding loop copies everything up to the first end of either side, and nothing after it; a byte
      is lost exactly where a send failed. */
  lemma {:induction false} ForwardExactly(c: Conn, events: seq<ForwardEvent>) returns (n: nat)
    ensures n <= |events| && (forall j :: 0 <= j < n ==> !Over(events[j])) && (n < |events| ==> Over(events[n]))
    ensures Copied(c, Forward(c, events), events[..n])
    decreases |events|
  {
    hide Copied, Forwarded;
    n := 0;
    CopiedNothing(c);
    assert events[..0] == [];
    if events != [] && !Over(events[0]) {
      var e, rest := events[0], events[1..];
      var m := ForwardExactly(Forwarded(c, e), rest);
      n := 1 + m;
      CopiedFirst(c, e, Forward(c, events), rest[..m]);
      assert events[..n] == [e] + rest[..m];
      assert forall j :: 0 < j < |events| ==> events[j] == rest[j - 1];
    }
  }

  lemma BytesFirst(e: ForwardEvent, events: seq<ForwardEvent>)
    ensures FromLocalBytes([e] + events) == (if e.FromLocal? then e.bytes else []) + FromLocalBytes(events)
    ensures FromRemoteBytes([e] + events) == (if e.FromRemote? then e.bytes else []) + FromRemoteBytes(events)
  {
    assert ([e] + events)[1..] == events;
  }

  /** A whole connection that logs in: at every moment after the flush the raw bytes at the remote are
      exactly the bytes read from the local socket, in order, if and only if no byte was in a failed
      send; and the same in the other direction for the bytes received after login. */
  lemma ByteConservation(login: seq<LoginEvent>, flushOk: bool, forward: seq<ForwardEvent>)
    requires Login(FRESH, login).0.LoggedIn?
    ensures var c := Forward(Flush(Login(FRESH, login).1, flushOk), forward);
            && (RawSent(c.toRemote) == c.readLocal <==> Lost(c.toRemote) == 0)
            && (RawSent(c.toLocal) == c.readRemote <==> Lost(c.toLocal) == 0)
  {
    NothingRawBeforeLogin(FRESH, login);
    FlushConserves(Login(FRESH, login).1, flushOk);
    ForwardConserves(Flush(Login(FRESH, login).1, flushOk), forward);
  }

  /** The same from end to end, in terms of what the sockets gave: the remote gets all the local bytes of the
      login loop and then those of the forwarding loop, and the local side all the remote ones, if and only
      if no send of any bytes failed. */
  lemma EndToEnd(login: seq<LoginEvent>, flushOk: bool, forward: seq<ForwardEvent>) returns (n: nat, m: nat)
    requires Login(FRESH, login).0.LoggedIn?
    ensures 0 < n <= |login| && login[n - 1].RemotePeerInfo? && forall j :: 0 <= j < n - 1 ==> !EndsLoop(login[j])
    ensures m <= |forward| && (forall j :: 0 <= j < m ==> !Over(forward[j])) && (m < |forward| ==> Over(forward[m]))
    ensures var c, held := Forward(Flush(Login(FRESH, login).1, flushOk), forward), LocalBytes(login[..n]);
            && (RawSent(c.toRemote) == held + FromLocalBytes(forward[..m]) <==>
                  (flushOk || held == []) && !LocalLost(forward[..m]))
            && (RawSent(c.toLocal) == FromRemoteBytes(forward[..m]) <==> !RemoteLost(forward[..m]))
  {
    n := LoginExactly(FRESH, login);
    var c := Login(FRESH, login).1;
    FlushExactly(c, login[..n], flushOk);
    m := ForwardExactly(Flush(c, flushOk), forward);
    ByteConservation(login, flushOk, forward);
    hide Login, Forward, Flush, Heard, Lost, RawSent, LocalLost, RemoteLost, FromLocalBytes, FromRemoteBytes;
  }

  lemma FlushExactly(c: Conn, login: seq<LoginEvent>, ok: bool)
    requires c == Heard(FRESH, login)
    ensures var c', held := Flush(c, ok), LocalBytes(login);
            && c'.readLocal == held && c'.readRemote == []
            && (Lost(c'.toRemote) == 0 <==> ok || held == []) && Lost(c'.toLocal) == 0
  {
    HeardExactly(FRESH, login);
    FramedLosesNothing(c.toRemote);
    LostAppend(c.toRemote, Raw(c.buffer, ok));
    hide Heard, FramedAll, Replies;
  }

  // ----- the loops -----

  class Tunnel {
    var buffer: Bytes
    var received: bool
    var toRemote: seq<Out>
    var toLocal: seq<Out>
    ghost var readLocal: Bytes
    ghost var readRemote: Bytes

    ghost function State(): Conn
      reads this
    {
      Conn(buffer, received, toRemote, toLocal, readLocal, readRemote)
    }

    constructor ()
      ensures State() == FRESH
    {
      buffer, received, toRemote, toLocal, readLocal, readRemote := [], false, [], [], [], [];
    }

    /** `connect_and_login`: the select loop, then the flush. */
    method ConnectAndLogin(events: seq<LoginEvent>, flushOk: bool) returns (r: LoginResult)
      modifies this
      ensures r == Login(old(State()), events).0
      ensures State() == (if r.LoggedIn? then Flush(Login(old(State()), events).1, flushOk)
                          else Login(old(State()), events).1)
    {
      ghost var spec := Login(State(), events);
      r := Waiting;
      for k := 0 to |events|
        invariant r == Waiting && spec == Login(State(), events[k..])
      {
        assert events[k..][0] == events[k] && events[k..][1..] == events[k + 1..];
        if FromPeer(events[k]) && !received {
          received := true;
        }
        match events[k] {
          case RemoteTimeout => return Failed;
          case RemoteClosed => return Failed;
          case RemoteUnparsable => return Failed;
          case RemoteHash(sends) => toRemote := toRemote + FramedAll(sends);
          case RemoteLoginError(tryAgain) =>
            if !tryAgain {
              return GivenUp;
            }
          case RemotePeerInfo =>
            if buffer != [] {
              toRemote := toRemote + [Raw(buffer, flushOk)];
            }
            return LoggedIn;
          case RemoteTestDelay(sends) => toRemote := toRemote + FramedAll(sends);
          case RemoteOther =>
          case UiLogin(sends) => toRemote := toRemote + FramedAll(sends);
          case UiMessage(m) => toRemote := toRemote + [Framed(m)];
          case UiOther =>
          case LocalData(bytes) =>
            buffer := buffer + bytes;
            readLocal := readLocal + bytes;
          case LocalClosed => return GivenUp;
        }
      }
    }

    /** `run_forward`. */
    method RunForward(events: seq<ForwardEvent>)
      modifies this
      ensures State() == Forward(old(State()), events)
    {
      ghost var spec := Forward(State(), events);
      for k := 0 to |events|
        invariant spec == Forward(State(), events[k..])
      {
        assert events[k..][0] == events[k] && events[k..][1..] == events[k + 1..];
        match events[k] {
          case FromLocal(bytes, ok) =>
            toRemote := toRemote + [Raw(bytes, ok)];
            readLocal := readLocal + bytes;
          case FromRemote(bytes, ok) =>
            toLocal := toLocal + [Raw(bytes, ok)];
            readRemote := readRemote + bytes;
          case _ => return;
        }
      }
    }
  }
}
