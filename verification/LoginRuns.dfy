/** Whole runs of the login handler: several connections to one peer, whose salt stays the same,
    chained by connection tokens. */
module LoginRuns {
  import opened Basics
  import opened LoginPassword

  datatype Event =
    | Hash(preset: Bytes, personal: Bytes, builtin: Bytes)
    | LoginError(passwordRefused: bool)
    | UiLogin(typed: Bytes, remember: bool)
    | TakeToken
    | Connect(loaded: Bytes, shared: Option<Bytes>, switchId: SwitchId, ticket: Option<nat>)
    | PeerInfo(loaded: Bytes)

  /** A token together with the true origin of the password in it. */
  datatype Ticket = Ticket(token: ConnToken, fromShared: bool)

  /** The handler in use and, independently of its source tag, whether the stored password was
      really computed from a shared address book or the built-in default. A password read from the
      peer's configuration counts as the peer's own. */
  datatype Run = Run(st: LoginState, fromShared: bool, tickets: seq<Ticket>)

  const BLANK: LoginState := LoginState([], [], Undefined, false, [], None, NoSwitch)
  const START: Run := Run(BLANK, false, [])

  /** The origin of the password selected by a hash message. */
  ghost predicate SelectsShared(st: LoginState, before: bool, e: Event)
    requires e.Hash?
  {
    if st.sharedPassword.Some? && st.sharedPassword.value != [] then true
    else if st.password != [] then before
    else e.preset == [] && st.configPassword == [] && e.personal == [] && e.builtin != []
  }

  /** Only a token that was taken can be used. The messages of the peer come in any order: nothing
      makes it send a hash before the information that ends the login. */
  ghost predicate Enabled(r: Run, e: Event) {
    match e
    case Connect(_, _, _, Some(k)) => k < |r.tickets|
    case _ => true
  }

  ghost function Next(sha: Sha256, salt: Bytes, r: Run, e: Event): Run
    requires Enabled(r, e)
  {
    match e
    case Hash(preset, personal, builtin) =>
      r.(st := HashReceived(sha, r.st, salt, preset, personal, builtin),
         fromShared := if r.st.switchId.WellFormed? then r.fromShared else SelectsShared(r.st, r.fromShared, e))
    case LoginError(refused) =>
      if refused then r.(st := r.st.(password := []), fromShared := false) else r
    case UiLogin(typed, remember) =>
      r.(st := LoginFromUi(sha, r.st, typed, remember),
         fromShared := typed == [] && r.st.password != [] && r.fromShared)
    case TakeToken =>
      var t := TokenOf(r.st);
      if t.None? then r else r.(tickets := r.tickets + [Ticket(t.value, r.fromShared)])
    case Connect(loaded, shared, switchId, None) =>
      r.(st := Initialized(BLANK, loaded, shared, switchId, None), fromShared := false)
    case Connect(loaded, shared, switchId, Some(k)) =>
      r.(st := Initialized(BLANK, loaded, shared, switchId, Some(r.tickets[k].token)),
         fromShared := r.tickets[k].fromShared)
    case PeerInfo(loaded) =>
      r.(st := r.st.(configPassword := ConfigAfterPeerInfo(sha, r.st, loaded)))
  }

  /** The run after a trace of events, if each was enabled. */
  ghost function After(sha: Sha256, salt: Bytes, trace: seq<Event>): Option<Run> {
    if trace == [] then Some(START)
    else
      var last := |trace| - 1;
      var p := After(sha, salt, trace[..last]);
      if p.None? || !Enabled(p.value, trace[last]) then None
      else Some(Next(sha, salt, p.value, trace[last]))
  }

  // ----- provenance -----

  ghost predicate Accounted(sha: Sha256, salt: Bytes, password: Bytes, source: Source) {
    || password == []
    || source.Undefined?
    || source == PersonalAb(password)
    || (source.SharedAb? && password == sha(source.text + salt))
  }

  /** The tag does not hide that a password came from a shared book. */
  ghost predicate Honest(sha: Sha256, salt: Bytes, password: Bytes, source: Source, fromShared: bool) {
    fromShared && password != [] ==> source.SharedAb? && password == sha(source.text + salt)
  }

  ghost predicate Inv(sha: Sha256, salt: Bytes, r: Run) {
    && Accounted(sha, salt, r.st.password, r.st.source)
    && (r.fromShared && r.st.password != [] ==> !r.st.source.PersonalAb?)
    && forall k :: 0 <= k < |r.tickets| ==>
         var t := r.tickets[k];
         && Accounted(sha, salt, t.token.password, t.token.source)
         && (t.fromShared ==> !t.token.source.PersonalAb?)
  }

  ghost predicate AllHonest(sha: Sha256, salt: Bytes, r: Run) {
    && Honest(sha, salt, r.st.password, r.st.source, r.fromShared)
    && forall k :: 0 <= k < |r.tickets| ==>
         var t := r.tickets[k];
         Honest(sha, salt, t.token.password, t.token.source, t.fromShared)
  }

  lemma NextKeepsInv(sha: Sha256, salt: Bytes, r: Run, e: Event)
    requires Inv(sha, salt, r) && Enabled(r, e)
    requires r.st.salt == salt || r.st.salt == []
    ensures Inv(sha, salt, Next(sha, salt, r, e))
  {
    match e
    case Hash(preset, personal, builtin) => ChoiceCases(sha, r.st, salt, preset, personal, builtin);
    case _ =>
  }

  /** Provenance over every run: the stored password is empty, or its source is Undefined, or it is
      the personal address book's, or it is the salted hash of the shared text in the tag. The same
      holds of every token handed out. */
  lemma {:induction false} Provenance(sha: Sha256, salt: Bytes, trace: seq<Event>, r: Run)
    requires After(sha, salt, trace) == Some(r)
    ensures Inv(sha, salt, r) && (r.st.salt == salt || r.st.salt == [])
  {
    if trace != [] {
      var last := |trace| - 1;
      var p := After(sha, salt, trace[..last]).value;
      Provenance(sha, salt, trace[..last], p);
      NextKeepsInv(sha, salt, p, trace[last]);
    }
  }

  /** The event that hides a shared password: the switch-sides branch of `handle_hash`, taken while
      such a password is stored. */
  ghost predicate Hides(r: Run, e: Event) {
    e.Hash? && r.st.switchId.WellFormed? && r.fromShared && r.st.password != []
  }

  /** The tags stay honest through a step exactly when the step is not that branch. */
  lemma HonestExactly(sha: Sha256, salt: Bytes, r: Run, e: Event)
    requires AllHonest(sha, salt, r) && Enabled(r, e)
    ensures AllHonest(sha, salt, Next(sha, salt, r, e)) <==> !Hides(r, e)
  {
    match e
    case Hash(preset, personal, builtin) => ChoiceCases(sha, r.st, salt, preset, personal, builtin);
    case _ =>
  }

  ghost predicate NeverSwitches(trace: seq<Event>) {
    forall k :: 0 <= k < |trace| ==> trace[k].Connect? ==> !trace[k].switchId.WellFormed?
  }

  lemma {:induction false} HonestRuns(sha: Sha256, salt: Bytes, trace: seq<Event>, r: Run)
    requires After(sha, salt, trace) == Some(r) && NeverSwitches(trace)
    ensures AllHonest(sha, salt, r) && !r.st.switchId.WellFormed?
  {
    if trace != [] {
      var last := |trace| - 1;
      var p := After(sha, salt, trace[..last]).value;
      HonestRuns(sha, salt, trace[..last], p);
      HonestExactly(sha, salt, p, trace[last]);
    }
  }

  /** A password from a shared book is written to the peer's configuration, where it was not. */
  ghost predicate StoresShared(sha: Sha256, r: Run, loaded: Bytes) {
    var kept := ConfigAfterPeerInfo(sha, r.st, loaded);
    kept != loaded && kept != [] && r.fromShared
  }

  /** A hash message arrived since the connection was opened. */
  ghost predicate HashSinceConnect(trace: seq<Event>) {
    exists k :: 0 <= k < |trace| && trace[k].Hash? && forall j :: k < j < |trace| ==> !trace[j].Connect?
  }

  lemma {:induction false} SaltKnown(sha: Sha256, salt: Bytes, trace: seq<Event>, r: Run)
    requires After(sha, salt, trace) == Some(r) && HashSinceConnect(trace)
    ensures r.st.salt == salt
  {
    var last := |trace| - 1;
    if !trace[last].Hash? {
      var p := After(sha, salt, trace[..last]).value;
      var k :| 0 <= k < |trace| && trace[k].Hash? && forall j :: k < j < |trace| ==> !trace[j].Connect?;
      assert trace[..last][k].Hash?;
      SaltKnown(sha, salt, trace[..last], p);
    }
  }

  /** No run without switch-sides connections stores a shared password once the peer has sent its hash on
      the current connection. */
  lemma SharedNeverStored(sha: Sha256, salt: Bytes, trace: seq<Event>, r: Run, loaded: Bytes)
    requires After(sha, salt, trace) == Some(r) && NeverSwitches(trace) && HashSinceConnect(trace)
    ensures !StoresShared(sha, r, loaded)
  {
    HonestRuns(sha, salt, trace, r);
    Provenance(sha, salt, trace, r);
    SaltKnown(sha, salt, trace, r);
  }

  /** The tag no longer shows that the password is shared: it was reset, or the salt is not known yet and
      hashing the tag's text without it gives something else. */
  ghost predicate Unrecognised(sha: Sha256, salt: Bytes, st: LoginState) {
    || st.source.Undefined?
    || (st.source.SharedAb? && st.salt == [] && sha(st.source.text) != sha(st.source.text + salt))
  }

  /** In any run, the shared password is stored exactly when the handler remembers passwords, this one is
      new to the configuration, and the tag does not show what it is. */
  lemma SharedStoredExactly(sha: Sha256, salt: Bytes, trace: seq<Event>, r: Run, loaded: Bytes)
    requires After(sha, salt, trace) == Some(r)
    ensures StoresShared(sha, r, loaded) <==>
            && r.st.remember && r.fromShared && r.st.password != [] && r.st.password != loaded
            && Unrecognised(sha, salt, r.st)
  {
    Provenance(sha, salt, trace, r);
    if r.st.source.SharedAb? {
      assert r.st.source.text + [] == r.st.source.text;
    }
  }

  lemma AfterStep(sha: Sha256, salt: Bytes, trace: seq<Event>, r: Run, e: Event)
    requires After(sha, salt, trace) == Some(r) && Enabled(r, e)
    ensures After(sha, salt, trace + [e]) == Some(Next(sha, salt, r, e))
  {
    assert (trace + [e])[..|trace|] == trace;
  }

  /** Log in with the shared password "1" and take a token. */
  lemma SharedLogin(sha: Sha256, salt: Bytes) returns (trace: seq<Event>, r: Run)
    ensures After(sha, salt, trace) == Some(r) && NeverSwitches(trace)
    ensures r.tickets == [Ticket(ConnToken(sha([1] + salt), SharedAb([1])), true)]
  {
    var open, hash := Connect([], Some([1]), NoSwitch, None), Hash([], [], []);
    AfterStep(sha, salt, [], START, open);
    var r1 := Next(sha, salt, START, open);
    ChoiceCases(sha, r1.st, salt, [], [], []);
    AfterStep(sha, salt, [] + [open], r1, hash);
    var r2 := Next(sha, salt, r1, hash);
    assert IsDigest(sha);
    assert r2.st.password == sha([1] + salt) && r2.st.password != [] && r2.fromShared;
    AfterStep(sha, salt, [] + [open] + [hash], r2, TakeToken);
    trace, r := [] + [open] + [hash] + [TakeToken], Next(sha, salt, r2, TakeToken);
  }

  /** A run that does store one: log in with a shared password, reopen the connection with its token
      and a switch-sides identifier, and log in again. */
  lemma SwitchingSidesStoresShared(sha: Sha256, salt: Bytes) returns (trace: seq<Event>, r: Run, loaded: Bytes)
    ensures After(sha, salt, trace) == Some(r)
    ensures StoresShared(sha, r, loaded)
  {
    var trace0, r0 := SharedLogin(sha, salt);
    loaded := [2];
    var reopen, hash := Connect(loaded, None, WellFormed, Some(0)), Hash([], [], []);
    AfterStep(sha, salt, trace0, r0, reopen);
    var r1 := Next(sha, salt, r0, reopen);
    AfterStep(sha, salt, trace0 + [reopen], r1, hash);
    trace, r := trace0 + [reopen] + [hash], Next(sha, salt, r1, hash);
    assert IsDigest(sha);
    assert r.st.password == sha([1] + salt) && |r.st.password| == 32;
  }

  /** A run that stores one without switching sides: log in with a shared password, reopen the connection
      with its token, and have the peer end the login without sending its hash. */
  lemma NoHashStoresShared(sha: Sha256, salt: Bytes) returns (trace: seq<Event>, r: Run, loaded: Bytes)
    requires sha([1] + salt) != sha([1])
    ensures After(sha, salt, trace) == Some(r) && NeverSwitches(trace)
    ensures StoresShared(sha, r, loaded)
  {
    var trace0, r0 := SharedLogin(sha, salt);
    loaded := [2];
    var reopen := Connect(loaded, None, NoSwitch, Some(0));
    AfterStep(sha, salt, trace0, r0, reopen);
    trace, r := trace0 + [reopen], Next(sha, salt, r0, reopen);
    assert IsDigest(sha);
    assert |r.st.password| == 32;
    assert [1] + r.st.salt == [1];
  }

  /** A refused password is forgotten: there is no token of it, and without a login by the user the next hash
      message chooses as if there had been none. Any other login error changes nothing. */
  lemma RefusedIsForgotten(sha: Sha256, salt: Bytes, r: Run, preset: Bytes, personal: Bytes, builtin: Bytes)
    ensures Next(sha, salt, r, LoginError(false)) == r
    ensures var r' := Next(sha, salt, r, LoginError(true));
            && r'.st == r.st.(password := []) && r'.tickets == r.tickets
            && Next(sha, salt, r', TakeToken).tickets == r.tickets
            && (r.st.switchId == NoSwitch && r.st.sharedPassword == None && preset == [] && r.st.configPassword == []
                && personal == [] && builtin == [] ==>
                  Next(sha, salt, r', Hash(preset, personal, builtin)).st.password == [])
  {
    ChoiceCases(sha, r.st.(password := []), salt, preset, personal, builtin);
  }

  /** An event that leaves the password in use alone once there is one. */
  ghost predicate KeepsPassword(e: Event) {
    || e.TakeToken? || e.PeerInfo? || (e.UiLogin? && e.typed == []) || (e.LoginError? && !e.passwordRefused)
  }

  lemma {:induction false} TypedStays(sha: Sha256, salt: Bytes, trace: seq<Event>, k: nat, p: Run, r: Run)
    requires k < |trace| && trace[k].UiLogin? && trace[k].typed != []
    requires After(sha, salt, trace[..k]) == Some(p) && After(sha, salt, trace) == Some(r)
    requires forall j :: k < j < |trace| ==> KeepsPassword(trace[j])
    ensures r.st.password == sha(trace[k].typed + p.st.salt) && r.st.password != []
    ensures r.st.source == Undefined && r.st.remember == trace[k].remember
    decreases |trace|
  {
    assert IsDigest(sha);
    var last := |trace| - 1;
    if k < last {
      var q := After(sha, salt, trace[..last]).value;
      assert trace[..last][..k] == trace[..k];
      TypedStays(sha, salt, trace[..last], k, p, q);
    }
  }

  /** What "remember" means over a run: a password that was typed with it, and that nothing has replaced or
      refused since, is what the configuration holds after the login; typed without it, it leaves the
      configuration without a password, whatever was loaded. */
  lemma TypedIsRemembered(sha: Sha256, salt: Bytes, trace: seq<Event>, k: nat, p: Run, r: Run, loaded: Bytes)
    requires k < |trace| && trace[k].UiLogin? && trace[k].typed != []
    requires After(sha, salt, trace[..k]) == Some(p) && After(sha, salt, trace) == Some(r)
    requires forall j :: k < j < |trace| ==> KeepsPassword(trace[j])
    ensures Next(sha, salt, r, PeerInfo(loaded)).st.configPassword
            == if trace[k].remember then sha(trace[k].typed + p.st.salt) else []
  {
    TypedStays(sha, salt, trace, k, p, r);
    ConfigKept(sha, r.st, loaded);
  }

  /** If the peer's salt does change, a kept shared password stays accounted for exactly when both
      salts hash it alike. */
  lemma SaltChange(sha: Sha256, st: LoginState, oldSalt: Bytes, newSalt: Bytes, preset: Bytes, personal: Bytes,
                   builtin: Bytes)
    requires st.source.SharedAb? && st.password == sha(st.source.text + oldSalt)
    requires st.sharedPassword.None? && !st.switchId.WellFormed?
    ensures var st' := HashReceived(sha, st, newSalt, preset, personal, builtin);
            st'.source.IsSharedAb(st'.password, sha, newSalt)
            <==> sha(st.source.text + oldSalt) == sha(st.source.text + newSalt)
  {
    assert IsDigest(sha);
    assert st.password != [];
    ChoiceCases(sha, st, newSalt, preset, personal, builtin);
  }
}
