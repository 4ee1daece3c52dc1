/** Which password a session logs in with, the tag that remembers where it came from, and what is
    written to the peer's configuration (vntcrustdesk-src/src/client.rs:1687-1737, 1842-1850,
    2517-2552, 2767-2777, 3399-3598). */
module LoginPassword {
  import opened Basics

  /** SHA-256 is only known to return 32 bytes. */
  ghost predicate IsDigest(f: Bytes -> Bytes) {
    forall x :: |f(x)| == 32
  }
  type Sha256 = f: Bytes -> Bytes | IsDigest(f) witness (x: Bytes) => seq(32, _ => 0)

  datatype Source = PersonalAb(bytes: Bytes) | SharedAb(text: Bytes) | Undefined {
    predicate IsPersonalAb(password: Bytes) {
      password != [] && PersonalAb? && bytes == password
    }
    predicate IsSharedAb(password: Bytes, sha: Sha256, salt: Bytes) {
      password != [] && SharedAb? && password == sha(text + salt)
    }
  }

  /** The one-shot switch-sides identifier: absent, not a UUID, or a UUID. */
  datatype SwitchId = NoSwitch | Malformed | WellFormed

  datatype ConnToken = ConnToken(password: Bytes, source: Source)

  datatype LoginState = LoginState(
    salt: Bytes,
    password: Bytes,
    source: Source,
    remember: bool,
    configPassword: Bytes,
    sharedPassword: Option<Bytes>,
    switchId: SwitchId)

  // ----- the personal address book -----

  datatype AbPeer = AbPeer(id: string, decodedHash: Option<Bytes>)
  datatype AbEntry = AbEntry(personal: bool, peers: seq<AbPeer>)
  datatype AddressBook = AddressBook(localToken: string, abToken: string, entries: seq<AbEntry>)

  function FindPersonal(entries: seq<AbEntry>): Option<AbEntry> {
    if entries == [] then None
    else if entries[0].personal then Some(entries[0])
    else FindPersonal(entries[1..])
  }

  function FindPeer(peers: seq<AbPeer>, id: string): Option<AbPeer> {
    if peers == [] then None
    else if peers[0].id == id then Some(peers[0])
    else FindPeer(peers[1..], id)
  }

  /** The stored hash of this peer in the first personal book, or empty. */
  function PersonalPassword(ab: AddressBook, id: string): Bytes {
    if ab.localToken == "" || ab.localToken != ab.abToken then [] else
      var entry := FindPersonal(ab.entries);
      if entry.None? then [] else
        var peer := FindPeer(entry.value.peers, id);
        if peer.None? || peer.value.decodedHash.None? then [] else peer.value.decodedHash.value
  }

  // ----- the reference rule -----

  datatype Candidate = Candidate(password: Bytes, source: Source)

  /** The first candidate with a password; `default` if there is none. */
  function FirstNonempty(cs: seq<Candidate>, default: Candidate): Candidate {
    if cs == [] then default
    else if cs[0].password != [] then cs[0]
    else FirstNonempty(cs[1..], default)
  }

  /** A text password in the form it is stored in, if there is one. */
  function Salted(sha: Sha256, text: Bytes, salt: Bytes): (p: Bytes)
    ensures p == [] <==> text == []
  {
    if text == [] then [] else sha(text + salt)
  }

  /** In order of precedence: shared, last, preset, peer configuration, personal address book,
      built-in default. */
  function Candidates(sha: Sha256, st: LoginState, salt: Bytes, preset: Bytes, personal: Bytes, builtin: Bytes)
    : seq<Candidate>
  {
    var shared := if st.sharedPassword.Some? then st.sharedPassword.value else [];
    [ Candidate(Salted(sha, shared, salt), SharedAb(shared)),
      Candidate(st.password, st.source),
      Candidate(Salted(sha, preset, salt), Undefined),
      Candidate(st.configPassword, Undefined),
      Candidate(personal, PersonalAb(personal)),
      Candidate(Salted(sha, builtin, salt), SharedAb(builtin)) ]
  }

  function Choice(sha: Sha256, st: LoginState, salt: Bytes, preset: Bytes, personal: Bytes, builtin: Bytes): Candidate {
    FirstNonempty(Candidates(sha, st, salt, preset, personal, builtin), Candidate([], st.source))
  }

  /** The choice spelled out, candidate by candidate. */
  lemma ChoiceCases(sha: Sha256, st: LoginState, salt: Bytes, preset: Bytes, personal: Bytes, builtin: Bytes)
    ensures var c := Choice(sha, st, salt, preset, personal, builtin);
            var shared := if st.sharedPassword.Some? then st.sharedPassword.value else [];
            if shared != [] then c == Candidate(sha(shared + salt), SharedAb(shared))
            else if st.password != [] then c == Candidate(st.password, st.source)
            else if preset != [] then c == Candidate(sha(preset + salt), Undefined)
            else if st.configPassword != [] then c == Candidate(st.configPassword, Undefined)
            else if personal != [] then c == Candidate(personal, PersonalAb(personal))
            else if builtin != [] then c == Candidate(sha(builtin + salt), SharedAb(builtin))
            else c == Candidate([], st.source)
  {
    FirstNonemptyOfSix(Candidates(sha, st, salt, preset, personal, builtin), Candidate([], st.source));
  }

  // ----- the transitions as functions of the state -----

  function HashReceived(sha: Sha256, st: LoginState, salt: Bytes, preset: Bytes, personal: Bytes, builtin: Bytes)
    : LoginState
  {
    if st.switchId.WellFormed? then
      st.(salt := salt, switchId := NoSwitch, source := Undefined)
    else
      var c := Choice(sha, st, salt, preset, personal, builtin);
      st.(salt := salt, switchId := NoSwitch, sharedPassword := None, password := c.password, source := c.source)
  }

  function LoginFromUi(sha: Sha256, st: LoginState, typed: Bytes, remember: bool): LoginState {
    if typed != [] then
      st.(source := Undefined, password := sha(typed + st.salt), remember := remember)
    else if st.password != [] || st.configPassword == [] then
      st
    else
      st.(source := Undefined, password := st.configPassword)
  }

  /** The password left in the peer's configuration after a successful login. */
  function ConfigAfterPeerInfo(sha: Sha256, st: LoginState, loaded: Bytes): Bytes {
    if st.remember then
      if st.password != [] && st.password != loaded && !st.source.IsSharedAb(st.password, sha, st.salt)
      then st.password else loaded
    else if st.source.IsPersonalAb(st.password) then st.password
    else []
  }

  function TokenOf(st: LoginState): Option<ConnToken> {
    if st.password == [] then None else Some(ConnToken(st.password, st.source))
  }

  function Initialized(st: LoginState, loaded: Bytes, shared: Option<Bytes>, switchId: SwitchId,
                       token: Option<ConnToken>)
    : LoginState
  {
    var st' := st.(remember := loaded != [], configPassword := loaded, sharedPassword := shared, switchId := switchId);
    if token.Some? then st'.(password := token.value.password, source := token.value.source) else st'
  }

  // ----- what each transition does, case by case -----

  ghost predicate FirstWith<T>(xs: seq<T>, p: T -> bool, k: int) {
    0 <= k < |xs| && p(xs[k]) && forall j :: 0 <= j < k ==> !p(xs[j])
  }

  lemma {:induction false} FindPersonalExactly(entries: seq<AbEntry>)
    ensures FindPersonal(entries).None? <==> forall j :: 0 <= j < |entries| ==> !entries[j].personal
    ensures forall k :: FirstWith(entries, (e: AbEntry) => e.personal, k) ==> FindPersonal(entries) == Some(entries[k])
  {
    if entries != [] {
      var rest := entries[1..];
      assert forall j :: 0 < j < |entries| ==> entries[j] == rest[j - 1];
      FindPersonalExactly(rest);
      forall k | FirstWith(entries, (e: AbEntry) => e.personal, k) ensures FindPersonal(entries) == Some(entries[k]) {
        if k > 0 {
          assert FirstWith(rest, (e: AbEntry) => e.personal, k - 1);
        }
      }
    }
  }

  lemma {:induction false} FindPeerExactly(peers: seq<AbPeer>, id: string)
    ensures FindPeer(peers, id).None? <==> forall j :: 0 <= j < |peers| ==> peers[j].id != id
    ensures forall k :: FirstWith(peers, (p: AbPeer) => p.id == id, k) ==> FindPeer(peers, id) == Some(peers[k])
  {
    if peers != [] {
      var rest := peers[1..];
      assert forall j :: 0 < j < |peers| ==> peers[j] == rest[j - 1];
      FindPeerExactly(rest, id);
      forall k | FirstWith(peers, (p: AbPeer) => p.id == id, k) ensures FindPeer(peers, id) == Some(peers[k]) {
        if k > 0 {
          assert FirstWith(rest, (p: AbPeer) => p.id == id, k - 1);
        }
      }
    }
  }

  /** The personal book is only used when both tokens are the same and not empty; then its first personal
      entry and the first peer of this id in it decide, and there is no password if either is missing. */
  lemma PersonalPasswordExactly(ab: AddressBook, id: string, i: int, j: int)
    ensures ab.localToken == "" || ab.localToken != ab.abToken ==> PersonalPassword(ab, id) == []
    ensures (forall k :: 0 <= k < |ab.entries| ==> !ab.entries[k].personal) ==> PersonalPassword(ab, id) == []
    ensures ab.localToken == ab.abToken != "" && FirstWith(ab.entries, (e: AbEntry) => e.personal, i) ==>
              var peers := ab.entries[i].peers;
              && ((forall k :: 0 <= k < |peers| ==> peers[k].id != id) ==> PersonalPassword(ab, id) == [])
              && (FirstWith(peers, (p: AbPeer) => p.id == id, j) ==>
                    PersonalPassword(ab, id) == if peers[j].decodedHash.Some? then peers[j].decodedHash.value else [])
  {
    FindPersonalExactly(ab.entries);
    if 0 <= i < |ab.entries| {
      FindPeerExactly(ab.entries[i].peers, id);
    }
  }

  /** A hash message always sets the salt and uses up the switch-sides identifier. With a well-formed one
      the source is forgotten and all else kept; otherwise the shared password is used up, and what is
      chosen becomes the password with its source. */
  lemma HashReceivedExactly(sha: Sha256, st: LoginState, salt: Bytes, preset: Bytes, personal: Bytes, builtin: Bytes)
    ensures var st' := HashReceived(sha, st, salt, preset, personal, builtin);
            && st'.salt == salt && st'.switchId == NoSwitch
            && st'.remember == st.remember && st'.configPassword == st.configPassword
            && (st.switchId.WellFormed? ==>
                  st'.password == st.password && st'.source == Undefined && st'.sharedPassword == st.sharedPassword)
            && (!st.switchId.WellFormed? ==>
                  var c := Choice(sha, st, salt, preset, personal, builtin);
                  st'.sharedPassword == None && st'.password == c.password && st'.source == c.source)
  {
  }

  /** A typed password is salted, has no source and sets whether to remember; nothing typed keeps a password
      there is, and otherwise takes the configured one, which has no source. All else is kept. */
  lemma LoginFromUiExactly(sha: Sha256, st: LoginState, typed: Bytes, remember: bool)
    ensures var st' := LoginFromUi(sha, st, typed, remember);
            && st'.salt == st.salt && st'.configPassword == st.configPassword
            && st'.sharedPassword == st.sharedPassword && st'.switchId == st.switchId
            && (typed != [] ==>
                  st'.password == sha(typed + st.salt) && st'.source == Undefined && st'.remember == remember)
            && (typed == [] ==>
                  && st'.remember == st.remember
                  && st'.password == (if st.password != [] then st.password else st.configPassword)
                  && st'.source == if st.password != [] || st.configPassword == [] then st.source else Undefined)
  {
  }

  /** Which password the configuration keeps after a login: without "remember" only a password of the
      personal address book, and otherwise none; with it the one logged in with, unless there is none or
      its tag shows it to be shared, when the loaded one stays. */
  lemma ConfigKept(sha: Sha256, st: LoginState, loaded: Bytes)
    ensures var kept := ConfigAfterPeerInfo(sha, st, loaded);
            var shared := st.source.SharedAb? && st.password == sha(st.source.text + st.salt);
            && (!st.remember && st.source == PersonalAb(st.password) ==> kept == st.password)
            && (!st.remember && st.source != PersonalAb(st.password) ==> kept == [])
            && (st.remember && st.password != [] && !shared ==> kept == st.password)
            && (st.remember && (st.password == [] || shared) ==> kept == loaded)
  {
  }

  /** A new connection begins with the loaded configuration, remembering if there was a password in it; with
      the token of a connection it has that connection's password and source again. */
  lemma TokenRestores(st: LoginState, blank: LoginState, loaded: Bytes, shared: Option<Bytes>, switchId: SwitchId)
    ensures TokenOf(st).None? <==> st.password == []
    ensures var st' := Initialized(blank, loaded, shared, switchId, TokenOf(st));
            && (st.password != [] ==> st'.password == st.password && st'.source == st.source)
            && (st.password == [] ==> st'.password == blank.password && st'.source == blank.source)
            && st'.configPassword == loaded && (st'.remember <==> loaded != [])
            && st'.sharedPassword == shared && st'.switchId == switchId && st'.salt == blank.salt
  {
  }

  // ----- the handler itself -----

  datatype HashReply =
    | SwitchSides
    | TerminalAdminPrompt(passwordNeeded: bool)
    | Login(digest: Bytes, passwordNeeded: bool)

  datatype LoginErrorKind = PasswordEmpty | PasswordWrong | TwoFactor | Listed(tryAgain: bool) | Other

  class LoginConfigHandler {
    const sha: Sha256
    const id: string
    var challenge: Bytes
    var salt: Bytes
    var password: Bytes
    var source: Source
    var remember: bool
    var configPassword: Bytes
    var sharedPassword: Option<Bytes>
    var switchId: SwitchId

    function State(): LoginState
      reads this
    {
      LoginState(salt, password, source, remember, configPassword, sharedPassword, switchId)
    }

    constructor (sha: Sha256, id: string)
      ensures this.sha == sha && this.id == id
      ensures State() == LoginState([], [], Undefined, false, [], None, NoSwitch)
    {
      this.sha, this.id := sha, id;
      challenge, salt, password, source, remember := [], [], [], Undefined, false;
      configPassword, sharedPassword, switchId := [], None, NoSwitch;
    }

    method Initialize(loaded: Bytes, shared: Option<Bytes>, switchId: SwitchId, token: Option<ConnToken>)
      modifies this
      ensures State() == Initialized(old(State()), loaded, shared, switchId, token)
    {
      remember := loaded != [];
      configPassword := loaded;
      if token.Some? {
        password := token.value.password;
        source := token.value.source;
      }
      this.switchId := switchId;
      sharedPassword := shared;
    }

    method GetConnToken() returns (token: Option<ConnToken>)
      ensures token == TokenOf(State())
    {
      if password == [] {
        return None;
      }
      return Some(ConnToken(password, source));
    }

    /** The stages of `handle_hash` in the source's order. */
    method HandleHash(salt: Bytes, challenge: Bytes, preset: Bytes, ab: AddressBook, builtin: Bytes,
                      terminalAdmin: bool)
      returns (reply: HashReply)
      modifies this
      ensures State() == HashReceived(sha, old(State()), salt, preset, PersonalPassword(ab, id), builtin)
      ensures this.challenge == challenge
      ensures reply ==
              if old(switchId).WellFormed? then SwitchSides
              else if terminalAdmin then TerminalAdminPrompt(password == [])
              else Login(if password == [] then [] else sha(password + challenge), password == [])
    {
      hide Choice, PersonalPassword;
      this.salt, this.challenge := salt, challenge;
      var uuid := switchId;
      switchId := NoSwitch;
      if uuid.WellFormed? {
        source := Undefined;
        return SwitchSides;
      }
      ghost var start := old(State());
      ghost var personal := PersonalPassword(ab, id);
      // last password
      var chosen := password;
      // preset password
      if chosen == [] {
        if preset != [] {
          chosen := sha(preset + salt);
          source := Undefined;
        }
      }
      // shared password
      var shared := sharedPassword;
      sharedPassword := None;
      if shared.Some? {
        if shared.value != [] {
          chosen := sha(shared.value + salt);
          source := SharedAb(shared.value);
        }
      }
      // peer configuration
      if chosen == [] {
        chosen := configPassword;
        if chosen != [] {
          source := Undefined;
        }
      }
      // personal address book
      if chosen == [] {
        var p := PersonalPassword(ab, id);
        if p != [] {
          chosen := p;
          source := PersonalAb(p);
        }
      }
      // built-in default
      if chosen == [] {
        if builtin != [] {
          chosen := sha(builtin + salt);
          source := SharedAb(builtin);
        }
      }
      password := chosen;
      ChoiceCases(sha, start, salt, preset, personal, builtin);
      if terminalAdmin {
        return TerminalAdminPrompt(password == []);
      }
      return Login(if password == [] then [] else sha(password + challenge), password == []);
    }

    method HandleLoginError(err: LoginErrorKind) returns (tryAgain: bool)
      modifies this
      ensures State() == if err.PasswordEmpty? || err.PasswordWrong? then old(State()).(password := [])
                         else old(State())
      ensures tryAgain == (err.PasswordEmpty? || err.PasswordWrong? || err.TwoFactor? || (err.Listed? && err.tryAgain))
    {
      match err
      case PasswordEmpty => password := []; tryAgain := true;
      case PasswordWrong => password := []; tryAgain := true;
      case TwoFactor => tryAgain := true;
      case Listed(again) => tryAgain := again;
      case Other => tryAgain := false;
    }

    method HandleLoginFromUi(typed: Bytes, remember: bool) returns (digest: Bytes)
      modifies this
      ensures State() == LoginFromUi(sha, old(State()), typed, remember)
      ensures digest == sha(password + challenge)
    {
      var hashed;
      if typed == [] {
        hashed := password;
        if hashed == [] {
          hashed := configPassword;
          if hashed != [] {
            source := Undefined;
          }
        }
      } else {
        source := Undefined;
        hashed := sha(typed + salt);
        this.remember := remember;
      }
      password := hashed;
      digest := sha(hashed + challenge);
    }

    /** Reloads the peer's configuration and saves it with the password to keep. */
    method HandlePeerInfo(loaded: Bytes)
      modifies this
      ensures State() == old(State()).(configPassword := ConfigAfterPeerInfo(sha, old(State()), loaded))
    {
      configPassword := loaded;
      if remember {
        if password != [] && password != loaded && !source.IsSharedAb(password, sha, salt) {
          configPassword := password;
        }
      } else {
        if source.IsPersonalAb(password) {
          configPassword := password;
        } else if loaded != [] {
          configPassword := [];
        }
      }
    }
  }

  lemma FirstNonemptyOfSix(cs: seq<Candidate>, default: Candidate)
    requires |cs| == 6
    ensures FirstNonempty(cs, default) ==
            if cs[0].password != [] then cs[0] else if cs[1].password != [] then cs[1]
            else if cs[2].password != [] then cs[2] else if cs[3].password != [] then cs[3]
            else if cs[4].password != [] then cs[4] else if cs[5].password != [] then cs[5] else default
  {
    FirstNonemptyOfThree(cs[3..], default);
    assert cs[1..][1..] == cs[2..] && cs[2..][1..] == cs[3..];
    assert FirstNonempty(cs[1..], default) ==
           if cs[1].password != [] then cs[1] else if cs[2].password != [] then cs[2]
           else FirstNonempty(cs[3..], default);
  }

  lemma FirstNonemptyOfThree(cs: seq<Candidate>, default: Candidate)
    requires |cs| == 3
    ensures FirstNonempty(cs, default) ==
            if cs[0].password != [] then cs[0] else if cs[1].password != [] then cs[1]
            else if cs[2].password != [] then cs[2] else default
  {
    assert cs[1..][1..] == cs[2..] && cs[2..][1..] == [];
    assert FirstNonempty(cs[2..], default) == if cs[2].password != [] then cs[2] else default;
  }
}
