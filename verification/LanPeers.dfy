/** Merging discovery responses into the stored list of LAN peers (vntcrustdesk-src/src/lan.rs:266-274,
    305-343; vntcrustdesk-src/libs/hbb_common/src/config.rs:1995-2015). */
module LanPeers {

  /** Two records are the same peer when both the id and the user name agree. */
  type Key = (string, string)

  datatype Peer = Peer(id: string, username: string, hostname: string, platform: string, online: bool,
                       ipMac: map<string, string>)
  {
    function Key(): Key {
      (id, username)
    }
  }

  // ----- the loop, as a function of the responses so far -----

  /** Index of the first record of the same peer, or the length. */
  function Position(peers: seq<Peer>, key: Key): (p: nat)
    ensures p <= |peers|
    ensures p < |peers| ==> peers[p].Key() == key
    ensures forall j :: 0 <= j < p ==> peers[j].Key() != key
  {
    if peers == [] || peers[0].Key() == key then 0
    else
      var p := Position(peers[1..], key);
      assert forall j :: 0 < j < |peers| ==> peers[j] == peers[1..][j - 1];
      1 + p
  }

  function Without(peers: seq<Peer>, p: nat): seq<Peer>
    requires p < |peers|
  {
    peers[..p] + peers[p + 1..]
  }

  /** The list without that record, if there is one there. */
  function Rest(peers: seq<Peer>, p: nat): seq<Peer>
    requires p <= |peers|
  {
    if p < |peers| then Without(peers, p) else peers
  }

  /** The response moves to the front; it takes over the addresses of the record it replaces only if
      some response with its id came before. */
  function Absorb(peers: seq<Peer>, idSeen: bool, r: Peer): seq<Peer> {
    var p := Position(peers, r.Key());
    if p == |peers| then [r] + peers
    else if idSeen then [r.(ipMac := r.ipMac + peers[p].ipMac, online := true)] + Without(peers, p)
    else [r] + Without(peers, p)
  }

  predicate IdSeen(rs: seq<Peer>, id: string) {
    exists j :: 0 <= j < |rs| && rs[j].id == id
  }

  function Offline(peers: seq<Peer>): (r: seq<Peer>)
    ensures |r| == |peers|
    ensures forall k :: 0 <= k < |r| ==> r[k] == peers[k].(online := false)
  {
    seq(|peers|, k requires 0 <= k < |peers| => peers[k].(online := false))
  }

  function Merged(stored: seq<Peer>, rs: seq<Peer>): seq<Peer> {
    if rs == [] then Offline(stored)
    else
      var last := |rs| - 1;
      Absorb(Merged(stored, rs[..last]), IdSeen(rs[..last], rs[last].id), rs[last])
  }

  /** `handle_received_peers`, for the responses that arrive before the channel closes. */
  method HandleReceivedPeers(stored: seq<Peer>, rs: seq<Peer>) returns (peers: seq<Peer>)
    ensures peers == Merged(stored, rs)
  {
    peers := Offline(stored);
    var responseSet: set<string> := {};
    assert rs[..0] == [];
    hide Merged, Position, IdSeen;
    MergedStart(stored, rs);
    for n := 0 to |rs|
      invariant peers == Merged(stored, rs[..n])
      invariant forall id :: id in responseSet <==> IdSeen(rs[..n], id)
    {
      ghost var before := peers;
      var peer := rs[n];
      var inResponseSet := peer.id in responseSet;
      responseSet := responseSet + {peer.id};
      var pos := Position(peers, peer.Key());
      if pos < |peers| {
        var peer1 := peers[pos];
        peers := peers[..pos] + peers[pos + 1..];
        if inResponseSet {
          peer := peer.(ipMac := peer.ipMac + peer1.ipMac, online := true);
        }
      }
      peers := [peer] + peers;
      assert peers == Absorb(before, inResponseSet, rs[n]);
      MergedGrows(stored, rs, n);
      SeenGrows(rs, n);
    }
    assert rs[..|rs|] == rs;
  }

  lemma MergedStart(stored: seq<Peer>, rs: seq<Peer>)
    ensures Merged(stored, rs[..0]) == Offline(stored) && forall id :: !IdSeen(rs[..0], id)
  {
  }

  lemma MergedGrows(stored: seq<Peer>, rs: seq<Peer>, n: nat)
    requires n < |rs|
    ensures Merged(stored, rs[..n + 1]) == Absorb(Merged(stored, rs[..n]), IdSeen(rs[..n], rs[n].id), rs[n])
  {
    hide Absorb, IdSeen;
    assert rs[..n + 1][..n] == rs[..n];
  }

  lemma SeenGrows(rs: seq<Peer>, n: nat)
    requires n < |rs|
    ensures forall id :: IdSeen(rs[..n + 1], id) <==> IdSeen(rs[..n], id) || id == rs[n].id
  {
    forall id ensures IdSeen(rs[..n + 1], id) <==> IdSeen(rs[..n], id) || id == rs[n].id {
      if id == rs[n].id {
        assert rs[..n + 1][n].id == id;
      }
      if IdSeen(rs[..n], id) {
        var j :| 0 <= j < n && rs[..n][j].id == id;
        assert rs[..n + 1][j].id == id;
      }
      if IdSeen(rs[..n + 1], id) && id != rs[n].id {
        var j :| 0 <= j < n + 1 && rs[..n + 1][j].id == id;
        assert rs[..n][j].id == id;
      }
    }
  }

  // ----- the reference: what the final list is -----

  /** The index of the peer's last response. */
  function LastIndex(rs: seq<Peer>, key: Key): (n: int)
    ensures -1 <= n < |rs|
    ensures n >= 0 ==> rs[n].Key() == key
    ensures forall j :: n < j < |rs| ==> rs[j].Key() != key
  {
    if rs == [] then -1
    else if rs[|rs| - 1].Key() == key then |rs| - 1
    else LastIndex(rs[..|rs| - 1], key)
  }

  /** All the addresses in this round's responses of the peer, the earliest response winning. */
  function Addresses(rs: seq<Peer>, key: Key): map<string, string> {
    if rs == [] then map[]
    else
      var last := |rs| - 1;
      if rs[last].Key() == key then rs[last].ipMac + Addresses(rs[..last], key)
      else Addresses(rs[..last], key)
  }

  /** The peer's first response came after one with the same id and another user name. */
  predicate Late(rs: seq<Peer>, key: Key) {
    if rs == [] then false
    else
      var last := |rs| - 1;
      if LastIndex(rs[..last], key) >= 0 then Late(rs[..last], key)
      else rs[last].Key() == key && IdSeen(rs[..last], key.0)
  }

  function StoredAddresses(stored: seq<Peer>, key: Key): map<string, string> {
    var p := Position(stored, key);
    if p < |stored| then stored[p].ipMac else map[]
  }

  /** The record a responder ends with: its last response, online, with the addresses of all of them,
      and under the stored ones if it was late. */
  function Record(stored: seq<Peer>, rs: seq<Peer>, key: Key): Peer
    requires LastIndex(rs, key) >= 0
  {
    rs[LastIndex(rs, key)].(
      online := true,
      ipMac := Addresses(rs, key) + if Late(rs, key) then StoredAddresses(stored, key) else map[])
  }

  /** The records whose key passes, in order, offline. */
  function Keep(peers: seq<Peer>, f: Key -> bool): seq<Peer> {
    if peers == [] then []
    else if f(peers[0].Key()) then [peers[0].(online := false)] + Keep(peers[1..], f)
    else Keep(peers[1..], f)
  }

  /** The stored peers that did not answer, in their order, offline. */
  function Silent(stored: seq<Peer>, rs: seq<Peer>): seq<Peer> {
    Keep(stored, key => LastIndex(rs, key) < 0)
  }

  ghost predicate DistinctPeers(peers: seq<Peer>) {
    forall i, j :: 0 <= i < j < |peers| ==> peers[i].Key() != peers[j].Key()
  }

  ghost predicate Recorded(peers: seq<Peer>, n: nat, stored: seq<Peer>, rs: seq<Peer>)
    requires n <= |peers|
  {
    forall i :: 0 <= i < n ==> IsRecord(peers[i], stored, rs)
  }

  ghost predicate IsRecord(p: Peer, stored: seq<Peer>, rs: seq<Peer>) {
    LastIndex(rs, p.Key()) >= 0 && p == Record(stored, rs, p.Key())
  }

  ghost predicate LatestFirst(peers: seq<Peer>, n: nat, rs: seq<Peer>)
    requires n <= |peers|
  {
    forall i, j :: 0 <= i < j < n ==> LastIndex(rs, peers[i].Key()) > LastIndex(rs, peers[j].Key())
  }

  ghost predicate Listed(peers: seq<Peer>, n: nat, key: Key)
    requires n <= |peers|
  {
    exists i :: 0 <= i < n && peers[i].Key() == key
  }

  ghost predicate AllListed(peers: seq<Peer>, n: nat, rs: seq<Peer>)
    requires n <= |peers|
  {
    forall k :: 0 <= k < |rs| ==> Listed(peers, n, rs[k].Key())
  }

  /** `peers` is the responders, latest response first, followed by the silent peers. */
  ghost predicate IsMerge(peers: seq<Peer>, n: nat, stored: seq<Peer>, rs: seq<Peer>) {
    && n <= |peers|
    && peers[n..] == Silent(stored, rs)
    && Recorded(peers, n, stored, rs)
    && LatestFirst(peers, n, rs)
    && AllListed(peers, n, rs)
  }

  // ----- lemmas about the silent part -----

  lemma {:induction false} KeepMembers(peers: seq<Peer>, f: Key -> bool)
    ensures forall q :: q in Keep(peers, f) <==>
              exists j :: 0 <= j < |peers| && f(peers[j].Key()) && q == peers[j].(online := false)
  {
    if peers != [] {
      KeepMembers(peers[1..], f);
      forall q ensures q in Keep(peers, f) <==>
                       exists j :: 0 <= j < |peers| && f(peers[j].Key()) && q == peers[j].(online := false)
      {
        if j :| 0 <= j < |peers| && f(peers[j].Key()) && q == peers[j].(online := false) {
          if j > 0 {
            assert peers[1..][j - 1] == peers[j];
          }
        }
        if q in Keep(peers[1..], f) {
          var j :| 0 <= j < |peers[1..]| && f(peers[1..][j].Key()) && q == peers[1..][j].(online := false);
          assert peers[j + 1] == peers[1..][j];
        }
      }
    }
  }

  /** Nothing is lost if no record has the key, or it did not pass anyway. */
  lemma {:induction false} KeepSame(peers: seq<Peer>, f: Key -> bool, g: Key -> bool, key: Key)
    requires forall k :: g(k) <==> f(k) && k != key
    requires !f(key) || forall j :: 0 <= j < |peers| ==> peers[j].Key() != key
    ensures Keep(peers, g) == Keep(peers, f)
  {
    if peers != [] {
      KeepSame(peers[1..], f, g, key);
    }
  }

  /** Exactly the record with the key is lost, if it was there. */
  lemma {:induction false} KeepLoses(peers: seq<Peer>, f: Key -> bool, g: Key -> bool, key: Key)
    requires DistinctPeers(peers)
    requires forall k :: g(k) <==> f(k) && k != key
    ensures Keep(peers, g) == Rest(Keep(peers, f), Position(Keep(peers, f), key))
  {
    hide Rest, Position;
    if peers == [] {
      RestOfEmpty(key);
    } else {
      var tail := Keep(peers[1..], f);
      if !f(peers[0].Key()) {
        KeepLoses(peers[1..], f, g, key);
      } else if peers[0].Key() == key {
        KeepSame(peers[1..], f, g, key);
        RestOfFound(peers[0].(online := false), tail, key);
      } else {
        KeepLoses(peers[1..], f, g, key);
        RestOfOther(peers[0].(online := false), tail, key);
      }
    }
  }

  lemma RestOfEmpty(key: Key)
    ensures Rest([], Position([], key)) == []
  {
  }

  lemma RestOfFound(x: Peer, s: seq<Peer>, key: Key)
    requires x.Key() == key
    ensures Rest([x] + s, Position([x] + s, key)) == s
  {
    assert Position([x] + s, key) == 0;
  }

  lemma RestOfOther(x: Peer, s: seq<Peer>, key: Key)
    requires x.Key() != key
    ensures Rest([x] + s, Position([x] + s, key)) == [x] + Rest(s, Position(s, key))
  {
    assert ([x] + s)[1..] == s;
    assert Position([x] + s, key) == 1 + Position(s, key);
  }

  lemma LastIndexStep(rs: seq<Peer>, r: Peer, key: Key)
    ensures LastIndex(rs + [r], key) == if r.Key() == key then |rs| else LastIndex(rs, key)
  {
    assert (rs + [r])[..|rs|] == rs;
  }

  // ----- one response -----

  lemma StepFilter(rs: seq<Peer>, r: Peer)
    ensures forall key :: LastIndex(rs + [r], key) < 0 <==> LastIndex(rs, key) < 0 && key != r.Key()
  {
    forall key {
      LastIndexStep(rs, r, key);
    }
  }

  lemma SilentUntouched(stored: seq<Peer>, rs: seq<Peer>, r: Peer)
    requires LastIndex(rs, r.Key()) >= 0
    ensures Silent(stored, rs + [r]) == Silent(stored, rs)
  {
    var f: Key -> bool := key => LastIndex(rs, key) < 0;
    var g: Key -> bool := key => LastIndex(rs + [r], key) < 0;
    StepFilter(rs, r);
    KeepSame(stored, f, g, r.Key());
  }

  lemma SilentStep(stored: seq<Peer>, rs: seq<Peer>, r: Peer)
    requires DistinctPeers(stored)
    ensures var p := Position(Silent(stored, rs), r.Key());
            Silent(stored, rs + [r]) == Rest(Silent(stored, rs), p)
  {
    var f: Key -> bool := key => LastIndex(rs, key) < 0;
    var g: Key -> bool := key => LastIndex(rs + [r], key) < 0;
    StepFilter(rs, r);
    KeepLoses(stored, f, g, r.Key());
  }

  lemma RecordStep(stored: seq<Peer>, rs: seq<Peer>, r: Peer, key: Key)
    ensures Addresses(rs + [r], key) == if r.Key() == key then r.ipMac + Addresses(rs, key) else Addresses(rs, key)
    ensures Late(rs + [r], key) ==
            if LastIndex(rs, key) >= 0 then Late(rs, key) else r.Key() == key && IdSeen(rs, key.0)
    ensures r.Key() != key && LastIndex(rs, key) >= 0 ==>
              LastIndex(rs + [r], key) == LastIndex(rs, key)
              && Record(stored, rs + [r], key) == Record(stored, rs, key)
  {
    assert (rs + [r])[..|rs|] == rs;
    LastIndexStep(rs, r, key);
  }

  lemma {:induction false} NoAddressesBefore(rs: seq<Peer>, key: Key)
    requires LastIndex(rs, key) < 0
    ensures Addresses(rs, key) == map[]
  {
    if rs != [] {
      NoAddressesBefore(rs[..|rs| - 1], key);
    }
  }

  /** A silent peer's addresses are the stored ones. */
  lemma SilentAddresses(stored: seq<Peer>, rs: seq<Peer>, key: Key)
    requires DistinctPeers(stored) && LastIndex(rs, key) < 0
    ensures var s := Silent(stored, rs);
            var p := Position(s, key);
            StoredAddresses(stored, key) == if p < |s| then s[p].ipMac else map[]
  {
    var f: Key -> bool := key => LastIndex(rs, key) < 0;
    var s := Keep(stored, f);
    KeepMembers(stored, f);
    var p, q := Position(s, key), Position(stored, key);
    forall k | 0 <= k < |s|
      ensures exists j :: 0 <= j < |stored| && f(stored[j].Key()) && s[k] == stored[j].(online := false)
    {
      assert s[k] in s;
    }
    if q < |stored| {
      var x := stored[q].(online := false);
      assert x in s;
      var m :| 0 <= m < |s| && s[m] == x;
      assert p <= m;
      var j :| 0 <= j < |stored| && s[p] == stored[j].(online := false);
      assert j == q;
    }
  }

  lemma PositionInTail(peers: seq<Peer>, n: nat, key: Key)
    requires n <= |peers| && forall i :: 0 <= i < n ==> peers[i].Key() != key
    ensures n <= Position(peers, key) && Position(peers, key) - n == Position(peers[n..], key)
  {
    var p, q := Position(peers, key), Position(peers[n..], key);
    if p < |peers| {
      assert peers[n..][p - n].Key() == key;
    }
    if q < |peers[n..]| {
      assert peers[n + q].Key() == key;
    }
  }

  /** Where the record of a peer that has answered, and of one that has not, is found. */
  lemma PositionInMerge(peers: seq<Peer>, n: nat, stored: seq<Peer>, rs: seq<Peer>, key: Key)
    requires IsMerge(peers, n, stored, rs)
    ensures var p := Position(peers, key);
            if LastIndex(rs, key) >= 0 then p < n
            else n <= p && p - n == Position(Silent(stored, rs), key)
  {
    hide Record, Silent, LatestFirst;
    if LastIndex(rs, key) >= 0 {
      assert Listed(peers, n, rs[LastIndex(rs, key)].Key());
    } else {
      PositionInTail(peers, n, key);
    }
  }

  /** The front record of a peer that had answered before. */
  lemma FrontAgain(stored: seq<Peer>, rs: seq<Peer>, r: Peer)
    requires r.online && LastIndex(rs, r.Key()) >= 0
    ensures LastIndex(rs + [r], r.Key()) == |rs| && IdSeen(rs, r.id)
    ensures Record(stored, rs + [r], r.Key())
            == r.(ipMac := r.ipMac + Record(stored, rs, r.Key()).ipMac, online := true)
  {
    var key := r.Key();
    LastIndexStep(rs, r, key);
    RecordStep(stored, rs, r, key);
    assert (rs + [r])[|rs|] == r;
    assert rs[LastIndex(rs, key)].id == r.id;
    hide Late, Addresses, StoredAddresses, LastIndex, IdSeen;
    MergeAssociates(r.ipMac, Addresses(rs, key), if Late(rs, key) then StoredAddresses(stored, key) else map[]);
  }

  lemma MergeAssociates(a: map<string, string>, b: map<string, string>, c: map<string, string>)
    ensures a + (b + c) == (a + b) + c
  {
  }

  /** The front record of a peer that answers for the first time. */
  lemma FrontFirst(stored: seq<Peer>, rs: seq<Peer>, r: Peer)
    requires DistinctPeers(stored) && r.online && LastIndex(rs, r.Key()) < 0
    ensures LastIndex(rs + [r], r.Key()) == |rs|
    ensures var s := Silent(stored, rs);
            var p := Position(s, r.Key());
            Record(stored, rs + [r], r.Key()) ==
            if IdSeen(rs, r.id) && p < |s| then r.(ipMac := r.ipMac + s[p].ipMac) else r
  {
    var key := r.Key();
    LastIndexStep(rs, r, key);
    RecordStep(stored, rs, r, key);
    assert (rs + [r])[|rs|] == r;
    NoAddressesBefore(rs, key);
    SilentAddresses(stored, rs, key);
    hide Late, Addresses, StoredAddresses, LastIndex, Silent;
    assert r.ipMac + map[] == r.ipMac;
  }

  /** The record the new response leaves at the front. */
  lemma FrontRecord(peers: seq<Peer>, n: nat, stored: seq<Peer>, rs: seq<Peer>, r: Peer)
    requires DistinctPeers(stored) && IsMerge(peers, n, stored, rs) && r.online
    ensures LastIndex(rs + [r], r.Key()) == |rs|
    ensures Absorb(peers, IdSeen(rs, r.id), r)[0] == Record(stored, rs + [r], r.Key())
  {
    hide Silent, Record, LatestFirst, AllListed, IdSeen;
    PositionInMerge(peers, n, stored, rs, r.Key());
    if LastIndex(rs, r.Key()) >= 0 {
      FrontAgain(stored, rs, r);
    } else {
      FrontFirst(stored, rs, r);
      var p := Position(peers, r.Key());
      assert p < |peers| ==> peers[p] == peers[n..][p - n];
    }
  }

  /** The silent part after one response. */
  lemma TailStep(peers: seq<Peer>, n: nat, stored: seq<Peer>, rs: seq<Peer>, r: Peer)
    requires DistinctPeers(stored) && IsMerge(peers, n, stored, rs)
    ensures var p := Position(peers, r.Key());
            Rest(peers, p)[if p < n then n - 1 else n..] == Silent(stored, rs + [r])
  {
    hide Record, Silent, LatestFirst, AllListed, Recorded;
    var p := Position(peers, r.Key());
    PositionInMerge(peers, n, stored, rs, r.Key());
    RestTail(peers, p, n);
    hide Rest, Without, Position;
    if p < n {
      SilentUntouched(stored, rs, r);
    } else {
      SilentStep(stored, rs, r);
    }
  }

  lemma RestTail(peers: seq<Peer>, p: nat, n: nat)
    requires p <= |peers| && n <= |peers|
    ensures p < n ==> Rest(peers, p)[n - 1..] == peers[n..]
    ensures n <= p ==> Rest(peers, p)[n..] == Rest(peers[n..], p - n)
  {
    if n <= p < |peers| {
      assert Without(peers, p)[n..] == Without(peers[n..], p - n);
    }
  }

  /** Another responder's record after one response. */
  lemma OtherRecord(peers: seq<Peer>, n: nat, stored: seq<Peer>, rs: seq<Peer>, r: Peer, j: nat)
    requires n <= |peers| && Recorded(peers, n, stored, rs) && LatestFirst(peers, n, rs)
    requires j < n && j != Position(peers, r.Key())
    ensures var key := peers[j].Key();
            && key != r.Key()
            && LastIndex(rs + [r], key) == LastIndex(rs, key) >= 0
            && peers[j] == Record(stored, rs + [r], key)
  {
    hide Record;
    var p := Position(peers, r.Key());
    assert peers[j].Key() != r.Key() by {
      if p < j {
        assert LastIndex(rs, peers[p].Key()) > LastIndex(rs, peers[j].Key());
      }
    }
    RecordStep(stored, rs, r, peers[j].Key());
  }

  /** One response keeps the shape. */
  lemma MergeStep(peers: seq<Peer>, n: nat, stored: seq<Peer>, rs: seq<Peer>, r: Peer) returns (n': nat)
    requires DistinctPeers(stored) && IsMerge(peers, n, stored, rs) && r.online
    ensures IsMerge(Absorb(peers, IdSeen(rs, r.id), r), n', stored, rs + [r])
  {
    hide Record, Silent, LastIndex, Recorded, LatestFirst, AllListed, IdSeen;
    var p := Position(peers, r.Key());
    var peers' := Absorb(peers, IdSeen(rs, r.id), r);
    n' := if p < n then n else n + 1;
    FrontRecord(peers, n, stored, rs, r);
    TailStep(peers, n, stored, rs, r);
    assert peers'[1..] == Rest(peers, p);
    assert peers'[n'..] == peers'[1..][n' - 1..];
    assert IsRecord(peers'[0], stored, rs + [r]) by {
      MovedFront(peers, n, r, peers', n');
    }
    RecordsStep(peers, n, stored, rs, r, peers', n');
    LatestFirstStep(peers, n, stored, rs, r, peers', n');
    ListedStep(peers, n, rs, r, peers', n');
  }

  /** The first `n'` records are the front one and the other responders, in their order. */
  ghost predicate Moved(peers: seq<Peer>, n: nat, r: Peer, peers': seq<Peer>, n': nat) {
    var p := Position(peers, r.Key());
    && n <= |peers|
    && n' == (if p < n then n else n + 1)
    && peers' != [] && peers'[0].Key() == r.Key()
    && peers'[1..] == Rest(peers, p)
  }

  /** The place a record moved from. */
  function Was(i: nat, p: nat): int {
    if i <= p then i - 1 else i
  }

  lemma MovedFrom(peers: seq<Peer>, n: nat, r: Peer, peers': seq<Peer>, n': nat, i: nat)
    requires Moved(peers, n, r, peers', n') && 0 < i < n'
    ensures var p := Position(peers, r.Key());
            0 <= Was(i, p) < n && Was(i, p) != p && n' <= |peers'| && peers'[i] == peers[Was(i, p)]
  {
    var p := Position(peers, r.Key());
    assert |peers'| == 1 + |Rest(peers, p)|;
    assert peers'[i] == peers'[1..][i - 1];
  }

  lemma RecordsStep(peers: seq<Peer>, n: nat, stored: seq<Peer>, rs: seq<Peer>, r: Peer, peers': seq<Peer>, n': nat)
    requires Moved(peers, n, r, peers', n') && n' <= |peers'|
    requires Recorded(peers, n, stored, rs) && LatestFirst(peers, n, rs)
    requires IsRecord(peers'[0], stored, rs + [r])
    ensures Recorded(peers', n', stored, rs + [r])
  {
    forall i | 0 <= i < n' ensures IsRecord(peers'[i], stored, rs + [r]) {
      if i > 0 {
        MovedRecord(peers, n, stored, rs, r, peers', n', i);
      }
    }
  }

  lemma MovedRecord(peers: seq<Peer>, n: nat, stored: seq<Peer>, rs: seq<Peer>, r: Peer, peers': seq<Peer>, n': nat,
                    i: nat)
    requires n <= |peers| && Moved(peers, n, r, peers', n') && 0 < i < n' <= |peers'|
    requires Recorded(peers, n, stored, rs) && LatestFirst(peers, n, rs)
    ensures IsRecord(peers'[i], stored, rs + [r])
  {
    hide Moved, Rest, Position, LastIndex, Record, LatestFirst, Recorded;
    MovedFrom(peers, n, r, peers', n', i);
    OtherRecord(peers, n, stored, rs, r, Was(i, Position(peers, r.Key())));
  }

  lemma LatestFirstStep(peers: seq<Peer>, n: nat, stored: seq<Peer>, rs: seq<Peer>, r: Peer, peers': seq<Peer>, n': nat)
    requires Moved(peers, n, r, peers', n') && n' <= |peers'|
    requires Recorded(peers, n, stored, rs) && LatestFirst(peers, n, rs)
    requires LastIndex(rs + [r], r.Key()) == |rs|
    ensures LatestFirst(peers', n', rs + [r])
  {
    MovedFront(peers, n, r, peers', n');
    hide Moved, Rest, Position, LastIndex, Record, Recorded;
    var p := Position(peers, r.Key());
    forall i, j | 0 <= i < j < n'
      ensures LastIndex(rs + [r], peers'[i].Key()) > LastIndex(rs + [r], peers'[j].Key())
    {
      MovedFrom(peers, n, r, peers', n', j);
      OtherRecord(peers, n, stored, rs, r, Was(j, p));
      if i > 0 {
        MovedFrom(peers, n, r, peers', n', i);
        OtherRecord(peers, n, stored, rs, r, Was(i, p));
        assert Was(i, p) < Was(j, p);
      }
    }
  }

  lemma MovedFront(peers: seq<Peer>, n: nat, r: Peer, peers': seq<Peer>, n': nat)
    requires Moved(peers, n, r, peers', n')
    ensures peers' != [] && peers'[0].Key() == r.Key()
  {
  }

  lemma ListedStep(peers: seq<Peer>, n: nat, rs: seq<Peer>, r: Peer, peers': seq<Peer>, n': nat)
    requires Moved(peers, n, r, peers', n') && n' <= |peers'| && AllListed(peers, n, rs)
    ensures AllListed(peers', n', rs + [r])
  {
    var p := Position(peers, r.Key());
    forall k | 0 <= k < |rs + [r]| ensures Listed(peers', n', (rs + [r])[k].Key()) {
      var key := (rs + [r])[k].Key();
      if key == r.Key() {
        assert peers'[0].Key() == key;
      } else {
        assert Listed(peers, n, rs[k].Key());
        var i :| 0 <= i < n && peers[i].Key() == key;
        assert i != p;
        var m := if i < p then i + 1 else i;
        assert 0 < m < n';
        MovedFrom(peers, n, r, peers', n', m);
        assert Was(m, p) == i;
      }
    }
  }

  // ----- whole rounds -----

  /** `wait_response` marks every response online (lan.rs:266-274). */
  ghost predicate AllOnline(rs: seq<Peer>) {
    forall k :: 0 <= k < |rs| ==> rs[k].online
  }

  lemma {:induction false} KeepAll(peers: seq<Peer>, f: Key -> bool)
    requires forall k :: f(k)
    ensures Keep(peers, f) == Offline(peers)
  {
    if peers != [] {
      KeepAll(peers[1..], f);
      assert Offline(peers) == [peers[0].(online := false)] + Offline(peers[1..]);
    }
  }

  /** The merge is a move-to-front: whatever the responses, the final list is the distinct responders by
      last response, newest first and online, followed by the silent peers in their original order,
      offline. */
  lemma {:induction false} MoveToFront(stored: seq<Peer>, rs: seq<Peer>) returns (n: nat)
    requires DistinctPeers(stored) && AllOnline(rs)
    ensures IsMerge(Merged(stored, rs), n, stored, rs)
  {
    if rs == [] {
      n := 0;
      KeepAll(stored, key => LastIndex([], key) < 0);
    } else {
      var last := |rs| - 1;
      var m := MoveToFront(stored, rs[..last]);
      assert rs[..last] + [rs[last]] == rs;
      n := MergeStep(Merged(stored, rs[..last]), m, stored, rs[..last], rs[last]);
    }
  }

  lemma SilentMembers(stored: seq<Peer>, rs: seq<Peer>)
    ensures forall k :: 0 <= k < |Silent(stored, rs)| ==> LastIndex(rs, Silent(stored, rs)[k].Key()) < 0
  {
    var f: Key -> bool := key => LastIndex(rs, key) < 0;
    KeepMembers(stored, f);
    forall k | 0 <= k < |Keep(stored, f)| ensures LastIndex(rs, Keep(stored, f)[k].Key()) < 0 {
      assert Keep(stored, f)[k] in Keep(stored, f);
    }
  }

  lemma {:induction false} KeepDistinct(peers: seq<Peer>, f: Key -> bool)
    requires DistinctPeers(peers)
    ensures DistinctPeers(Keep(peers, f))
  {
    if peers != [] {
      KeepDistinct(peers[1..], f);
      KeepMembers(peers[1..], f);
      var tail := Keep(peers[1..], f);
      forall k | 0 <= k < |tail| ensures tail[k].Key() != peers[0].Key() {
        assert tail[k] in tail;
      }
    }
  }

  /** So a list without duplicates stays one, and is fit to be the stored list of the next round. */
  lemma StaysDistinct(stored: seq<Peer>, rs: seq<Peer>)
    requires DistinctPeers(stored) && AllOnline(rs)
    ensures DistinctPeers(Merged(stored, rs))
  {
    var n := MoveToFront(stored, rs);
    var peers := Merged(stored, rs);
    KeepDistinct(stored, key => LastIndex(rs, key) < 0);
    SilentMembers(stored, rs);
    hide Silent, Merged, Record, LastIndex;
    forall i, j | 0 <= i < j < |peers| ensures peers[i].Key() != peers[j].Key() {
      assert i >= n ==> peers[i] == peers[n..][i - n];
      assert j >= n ==> peers[j] == peers[n..][j - n];
    }
  }

  // ----- which addresses are kept -----

  /** An address of a responder is one it gave in this round, with the value of the first response that
      gave it. */
  lemma {:induction false} EarliestWins(rs: seq<Peer>, key: Key, a: string)
    ensures a in Addresses(rs, key) <==> exists i :: 0 <= i < |rs| && rs[i].Key() == key && a in rs[i].ipMac
    ensures a in Addresses(rs, key) ==>
              exists i :: 0 <= i < |rs| && rs[i].Key() == key && a in rs[i].ipMac
                          && Addresses(rs, key)[a] == rs[i].ipMac[a]
                          && forall j :: 0 <= j < i ==> rs[j].Key() != key || a !in rs[j].ipMac
  {
    if rs != [] {
      var last := |rs| - 1;
      EarliestWins(rs[..last], key, a);
      assert forall j :: 0 <= j < last ==> rs[..last][j] == rs[j];
      if i :| 0 <= i < last && rs[i].Key() == key && a in rs[i].ipMac {
        assert rs[..last][i].Key() == key && a in rs[..last][i].ipMac;
      }
    }
  }

  /** No two responses of the round have one id and different user names. */
  ghost predicate OneUserPerId(rs: seq<Peer>) {
    forall i, j :: 0 <= i < |rs| && 0 <= j < |rs| && rs[i].id == rs[j].id ==> rs[i].username == rs[j].username
  }

  /** What the addresses of a responder should be: this round's only. */
  ghost predicate DiscardsStored(peers: seq<Peer>, rs: seq<Peer>) {
    forall i :: 0 <= i < |peers| && LastIndex(rs, peers[i].Key()) >= 0 ==>
      peers[i].ipMac == Addresses(rs, peers[i].Key())
  }

  lemma {:induction false} LateNeedsTwoUsers(rs: seq<Peer>, key: Key)
    requires Late(rs, key)
    ensures !OneUserPerId(rs) && LastIndex(rs, key) >= 0
  {
    var last := |rs| - 1;
    if LastIndex(rs[..last], key) >= 0 {
      LateNeedsTwoUsers(rs[..last], key);
      var i, j :| 0 <= i < last && 0 <= j < last && rs[..last][i].id == rs[..last][j].id
                  && rs[..last][i].username != rs[..last][j].username;
      assert rs[i].id == rs[j].id && rs[i].username != rs[j].username;
    } else {
      var j :| 0 <= j < last && rs[..last][j].id == key.0;
      assert rs[..last][j].Key() != key;
      assert rs[j].id == rs[last].id && rs[j].username != rs[last].username;
    }
  }

  lemma {:induction false} TwoUsersMakeOneLate(rs: seq<Peer>) returns (key: Key)
    requires !OneUserPerId(rs)
    ensures Late(rs, key)
  {
    var last := |rs| - 1;
    var rest := rs[..last];
    assert rs == rest + [rs[last]];
    if !OneUserPerId(rest) {
      key := TwoUsersMakeOneLate(rest);
      LateNeedsTwoUsers(rest, key);
    } else {
      key := rs[last].Key();
      assert forall k :: 0 <= k < last ==> rest[k] == rs[k];
      if forall o :: 0 <= o < last && rest[o].id == rs[last].id ==> rest[o].username == rs[last].username {
        OneUserExtends(rest, rs[last]);
        assert false;
      }
      var o :| 0 <= o < last && rest[o].id == rs[last].id && rest[o].username != rs[last].username;
      NotAnsweredYet(rest, key, o);
    }
  }

  lemma OneUserExtends(rs: seq<Peer>, r: Peer)
    requires OneUserPerId(rs)
    requires forall o :: 0 <= o < |rs| && rs[o].id == r.id ==> rs[o].username == r.username
    ensures OneUserPerId(rs + [r])
  {
  }

  lemma NotAnsweredYet(rs: seq<Peer>, key: Key, o: nat)
    requires OneUserPerId(rs) && o < |rs| && rs[o].id == key.0 && rs[o].username != key.1
    ensures LastIndex(rs, key) < 0
  {
  }

  /** One stored record with an address that this round gave no such value. */
  function Stale(rs: seq<Peer>, key: Key): Peer {
    Peer(key.0, key.1, "", "", true,
         map["" := if "" in Addresses(rs, key) then Addresses(rs, key)[""] + "'" else "'"])
  }

  /** Stored addresses are discarded, whatever was stored, if and only if no id answers under two user
      names: the replaced record is matched by id and user name, but only the id is remembered. */
  lemma StoredDiscardedExactly(rs: seq<Peer>)
    requires AllOnline(rs)
    ensures (forall stored :: DistinctPeers(stored) ==> DiscardsStored(Merged(stored, rs), rs)) <==> OneUserPerId(rs)
  {
    if OneUserPerId(rs) {
      forall stored | DistinctPeers(stored) ensures DiscardsStored(Merged(stored, rs), rs) {
        var n := MoveToFront(stored, rs);
        SilentMembers(stored, rs);
        DiscardsWhenNoneLate(Merged(stored, rs), n, stored, rs);
      }
    } else {
      var key := TwoUsersMakeOneLate(rs);
      LateNeedsTwoUsers(rs, key);
      var stored := [Stale(rs, key)];
      var n := MoveToFront(stored, rs);
      StaleKept(Merged(stored, rs), n, stored, rs, key);
    }
  }

  lemma StaleKept(peers: seq<Peer>, n: nat, stored: seq<Peer>, rs: seq<Peer>, key: Key)
    requires Late(rs, key) && LastIndex(rs, key) >= 0 && stored == [Stale(rs, key)]
    requires IsMerge(peers, n, stored, rs)
    ensures !DiscardsStored(peers, rs)
  {
    hide Silent, LatestFirst, Late;
    assert Listed(peers, n, rs[LastIndex(rs, key)].Key());
    var i :| 0 <= i < n && peers[i].Key() == key;
    assert peers[i] == Record(stored, rs, key);
    assert StoredAddresses(stored, key) == Stale(rs, key).ipMac;
    assert peers[i].ipMac[""] == Stale(rs, key).ipMac[""];
  }

  lemma DiscardsWhenNoneLate(peers: seq<Peer>, n: nat, stored: seq<Peer>, rs: seq<Peer>)
    requires IsMerge(peers, n, stored, rs) && OneUserPerId(rs)
    requires forall k :: 0 <= k < |Silent(stored, rs)| ==> LastIndex(rs, Silent(stored, rs)[k].Key()) < 0
    ensures DiscardsStored(peers, rs)
  {
    forall k | n <= k < |peers| ensures LastIndex(rs, peers[k].Key()) < 0 {
      assert peers[k] == peers[n..][k - n];
    }
    forall i | 0 <= i < |peers| && LastIndex(rs, peers[i].Key()) >= 0
      ensures peers[i].ipMac == Addresses(rs, peers[i].Key())
    {
      var key := peers[i].Key();
      assert peers[i] == Record(stored, rs, key);
      assert !Late(rs, key) by {
        if Late(rs, key) {
          LateNeedsTwoUsers(rs, key);
        }
      }
      assert Addresses(rs, key) + map[] == Addresses(rs, key);
    }
  }

  /** One that answers under two names: the second name's stored address survives the round. */
  lemma TwoNamesKeepStored()
    ensures var stored := [Peer("7", "bob", "", "", true, map["10.0.0.9" := "old"])];
            var rs := [Peer("7", "ann", "", "", true, map["10.0.0.2" := "m"]),
                       Peer("7", "bob", "", "", true, map["10.0.0.2" := "m"])];
            Merged(stored, rs)[0].ipMac == map["10.0.0.2" := "m", "10.0.0.9" := "old"]
  {
    var stored := [Peer("7", "bob", "", "", true, map["10.0.0.9" := "old"])];
    var ann := Peer("7", "ann", "", "", true, map["10.0.0.2" := "m"]);
    var bob := Peer("7", "bob", "", "", true, map["10.0.0.2" := "m"]);
    assert [ann, bob][..1] == [ann] && [ann][..0] == [];
    assert Merged(stored, []) == [stored[0].(online := false)];
    assert Merged(stored, [ann]) == [ann, stored[0].(online := false)];
    assert [ann][0].id == "7" && IdSeen([ann], "7");
    assert bob.ipMac + stored[0].ipMac == map["10.0.0.2" := "m", "10.0.0.9" := "old"];
  }
}
