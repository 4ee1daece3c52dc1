/** The registry of peers and their UI sessions (vntcrustdesk-src/src/flutter.rs:2036-2139, 2227-2284),
    with each operation atomic. */
module SessionRegistry {
  import opened Basics

  type SessionId = nat
  type PeerKey = (string, nat)  // the peer's id and the connection type

  /** The UI sessions of each peer; what a session holds does not matter here. */
  type Registry = map<PeerKey, set<SessionId>>

  ghost predicate Holds(r: Registry, key: PeerKey, id: SessionId) {
    key in r && id in r[key]
  }

  /** Every session belongs to one peer, and every peer has a session. */
  ghost predicate Agreed(r: Registry) {
    && (forall k, l, id :: Holds(r, k, id) && Holds(r, l, id) ==> k == l)
    && (forall k :: k in r ==> r[k] != {})
  }

  // ----- the operations on values -----

  /** `or_insert`, then the session is put under the peer. */
  function Inserted(r: Registry, key: PeerKey, id: SessionId): Registry {
    r[key := (if key in r then r[key] else {}) + {id}]
  }

  /** The session is taken from the peer it was found at, and the peer too if it was the last. */
  function RemovedAt(r: Registry, key: PeerKey, id: SessionId): Registry
    requires key in r
  {
    if r[key] - {id} == {} then r - {key} else r[key := r[key] - {id}]
  }

  /** `remove_session_by_session_id` when the map is iterated in this order: the new registry and the
      peer removed. */
  function Remove(r: Registry, order: seq<PeerKey>, id: SessionId): (Registry, Option<PeerKey>)
    requires forall k :: k in order ==> k in r
  {
    if order == [] then (r, None)
    else if id in r[order[0]] then
      (RemovedAt(r, order[0], id), if r[order[0]] - {id} == {} then Some(order[0]) else None)
    else Remove(r, order[1..], id)
  }

  /** `would_remove_peer_by_session_id` in this order. */
  function WouldRemove(r: Registry, order: seq<PeerKey>, id: SessionId): bool
    requires forall k :: k in order ==> k in r
  {
    if order == [] then false
    else if id in r[order[0]] then |r[order[0]]| == 1
    else WouldRemove(r, order[1..], id)
  }

  /** An order in which the map may be iterated: every peer once. */
  ghost predicate OrderOf(r: Registry, order: seq<PeerKey>) {
    && (forall k :: k in order <==> k in r)
    && (forall i, j :: 0 <= i < j < |order| ==> order[i] != order[j])
  }

  lemma SingletonIff(s: set<SessionId>, id: SessionId)
    requires id in s
    ensures s - {id} == {} <==> |s| == 1
  {
    assert |s - {id}| == |s| - 1;
  }

  /** In any order the two loops stop at the same peer. */
  lemma {:induction false} StopAtFirstHolder(r: Registry, order: seq<PeerKey>, id: SessionId)
    returns (holder: Option<PeerKey>)
    requires forall k :: k in order ==> k in r
    ensures holder.None? <==> forall k :: k in order ==> id !in r[k]
    ensures holder.None? ==> Remove(r, order, id) == (r, None) && !WouldRemove(r, order, id)
    ensures holder.Some? ==>
              var k := holder.value;
              && k in order && id in r[k]
              && (WouldRemove(r, order, id) <==> |r[k]| == 1)
              && Remove(r, order, id) == (RemovedAt(r, k, id), if |r[k]| == 1 then Some(k) else None)
  {
    if order == [] {
      holder := None;
    } else if id in r[order[0]] {
      holder := Some(order[0]);
      SingletonIff(r[order[0]], id);
    } else {
      holder := StopAtFirstHolder(r, order[1..], id);
      assert forall k :: k in order <==> k == order[0] || k in order[1..];
    }
  }

  /** In an agreed registry the prediction is right, and both answers and the new registry are the same
      whatever the two iteration orders. */
  lemma PredictionCorrect(r: Registry, asked: seq<PeerKey>, done: seq<PeerKey>, id: SessionId)
    requires Agreed(r) && OrderOf(r, asked) && OrderOf(r, done)
    ensures WouldRemove(r, asked, id) <==> Remove(r, done, id).1.Some?
    ensures Remove(r, asked, id) == Remove(r, done, id)
    ensures Remove(r, done, id).1.Some? ==>
              var k := Remove(r, done, id).1.value; k in r && r[k] == {id} && Remove(r, done, id).0 == r - {k}
    ensures forall k :: !Holds(Remove(r, done, id).0, k, id)
  {
    var h1 := StopAtFirstHolder(r, asked, id);
    var h2 := StopAtFirstHolder(r, done, id);
    if h2.Some? {
      assert Holds(r, h2.value, id);
      SingletonIff(r[h2.value], id);
    }
    if h1.Some? {
      assert Holds(r, h1.value, id);
    }
    forall k ensures !Holds(Remove(r, done, id).0, k, id) {
      if k in r && id in r[k] {
        assert Holds(r, k, id);
      }
    }
  }

  /** The order of iteration that starts with peer `k`. */
  lemma OrderStartingWith(r: Registry, order: seq<PeerKey>, k: PeerKey) returns (o: seq<PeerKey>)
    requires OrderOf(r, order) && k in r
    ensures OrderOf(r, o) && o != [] && o[0] == k
  {
    var i :| 0 <= i < |order| && order[i] == k;
    var rest := order[..i] + order[i + 1..];
    o := [k] + rest;
    forall l ensures l in o <==> l in r {
      if l in r && l != k {
        var j :| 0 <= j < |order| && order[j] == l;
        assert l == if j < i then rest[j] else rest[j - 1];
      }
    }
  }

  /** For an arbitrary registry, the prediction agrees with the removal in every pair of orders exactly
      when all the peers holding the session agree on whether it is their only one. */
  lemma PredictionCorrectExactly(r: Registry, order: seq<PeerKey>, id: SessionId)
    requires OrderOf(r, order)
    ensures (forall asked, done :: OrderOf(r, asked) && OrderOf(r, done) ==>
               (WouldRemove(r, asked, id) <==> Remove(r, done, id).1.Some?))
            <==> (forall k, l :: Holds(r, k, id) && Holds(r, l, id) ==> (|r[k]| == 1 <==> |r[l]| == 1))
  {
    if forall k, l :: Holds(r, k, id) && Holds(r, l, id) ==> (|r[k]| == 1 <==> |r[l]| == 1) {
      forall asked, done | OrderOf(r, asked) && OrderOf(r, done)
        ensures WouldRemove(r, asked, id) <==> Remove(r, done, id).1.Some?
      {
        var h1 := StopAtFirstHolder(r, asked, id);
        var h2 := StopAtFirstHolder(r, done, id);
        if h1.Some? && h2.Some? {
          assert Holds(r, h1.value, id) && Holds(r, h2.value, id);
        }
      }
    } else {
      var k, l :| Holds(r, k, id) && Holds(r, l, id) && (|r[k]| == 1) && (|r[l]| != 1);
      var asked := OrderStartingWith(r, order, k);
      var done := OrderStartingWith(r, order, l);
      SingletonIff(r[l], id);
      assert WouldRemove(r, asked, id) && Remove(r, done, id).1.None?;
    }
  }

  // ----- runs -----

  datatype Op =
    | Insert(key: PeerKey, id: SessionId)          // insert_session
    | InsertExisting(key: PeerKey, id: SessionId)  // insert_peer_session_id
    | RemoveById(id: SessionId, order: seq<PeerKey>)

  /** A new session's id is not in use by another peer; removal iterates the map in some order. */
  ghost predicate Allowed(r: Registry, op: Op) {
    match op
    case Insert(key, id) => Fresh(r, key, id)
    case InsertExisting(key, id) => key in r ==> Fresh(r, key, id)
    case RemoveById(_, order) => OrderOf(r, order)
  }

  ghost predicate Fresh(r: Registry, key: PeerKey, id: SessionId) {
    forall k :: Holds(r, k, id) ==> k == key
  }

  ghost function After(r: Registry, op: Op): Registry
    requires op.RemoveById? ==> OrderOf(r, op.order)
  {
    match op
    case Insert(key, id) => Inserted(r, key, id)
    case InsertExisting(key, id) => if key in r then Inserted(r, key, id) else r
    case RemoveById(id, order) => Remove(r, order, id).0
  }

  /** Inserting adds the session to its peer and changes nothing else; the peer is added if it is missing. */
  lemma InsertExactly(r: Registry, key: PeerKey, id: SessionId)
    ensures var r' := Inserted(r, key, id);
            && r'.Keys == r.Keys + {key}
            && forall k, j :: Holds(r', k, j) <==> Holds(r, k, j) || (k == key && j == id)
  {
    var r' := Inserted(r, key, id);
    assert forall j :: j in r'[key] <==> (key in r && j in r[key]) || j == id;
  }

  /** Removing takes the session from the first peer in the order that holds it, if there is one, and changes
      nothing else; that peer goes with its last session, and is returned exactly then. */
  lemma RemoveExactly(r: Registry, order: seq<PeerKey>, id: SessionId) returns (holder: Option<PeerKey>)
    requires OrderOf(r, order)
    ensures holder.None? <==> forall k :: !Holds(r, k, id)
    ensures holder.Some? ==> exists i :: 0 <= i < |order| && order[i] == holder.value && Holds(r, holder.value, id)
                                         && forall j :: 0 <= j < i ==> !Holds(r, order[j], id)
    ensures var (r', removed) := Remove(r, order, id);
            && (forall k, j :: Holds(r', k, j) <==> Holds(r, k, j) && !(holder == Some(k) && j == id))
            && (holder.Some? && r[holder.value] == {id} ==>
                  removed == holder && r'.Keys == r.Keys - {holder.value})
            && (holder.None? || r[holder.value] != {id} ==> removed == None && r'.Keys == r.Keys)
  {
    var i := FirstHolder(r, order, id);
    if i == |order| {
      holder := None;
      assert forall k :: Holds(r, k, id) ==> k in order;
    } else {
      holder := Some(order[i]);
      assert Holds(r, order[i], id);
      assert r[order[i]] - {id} == {} <==> r[order[i]] == {id};
    }
  }

  lemma {:induction false} FirstHolder(r: Registry, order: seq<PeerKey>, id: SessionId) returns (i: nat)
    requires forall k :: k in order ==> k in r
    ensures i <= |order| && forall j :: 0 <= j < i ==> !Holds(r, order[j], id)
    ensures i == |order| ==> Remove(r, order, id) == (r, None)
    ensures i < |order| ==>
              var k := order[i];
              && Holds(r, k, id)
              && Remove(r, order, id) == (RemovedAt(r, k, id), if r[k] - {id} == {} then Some(k) else None)
  {
    if order == [] || id in r[order[0]] {
      i := 0;
    } else {
      var n := FirstHolder(r, order[1..], id);
      i := 1 + n;
      assert forall j :: 0 < j < |order| ==> order[j] == order[1..][j - 1];
    }
  }

  /** In an agreed registry removing an id takes exactly that id away, everywhere; a peer goes if and only if
      it had no other session, and then it is the one returned. */
  lemma RemoveTakesOnlyThatId(r: Registry, order: seq<PeerKey>, id: SessionId)
    requires Agreed(r) && OrderOf(r, order)
    ensures var (r', removed) := Remove(r, order, id);
            && (forall k, j :: Holds(r', k, j) <==> Holds(r, k, j) && j != id)
            && (forall k :: k in r' <==> k in r && r[k] != {id})
            && (forall k :: removed == Some(k) <==> k in r && r[k] == {id})
  {
    var holder := RemoveExactly(r, order, id);
    assert forall k :: k in r && r[k] == {id} ==> Holds(r, k, id);
  }

  /** Inserting a new session and removing it again gives the registry back, with or without a peer that was
      there before. */
  lemma InsertThenRemove(r: Registry, key: PeerKey, id: SessionId, order: seq<PeerKey>)
    requires Agreed(r) && OrderOf(Inserted(r, key, id), order) && forall k :: !Holds(r, k, id)
    ensures Remove(Inserted(r, key, id), order, id) == (r, if key in r then None else Some(key))
  {
    var r1 := Inserted(r, key, id);
    InsertExactly(r, key, id);
    InsertAgreesExactly(r, key, id);
    RemoveTakesOnlyThatId(r1, order, id);
    var (r2, removed) := Remove(r1, order, id);
    if key in r {
      var other :| other in r[key];
      assert Holds(r, key, other) && other in r1[key] && other != id;
    }
    forall k ensures k in r1 && r1[k] == {id} <==> k == key && key !in r {
      assert k != key && k in r1 ==> r1[k] == r[k] && !Holds(r, k, id);
    }
    forall k | k in r ensures k in r2 && r2[k] == r[k] {
      forall j ensures j in r2[k] <==> j in r[k] {
        assert Holds(r2, k, j) <==> Holds(r, k, j);
      }
    }
    assert r2.Keys == r.Keys;
    assert r2 == r;
    assert removed == if key in r then None else Some(key) by {
      assert removed == Some(key) <==> key !in r;
      if removed.Some? {
        assert removed == Some(removed.value);
      }
    }
  }

  /** Inserting keeps the agreement exactly when the id is not in use by another peer. */
  lemma InsertAgreesExactly(r: Registry, key: PeerKey, id: SessionId)
    requires Agreed(r)
    ensures Agreed(Inserted(r, key, id)) <==> Fresh(r, key, id)
  {
    var r' := Inserted(r, key, id);
    InsertExactly(r, key, id);
    assert Holds(r', key, id);
  }

  lemma RemoveAgrees(r: Registry, order: seq<PeerKey>, id: SessionId)
    requires Agreed(r) && OrderOf(r, order)
    ensures Agreed(Remove(r, order, id).0)
  {
    var h := StopAtFirstHolder(r, order, id);
    var r' := Remove(r, order, id).0;
    assert forall k, j :: Holds(r', k, j) ==> Holds(r, k, j);
  }

  ghost predicate Run(trace: seq<Registry>, ops: seq<Op>) {
    && |trace| == |ops| + 1
    && trace[0] == map[]
    && forall k :: 0 <= k < |ops| ==> Allowed(trace[k], ops[k]) && trace[k + 1] == After(trace[k], ops[k])
  }

  /** Every reachable registry holds each session under one peer and no peer without a session. */
  lemma {:induction false} AlwaysAgreed(trace: seq<Registry>, ops: seq<Op>)
    requires Run(trace, ops)
    ensures Agreed(trace[|ops|])
  {
    if ops != [] {
      var last := |ops| - 1;
      AlwaysAgreed(trace[..last + 1], ops[..last]);
      var r := trace[last];
      assert trace[last + 1] == After(r, ops[last]);
      match ops[last]
      case Insert(key, id) => InsertAgreesExactly(r, key, id);
      case InsertExisting(key, id) => InsertAgreesExactly(r, key, id);
      case RemoveById(id, order) => RemoveAgrees(r, order, id);
    }
  }

  /** So in every reachable registry the prediction is exact, whatever the orders. */
  lemma ReachablePrediction(trace: seq<Registry>, ops: seq<Op>, asked: seq<PeerKey>, done: seq<PeerKey>, id: SessionId)
    requires Run(trace, ops) && OrderOf(trace[|ops|], asked) && OrderOf(trace[|ops|], done)
    ensures WouldRemove(trace[|ops|], asked, id) <==> Remove(trace[|ops|], done, id).1.Some?
  {
    AlwaysAgreed(trace, ops);
    PredictionCorrect(trace[|ops|], asked, done, id);
  }

  // ----- the registry itself -----

  class Sessions {
    var peers: map<PeerKey, set<SessionId>>

    constructor ()
      ensures peers == map[]
    {
      peers := map[];
    }

    method InsertSession(key: PeerKey, id: SessionId)
      modifies this
      ensures peers == Inserted(old(peers), key, id)
    {
      if key !in peers {
        peers := peers[key := {}];
      }
      peers := peers[key := peers[key] + {id}];
    }

    method InsertPeerSessionId(key: PeerKey, id: SessionId) returns (found: bool)
      modifies this
      ensures found <==> key in old(peers)
      ensures peers == if key in old(peers) then Inserted(old(peers), key, id) else old(peers)
    {
      if key in peers {
        peers := peers[key := peers[key] + {id}];
        return true;
      }
      return false;
    }

    /** The loop with its early exit, over the order the hash map happens to give. */
    method RemoveSessionById(id: SessionId, order: seq<PeerKey>) returns (removed: Option<PeerKey>)
      requires OrderOf(peers, order)
      modifies this
      ensures (peers, removed) == Remove(old(peers), order, id)
    {
      removed := None;
      ghost var r := peers;
      for i := 0 to |order|
        invariant peers == r && removed == None
        invariant forall k :: k in order[i..] ==> k in r
        invariant Remove(r, order, id) == Remove(r, order[i..], id)
      {
        assert order[i..][1..] == order[i + 1..];
        var key := order[i];
        assert key in order[i..];
        if id in peers[key] {
          var left := peers[key] - {id};
          peers := peers[key := left];
          if left == {} {
            removed := Some(key);
          }
          break;
        }
      }
      if removed.Some? {
        peers := peers - {removed.value};
        assert peers == r - {removed.value};
      }
    }

    method WouldRemovePeer(id: SessionId, order: seq<PeerKey>) returns (would: bool)
      requires OrderOf(peers, order)
      ensures would == WouldRemove(peers, order, id)
    {
      for i := 0 to |order|
        invariant forall k :: k in order[i..] ==> k in peers
        invariant WouldRemove(peers, order, id) == WouldRemove(peers, order[i..], id)
      {
        assert order[i..][1..] == order[i + 1..];
        assert order[i] in order[i..];
        if id in peers[order[i]] {
          return |peers[order[i]]| == 1;
        }
      }
      return false;
    }
  }
}
