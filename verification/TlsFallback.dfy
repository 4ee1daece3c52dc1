/** HTTP requests that fall back to accepting an invalid certificate and then to native TLS
    (vntcrustdesk-src/src/common.rs:1143-1248, 1253-1348) and the cache of what worked
    (vntcrustdesk-src/libs/hbb_common/src/tls.rs:12-95). */
module TlsFallback {
  import opened Basics

  datatype TlsType = Plain | NativeTls | Rustls

  /** One attempt: the TLS backend and whether an invalid certificate is accepted. */
  datatype Attempt = Attempt(tls: TlsType, accept: bool)

  /** What the network makes of an attempt; only `RequestError` is retried. */
  datatype Outcome = Response | RequestError | OtherError

  /** The attempts made, in order, and the one that was answered. */
  datatype Trace = Trace(attempts: seq<Attempt>, answered: Option<Attempt>)

  /** The outcome of each attempt may depend on the attempt and on its number. */
  type Network = (nat, Attempt) -> Outcome

  // ----- the cache -----

  /** The part of the cache that concerns one host. */
  datatype HostCache = HostCache(tls: Option<TlsType>, accept: Option<bool>)

  function Upsert(plainUrl: bool, cache: HostCache, a: Attempt): HostCache {
    if plainUrl then cache else HostCache(Some(a.tls), Some(a.accept))
  }

  function CachedTls(plainUrl: bool, cache: HostCache): Option<TlsType> {
    if plainUrl then Some(Plain) else cache.tls
  }

  function CachedAccept(plainUrl: bool, allowInsecure: bool, cache: HostCache): Option<bool> {
    if !allowInsecure || plainUrl then Some(false) else cache.accept
  }

  // ----- the recursion -----

  function Made(a: Attempt, t: Trace): Trace {
    t.(attempts := [a] + t.attempts)
  }

  /** `post_request_`; `n` counts the attempts already made. Going on to native TLS puts the
      certificate flag back to its original value, so the flag alone is no termination measure. */
  function Post(net: Network, n: nat, tls: Option<TlsType>, accept: Option<bool>, original: Option<bool>): Trace
    decreases if tls.None? then 1 else 0, if accept.None? then 1 else 0
  {
    var a := Attempt(tls.UnwrapOr(Rustls), accept.UnwrapOr(false));
    if tls.Some? && accept.Some? then
      match net(n, a)
      case Response => Trace([a], Some(a))
      case _ => Trace([a], None)
    else
      match net(n, a)
      case Response => Trace([a], Some(a))
      case OtherError => Trace([a], None)
      case RequestError =>
        if accept.None? then Made(a, Post(net, n + 1, tls, Some(true), original))
        else Made(a, Post(net, n + 1, Some(NativeTls), original, original))
  }

  // ----- the reference: a fixed plan, cut at the first attempt that is not a request error -----

  function Flags(tls: TlsType, accept: Option<bool>): seq<Attempt> {
    if accept.Some? then [Attempt(tls, accept.value)] else [Attempt(tls, false), Attempt(tls, true)]
  }

  /** Every combination still open: the known backend or else rustls and then native TLS, each with
      the known flag or else strict and then lax. */
  function Plan(tls: Option<TlsType>, accept: Option<bool>): seq<Attempt> {
    if tls.Some? then Flags(tls.value, accept)
    else Flags(Rustls, accept) + Flags(NativeTls, accept)
  }

  function Follow(net: Network, n: nat, plan: seq<Attempt>): Trace
    decreases |plan|
  {
    if plan == [] then Trace([], None)
    else
      match net(n, plan[0])
      case Response => Trace([plan[0]], Some(plan[0]))
      case OtherError => Trace([plan[0]], None)
      case RequestError => Made(plan[0], Follow(net, n + 1, plan[1..]))
  }

  lemma FollowFlags(net: Network, n: nat, tls: TlsType, accept: Option<bool>)
    ensures Post(net, n, Some(tls), accept, accept) == Follow(net, n, Flags(tls, accept))
    ensures Post(net, n, Some(tls), Some(true), accept) == Follow(net, n, [Attempt(tls, true)])
  {
    FollowOne(net, n, Attempt(tls, true));
    if accept.None? {
      FollowOne(net, n + 1, Attempt(tls, true));
      assert Flags(tls, accept)[1..] == [Attempt(tls, true)];
    } else {
      FollowOne(net, n, Attempt(tls, accept.value));
    }
  }

  lemma FollowOne(net: Network, n: nat, a: Attempt)
    ensures Follow(net, n, [a]) == Trace([a], if net(n, a).Response? then Some(a) else None)
  {
    assert [a][1..] == [];
    assert Follow(net, n + 1, []) == Trace([], None);
    assert [a] + [] == [a];
  }

  /** Whatever the network does, the recursion follows the plan. */
  lemma PostFollowsPlan(net: Network, tls: Option<TlsType>, accept: Option<bool>)
    ensures Post(net, 0, tls, accept, accept) == Follow(net, 0, Plan(tls, accept))
  {
    if tls.Some? {
      FollowFlags(net, 0, tls.value, accept);
    } else {
      var plan := Plan(tls, accept);
      if accept.Some? {
        assert plan[1..] == Flags(NativeTls, accept);
        FollowFlags(net, 1, NativeTls, accept);
      } else {
        assert plan[1..][1..] == Flags(NativeTls, accept);
        assert plan[1..][0] == Attempt(Rustls, true);
        FollowFlags(net, 2, NativeTls, accept);
      }
    }
  }

  /** The attempts are a beginning of the plan, and the answered one is the last. */
  lemma {:induction false} FollowIsPrefix(net: Network, n: nat, plan: seq<Attempt>)
    ensures var t := Follow(net, n, plan);
            && t.attempts <= plan
            && (plan != [] ==> t.attempts != [])
            && (t.answered.Some? ==> t.attempts != [] && t.answered.value == t.attempts[|t.attempts| - 1])
    decreases |plan|
  {
    if plan != [] {
      FollowIsPrefix(net, n + 1, plan[1..]);
      assert plan == [plan[0]] + plan[1..];
    }
  }

  /** The last attempt decides: it was answered, or failed for good, or there was nothing left. */
  lemma {:induction false} FollowStops(net: Network, n: nat, plan: seq<Attempt>)
    requires plan != []
    ensures var t := Follow(net, n, plan);
            && t.attempts != []
            && var last := net(n + |t.attempts| - 1, t.attempts[|t.attempts| - 1]);
               && (t.answered.Some? <==> last.Response?)
               && (last.RequestError? ==> t.attempts == plan)
    decreases |plan|
  {
    if net(n, plan[0]).RequestError? {
      assert plan == [plan[0]] + plan[1..];
      if |plan| > 1 {
        FollowStops(net, n + 1, plan[1..]);
      }
    }
  }

  lemma {:induction false} FollowRetries(net: Network, n: nat, plan: seq<Attempt>, j: nat)
    requires j < |Follow(net, n, plan).attempts| - 1
    ensures j < |plan| && net(n + j, plan[j]) == RequestError
    decreases j
  {
    if j > 0 {
      FollowRetries(net, n + 1, plan[1..], j - 1);
      assert n + 1 + (j - 1) == n + j;
    }
  }

  /** What following a plan does, without the recursion: the attempts are the plan up to the first that is not
      a request error, and there is an answer exactly if that one was answered. */
  lemma FollowExactly(net: Network, n: nat, plan: seq<Attempt>)
    requires plan != []
    ensures var t := Follow(net, n, plan);
            var k := |t.attempts| - 1;
            && 0 <= k < |plan| && t.attempts == plan[..k + 1]
            && (forall j :: 0 <= j < k ==> net(n + j, plan[j]) == RequestError)
            && (net(n + k, plan[k]) == RequestError ==> k == |plan| - 1)
            && t.answered == if net(n + k, plan[k]) == Response then Some(plan[k]) else None
  {
    FollowIsPrefix(net, n, plan);
    FollowStops(net, n, plan);
    var t := Follow(net, n, plan);
    forall j | 0 <= j < |t.attempts| - 1 ensures net(n + j, plan[j]) == RequestError {
      FollowRetries(net, n, plan, j);
    }
    hide Follow;
    assert t.attempts == plan[..|t.attempts|];
  }

  /** The recursion ends after at most four attempts, at most two with one answer known and one with
      both; no combination is tried twice; the answered attempt is the last; and when nothing
      answered, either an error that is not retried ended it or every open combination was tried. */
  lemma FallbackTerminates(net: Network, tls: Option<TlsType>, accept: Option<bool>)
    ensures var t := Post(net, 0, tls, accept, accept);
            && 1 <= |t.attempts| <= (if tls.None? then 2 else 1) * (if accept.None? then 2 else 1)
            && NoDuplicates(t.attempts)
            && (t.answered.Some? ==> t.answered.value == t.attempts[|t.attempts| - 1])
            && (t.answered.None? ==>
                  net(|t.attempts| - 1, t.attempts[|t.attempts| - 1]).OtherError? || t.attempts == Plan(tls, accept))
  {
    hide Post, Follow;
    PostFollowsPlan(net, tls, accept);
    FollowIsPrefix(net, 0, Plan(tls, accept));
    FollowStops(net, 0, Plan(tls, accept));
  }

  // ----- whole requests -----

  /** `post_request`: look up the cache, run the recursion, and record what worked. */
  function Request(net: Network, plainUrl: bool, allowInsecure: bool, cache: HostCache): (Trace, HostCache) {
    var accept := CachedAccept(plainUrl, allowInsecure, cache);
    var t := Post(net, 0, CachedTls(plainUrl, cache), accept, accept);
    (t, if t.answered.Some? then Upsert(plainUrl, cache, t.answered.value) else cache)
  }

  /** The backends a request may try, and the certificate flags it tries with each, from the cache. A plain
      URL needs neither; with the fallback off only strict attempts are made. */
  function Backends(plainUrl: bool, cache: HostCache): seq<TlsType> {
    if plainUrl then [Plain] else if cache.tls.Some? then [cache.tls.value] else [Rustls, NativeTls]
  }

  function Accepts(plainUrl: bool, allowInsecure: bool, cache: HostCache): seq<bool> {
    if plainUrl || !allowInsecure then [false]
    else if cache.accept.Some? then [cache.accept.value] else [false, true]
  }

  /** A whole request follows these combinations, the flags within each backend, and the cache changes only
      for an answered request of a URL with TLS, to what was answered. */
  lemma RequestExactly(net: Network, plainUrl: bool, allowInsecure: bool, cache: HostCache)
    returns (plan: seq<Attempt>)
    ensures var bs, fs := Backends(plainUrl, cache), Accepts(plainUrl, allowInsecure, cache);
            && |plan| == |bs| * |fs|
            && forall i, j :: 0 <= i < |bs| && 0 <= j < |fs| ==>
                 i * |fs| + j < |plan| && plan[i * |fs| + j] == Attempt(bs[i], fs[j])
    ensures var (t, cache') := Request(net, plainUrl, allowInsecure, cache);
            && t == Follow(net, 0, plan)
            && cache' == if t.answered.None? || plainUrl then cache
                         else HostCache(Some(t.answered.value.tls), Some(t.answered.value.accept))
  {
    var tls, accept := CachedTls(plainUrl, cache), CachedAccept(plainUrl, allowInsecure, cache);
    PostFollowsPlan(net, tls, accept);
    plan := Plan(tls, accept);
    var bs, fs := Backends(plainUrl, cache), Accepts(plainUrl, allowInsecure, cache);
    assert |bs| <= 2 && |fs| <= 2;
  }

  /** A host that nothing is known of: rustls strict and lax, then native TLS strict and lax. */
  lemma FreshHost(net: Network)
    ensures Request(net, false, true, HostCache(None, None)).0 ==
            Follow(net, 0, [Attempt(Rustls, false), Attempt(Rustls, true),
                            Attempt(NativeTls, false), Attempt(NativeTls, true)])
  {
    PostFollowsPlan(net, None, None);
    assert Plan(None, None) == [Attempt(Rustls, false), Attempt(Rustls, true),
                                Attempt(NativeTls, false), Attempt(NativeTls, true)];
  }

  /** After an answered request the cache holds exactly the combination that worked, and the next
      request to that host makes a single attempt with that backend, strict if the fallback has been
      switched off in between. */
  lemma NextRequestIsSingle(net: Network, net': Network, plainUrl: bool, allowInsecure: bool, allowInsecure': bool,
                            cache: HostCache)
    requires Request(net, plainUrl, allowInsecure, cache).0.answered.Some?
    ensures var (t, cache') := Request(net, plainUrl, allowInsecure, cache);
            var worked := t.answered.value;
            && (!plainUrl ==> cache' == HostCache(Some(worked.tls), Some(worked.accept)))
            && Request(net', plainUrl, allowInsecure', cache').0.attempts
               == [Attempt(worked.tls, allowInsecure' && worked.accept)]
            && (plainUrl ==> worked == Attempt(Plain, false))
  {
    FallbackTerminates(net, CachedTls(plainUrl, cache), CachedAccept(plainUrl, allowInsecure, cache));
  }

  /** An invalid certificate is never accepted while the fallback is off. */
  lemma StrictWhenNotAllowed(net: Network, plainUrl: bool, cache: HostCache)
    ensures var t := Request(net, plainUrl, false, cache).0;
            |t.attempts| <= 2 && forall k :: 0 <= k < |t.attempts| ==> !t.attempts[k].accept
  {
    hide Post, Follow;
    var tls := CachedTls(plainUrl, cache);
    PostFollowsPlan(net, tls, Some(false));
    FollowIsPrefix(net, 0, Plan(tls, Some(false)));
  }

  // ----- get_http_response_async -----

  datatype Method = HttpGet | HttpPost | HttpPut | HttpDelete | Unsupported

  /** The same fallback behind a check of the method and of the header, repeated in every call. */
  function HttpResponse(net: Network, n: nat, m: Method, headerIsObject: bool,
                        tls: Option<TlsType>, accept: Option<bool>, original: Option<bool>): Trace
    decreases if tls.None? then 1 else 0, if accept.None? then 1 else 0
  {
    if m.Unsupported? || !headerIsObject then Trace([], None)
    else
      var a := Attempt(tls.UnwrapOr(Rustls), accept.UnwrapOr(false));
      if tls.Some? && accept.Some? then
        match net(n, a)
        case Response => Trace([a], Some(a))
        case _ => Trace([a], None)
      else
        match net(n, a)
        case Response => Trace([a], Some(a))
        case OtherError => Trace([a], None)
        case RequestError =>
          if accept.None? then Made(a, HttpResponse(net, n + 1, m, headerIsObject, tls, Some(true), original))
          else Made(a, HttpResponse(net, n + 1, m, headerIsObject, Some(NativeTls), original, original))
  }

  /** It tries the same sequence as `post_request_`, or nothing at all for a malformed request. */
  lemma {:induction false} SameSequence(net: Network, n: nat, m: Method, headerIsObject: bool,
                                        tls: Option<TlsType>, accept: Option<bool>, original: Option<bool>)
    ensures HttpResponse(net, n, m, headerIsObject, tls, accept, original) ==
            if m.Unsupported? || !headerIsObject then Trace([], None) else Post(net, n, tls, accept, original)
    decreases if tls.None? then 1 else 0, if accept.None? then 1 else 0
  {
    if accept.None? {
      SameSequence(net, n + 1, m, headerIsObject, tls, Some(true), original);
    } else if tls.None? {
      SameSequence(net, n + 1, m, headerIsObject, Some(NativeTls), original, original);
    }
  }
}
