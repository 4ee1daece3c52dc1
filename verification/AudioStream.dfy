/** The audio ring against the stream of all samples appended since the last resize
    (vntcrustdesk-src/src/client.rs:1299-1317, 1477-1533). */
module AudioStream {
  import opened Basics

  /** The ring's contents, with the whole stream and the stream positions handed to the device. */
  datatype Stream<S> = Stream(capacity: nat, items: seq<S>, appended: seq<S>, delivered: seq<nat>)

  function Empty<S>(capacity: nat): Stream<S> {
    Stream(capacity, [], [], [])
  }

  /** The last `n` elements, or all of them. */
  function LastOf<S>(s: seq<S>, n: nat): seq<S> {
    s[|s| - Min(n, |s|)..]
  }

  /** The newest samples stay, as many as fit. */
  function Append<S>(s: Stream<S>, buffer: seq<S>): Stream<S> {
    s.(items := LastOf(s.items + buffer, s.capacity), appended := s.appended + buffer)
  }

  /** The `n` oldest samples are dropped. */
  function Drop<S>(s: Stream<S>, n: nat): Stream<S> {
    s.(items := s.items[Min(n, |s.items|)..])
  }

  /** The device takes up to `n` samples. */
  function Pop<S>(s: Stream<S>, n: nat): Stream<S> {
    var taken := Min(n, |s.items|);
    s.(items := s.items[taken..],
       delivered := s.delivered + Positions(Position(s), taken))
  }

  function Positions(from: nat, n: nat): (r: seq<nat>)
    ensures |r| == n && forall k :: 0 <= k < n ==> r[k] == from + k
    decreases n
  {
    if n == 0 then [] else [from] + Positions(from + 1, n - 1)
  }

  /** Where in the stream the oldest buffered sample is. */
  function Position<S>(s: Stream<S>): nat {
    if |s.items| <= |s.appended| then |s.appended| - |s.items| else 0
  }

  /** The buffer is the end of the stream and fits; what the device got came from before it, in order,
      with nothing repeated. */
  ghost predicate Refines<S>(s: Stream<S>) {
    && |s.items| <= s.capacity
    && |s.items| <= |s.appended|
    && s.items == s.appended[Position(s)..]
    && (forall k :: 0 <= k < |s.delivered| ==> s.delivered[k] < Position(s))
    && (forall j, k :: 0 <= j < k < |s.delivered| ==> s.delivered[j] < s.delivered[k])
  }

  lemma DropNothing<S>(s: Stream<S>)
    ensures Drop(s, 0) == s
  {
  }

  /** What is buffered and what is recorded after each operation, in terms of the samples: appending keeps the
      newest that fit, dropping takes the oldest away. */
  lemma AppendExactly<S>(s: Stream<S>, buffer: seq<S>)
    ensures var s', all := Append(s, buffer), s.items + buffer;
            && (|all| <= s.capacity ==> s'.items == all)
            && (|all| > s.capacity ==> s'.items == all[|all| - s.capacity..])
            && s'.appended == s.appended + buffer && s'.delivered == s.delivered && s'.capacity == s.capacity
  {
  }

  lemma DropExactly<S>(s: Stream<S>, n: nat)
    ensures var s' := Drop(s, n);
            && s'.items == (if n <= |s.items| then s.items[n..] else [])
            && s'.appended == s.appended && s'.delivered == s.delivered && s'.capacity == s.capacity
  {
  }

  datatype Op<S> = Appended(buffer: seq<S>) | Dropped(n: nat) | Popped(n: nat)

  function Step<S>(s: Stream<S>, op: Op<S>): Stream<S> {
    match op
    case Appended(buffer) => Append(s, buffer)
    case Dropped(n) => Drop(s, n)
    case Popped(n) => Pop(s, n)
  }

  function Run<S>(s: Stream<S>, ops: seq<Op<S>>): Stream<S> {
    if ops == [] then s else Step(Run(s, ops[..|ops| - 1]), ops[|ops| - 1])
  }

  lemma StepRefines<S>(s: Stream<S>, op: Op<S>)
    requires Refines(s)
    ensures Refines(Step(s, op))
  {
    match op
    case Appended(buffer) =>
      var all := s.items + buffer;
      assert all == (s.appended + buffer)[Position(s)..];
    case _ =>
  }

  /** Over every interleaving of appends, drops and device pops since a resize, the ring refines the
      stream. */
  lemma {:induction false} RunRefines<S>(capacity: nat, ops: seq<Op<S>>)
    ensures Refines(Run(Empty<S>(capacity), ops))
  {
    if ops != [] {
      RunRefines(capacity, ops[..|ops| - 1]);
      StepRefines(Run(Empty<S>(capacity), ops[..|ops| - 1]), ops[|ops| - 1]);
    }
  }

  /** One pop hands over the oldest buffered samples: the next ones of the stream, after all the
      earlier ones. */
  lemma PopDelivers<S>(s: Stream<S>, n: nat)
    requires Refines(s)
    ensures var s' := Pop(s, n);
            var taken := Min(n, |s.items|);
            && s'.items == s.items[taken..] && s'.appended == s.appended
            && |s'.delivered| == |s.delivered| + taken && s.delivered <= s'.delivered
            && forall k :: 0 <= k < taken ==>
                 && s'.delivered[|s.delivered| + k] < |s.appended|
                 && s.items[k] == s.appended[s'.delivered[|s.delivered| + k]]
  {
  }
}
