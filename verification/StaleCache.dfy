/** A cache that answers with the previous result while the next one is computed off the request path:
    the state machine of lib/fleet-aggregates.ts, for any key. */
module StaleCache {
  import opened Wrappers

  /** How inputs are keyed, and when a result for another key may still be served. */
  datatype Keys<!I> = Keys(key: I -> string, same: (string, string) -> bool)

  /** The cached result by the inputs it was computed from, the key being recomputed, and the deferred
      computations, oldest first. */
  datatype State<I> = State(cached: Option<I>, pending: Option<string>, deferred: seq<I>)

  function Init<I>(): State<I> {
    State(None, None, [])
  }

  predicate Hit<I(==)>(k: Keys<I>, s: State<I>, i: I) {
    s.cached.Some? && k.key(s.cached.value) == k.key(i)
  }

  predicate Stale<I(==)>(k: Keys<I>, s: State<I>, i: I) {
    s.cached.Some? && !Hit(k, s, i) && k.same(k.key(s.cached.value), k.key(i))
  }

  /** The inputs behind the result a request is answered with. */
  function Served<I(==)>(k: Keys<I>, s: State<I>, i: I): I {
    if Hit(k, s, i) || Stale(k, s, i) then s.cached.value else i
  }

  function Request<I(==)>(k: Keys<I>, s: State<I>, i: I): State<I> {
    if Hit(k, s, i) then s
    else if Stale(k, s, i) then
      if s.pending == Some(k.key(i)) then s
      else s.(pending := Some(k.key(i)), deferred := s.deferred + [i])
    else s.(cached := Some(i))
  }

  /** The oldest deferred computation runs; it may throw. */
  function Callback<I>(s: State<I>, throws: bool): State<I>
    requires s.deferred != []
  {
    State(if throws then s.cached else Some(s.deferred[0]), None, s.deferred[1..])
  }

  datatype Event<I> = Asked(i: I) | Ran(throws: bool)

  function Step<I(==)>(k: Keys<I>, s: State<I>, e: Event<I>): State<I> {
    match e
    case Asked(i) => Request(k, s, i)
    case Ran(throws) => if s.deferred == [] then s else Callback(s, throws)
  }

  function Run<I(==)>(k: Keys<I>, s: State<I>, events: seq<Event<I>>): State<I> {
    if events == [] then s else Step(k, Run(k, s, events[..|events| - 1]), events[|events| - 1])
  }

  /** What is pending is the computation deferred last, and everything in the state was asked for. */
  ghost predicate Reachable<I(!new)>(k: Keys<I>, s: State<I>, events: seq<Event<I>>) {
    (s.pending.Some? ==> s.deferred != [] && k.key(s.deferred[|s.deferred| - 1]) == s.pending.value) &&
    (s.cached.Some? ==> Asked(s.cached.value) in events) &&
    forall i :: i in s.deferred ==> Asked(i) in events
  }

  lemma StepReachable<I(!new)>(k: Keys<I>, s: State<I>, events: seq<Event<I>>, e: Event<I>)
    requires Reachable(k, s, events)
    ensures Reachable(k, Step(k, s, e), events + [e])
  {
  }

  lemma {:induction false} RunsAreReachable<I(!new)>(k: Keys<I>, events: seq<Event<I>>)
    ensures Reachable(k, Run(k, Init(), events), events)
  {
    if events != [] {
      var before, e := events[..|events| - 1], events[|events| - 1];
      RunsAreReachable(k, before);
      StepReachable(k, Run(k, Init(), before), before, e);
      assert events == before + [e];
    }
  }

  /** If inputs whose results may stand in for i's are related to i, then in every interleaving the
      inputs behind an answer are related to the caller's; and a cached result that is not related is
      replaced at once. */
  lemma ServedRelated<I(!new)>(k: Keys<I>, events: seq<Event<I>>, i: I, related: (I, I) -> bool)
    requires related(i, i)
    requires forall a :: Asked(a) in events && (k.key(a) == k.key(i) || k.same(k.key(a), k.key(i))) ==> related(a, i)
    ensures var s := Run(k, Init(), events);
      related(Served(k, s, i), i) &&
      (s.cached.None? || !related(s.cached.value, i) ==> Request(k, s, i) == s.(cached := Some(i)))
  {
    RunsAreReachable(k, events);
  }

  // ---- a stale answer is made good -------------------------------------------------------

  /** The result for a key is in place, or will be when the queue has drained. */
  ghost predicate Due<I>(k: Keys<I>, s: State<I>, key: string) {
    if s.deferred == [] then s.cached.Some? && k.key(s.cached.value) == key
    else k.key(s.deferred[|s.deferred| - 1]) == key
  }

  /** Only this key is asked for, and a computation that throws is not the last in the queue. */
  ghost predicate Undisturbed<I(!new)>(k: Keys<I>, s: State<I>, events: seq<Event<I>>, key: string) {
    forall n :: 0 <= n < |events| ==>
      match events[n]
      case Asked(i) => k.key(i) == key
      case Ran(throws) => throws ==> |Run(k, s, events[..n]).deferred| != 1
  }

  lemma {:induction false} DueStays<I(!new)>(k: Keys<I>, s: State<I>, later: seq<Event<I>>, key: string)
    requires Due(k, s, key) && Undisturbed(k, s, later, key)
    ensures Due(k, Run(k, s, later), key)
  {
    if later != [] {
      var before := later[..|later| - 1];
      assert forall n :: 0 <= n < |before| ==> before[n] == later[n] && before[..n] == later[..n];
      DueStays(k, s, before, key);
      assert later[|before|].Asked? || later[|before|].Ran?;
    }
  }

  /** A request served stale is fresh once the queue drains: after any run and a stale answer for i, and
      any later events in which no other key is asked for and the computation that empties the queue does not
      throw, an empty queue means the next request with that key is answered from inputs with that key. */
  lemma StaleBecomesFresh<I(!new)>(k: Keys<I>, events: seq<Event<I>>, i: I, later: seq<Event<I>>, again: I)
    requires Stale(k, Run(k, Init(), events), i)
    requires Undisturbed(k, Request(k, Run(k, Init(), events), i), later, k.key(i)) && k.key(again) == k.key(i)
    ensures var s := Run(k, Request(k, Run(k, Init(), events), i), later);
      Due(k, s, k.key(i)) && (s.deferred == [] ==> Hit(k, s, again) && k.key(Served(k, s, again)) == k.key(i))
  {
    RunsAreReachable(k, events);
    DueStays(k, Request(k, Run(k, Init(), events), i), later, k.key(i));
  }

  /** And if it does throw, the next stale request tries again: nothing stays pending without a computation
      that will clear it. */
  lemma ThrowIsRetried<I(!new)>(k: Keys<I>, events: seq<Event<I>>, i: I)
    requires var s := Run(k, Init(), events); Stale(k, s, i) && s.deferred == []
    ensures Request(k, Run(k, Init(), events), i).deferred == [i]
  {
    RunsAreReachable(k, events);
  }
}
