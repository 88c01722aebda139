/** The fleet-wide aggregates, served stale while they are recomputed: lib/fleet-aggregates.ts. */
module FleetAggregates {
  import opened Wrappers
  import opened FleetKey
  import opened StaleCache
  import opened Filtering
  import opened Text

  const KEYS: Keys<Inputs> := Keys(KeyFor, SameTriage)

  /** The two triage lists render alike. */
  predicate SameList(a: Inputs, b: Inputs) {
    Rendered(a.triages) == Rendered(b.triages)
  }

  /** The two rendered lists end alike after their last bar. */
  predicate SameTail(a: Inputs, b: Inputs) {
    Tail(Rendered(a.triages)) == Tail(Rendered(b.triages))
  }

  /** A result for a may be served to b, as fresh or as stale, exactly when the lists end alike. */
  lemma StandsIn(a: Inputs, b: Inputs)
    ensures KeyFor(a) == KeyFor(b) || SameTriage(KeyFor(a), KeyFor(b)) <==> SameTail(a, b)
  {
    SameTriageMeans(a, b);
  }

  /** Exactly when an answer was computed from another triage list than the caller's: the cached list ends
      like the caller's after its last bar and differs before it. */
  lemma ServedExactly(s: State<Inputs>, i: Inputs)
    ensures SameList(Served(KEYS, s, i), i) <==>
      s.cached.None? || !SameTail(s.cached.value, i) || SameList(s.cached.value, i)
  {
    if s.cached.Some? { StandsIn(s.cached.value, i); }
  }

  /** In these events only these inputs are asked for. */
  ghost predicate From(events: seq<Event<Inputs>>, asked: set<Inputs>) {
    forall e :: e in events && e.Asked? ==> e.i in asked
  }

  /** After these events a request for i is answered from a list that renders like its own. */
  predicate OwnList(events: seq<Event<Inputs>>, i: Inputs) {
    SameList(Served(KEYS, Run(KEYS, Init(), events), i), i)
  }

  /** So it is after any run over these inputs. */
  ghost predicate NeverMisled(asked: set<Inputs>, i: Inputs) {
    forall events :: From(events, asked) ==> OwnList(events, i)
  }

  lemma RunMisleads(a: Inputs, i: Inputs)
    requires SameTail(a, i) && !SameList(a, i)
    ensures Served(KEYS, Run(KEYS, Init(), [Asked(a)]), i) == a
  {
    var events := [Asked(a)];
    assert events[..0] == [];
    assert Run(KEYS, Init(), events) == Request(KEYS, Init(), a);
    StandsIn(a, i);
  }

  lemma MisledBy(asked: set<Inputs>, a: Inputs, i: Inputs)
    requires a in asked && SameTail(a, i) && !SameList(a, i)
    ensures !NeverMisled(asked, i)
  {
    RunMisleads(a, i);
    assert From([Asked(a)], asked) && !OwnList([Asked(a)], i);
  }

  lemma OwnListServed(events: seq<Event<Inputs>>, asked: set<Inputs>, i: Inputs)
    requires From(events, asked) && forall a :: a in asked && SameTail(a, i) ==> SameList(a, i)
    ensures var s := Run(KEYS, Init(), events);
      SameList(Served(KEYS, s, i), i) &&
      (s.cached.None? || !SameList(s.cached.value, i) ==> Request(KEYS, s, i) == s.(cached := Some(i)))
  {
    forall a | Asked(a) in events && (KEYS.key(a) == KEYS.key(i) || KEYS.same(KEYS.key(a), KEYS.key(i)))
      ensures SameList(a, i)
    {
      assert Asked(a).i in asked;
      StandsIn(a, i);
    }
    ServedRelated(KEYS, events, i, SameList);
  }

  /** Whatever is asked for, in whatever interleaving of requests and deferred computations, and whatever
      an older one overwrote, the caller is answered from a triage list that renders like its own, exactly
      if no list asked for ends like it after a bar and differs before. */
  lemma ServedWithOwnTriage(asked: set<Inputs>, i: Inputs)
    ensures NeverMisled(asked, i) <==> forall a :: a in asked && SameTail(a, i) ==> SameList(a, i)
  {
    if forall a :: a in asked && SameTail(a, i) ==> SameList(a, i) {
      forall events | From(events, asked) ensures OwnList(events, i) { OwnListServed(events, asked, i); }
    } else {
      var a :| a in asked && SameTail(a, i) && !SameList(a, i);
      MisledBy(asked, a, i);
    }
  }

  /** With no bar in any list a triage change shows at once: the answer is from the caller's list, and a list
      that renders unlike the cached one is computed before answering. */
  lemma TriageChangeShows(events: seq<Event<Inputs>>, asked: set<Inputs>, i: Inputs)
    requires From(events, asked) && Barless(Rendered(i.triages))
    requires forall a :: a in asked ==> Barless(Rendered(a.triages))
    ensures var s := Run(KEYS, Init(), events);
      SameList(Served(KEYS, s, i), i) &&
      (s.cached.None? || !SameList(s.cached.value, i) ==> Request(KEYS, s, i) == s.(cached := Some(i)))
  {
    forall a | a in asked && SameTail(a, i) ensures SameList(a, i) {
      BarlessTail(Rendered(a.triages));
      BarlessTail(Rendered(i.triages));
    }
    OwnListServed(events, asked, i);
  }

  /** Two triages of any store mislead, a request after each: the second sets a key not triaged before, which
      ends like the first one's after a bar. */
  lemma BarMisleads(
    data: HostStore.Data, a: Inputs, b: Inputs, p: string, q: string, t: string, status: string)
    requires a.triages == HostStore.TriageResult(data, HostStore.Triage(p + "|" + t, status)).triages
    requires forall u: Triage :: u in a.triages ==> u.key != q + "|" + t
    requires b.triages ==
      HostStore.TriageResult(data.(triages := a.triages), HostStore.Triage(q + "|" + t, status)).triages
    ensures Served(KEYS, Run(KEYS, Init(), [Asked(a)]), b) == a && !SameList(a, b)
  {
    var first, second := HostStore.Triage(p + "|" + t, status), HostStore.Triage(q + "|" + t, status);
    var rest := Where(data.triages, HostStore.IsOther(first.key));
    WhereAll(a.triages, HostStore.IsOther(second.key));
    assert a.triages == rest + [first] && b.triages == a.triages + [second];
    RenderedLast(rest, p, t, status);
    RenderedLast(a.triages, q, t, status);
    RunMisleads(a, b);
  }

  // ---- changes show -------------------------------------------------------------------------

  /** The result in the cache is not fresh for inputs with another key. With the same triages it is served once
      more while the next one is computed: once the queue has drained, with nothing else asked for and without the
      last computation throwing, an answer comes from inputs with the new key. */
  lemma ChangeIsServed(events: seq<Event<Inputs>>, a: Inputs, b: Inputs, later: seq<Event<Inputs>>, again: Inputs)
    requires Run(KEYS, Init(), events).cached == Some(a) && a.triages == b.triages && KeyFor(a) != KeyFor(b)
    requires Undisturbed(KEYS, Request(KEYS, Run(KEYS, Init(), events), b), later, KeyFor(b))
    requires KeyFor(again) == KeyFor(b)
    ensures var s := Run(KEYS, Init(), events);
      var then' := Run(KEYS, Request(KEYS, s, b), later);
      !Hit(KEYS, s, b) && Served(KEYS, s, b) == a && Request(KEYS, s, b).deferred != [] &&
      (then'.deferred == [] ==> FromSameKey(Served(KEYS, then', again), b))
  {
    StandsIn(a, b);
    StaleBecomesFresh(KEYS, events, b, later, again);
    RunsAreReachable(KEYS, events);
    EqualKeys(Served(KEYS, Run(KEYS, Request(KEYS, Run(KEYS, Init(), events), b), later), again), b);
  }

  /** The answer is from inputs with this key: with as many bars in each field, from inputs that agree in the
      version, the hosts, the matches and the triages as rendered. */
  ghost predicate FromSameKey(x: Inputs, b: Inputs) {
    KeyFor(x) == KeyFor(b) && (SameBars(x, b) ==> SameFields(x, b) && SameList(x, b))
  }

  predicate SameBars(a: Inputs, b: Inputs) {
    Bars(a.version) == Bars(b.version) && Bars(VulnKey(a.vulns)) == Bars(VulnKey(b.vulns)) &&
    Bars(JoinComma(LocalHosts(a.fleet))) == Bars(JoinComma(LocalHosts(b.fleet)))
  }

  /** After a check-in of a host of the console's own store. */
  lemma CheckinShows(
    events: seq<Event<Inputs>>, a: Inputs, k: nat, seen: string, later: seq<Event<Inputs>>, again: Inputs)
    requires Run(KEYS, Init(), events).cached == Some(a)
    requires k < |a.fleet| && a.fleet[k].local && seen != a.fleet[k].lastSeen
    requires var b := SeenAgain(a, k, seen);
      Undisturbed(KEYS, Request(KEYS, Run(KEYS, Init(), events), b), later, KeyFor(b)) && KeyFor(again) == KeyFor(b)
    ensures var s, b := Run(KEYS, Init(), events), SeenAgain(a, k, seen);
      var then' := Run(KEYS, Request(KEYS, s, b), later);
      !Hit(KEYS, s, b) && Served(KEYS, s, b) == a &&
      (then'.deferred == [] ==> FromSameKey(Served(KEYS, then', again), b))
  {
    CheckinChangesKey(a, k, seen);
    ChangeIsServed(events, a, SeenAgain(a, k, seen), later, again);
  }

  /** After a re-match newer than all before it. */
  lemma RematchShows(
    events: seq<Event<Inputs>>, a: Inputs, vulns: seq<Findings>, v: Findings, later: seq<Event<Inputs>>, again: Inputs)
    requires Run(KEYS, Init(), events).cached == Some(a) && a.vulns.Some?
    requires v in vulns && v.matchedAt != "" && forall u :: u in a.vulns.value ==> Less(u.matchedAt, v.matchedAt)
    requires var b := a.(vulns := Some(vulns));
      Undisturbed(KEYS, Request(KEYS, Run(KEYS, Init(), events), b), later, KeyFor(b)) && KeyFor(again) == KeyFor(b)
    ensures var s, b := Run(KEYS, Init(), events), a.(vulns := Some(vulns));
      var then' := Run(KEYS, Request(KEYS, s, b), later);
      !Hit(KEYS, s, b) && Served(KEYS, s, b) == a &&
      (then'.deferred == [] ==> FromSameKey(Served(KEYS, then', again), b))
  {
    NewerMatchChangesKey(a, vulns, v);
    ChangeIsServed(events, a, a.(vulns := Some(vulns)), later, again);
  }

  lemma OtherTail(s: State<Inputs>, a: Inputs, b: Inputs)
    requires s.cached == Some(a) && !SameTail(a, b)
    ensures Served(KEYS, s, b) == b && Request(KEYS, s, b) == s.(cached := Some(b))
  {
    StandsIn(a, b);
  }

  /** A triage of the store that the cached result does not know of is computed before answering: one that sets a
      key for the first time, or to a status of another length, where no bar stands in either list. */
  lemma TriageShowsAtOnce(s: State<Inputs>, data: HostStore.Data, t: Triage, a: Inputs, b: Inputs)
    requires s.cached == Some(a) && HostStore.OneEach(data.triages)
    requires a.triages == data.triages && b.triages == HostStore.TriageResult(data, t).triages
    requires forall u: Triage :: u in data.triages && u.key == t.key ==> |u.status| != |t.status|
    requires Barless(Rendered(a.triages)) && Barless(Rendered(b.triages))
    ensures Served(KEYS, s, b) == b && Request(KEYS, s, b) == s.(cached := Some(b))
  {
    assert !SameTail(a, b) by {
      TriageRenders(data, t);
      BarlessTail(Rendered(a.triages));
      BarlessTail(Rendered(b.triages));
    }
    OtherTail(s, a, b);
  }

  // ---- the module -------------------------------------------------------------------------

  datatype Aggregates<P> = Aggregates(policies: P, serious: Option<int>)

  function SeriousOf(vulns: seq<Findings>, triages: seq<Triage>, seriousOpen: (Findings, seq<Triage>) -> int): int {
    if vulns == [] then 0
    else SeriousOf(vulns[..|vulns| - 1], triages, seriousOpen) + seriousOpen(vulns[|vulns| - 1], triages)
  }

  /** The count of a fleet is the sum of those of its summaries, however it is divided. */
  lemma {:induction false} SeriousOfParts(
    a: seq<Findings>, b: seq<Findings>, triages: seq<Triage>, seriousOpen: (Findings, seq<Triage>) -> int)
    ensures SeriousOf(a + b, triages, seriousOpen) ==
      SeriousOf(a, triages, seriousOpen) + SeriousOf(b, triages, seriousOpen)
    ensures forall v :: SeriousOf([v], triages, seriousOpen) == seriousOpen(v, triages)
  {
    forall v ensures SeriousOf([v], triages, seriousOpen) == seriousOpen(v, triages) { assert [v][..0] == []; }
    if b == [] {
      assert a + b == a;
    } else {
      assert (a + b)[..|a + b| - 1] == a + b[..|b| - 1];
      SeriousOfParts(a, b[..|b| - 1], triages, seriousOpen);
    }
  }

  datatype Entry<P> = Entry(key: string, value: Aggregates<P>)

  /** The module variables, with the event loop's queue of deferred callbacks. policySummary and
      seriousOpen are the modules it calls. */
  class FleetCache<P> {
    const policySummary: Inputs -> P
    const seriousOpen: (Findings, seq<Triage>) -> int
    var cache: Option<Entry<P>>
    var pending: Option<string>
    var deferred: seq<Inputs>
    ghost var origin: Option<Inputs>

    ghost function View(): State<Inputs>
      reads this
    {
      State(origin, pending, deferred)
    }

    function Value(i: Inputs): Aggregates<P> {
      Aggregates(policySummary(i),
        if i.vulns.None? then None else Some(SeriousOf(i.vulns.value, i.triages, seriousOpen)))
    }

    /** The cache entry is what its origin computes. */
    ghost predicate Valid()
      reads this
    {
      cache == if origin.None? then None else Some(Entry(KeyFor(origin.value), Value(origin.value)))
    }

    constructor (policySummary: Inputs -> P, seriousOpen: (Findings, seq<Triage>) -> int)
      ensures Valid() && View() == Init<Inputs>()
    {
      this.policySummary, this.seriousOpen := policySummary, seriousOpen;
      cache, pending, deferred, origin := None, None, [], None;
    }

    method Compute(i: Inputs)
      requires Valid()
      modifies this`cache, this`origin
      ensures Valid() && origin == Some(i)
    {
      var serious: Option<int> := None;
      if i.vulns.Some? {
        var sum := 0;
        for k := 0 to |i.vulns.value|
          invariant sum == SeriousOf(i.vulns.value[..k], i.triages, seriousOpen)
        {
          assert i.vulns.value[..k + 1][..k] == i.vulns.value[..k];
          sum := sum + seriousOpen(i.vulns.value[k], i.triages);
        }
        assert i.vulns.value[..|i.vulns.value|] == i.vulns.value;
        serious := Some(sum);
      }
      cache := Some(Entry(KeyFor(i), Aggregates(policySummary(i), serious)));
      origin := Some(i);
    }

    method Revalidate(key: string, i: Inputs)
      requires key == KeyFor(i)
      modifies this`pending, this`deferred
      ensures if old(pending) == Some(key) then pending == old(pending) && deferred == old(deferred)
              else pending == Some(key) && deferred == old(deferred) + [i]
    {
      if pending == Some(key) {
        return;
      }
      pending := Some(key);
      deferred := deferred + [i];
    }

    method FleetAggregates(i: Inputs) returns (value: Aggregates<P>)
      requires Valid()
      modifies this
      ensures Valid() && View() == Request(KEYS, old(View()), i)
      ensures value == Value(Served(KEYS, old(View()), i))
    {
      var key := KeyFor(i);
      if cache.Some? && cache.value.key == key {
        return cache.value.value;
      }
      if cache.Some? && SameTriage(cache.value.key, key) {
        Revalidate(key, i);
        return cache.value.value;
      }
      Compute(i);
      return cache.value.value;
    }

    /** The event loop runs the oldest deferred callback. */
    method RunDeferred(throws: bool)
      requires Valid() && deferred != []
      modifies this
      ensures Valid() && View() == Callback(old(View()), throws)
    {
      var i := deferred[0];
      deferred := deferred[1..];
      if !throws {
        Compute(i);
      }
      pending := None;
    }
  }
}
