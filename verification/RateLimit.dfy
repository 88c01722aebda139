/** The login throttle: lib/rate-limit.ts. */
module RateLimit {
  import opened Wrappers

  const WINDOW_MS := 300_000
  const MAX_ATTEMPTS := 5
  const MAX_TRACKED_KEYS := 5000

  datatype Bucket = Bucket(count: nat, windowStart: int)

  // ---- reference: what a history of attempts means ------------------------------------

  /** Looked: the key was asked for at that time. Nothing is assumed of the clock. */
  datatype Event =
    | Failed(key: string, at: int)
    | Looked(key: string, at: int)
    | Cleared(key: string)
    | Evicted(key: string)

  predicate Timed(e: Event) {
    e.Failed? || e.Looked?
  }

  predicate Expired(b: Bucket, now: int) {
    now - b.windowStart >= WINDOW_MS
  }

  /** The window if it is still open. */
  function Open(w: Option<Bucket>, now: int): Option<Bucket> {
    if w.Some? && !Expired(w.value, now) then w else None
  }

  /** The bucket after one more failure. */
  function Counted(open: Option<Bucket>, now: int): Bucket {
    if open.Some? then open.value.(count := open.value.count + 1) else Bucket(1, now)
  }

  /** The window the last failure of key fell into: a failure without an open one opens it, later ones join it. */
  function Window(history: seq<Event>, key: string): Option<Bucket> {
    if history == [] then None
    else
      var e := history[|history| - 1];
      var before := Window(history[..|history| - 1], key);
      if e.key != key then before
      else match e
        case Failed(_, at) => Some(Counted(Open(before, at), at))
        case Looked(_, at) => Open(before, at)
        case _ => None
  }

  /** The window of key that is still open. */
  function Live(history: seq<Event>, key: string, now: int): Option<Bucket> {
    Open(Window(history, key), now)
  }

  /** The event that opened the window of key, or -1. */
  function OpenIndex(history: seq<Event>, key: string): int {
    if history == [] then -1
    else
      var n := |history| - 1;
      var e, before := history[n], OpenIndex(history[..n], key);
      if e.key != key then before
      else if !Timed(e) then -1
      else if Live(history[..n], key, e.at).Some? then before
      else if e.Failed? then n else -1
  }

  function Failures(history: seq<Event>, key: string): nat {
    if history == [] then 0
    else
      var e := history[|history| - 1];
      Failures(history[..|history| - 1], key) + if e.Failed? && e.key == key then 1 else 0
  }

  /** The failure o opened the window: none was open then, and since then every failure of key is inside the
      window, and it was neither cleared nor evicted nor found expired. */
  ghost predicate OpenedAt(history: seq<Event>, key: string, b: Bucket, o: nat) {
    o < |history| && history[o] == Failed(key, b.windowStart) && Live(history[..o], key, b.windowStart).None? &&
    (forall i :: o <= i < |history| && history[i].key == key ==>
      Timed(history[i]) && history[i].at < b.windowStart + 300_000) &&
    b.count == Failures(history[o..], key)
  }

  /** A window's count is the number of failures since it opened. */
  lemma {:induction false} WindowCountsFailures(history: seq<Event>, key: string)
    ensures OpenIndex(history, key) >= 0 <==> Window(history, key).Some?
    ensures Window(history, key).Some? ==> OpenedAt(history, key, Window(history, key).value, OpenIndex(history, key))
  {
    if history != [] {
      var n := |history| - 1;
      var before, e := history[..n], history[n];
      WindowCountsFailures(before, key);
      if e.key == key && Timed(e) && Live(before, key, e.at).None? {
        assert history[n..] == [e] && [e][..0] == [];
      } else if Window(history, key).Some? {
        StillOpen(history, key, OpenIndex(history, key));
      }
    }
  }

  /** Another event that leaves the window open. */
  lemma StillOpen(history: seq<Event>, key: string, o: nat)
    requires history != [] && Window(history, key).Some?
    requires var n := |history| - 1;
      Window(history[..n], key).Some? && OpenedAt(history[..n], key, Window(history[..n], key).value, o) &&
      (history[n].key == key ==> Timed(history[n]) && Live(history[..n], key, history[n].at).Some?)
    ensures OpenedAt(history, key, Window(history, key).value, o)
  {
    var n := |history| - 1;
    FailuresSnoc(history, key, o);
    StillIn(history, key, Window(history[..n], key).value, o);
  }

  lemma FailuresSnoc(history: seq<Event>, key: string, o: nat)
    requires o < |history|
    ensures var n := |history| - 1;
      Failures(history[o..], key) ==
        Failures(history[..n][o..], key) + if history[n].Failed? && history[n].key == key then 1 else 0
  {
    var n := |history| - 1;
    assert history[o..][..n - o] == history[..n][o..] && history[o..][n - o] == history[n];
  }

  lemma StillIn(history: seq<Event>, key: string, b: Bucket, o: nat)
    requires history != [] && OpenedAt(history[..|history| - 1], key, b, o)
    requires var e := history[|history| - 1]; e.key == key ==> Timed(e) && !Expired(b, e.at)
    ensures Live(history[..o], key, b.windowStart).None?
    ensures forall i :: o <= i < |history| && history[i].key == key ==> Timed(history[i]) && !Expired(b, history[i].at)
  {
    var n := |history| - 1;
    assert history[..n][..o] == history[..o];
    assert forall i :: o <= i < n ==> history[..n][i] == history[i];
  }

  lemma WindowSnoc(history: seq<Event>, e: Event, key: string)
    ensures var longer := history + [e];
      if e.key != key then
        Window(longer, key) == Window(history, key) && OpenIndex(longer, key) == OpenIndex(history, key)
      else if !Timed(e) then Window(longer, key) == None
      else
        var live := Live(history, key, e.at);
        Window(longer, key) == (if e.Failed? then Some(Counted(live, e.at)) else live) &&
        (live.Some? ==> OpenIndex(longer, key) == OpenIndex(history, key)) &&
        (live.None? && e.Failed? ==> OpenIndex(longer, key) == |history|)
  {
    assert (history + [e])[..|history|] == history;
  }

  // ---- a clock that does not go back -----------------------------------------------------

  /** The times in the history never fall, and none is later than now. */
  predicate Rising(history: seq<Event>, now: int) {
    history == [] ||
    (var e := history[|history| - 1];
     if Timed(e) then e.at <= now && Rising(history[..|history| - 1], e.at)
     else Rising(history[..|history| - 1], now))
  }

  lemma {:induction false} RisingLater(history: seq<Event>, now: int, later: int)
    requires Rising(history, now) && now <= later
    ensures Rising(history, later)
  {
    if history != [] && !Timed(history[|history| - 1]) { RisingLater(history[..|history| - 1], now, later); }
  }

  /** The history without its looks. */
  function Attempts(history: seq<Event>): seq<Event> {
    if history == [] then []
    else
      var e := history[|history| - 1];
      Attempts(history[..|history| - 1]) + if e.Looked? then [] else [e]
  }

  /** Then looking changes nothing: the attempts alone decide which windows are open. */
  lemma {:induction false} LooksDoNotMatter(history: seq<Event>, key: string, now: int)
    requires Rising(history, now)
    ensures Live(history, key, now) == Live(Attempts(history), key, now)
  {
    if history != [] {
      var n := |history| - 1;
      var before, e := history[..n], history[n];
      if e.Looked? {
        RisingLater(before, e.at, now);
        LooksDoNotMatter(before, key, now);
        assert Attempts(history) == Attempts(before) + [] == Attempts(before);
      } else {
        LooksDoNotMatter(before, key, if e.Failed? then e.at else now);
        WindowSnoc(Attempts(before), e, key);
        if e.Failed? {
          RisingLater(before, e.at, now);
          LooksDoNotMatter(before, key, now);
        }
      }
    }
  }

  lemma {:induction false} RisingBound(history: seq<Event>, now: int, i: nat)
    requires Rising(history, now) && i < |history| && Timed(history[i])
    ensures history[i].at <= now
  {
    var n := |history| - 1;
    if i < n { RisingBound(history[..n], if Timed(history[n]) then history[n].at else now, i); }
  }

  lemma {:induction false} RisingTimes(history: seq<Event>, now: int, i: nat, j: nat)
    requires Rising(history, now) && i < j < |history| && Timed(history[i]) && Timed(history[j])
    ensures history[i].at <= history[j].at <= now
  {
    var n := |history| - 1;
    RisingBound(history, now, j);
    if j < n {
      RisingTimes(history[..n], if Timed(history[n]) then history[n].at else now, i, j);
    } else {
      RisingBound(history[..n], history[n].at, i);
    }
  }

  // ---- the map of buckets ----------------------------------------------------------------

  /** A JavaScript Map is a list of entries in insertion order. */
  datatype Entry = Entry(key: string, bucket: Bucket)

  /** Where key is, or -1. */
  function Find(es: seq<Entry>, key: string): (i: int)
    ensures -1 <= i < |es|
    ensures i >= 0 ==> es[i].key == key
    ensures forall j :: 0 <= j < (if i < 0 then |es| else i) ==> es[j].key != key
  {
    if es == [] then -1
    else if es[0].key == key then 0
    else
      var i := Find(es[1..], key);
      assert forall j :: 1 <= j < |es| ==> es[j] == es[1..][j - 1];
      if i < 0 then -1 else i + 1
  }

  predicate Has(es: seq<Entry>, key: string) {
    Find(es, key) >= 0
  }

  /** Map.get */
  function Held(es: seq<Entry>, key: string): Option<Bucket> {
    if Has(es, key) then Some(es[Find(es, key)].bucket) else None
  }

  /** Map.delete */
  function Without(es: seq<Entry>, key: string): seq<Entry> {
    var i := Find(es, key);
    if i < 0 then es else es[..i] + es[i + 1..]
  }

  ghost predicate Distinct(es: seq<Entry>) {
    forall i, j :: 0 <= i < j < |es| ==> es[i].key != es[j].key
  }

  /** In the order in which the windows were opened. */
  ghost predicate Ordered(es: seq<Entry>, history: seq<Event>) {
    forall i, j :: 0 <= i < j < |es| ==> OpenIndex(history, es[i].key) < OpenIndex(history, es[j].key)
  }

  /** The buckets held are exactly the windows of the history. */
  ghost predicate Exact(es: seq<Entry>, history: seq<Event>) {
    forall k :: Held(es, k) == Window(history, k)
  }

  ghost predicate Consistent(es: seq<Entry>, history: seq<Event>) {
    Distinct(es) && Exact(es, history) && Ordered(es, history) && |es| <= MAX_TRACKED_KEYS
  }

  lemma FindAt(es: seq<Entry>, i: nat)
    requires Distinct(es) && i < |es|
    ensures Find(es, es[i].key) == i
  {
  }

  lemma Skipped<T>(s: seq<T>, i: nat, m: nat)
    requires i < |s| && m < |s| - 1
    ensures (s[..i] + s[i + 1..])[m] == s[if m < i then m else m + 1]
  {
  }

  lemma WithoutAt(es: seq<Entry>, key: string, m: nat)
    requires m < |Without(es, key)|
    ensures var i := Find(es, key);
      var at := if i < 0 || m < i then m else m + 1;
      at < |es| && Without(es, key)[m] == es[at]
  {
    var i := Find(es, key);
    if i >= 0 { Skipped(es, i, m); }
  }

  /** Deleting a key keeps the others, in order. */
  lemma WithoutKeeps(es: seq<Entry>, key: string, history: seq<Event>)
    requires Distinct(es)
    ensures var rest := Without(es, key);
      Distinct(rest) && |rest| <= |es| && (Ordered(es, history) ==> Ordered(rest, history)) &&
      forall e :: e in rest ==> e in es && e.key != key
  {
    var rest, i := Without(es, key), Find(es, key);
    forall m | 0 <= m < |rest| ensures rest[m] == es[if i < 0 || m < i then m else m + 1] {
      WithoutAt(es, key, m);
    }
  }

  lemma WithoutHas(es: seq<Entry>, key: string, k: string)
    requires Distinct(es) && Has(Without(es, key), k)
    ensures Has(es, k) && k != key
  {
    var rest := Without(es, key);
    WithoutKeeps(es, key, []);
    assert rest[Find(rest, k)] in rest;
  }

  /** Where the entry at j is when key is gone. */
  function After(i: int, j: nat): int {
    if i < 0 || j < i then j else j - 1
  }

  lemma WithoutMoves(es: seq<Entry>, key: string, j: nat)
    requires j < |es| && es[j].key != key
    ensures var m := After(Find(es, key), j); 0 <= m < |Without(es, key)| && Without(es, key)[m] == es[j]
  {
    var i := Find(es, key);
    if i >= 0 { Skipped(es, i, After(i, j)); }
  }

  lemma WithoutFinds(es: seq<Entry>, key: string, j: nat)
    requires Distinct(es) && j < |es| && es[j].key != key
    ensures var m := After(Find(es, key), j);
      0 <= m < |Without(es, key)| && Without(es, key)[m] == es[j] && Find(Without(es, key), es[j].key) == m
  {
    WithoutMoves(es, key, j);
    WithoutDistinct(es, key);
    FindAt(Without(es, key), After(Find(es, key), j));
  }

  lemma WithoutDistinct(es: seq<Entry>, key: string)
    requires Distinct(es)
    ensures Distinct(Without(es, key))
  {
    WithoutKeeps(es, key, []);
  }

  lemma WithoutHeld(es: seq<Entry>, key: string, k: string)
    requires Distinct(es)
    ensures Held(Without(es, key), k) == if k == key then None else Held(es, k)
  {
    if Has(es, k) && k != key {
      WithoutFinds(es, key, Find(es, k));
    } else {
      WithoutNone(es, key, k);
    }
  }

  lemma WithoutNone(es: seq<Entry>, key: string, k: string)
    requires Distinct(es) && (k == key || !Has(es, k))
    ensures !Has(Without(es, key), k)
  {
    if Has(Without(es, key), k) { WithoutHas(es, key, k); }
  }

  lemma EntryHeld(es: seq<Entry>, history: seq<Event>, e: Entry)
    requires Consistent(es, history) && e in es
    ensures Window(history, e.key) == Some(e.bucket)
  {
    var i :| 0 <= i < |es| && es[i] == e;
    FindAt(es, i);
    assert Held(es, e.key) == Some(e.bucket);
  }

  /** Other keys keep their windows, and the order in which they were opened. */
  lemma OrderedSnoc(es: seq<Entry>, history: seq<Event>, e: Event)
    requires Ordered(es, history) && forall x :: x in es && x.key == e.key ==>
      OpenIndex(history + [e], e.key) == OpenIndex(history, e.key)
    ensures Ordered(es, history + [e])
  {
    forall i | 0 <= i < |es| ensures OpenIndex(history + [e], es[i].key) == OpenIndex(history, es[i].key) {
      WindowSnoc(history, e, es[i].key);
    }
  }

  /** An event that ends the window of its key, with the key deleted: a clear, an eviction, a look that finds
      the window expired or finds none. */
  lemma Forgotten(es: seq<Entry>, history: seq<Event>, e: Event)
    requires Consistent(es, history) && Window(history + [e], e.key).None?
    ensures Consistent(Without(es, e.key), history + [e]) && !Has(Without(es, e.key), e.key)
  {
    var rest := Without(es, e.key);
    WithoutKeeps(es, e.key, history);
    OrderedSnoc(rest, history, e);
    forall k ensures Held(rest, k) == Window(history + [e], k) {
      WithoutHeld(es, e.key, k);
      WindowSnoc(history, e, k);
    }
  }

  /** A look at an open window. */
  lemma LookedAt(es: seq<Entry>, history: seq<Event>, key: string, now: int)
    requires Consistent(es, history) && Live(history, key, now).Some?
    ensures Consistent(es, history + [Looked(key, now)])
  {
    var e := Looked(key, now);
    WindowSnoc(history, e, key);
    OrderedSnoc(es, history, e);
    forall k ensures Held(es, k) == Window(history + [e], k) { WindowSnoc(history, e, k); }
  }

  /** A failure inside the open window. */
  lemma Joined(es: seq<Entry>, history: seq<Event>, key: string, now: int)
    requires Consistent(es, history) && Live(history, key, now).Some?
    ensures Has(es, key)
    ensures var entry := Entry(key, Counted(Held(es, key), now));
      Consistent(es[Find(es, key) := entry], history + [Failed(key, now)])
  {
    assert Held(es, key) == Window(history, key);
    var e, i := Failed(key, now), Find(es, key);
    var more := es[i := Entry(key, Counted(Held(es, key), now))];
    WindowSnoc(history, e, key);
    assert forall j :: 0 <= j < |es| ==> more[j].key == es[j].key;
    OrderedSnoc(es, history, e);
    forall k ensures Held(more, k) == Window(history + [e], k) {
      WindowSnoc(history, e, k);
      UpdatedHeld(es, i, more[i].bucket, k);
      assert Held(es, k) == Window(history, k);
    }
  }

  lemma UpdatedHeld(es: seq<Entry>, i: nat, b: Bucket, k: string)
    requires Distinct(es) && i < |es|
    ensures Held(es[i := Entry(es[i].key, b)], k) == if k == es[i].key then Some(b) else Held(es, k)
  {
    var more := es[i := Entry(es[i].key, b)];
    assert forall j :: 0 <= j < |es| ==> more[j].key == es[j].key;
    FindAt(es, i);
    FindAt(more, i);
    if Has(es, k) { FindAt(more, Find(es, k)); }
    if Has(more, k) { FindAt(es, Find(more, k)); }
  }

  /** A failure without an open window, of a key that is not held. */
  lemma Opened(es: seq<Entry>, history: seq<Event>, key: string, now: int)
    requires Consistent(es, history) && !Has(es, key) && |es| < MAX_TRACKED_KEYS
    ensures Consistent(es + [Entry(key, Bucket(1, now))], history + [Failed(key, now)])
  {
    var e, added := Failed(key, now), Entry(key, Bucket(1, now));
    var more := es + [added];
    assert Held(es, key) == Window(history, key);
    WindowSnoc(history, e, key);
    forall x | x in es ensures x.key != key {
      EntryHeld(es, history, x);
    }
    OrderedSnoc(es, history, e);
    forall i | 0 <= i < |es| ensures OpenIndex(history + [e], more[i].key) < |history| {
      WindowSnoc(history, e, es[i].key);
      OpenIndexBound(history, es[i].key);
    }
    forall k ensures Held(more, k) == Window(history + [e], k) {
      WindowSnoc(history, e, k);
      AddedHeld(es, added, k);
      assert Held(es, k) == Window(history, k);
    }
  }

  lemma {:induction false} OpenIndexBound(history: seq<Event>, key: string)
    ensures OpenIndex(history, key) < |history|
  {
    if history != [] { OpenIndexBound(history[..|history| - 1], key); }
  }

  lemma AddedHeld(es: seq<Entry>, added: Entry, k: string)
    requires Distinct(es + [added])
    ensures Held(es + [added], k) == if k == added.key then Some(added.bucket) else Held(es, k)
  {
    var more := es + [added];
    FindAt(more, |es|);
    if Has(es, k) { FindAt(more, Find(es, k)); }
    if Has(more, k) && k != added.key { assert es[Find(more, k)].key == k; }
  }

  /** The first key in map order has the window opened first. If the clock never went back that is the oldest
      one, so an open window is evicted only when every window held is open. */
  lemma EvictionIsFair(es: seq<Entry>, history: seq<Event>, now: int)
    requires Consistent(es, history) && es != []
    ensures forall e :: e in es ==> OpenIndex(history, es[0].key) <= OpenIndex(history, e.key)
    ensures Rising(history, now) ==> forall e :: e in es ==>
      es[0].bucket.windowStart <= e.bucket.windowStart &&
      (!Expired(es[0].bucket, now) ==> Live(history, e.key, now) == Some(e.bucket))
  {
    forall e | e in es
      ensures OpenIndex(history, es[0].key) <= OpenIndex(history, e.key)
      ensures Rising(history, now) ==> es[0].bucket.windowStart <= e.bucket.windowStart
      ensures Window(history, e.key) == Some(e.bucket)
    {
      var i :| 0 <= i < |es| && es[i] == e;
      EntryHeld(es, history, es[0]);
      EntryHeld(es, history, e);
      if i > 0 && Rising(history, now) { OpenedInTurn(history, now, es[0], e); }
    }
  }

  lemma OpenedInTurn(history: seq<Event>, now: int, a: Entry, b: Entry)
    requires Rising(history, now) && OpenIndex(history, a.key) < OpenIndex(history, b.key)
    requires Window(history, a.key) == Some(a.bucket) && Window(history, b.key) == Some(b.bucket)
    ensures a.bucket.windowStart <= b.bucket.windowStart
  {
    WindowCountsFailures(history, a.key);
    WindowCountsFailures(history, b.key);
    RisingTimes(history, now, OpenIndex(history, a.key), OpenIndex(history, b.key));
  }

  // ---- the throttle ------------------------------------------------------------------------

  class Throttle {
    var buckets: seq<Entry>
    ghost var history: seq<Event>

    ghost predicate Valid()
      reads this
    {
      Consistent(buckets, history)
    }

    constructor ()
      ensures Valid() && history == []
    {
      buckets, history := [], [];
    }

    method CurrentBucket(key: string, now: int) returns (bucket: Option<Bucket>)
      requires Valid()
      modifies this
      ensures Valid() && history == old(history) + [Looked(key, now)]
      ensures bucket == old(Live(history, key, now)) == Live(history, key, now) == Held(buckets, key)
      ensures buckets == if bucket.Some? then old(buckets) else Without(old(buckets), key)
    {
      WindowSnoc(history, Looked(key, now), key);
      assert Held(buckets, key) == Window(history, key);
      ghost var before := history;
      history := history + [Looked(key, now)];
      if Live(before, key, now).Some? {
        LookedAt(buckets, before, key, now);
      } else {
        Forgotten(buckets, before, Looked(key, now));
      }
      if !Has(buckets, key) {
        return None;
      }
      var existing := buckets[Find(buckets, key)].bucket;
      if now - existing.windowStart >= WINDOW_MS {
        buckets := Without(buckets, key);
        return None;
      }
      return Some(existing);
    }

    /** Limited exactly when five failures fell into the window that is still open, for the seconds that remain
        of it, rounded up: at least 1, and at most 300 unless the clock is back before the window's start. */
    method IsRateLimited(key: string, now: int) returns (limited: bool, retryAfterSeconds: int)
      requires Valid()
      modifies this
      ensures Valid() && history == old(history) + [Looked(key, now)]
      ensures var window := old(Live(history, key, now));
        (limited <==> window.Some? && window.value.count >= 5) &&
        if limited then RoundedUp(retryAfterSeconds, window.value, now) else retryAfterSeconds == 0
    {
      var bucket := CurrentBucket(key, now);
      if bucket.None? || bucket.value.count < MAX_ATTEMPTS {
        return false, 0;
      }
      var seconds := (Remaining(bucket.value, now) + 999) / 1000;
      return true, if seconds < 1 then 1 else seconds;
    }

    /** Evicts from a full map, then opens a window for a key without one. */
    method OpenWindow(key: string, now: int) returns (ghost victim: Option<string>)
      requires Valid() && !Has(buckets, key)
      modifies this
      ensures Valid()
      ensures history == old(history) + (if victim.Some? then [Evicted(victim.value)] else []) + [Failed(key, now)]
      ensures victim == if |old(buckets)| == 5000 then Some(old(buckets)[0].key) else None
    {
      victim := None;
      if |buckets| >= MAX_TRACKED_KEYS {
        var oldestKey := buckets[0].key;
        victim := Some(oldestKey);
        WithoutHeld(buckets, oldestKey, key);
        WindowSnoc(history, Evicted(oldestKey), oldestKey);
        Forgotten(buckets, history, Evicted(oldestKey));
        assert |Without(buckets, oldestKey)| < |buckets|;
        buckets := Without(buckets, oldestKey);
        history := history + [Evicted(oldestKey)];
      }
      Opened(buckets, history, key, now);
      buckets := buckets + [Entry(key, Bucket(1, now))];
      history := history + [Failed(key, now)];
    }

    /** Counts a failure in the open window. */
    method CountFailure(key: string, bucket: Bucket, now: int)
      requires Valid() && Some(bucket) == Live(history, key, now) == Held(buckets, key)
      modifies this
      ensures Valid() && history == old(history) + [Failed(key, now)]
    {
      Joined(buckets, history, key, now);
      var counted := Bucket(bucket.count + 1, bucket.windowStart);
      assert counted == Counted(Held(buckets, key), now);
      buckets := buckets[Find(buckets, key) := Entry(key, counted)];
      history := history + [Failed(key, now)];
    }

    /** A failure is added to the history. Only when a key without an open window meets a map full of others is
        another key forgotten, and that is the key first in map order. */
    method RecordFailedAttempt(key: string, now: int) returns (ghost victim: Option<string>)
      requires Valid()
      modifies this
      ensures Valid()
      ensures history == old(history) + [Looked(key, now)] +
        (if victim.Some? then [Evicted(victim.value)] else []) + [Failed(key, now)]
      ensures victim ==
        if !Has(old(buckets), key) && |old(buckets)| == 5000 then Some(old(buckets)[0].key) else None
    {
      var bucket := CurrentBucket(key, now);
      if bucket.Some? {
        victim := None;
        CountFailure(key, bucket.value, now);
        assert history == old(history) + [Looked(key, now)] + [] + [Failed(key, now)];
      } else {
        victim := OpenWindow(key, now);
      }
    }

    method ClearAttempts(key: string)
      requires Valid()
      modifies this
      ensures Valid() && history == old(history) + [Cleared(key)]
      ensures buckets == Without(old(buckets), key) && !Has(buckets, key)
    {
      WindowSnoc(history, Cleared(key), key);
      Forgotten(buckets, history, Cleared(key));
      buckets := Without(buckets, key);
      history := history + [Cleared(key)];
    }
  }

  /** The seconds until the window closes, rounded up. */
  predicate RoundedUp(seconds: int, b: Bucket, now: int) {
    1 <= seconds && 1000 * (seconds - 1) < b.windowStart + 300_000 - now <= 1000 * seconds &&
    (seconds <= 300 <==> now >= b.windowStart)
  }

  /** Milliseconds until the window closes. */
  function Remaining(b: Bucket, now: int): int {
    b.windowStart + WINDOW_MS - now
  }
}
