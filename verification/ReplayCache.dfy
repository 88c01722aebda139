/** The agent's bounded memory of command ids: cmd/defendsec-agentd/commands.go. */
module ReplayCache {

  const CAPACITY := 256

  /** Where the current block of accepted ids begins: the cache starts over after every 256th. */
  function BlockStart(n: nat): (b: nat)
    ensures b <= n
  {
    if n == 0 then 0 else (n - 1) / CAPACITY * CAPACITY
  }

  /** The accepted ids the cache still knows, oldest first. */
  function Window(accepted: seq<string>): seq<string> {
    accepted[BlockStart(|accepted|)..]
  }

  function Elements(s: seq<string>): set<string> {
    set x | x in s
  }

  ghost predicate Distinct(s: seq<string>) {
    forall i, j :: 0 <= i < j < |s| ==> s[i] != s[j]
  }

  /** A full window is dropped before the next id is added; the id itself is then all that is known. */
  lemma WindowGrows(accepted: seq<string>, id: string)
    ensures Window(accepted + [id]) == if |Window(accepted)| == CAPACITY then [id] else Window(accepted) + [id]
    ensures accepted != [] ==> |Window(accepted)| == (|accepted| - 1) % CAPACITY + 1
  {
    var n := |accepted|;
    if n > 0 {
      assert n - 1 == (n - 1) / CAPACITY * CAPACITY + (n - 1) % CAPACITY;
      if (n - 1) % CAPACITY == CAPACITY - 1 {
        assert n / CAPACITY == (n - 1) / CAPACITY + 1;
      } else {
        assert n / CAPACITY == (n - 1) / CAPACITY;
      }
    }
  }

  lemma ElementsSnoc(s: seq<string>, x: string)
    ensures Elements(s + [x]) == Elements(s) + {x}
  {
  }

  lemma {:induction false} DistinctCount(s: seq<string>)
    requires Distinct(s)
    ensures |Elements(s)| == |s|
  {
    if s != [] {
      var init, x := s[..|s| - 1], s[|s| - 1];
      DistinctCount(init);
      assert x !in init;
      ElementsSnoc(init, x);
      assert s == init + [x];
    }
  }

  /** The cache holds the current block, and its ids are all different. */
  ghost predicate Holds(seen: set<string>, accepted: seq<string>) {
    seen == Elements(Window(accepted)) && Distinct(Window(accepted))
  }

  function BlockSize(n: nat): nat {
    if n == 0 then 0 else (n - 1) % 256 + 1
  }

  lemma HeldCount(seen: set<string>, accepted: seq<string>)
    requires Holds(seen, accepted)
    ensures |seen| == BlockSize(|accepted|) <= 256
  {
    WindowGrows(accepted, "");
    DistinctCount(Window(accepted));
  }

  /** A new id joins the block, or starts the next one. */
  lemma HeldGrows(seen: set<string>, accepted: seq<string>, id: string)
    requires Holds(seen, accepted) && id !in seen
    ensures Holds(if |seen + {id}| > CAPACITY then {id} else seen + {id}, accepted + [id])
  {
    HeldCount(seen, accepted);
    WindowGrows(accepted, id);
    Added(Window(accepted), id);
  }

  /** A new id beside those of a window, or alone. */
  lemma Added(w: seq<string>, id: string)
    requires Distinct(w) && id !in Elements(w)
    ensures Elements(w + [id]) == Elements(w) + {id} && Distinct(w + [id]) && |Elements(w) + {id}| == |w| + 1
    ensures Elements([id]) == {id} && Distinct([id])
  {
    ElementsSnoc(w, id);
    DistinctCount(w);
    ElementsSnoc([], id);
    assert [] + [id] == [id];
  }

  class Cache {
    var seen: set<string>
    ghost var accepted: seq<string>

    ghost predicate Valid()
      reads this
    {
      Holds(seen, accepted)
    }

    constructor ()
      ensures Valid() && accepted == []
    {
      seen := {};
      accepted := [];
    }

    /** Refuses exactly the ids of the current block, and holds no more than 256. */
    method Remember(id: string) returns (ok: bool)
      requires Valid()
      modifies this
      ensures Valid()
      ensures |seen| == BlockSize(|accepted|) <= 256
      ensures ok <==> id !in Window(old(accepted))
      ensures accepted == if ok then old(accepted) + [id] else old(accepted)
    {
      HeldCount(seen, accepted);
      if id in seen {
        return false;
      }
      HeldGrows(seen, accepted, id);
      seen := seen + {id};
      if |seen| > CAPACITY {
        seen := {id};
      }
      accepted := accepted + [id];
      HeldCount(seen, accepted);
      return true;
    }
  }

  // ---- whole streams ------------------------------------------------------------------

  /** The ids accepted from a stream of commands. */
  function Accepted(stream: seq<string>): seq<string> {
    if stream == [] then []
    else
      var before := Accepted(stream[..|stream| - 1]);
      var id := stream[|stream| - 1];
      if id in Window(before) then before else before + [id]
  }

  /** In any stream, a command id runs again only in a later block of 256: within one block every
      accepted id is different. */
  lemma {:induction false} NoReplayWithinBlock(stream: seq<string>, i: nat, j: nat)
    requires i < j < |Accepted(stream)| && i / 256 == j / 256
    ensures Accepted(stream)[i] != Accepted(stream)[j]
  {
    var shorter := stream[..|stream| - 1];
    var before := Accepted(shorter);
    if j < |before| {
      NoReplayWithinBlock(shorter, i, j);
    } else {
      SameBlock(i, j);
      assert Window(before)[i - BlockStart(j)] == before[i];
    }
  }

  lemma SameBlock(i: nat, j: nat)
    requires i < j && i / CAPACITY == j / CAPACITY
    ensures BlockStart(j) <= i
  {
    assert (j - 1) / CAPACITY == j / CAPACITY;
  }

  /** Running the cache on a stream accepts what Accepted says. */
  method Run(stream: seq<string>) returns (accepted: seq<string>)
    ensures accepted == Accepted(stream)
  {
    var cache := new Cache();
    accepted := [];
    for i := 0 to |stream|
      invariant fresh(cache) && cache.Valid()
      invariant accepted == cache.accepted == Accepted(stream[..i])
    {
      assert stream[..i + 1][..i] == stream[..i];
      var ok := cache.Remember(stream[i]);
      if ok {
        accepted := accepted + [stream[i]];
      }
    }
    assert stream[..|stream|] == stream;
  }
}
