/** Array.prototype.filter, and what a filtered sequence is: the elements kept, each as often as it was
    there, in the order they had. */
module Filtering {

  /** s.filter(keep) */
  function Where<T>(s: seq<T>, keep: T -> bool): seq<T> {
    if s == [] then [] else (if keep(s[0]) then [s[0]] else []) + Where(s[1..], keep)
  }

  lemma {:induction false} WhereMembers<T(!new)>(s: seq<T>, keep: T -> bool)
    ensures forall x :: x in Where(s, keep) <==> x in s && keep(x)
  {
    if s != [] {
      WhereMembers(s[1..], keep);
      assert s == [s[0]] + s[1..];
    }
  }

  /** r holds the elements of s at the positions at, which rise and are exactly those kept. */
  ghost predicate SelectedAt<T>(s: seq<T>, keep: T -> bool, r: seq<T>, at: seq<nat>) {
    |at| == |r| &&
    (forall k :: 0 <= k < |at| ==> at[k] < |s| && r[k] == s[at[k]]) &&
    (forall k, l :: 0 <= k < l < |at| ==> at[k] < at[l]) &&
    (forall i: nat :: i < |s| ==> (i in at <==> keep(s[i])))
  }

  /** r is s without the elements that are not kept. */
  ghost predicate Selected<T>(s: seq<T>, keep: T -> bool, r: seq<T>) {
    exists at: seq<nat> :: SelectedAt(s, keep, r, at)
  }

  function Shift(at: seq<nat>): seq<nat> {
    seq(|at|, k requires 0 <= k < |at| => at[k] + 1)
  }

  lemma ShiftMembers(at: seq<nat>, i: nat)
    ensures i in Shift(at) <==> i > 0 && i - 1 in at
  {
    if i > 0 && i - 1 in at {
      var k :| 0 <= k < |at| && at[k] == i - 1;
      assert Shift(at)[k] == i;
    }
  }

  lemma ShiftSelects<T>(s: seq<T>, keep: T -> bool, r: seq<T>, rest: seq<nat>, i: nat)
    requires s != [] && SelectedAt(s[1..], keep, r, rest) && 0 < i < |s|
    ensures i in Shift(rest) <==> keep(s[i])
  {
    ShiftMembers(rest, i);
    assert s[1..][i - 1] == s[i];
  }

  /** Positions in s[1..], read as positions in s, after the head of s if that is kept. */
  lemma SelectedKept<T>(s: seq<T>, keep: T -> bool, r: seq<T>, rest: seq<nat>)
    requires s != [] && keep(s[0]) && SelectedAt(s[1..], keep, r, rest)
    ensures SelectedAt(s, keep, [s[0]] + r, [0] + Shift(rest))
  {
    var at := [0] + Shift(rest);
    KeptPositions(s, r, rest);
    forall i: nat | i < |s| ensures i in at <==> keep(s[i]) {
      if i > 0 { ShiftSelects(s, keep, r, rest, i); }
      InCons(0, Shift(rest), i);
    }
  }

  lemma InCons<T>(x: T, s: seq<T>, y: T)
    ensures y in [x] + s <==> y == x || y in s
  {
  }

  /** The head and then what stands at the shifted positions. */
  lemma KeptPositions<T>(s: seq<T>, r: seq<T>, rest: seq<nat>)
    requires s != [] && |rest| == |r| && forall k :: 0 <= k < |rest| ==> rest[k] < |s| - 1 && r[k] == s[1..][rest[k]]
    requires forall k, l :: 0 <= k < l < |rest| ==> rest[k] < rest[l]
    ensures var at, kept := [0] + Shift(rest), [s[0]] + r;
      (forall k :: 0 <= k < |at| ==> at[k] < |s| && kept[k] == s[at[k]]) &&
      forall k, l :: 0 <= k < l < |at| ==> at[k] < at[l]
  {
    var at := [0] + Shift(rest);
    forall k | 0 < k < |at| ensures at[k] == rest[k - 1] + 1 && s[at[k]] == s[1..][rest[k - 1]] {}
  }

  lemma SelectedDropped<T>(s: seq<T>, keep: T -> bool, r: seq<T>, rest: seq<nat>)
    requires s != [] && !keep(s[0]) && SelectedAt(s[1..], keep, r, rest)
    ensures SelectedAt(s, keep, r, Shift(rest))
  {
    forall i: nat | i < |s| ensures i in Shift(rest) <==> keep(s[i]) {
      if i > 0 { ShiftSelects(s, keep, r, rest, i); } else { ShiftMembers(rest, 0); }
    }
  }

  lemma {:induction false} WhereSelects<T>(s: seq<T>, keep: T -> bool) returns (at: seq<nat>)
    ensures SelectedAt(s, keep, Where(s, keep), at)
  {
    if s == [] {
      at := [];
    } else {
      var rest := WhereSelects(s[1..], keep);
      var r := Where(s[1..], keep);
      if keep(s[0]) {
        SelectedKept(s, keep, r, rest);
        at := [0] + Shift(rest);
      } else {
        SelectedDropped(s, keep, r, rest);
        assert [] + r == r;
        at := Shift(rest);
      }
    }
  }

  lemma WhereIsSelected<T>(s: seq<T>, keep: T -> bool)
    ensures Selected(s, keep, Where(s, keep))
  {
    var at := WhereSelects(s, keep);
  }

  /** Nothing else is selected: order and multiplicity are fixed. */
  lemma SelectedIsWhere<T>(s: seq<T>, keep: T -> bool, r: seq<T>)
    requires Selected(s, keep, r)
    ensures r == Where(s, keep)
  {
    var at: seq<nat> :| SelectedAt(s, keep, r, at);
    var bt := WhereSelects(s, keep);
    RisingUnique(at, bt);
  }

  /** Rising lists with the same members are the same. */
  lemma {:induction false} RisingUnique(at: seq<nat>, bt: seq<nat>)
    requires forall k, l :: 0 <= k < l < |at| ==> at[k] < at[l]
    requires forall k, l :: 0 <= k < l < |bt| ==> bt[k] < bt[l]
    requires forall i: nat :: i in at <==> i in bt
    ensures at == bt
  {
    assert bt != [] ==> bt[0] in at;
    if at != [] {
      assert at[0] in bt;
      assert bt[0] in at;
      assert at[0] == bt[0];
      forall i: nat ensures i in at[1..] <==> i in bt[1..] {
        if i in at[1..] { assert i in at && i != bt[0]; }
        if i in bt[1..] { assert i in bt && i != at[0]; }
      }
      RisingUnique(at[1..], bt[1..]);
      assert at == [at[0]] + at[1..] && bt == [bt[0]] + bt[1..];
    }
  }

  lemma Associative<T>(a: seq<T>, b: seq<T>, c: seq<T>)
    ensures a + (b + c) == a + b + c
  {
  }

  lemma {:induction false} WhereConcat<T>(a: seq<T>, b: seq<T>, keep: T -> bool)
    ensures Where(a + b, keep) == Where(a, keep) + Where(b, keep)
  {
    if a == [] {
      assert a + b == b;
    } else {
      assert (a + b)[1..] == a[1..] + b;
      WhereConcat(a[1..], b, keep);
      Associative(if keep(a[0]) then [a[0]] else [], Where(a[1..], keep), Where(b, keep));
    }
  }

  lemma {:induction false} WhereAll<T>(s: seq<T>, keep: T -> bool)
    requires forall x :: x in s ==> keep(x)
    ensures Where(s, keep) == s
  {
    if s != [] {
      WhereAll(s[1..], keep);
      assert s == [s[0]] + s[1..];
    }
  }

  lemma {:induction false} WhereNone<T>(s: seq<T>, keep: T -> bool)
    requires forall x :: x in s ==> !keep(x)
    ensures Where(s, keep) == []
  {
    if s != [] { WhereNone(s[1..], keep); }
  }
}
