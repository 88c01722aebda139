/** What the integrity history of one path can tell, given what the reports listed for it:
    the event rule of applyFim in lib/store.ts, seen from one path. */
module PathTrail {
  /** One recorded change of the path. */
  datatype Change = Change(from: string, to: string)

  /** Undoing the changes from the newest leads from the current hash back. */
  ghost predicate Replays(h: seq<Change>, current: string) {
    h == [] || (h[0].to == current && Replays(h[1..], h[0].from))
  }

  /** Replaying is a chain of changes: each starts where the one before it ended. */
  lemma {:induction false} ReplaysIsChain(h: seq<Change>, current: string)
    ensures Replays(h, current) <==>
      (h != [] ==> h[0].to == current) && forall i :: 0 <= i < |h| - 1 ==> h[i].from == h[i + 1].to
  {
    if h != [] {
      ReplaysIsChain(h[1..], h[0].from);
      if forall i :: 0 <= i < |h| - 1 ==> h[i].from == h[i + 1].to {
        forall i | 0 <= i < |h[1..]| - 1 ensures h[1..][i].from == h[1..][i + 1].to {
          assert h[i + 1].from == h[i + 2].to;
        }
      }
      if Replays(h, current) {
        forall i | 0 <= i < |h| - 1 ensures h[i].from == h[i + 1].to {
          if i > 0 { assert h[1..][i - 1].from == h[1..][i].to; }
        }
      }
    }
  }

  lemma {:induction false} ReplaysPrefix(h: seq<Change>, longer: seq<Change>, current: string)
    requires h <= longer && Replays(longer, current)
    ensures Replays(h, current)
  {
    if h != [] { ReplaysPrefix(h[1..], longer[1..], h[0].from); }
  }

  // ---- one report --------------------------------------------------------------------

  /** The hashes a report lists for the path, in order: none if it leaves the path out. */
  type Reading = seq<string>

  /** The hash known after a report, the last one listed; "" for none. Against "" no change is noticed. */
  function Known(r: Reading): string {
    if r == [] then "" else r[|r| - 1]
  }

  /** The changes the first n hashes of a report record, given the hash known before it. */
  function RecordedTo(known: string, r: Reading, n: nat): seq<Change>
    requires n <= |r|
  {
    if n == 0 then []
    else RecordedTo(known, r, n - 1) + if known != "" && known != r[n - 1] then [Change(known, r[n - 1])] else []
  }

  function Recorded(known: string, r: Reading): seq<Change> {
    RecordedTo(known, r, |r|)
  }

  lemma {:induction false} RecordedShape(known: string, r: Reading, n: nat)
    requires n <= |r|
    ensures |RecordedTo(known, r, n)| <= n && (known == "" ==> RecordedTo(known, r, n) == [])
    ensures forall c :: c in RecordedTo(known, r, n) ==> c.from == known != c.to
  {
    if n > 0 { RecordedShape(known, r, n - 1); }
  }

  lemma {:induction false} NothingRecorded(known: string, r: Reading, n: nat)
    requires n <= |r|
    ensures RecordedTo(known, r, n) == [] <==> known == "" || forall i :: 0 <= i < n ==> r[i] == known
  {
    if n > 0 { NothingRecorded(known, r, n - 1); }
  }

  lemma {:induction false} RecordedPrefix(known: string, r: Reading, hash: string, n: nat)
    requires n <= |r|
    ensures RecordedTo(known, r + [hash], n) == RecordedTo(known, r, n)
  {
    if n > 0 { RecordedPrefix(known, r, hash, n - 1); }
  }

  lemma RecordedSnoc(known: string, r: Reading, hash: string)
    ensures Recorded(known, r + [hash]) ==
      Recorded(known, r) + if known != "" && known != hash then [Change(known, hash)] else []
  {
    RecordedPrefix(known, r, hash, |r|);
  }

  /** What one report records, and the hash known before it. */
  datatype Step = Step(known: string, changes: seq<Change>)

  /** The changes of a step start at the hash known before it, and change it. */
  ghost predicate StepChanges(s: Step) {
    forall c :: c in s.changes ==> c.from == s.known != c.to
  }

  /** Changes that all start at one hash replay onto a history only if there is at most one of them. */
  lemma StepReplays(s: Step, h: seq<Change>, y: string)
    requires StepChanges(s)
    ensures Replays(s.changes + h, y) <==>
      (if s.changes == [] then Replays(h, y) else |s.changes| == 1 && s.changes[0].to == y && Replays(h, s.known))
  {
    var cs := s.changes;
    if cs == [] {
      assert cs + h == h;
    } else {
      var rest := (cs + h)[1..];
      assert cs[0] in cs;
      if |cs| == 1 {
        assert rest == h;
      } else {
        assert cs[1] in cs && rest[0] == cs[1];
      }
    }
  }

  /** Exactly when the history replays from the hash just reported, whatever it was before: if a hash was
      known, when the report lists nothing else before its last hash and the history replayed from the
      known one; if none was, when the history replays from the new hash as it is. */
  lemma ReportReplays(known: string, r: Reading, h: seq<Change>)
    requires r != []
    ensures Replays(Recorded(known, r) + h, Known(r)) <==>
      (if known != "" then (forall i :: 0 <= i < |r| - 1 ==> r[i] == known) && Replays(h, known)
       else Replays(h, Known(r)))
  {
    var cs := Recorded(known, r);
    RecordedShape(known, r, |r|);
    StepReplays(Step(known, cs), h, Known(r));
    if known != "" {
      LastDecides(known, r);
      if cs == [] { NothingRecorded(known, r, |r|); }
    }
  }

  /** The one change a history can replay is the one to the hash listed last. */
  lemma LastDecides(known: string, r: Reading)
    requires r != [] && known != ""
    ensures var cs := Recorded(known, r);
      cs == [] || (|cs| == 1 && cs[0].to == Known(r)) <==> forall i :: 0 <= i < |r| - 1 ==> r[i] == known
  {
    var before := RecordedTo(known, r, |r| - 1);
    RecordedShape(known, r, |r| - 1);
    NothingRecorded(known, r, |r| - 1);
    if before != [] { assert before[0] in before; }
  }

  // ---- runs of reports -----------------------------------------------------------------

  /** The steps of a run of reports; rs[0] is what was known before them and records nothing. */
  function StepsOf(rs: seq<Reading>): (steps: seq<Step>)
    ensures |steps| == |rs|
  {
    seq(|rs|, k requires 0 <= k < |rs| => StepAt(rs, k))
  }

  function StepAt(rs: seq<Reading>, k: nat): Step
    requires k < |rs|
  {
    if k == 0 then Step("", []) else Step(Known(rs[k - 1]), Recorded(Known(rs[k - 1]), rs[k]))
  }

  /** The changes the steps after `cut` up to n record, newest first. */
  function TrailFrom(steps: seq<Step>, cut: nat, n: nat): seq<Change>
    requires n < |steps|
  {
    if n <= cut then [] else steps[n].changes + TrailFrom(steps, cut, n - 1)
  }

  /** The changes all reports record. */
  function Trail(rs: seq<Reading>): seq<Change>
    requires rs != []
  {
    TrailFrom(StepsOf(rs), 0, |rs| - 1)
  }

  /** The hash at which the next change recorded after step k, up to step n, starts, or y if there is none. */
  function NextFrom(steps: seq<Step>, k: nat, n: nat, y: string): string
    requires n < |steps|
    decreases n - k
  {
    if k >= n then y
    else if steps[k + 1].changes != [] then steps[k + 1].known
    else NextFrom(steps, k + 1, n, y)
  }

  /** Step k records at most one change of the path, and what it changes it to is what the next recorded
      change starts from, or y at the end. */
  predicate Holds(steps: seq<Step>, k: nat, n: nat, y: string)
    requires k <= n < |steps|
  {
    steps[k].changes == [] || (|steps[k].changes| == 1 && steps[k].changes[0].to == NextFrom(steps, k, n, y))
  }

  /** So does every step after `cut`. */
  ghost predicate Unbroken(steps: seq<Step>, cut: nat, n: nat, y: string)
    requires n < |steps|
  {
    forall k :: cut < k <= n ==> Holds(steps, k, n, y)
  }

  ghost predicate AllStepChanges(steps: seq<Step>) {
    forall k :: 0 <= k < |steps| ==> StepChanges(steps[k])
  }

  lemma ReportSteps(rs: seq<Reading>)
    ensures AllStepChanges(StepsOf(rs))
  {
    forall k | 0 <= k < |rs| ensures StepChanges(StepsOf(rs)[k]) {
      if k > 0 { RecordedShape(Known(rs[k - 1]), rs[k], |rs[k]|); }
    }
  }

  /** The hash from which the changes before step n have to replay, if the whole replays from y. */
  function Behind(steps: seq<Step>, n: nat, y: string): string
    requires n < |steps|
  {
    if steps[n].changes == [] then y else steps[n].known
  }

  lemma {:induction false} NextBehind(steps: seq<Step>, k: nat, n: nat, y: string)
    requires k < n < |steps|
    ensures NextFrom(steps, k, n, y) == NextFrom(steps, k, n - 1, Behind(steps, n, y))
    decreases n - k
  {
    if k + 1 < n { NextBehind(steps, k + 1, n, y); }
  }

  lemma UnbrokenBehind(steps: seq<Step>, cut: nat, n: nat, y: string)
    requires cut < n < |steps|
    ensures Unbroken(steps, cut, n, y) <==> Unbroken(steps, cut, n - 1, Behind(steps, n, y)) && Holds(steps, n, n, y)
  {
    var m, z := n - 1, Behind(steps, n, y);
    if Unbroken(steps, cut, n, y) {
      forall k | cut < k < n ensures Holds(steps, k, m, z) {
        NextBehind(steps, k, n, y);
        assert Holds(steps, k, n, y);
      }
    }
    if Unbroken(steps, cut, m, z) && Holds(steps, n, n, y) {
      forall k | cut < k <= n ensures Holds(steps, k, n, y) {
        if k < n {
          NextBehind(steps, k, n, y);
          assert Holds(steps, k, m, z);
        }
      }
    }
  }

  /** The exact condition under which the changes recorded after a cut replay from a hash y, onto any history
      and through any reports: with gaps, empty hashes and paths listed twice. */
  lemma {:induction false} TrailReplays(steps: seq<Step>, cut: nat, n: nat, h: seq<Change>, y: string)
    requires AllStepChanges(steps) && n < |steps|
    ensures Replays(TrailFrom(steps, cut, n) + h, y) <==>
      Unbroken(steps, cut, n, y) && Replays(h, NextFrom(steps, cut, n, y))
    decreases n
  {
    if n <= cut {
      assert [] + h == h;
    } else {
      Regroup(steps[n].changes, TrailFrom(steps, cut, n - 1), h);
      StepReplays(steps[n], TrailFrom(steps, cut, n - 1) + h, y);
      TrailReplays(steps, cut, n - 1, h, Behind(steps, n, y));
      NextBehind(steps, cut, n, y);
      UnbrokenBehind(steps, cut, n, y);
    }
  }

  lemma Regroup<T>(a: seq<T>, b: seq<T>, c: seq<T>)
    ensures a + (b + c) == a + b + c
  {
  }

  // ---- the trail from the front ------------------------------------------------------------

  lemma {:induction false} TrailShifts(steps: seq<Step>, rest: seq<Step>, n: nat)
    requires |steps| == |rest| + 1 && n < |rest| && forall k :: 1 <= k <= n ==> steps[k + 1] == rest[k]
    ensures TrailFrom(steps, 1, n + 1) == TrailFrom(rest, 0, n)
    decreases n
  {
    if n > 0 { TrailShifts(steps, rest, n - 1); }
  }

  /** The oldest changes come last. */
  lemma {:induction false} TrailOldest(steps: seq<Step>, n: nat)
    requires 0 < n < |steps|
    ensures TrailFrom(steps, 0, n) == TrailFrom(steps, 1, n) + steps[1].changes
    decreases n
  {
    if n > 1 {
      TrailOldest(steps, n - 1);
      Regroup(steps[n].changes, TrailFrom(steps, 1, n - 1), steps[1].changes);
    } else {
      assert TrailFrom(steps, 1, 1) == [] && TrailFrom(steps, 0, 0) == [];
      assert steps[1].changes + [] == steps[1].changes == [] + steps[1].changes;
    }
  }

  lemma StepsCons(known: Reading, rest: seq<Reading>)
    requires rest != []
    ensures var steps := StepsOf([known] + rest);
      steps[1] == Step(Known(known), Recorded(Known(known), rest[0])) &&
      forall k :: 1 <= k < |rest| ==> steps[k + 1] == StepsOf(rest)[k]
  {
    var all := [known] + rest;
    assert all[0] == known && all[1] == rest[0];
    forall k | 1 <= k < |rest| ensures StepAt(all, k + 1) == StepAt(rest, k) {
      assert all[k] == rest[k - 1] && all[k + 1] == rest[k];
    }
  }

  /** A report in front of others adds its changes behind theirs. */
  lemma TrailCons(known: Reading, rest: seq<Reading>, h: seq<Change>)
    requires rest != []
    ensures Trail([known] + rest) + h == Trail(rest) + (Recorded(Known(known), rest[0]) + h)
  {
    var steps := StepsOf([known] + rest);
    StepsCons(known, rest);
    TrailOldest(steps, |rest|);
    TrailShifts(steps, StepsOf(rest), |rest| - 1);
    Regroup(Trail(rest), Recorded(Known(known), rest[0]), h);
  }

  // ---- dropping the oldest changes -----------------------------------------------------------

  /** What is left of the changes of the steps and a history before them, when the oldest are dropped: those
      of the steps after the cut, and a part of those of the step at the cut or of the history. */
  predicate CutAt(steps: seq<Step>, h: seq<Change>, n: nat, kept: seq<Change>, cut: nat, part: seq<Change>)
    requires n < |steps|
  {
    cut <= n && kept == TrailFrom(steps, cut, n) + part && part <= if cut == 0 then h else steps[cut].changes
  }

  lemma {:induction false} CutTrail(steps: seq<Step>, h: seq<Change>, n: nat, kept: seq<Change>)
    returns (cut: nat, part: seq<Change>)
    requires n < |steps| && kept <= TrailFrom(steps, 0, n) + h
    ensures CutAt(steps, h, n, kept, cut, part)
    ensures kept == TrailFrom(steps, 0, n) + h ==> cut == 0 && part == h
    decreases n
  {
    if n == 0 {
      cut, part := 0, kept;
      assert [] + kept == kept && [] + h == h;
    } else {
      var cs := steps[n].changes;
      Regroup(cs, TrailFrom(steps, 0, n - 1), h);
      PrefixParts(kept, cs, TrailFrom(steps, 0, n - 1) + h);
      if |kept| < |cs| {
        cut, part := n, kept;
        assert [] + part == part;
      } else {
        cut, part := CutTrail(steps, h, n - 1, kept[|cs|..]);
        Regroup(cs, TrailFrom(steps, cut, n - 1), part);
      }
    }
  }

  lemma PrefixParts<T>(kept: seq<T>, a: seq<T>, b: seq<T>)
    requires kept <= a + b
    ensures if |kept| < |a| then kept <= a else
      kept == a + kept[|a|..] && kept[|a|..] <= b && (kept == a + b ==> kept[|a|..] == b)
  {
  }

  /** Exactly when what is left of a trail and a history before it replays from y. */
  lemma KeptReplays(rs: seq<Reading>, h: seq<Change>, kept: seq<Change>, y: string)
    returns (cut: nat, part: seq<Change>)
    requires rs != [] && kept <= Trail(rs) + h
    ensures CutAt(StepsOf(rs), h, |rs| - 1, kept, cut, part) && (kept == Trail(rs) + h ==> cut == 0 && part == h)
    ensures Replays(kept, y) <==>
      Unbroken(StepsOf(rs), cut, |rs| - 1, y) && Replays(part, NextFrom(StepsOf(rs), cut, |rs| - 1, y))
  {
    ReportSteps(rs);
    cut, part := KeptParts(StepsOf(rs), h, |rs| - 1, kept, y);
  }

  lemma KeptParts(steps: seq<Step>, h: seq<Change>, n: nat, kept: seq<Change>, y: string)
    returns (cut: nat, part: seq<Change>)
    requires AllStepChanges(steps) && n < |steps| && kept <= TrailFrom(steps, 0, n) + h
    ensures CutAt(steps, h, n, kept, cut, part) && (kept == TrailFrom(steps, 0, n) + h ==> cut == 0 && part == h)
    ensures Replays(kept, y) <==> Unbroken(steps, cut, n, y) && Replays(part, NextFrom(steps, cut, n, y))
  {
    cut, part := CutTrail(steps, h, n, kept);
    TrailReplays(steps, cut, n, part, y);
  }

  // ---- reports that leave nothing out ------------------------------------------------------

  /** Every report lists the path once, with a hash. */
  ghost predicate Covered(rs: seq<Reading>) {
    forall k :: 1 <= k < |rs| ==> |rs[k]| == 1 && rs[k][0] != ""
  }

  lemma CoveredChange(known: string, r: Reading)
    requires |r| == 1
    ensures Recorded(known, r) == if known == "" || known == r[0] then [] else [Change(known, r[0])]
  {
    assert RecordedTo(known, r, 0) == [];
  }

  lemma {:induction false} CoveredNext(rs: seq<Reading>, k: nat)
    requires Covered(rs) && k < |rs| && Known(rs[k]) != ""
    ensures NextFrom(StepsOf(rs), k, |rs| - 1, Known(rs[|rs| - 1])) == Known(rs[k])
    decreases |rs| - k
  {
    if k + 1 < |rs| {
      var step := StepsOf(rs)[k + 1];
      assert step == StepAt(rs, k + 1);
      if step.changes == [] {
        CoveredChange(Known(rs[k]), rs[k + 1]);
        CoveredNext(rs, k + 1);
      }
    }
  }

  /** Reports that leave nothing out never break the history. */
  lemma CoveredUnbroken(rs: seq<Reading>)
    requires Covered(rs) && rs != [] && Known(rs[|rs| - 1]) != ""
    ensures Unbroken(StepsOf(rs), 0, |rs| - 1, Known(rs[|rs| - 1]))
    ensures Known(rs[0]) != "" ==> NextFrom(StepsOf(rs), 0, |rs| - 1, Known(rs[|rs| - 1])) == Known(rs[0])
  {
    var n, y := |rs| - 1, Known(rs[|rs| - 1]);
    forall k | 0 < k <= n ensures Holds(StepsOf(rs), k, n, y) {
      assert StepsOf(rs)[k] == StepAt(rs, k);
      CoveredChange(Known(rs[k - 1]), rs[k]);
      CoveredNext(rs, k);
    }
    if Known(rs[0]) != "" { CoveredNext(rs, 0); }
  }

  /** The three ways to break a history that ends in a change to b: leaving the path out and bringing it
      back changed, listing it with an empty hash, and listing it twice. */
  lemma WaysToBreak(a: string, b: string)
    requires a != "" && b != "" && a != b
    ensures !Replays(Trail([[b], [], [a]]) + [Change(a, b)], a)
    ensures !Replays(Trail([[b], [""], [a]]) + [Change(a, b)], a)
    ensures !Replays(Trail([[b], [a, b]]) + [Change(a, b)], b)
  {
    GapBreaks([[b], [], [a]], [Change(a, b)], a);
    EmptyBreaks([[b], [""], [a]], [Change(a, b)], a);
    TwiceBreaks([[b], [a, b]], [Change(a, b)], b);
  }

  lemma TrailOfTwo(rs: seq<Reading>)
    requires |rs| == 3
    ensures Trail(rs) == Recorded(Known(rs[1]), rs[2]) + Recorded(Known(rs[0]), rs[1])
  {
    var steps := StepsOf(rs);
    assert steps[2] == StepAt(rs, 2) && steps[1] == StepAt(rs, 1);
    assert TrailFrom(steps, 0, 0) == [] && TrailFrom(steps, 0, 1) == steps[1].changes;
  }

  lemma GapBreaks(rs: seq<Reading>, h: seq<Change>, a: string)
    requires |rs| == 3 && rs[1] == [] && rs[2] == [a] && h != [] && h[0].to != a
    ensures !Replays(Trail(rs) + h, a)
  {
    TrailOfTwo(rs);
    CoveredChange("", [a]);
    assert Trail(rs) + h == h;
  }

  lemma EmptyBreaks(rs: seq<Reading>, h: seq<Change>, a: string)
    requires |rs| == 3 && Known(rs[0]) != "" && rs[1] == [""] && rs[2] == [a] && a != ""
    ensures !Replays(Trail(rs) + h, a)
  {
    TrailOfTwo(rs);
    CoveredChange(Known(rs[0]), [""]);
    CoveredChange("", [a]);
    assert (Trail(rs) + h)[0] == Change(Known(rs[0]), "");
  }

  lemma TwiceBreaks(rs: seq<Reading>, h: seq<Change>, b: string)
    requires |rs| == 2 && Known(rs[0]) == b != "" && |rs[1]| == 2 && rs[1][0] != b && rs[1][1] == b
    ensures !Replays(Trail(rs) + h, b)
  {
    ReportReplays(b, rs[1], h);
    var steps := StepsOf(rs);
    assert steps[1] == StepAt(rs, 1) && TrailFrom(steps, 0, 0) == [];
    assert Trail(rs) == Recorded(b, rs[1]);
  }
}
