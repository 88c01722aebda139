/** The host store's critical sections, run one at a time on a chain of promises:
    runExclusive, readStore and writeStore of lib/store.ts. */
module StoreQueue {
  import opened Wrappers

  // ---- the protocol -----------------------------------------------------------------

  /** What a critical section does with the data it read: write a new value, write nothing, or throw. */
  datatype Decision<D> = Commit(data: D) | Keep | Throw

  datatype Outcome = Committed | Kept | Rejected

  /** Entered: the section runs. Loaded: it has read the file. Settled: its own promise settled.
      Released: so did the promise the next section waits for. */
  datatype Phase<D> =
    | Waiting
    | Entered
    | Loaded(snapshot: D)
    | Settled(outcome: Outcome)
    | Released(outcome: Outcome)

  /** A submitted section, and the promise that was in `queue` when it was submitted. */
  datatype Job<!D> = Job(op: D -> Decision<D>, after: Option<nat>, phase: Phase<D>)

  /** The file, every section ever submitted, whose promise is in `queue`, and the order in which
      sections were entered. */
  datatype State<!D> = State(store: D, jobs: seq<Job<D>>, queue: Option<nat>, entered: seq<nat>)

  datatype Action<!D> =
    | Submit(op: D -> Decision<D>)
    | Enter(j: nat)
    | Load(j: nat)
    | FailLoad(j: nat)
    | Finish(j: nat)
    | FailWrite(j: nat)
    | Release(j: nat)

  function Init<D>(store: D): State<D> {
    State(store, [], None, [])
  }

  /** The promise a section waits for: the initial one is resolved, another resolves on release. */
  predicate Resolved<D>(s: State<D>, promise: Option<nat>) {
    promise.None? || (promise.value < |s.jobs| && s.jobs[promise.value].phase.Released?)
  }

  predicate Enabled<D>(s: State<D>, a: Action<D>) {
    match a
    case Submit(_) => true
    case Enter(j) => j < |s.jobs| && s.jobs[j].phase.Waiting? && Resolved(s, s.jobs[j].after)
    case Load(j) => j < |s.jobs| && s.jobs[j].phase.Entered?
    case FailLoad(j) => j < |s.jobs| && s.jobs[j].phase.Entered?
    case Finish(j) => j < |s.jobs| && s.jobs[j].phase.Loaded?
    case FailWrite(j) => j < |s.jobs| && s.jobs[j].phase.Loaded? && s.jobs[j].op(s.jobs[j].phase.snapshot).Commit?
    case Release(j) => j < |s.jobs| && s.jobs[j].phase.Settled?
  }

  function SetPhase<D>(s: State<D>, j: nat, phase: Phase<D>): State<D>
    requires j < |s.jobs|
  {
    s.(jobs := s.jobs[j := s.jobs[j].(phase := phase)])
  }

  function Apply<D>(s: State<D>, a: Action<D>): State<D>
    requires Enabled(s, a)
  {
    match a
    case Submit(op) => s.(jobs := s.jobs + [Job(op, s.queue, Waiting)], queue := Some(|s.jobs|))
    case Enter(j) => SetPhase(s, j, Phase.Entered).(entered := s.entered + [j])
    case Load(j) => SetPhase(s, j, Loaded(s.store))
    case FailLoad(j) => SetPhase(s, j, Settled(Rejected))
    case Finish(j) =>
      (match s.jobs[j].op(s.jobs[j].phase.snapshot)
       case Commit(data) => SetPhase(s, j, Settled(Committed)).(store := data)
       case Keep => SetPhase(s, j, Settled(Kept))
       case Throw => SetPhase(s, j, Settled(Rejected)))
    case FailWrite(j) => SetPhase(s, j, Settled(Rejected))
    case Release(j) => SetPhase(s, j, Released(s.jobs[j].phase.outcome))
  }

  /** The state after these actions, if each is enabled where it happens. */
  function Run<D>(store: D, actions: seq<Action<D>>): Option<State<D>>
    decreases |actions|
  {
    if actions == [] then Some(Init(store))
    else
      var before := Run(store, actions[..|actions| - 1]);
      var last := actions[|actions| - 1];
      if before.Some? && Enabled(before.value, last) then Some(Apply(before.value, last)) else None
  }

  // ---- what every run keeps ------------------------------------------------------------

  predicate HasCommitted<D>(job: Job<D>) {
    (job.phase.Settled? || job.phase.Released?) && job.phase.outcome == Committed
  }

  /** The store after the committed sections, one after the other in submission order. */
  function Serial<D>(store: D, jobs: seq<Job<D>>): D {
    if jobs == [] then store
    else
      var before := Serial(store, jobs[..|jobs| - 1]);
      var job := jobs[|jobs| - 1];
      if HasCommitted(job) && job.op(before).Commit? then job.op(before).data else before
  }

  /** The promises form a chain, and the sections entered are the first ones submitted, in order, all
      but the last of them finished. */
  ghost predicate InTurn<D>(s: State<D>) {
    s.queue == (if s.jobs == [] then None else Some(|s.jobs| - 1)) &&
    |s.entered| <= |s.jobs| && (forall i :: 0 <= i < |s.entered| ==> s.entered[i] == i) &&
    forall i :: 0 <= i < |s.jobs| ==>
      s.jobs[i].after == (if i == 0 then None else Some(i - 1)) &&
      (s.jobs[i].phase.Waiting? <==> i >= |s.entered|) &&
      (i + 1 < |s.entered| ==> s.jobs[i].phase.Released?)
  }

  /** The file is what a serial execution would have left, and what a running section has read is
      still what the file holds. */
  ghost predicate NothingLost<D>(store: D, s: State<D>) {
    s.store == Serial(store, s.jobs) &&
    forall i :: 0 <= i < |s.jobs| && s.jobs[i].phase.Loaded? ==> s.jobs[i].phase.snapshot == s.store
  }

  /** Every committed section decided to commit on the value the sections before it had left. */
  ghost predicate CommitsAreReal<D>(store: D, jobs: seq<Job<D>>) {
    forall i :: 0 <= i < |jobs| && HasCommitted(jobs[i]) ==> jobs[i].op(Serial(store, jobs[..i])).Commit?
  }

  lemma {:induction false} SerialSkips<D>(store: D, jobs: seq<Job<D>>, n: nat)
    requires n <= |jobs| && forall i :: n <= i < |jobs| ==> !HasCommitted(jobs[i])
    ensures Serial(store, jobs) == Serial(store, jobs[..n])
  {
    if n == |jobs| {
      assert jobs[..n] == jobs;
    } else {
      var init := jobs[..|jobs| - 1];
      SerialSkips(store, init, n);
      assert init[..n] == jobs[..n];
    }
  }

  /** Changing the phase of the last section entered, without a commit. */
  lemma PhaseKeepsSerial<D>(store: D, jobs: seq<Job<D>>, j: nat, phase: Phase<D>)
    requires j < |jobs| && HasCommitted(jobs[j]) == HasCommitted(jobs[j].(phase := phase))
    requires forall i :: j < i < |jobs| ==> !HasCommitted(jobs[i])
    ensures Serial(store, jobs[j := jobs[j].(phase := phase)]) == Serial(store, jobs)
  {
    var changed := jobs[j := jobs[j].(phase := phase)];
    SerialSkips(store, jobs, j + 1);
    SerialSkips(store, changed, j + 1);
    assert jobs[..j + 1][..j] == changed[..j + 1][..j];
  }

  lemma CommitGrowsSerial<D>(store: D, jobs: seq<Job<D>>, j: nat)
    requires j < |jobs| && forall i :: j <= i < |jobs| ==> !HasCommitted(jobs[i])
    requires jobs[j].op(Serial(store, jobs)).Commit?
    ensures Serial(store, jobs[j := jobs[j].(phase := Settled(Committed))]) == jobs[j].op(Serial(store, jobs)).data
    ensures Serial(store, jobs[..j]) == Serial(store, jobs)
  {
    var changed := jobs[j := jobs[j].(phase := Settled(Committed))];
    SerialSkips(store, jobs, j);
    SerialSkips(store, changed, j + 1);
    assert changed[..j + 1][..j] == jobs[..j];
  }

  lemma RealCommitsStay<D>(store: D, jobs: seq<Job<D>>, j: nat, phase: Phase<D>)
    requires CommitsAreReal(store, jobs) && j < |jobs|
    requires HasCommitted(jobs[j].(phase := phase)) ==> jobs[j].op(Serial(store, jobs[..j])).Commit?
    requires forall i :: j < i < |jobs| ==> !HasCommitted(jobs[i])
    ensures CommitsAreReal(store, jobs[j := jobs[j].(phase := phase)])
  {
    var changed := jobs[j := jobs[j].(phase := phase)];
    forall i | 0 <= i < |changed| && HasCommitted(changed[i])
      ensures changed[i].op(Serial(store, changed[..i])).Commit?
    {
      assert i <= j;
      assert changed[..i] == jobs[..i];
    }
  }

  ghost predicate Invariant<D>(store: D, s: State<D>) {
    InTurn(s) && NothingLost(store, s) && CommitsAreReal(store, s.jobs)
  }

  lemma StepInTurn<D>(s: State<D>, a: Action<D>)
    requires InTurn(s) && Enabled(s, a)
    ensures InTurn(Apply(s, a))
    ensures !a.Submit? ==> a.j + 1 >= |s.entered|
  {
    match a
    case Submit(_) =>
    case Enter(_) =>
    case Load(_) =>
    case FailLoad(_) =>
    case Finish(_) =>
    case FailWrite(_) =>
    case Release(_) =>
  }

  lemma SubmitKeeps<D>(store: D, s: State<D>, op: D -> Decision<D>)
    requires NothingLost(store, s) && CommitsAreReal(store, s.jobs)
    ensures var t := Apply(s, Submit(op)); NothingLost(store, t) && CommitsAreReal(store, t.jobs)
  {
    WaitingKeeps(store, s.jobs, Job(op, s.queue, Waiting));
  }

  lemma WaitingKeeps<D>(store: D, jobs: seq<Job<D>>, job: Job<D>)
    requires CommitsAreReal(store, jobs) && !HasCommitted(job)
    ensures Serial(store, jobs + [job]) == Serial(store, jobs) && CommitsAreReal(store, jobs + [job])
  {
    var all := jobs + [job];
    assert all[..|jobs|] == jobs;
    forall i | 0 <= i < |all| && HasCommitted(all[i]) ensures all[i].op(Serial(store, all[..i])).Commit? {
      assert all[i] == jobs[i] && all[..i] == jobs[..i];
    }
  }

  lemma CommitKeeps<D>(store: D, s: State<D>, j: nat)
    requires Invariant(store, s) && Enabled(s, Finish(j)) && s.jobs[j].op(s.jobs[j].phase.snapshot).Commit?
    requires j + 1 >= |s.entered|
    ensures var t := Apply(s, Finish(j)); NothingLost(store, t) && CommitsAreReal(store, t.jobs)
  {
    CommitGrowsSerial(store, s.jobs, j);
    RealCommitsStay(store, s.jobs, j, Settled(Committed));
  }

  /** A section that moves is the last one entered, so everything after it waits. */
  lemma StepKeeps<D>(store: D, s: State<D>, a: Action<D>)
    requires Invariant(store, s) && Enabled(s, a)
    ensures Invariant(store, Apply(s, a))
  {
    StepInTurn(s, a);
    match a
    case Submit(op) => SubmitKeeps(store, s, op);
    case Enter(j) => MoveKeeps(store, s, j, Phase.Entered);
    case Load(j) => MoveKeeps(store, s, j, Loaded(s.store));
    case FailLoad(j) => MoveKeeps(store, s, j, Settled(Rejected));
    case Finish(j) =>
      match s.jobs[j].op(s.jobs[j].phase.snapshot) {
        case Commit(data) => CommitKeeps(store, s, j);
        case Keep => MoveKeeps(store, s, j, Settled(Kept));
        case Throw => MoveKeeps(store, s, j, Settled(Rejected));
      }
    case FailWrite(j) => MoveKeeps(store, s, j, Settled(Rejected));
    case Release(j) => MoveKeeps(store, s, j, Released(s.jobs[j].phase.outcome));
  }

  lemma MoveKeeps<D>(store: D, s: State<D>, j: nat, phase: Phase<D>)
    requires Invariant(store, s) && j < |s.jobs|
    requires HasCommitted(s.jobs[j]) == HasCommitted(s.jobs[j].(phase := phase))
    requires j + 1 >= |s.entered|
    requires phase.Loaded? ==> phase.snapshot == s.store
    ensures NothingLost(store, SetPhase(s, j, phase)) && CommitsAreReal(store, SetPhase(s, j, phase).jobs)
  {
    PhaseKeepsSerial(store, s.jobs, j, phase);
    RealCommitsStay(store, s.jobs, j, phase);
  }

  lemma {:induction false} RunsKeep<D>(store: D, actions: seq<Action<D>>, s: State<D>)
    requires Run(store, actions) == Some(s)
    ensures Invariant(store, s)
    decreases |actions|
  {
    if actions != [] {
      var last := actions[|actions| - 1];
      var before := Run(store, actions[..|actions| - 1]).value;
      RunsKeep(store, actions[..|actions| - 1], before);
      StepKeeps(store, before, last);
    }
  }

  // ---- the results -----------------------------------------------------------------------

  predicate InSection<D>(s: State<D>, j: nat) {
    j < |s.jobs| && (s.jobs[j].phase.Entered? || s.jobs[j].phase.Loaded?)
  }

  /** In every interleaving: at most one section runs, sections are entered in submission order, and the
      file is the serial result of the sections that committed. */
  lemma Serialised<D>(store: D, actions: seq<Action<D>>, s: State<D>)
    requires Run(store, actions) == Some(s)
    ensures forall i, j :: InSection(s, i) && InSection(s, j) ==> i == j
    ensures forall i :: 0 <= i < |s.entered| ==> s.entered[i] == i
    ensures s.store == Serial(store, s.jobs) && CommitsAreReal(store, s.jobs)
  {
    RunsKeep(store, actions, s);
  }

  /** The action with which a section goes on, whatever it decided. */
  function Continue<D>(s: State<D>, j: nat): Action<D>
    requires j < |s.jobs| && !s.jobs[j].phase.Released?
  {
    match s.jobs[j].phase
    case Waiting => Enter(j)
    case Entered => Load(j)
    case Loaded(_) => Finish(j)
    case Settled(_) => Release(j)
  }

  /** Steps a section still has before it. */
  function Left<D>(p: Phase<D>): nat {
    match p
    case Waiting => 4
    case Entered => 3
    case Loaded(_) => 2
    case Settled(_) => 1
    case Released(_) => 0
  }

  function AllLeft<D>(jobs: seq<Job<D>>): nat {
    if jobs == [] then 0 else Left(jobs[0].phase) + AllLeft(jobs[1..])
  }

  lemma {:induction false} AllLeftUpdate<D>(jobs: seq<Job<D>>, j: nat, job: Job<D>)
    requires j < |jobs|
    ensures AllLeft(jobs[j := job]) == AllLeft(jobs) - Left(jobs[j].phase) + Left(job.phase)
  {
    var changed := jobs[j := job];
    if j == 0 {
      assert changed[1..] == jobs[1..];
    } else {
      AllLeftUpdate(jobs[1..], j - 1, job);
      assert changed[1..] == jobs[1..][j - 1 := job];
    }
  }

  /** No section is ever stuck behind another, however that one ended: while any is unfinished, one can
      move. */
  lemma NeverBlocked<D>(store: D, actions: seq<Action<D>>, s: State<D>, unfinished: nat) returns (j: nat)
    requires Run(store, actions) == Some(s)
    requires unfinished < |s.jobs| && !s.jobs[unfinished].phase.Released?
    ensures j <= unfinished && !s.jobs[j].phase.Released? && Enabled(s, Continue(s, j))
  {
    RunsKeep(store, actions, s);
    var n := |s.entered|;
    j := if n > 0 && !s.jobs[n - 1].phase.Released? then n - 1 else n;
  }

  /** Every step but a new submission brings the end closer: submissions apart, n sections take at most
      4n steps. */
  lemma StepsRunOut<D>(s: State<D>, a: Action<D>)
    requires Enabled(s, a) && !a.Submit?
    ensures AllLeft(Apply(s, a).jobs) < AllLeft(s.jobs)
  {
    var t := Apply(s, a);
    AllLeftUpdate(s.jobs, a.j, t.jobs[a.j]);
    assert t.jobs == s.jobs[a.j := t.jobs[a.j]];
  }

  /** When nothing is left to do, every section has finished and the file holds the serial result. */
  lemma EndsSerial<D>(store: D, actions: seq<Action<D>>, s: State<D>)
    requires Run(store, actions) == Some(s)
    requires forall a :: Enabled(s, a) ==> a.Submit?
    ensures (forall i :: 0 <= i < |s.jobs| ==> s.jobs[i].phase.Released?) && s.store == Serial(store, s.jobs)
  {
    RunsKeep(store, actions, s);
    forall i | 0 <= i < |s.jobs| ensures s.jobs[i].phase.Released? {
      if !s.jobs[i].phase.Released? {
        var j := NeverBlocked(store, actions, s, i);
        assert false;
      }
    }
  }
}
