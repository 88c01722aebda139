/** The store's operations submitted concurrently: the queue of lib/store.ts around its operations. */
module ConcurrentStore {
  import opened Wrappers
  import opened Filtering
  import opened StoreQueue
  import opened HostStore
  import opened IntegrityHistory

  type File = Option<Data>

  function Decide(result: Option<Data>): Decision<File> {
    if result.Some? then Commit(result) else Keep
  }

  /** The critical section of an operation on the file read, which may be missing: enrolment and ensureStore
      then start from an empty store with a new random secret, a check-in finds no device, and the rest
      throw. */
  function Section(op: Op): File -> Decision<File> {
    (file: File) =>
      match file {
        case None => (match op
          case Enroll(_, _, _, _, made) => Decide(Written(CreatedStore(made), op))
          case Ensure(enabled, made, samples, events) => Decide(EnsuredFile(None, enabled, made, samples, events))
          case Checkin(_) => Keep
          case _ => Throw)
        case Some(data) => Decide(Written(data, op))
      }
  }

  /** What the file holds after a section that ran alone on it. */
  function PerformOn(file: File, op: Op): File {
    match Section(op)(file) case Commit(written) => written case _ => file
  }

  function PerformAllOn(file: File, ops: seq<Op>): File
    decreases ops
  {
    if ops == [] then file else PerformAllOn(PerformOn(file, ops[0]), ops[1..])
  }

  /** Once the file is there, it stays, and its data is what the operations make of it. */
  lemma {:induction false} PresentStays(data: Data, ops: seq<Op>)
    ensures PerformAllOn(Some(data), ops) == Some(PerformAll(data, ops))
    decreases ops
  {
    if ops != [] { PresentStays(Perform(data, ops[0]), ops[1..]); }
  }

  /** A missing file is created by ensureStore, or by a host that guesses the random secret: until then
      nothing is written. */
  lemma {:induction false} MissingStays(ops: seq<Op>)
    ensures PerformAllOn(None, ops) == None <==>
      forall op :: op in ops ==> !op.Ensure? && (op.Enroll? ==> op.secret != op.made)
    decreases ops
  {
    if ops != [] {
      var op := ops[0];
      assert forall o :: o in ops <==> o == op || o in ops[1..];
      var file := PerformOn(None, op);
      if file.None? {
        MissingStays(ops[1..]);
      } else {
        PresentStays(file.value, ops[1..]);
      }
    }
  }

  /** The operations behind the sections that committed, in submission order. */
  function CommittedOps(jobs: seq<Job<File>>, ops: seq<Op>): seq<Op>
    requires |jobs| == |ops|
  {
    if jobs == [] then []
    else
      var n := |jobs| - 1;
      CommittedOps(jobs[..n], ops[..n]) + if HasCommitted(jobs[n]) then [ops[n]] else []
  }

  lemma {:induction false} PerformAllSnoc(file: File, ops: seq<Op>, op: Op)
    ensures PerformAllOn(file, ops + [op]) == PerformOn(PerformAllOn(file, ops), op)
    decreases ops
  {
    if ops == [] {
      assert [] + [op] == [op] && [op][1..] == [];
      assert PerformAllOn(PerformOn(file, op), []) == PerformOn(file, op);
    } else {
      PerformAllSnoc(PerformOn(file, ops[0]), ops[1..], op);
      assert (ops + [op])[1..] == ops[1..] + [op];
    }
  }

  lemma RealPrefix(store: File, jobs: seq<Job<File>>, n: nat)
    requires CommitsAreReal(store, jobs) && n <= |jobs|
    ensures CommitsAreReal(store, jobs[..n])
  {
    forall i | 0 <= i < n && HasCommitted(jobs[..n][i])
      ensures jobs[..n][i].op(Serial(store, jobs[..n][..i])).Commit?
    {
      assert jobs[..n][..i] == jobs[..i];
    }
  }

  lemma {:induction false} SerialPerforms(file: File, jobs: seq<Job<File>>, ops: seq<Op>)
    requires |jobs| == |ops| && forall i :: 0 <= i < |jobs| ==> jobs[i].op == Section(ops[i])
    requires CommitsAreReal(file, jobs)
    ensures Serial(file, jobs) == PerformAllOn(file, CommittedOps(jobs, ops))
  {
    if jobs != [] {
      var n := |jobs| - 1;
      RealPrefix(file, jobs, n);
      SerialPerforms(file, jobs[..n], ops[..n]);
      var done := CommittedOps(jobs[..n], ops[..n]);
      PerformAllSnoc(file, done, ops[n]);
      assert done + [] == done;
    }
  }

  /** No update is lost: in every interleaving of submitted operations on a file that may be missing at
      first, with reads and writes failing anywhere, the file holds the result of performing exactly the
      committed ones, in submission order. */
  lemma NoUpdateLost(file: File, actions: seq<Action<File>>, s: State<File>, ops: seq<Op>)
    requires Run(file, actions) == Some(s)
    requires |ops| == |s.jobs| && forall i :: 0 <= i < |ops| ==> s.jobs[i].op == Section(ops[i])
    ensures s.store == PerformAllOn(file, CommittedOps(s.jobs, ops))
    ensures file.Some? ==> s.store == Some(PerformAll(file.value, CommittedOps(s.jobs, ops)))
  {
    Serialised(file, actions, s);
    SerialPerforms(file, s.jobs, ops);
    if file.Some? { PresentStays(file.value, CommittedOps(s.jobs, ops)); }
  }

  /** So what sequential runs keep, concurrent ones keep. */
  lemma ConcurrentHistoryReplays(
    data: Data, actions: seq<Action<File>>, s: State<File>, ops: seq<Op>, id: string, path: string)
    requires Run(Some(data), actions) == Some(s)
    requires |ops| == |s.jobs| && forall i :: 0 <= i < |ops| ==> s.jobs[i].op == Section(ops[i])
    requires Tracked(data, id, path)
    requires var done := CommittedOps(s.jobs, ops); SeparateRun(data, done, id) && CoveredRun(data, done, id, path)
    ensures s.store.Some? && Tracked(s.store.value, id, path)
  {
    NoUpdateLost(Some(data), actions, s, ops);
    HistoryReplays(data, CommittedOps(s.jobs, ops), id, path);
  }

  lemma OthersKeepTriages(data: Data, op: Op)
    requires !op.SetTriage?
    ensures Perform(data, op).triages == data.triages
  {
    match op
    case Rotate(_) =>
    case Enroll(_, _, _, _, _) =>
    case Checkin(_) =>
    case Accept(_) =>
    case Replace(_, _) =>
    case Clear =>
    case Ensure(_, _, _, _) =>
  }

  lemma OthersStay(data: Data, put: Triage, t: Triage)
    requires t in data.triages && put.key != t.key
    ensures t in TriageResult(data, put).triages
  {
    WhereMembers(data.triages, IsOther(put.key));
  }

  lemma StepKeepsTriage(data: Data, op: Op, t: Triage)
    requires t in data.triages && (op.SetTriage? ==> op.t.key != t.key)
    ensures t in Perform(data, op).triages
  {
    if op.SetTriage? {
      OthersStay(data, op.t, t);
    } else {
      OthersKeepTriages(data, op);
    }
  }

  /** A triage stays until its key is triaged again, whatever else runs. */
  lemma {:induction false} TriageSurvives(data: Data, ops: seq<Op>, t: Triage)
    requires t in data.triages
    requires forall op :: op in ops && op.SetTriage? ==> op.t.key != t.key
    ensures t in PerformAll(data, ops).triages
    decreases ops
  {
    if ops != [] {
      assert ops[0] in ops;
      StepKeepsTriage(data, ops[0], t);
      TriageSurvives(Perform(data, ops[0]), ops[1..], t);
    }
  }
}
