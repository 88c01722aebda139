/** Published anchors and their comparison with the chain: internal/anchor/anchor.go, publish.go. */
module Anchor {
  import opened Wrappers
  import opened AuditChain
  import opened Filtering
  import opened Sorting

  datatype Kind = Rfc3161 | File | Peer | OtherKind(name: string)

  datatype Record = Record(
    throughSeq: Int64, entryHash: string, kind: Kind, target: string, anchoredAt: string,
    externalTime: Option<string>, proof: string, reference: string, error: string)
  {
    predicate OK() {
      error == ""
    }
  }

  /** Which of the four explanations a verification carries. */
  datatype Outcome = NeverPublished | Truncated | StillMatches | Rebuilt

  datatype Verification = Verification(record: Record, matches: bool, currentHash: string, outcome: Outcome)

  // ---- publishing ------------------------------------------------------------------

  datatype Target = Target(kind: Kind, ref: string)

  /** The text of an error: none of those a target can return is empty. */
  type Message = s: string | s != "" witness "error"

  /** What one target did with the checkpoint. */
  datatype Attempt =
    | Published(proof: string, externalTime: Option<string>, reference: string)
    | Failed(message: Message)

  predicate Known(k: Kind) {
    !k.OtherKind?
  }

  /** r was published for entry i of log a. */
  predicate AnchorOf(r: Record, a: seq<Entry>, i: nat) {
    i < |a| && r.OK() && r.throughSeq == a[i].seqno && r.entryHash == a[i].entryHash
  }

  /** The record of one target: of the checkpoint, and either what the target returned or why it failed. */
  predicate PublishedAs(r: Record, t: Target, a: Attempt, at: string, cp: Checkpoint) {
    r.throughSeq == cp.throughSeq && r.entryHash == cp.entryHash && r.kind == t.kind && r.target == t.ref &&
    r.anchoredAt == at &&
    if Known(t.kind) && a.Published? then
      r.error == "" && r.proof == a.proof && r.externalTime == a.externalTime && r.reference == a.reference
    else
      r.error != "" && r.proof == "" && r.externalTime == None && r.reference == "" &&
      r.error == if t.kind.OtherKind? then "unknown target kind \"" + t.kind.name + "\"" else a.message
  }

  method PublishTo(t: Target, attempt: Attempt, now: string, cp: Checkpoint) returns (rec: Record)
    ensures PublishedAs(rec, t, attempt, now, cp)
  {
    rec := Record(cp.throughSeq, cp.entryHash, t.kind, t.ref, now, None, "", "", "");
    if !Known(t.kind) {
      rec := rec.(error := "unknown target kind \"" + t.kind.name + "\"");
      assert rec.error[0] == 'u';
    } else {
      match attempt {
        case Published(proof, externalTime, reference) =>
          rec := rec.(proof := proof, externalTime := externalTime, reference := reference);
        case Failed(message) =>
          rec := rec.(error := message);
      }
    }
  }

  /** One record per target, in order. A target's record depends on that target alone. */
  method Publish(targets: seq<Target>, attempts: seq<Attempt>, now: seq<string>, cp: Checkpoint)
    returns (out: seq<Record>)
    requires |attempts| == |targets| == |now|
    ensures |out| == |targets|
    ensures forall i :: 0 <= i < |out| ==> PublishedAs(out[i], targets[i], attempts[i], now[i], cp)
  {
    out := [];
    for i := 0 to |targets|
      invariant |out| == i
      invariant forall j :: 0 <= j < i ==> PublishedAs(out[j], targets[j], attempts[j], now[j], cp)
    {
      var rec := PublishTo(targets[i], attempts[i], now[i], cp);
      out := out + [rec];
    }
  }

  /** What is published of a checkpoint of a log is an anchor of the entry it covers. */
  lemma PublishedAnchors(r: Record, t: Target, a: Attempt, at: string, cp: Checkpoint, log: seq<Entry>, n: nat)
    requires PublishedAs(r, t, a, at, cp) && r.OK() && n < |log|
    requires log[n].seqno == cp.throughSeq && log[n].entryHash == cp.entryHash
    ensures AnchorOf(r, log, n)
  {
  }

  // ---- comparing ---------------------------------------------------------------------

  /** The verification of one record against the hashes the chain reports now. */
  function Compare(a: Record, current: map<Int64, string>): Verification {
    if !a.OK() then Verification(a, false, "", NeverPublished)
    else if a.throughSeq !in current then Verification(a, false, "", Truncated)
    else if current[a.throughSeq] == a.entryHash then Verification(a, true, a.entryHash, StillMatches)
    else Verification(a, false, current[a.throughSeq], Rebuilt)
  }

  function Compared(anchors: seq<Record>, current: map<Int64, string>): (vs: seq<Verification>)
    ensures |vs| == |anchors|
  {
    seq(|anchors|, i requires 0 <= i < |anchors| => Compare(anchors[i], current))
  }

  /** What a verification says of its record, on the hashes the chain reports now. */
  predicate Explains(v: Verification, current: map<Int64, string>) {
    var r := v.record;
    if r.error != "" then !v.matches && v.currentHash == "" && v.outcome == NeverPublished
    else if r.throughSeq !in current then !v.matches && v.currentHash == "" && v.outcome == Truncated
    else
      v.currentHash == current[r.throughSeq] &&
      (v.matches <==> current[r.throughSeq] == r.entryHash) &&
      v.outcome == if v.matches then StillMatches else Rebuilt
  }

  function RecordsOf(vs: seq<Verification>): (records: seq<Record>)
    ensures |records| == |vs|
  {
    seq(|vs|, i requires 0 <= i < |vs| => vs[i].record)
  }

  function NewestFirst(): (Verification, Verification) -> bool {
    (v: Verification, w: Verification) => v.record.throughSeq >= w.record.throughSeq
  }

  /** sort.Slice promises a sorted permutation and nothing about ties; so does this contract. */
  method VerifyAgainst(anchors: seq<Record>, current: map<Int64, string>) returns (out: seq<Verification>)
    ensures multiset(out) == multiset(Compared(anchors, current))
    ensures forall v :: v in out ==> Explains(v, current)
    ensures multiset(RecordsOf(out)) == multiset(anchors)
    ensures forall i, j :: 0 <= i < j < |out| ==> out[i].record.throughSeq >= out[j].record.throughSeq
  {
    out := [];
    for i := 0 to |anchors|
      invariant out == Compared(anchors, current)[..i]
    {
      var a := anchors[i];
      var v := Verification(a, false, "", NeverPublished);
      if a.OK() {
        var present := a.throughSeq in current;
        v := v.(currentHash := if present then current[a.throughSeq] else "");
        if !present {
          v := v.(outcome := Truncated);
        } else if v.currentHash == a.entryHash {
          v := v.(matches := true, outcome := StillMatches);
        } else {
          v := v.(outcome := Rebuilt);
        }
      }
      out := out + [v];
    }
    assert out == Compared(anchors, current);
    assert RecordsOf(out) == anchors;
    RecordsSort(out);
    SortSorted(NewestFirst(), out);
    out := Sort(NewestFirst(), out);
    forall i, j | 0 <= i < j < |out| ensures out[i].record.throughSeq >= out[j].record.throughSeq {
      assert NewestFirst()(out[i], out[j]);
    }
    forall v | v in out ensures Explains(v, current) { ComparedExplains(anchors, current, v); }
  }

  lemma ComparedExplains(anchors: seq<Record>, current: map<Int64, string>, v: Verification)
    requires v in multiset(Compared(anchors, current))
    ensures Explains(v, current)
  {
    var i :| 0 <= i < |anchors| && Compare(anchors[i], current) == v;
  }

  lemma {:induction false} RecordsInsert(v: Verification, vs: seq<Verification>)
    ensures multiset(RecordsOf(Insert(NewestFirst(), v, vs))) == multiset{v.record} + multiset(RecordsOf(vs))
  {
    RecordsCons(v, vs);
    if vs != [] && !NewestFirst()(v, vs[0]) {
      RecordsInsert(v, vs[1..]);
      RecordsCons(vs[0], Insert(NewestFirst(), v, vs[1..]));
      RecordsCons(vs[0], vs[1..]);
      assert vs == [vs[0]] + vs[1..];
    }
  }

  lemma RecordsCons(v: Verification, vs: seq<Verification>)
    ensures multiset(RecordsOf([v] + vs)) == multiset{v.record} + multiset(RecordsOf(vs))
  {
    assert RecordsOf([v] + vs) == [v.record] + RecordsOf(vs);
  }

  lemma {:induction false} RecordsSort(vs: seq<Verification>)
    ensures multiset(RecordsOf(Sort(NewestFirst(), vs))) == multiset(RecordsOf(vs))
  {
    if vs != [] {
      RecordsSort(vs[1..]);
      RecordsInsert(vs[0], Sort(NewestFirst(), vs[1..]));
      RecordsCons(vs[0], vs[1..]);
      assert vs == [vs[0]] + vs[1..];
    }
  }

  // ---- summarising -----------------------------------------------------------------------

  datatype Verdict =
    | NothingAnchored
    | ChainChanged(count: nat)
    | NothingPublished
    | SomeFailed(matching: nat, failed: nat)
    | AllMatch(matching: nat)

  datatype Summary = Summary(
    total: nat, matching: nat, mismatched: nat, missing: nat, failed: nat, verdict: Verdict)

  predicate Broken(v: Verification) {
    v.record.OK() && !v.matches
  }

  predicate Holding(v: Verification) {
    v.record.OK() && v.matches
  }

  /** The four classes a verification can fall in, as the summary tells them apart. */
  datatype Class = Failing | Matching | Missing | Mismatched

  function ClassOf(v: Verification): Class {
    if !v.record.OK() then Failing
    else if v.matches then Matching
    else if v.currentHash == "" then Missing
    else Mismatched
  }

  function Of(c: Class): Verification -> bool {
    (v: Verification) => ClassOf(v) == c
  }

  /** How many verifications fall in a class. */
  function Count(vs: seq<Verification>, c: Class): nat {
    |Where(vs, Of(c))|
  }

  lemma CountSnoc(vs: seq<Verification>, v: Verification, c: Class)
    ensures Count(vs + [v], c) == Count(vs, c) + if ClassOf(v) == c then 1 else 0
  {
    WhereConcat(vs, [v], Of(c));
    assert [v][1..] == [];
  }

  lemma CountMeans(vs: seq<Verification>, c: Class)
    ensures Count(vs, c) > 0 <==> exists v :: v in vs && ClassOf(v) == c
  {
    WhereMembers(vs, Of(c));
    if Count(vs, c) > 0 { assert Where(vs, Of(c))[0] in Where(vs, Of(c)); }
  }

  lemma {:induction false} CountsAddUp(vs: seq<Verification>)
    ensures Count(vs, Failing) + Count(vs, Matching) + Count(vs, Missing) + Count(vs, Mismatched) == |vs|
  {
    if vs != [] {
      var init, v := vs[..|vs| - 1], vs[|vs| - 1];
      CountsAddUp(init);
      assert vs == init + [v];
      CountSnoc(init, v, Failing);
      CountSnoc(init, v, Matching);
      CountSnoc(init, v, Missing);
      CountSnoc(init, v, Mismatched);
    }
  }

  method Summarise(vs: seq<Verification>) returns (s: Summary)
    ensures s.failed == Count(vs, Failing) && s.matching == Count(vs, Matching)
    ensures s.missing == Count(vs, Missing) && s.mismatched == Count(vs, Mismatched)
    ensures s.total == |vs| == s.failed + s.matching + s.missing + s.mismatched
    ensures s.verdict.NothingAnchored? <==> vs == []
    ensures s.verdict.ChainChanged? <==> exists v :: v in vs && Broken(v)
    ensures s.verdict.NothingPublished? <==> vs != [] && forall v :: v in vs ==> !v.record.OK()
    ensures s.verdict.AllMatch? <==> vs != [] && forall v :: v in vs ==> Holding(v)
    ensures s.verdict.ChainChanged? ==> s.verdict.count == s.mismatched + s.missing > 0
    ensures s.verdict.SomeFailed? ==> s.verdict == SomeFailed(s.matching, s.failed) && s.failed > 0
    ensures s.verdict.AllMatch? ==> s.verdict.matching == |vs|
  {
    var matching, mismatched, missing, failed := 0, 0, 0, 0;
    for i := 0 to |vs|
      invariant failed == Count(vs[..i], Failing) && matching == Count(vs[..i], Matching)
      invariant missing == Count(vs[..i], Missing) && mismatched == Count(vs[..i], Mismatched)
    {
      var v := vs[i];
      assert vs[..i + 1] == vs[..i] + [v];
      CountSnoc(vs[..i], v, Failing);
      CountSnoc(vs[..i], v, Matching);
      CountSnoc(vs[..i], v, Missing);
      CountSnoc(vs[..i], v, Mismatched);
      if !v.record.OK() {
        failed := failed + 1;
      } else if v.matches {
        matching := matching + 1;
      } else if v.currentHash == "" {
        missing := missing + 1;
      } else {
        mismatched := mismatched + 1;
      }
    }
    assert vs[..|vs|] == vs;
    var verdict :=
      if |vs| == 0 then NothingAnchored
      else if mismatched > 0 || missing > 0 then ChainChanged(mismatched + missing)
      else if matching == 0 then NothingPublished
      else if failed > 0 then SomeFailed(matching, failed)
      else AllMatch(matching);
    CountsAddUp(vs);
    CountMeans(vs, Failing);
    CountMeans(vs, Matching);
    CountMeans(vs, Missing);
    CountMeans(vs, Mismatched);
    assert vs != [] ==> vs[0] in vs;
    s := Summary(|vs|, matching, mismatched, missing, failed, verdict);
  }

  // ---- what a comparison proves ---------------------------------------------------------------

  /** The hash the log holds at a sequence number. */
  function HashAt(log: seq<Entry>, s: Int64): Option<string> {
    if log == [] then None
    else if log[0].seqno == s then Some(log[0].entryHash)
    else HashAt(log[1..], s)
  }

  /** The hashes read back for the sequence numbers asked about (storepg ChainHashesAt). */
  function ChainHashesAt(log: seq<Entry>, seqs: set<Int64>): map<Int64, string> {
    map s | s in seqs && HashAt(log, s).Some? :: HashAt(log, s).value
  }

  lemma {:induction false} HashAtFinds(log: seq<Entry>, s: Int64, from: int)
    requires forall i :: 0 <= i < |log| ==> log[i].seqno == from + i
    ensures HashAt(log, s) == if from <= s < from + |log| then Some(log[s - from].entryHash) else None
  {
    if log != [] {
      assert log[0].seqno == from + 0;
      HashAtFinds(log[1..], s, from + 1);
    }
  }

  lemma HashAtPosition(sha: Sha, log: seq<Entry>, s: Int64)
    requires Accepted(sha, log) && |log| <= MAX_INT64
    ensures HashAt(log, s) == if 1 <= s <= |log| then Some(log[s - 1].entryHash) else None
  {
    forall i | 0 <= i < |log| ensures log[i].seqno == 1 + i { SeqnoIsPosition(sha, log, i); }
    HashAtFinds(log, s, 1);
  }

  /** Comparing an anchor of log a with an accepted log b: it matches when b begins with a's first
      i + 1 entries, and only then unless SHA-256 collided; it reads as truncated exactly when b is
      too short to hold entry i. */
  lemma AnchorProtectsPast(
    sha: Sha, a: seq<Entry>, i: nat, r: Record, b: seq<Entry>, seqs: set<Int64>)
    requires Accepted(sha, a) && Accepted(sha, b) && |a| <= MAX_INT64 && |b| <= MAX_INT64
    requires AnchorOf(r, a, i) && r.throughSeq in seqs
    ensures var v := Compare(r, ChainHashesAt(b, seqs));
      (i < |b| && a[..i + 1] == b[..i + 1] ==> v.matches) &&
      (v.matches ==> (i < |b| && a[..i + 1] == b[..i + 1]) || Clash(sha, GENESIS, a, GENESIS, b)) &&
      (v.outcome == Truncated <==> |b| <= i)
  {
    SeqnoIsPosition(sha, a, i);
    HashAtPosition(sha, b, r.throughSeq);
    if i < |b| {
      assert a[..i + 1] == b[..i + 1] ==> a[i] == a[..i + 1][i] == b[..i + 1][i] == b[i];
      if a[i].entryHash == b[i].entryHash {
        LinkedIsChained(sha, GENESIS, a);
        LinkedIsChained(sha, GENESIS, b);
        PrefixFixedByHash(sha, a, b, i, i);
      }
    }
  }

  /** So one matching anchor vouches for every anchor of an earlier entry. */
  lemma EarlierAnchorsMatch(
    sha: Sha, a: seq<Entry>, i: nat, r: Record, j: nat, earlier: Record, b: seq<Entry>, seqs: set<Int64>)
    requires Accepted(sha, a) && Accepted(sha, b) && |a| <= MAX_INT64 && |b| <= MAX_INT64
    requires AnchorOf(r, a, i) && AnchorOf(earlier, a, j) && j <= i
    requires r.throughSeq in seqs && earlier.throughSeq in seqs
    requires Compare(r, ChainHashesAt(b, seqs)).matches
    ensures Compare(earlier, ChainHashesAt(b, seqs)).matches || Clash(sha, GENESIS, a, GENESIS, b)
  {
    AnchorProtectsPast(sha, a, i, r, b, seqs);
    if !Clash(sha, GENESIS, a, GENESIS, b) {
      assert a[..j + 1] == a[..i + 1][..j + 1] == b[..i + 1][..j + 1] == b[..j + 1];
      AnchorProtectsPast(sha, a, j, earlier, b, seqs);
    }
  }

  /** Appending never breaks an anchor: honest growth is never reported. */
  lemma AnchorSurvivesAppends(
    sha: Sha, a: seq<Entry>, i: nat, r: Record, drafts: seq<Entry>, seqs: set<Int64>)
    requires Accepted(sha, a) && |a| + |drafts| <= MAX_INT64
    requires AnchorOf(r, a, i) && r.throughSeq in seqs
    ensures Compare(r, ChainHashesAt(AppendAll(sha, a, drafts), seqs)).matches
  {
    var b := AppendAll(sha, a, drafts);
    AppendsAccepted(sha, a, drafts);
    AnchorProtectsPast(sha, a, i, r, b, seqs);
  }

  // ---- the whole check ---------------------------------------------------------------------------

  function AnchoredSeqs(records: seq<Record>): set<Int64> {
    set r | r in records && r.OK() :: r.throughSeq
  }

  /** What a verification says of its record, on the log as it stands: never published; the log holds nothing at
      that sequence; it holds the anchored hash; it holds another one. */
  predicate TellsOf(v: Verification, log: seq<Entry>) {
    var r := v.record;
    if r.error != "" then v == Verification(r, false, "", NeverPublished)
    else
      match HashAt(log, r.throughSeq)
      case None => v == Verification(r, false, "", Truncated)
      case Some(hash) =>
        v.currentHash == hash && (v.matches <==> hash == r.entryHash) &&
        v.outcome == if hash == r.entryHash then StillMatches else Rebuilt
  }

  /** The log holds the anchored hash at its sequence. */
  predicate Stands(log: seq<Entry>, r: Record) {
    r.error == "" &&
    match HashAt(log, r.throughSeq)
    case None => false
    case Some(hash) => hash == r.entryHash
  }

  /** It holds another hash there, and that is not empty. */
  predicate Differs(log: seq<Entry>, r: Record) {
    r.error == "" &&
    match HashAt(log, r.throughSeq)
    case None => false
    case Some(hash) => hash != "" && hash != r.entryHash
  }

  /** It holds nothing there, or an empty hash for one that is not. */
  predicate Gone(log: seq<Entry>, r: Record) {
    r.error == "" && !Stands(log, r) && !Differs(log, r)
  }

  /** How many records are in these cases. */
  function Standing(log: seq<Entry>, records: seq<Record>): nat {
    Amount(records, (r: Record) => Stands(log, r))
  }

  function Differing(log: seq<Entry>, records: seq<Record>): nat {
    Amount(records, (r: Record) => Differs(log, r))
  }

  function Lacking(log: seq<Entry>, records: seq<Record>): nat {
    Amount(records, (r: Record) => Gone(log, r))
  }

  function Unpublished(records: seq<Record>): nat {
    Amount(records, (r: Record) => r.error != "")
  }

  function Amount(records: seq<Record>, which: Record -> bool): nat {
    |Where(records, which)|
  }

  lemma {:induction false} WherePermuted<T>(s: seq<T>, t: seq<T>, keep: T -> bool)
    requires multiset(s) == multiset(t)
    ensures |Where(s, keep)| == |Where(t, keep)|
  {
    assert |s| == |multiset(s)| == |multiset(t)| == |t|;
    if s != [] {
      assert s[0] in multiset(t);
      var i :| 0 <= i < |t| && t[i] == s[0];
      TailMultiset(s);
      WithoutOne(t, i);
      WherePermuted(s[1..], t[..i] + t[i + 1..], keep);
      WhereWithout(t, i, keep);
    }
  }

  lemma WhereWithout<T>(t: seq<T>, i: nat, keep: T -> bool)
    requires i < |t|
    ensures |Where(t, keep)| == |Where(t[..i] + t[i + 1..], keep)| + if keep(t[i]) then 1 else 0
  {
    WhereConcat(t[..i], t[i + 1..], keep);
    WhereConcat(t[..i], t[i..], keep);
    assert t == t[..i] + t[i..] && t[i..][1..] == t[i + 1..];
  }

  lemma WithoutOne<T>(t: seq<T>, i: nat)
    requires i < |t|
    ensures multiset(t[..i] + t[i + 1..]) == multiset(t) - multiset{t[i]}
  {
    assert t == t[..i] + ([t[i]] + t[i + 1..]);
  }

  lemma {:induction false} ComparedCounts(
    records: seq<Record>, current: map<Int64, string>, c: Class, which: Record -> bool)
    requires forall r :: r in records ==> (ClassOf(Compare(r, current)) == c <==> which(r))
    ensures Count(Compared(records, current), c) == Amount(records, which)
  {
    if records != [] {
      ComparedCounts(records[1..], current, c, which);
      assert Compared(records, current)[1..] == Compared(records[1..], current);
      assert records[0] in records;
    }
  }

  /** The classes of the summary, on the log. */
  lemma ClassOnLog(log: seq<Entry>, records: seq<Record>, r: Record)
    requires r in records
    ensures var v := Compare(r, ChainHashesAt(log, AnchoredSeqs(records)));
      TellsOf(v, log) &&
      match ClassOf(v)
      case Failing => r.error != ""
      case Matching => Stands(log, r)
      case Missing => Gone(log, r)
      case Mismatched => Differs(log, r)
  {
    var current := ChainHashesAt(log, AnchoredSeqs(records));
    if r.OK() {
      var s := r.throughSeq;
      assert s in AnchoredSeqs(records);
      assert s in current <==> HashAt(log, s).Some?;
      if HashAt(log, s).Some? { assert current[s] == HashAt(log, s).value; }
    }
  }

  lemma CountsOnLog(log: seq<Entry>, records: seq<Record>, vs: seq<Verification>)
    requires multiset(vs) == multiset(Compared(records, ChainHashesAt(log, AnchoredSeqs(records))))
    ensures Count(vs, Matching) == Standing(log, records) && Count(vs, Missing) == Lacking(log, records)
    ensures Count(vs, Mismatched) == Differing(log, records) && Count(vs, Failing) == Unpublished(records)
    ensures forall v :: v in vs ==> TellsOf(v, log)
  {
    var current := ChainHashesAt(log, AnchoredSeqs(records));
    forall r | r in records
      ensures ClassOf(Compare(r, current)) == Matching <==> Stands(log, r)
      ensures ClassOf(Compare(r, current)) == Missing <==> Gone(log, r)
      ensures ClassOf(Compare(r, current)) == Mismatched <==> Differs(log, r)
      ensures ClassOf(Compare(r, current)) == Failing <==> r.error != ""
      ensures TellsOf(Compare(r, current), log)
    {
      ClassOnLog(log, records, r);
    }
    CountOnLog(vs, records, current, Matching, (r: Record) => Stands(log, r));
    CountOnLog(vs, records, current, Missing, (r: Record) => Gone(log, r));
    CountOnLog(vs, records, current, Mismatched, (r: Record) => Differs(log, r));
    CountOnLog(vs, records, current, Failing, (r: Record) => r.error != "");
    SameElements(vs, records, current);
  }

  lemma CountOnLog(
    vs: seq<Verification>, records: seq<Record>, current: map<Int64, string>, c: Class, which: Record -> bool)
    requires multiset(vs) == multiset(Compared(records, current))
    requires forall r :: r in records ==> (ClassOf(Compare(r, current)) == c <==> which(r))
    ensures Count(vs, c) == Amount(records, which)
  {
    WherePermuted(vs, Compared(records, current), Of(c));
    ComparedCounts(records, current, c, which);
  }

  /** The hash a log holds at a sequence is that of the entry with this number. */
  lemma {:induction false} HashAtMeans(log: seq<Entry>, s: Int64)
    requires forall i, j :: 0 <= i < j < |log| ==> log[i].seqno != log[j].seqno
    ensures forall h :: HashAt(log, s) == Some(h) <==> exists e :: e in log && e.seqno == s && e.entryHash == h
    ensures HashAt(log, s) == None <==> forall e :: e in log ==> e.seqno != s
  {
    if log != [] {
      HashAtMeans(log[1..], s);
      assert forall e :: e in log <==> e == log[0] || e in log[1..];
      assert log[0].seqno == s ==> forall e :: e in log[1..] ==> e.seqno != s;
    }
  }

  /** In a log without empty hashes, as an accepted one is, a record is counted as missing exactly when the log
      does not hold its sequence, and as mismatched exactly when it holds it under another hash. With an empty
      hash in the log a rebuilt entry is counted as missing instead. */
  lemma CountedAs(log: seq<Entry>, r: Record)
    requires forall i, j :: 0 <= i < j < |log| ==> log[i].seqno != log[j].seqno
    requires r.error == ""
    ensures Stands(log, r) <==> exists e :: e in log && e.seqno == r.throughSeq && e.entryHash == r.entryHash
    ensures Gone(log, r) <==>
      (forall e :: e in log ==> e.seqno != r.throughSeq) ||
      (r.entryHash != "" && exists e :: e in log && e.seqno == r.throughSeq && e.entryHash == "")
    ensures Differs(log, r) <==>
      exists e :: e in log && e.seqno == r.throughSeq && e.entryHash != "" && e.entryHash != r.entryHash
  {
    HashAtMeans(log, r.throughSeq);
    var found := HashAt(log, r.throughSeq);
    if found.Some? {
      var e :| e in log && e.seqno == r.throughSeq && e.entryHash == found.value;
      forall f | f in log && f.seqno == r.throughSeq ensures f.entryHash == found.value {
        assert HashAt(log, r.throughSeq) == Some(f.entryHash);
      }
    }
  }

  /** storepg VerifyAnchors: every stored anchor against the chain as it stands. */
  method VerifyAnchors(log: seq<Entry>, records: seq<Record>)
    returns (vs: seq<Verification>, summary: Summary)
    ensures multiset(RecordsOf(vs)) == multiset(records) && forall v :: v in vs ==> TellsOf(v, log)
    ensures forall i, j :: 0 <= i < j < |vs| ==> vs[i].record.throughSeq >= vs[j].record.throughSeq
    ensures summary.matching == Standing(log, records) && summary.missing == Lacking(log, records)
    ensures summary.mismatched == Differing(log, records) && summary.failed == Unpublished(records)
    ensures multiset(vs) == multiset(Compared(records, ChainHashesAt(log, AnchoredSeqs(records))))
    ensures summary.verdict.ChainChanged? <==>
      exists r :: r in records && r.OK() && !Compare(r, ChainHashesAt(log, AnchoredSeqs(records))).matches
    ensures summary.verdict.AllMatch? <==> records != [] && forall r :: r in records ==>
      r.OK() && Compare(r, ChainHashesAt(log, AnchoredSeqs(records))).matches
  {
    var current := ChainHashesAt(log, AnchoredSeqs(records));
    vs := VerifyAgainst(records, current);
    SameElements(vs, records, current);
    CountsOnLog(log, records, vs);
    summary := Summarise(vs);
  }

  lemma SameElements(vs: seq<Verification>, records: seq<Record>, current: map<Int64, string>)
    requires multiset(vs) == multiset(Compared(records, current))
    ensures vs == [] <==> records == []
    ensures forall v :: v in vs ==> v.record in records && v == Compare(v.record, current)
    ensures forall r :: r in records ==> Compare(r, current) in vs
  {
    var cs := Compared(records, current);
    assert |vs| == |multiset(vs)| == |multiset(cs)| == |cs|;
    forall v | v in vs ensures v.record in records && v == Compare(v.record, current) {
      assert v in multiset(cs);
      var i :| 0 <= i < |cs| && cs[i] == v;
    }
    forall r | r in records ensures Compare(r, current) in vs {
      var i :| 0 <= i < |records| && records[i] == r;
      assert cs[i] in multiset(vs);
    }
  }

  /** Every record's anchored prefix of a stands at the start of b. */
  ghost predicate PrefixesStand(a: seq<Entry>, at: seq<nat>, b: seq<Entry>) {
    forall k :: 0 <= k < |at| ==> at[k] < |a| && at[k] < |b| && a[..at[k] + 1] == b[..at[k] + 1]
  }

  ghost predicate AllRecordsMatch(records: seq<Record>, current: map<Int64, string>) {
    forall k :: 0 <= k < |records| ==> Compare(records[k], current).matches
  }

  /** A clean bill of health means what it says: with record k an anchor of entry at[k] of log a, all
      records match on log b when every anchored prefix of a stands at the start of b, and only then
      unless SHA-256 collided. */
  lemma AllMatchMeansUnchanged(sha: Sha, a: seq<Entry>, b: seq<Entry>, records: seq<Record>, at: seq<nat>)
    requires Accepted(sha, a) && Accepted(sha, b) && |a| <= MAX_INT64 && |b| <= MAX_INT64
    requires |at| == |records| && forall k :: 0 <= k < |at| ==> AnchorOf(records[k], a, at[k])
    ensures var all := AllRecordsMatch(records, ChainHashesAt(b, AnchoredSeqs(records)));
      (PrefixesStand(a, at, b) ==> all) &&
      (all ==> PrefixesStand(a, at, b) || Clash(sha, GENESIS, a, GENESIS, b))
  {
    forall k | 0 <= k < |at|
      ensures var m := Compare(records[k], ChainHashesAt(b, AnchoredSeqs(records))).matches;
        var stands := at[k] < |b| && a[..at[k] + 1] == b[..at[k] + 1];
        (stands ==> m) && (m ==> stands || Clash(sha, GENESIS, a, GENESIS, b))
    {
      assert AnchorOf(records[k], a, at[k]);
      AnchorProtectsPast(sha, a, at[k], records[k], b, AnchoredSeqs(records));
    }
  }
}
