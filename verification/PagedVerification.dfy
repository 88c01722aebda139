/** Verification of the stored audit log page by page: ListAuditChain and VerifyAuditChain of
    internal/storepg/store.go. */
module PagedVerification {
  import opened Wrappers
  import opened Filtering
  import opened AuditChain

  const PAGE := 1000

  /** The chained rows in sequence order; a unique index keeps their numbers apart. */
  ghost predicate Ordered(table: seq<Entry>) {
    forall i, j :: 0 <= i < j < |table| ==> table[i].seqno < table[j].seqno
  }

  function AtLeast(s: int): Entry -> bool {
    (e: Entry) => e.seqno >= s
  }

  /** ListAuditChain without its limit. */
  function Since(table: seq<Entry>, s: int): seq<Entry> {
    Where(table, AtLeast(s))
  }

  /** Row n is the first of a page. */
  predicate StartsPage(n: nat) {
    n % 1000 == 0
  }

  lemma FullPages(n: nat)
    requires StartsPage(n)
    ensures StartsPage(n + PAGE)
  {
  }

  /** What paging finds wrong with row i: the first row of a page is not held against the sequence number
      before it. */
  function PagedFault(sha: Sha, rows: seq<Entry>, i: nat): Option<Reason>
    requires i < |rows|
  {
    if !StartsPage(i) then Fault(sha, GENESIS, rows, i)
    else if rows[i].prevHash != PrevAt(GENESIS, rows, i) then Some(PrevHashMismatch)
    else if rows[i].entryHash != ComputeHash(sha, PrevAt(GENESIS, rows, i), rows[i]) then Some(EntryHashMismatch)
    else None
  }

  /** No row before n has a paged fault. */
  ghost predicate Faultless(sha: Sha, rows: seq<Entry>, n: nat)
    requires n <= |rows|
  {
    forall i :: 0 <= i < n ==> PagedFault(sha, rows, i).None?
  }

  ghost predicate PagesAccepted(sha: Sha, rows: seq<Entry>) {
    rows != [] ==> rows[0].seqno == 1 && Faultless(sha, rows, |rows|)
  }

  /** The error names row i, the first that paging faults. */
  ghost predicate PagedStop(sha: Sha, rows: seq<Entry>, i: nat, err: Error) {
    i < |rows| && PagedFault(sha, rows, i).Some? && err == TamperAt(rows[i], PagedFault(sha, rows, i).value) &&
    Faultless(sha, rows, i)
  }

  /** The log does not start at 1, or the error names the first row that paging faults. */
  ghost predicate Rejected(sha: Sha, rows: seq<Entry>, err: Error) {
    rows != [] &&
    if rows[0].seqno != 1 then err == TamperAt(rows[0], NotAtOne) else exists i: nat :: PagedStop(sha, rows, i, err)
  }

  /** Verifying one page is looking for the paged faults of its rows. */
  lemma FaultInPage(sha: Sha, rows: seq<Entry>, p: nat, page: seq<Entry>, k: nat)
    requires StartsPage(p) && |page| <= PAGE && p + |page| <= |rows| && page == rows[p..p + |page|] && k < |page|
    ensures Fault(sha, PrevAt(GENESIS, rows, p), page, k) == PagedFault(sha, rows, p + k)
  {
    assert page[k] == rows[p + k];
    assert StartsPage(p + k) <==> k == 0;
    if k > 0 { assert page[k - 1] == rows[p + k - 1]; }
  }

  lemma PageFaults(sha: Sha, rows: seq<Entry>, p: nat, page: seq<Entry>)
    requires StartsPage(p) && |page| <= PAGE && p + |page| <= |rows| && page == rows[p..p + |page|]
    requires Faultless(sha, rows, p)
    ensures Linked(sha, PrevAt(GENESIS, rows, p), page) <==> Faultless(sha, rows, p + |page|)
  {
    if Linked(sha, PrevAt(GENESIS, rows, p), page) { FaultlessUpTo(sha, rows, p, page, |page|); }
    if Faultless(sha, rows, p + |page|) {
      forall k | 0 <= k < |page| ensures Fault(sha, PrevAt(GENESIS, rows, p), page, k).None? {
        FaultInPage(sha, rows, p, page, k);
      }
    }
  }

  lemma PageStops(sha: Sha, rows: seq<Entry>, p: nat, page: seq<Entry>, i: nat, err: Error)
    requires StartsPage(p) && |page| <= PAGE && p + |page| <= |rows| && page == rows[p..p + |page|]
    requires Faultless(sha, rows, p) && StopsAt(sha, PrevAt(GENESIS, rows, p), page, i, err)
    ensures PagedStop(sha, rows, p + i, err)
  {
    FaultInPage(sha, rows, p, page, i);
    assert page[i] == rows[p + i];
    FaultlessUpTo(sha, rows, p, page, i);
  }

  lemma {:induction false} FaultlessUpTo(sha: Sha, rows: seq<Entry>, p: nat, page: seq<Entry>, i: nat)
    requires StartsPage(p) && |page| <= PAGE && p + |page| <= |rows| && page == rows[p..p + |page|] && i <= |page|
    requires Faultless(sha, rows, p)
    requires forall k :: 0 <= k < i ==> Fault(sha, PrevAt(GENESIS, rows, p), page, k).None?
    ensures Faultless(sha, rows, p + i)
  {
    if i > 0 {
      FaultlessUpTo(sha, rows, p, page, i - 1);
      FaultInPage(sha, rows, p, page, i - 1);
      FaultlessSnoc(sha, rows, p + i - 1);
    }
  }

  lemma FaultlessSnoc(sha: Sha, rows: seq<Entry>, n: nat)
    requires n < |rows| && Faultless(sha, rows, n) && PagedFault(sha, rows, n).None?
    ensures Faultless(sha, rows, n + 1)
  {
  }

  /** What is asked for next begins the rows after the first n, and is all of them if it does not fill a page. */
  ghost predicate Follows(found: seq<Entry>, rows: seq<Entry>, n: nat) {
    n <= |rows| && found <= rows[n..] && (|found| < PAGE ==> found == rows[n..])
  }

  /** The page after the first n rows; one that is not full is the last. */
  method ListAuditChain(table: seq<Entry>, fromSeq: int, ghost rows: seq<Entry>, ghost n: nat)
    returns (page: seq<Entry>)
    requires Follows(Since(table, fromSeq), rows, n)
    ensures n + |page| <= |rows| && page == rows[n..n + |page|] && |page| <= PAGE
    ensures |page| < PAGE ==> n + |page| == |rows|
  {
    var found := Since(table, fromSeq);
    page := if |found| <= PAGE then found else found[..PAGE];
    assert page == rows[n..][..|page|];
  }

  /** The rows verified when n of them have been asked for in full pages. */
  method VerifyPage(sha: Sha, prevHash: string, entries: seq<Entry>, ghost rows: seq<Entry>, ghost n: nat)
    returns (err: Option<Error>)
    requires StartsPage(n) && |entries| <= PAGE && n + |entries| <= |rows| && entries == rows[n..n + |entries|]
    requires Faultless(sha, rows, n) && prevHash == PrevAt(GENESIS, rows, n)
    ensures err.None? <==> Faultless(sha, rows, n + |entries|)
    ensures err.Some? ==> exists i: nat :: PagedStop(sha, rows, i, err.value)
  {
    PageFaults(sha, rows, n, entries);
    err := VerifyFrom(sha, prevHash, entries);
    if err.Some? {
      ghost var i: nat :| StopsAt(sha, prevHash, entries, i, err.value);
      PageStops(sha, rows, n, entries, i, err.value);
    }
  }

  /** Asking for what follows a row gives the rows after it. */
  lemma {:induction false} SinceDrops(rows: seq<Entry>, n: nat, s: int)
    requires Ordered(rows) && n <= |rows|
    requires forall i :: 0 <= i < n ==> rows[i].seqno < s
    requires forall i :: n <= i < |rows| ==> rows[i].seqno >= s
    ensures Since(rows, s) == rows[n..]
  {
    assert rows == rows[..n] + rows[n..];
    WhereConcat(rows[..n], rows[n..], AtLeast(s));
    forall x | x in rows[..n] ensures !AtLeast(s)(x) {}
    forall x | x in rows[n..] ensures AtLeast(s)(x) {}
    WhereNone(rows[..n], AtLeast(s));
    WhereAll(rows[n..], AtLeast(s));
    assert [] + rows[n..] == rows[n..];
  }

  lemma {:induction false} SinceSince(table: seq<Entry>, s: int, t: int)
    requires s <= t
    ensures Since(Since(table, s), t) == Since(table, t)
  {
    if table != [] {
      SinceSince(table[1..], s, t);
      var rest := Since(table[1..], s);
      if table[0].seqno >= s {
        assert ([table[0]] + rest)[1..] == rest;
      } else {
        assert [] + rest == rest && [] + Since(table[1..], t) == Since(table[1..], t);
      }
    }
  }

  lemma SinceOrdered(table: seq<Entry>, s: int)
    requires Ordered(table)
    ensures Ordered(Since(table, s))
  {
    var at := WhereSelects(table, AtLeast(s));
    var rows := Since(table, s);
    forall i, j | 0 <= i < j < |rows| ensures rows[i].seqno < rows[j].seqno { assert at[i] < at[j]; }
  }

  /** The next page starts where the last one ended. */
  lemma NextPage(table: seq<Entry>, n: nat)
    requires Ordered(table) && 0 < n <= |Since(table, 1)|
    ensures Since(table, Since(table, 1)[n - 1].seqno + 1) == Since(table, 1)[n..]
    ensures Since(table, 1)[n - 1] in table
  {
    var rows := Since(table, 1);
    SinceOrdered(table, 1);
    WhereMembers(table, AtLeast(1));
    assert rows[n - 1] in rows;
    assert AtLeast(1)(rows[n - 1]);
    SinceDrops(rows, n, rows[n - 1].seqno + 1);
    SinceSince(table, 1, rows[n - 1].seqno + 1);
  }

  // ---- the loop ----------------------------------------------------------------------------

  /** The rows fill their last page and end in the largest number, so the next page's start wraps and the whole
      table is asked for again. */
  predicate Wraps(rows: seq<Entry>) {
    rows != [] && StartsPage(|rows|) && rows[|rows| - 1].seqno == MAX_INT64
  }

  /** The rows in the order in which they are asked for. */
  function Stream(table: seq<Entry>): seq<Entry> {
    var rows := Since(table, 1);
    if Wraps(rows) then rows + table else rows
  }

  /** What is still asked for after n rows of the stream. */
  function Upcoming(table: seq<Entry>, n: nat): seq<Entry>
    requires n <= |Stream(table)|
  {
    var rows := Since(table, 1);
    if Wraps(rows) && n >= |rows| then table[n - |rows|..] else rows[n..]
  }

  lemma UpcomingFollows(table: seq<Entry>, n: nat)
    requires n <= |Stream(table)| && StartsPage(n)
    ensures Follows(Upcoming(table, n), Stream(table), n)
  {
    var rows := Since(table, 1);
    if Wraps(rows) && n < |rows| {
      PagesBetween(n, |rows|);
      assert (rows + table)[n..] == rows[n..] + table;
    }
  }

  lemma PagesBetween(n: nat, m: nat)
    requires StartsPage(n) && StartsPage(m) && n < m
    ensures n + PAGE <= m
  {
  }

  /** Where the loop stands after n rows in full pages, all of them without a fault. */
  ghost predicate AtPage(sha: Sha, table: seq<Entry>, prevHash: string, fromSeq: Int64, n: nat) {
    var rows := Stream(table);
    n <= |rows| && StartsPage(n) && Since(table, fromSeq) == Upcoming(table, n) &&
    prevHash == PrevAt(GENESIS, rows, n) && (n > 0 ==> rows[0].seqno == 1) && Faultless(sha, rows, n)
  }

  lemma SinceLeast(table: seq<Entry>)
    ensures Since(table, -0x8000_0000_0000_0000) == table
  {
    WhereAll(table, AtLeast(-0x8000_0000_0000_0000));
  }

  /** The number of rows below 1, which come first. */
  lemma {:induction false} RowsBelow(table: seq<Entry>) returns (k: nat)
    requires Ordered(table)
    ensures k <= |table| && Since(table, 1) == table[k..] && forall i :: 0 <= i < k ==> table[i].seqno < 1
  {
    k := 0;
    while k < |table| && table[k].seqno < 1
      invariant k <= |table| && forall i :: 0 <= i < k ==> table[i].seqno < 1
    {
      k := k + 1;
    }
    SinceDrops(table, k, 1);
  }

  /** Row 1 has no previous hash, so it is faulty behind any row that has none itself. */
  lemma SecondPassFails(sha: Sha, table: seq<Entry>, n: nat)
    requires Ordered(table) && Wraps(Since(table, 1)) && n <= |Stream(table)| && Faultless(sha, Stream(table), n)
    ensures n > |Since(table, 1)| ==> forall i :: 0 <= i < n - |Since(table, 1)| ==> table[i].seqno < 1
  {
    var rows, stream := Since(table, 1), Stream(table);
    var k := RowsBelow(table);
    var m := |rows| + k;
    if n > m {
      assert stream[m] == table[k] == rows[0] == stream[0];
      FirstRowAgain(sha, stream, m);
    }
  }

  lemma FirstRowAgain(sha: Sha, rows: seq<Entry>, m: nat)
    requires 0 < m < |rows| && rows[m] == rows[0] && Faultless(sha, rows, m)
    ensures PagedFault(sha, rows, m).Some?
  {
    assert PagedFault(sha, rows, 0).None? && PagedFault(sha, rows, m - 1).None?;
    HashNotEmpty(sha, PrevAt(GENESIS, rows, m - 1), rows[m - 1]);
  }

  lemma HashNotEmpty(sha: Sha, prev: string, e: Entry)
    ensures ComputeHash(sha, prev, e) != GENESIS
  {
  }

  /** So a log that wraps is not accepted. */
  lemma WrapIsRejected(sha: Sha, table: seq<Entry>)
    requires Ordered(table)
    ensures PagesAccepted(sha, Stream(table)) <==> PagesAccepted(sha, Since(table, 1)) && !Wraps(Since(table, 1))
  {
    if Wraps(Since(table, 1)) && PagesAccepted(sha, Stream(table)) {
      var k := RowsBelow(table);
      SecondPassFails(sha, table, |Stream(table)|);
    }
  }

  lemma PageDone(sha: Sha, table: seq<Entry>, prevHash: string, fromSeq: Int64, n: nat, page: seq<Entry>)
    requires Ordered(table) && AtPage(sha, table, prevHash, fromSeq, n)
    requires var rows := Stream(table);
      |page| == PAGE && n + PAGE <= |rows| && page == rows[n..n + PAGE] && rows[0].seqno == 1 &&
      Faultless(sha, rows, n + PAGE)
    ensures AtPage(sha, table, page[PAGE - 1].entryHash, Succ(page[PAGE - 1].seqno), n + PAGE)
  {
    assert page[PAGE - 1] == Stream(table)[n + PAGE - 1];
    FullPages(n);
    NextAsked(sha, table, n + PAGE);
  }

  /** After a full page what is asked for next is what is upcoming. */
  lemma NextAsked(sha: Sha, table: seq<Entry>, n: nat)
    requires Ordered(table) && 0 < n <= |Stream(table)| && StartsPage(n) && Faultless(sha, Stream(table), n)
    ensures Since(table, Succ(Stream(table)[n - 1].seqno)) == Upcoming(table, n)
  {
    var rows, stream := Since(table, 1), Stream(table);
    if n <= |rows| {
      assert stream[n - 1] == rows[n - 1];
      if rows[n - 1].seqno == MAX_INT64 {
        RowsRise(table, n);
        SinceLeast(table);
      } else {
        NextPage(table, n);
      }
    } else {
      var m := n - |rows|;
      SecondPassFails(sha, table, n);
      assert stream[n - 1] == table[m - 1];
      SinceDrops(table, m, table[m - 1].seqno + 1);
    }
  }

  lemma RowsRise(table: seq<Entry>, n: nat)
    requires Ordered(table) && 0 < n <= |Since(table, 1)|
    ensures n < |Since(table, 1)| ==> Since(table, 1)[n - 1].seqno < Since(table, 1)[n].seqno
  {
    SinceOrdered(table, 1);
  }

  lemma AtStart(sha: Sha, table: seq<Entry>)
    ensures AtPage(sha, table, GENESIS, 1, 0)
  {
  }

  /** One turn of the loop. After a full page without a fault it goes on; otherwise the verdict stands. */
  method VerifyNext(sha: Sha, table: seq<Entry>, prevHash: string, fromSeq: Int64, n: nat)
    returns (entries: seq<Entry>, err: Option<Error>)
    requires Ordered(table) && AtPage(sha, table, prevHash, fromSeq, n)
    ensures err.Some? ==> Rejected(sha, Stream(table), err.value) && !PagesAccepted(sha, Stream(table))
    ensures err.None? && |entries| < PAGE ==> PagesAccepted(sha, Stream(table))
    ensures err.None? && |entries| >= PAGE ==>
      |entries| == PAGE <= |Stream(table)| - n &&
      AtPage(sha, table, entries[PAGE - 1].entryHash, Succ(entries[PAGE - 1].seqno), n + PAGE)
  {
    ghost var rows := Stream(table);
    UpcomingFollows(table, n);
    entries := ListAuditChain(table, fromSeq, rows, n);
    if |entries| == 0 {
      return entries, None;
    }
    if n == 0 && entries[0].seqno != 1 {
      return entries, Some(TamperAt(entries[0], NotAtOne));
    }
    assert rows[0].seqno == 1;
    err := VerifyPage(sha, prevHash, entries, rows, n);
    if err.None? && |entries| == PAGE {
      PageDone(sha, table, prevHash, fromSeq, n, entries);
    }
  }

  /** The rows numbered from 1 on are accepted exactly when the first is number 1, no row has a paged fault and
      the next page's start does not wrap; otherwise the error names the first row that has one, of those rows
      or, after a wrap, of the table asked for again behind them. */
  method VerifyAuditChain(sha: Sha, table: seq<Entry>) returns (err: Option<Error>)
    requires Ordered(table)
    ensures err.None? <==> PagesAccepted(sha, Since(table, 1)) && !Wraps(Since(table, 1))
    ensures err.Some? ==> Rejected(sha, Stream(table), err.value)
  {
    var prevHash, fromSeq: Int64, seen := GENESIS, 1, 0;
    ghost var left := |Stream(table)|;
    WrapIsRejected(sha, table);
    AtStart(sha, table);
    while true
      invariant 0 <= seen && AtPage(sha, table, prevHash, fromSeq, seen)
      invariant left == |Stream(table)| - seen
      decreases left
    {
      var entries;
      entries, err := VerifyNext(sha, table, prevHash, fromSeq, seen);
      if err.Some? || |entries| < PAGE {
        return;
      }
      assert |entries| == PAGE;
      var last := entries[|entries| - 1];
      prevHash, fromSeq, seen := last.entryHash, Succ(last.seqno), seen + PAGE;
      left := left - PAGE;
    }
  }

  /** A page boundary at which the sequence numbers join up. */
  predicate JoinsAt(rows: seq<Entry>, i: nat)
    requires 0 < i < |rows|
  {
    rows[i].seqno == Succ(rows[i - 1].seqno)
  }

  /** Paging accepts what verification of the whole log accepts, and exactly the logs besides whose
      sequence numbers jump at page boundaries only. */
  lemma PagingMeans(sha: Sha, rows: seq<Entry>)
    ensures Accepted(sha, rows) <==>
      PagesAccepted(sha, rows) && forall i :: 0 < i < |rows| && StartsPage(i) ==> JoinsAt(rows, i)
  {
    forall i | 0 <= i < |rows|
      ensures Fault(sha, GENESIS, rows, i).None? <==>
        PagedFault(sha, rows, i).None? && (i > 0 && StartsPage(i) ==> JoinsAt(rows, i))
    {
    }
  }

  lemma PagesAreChained(sha: Sha, rows: seq<Entry>)
    requires PagesAccepted(sha, rows)
    ensures Chained(sha, GENESIS, rows)
  {
    forall i | 0 <= i < |rows| ensures Hashes(sha, GENESIS, rows, i) { assert PagedFault(sha, rows, i).None?; }
  }

  /** What paging does not look at cannot be used to change a log whose last hash is known: two logs that
      pass page by page and end in one hash are the same, or SHA-256 collided on two strings they hash. */
  lemma PagedTamperEvidence(sha: Sha, a: seq<Entry>, b: seq<Entry>)
    requires a != [] && b != [] && PagesAccepted(sha, a) && PagesAccepted(sha, b)
    requires a[|a| - 1].entryHash == b[|b| - 1].entryHash
    ensures a == b || Clash(sha, GENESIS, a, GENESIS, b)
  {
    PagesAreChained(sha, a);
    PagesAreChained(sha, b);
    ChainFixedByLastHash(sha, a, b);
  }

  /** Such logs exist: after full pages an entry linked to the last hash passes whatever its number, and the
      whole log is accepted only with the next one. */
  lemma BoundaryJump(sha: Sha, log: seq<Entry>, draft: Entry)
    requires Accepted(sha, log) && log != [] && StartsPage(|log|)
    ensures var longer := log + [Link(sha, LastHash(GENESIS, log), draft)];
      PagesAccepted(sha, longer) && (Accepted(sha, longer) <==> draft.seqno == Succ(log[|log| - 1].seqno))
  {
    var e := Link(sha, LastHash(GENESIS, log), draft);
    var longer := log + [e];
    LinkedConcat(sha, GENESIS, log, [e]);
    assert Fault(sha, LastHash(GENESIS, log), [e], 0).None?;
    PagingMeans(sha, log);
    forall i | 0 <= i < |longer| ensures PagedFault(sha, longer, i).None? {
      if i < |log| { assert PagedFault(sha, longer, i) == PagedFault(sha, log, i); }
    }
  }
}
