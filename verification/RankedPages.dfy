/** The ranked exposure list as the database keeps it, internal/storepg/exposure.go: what it lists, the six
    sort keys, and its keyset pages. */
module RankedPages {
  import opened Wrappers
  import opened Text
  import opened Sorting
  import opened Filtering
  import opened ExposureRank
  import opened ControlPlaneRank

  // ---- what the list holds ---------------------------------------------------------------

  type RankingSeverity = s: Severity | s != Unknown witness Low
  type Probability = x: real | 0.0 <= x <= 1.0
  type BaseScore = x: real | 0.0 <= x <= 10.0

  /** Days since 1970-01-01, up to 9999-12-31. */
  type Day = d: int | 0 < d < 2932897 witness 1

  /** What the tables hold, a group of findings of one advisory counted as one. A surface finding without a
      ranking severity is informational. */
  datatype Finding =
    | SurfaceFinding(key: string, ranks: Option<RankingSeverity>)
    | IdentityFinding(key: string, severity: RankingSeverity)
    | RepoGroup(key: string, high: bool)
    | EolGroup(key: string, ended: bool)
    | VulnerabilityGroup(
        key: string, worst: Severity, kev: bool, kevAdded: Option<Day>, epss: Option<Probability>,
        cvss: Option<BaseScore>)

  /** A row of the query's union. */
  datatype Columns = Columns(
    advisoryId: string, severity: Severity, kev: bool, kevAdded: Option<Day>, epss: Option<real>, cvss: Option<real>,
    eol: Option<Stage>, repo: bool, source: Source)

  /** The row of a finding, unless the list leaves it out. */
  function Select(f: Finding): Option<Columns> {
    match f
    case SurfaceFinding(key, ranks) =>
      if ranks.None? then None
      else Some(Columns(key, ranks.value, false, None, None, None, None, false, Surface))
    case IdentityFinding(key, severity) => Some(Columns(key, severity, false, None, None, None, None, false, Identity))
    case RepoGroup(key, high) =>
      Some(Columns(key, if high then High else Medium, false, None, None, None, None, true, Vulnerability))
    case EolGroup(key, ended) =>
      Some(Columns(key, if ended then High else Low, false, None, None, None, Some(if ended then Eol else Eoas), false,
        Vulnerability))
    case VulnerabilityGroup(key, worst, kev, kevAdded, epss, cvss) =>
      Some(Columns(key, worst, kev, kevAdded, epss, cvss, None, false, Vulnerability))
  }

  /** A row that some finding gives. */
  ghost predicate Listed(c: Columns) {
    exists f :: Select(f) == Some(c)
  }

  /** The row as the console receives it; date is the YYYY-MM-DD text of a day. */
  function RowOf(c: Columns, date: Day -> string): Rankable {
    Rankable(c.advisoryId, c.severity, c.kev, if c.kev && c.kevAdded.Some? then Some(date(c.kevAdded.value)) else None,
      c.epss, c.cvss, c.eol, c.repo, c.source)
  }

  function RowsOf(list: seq<Columns>, date: Day -> string): (rows: seq<Rankable>)
    ensures |rows| == |list| && forall i :: 0 <= i < |list| ==> rows[i] == RowOf(list[i], date)
  {
    seq(|list|, i requires 0 <= i < |list| => RowOf(list[i], date))
  }

  ghost predicate InOrder(date: Day -> string) {
    forall d: Day, e: Day :: d < e ==> Less(date(d), date(e))
  }

  /** The block in which a stored finding is ranked, and the score it is ranked by there. */
  lemma StoredBlocks(f: Finding, c: Columns, date: Day -> string)
    requires Select(f) == Some(c)
    ensures var g := RowOf(c, date);
      var score := Effective(g).cvss;
      match f
      case SurfaceFinding(_, ranks) => Scored(g, score, ranks.value)
      case IdentityFinding(_, severity) => Scored(g, score, severity)
      case RepoGroup(_, high) => Scored(g, score, if high then High else Medium)
      case EolGroup(_, ended) => BlockOf(g) == (if ended then 1 else 3) && score == Some(if ended then 8.0 else 2.0)
      case VulnerabilityGroup(_, _, kev, _, epss, cvss) =>
        BlockOf(g) == (if kev then 0 else if epss.Some? then 2 else 3) &&
        (score.Some? <==> cvss.Some?) && (score.Some? ==> score.value == cvss.value)
  {
  }

  /** Critical and high findings are urgent, the others are not. */
  predicate Scored(g: Rankable, score: Option<real>, s: Severity) {
    match s
    case Critical => BlockOf(g) == 1 && score == Some(9.5)
    case High => BlockOf(g) == 1 && score == Some(8.0)
    case Medium => BlockOf(g) == 3 && score == Some(5.0)
    case Low => BlockOf(g) == 3 && score == Some(2.0)
    case Unknown => false
  }

  /** No listed row lacks the severity it ranks by. */
  lemma ListedIsScored(c: Columns, date: Day -> string)
    requires Listed(c)
    ensures !Unscored(RowOf(c, date))
  {
  }

  /** So the console's check mirrors the control plane's order on whatever the list holds. */
  lemma CheckMirrorsRanking(list: seq<Columns>, date: Day -> string)
    requires forall c :: c in list ==> Listed(c)
    ensures Sorted(NotAfter(), RowsOf(list, date)) <==> Sorted(NotAfterItem(), RowsOf(list, date))
  {
    var rows := RowsOf(list, date);
    forall g | g in rows ensures !Unscored(g) {
      var i :| 0 <= i < |rows| && rows[i] == g;
      ListedIsScored(list[i], date);
    }
    SameRanking(rows);
  }

  // ---- the sort keys ---------------------------------------------------------------------

  datatype Keys = Keys(k1: int, k2: int, k3: real, k4: real, k5: int, k6: string)

  function LabelScore(s: Severity): real {
    match s
    case Critical => 9.5
    case High => 8.0
    case Medium => 5.0
    case _ => 2.0
  }

  function LabelKey(s: Severity): int {
    match s
    case Critical => 0
    case High => 1
    case Medium => 2
    case Low => 3
    case _ => 4
  }

  function Digit(c: Columns): char {
    if c.source == Surface then '4'
    else if c.source == Identity then '3'
    else if c.repo then '2'
    else if c.eol == Some(Eol) || c.eol == Some(Eoas) then '1'
    else '0'
  }

  function KeysOf(c: Columns): Keys {
    var urgent := if c.severity == Critical || c.severity == High then 1 else 2;
    var bySeverity := c.source == Surface || c.source == Identity || c.repo;
    Keys(
      if bySeverity then urgent
      else if c.eol == Some(Eol) then 1
      else if c.eol == Some(Eoas) then 2
      else if c.kev then 0 else 2,
      if c.source == Vulnerability && c.kev && c.kevAdded.Some? then 0 - c.kevAdded.value else 0,
      if c.epss.Some? then -c.epss.value else 1.0,
      if bySeverity then -LabelScore(c.severity)
      else if c.eol == Some(Eol) then -8.0
      else if c.eol == Some(Eoas) then -2.0
      else if c.cvss.Some? then -c.cvss.value else 1.0,
      LabelKey(c.severity),
      [Digit(c)] + c.advisoryId)
  }

  /** A row comparison of the keys. */
  predicate KeysLess(a: Keys, b: Keys) {
    a.k1 < b.k1 || (a.k1 == b.k1 && (
    a.k2 < b.k2 || (a.k2 == b.k2 && (
    a.k3 < b.k3 || (a.k3 == b.k3 && (
    a.k4 < b.k4 || (a.k4 == b.k4 && (
    a.k5 < b.k5 || (a.k5 == b.k5 && Less(a.k6, b.k6))))))))))
  }

  lemma TieText(a: Columns, b: Columns)
    ensures var s, t := [Digit(a)] + a.advisoryId, [Digit(b)] + b.advisoryId;
      Less(s, t) <==> Digit(a) < Digit(b) || (Digit(a) == Digit(b) && Less(a.advisoryId, b.advisoryId))
  {
    var s, t := [Digit(a)] + a.advisoryId, [Digit(b)] + b.advisoryId;
    assert s[1..] == a.advisoryId && t[1..] == b.advisoryId;
  }

  function ScoreKey(score: Option<real>): real {
    if score.Some? then -score.value else 1.0
  }

  function DateKey(added: Option<Day>): int {
    if added.Some? then 0 - added.value else 0
  }

  predicate AtLeastZero(score: Option<real>) {
    score.Some? ==> score.value >= 0.0
  }

  /** The keys are those of the item the comparison looks at. */
  lemma KeysOfItem(c: Columns, date: Day -> string)
    requires Listed(c)
    ensures var k, i, x := KeysOf(c), ItemOf(RowOf(c, date)), EffectiveItem(ItemOf(RowOf(c, date)));
      k.k1 == Band(i) && k.k3 == ScoreKey(x.epss) && k.k4 == ScoreKey(x.cvss) && k.k5 == LabelRank(x.severity) &&
      Digit(c) as int - 48 == Tie(x) && x.advisoryId == c.advisoryId && AtLeastZero(x.epss) && AtLeastZero(x.cvss)
  {
  }

  lemma DateOfItem(c: Columns, date: Day -> string)
    requires Listed(c)
    ensures var k, i, x := KeysOf(c), ItemOf(RowOf(c, date)), EffectiveItem(ItemOf(RowOf(c, date)));
      x.kev == (Band(i) == 0) && k.k2 == (if x.kev then DateKey(c.kevAdded) else 0) &&
      (x.kev ==> x.kevAdded == if c.kevAdded.Some? then Some(date(c.kevAdded.value)) else None)
  {
  }

  lemma ScoreOrder(x: Option<real>, y: Option<real>)
    requires AtLeastZero(x) && AtLeastZero(y)
    ensures CmpScoreDesc(x, y) < 0 <==> ScoreKey(x) < ScoreKey(y)
    ensures CmpScoreDesc(x, y) == 0 <==> ScoreKey(x) == ScoreKey(y)
  {
  }

  lemma DateOrder(a: Option<Day>, b: Option<Day>, date: Day -> string)
    requires InOrder(date)
    ensures var s, t := if a.Some? then Some(date(a.value)) else None, if b.Some? then Some(date(b.value)) else None;
      (CmpDateDesc(s, t) < 0 <==> DateKey(a) < DateKey(b)) && (CmpDateDesc(s, t) == 0 <==> DateKey(a) == DateKey(b))
  {
    if a.Some? && b.Some? { LessTrichotomy(date(a.value), date(b.value)); }
  }

  /** On listed rows the keys order as the control plane's comparison does. */
  lemma KeysRank(a: Columns, b: Columns, date: Day -> string)
    requires Listed(a) && Listed(b) && InOrder(date)
    ensures KeysLess(KeysOf(a), KeysOf(b)) <==> Compare(ItemOf(RowOf(a, date)), ItemOf(RowOf(b, date))) < 0
    ensures KeysOf(a) == KeysOf(b) <==> Compare(ItemOf(RowOf(a, date)), ItemOf(RowOf(b, date))) == 0
  {
    TieText(a, b);
    LessTrichotomy(a.advisoryId, b.advisoryId);
    KeysOfItem(a, date);
    KeysOfItem(b, date);
    DateOfItem(a, date);
    DateOfItem(b, date);
    var x, y := EffectiveItem(ItemOf(RowOf(a, date))), EffectiveItem(ItemOf(RowOf(b, date)));
    DateOrder(a.kevAdded, b.kevAdded, date);
    ScoreOrder(x.epss, y.epss);
    ScoreOrder(x.cvss, y.cvss);
  }

  // ---- pages ------------------------------------------------------------------------------

  lemma KeysTrichotomy(a: Keys, b: Keys)
    ensures a == b || KeysLess(a, b) || KeysLess(b, a)
    ensures !(KeysLess(a, b) && KeysLess(b, a)) && !KeysLess(a, a)
  {
    LessTrichotomy(a.k6, b.k6);
    LessTrichotomy(a.k6, a.k6);
  }

  lemma KeysTransitive(a: Keys, b: Keys, c: Keys)
    requires KeysLess(a, b) && KeysLess(b, c)
    ensures KeysLess(a, c)
  {
    if Less(a.k6, b.k6) && Less(b.k6, c.k6) { LessTransitive(a.k6, b.k6, c.k6); }
  }

  predicate Before(a: Columns, b: Columns) {
    KeysLess(KeysOf(a), KeysOf(b))
  }

  function NotBehind(): (Columns, Columns) -> bool {
    (a: Columns, b: Columns) => !Before(b, a)
  }

  lemma NotBehindTotal()
    ensures TotalPreorder(NotBehind())
  {
    forall x, y ensures NotBehind()(x, y) || NotBehind()(y, x) { KeysTrichotomy(KeysOf(x), KeysOf(y)); }
    forall x, y, z | NotBehind()(x, y) && NotBehind()(y, z) ensures NotBehind()(x, z) {
      NotBehindTransitive(KeysOf(x), KeysOf(y), KeysOf(z));
    }
  }

  lemma NotBehindTransitive(a: Keys, b: Keys, c: Keys)
    requires !KeysLess(b, a) && !KeysLess(c, b)
    ensures !KeysLess(c, a)
  {
    KeysTrichotomy(a, b);
    KeysTrichotomy(b, c);
    KeysTrichotomy(a, c);
    if a != b && b != c { KeysTransitive(a, b, c); }
  }

  predicate Passed(cursor: Option<Keys>, k: Keys) {
    cursor.Some? && !KeysLess(cursor.value, k)
  }

  predicate Ahead(cursor: Option<Keys>, c: Columns) {
    !Passed(cursor, KeysOf(c))
  }

  function Beyond(cursor: Option<Keys>): Columns -> bool {
    (c: Columns) => Ahead(cursor, c)
  }

  datatype Page = Page(rows: seq<Columns>, next: Option<Keys>)

  /** ListExposure: limit + 1 rows behind the cursor are read; the last one only tells that there are more. */
  function PageOf(list: seq<Columns>, cursor: Option<Keys>, limit: nat): Page
    requires limit > 0
  {
    Cut(Sort(NotBehind(), Where(list, Beyond(cursor))), limit)
  }

  function Cut(behind: seq<Columns>, limit: nat): Page
    requires limit > 0
  {
    var read := if |behind| > limit then behind[..limit + 1] else behind;
    if |read| > limit then Page(read[..limit], Some(KeysOf(read[limit - 1]))) else Page(read, None)
  }

  /** No two rows of the list have one id. */
  ghost predicate DistinctRows(list: seq<Columns>) {
    forall i, j :: 0 <= i < j < |list| ==> list[i].advisoryId != list[j].advisoryId
  }

  /** Every row stands before the ones after it. */
  ghost predicate Rising(rows: seq<Columns>) {
    forall i, j :: 0 <= i < j < |rows| ==> Before(rows[i], rows[j])
  }

  /** A page, in the terms of its caller: at most limit rows, in order, which are those of the list between the
      cursor it was asked for with and the one it gives; that is of its last row, when there are more. */
  ghost predicate IsPage(page: Page, list: seq<Columns>, cursor: Option<Keys>, limit: nat)
    requires limit > 0
  {
    Rising(page.rows) && |page.rows| <= limit &&
    (forall c :: c in page.rows <==> c in list && Ahead(cursor, c) && (page.next.None? || !Ahead(page.next, c))) &&
    if page.next.None? then true
    else
      |page.rows| == limit && page.next.value == KeysOf(page.rows[limit - 1]) &&
      exists c :: c in list && Ahead(page.next, c)
  }

  lemma {:induction false} WhereDistinct(list: seq<Columns>, keep: Columns -> bool)
    requires DistinctRows(list)
    ensures DistinctRows(Where(list, keep))
  {
    if list != [] {
      WhereDistinct(list[1..], keep);
      WhereMembers(list[1..], keep);
      var rest := Where(list[1..], keep);
      forall j | 0 <= j < |rest| ensures list[0].advisoryId != rest[j].advisoryId {
        assert rest[j] in list[1..];
      }
    }
  }

  lemma {:induction false} CountedOnce(list: seq<Columns>, c: Columns)
    requires DistinctRows(list)
    ensures multiset(list)[c] <= 1
  {
    if list != [] {
      CountedOnce(list[1..], c);
      assert list == [list[0]] + list[1..];
      if c == list[0] { assert c !in list[1..]; }
    }
  }

  lemma TwiceCounted(s: seq<Columns>, i: nat, j: nat)
    requires i < j < |s| && s[i] == s[j]
    ensures multiset(s)[s[i]] >= 2
  {
    assert s == s[..j] + s[j..];
    assert s[i] in s[..j] && s[j] in s[j..];
  }

  lemma SameKeysSameId(a: Columns, b: Columns)
    requires KeysOf(a) == KeysOf(b)
    ensures a.advisoryId == b.advisoryId
  {
    assert ([Digit(a)] + a.advisoryId)[1..] == ([Digit(b)] + b.advisoryId)[1..];
  }

  /** Rows with distinct ids are put in an order without ties. */
  lemma SortRises(list: seq<Columns>)
    requires DistinctRows(list)
    ensures Rising(Sort(NotBehind(), list))
  {
    var s := Sort(NotBehind(), list);
    NotBehindTotal();
    SortSorted(NotBehind(), list);
    forall i, j | 0 <= i < j < |s| ensures Before(s[i], s[j]) {
      assert NotBehind()(s[i], s[j]);
      KeysTrichotomy(KeysOf(s[i]), KeysOf(s[j]));
      if KeysOf(s[i]) == KeysOf(s[j]) {
        SameKeysSameId(s[i], s[j]);
        assert s[i] in multiset(list) && s[j] in multiset(list);
        SameIdSameRow(list, s[i], s[j]);
        TwiceCounted(s, i, j);
        CountedOnce(list, s[i]);
      }
    }
  }

  lemma SameIdSameRow(list: seq<Columns>, a: Columns, b: Columns)
    requires DistinctRows(list) && a in list && b in list && a.advisoryId == b.advisoryId
    ensures a == b
  {
    var i :| 0 <= i < |list| && list[i] == a;
    var j :| 0 <= j < |list| && list[j] == b;
    if i < j { assert false; }
    if j < i { assert false; }
  }

  /** What is read for a page: the rows behind the cursor, in order. */
  lemma ReadRises(list: seq<Columns>, cursor: Option<Keys>)
    requires DistinctRows(list)
    ensures var read := Sort(NotBehind(), Where(list, Beyond(cursor)));
      Rising(read) && forall c :: c in read <==> c in list && Ahead(cursor, c)
  {
    var kept := Where(list, Beyond(cursor));
    WhereDistinct(list, Beyond(cursor));
    SortRises(kept);
    WhereMembers(list, Beyond(cursor));
    forall c ensures c in Sort(NotBehind(), kept) <==> c in kept {
      assert c in multiset(Sort(NotBehind(), kept)) <==> c in multiset(kept);
    }
  }

  lemma PageMeaning(list: seq<Columns>, cursor: Option<Keys>, limit: nat)
    requires limit > 0 && DistinctRows(list)
    ensures IsPage(PageOf(list, cursor, limit), list, cursor, limit)
  {
    ReadRises(list, cursor);
    CutIsPage(Sort(NotBehind(), Where(list, Beyond(cursor))), list, cursor, limit);
  }

  lemma CutIsPage(behind: seq<Columns>, list: seq<Columns>, cursor: Option<Keys>, limit: nat)
    requires limit > 0 && Rising(behind) && forall c :: c in behind <==> c in list && Ahead(cursor, c)
    ensures IsPage(Cut(behind, limit), list, cursor, limit)
  {
    if |behind| > limit {
      assert behind[..limit + 1][..limit] == behind[..limit];
      CutPage(behind, limit);
      assert behind[limit] in behind;
    }
  }

  /** A rising list up to its row of one position: the rows not after that one. */
  lemma CutPage(read: seq<Columns>, limit: nat)
    requires Rising(read) && 0 < limit < |read|
    ensures var next := Some(KeysOf(read[limit - 1]));
      (forall c :: c in read[..limit] <==> c in read && !Ahead(next, c)) && Ahead(next, read[limit])
  {
    var next := Some(KeysOf(read[limit - 1]));
    forall i | limit <= i < |read| ensures Ahead(next, read[i]) { assert Before(read[limit - 1], read[i]); }
    forall c ensures c in read[..limit] <==> c in read && !Ahead(next, c) {
      if c in read[..limit] {
        var i :| 0 <= i < limit && read[..limit][i] == c;
        KeysTrichotomy(KeysOf(read[i]), KeysOf(read[limit - 1]));
        assert i == limit - 1 || Before(read[i], read[limit - 1]);
      }
      if c in read && !Ahead(next, c) {
        var i :| 0 <= i < |read| && read[i] == c;
        assert read[..limit][i] == c;
      }
    }
  }

  // ---- walking the pages while the list changes ----------------------------------------------

  function CursorAt(pages: seq<Page>, i: nat): Option<Keys>
    requires i <= |pages|
  {
    if i == 0 then None else pages[i - 1].next
  }

  /** Page after page, each with the cursor of the one before it; page i is of the list as it was then. */
  ghost predicate Walk(lists: seq<seq<Columns>>, limit: nat, pages: seq<Page>) {
    limit > 0 && |lists| == |pages| > 0 && forall i :: 0 <= i < |pages| ==> Asked(lists, limit, pages, i)
  }

  ghost predicate Asked(lists: seq<seq<Columns>>, limit: nat, pages: seq<Page>, i: nat)
    requires limit > 0 && i < |lists| == |pages|
  {
    DistinctRows(lists[i]) && (i > 0 ==> CursorAt(pages, i).Some?) &&
    pages[i] == PageOf(lists[i], CursorAt(pages, i), limit)
  }

  lemma WalkPage(lists: seq<seq<Columns>>, limit: nat, pages: seq<Page>, i: nat)
    requires Walk(lists, limit, pages) && i < |pages|
    ensures DistinctRows(lists[i]) && (i > 0 ==> CursorAt(pages, i).Some?)
    ensures IsPage(pages[i], lists[i], CursorAt(pages, i), limit)
  {
    assert Asked(lists, limit, pages, i);
    PageMeaning(lists[i], CursorAt(pages, i), limit);
  }

  lemma PageShows(lists: seq<seq<Columns>>, limit: nat, pages: seq<Page>, i: nat, c: Columns)
    requires Walk(lists, limit, pages) && i < |pages|
    ensures c in pages[i].rows <==>
      c in lists[i] && Ahead(CursorAt(pages, i), c) && (pages[i].next.None? || !Ahead(pages[i].next, c))
  {
    WalkPage(lists, limit, pages, i);
  }

  /** The cursor never falls back behind a row that was shown. */
  lemma {:induction false} ShownIsPassed(
    lists: seq<seq<Columns>>, limit: nat, pages: seq<Page>, i: nat, j: nat, c: Columns)
    requires Walk(lists, limit, pages) && i < j < |pages| && c in pages[i].rows
    ensures !Ahead(CursorAt(pages, j), c)
  {
    WalkPage(lists, limit, pages, j - 1);
    WalkPage(lists, limit, pages, j);
    if i < j - 1 {
      ShownIsPassed(lists, limit, pages, i, j - 1, c);
      var last := pages[j - 1].rows[limit - 1];
      assert last in pages[j - 1].rows;
      PassedStays(CursorAt(pages, j - 1), c, last);
    }
  }

  lemma PassedStays(cursor: Option<Keys>, c: Columns, last: Columns)
    requires !Ahead(cursor, c) && Ahead(cursor, last)
    ensures !Ahead(Some(KeysOf(last)), c)
  {
    if KeysLess(KeysOf(last), KeysOf(c)) { KeysTransitive(cursor.value, KeysOf(last), KeysOf(c)); }
  }

  /** Whatever changes between the requests, what a later page shows stands after all that was shown. */
  lemma LaterPagesFollow(
    lists: seq<seq<Columns>>, limit: nat, pages: seq<Page>, i: nat, j: nat, c: Columns, d: Columns)
    requires Walk(lists, limit, pages) && i < j < |pages| && c in pages[i].rows && d in pages[j].rows
    ensures Before(c, d)
  {
    ShownIsPassed(lists, limit, pages, i, j, c);
    WalkPage(lists, limit, pages, j);
    NotBehindBefore(KeysOf(c), CursorAt(pages, j).value, KeysOf(d));
  }

  lemma NotBehindBefore(a: Keys, b: Keys, c: Keys)
    requires !KeysLess(b, a) && KeysLess(b, c)
    ensures KeysLess(a, c)
  {
    KeysTrichotomy(a, b);
    if a != b { KeysTransitive(a, b, c); }
  }

  lemma {:induction false} ShownOrAhead(lists: seq<seq<Columns>>, limit: nat, pages: seq<Page>, n: nat, c: Columns)
    requires Walk(lists, limit, pages) && n <= |pages|
    requires forall i :: 0 <= i < n ==> c in lists[i] && c !in pages[i].rows
    ensures n == 0 || (pages[n - 1].next.Some? && Ahead(pages[n - 1].next, c))
  {
    if n > 0 {
      ShownOrAhead(lists, limit, pages, n - 1, c);
      PageShows(lists, limit, pages, n - 1, c);
    }
  }

  /** A row that stays in the list with its keys while the pages are walked to the last one is shown on exactly
      one of them. */
  lemma ShownExactlyOnce(lists: seq<seq<Columns>>, limit: nat, pages: seq<Page>, c: Columns) returns (at: nat)
    requires Walk(lists, limit, pages) && pages[|pages| - 1].next.None?
    requires forall i :: 0 <= i < |lists| ==> c in lists[i]
    ensures at < |pages| && forall i :: 0 <= i < |pages| ==> (c in pages[i].rows <==> i == at)
  {
    if forall i :: 0 <= i < |pages| ==> c !in pages[i].rows {
      ShownOrAhead(lists, limit, pages, |pages|, c);
    }
    at :| 0 <= at < |pages| && c in pages[at].rows;
    KeysTrichotomy(KeysOf(c), KeysOf(c));
    forall i | 0 <= i < |pages| && c in pages[i].rows ensures i == at {
      if i < at { LaterPagesFollow(lists, limit, pages, i, at, c, c); }
      if at < i { LaterPagesFollow(lists, limit, pages, at, i, c, c); }
    }
  }

  /** The rows of the first n pages. */
  function Shown(pages: seq<Page>, n: nat): seq<Columns>
    requires n <= |pages|
  {
    if n == 0 then [] else Shown(pages, n - 1) + pages[n - 1].rows
  }

  lemma {:induction false} ShownMembers(pages: seq<Page>, n: nat, c: Columns)
    requires n <= |pages|
    ensures c in Shown(pages, n) <==> exists i :: 0 <= i < n && c in pages[i].rows
  {
    if n > 0 { ShownMembers(pages, n - 1, c); }
  }

  lemma {:induction false} ShownRises(lists: seq<seq<Columns>>, limit: nat, pages: seq<Page>, n: nat)
    requires Walk(lists, limit, pages) && n <= |pages|
    ensures Rising(Shown(pages, n))
  {
    if n > 0 {
      var before, rows := Shown(pages, n - 1), pages[n - 1].rows;
      ShownRises(lists, limit, pages, n - 1);
      WalkPage(lists, limit, pages, n - 1);
      forall c, d | c in before && d in rows ensures Before(c, d) {
        ShownMembers(pages, n - 1, c);
        var i :| 0 <= i < n - 1 && c in pages[i].rows;
        LaterPagesFollow(lists, limit, pages, i, n - 1, c, d);
      }
      RisingConcat(before, rows);
    }
  }

  lemma RisingConcat(a: seq<Columns>, b: seq<Columns>)
    requires Rising(a) && Rising(b) && forall c, d :: c in a && d in b ==> Before(c, d)
    ensures Rising(a + b)
  {
  }

  /** While the list does not change, the pages one after another are the whole of it in rank order. */
  lemma PagesAreTheList(list: seq<Columns>, limit: nat, lists: seq<seq<Columns>>, pages: seq<Page>)
    requires Walk(lists, limit, pages) && pages[|pages| - 1].next.None?
    requires forall i :: 0 <= i < |lists| ==> lists[i] == list
    ensures Shown(pages, |pages|) == Sort(NotBehind(), list)
  {
    var shown := Shown(pages, |pages|);
    ShownRises(lists, limit, pages, |pages|);
    WalkPage(lists, limit, pages, 0);
    SortRises(list);
    forall c ensures c in shown <==> c in Sort(NotBehind(), list) {
      assert c in multiset(Sort(NotBehind(), list)) <==> c in multiset(list);
      ShownIsListed(list, limit, lists, pages, c);
    }
    RisingSame(shown, Sort(NotBehind(), list));
  }

  lemma ShownIsListed(list: seq<Columns>, limit: nat, lists: seq<seq<Columns>>, pages: seq<Page>, c: Columns)
    requires Walk(lists, limit, pages) && pages[|pages| - 1].next.None?
    requires forall i :: 0 <= i < |lists| ==> lists[i] == list
    ensures c in Shown(pages, |pages|) <==> c in list
  {
    ShownMembers(pages, |pages|, c);
    if c in list {
      var at := ShownExactlyOnce(lists, limit, pages, c);
      assert c in pages[at].rows;
    }
    if i :| 0 <= i < |pages| && c in pages[i].rows {
      PageShows(lists, limit, pages, i, c);
      assert lists[i] == list;
    }
  }

  lemma HasMember(b: seq<Columns>)
    requires b != []
    ensures exists c :: c in b
  {
    assert b[0] in b;
  }

  /** Rising lists with the same members are the same. */
  lemma {:induction false} RisingSame(a: seq<Columns>, b: seq<Columns>)
    requires Rising(a) && Rising(b) && forall c :: c in a <==> c in b
    ensures a == b
  {
    if a == [] {
      if b != [] { HasMember(b); }
    } else {
      RisingHeads(a, b);
      KeysTrichotomy(KeysOf(a[0]), KeysOf(a[0]));
      forall c ensures c in a[1..] <==> c in b[1..] {
        if c in a[1..] { assert c in b && Before(a[0], c); }
        if c in b[1..] { assert c in a && Before(b[0], c); }
      }
      RisingSame(a[1..], b[1..]);
      assert a == [a[0]] + a[1..] && b == [b[0]] + b[1..];
    }
  }

  lemma RisingHeads(a: seq<Columns>, b: seq<Columns>)
    requires Rising(a) && Rising(b) && a != [] && forall c :: c in a <==> c in b
    ensures b != [] && a[0] == b[0]
  {
    assert a[0] in b;
    var i :| 0 <= i < |b| && b[i] == a[0];
    assert b[0] in a;
    var j :| 0 <= j < |a| && a[j] == b[0];
    KeysTrichotomy(KeysOf(a[0]), KeysOf(b[0]));
  }

  /** Whatever changes between the requests, the pages shown one after another pass the console's check. */
  lemma PagesPassTheCheck(lists: seq<seq<Columns>>, limit: nat, pages: seq<Page>, date: Day -> string)
    requires Walk(lists, limit, pages) && InOrder(date)
    requires forall i, c :: 0 <= i < |lists| && c in lists[i] ==> Listed(c)
    ensures Sorted(NotAfter(), RowsOf(Shown(pages, |pages|), date))
  {
    var shown := Shown(pages, |pages|);
    var rows := RowsOf(shown, date);
    ShownRises(lists, limit, pages, |pages|);
    forall c | c in shown ensures Listed(c) {
      ShownMembers(pages, |pages|, c);
      var i :| 0 <= i < |pages| && c in pages[i].rows;
      WalkPage(lists, limit, pages, i);
      assert c in lists[i];
    }
    forall i, j | 0 <= i < j < |rows| ensures NotAfterItem()(rows[i], rows[j]) {
      assert shown[i] in shown && shown[j] in shown && Before(shown[i], shown[j]);
      KeysRank(shown[i], shown[j], date);
    }
    CheckMirrorsRanking(shown, date);
  }
}
