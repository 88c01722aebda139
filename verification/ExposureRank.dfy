/** The exposure order of the "fix this week" list: lib/exposure-model.ts, ranking. */
module ExposureRank {
  import opened Wrappers
  import opened Text
  import opened Sorting

  datatype Severity = Critical | High | Medium | Low | Unknown
  datatype Stage = Eol | Eoas | OtherStage

  /** A row without a source is a vulnerability. */
  datatype Source = Vulnerability | Surface | Identity

  /** Scores are exact numbers or missing; KEV dates are YYYY-MM-DD texts or missing. */
  datatype Rankable = Rankable(
    advisoryId: string, severity: Severity, kev: bool, kevAdded: Option<string>,
    epss: Option<real>, cvss: Option<real>, eol: Option<Stage>, repo: bool, source: Source)

  predicate RanksBySeverity(g: Rankable) {
    g.source == Surface || g.source == Identity || g.repo
  }

  predicate RanksByStage(g: Rankable) {
    g.eol == Some(Eol) || g.eol == Some(Eoas)
  }

  function SurfaceScore(s: Severity): Option<real> {
    match s
    case Critical => Some(9.5)
    case High => Some(8.0)
    case Medium => Some(5.0)
    case Low => Some(2.0)
    case Unknown => None
  }

  function SeverityRank(s: Severity): int {
    match s
    case Critical => 0
    case High => 1
    case Medium => 2
    case Low => 3
    case Unknown => 4
  }

  function RankBand(g: Rankable): int {
    if RanksBySeverity(g) then (if g.severity == Critical || g.severity == High then 1 else 2)
    else if RanksByStage(g) then (if g.eol == Some(Eol) then 1 else 2)
    else if g.kev then 0 else 2
  }

  function Effective(g: Rankable): Rankable {
    if RanksBySeverity(g) then
      g.(kev := false, kevAdded := None, epss := None, cvss := SurfaceScore(g.severity))
    else if RanksByStage(g) then
      g.(kev := false, kevAdded := None, epss := None, cvss := Some(if g.eol == Some(Eol) then 8.0 else 2.0))
    else g
  }

  function TieRank(g: Rankable): int {
    if g.source == Surface then 4
    else if g.source == Identity then 3
    else if g.repo then 2
    else if RanksByStage(g) then 1
    else 0
  }

  /** Higher first; a missing score last. */
  function ByScoreDesc(a: Option<real>, b: Option<real>): int {
    if a.None? && b.None? then 0
    else if a.None? then 1
    else if b.None? then -1
    else if a.value == b.value then 0
    else if a.value > b.value then -1 else 1
  }

  /** Newest first; a missing date last. */
  function ByDateDesc(a: Option<string>, b: Option<string>): int {
    if a == b then 0
    else if a.None? then 1
    else if b.None? then -1
    else if Less(b.value, a.value) then -1 else 1
  }

  function ById(a: string, b: string): int {
    if Less(a, b) then -1 else if Less(b, a) then 1 else 0
  }

  /** The keys after the KEV date, on effective rows and their kinds. */
  function CompareScores(a: Rankable, b: Rankable, kindA: int, kindB: int): int {
    var e := ByScoreDesc(a.epss, b.epss);
    if e != 0 then e else
    var c := ByScoreDesc(a.cvss, b.cvss);
    if c != 0 then c else
    var s := SeverityRank(a.severity) - SeverityRank(b.severity);
    if s != 0 then s else
    var t := kindA - kindB;
    if t != 0 then t else
    ById(a.advisoryId, b.advisoryId)
  }

  function CompareRank(a0: Rankable, b0: Rankable): int {
    var band := RankBand(a0) - RankBand(b0);
    if band != 0 then band else
    var a, b := Effective(a0), Effective(b0);
    var d := if a.kev && b.kev then ByDateDesc(a.kevAdded, b.kevAdded) else 0;
    if d != 0 then d else CompareScores(a, b, TieRank(a0), TieRank(b0))
  }

  // ---- the order is total -----------------------------------------------------------

  /** The date key is skipped unless both rows are KEV. It stays transitive because rows of one band
      agree on being KEV, which only the first band is. */
  lemma KevIsConstantInBand(a: Rankable, b: Rankable)
    requires RankBand(a) == RankBand(b)
    ensures Effective(a).kev == Effective(b).kev == (RankBand(a) == 0)
  {
  }

  lemma ByDateTransitive(x: Option<string>, y: Option<string>, z: Option<string>)
    requires ByDateDesc(x, y) <= 0 && ByDateDesc(y, z) <= 0
    ensures ByDateDesc(x, z) <= 0
    ensures ByDateDesc(x, z) == 0 ==> x == y == z
  {
    if x.Some? && y.Some? && z.Some? && x != y && y != z {
      LessTransitive(z.value, y.value, x.value);
      LessTrichotomy(x.value, z.value);
    }
  }

  lemma ByIdTransitive(x: string, y: string, z: string)
    requires ById(x, y) <= 0 && ById(y, z) <= 0
    ensures ById(x, z) <= 0
  {
    LessTrichotomy(x, y);
    LessTrichotomy(y, z);
    LessTrichotomy(x, z);
    if Less(x, y) && Less(y, z) { LessTransitive(x, y, z); }
  }

  lemma ByDateAntisymmetric(x: Option<string>, y: Option<string>)
    ensures ByDateDesc(x, y) == -ByDateDesc(y, x)
    ensures ByDateDesc(x, y) == 0 <==> x == y
  {
    if x.Some? && y.Some? { LessTrichotomy(x.value, y.value); }
  }

  lemma ByScoreAntisymmetric(x: Option<real>, y: Option<real>)
    ensures ByScoreDesc(x, y) == -ByScoreDesc(y, x)
  {
  }

  lemma ByIdAntisymmetric(x: string, y: string)
    ensures ById(x, y) == -ById(y, x)
    ensures ById(x, y) == 0 <==> x == y
  {
    LessTrichotomy(x, y);
  }

  lemma RankAntisymmetric(a: Rankable, b: Rankable)
    ensures CompareRank(a, b) == -CompareRank(b, a)
    ensures CompareRank(a, b) == 0 ==> a.advisoryId == b.advisoryId
  {
    var x, y := Effective(a), Effective(b);
    ByIdAntisymmetric(a.advisoryId, b.advisoryId);
    ByDateAntisymmetric(x.kevAdded, y.kevAdded);
    ByScoreAntisymmetric(x.epss, y.epss);
    ByScoreAntisymmetric(x.cvss, y.cvss);
    assert x.advisoryId == a.advisoryId && y.advisoryId == b.advisoryId;
  }

  lemma RankTransitive(a: Rankable, b: Rankable, c: Rankable)
    requires CompareRank(a, b) <= 0 && CompareRank(b, c) <= 0
    ensures CompareRank(a, c) <= 0
  {
    if RankBand(a) == RankBand(b) == RankBand(c) { TransitiveInBand(a, b, c); }
  }

  lemma ScoresTransitive(x: Rankable, y: Rankable, z: Rankable, i: int, j: int, k: int)
    requires CompareScores(x, y, i, j) <= 0 && CompareScores(y, z, j, k) <= 0
    ensures CompareScores(x, z, i, k) <= 0
  {
    if ById(x.advisoryId, y.advisoryId) <= 0 && ById(y.advisoryId, z.advisoryId) <= 0 {
      ByIdTransitive(x.advisoryId, y.advisoryId, z.advisoryId);
    }
  }

  lemma TransitiveInBand(a: Rankable, b: Rankable, c: Rankable)
    requires RankBand(a) == RankBand(b) == RankBand(c)
    requires CompareRank(a, b) <= 0 && CompareRank(b, c) <= 0
    ensures CompareRank(a, c) <= 0
  {
    var x, y, z := Effective(a), Effective(b), Effective(c);
    var i, j, k := TieRank(a), TieRank(b), TieRank(c);
    KevIsConstantInBand(a, b);
    KevIsConstantInBand(b, c);
    if CompareScores(x, y, i, j) <= 0 && CompareScores(y, z, j, k) <= 0 { ScoresTransitive(x, y, z, i, j, k); }
    if x.kev { ByDateTransitive(x.kevAdded, y.kevAdded, z.kevAdded); }
  }

  // ---- ranked lists -------------------------------------------------------------------

  function NotAfter(): (Rankable, Rankable) -> bool {
    (a: Rankable, b: Rankable) => CompareRank(a, b) <= 0
  }

  lemma NotAfterTotal()
    ensures TotalPreorder(NotAfter())
  {
    forall x, y ensures NotAfter()(x, y) || NotAfter()(y, x) { RankAntisymmetric(x, y); }
    forall x, y, z | NotAfter()(x, y) && NotAfter()(y, z) ensures NotAfter()(x, z) { RankTransitive(x, y, z); }
  }

  ghost predicate AdjacentRanked(rows: seq<Rankable>) {
    forall i :: 1 <= i < |rows| ==> NotAfter()(rows[i - 1], rows[i])
  }

  lemma {:induction false} AdjacentIsSorted(rows: seq<Rankable>, i: nat, j: nat)
    requires AdjacentRanked(rows) && i < j < |rows|
    ensures NotAfter()(rows[i], rows[j])
  {
    if i + 1 < j {
      AdjacentIsSorted(rows, i, j - 1);
      NotAfterTransitive(rows[i], rows[j - 1], rows[j]);
    }
  }

  lemma NotAfterTransitive(a: Rankable, b: Rankable, c: Rankable)
    requires NotAfter()(a, b) && NotAfter()(b, c)
    ensures NotAfter()(a, c)
  {
    RankTransitive(a, b, c);
  }

  lemma AdjacentMeansSorted(rows: seq<Rankable>)
    ensures AdjacentRanked(rows) <==> Sorted(NotAfter(), rows)
  {
    if AdjacentRanked(rows) {
      forall i, j | 0 <= i < j < |rows| ensures NotAfter()(rows[i], rows[j]) {
        AdjacentIsSorted(rows, i, j);
      }
    }
  }

  /** Checking neighbours is checking every pair. */
  method IsRanked(rows: seq<Rankable>) returns (ranked: bool)
    ensures ranked <==> Sorted(NotAfter(), rows)
  {
    var i := 1;
    while i < |rows|
      invariant 1 <= i
      invariant forall k :: 1 <= k < i && k < |rows| ==> NotAfter()(rows[k - 1], rows[k])
    {
      if CompareRank(rows[i - 1], rows[i]) > 0 {
        assert !NotAfter()(rows[i - 1], rows[i]);
        return false;
      }
      i := i + 1;
    }
    AdjacentMeansSorted(rows);
    return true;
  }

  ghost predicate DistinctIds(rows: seq<Rankable>) {
    forall i, j :: 0 <= i < j < |rows| ==> rows[i].advisoryId != rows[j].advisoryId
  }

  /** The same rows, in rank order. */
  ghost predicate Arrangement(rows: seq<Rankable>, s: seq<Rankable>) {
    multiset(s) == multiset(rows) && Sorted(NotAfter(), s)
  }

  /** Rows with distinct ids have exactly one ranked arrangement, so the console and the control plane
      cannot disagree and both pass the check. */
  lemma RankedArrangementUnique(rows: seq<Rankable>)
    requires DistinctIds(rows)
    ensures exists s :: Arrangement(rows, s)
    ensures forall s, t | Arrangement(rows, s) && Arrangement(rows, t) :: s == t
  {
    NotAfterTotal();
    SortSorted(NotAfter(), rows);
    assert Arrangement(rows, Sort(NotAfter(), rows));
    forall s, t | Arrangement(rows, s) && Arrangement(rows, t)
      ensures s == t
    {
      forall x, y | x in s && y in s && NotAfter()(x, y) && NotAfter()(y, x) ensures x == y {
        RankAntisymmetric(x, y);
        assert x in multiset(rows) && y in multiset(rows);
        assert x in rows && y in rows;
      }
      SortedUnique(NotAfter(), s, t);
    }
  }

  // ---- what the order puts first --------------------------------------------------------

  /** A vulnerability on the KEV list: no other kind of row counts as one. */
  predicate KevVulnerability(g: Rankable) {
    g.kev && !RanksBySeverity(g) && !RanksByStage(g)
  }

  /** In a ranked list nothing stands before a KEV vulnerability but KEV vulnerabilities that are at
      least as recently listed, and an unscored row never stands before a scored one of its band. */
  lemma RankedListMeaning(rows: seq<Rankable>, i: nat, j: nat)
    requires Sorted(NotAfter(), rows) && i < j < |rows|
    ensures KevVulnerability(rows[j]) ==> KevVulnerability(rows[i])
    ensures KevVulnerability(rows[j]) && rows[j].kevAdded.Some? ==>
      rows[i].kevAdded.Some? && !Less(rows[i].kevAdded.value, rows[j].kevAdded.value)
    ensures RankBand(rows[i]) == RankBand(rows[j]) != 0 && Effective(rows[j]).epss.Some? ==>
      Effective(rows[i]).epss.Some? && Effective(rows[i]).epss.value >= Effective(rows[j]).epss.value
  {
    assert NotAfter()(rows[i], rows[j]);
    if rows[i].kevAdded.Some? && rows[j].kevAdded.Some? {
      LessTrichotomy(rows[i].kevAdded.value, rows[j].kevAdded.value);
    }
  }

  /** A row of the urgent band: a critical or high surface, identity or repository finding, or software past
      security support. */
  predicate Urgent(g: Rankable) {
    if RanksBySeverity(g) then g.severity == Critical || g.severity == High else g.eol == Some(Eol)
  }

  /** The block a row belongs to: 0 KEV vulnerabilities, 1 urgent rows, 2 other vulnerabilities with an
      EPSS score, 3 the rest. */
  function BlockOf(g: Rankable): nat {
    if KevVulnerability(g) then 0
    else if Urgent(g) then 1
    else if !RanksBySeverity(g) && !RanksByStage(g) && g.epss.Some? then 2
    else 3
  }

  /** What decides first inside the block of these two rows lets a stand before b: the listing date, newest
      first and none last; the CVSS-equivalent; the EPSS score; the CVSS-equivalent again, none last. */
  predicate InBlock(a: Rankable, b: Rankable) {
    match BlockOf(a)
    case 0 => ByDateDesc(a.kevAdded, b.kevAdded) <= 0
    case 2 => ByScoreDesc(a.epss, b.epss) <= 0
    case _ => ByScoreDesc(Effective(a).cvss, Effective(b).cvss) <= 0
  }

  /** A ranked list falls into four blocks, whatever its rows: KEV vulnerabilities, newest listing first; then
      everything urgent, by falling CVSS-equivalent; then the vulnerabilities with an EPSS score, by falling
      score; then the rest by falling CVSS-equivalent, among it medium and low findings, software past active
      support and unscored vulnerabilities. */
  lemma FourBlocks(rows: seq<Rankable>) returns (kev: nat, urgent: nat, scored: nat)
    requires Sorted(NotAfter(), rows)
    ensures kev <= urgent <= scored <= |rows|
    ensures forall i :: 0 <= i < kev ==> BlockOf(rows[i]) == 0
    ensures forall i :: kev <= i < urgent ==> BlockOf(rows[i]) == 1
    ensures forall i :: urgent <= i < scored ==> BlockOf(rows[i]) == 2
    ensures forall i :: scored <= i < |rows| ==> BlockOf(rows[i]) == 3
    ensures forall i, j :: 0 <= i < j < |rows| && BlockOf(rows[i]) == BlockOf(rows[j]) ==> InBlock(rows[i], rows[j])
  {
    forall i, j | 0 <= i < j < |rows|
      ensures BlockOf(rows[i]) <= BlockOf(rows[j])
      ensures BlockOf(rows[i]) == BlockOf(rows[j]) ==> InBlock(rows[i], rows[j])
    {
      assert NotAfter()(rows[i], rows[j]);
      PairBlocks(rows[i], rows[j]);
    }
    scored := BlockEnd(rows, 2);
    urgent := BlockEnd(rows[..scored], 1);
    kev := BlockEnd(rows[..urgent], 0);
    assert forall i :: 0 <= i < scored ==> rows[..scored][i] == rows[i];
    assert forall i :: 0 <= i < urgent ==> rows[..urgent][i] == rows[i];
  }

  lemma PairBlocks(a: Rankable, b: Rankable)
    requires CompareRank(a, b) <= 0
    ensures BlockOf(a) <= BlockOf(b)
    ensures BlockOf(a) == BlockOf(b) ==> InBlock(a, b)
  {
  }

  // ---- what breaks ties ---------------------------------------------------------------------

  /** s comes before t in the list critical, high, medium, low; an unknown severity comes last. */
  predicate MoreSevere(s: Severity, t: Severity) {
    match s
    case Critical => t != Critical
    case High => t != Critical && t != High
    case Medium => t == Low || t == Unknown
    case Low => t == Unknown
    case Unknown => false
  }

  datatype RowKind = OfVulnerability | OfEndOfLife | OfRepository | OfIdentity | OfSurface

  function KindOf(g: Rankable): RowKind {
    match g.source
    case Surface => OfSurface
    case Identity => OfIdentity
    case Vulnerability =>
      if g.repo then OfRepository
      else match g.eol
        case Some(Eol) => OfEndOfLife
        case Some(Eoas) => OfEndOfLife
        case _ => OfVulnerability
  }

  /** A vulnerability, software past its end, a repository, an identity finding, a surface finding. */
  predicate KindBefore(k: RowKind, l: RowKind) {
    match k
    case OfVulnerability => l != OfVulnerability
    case OfEndOfLife => l == OfRepository || l == OfIdentity || l == OfSurface
    case OfRepository => l == OfIdentity || l == OfSurface
    case OfIdentity => l == OfSurface
    case OfSurface => false
  }

  /** The rows agree on all that is measured. */
  predicate Tied(a: Rankable, b: Rankable) {
    var x, y := Effective(a), Effective(b);
    RankBand(a) == RankBand(b) && (x.kev ==> x.kevAdded == y.kevAdded) && x.epss == y.epss && x.cvss == y.cvss
  }

  /** In a ranked list, of two rows that agree on all that is measured the more severe one stands first, of equally
      severe ones the kind of row decides, and of one kind the id. */
  lemma TiesInList(rows: seq<Rankable>, i: nat, j: nat)
    requires Sorted(NotAfter(), rows) && i < j < |rows| && Tied(rows[i], rows[j])
    ensures var a, b := rows[i], rows[j];
      MoreSevere(a.severity, b.severity) ||
      (a.severity == b.severity &&
       (KindBefore(KindOf(a), KindOf(b)) || (KindOf(a) == KindOf(b) && !Less(b.advisoryId, a.advisoryId))))
  {
    var a, b := rows[i], rows[j];
    assert NotAfter()(a, b);
    SeverityOrder(a.severity, b.severity);
    KindOrder(a, b);
    KevIsConstantInBand(a, b);
    LessTrichotomy(a.advisoryId, b.advisoryId);
  }

  lemma SeverityOrder(s: Severity, t: Severity)
    ensures SeverityRank(s) < SeverityRank(t) <==> MoreSevere(s, t)
    ensures SeverityRank(s) == SeverityRank(t) <==> s == t
  {
  }

  lemma KindOrder(a: Rankable, b: Rankable)
    ensures TieRank(a) < TieRank(b) <==> KindBefore(KindOf(a), KindOf(b))
    ensures TieRank(a) == TieRank(b) <==> KindOf(a) == KindOf(b)
  {
  }

  /** The number of rows of block k or an earlier one. */
  lemma {:induction false} BlockEnd(rows: seq<Rankable>, k: nat) returns (n: nat)
    requires forall i, j :: 0 <= i < j < |rows| ==> BlockOf(rows[i]) <= BlockOf(rows[j])
    ensures n <= |rows| && forall i :: 0 <= i < |rows| ==> (i < n <==> BlockOf(rows[i]) <= k)
  {
    n := |rows|;
    while n > 0 && BlockOf(rows[n - 1]) > k
      invariant n <= |rows| && forall i :: n <= i < |rows| ==> BlockOf(rows[i]) > k
    {
      n := n - 1;
    }
  }
}
