/** The exposure order as the control plane computes it, internal/exposure/rank.go, against the console's. */
module ControlPlaneRank {
  import opened Wrappers
  import opened Text
  import opened Sorting
  import opened ExposureRank

  /** What the control plane ranks. */
  datatype Item = Item(
    advisoryId: string, severity: Severity, kev: bool, kevAdded: Option<string>,
    epss: Option<real>, cvss: Option<real>,
    surface: bool, identity: bool, eolStage: Option<Stage>, repoHealth: bool)

  /** The item behind a row of the console. */
  function ItemOf(g: Rankable): Item {
    Item(g.advisoryId, g.severity, g.kev, g.kevAdded, g.epss, g.cvss,
      g.source == Surface, g.source == Identity, g.eol, g.repo)
  }

  function EolScore(stage: Option<Stage>): Option<real> {
    match stage
    case Some(Eol) => Some(8.0)
    case Some(Eoas) => Some(2.0)
    case _ => None
  }

  /** exposure.SurfaceScore: 0 for a severity that does not rank, where the console has no score. */
  function Score(s: Severity): real {
    match s
    case Critical => 9.5
    case High => 8.0
    case Medium => 5.0
    case Low => 2.0
    case Unknown => 0.0
  }

  /** exposure.SeverityRank */
  function LabelRank(s: Severity): int {
    match s
    case Critical => 0
    case High => 1
    case Medium => 2
    case Low => 3
    case Unknown => 4
  }

  function Band(i: Item): int {
    if i.surface || i.identity || i.repoHealth then (if i.severity == Critical || i.severity == High then 1 else 2)
    else if EolScore(i.eolStage).Some? then (if i.eolStage == Some(Eol) then 1 else 2)
    else if i.kev then 0 else 2
  }

  function EffectiveItem(i: Item): Item {
    if i.surface || i.identity || i.repoHealth then
      Item(i.advisoryId, i.severity, false, None, None, Some(Score(i.severity)),
        i.surface, i.identity, None, i.repoHealth)
    else if EolScore(i.eolStage).Some? then
      Item(i.advisoryId, i.severity, false, None, None, EolScore(i.eolStage), false, false, i.eolStage, false)
    else i
  }

  function Tie(i: Item): int {
    if i.surface then 4
    else if i.identity then 3
    else if i.repoHealth then 2
    else if EolScore(i.eolStage).Some? then 1
    else 0
  }

  function CmpScoreDesc(a: Option<real>, b: Option<real>): int {
    match (a, b)
    case (None, None) => 0
    case (None, _) => 1
    case (_, None) => -1
    case (Some(x), Some(y)) => if x > y then -1 else if x < y then 1 else 0
  }

  function CmpDateDesc(a: Option<string>, b: Option<string>): int {
    match (a, b)
    case (None, None) => 0
    case (None, _) => 1
    case (_, None) => -1
    case (Some(x), Some(y)) => if Less(y, x) then -1 else if Less(x, y) then 1 else 0
  }

  function Compare(a0: Item, b0: Item): int {
    var band := Band(a0) - Band(b0);
    if band != 0 then band else
    var a, b := EffectiveItem(a0), EffectiveItem(b0);
    var d := if a.kev && b.kev then CmpDateDesc(a.kevAdded, b.kevAdded) else 0;
    if d != 0 then d else
    var e := CmpScoreDesc(a.epss, b.epss);
    if e != 0 then e else
    var c := CmpScoreDesc(a.cvss, b.cvss);
    if c != 0 then c else
    var s := LabelRank(a.severity) - LabelRank(b.severity);
    if s != 0 then s else
    var t := Tie(a) - Tie(b);
    if t != 0 then t else
    ById(a.advisoryId, b.advisoryId)
  }

  // ---- the two orders ------------------------------------------------------------------

  /** A surface, identity or repository row whose severity is none of the four that rank. */
  predicate Unscored(g: Rankable) {
    RanksBySeverity(g) && g.severity == Unknown
  }

  /** a stands before b for the control plane and after it for the console: its missing score counts as 0
      there and as missing here, against a row that has nothing else to rank by. */
  predicate Parted(a: Rankable, b: Rankable) {
    Unscored(a) && !Unscored(b) && RankBand(b) == 2 && Effective(b).epss.None? &&
    (Effective(b).cvss.None? || Effective(b).cvss.value < 0.0)
  }

  predicate Agree(a: Rankable, b: Rankable) {
    (Compare(ItemOf(a), ItemOf(b)) < 0 <==> CompareRank(a, b) < 0) &&
    (Compare(ItemOf(a), ItemOf(b)) == 0 <==> CompareRank(a, b) == 0)
  }

  lemma SameKeys(g: Rankable)
    ensures Band(ItemOf(g)) == RankBand(g) && Tie(EffectiveItem(ItemOf(g))) == TieRank(g)
    ensures var x, y := EffectiveItem(ItemOf(g)), Effective(g);
      x.kev == y.kev && x.kevAdded == y.kevAdded && x.epss == y.epss && x.severity == y.severity == g.severity &&
      x.advisoryId == y.advisoryId == g.advisoryId &&
      x.cvss == (if Unscored(g) then Some(0.0) else y.cvss) && (Unscored(g) ==> y.cvss == None && y.epss == None)
  {
  }

  lemma SameComparisons(x: Option<string>, y: Option<string>, p: Option<real>, q: Option<real>)
    ensures CmpDateDesc(x, y) == ByDateDesc(x, y) && CmpScoreDesc(p, q) == ByScoreDesc(p, q)
  {
    if x.Some? && y.Some? { LessTrichotomy(x.value, y.value); }
  }

  /** The first key that tells two rows apart decides; later holds what comes after the CVSS-equivalent. */
  function Cascade(band: int, date: int, epss: int, cvss: int, later: int): int {
    if band != 0 then band
    else if date != 0 then date
    else if epss != 0 then epss
    else if cvss != 0 then cvss
    else later
  }

  function Later(severity: int, tie: int, a: string, b: string): int {
    if severity != 0 then severity else if tie != 0 then tie else ById(a, b)
  }

  lemma ConsoleCascade(a: Rankable, b: Rankable)
    ensures var x, y := Effective(a), Effective(b);
      CompareRank(a, b) == Cascade(
        RankBand(a) - RankBand(b), if x.kev && y.kev then ByDateDesc(x.kevAdded, y.kevAdded) else 0,
        ByScoreDesc(x.epss, y.epss), ByScoreDesc(x.cvss, y.cvss),
        Later(SeverityRank(x.severity) - SeverityRank(y.severity), TieRank(a) - TieRank(b), a.advisoryId, b.advisoryId))
  {
  }

  lemma ControlCascade(a: Rankable, b: Rankable)
    ensures var x, y := EffectiveItem(ItemOf(a)), EffectiveItem(ItemOf(b));
      Compare(ItemOf(a), ItemOf(b)) == Cascade(
        Band(ItemOf(a)) - Band(ItemOf(b)), if x.kev && y.kev then CmpDateDesc(x.kevAdded, y.kevAdded) else 0,
        CmpScoreDesc(x.epss, y.epss), CmpScoreDesc(x.cvss, y.cvss),
        Later(LabelRank(x.severity) - LabelRank(y.severity), Tie(x) - Tie(y), a.advisoryId, b.advisoryId))
  {
  }

  /** The keys before the CVSS-equivalent decide alike. */
  lemma AgreeBeforeCvss(a: Rankable, b: Rankable)
    requires RankBand(a) != RankBand(b) || Effective(a).epss != Effective(b).epss || Unscored(a) == Unscored(b)
    ensures Agree(a, b)
  {
    SameKeys(a);
    SameKeys(b);
    var x, y := Effective(a), Effective(b);
    SameComparisons(x.kevAdded, y.kevAdded, x.epss, y.epss);
    SameComparisons(None, None, x.cvss, y.cvss);
    ConsoleCascade(a, b);
    ControlCascade(a, b);
  }

  /** One row is unscored and nothing before the CVSS-equivalent decides. */
  lemma UnscoredFirst(a: Rankable, b: Rankable)
    requires RankBand(a) == RankBand(b) && Effective(b).epss == None && Unscored(a) && !Unscored(b)
    ensures CompareRank(a, b) > 0 && CompareRank(b, a) < 0
    ensures Compare(ItemOf(a), ItemOf(b)) > 0 <==> !Parted(a, b)
    ensures Compare(ItemOf(b), ItemOf(a)) < 0 <==> !Parted(a, b)
    ensures Compare(ItemOf(a), ItemOf(b)) != 0 && Compare(ItemOf(b), ItemOf(a)) != 0
  {
    SameKeys(a);
    SameKeys(b);
  }

  /** Exactly when the console's order mirrors the control plane's for two rows. */
  lemma OrdersAgree(a: Rankable, b: Rankable)
    ensures Agree(a, b) <==> !Parted(a, b) && !Parted(b, a)
  {
    SameKeys(a);
    SameKeys(b);
    if RankBand(a) != RankBand(b) || Effective(a).epss != Effective(b).epss || Unscored(a) == Unscored(b) {
      AgreeBeforeCvss(a, b);
    } else if Unscored(a) {
      UnscoredFirst(a, b);
    } else {
      UnscoredFirst(b, a);
    }
  }

  function NotAfterItem(): (Rankable, Rankable) -> bool {
    (a: Rankable, b: Rankable) => Compare(ItemOf(a), ItemOf(b)) <= 0
  }

  /** So lists without unscored rows are in order for both or for neither. */
  lemma SameRanking(rows: seq<Rankable>)
    requires forall g :: g in rows ==> !Unscored(g)
    ensures Sorted(NotAfter(), rows) <==> Sorted(NotAfterItem(), rows)
  {
    forall i, j | 0 <= i < j < |rows| ensures NotAfter()(rows[i], rows[j]) == NotAfterItem()(rows[i], rows[j]) {
      assert rows[i] in rows && rows[j] in rows;
      OrdersAgree(rows[i], rows[j]);
    }
  }
}
