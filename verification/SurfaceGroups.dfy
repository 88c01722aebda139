/** Surface findings grouped under their assets: lib/surface-model.ts. */
module SurfaceGroups {
  import opened Wrappers
  import opened Text
  import opened Sorting

  datatype Severity = Critical | High | Medium | Low | Info | OtherSeverity

  datatype Asset = Asset(id: int, value: string)

  datatype Finding = Finding(
    id: int, assetId: int, check: string, findingId: string, subject: string, severity: Severity,
    resolvedAt: Option<string>)

  datatype Group = Group(asset: Asset, findings: seq<Finding>, resolved: seq<Finding>, worst: Option<Severity>)

  /** 5 for critical down to 1 for info; 0 for a severity that is not in the list. */
  function SeverityRank(s: Severity): nat {
    match s
    case Critical => 5
    case High => 4
    case Medium => 3
    case Low => 2
    case Info => 1
    case OtherSeverity => 0
  }

  // ---- orders ----------------------------------------------------------------------

  /** localeCompare: a total preorder on texts, whatever the locale. */
  type Collator = (string, string) -> int

  ghost predicate IsCollator(c: Collator) {
    (forall x, y :: c(x, y) <= 0 <==> c(y, x) >= 0) &&
    (forall x, y, z :: c(x, y) <= 0 && c(y, z) <= 0 ==> c(x, z) <= 0)
  }

  function Then(first: int, next: int): int {
    if first != 0 then first else next
  }

  function MostSevereFirst(c: Collator): (Finding, Finding) -> bool {
    (a: Finding, b: Finding) =>
      Then(SeverityRank(b.severity) - SeverityRank(a.severity),
           Then(c(a.check, b.check), Then(c(a.findingId, b.findingId), c(a.subject, b.subject)))) <= 0
  }

  function ResolvedText(f: Finding): string {
    if f.resolvedAt.Some? then f.resolvedAt.value else ""
  }

  function NewestFirst(c: Collator): (Finding, Finding) -> bool {
    (a: Finding, b: Finding) => c(ResolvedText(b), ResolvedText(a)) <= 0
  }

  function WorstRank(g: Group): nat {
    if g.worst.Some? then SeverityRank(g.worst.value) else 0
  }

  function WorstFirst(c: Collator): (Group, Group) -> bool {
    (a: Group, b: Group) => Then(WorstRank(b) - WorstRank(a), c(a.asset.value, b.asset.value)) <= 0
  }

  lemma CollatorAt(c: Collator, x: string, y: string, z: string)
    requires IsCollator(c)
    ensures c(x, y) <= 0 || c(y, x) <= 0
    ensures c(x, y) == 0 <==> c(x, y) <= 0 && c(y, x) <= 0
    ensures c(x, y) <= 0 && c(y, z) <= 0 ==> c(x, z) <= 0
    ensures c(x, y) <= 0 && c(y, z) <= 0 && c(x, z) == 0 ==> c(x, y) == 0 && c(y, z) == 0
  {
    assert c(x, y) <= 0 <==> c(y, x) >= 0;
    assert c(z, y) <= 0 <==> c(y, z) >= 0;
    assert c(z, x) <= 0 <==> c(x, z) >= 0;
  }

  lemma SevereFirstTotal(c: Collator)
    requires IsCollator(c)
    ensures TotalPreorder(MostSevereFirst(c))
  {
    var leq := MostSevereFirst(c);
    forall x: Finding, y: Finding ensures leq(x, y) || leq(y, x) {
      CollatorAt(c, x.check, y.check, x.check);
      CollatorAt(c, x.findingId, y.findingId, x.findingId);
      CollatorAt(c, x.subject, y.subject, x.subject);
    }
    forall x: Finding, y: Finding, z: Finding | leq(x, y) && leq(y, z) ensures leq(x, z) {
      CollatorAt(c, x.check, y.check, z.check);
      CollatorAt(c, x.findingId, y.findingId, z.findingId);
      CollatorAt(c, x.subject, y.subject, z.subject);
    }
  }

  lemma NewestFirstTotal(c: Collator)
    requires IsCollator(c)
    ensures TotalPreorder(NewestFirst(c))
  {
    var leq := NewestFirst(c);
    forall x: Finding, y: Finding ensures leq(x, y) || leq(y, x) {
      CollatorAt(c, ResolvedText(y), ResolvedText(x), "");
    }
    forall x: Finding, y: Finding, z: Finding | leq(x, y) && leq(y, z) ensures leq(x, z) {
      CollatorAt(c, ResolvedText(z), ResolvedText(y), ResolvedText(x));
    }
  }

  lemma WorstFirstTotal(c: Collator)
    requires IsCollator(c)
    ensures TotalPreorder(WorstFirst(c))
  {
    var leq := WorstFirst(c);
    forall x: Group, y: Group ensures leq(x, y) || leq(y, x) {
      CollatorAt(c, x.asset.value, y.asset.value, "");
    }
    forall x: Group, y: Group, z: Group | leq(x, y) && leq(y, z) ensures leq(x, z) {
      CollatorAt(c, x.asset.value, y.asset.value, z.asset.value);
    }
  }

  // ---- the orders, from the list of severities ------------------------------------------------

  /** s comes before t in the list critical, high, medium, low, info; a severity outside it comes last. */
  predicate MoreSevere(s: Severity, t: Severity) {
    match s
    case Critical => t != Critical
    case High => t != Critical && t != High
    case Medium => t == Low || t == Info || t == OtherSeverity
    case Low => t == Info || t == OtherSeverity
    case Info => t == OtherSeverity
    case OtherSeverity => false
  }

  /** A text that does not come later, and if it comes neither earlier nor later, the rest decides. */
  predicate NotLater(c: Collator, x: string, y: string, rest: bool) {
    c(x, y) < 0 || (c(x, y) == 0 && rest)
  }

  /** a may stand before b in an open list: it is more severe, or as severe and not later by check, finding and
      subject. */
  predicate FindingBefore(c: Collator, a: Finding, b: Finding) {
    MoreSevere(a.severity, b.severity) ||
    (a.severity == b.severity &&
     NotLater(c, a.check, b.check, NotLater(c, a.findingId, b.findingId, c(a.subject, b.subject) <= 0)))
  }

  /** A group whose worst open finding has a severity of the list. */
  predicate Rated(g: Group) {
    g.worst.Some? && g.worst.value != OtherSeverity
  }

  /** g may stand before h: its worst is more severe, or h has none of the list, or they are alike and the names are
      in order. */
  predicate GroupBefore(c: Collator, g: Group, h: Group) {
    if Rated(g) && Rated(h) then
      MoreSevere(g.worst.value, h.worst.value) ||
      (g.worst.value == h.worst.value && c(g.asset.value, h.asset.value) <= 0)
    else Rated(g) || (!Rated(h) && c(g.asset.value, h.asset.value) <= 0)
  }

  lemma RankMeans(s: Severity, t: Severity)
    ensures SeverityRank(s) > SeverityRank(t) <==> MoreSevere(s, t)
    ensures SeverityRank(s) == SeverityRank(t) <==> s == t
  {
  }

  lemma FindingOrder(c: Collator, a: Finding, b: Finding)
    ensures MostSevereFirst(c)(a, b) <==> FindingBefore(c, a, b)
  {
    RankMeans(a.severity, b.severity);
    RankMeans(b.severity, a.severity);
    var rest := Then(c(a.check, b.check), Then(c(a.findingId, b.findingId), c(a.subject, b.subject)));
    assert MostSevereFirst(c)(a, b) <==> Then(SeverityRank(b.severity) - SeverityRank(a.severity), rest) <= 0;
  }

  lemma GroupOrder(c: Collator, g: Group, h: Group)
    ensures WorstFirst(c)(g, h) <==> GroupBefore(c, g, h)
  {
    if Rated(g) && Rated(h) {
      RankMeans(g.worst.value, h.worst.value);
      RankMeans(h.worst.value, g.worst.value);
    }
    assert WorstFirst(c)(g, h) <==> Then(WorstRank(h) - WorstRank(g), c(g.asset.value, h.asset.value)) <= 0;
  }

  /** What a group shows: its open findings, most severe first; its closed ones, none behind one that the collation
      puts earlier; and as its worst the most severe of the open ones. */
  ghost predicate Shows(c: Collator, g: Group) {
    (forall f :: f in g.findings ==> f.resolvedAt == None || f.resolvedAt == Some("")) &&
    (forall f :: f in g.resolved ==> f.resolvedAt.Some? && f.resolvedAt.value != "") &&
    (forall i, j :: 0 <= i < j < |g.findings| ==> FindingBefore(c, g.findings[i], g.findings[j])) &&
    (forall i, j :: 0 <= i < j < |g.resolved| ==> c(ResolvedText(g.resolved[j]), ResolvedText(g.resolved[i])) <= 0) &&
    ShowsWorst(g)
  }

  ghost predicate ShowsWorst(g: Group) {
    if g.findings == [] then g.worst == None
    else
      g.worst.Some? && (exists f :: f in g.findings && f.severity == g.worst.value) &&
      forall f :: f in g.findings ==> !MoreSevere(f.severity, g.worst.value)
  }

  lemma FinishedShows(assets: seq<Asset>, findings: seq<Finding>, c: Collator, k: nat, g: Group)
    requires k < |assets| && Finished(assets, findings, c, k, g)
    ensures Shows(c, g)
  {
    forall f | f in g.findings ensures f.resolvedAt == None || f.resolvedAt == Some("") {
      SharedFinding(assets, findings, k, false, g.findings, f);
    }
    forall f | f in g.resolved ensures f.resolvedAt.Some? && f.resolvedAt.value != "" {
      SharedFinding(assets, findings, k, true, g.resolved, f);
    }
    forall i, j | 0 <= i < j < |g.findings| ensures FindingBefore(c, g.findings[i], g.findings[j]) {
      FindingOrder(c, g.findings[i], g.findings[j]);
    }
    forall i, j | 0 <= i < j < |g.resolved|
      ensures c(ResolvedText(g.resolved[j]), ResolvedText(g.resolved[i])) <= 0
    {
      assert NewestFirst(c)(g.resolved[i], g.resolved[j]);
    }
    WorstShows(g);
  }

  lemma WorstShows(g: Group)
    requires WorstIsMaximal(g)
    ensures ShowsWorst(g)
  {
    forall f | f in g.findings ensures !MoreSevere(f.severity, g.worst.value) {
      RankMeans(f.severity, g.worst.value);
    }
  }

  lemma SharedFinding(
    assets: seq<Asset>, findings: seq<Finding>, k: nat, closed: bool, listed: seq<Finding>, f: Finding)
    requires k < |assets| && multiset(listed) == multiset(Share(assets, findings, k, closed)) && f in listed
    ensures Closed(f) == closed
  {
    assert f in multiset(Share(assets, findings, k, closed));
    OfCounts(findings, assets[k].id, closed, f);
  }

  /** Where the collation agrees with the order of the time texts, as it does on those of one format, a later
      resolution never stands behind an earlier one. */
  lemma LatestFirst(c: Collator, g: Group, i: nat, j: nat)
    requires Shows(c, g) && i < j < |g.resolved|
    requires Less(g.resolved[i].resolvedAt.value, g.resolved[j].resolvedAt.value) ==>
      c(g.resolved[j].resolvedAt.value, g.resolved[i].resolvedAt.value) > 0
    ensures !Less(g.resolved[i].resolvedAt.value, g.resolved[j].resolvedAt.value)
  {
    assert c(ResolvedText(g.resolved[j]), ResolvedText(g.resolved[i])) <= 0;
  }

  // ---- where a finding belongs --------------------------------------------------------

  /** A finding with a resolution time is closed; an empty one leaves it open. */
  predicate Closed(f: Finding) {
    f.resolvedAt.Some? && f.resolvedAt.value != ""
  }

  /** The group a Map built from the assets gives for an id: the last asset's that has it. */
  function Home(assets: seq<Asset>, id: int): (k: int)
    ensures -1 <= k < |assets| && (k >= 0 ==> assets[k].id == id)
    ensures forall j :: k < j < |assets| ==> assets[j].id != id
  {
    if assets == [] then -1
    else if assets[|assets| - 1].id == id then |assets| - 1
    else Home(assets[..|assets| - 1], id)
  }

  predicate Belongs(f: Finding, id: int, closed: bool) {
    f.assetId == id && Closed(f) == closed
  }

  function Of(findings: seq<Finding>, id: int, closed: bool): seq<Finding> {
    if findings == [] then []
    else
      var f := findings[|findings| - 1];
      Of(findings[..|findings| - 1], id, closed) + if Belongs(f, id, closed) then [f] else []
  }

  /** How often a group lists f. */
  function Times(g: Group, f: Finding): nat {
    multiset(g.findings)[f] + multiset(g.resolved)[f]
  }

  /** How often the groups together list f. */
  function Listed(groups: seq<Group>, f: Finding): nat {
    if groups == [] then 0 else Times(groups[0], f) + Listed(groups[1..], f)
  }

  lemma {:induction false} ListedInsert(leq: (Group, Group) -> bool, g: Group, s: seq<Group>, f: Finding)
    ensures Listed(Insert(leq, g, s), f) == Times(g, f) + Listed(s, f)
  {
    if s != [] && !leq(g, s[0]) {
      ListedInsert(leq, g, s[1..], f);
      assert Insert(leq, g, s)[1..] == Insert(leq, g, s[1..]);
    } else {
      assert Insert(leq, g, s)[1..] == s;
    }
  }

  lemma {:induction false} ListedSort(leq: (Group, Group) -> bool, s: seq<Group>, f: Finding)
    ensures Listed(Sort(leq, s), f) == Listed(s, f)
  {
    if s != [] {
      ListedSort(leq, s[1..], f);
      ListedInsert(leq, s[0], Sort(leq, s[1..]), f);
    }
  }

  /** A finding listed in one group only is listed as often as that group lists it. */
  lemma {:induction false} ListedOnce(groups: seq<Group>, f: Finding, home: int)
    requires forall k :: 0 <= k < |groups| && k != home ==> Times(groups[k], f) == 0
    ensures Listed(groups, f) == if 0 <= home < |groups| then Times(groups[home], f) else 0
  {
    if groups != [] {
      ListedOnce(groups[1..], f, home - 1);
    }
  }

  lemma {:induction false} OfCounts(findings: seq<Finding>, id: int, closed: bool, f: Finding)
    ensures multiset(Of(findings, id, closed))[f] ==
      if Belongs(f, id, closed) then multiset(findings)[f] else 0
  {
    if findings != [] {
      var init, last := findings[..|findings| - 1], findings[|findings| - 1];
      OfCounts(init, id, closed, f);
      assert findings == init + [last];
      CountSnoc(init, last, f);
      OfSnoc(init, last, id, closed);
      if Belongs(last, id, closed) { CountSnoc(Of(init, id, closed), last, f); }
    }
  }

  lemma OfSnoc(findings: seq<Finding>, last: Finding, id: int, closed: bool)
    ensures Of(findings + [last], id, closed) ==
      if Belongs(last, id, closed) then Of(findings, id, closed) + [last] else Of(findings, id, closed)
  {
    assert (findings + [last])[..|findings|] == findings;
    assert Of(findings, id, closed) + [] == Of(findings, id, closed);
  }

  lemma CountSnoc<T>(s: seq<T>, x: T, y: T)
    ensures multiset(s + [x])[y] == multiset(s)[y] + if x == y then 1 else 0
  {
  }

  function AssetsOf(groups: seq<Group>): (r: seq<Asset>)
    ensures |r| == |groups| && forall i :: 0 <= i < |r| ==> r[i] == groups[i].asset
  {
    if groups == [] then [] else [groups[0].asset] + AssetsOf(groups[1..])
  }

  // ---- the grouping -----------------------------------------------------------------------

  /** The findings of group k before sorting: those of its asset, if it is the one the Map holds. */
  function Share(assets: seq<Asset>, findings: seq<Finding>, k: nat, closed: bool): seq<Finding>
    requires k < |assets|
  {
    if Home(assets, assets[k].id) == k then Of(findings, assets[k].id, closed) else []
  }

  /** The worst severity is that of some open finding, and none is worse. */
  ghost predicate WorstIsMaximal(g: Group) {
    if g.findings == [] then g.worst == None
    else g.worst.Some? && (exists f :: f in g.findings && f.severity == g.worst.value) &&
         forall f :: f in g.findings ==> SeverityRank(f.severity) <= SeverityRank(g.worst.value)
  }

  /** A finished group: its share of the findings, each list in order. */
  ghost predicate Finished(assets: seq<Asset>, findings: seq<Finding>, c: Collator, k: nat, g: Group)
    requires k < |assets|
  {
    g.asset == assets[k] &&
    multiset(g.findings) == multiset(Share(assets, findings, k, false)) &&
    multiset(g.resolved) == multiset(Share(assets, findings, k, true)) &&
    Sorted(MostSevereFirst(c), g.findings) && Sorted(NewestFirst(c), g.resolved) && WorstIsMaximal(g)
  }

  lemma FinishedTimes(assets: seq<Asset>, findings: seq<Finding>, c: Collator, k: nat, g: Group, f: Finding)
    requires k < |assets| && Finished(assets, findings, c, k, g)
    ensures Times(g, f) == if Home(assets, f.assetId) == k then multiset(findings)[f] else 0
  {
    OfCounts(findings, assets[k].id, false, f);
    OfCounts(findings, assets[k].id, true, f);
  }

  /** How often f has to be listed: as often as it was given, if its asset was declared. */
  function Due(assets: seq<Asset>, findings: seq<Finding>, f: Finding): nat {
    if Home(assets, f.assetId) >= 0 then multiset(findings)[f] else 0
  }

  lemma FinishedListed(assets: seq<Asset>, findings: seq<Finding>, c: Collator, groups: seq<Group>, f: Finding)
    requires |groups| == |assets| && forall k :: 0 <= k < |assets| ==> Finished(assets, findings, c, k, groups[k])
    ensures Listed(groups, f) == Due(assets, findings, f)
  {
    forall k | 0 <= k < |groups|
      ensures Times(groups[k], f) == if Home(assets, f.assetId) == k then multiset(findings)[f] else 0
    {
      FinishedTimes(assets, findings, c, k, groups[k], f);
    }
    ListedOnce(groups, f, Home(assets, f.assetId));
  }

  /** Group k with the shares it has after some findings. */
  function Holding(assets: seq<Asset>, findings: seq<Finding>, k: nat): Group
    requires k < |assets|
  {
    Group(assets[k], Share(assets, findings, k, false), Share(assets, findings, k, true), None)
  }

  lemma HomeSnoc(assets: seq<Asset>, k: nat, id: int)
    requires k < |assets|
    ensures Home(assets[..k + 1], id) == if assets[k].id == id then k else Home(assets[..k], id)
  {
    assert assets[..k + 1][..k] == assets[..k];
  }

  /** new Map(groups.map(g => [g.asset.id, g])): a later asset with the same id replaces an earlier one. */
  method IndexAssets(assets: seq<Asset>) returns (byId: map<int, nat>)
    ensures forall id :: (id in byId <==> Home(assets, id) >= 0) && (id in byId ==> byId[id] == Home(assets, id))
  {
    byId := map[];
    for k := 0 to |assets|
      invariant forall id ::
        (id in byId <==> Home(assets[..k], id) >= 0) && (id in byId ==> byId[id] == Home(assets[..k], id))
    {
      forall id { HomeSnoc(assets, k, id); }
      byId := byId[assets[k].id := k];
    }
    assert assets[..|assets|] == assets;
  }

  /** One more finding changes the share of its home and no other. */
  lemma HoldingSnoc(assets: seq<Asset>, findings: seq<Finding>, f: Finding, k: nat)
    requires k < |assets|
    ensures var g := Holding(assets, findings, k);
      Holding(assets, findings + [f], k) ==
        if Home(assets, f.assetId) != k then g
        else if Closed(f) then g.(resolved := g.resolved + [f]) else g.(findings := g.findings + [f])
  {
    assert (findings + [f])[..|findings|] == findings;
  }

  method CollectGroups(assets: seq<Asset>, findings: seq<Finding>) returns (groups: seq<Group>)
    ensures |groups| == |assets| && forall k :: 0 <= k < |assets| ==> groups[k] == Holding(assets, findings, k)
  {
    groups := seq(|assets|, k requires 0 <= k < |assets| => Group(assets[k], [], [], None));
    var byId := IndexAssets(assets);
    for i := 0 to |findings|
      invariant |groups| == |assets| && forall k :: 0 <= k < |assets| ==> groups[k] == Holding(assets, findings[..i], k)
    {
      var f := findings[i];
      assert findings[..i + 1] == findings[..i] + [f];
      forall k | 0 <= k < |assets| { HoldingSnoc(assets, findings[..i], f, k); }
      if f.assetId in byId {
        var k := byId[f.assetId];
        var g := groups[k];
        groups := groups[k := if Closed(f) then g.(resolved := g.resolved + [f]) else g.(findings := g.findings + [f])];
      }
    }
    assert findings[..|findings|] == findings;
  }

  lemma SortedWorst(c: Collator, findings: seq<Finding>)
    requires findings != [] && Sorted(MostSevereFirst(c), findings)
    ensures forall f :: f in findings ==> SeverityRank(f.severity) <= SeverityRank(findings[0].severity)
  {
    forall f | f in findings ensures SeverityRank(f.severity) <= SeverityRank(findings[0].severity) {
      var i :| 0 <= i < |findings| && findings[i] == f;
      if i > 0 {
        LessSevereAfter(c, findings[0], findings[i]);
      }
    }
  }

  lemma LessSevereAfter(c: Collator, a: Finding, b: Finding)
    requires MostSevereFirst(c)(a, b)
    ensures SeverityRank(b.severity) <= SeverityRank(a.severity)
  {
    var leq := MostSevereFirst(c);
    assert leq(a, b);
    var d := SeverityRank(b.severity) - SeverityRank(a.severity);
    var e := Then(c(a.check, b.check), Then(c(a.findingId, b.findingId), c(a.subject, b.subject)));
    assert leq(a, b) == (Then(d, e) <= 0);
  }

  method FinishGroup(g: Group, c: Collator) returns (r: Group)
    requires IsCollator(c)
    ensures r.asset == g.asset
    ensures multiset(r.findings) == multiset(g.findings) && multiset(r.resolved) == multiset(g.resolved)
    ensures Sorted(MostSevereFirst(c), r.findings) && Sorted(NewestFirst(c), r.resolved) && WorstIsMaximal(r)
  {
    SevereFirstTotal(c);
    NewestFirstTotal(c);
    SortSorted(MostSevereFirst(c), g.findings);
    SortSorted(NewestFirst(c), g.resolved);
    var findings, resolved := Sort(MostSevereFirst(c), g.findings), Sort(NewestFirst(c), g.resolved);
    var worst := None;
    if |findings| > 0 {
      worst := Some(findings[0].severity);
      assert findings[0] in findings;
      SortedWorst(c, findings);
    }
    r := Group(g.asset, findings, resolved, worst);
  }

  method FinishGroups(assets: seq<Asset>, findings: seq<Finding>, c: Collator) returns (groups: seq<Group>)
    requires IsCollator(c)
    ensures |groups| == |assets| && forall k :: 0 <= k < |assets| ==> Finished(assets, findings, c, k, groups[k])
  {
    groups := CollectGroups(assets, findings);
    for k := 0 to |groups|
      invariant |groups| == |assets|
      invariant forall j :: 0 <= j < k ==> Finished(assets, findings, c, j, groups[j])
      invariant forall j :: k <= j < |assets| ==> groups[j] == Holding(assets, findings, j)
    {
      var g := FinishGroup(groups[k], c);
      assert Finished(assets, findings, c, k, g);
      groups := groups[k := g];
    }
  }

  /** Every declared asset gets one group, the groups together list every finding of a declared asset
      exactly as often as it was given and nothing else, every list is in order, and the groups are
      ordered worst first. */
  method GroupByAsset(assets: seq<Asset>, findings: seq<Finding>, c: Collator) returns (groups: seq<Group>)
    requires IsCollator(c)
    ensures multiset(AssetsOf(groups)) == multiset(assets)
    ensures forall f :: Listed(groups, f) == Due(assets, findings, f)
    ensures forall g :: g in groups ==> exists k :: 0 <= k < |assets| && Finished(assets, findings, c, k, g)
    ensures forall g :: g in groups ==> Shows(c, g)
    ensures forall i, j :: 0 <= i < j < |groups| ==> GroupBefore(c, groups[i], groups[j])
  {
    var unsorted := FinishGroups(assets, findings, c);
    assert AssetsOf(unsorted) == assets;
    WorstFirstTotal(c);
    SortSorted(WorstFirst(c), unsorted);
    AssetsSort(WorstFirst(c), unsorted);
    groups := Sort(WorstFirst(c), unsorted);
    forall f ensures Listed(groups, f) == Due(assets, findings, f) {
      FinishedListed(assets, findings, c, unsorted, f);
      ListedSort(WorstFirst(c), unsorted, f);
    }
    forall g | g in groups ensures exists k :: 0 <= k < |assets| && Finished(assets, findings, c, k, g) {
      assert g in multiset(unsorted);
      var k :| 0 <= k < |unsorted| && unsorted[k] == g;
      assert Finished(assets, findings, c, k, g);
    }
    forall g | g in groups ensures Shows(c, g) {
      var k :| 0 <= k < |assets| && Finished(assets, findings, c, k, g);
      FinishedShows(assets, findings, c, k, g);
    }
    forall i, j | 0 <= i < j < |groups| ensures GroupBefore(c, groups[i], groups[j]) {
      GroupOrder(c, groups[i], groups[j]);
    }
  }

  lemma {:induction false} AssetsInsert(leq: (Group, Group) -> bool, g: Group, s: seq<Group>)
    ensures multiset(AssetsOf(Insert(leq, g, s))) == multiset{g.asset} + multiset(AssetsOf(s))
  {
    if s == [] || leq(g, s[0]) {
      assert ([g] + s)[1..] == s;
    } else {
      AssetsInsert(leq, g, s[1..]);
      assert Insert(leq, g, s)[1..] == Insert(leq, g, s[1..]);
    }
  }

  lemma {:induction false} AssetsSort(leq: (Group, Group) -> bool, s: seq<Group>)
    ensures multiset(AssetsOf(Sort(leq, s))) == multiset(AssetsOf(s))
  {
    if s != [] {
      AssetsSort(leq, s[1..]);
      AssetsInsert(leq, s[0], Sort(leq, s[1..]));
    }
  }

  /** With distinct asset ids, a finished group lists exactly the findings of its asset. */
  lemma DistinctIdsShare(assets: seq<Asset>, findings: seq<Finding>, k: nat, closed: bool)
    requires forall i, j :: 0 <= i < j < |assets| ==> assets[i].id != assets[j].id
    requires k < |assets|
    ensures Share(assets, findings, k, closed) == Of(findings, assets[k].id, closed)
  {
    var h := Home(assets, assets[k].id);
    assert h >= k;
  }
}
