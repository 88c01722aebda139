/** Whether a Windows release still gets security updates: lib/os-lifecycle.ts. */
module OsLifecycle {
  import opened Wrappers
  import opened Text
  import opened Filtering
  import opened Sorting

  /** A row of the release calendar. build is the build number read from its newest version; eolFrom
      is "" or a YYYY-MM-DD text. */
  datatype OsRelease = OsRelease(product: string, cycle: string, eolFrom: string, build: Option<nat>)

  datatype Kind = Server | ServerSac | Client
  datatype Track = TrackW | TrackE | Ltsc | IotLtsc
  datatype Edition = Edition(kind: Option<Kind>, track: Option<Track>, fromCaption: bool)

  // ---- reading the edition -----------------------------------------------------------

  predicate EndsWith(s: string, w: string) {
    |w| <= |s| && s[|s| - |w|..] == w
  }

  predicate StandsAt(s: string, w: string, i: nat) {
    i + |w| <= |s| && s[i..i + |w|] == w
  }

  predicate Contains(s: string, w: string) {
    exists i: nat :: i <= |s| && StandsAt(s, w, i)
  }

  predicate IsWordChar(c: char) {
    'a' <= c <= 'z' || 'A' <= c <= 'Z' || '0' <= c <= '9' || c == '_'
  }

  /** /\bw\b/, for a w that begins and ends with word characters. */
  predicate HasWord(s: string, w: string) {
    exists i: nat :: i <= |s| && StandsAt(s, w, i) &&
      (i == 0 || !IsWordChar(s[i - 1])) && (i + |w| == |s| || !IsWordChar(s[i + |w|]))
  }

  const UNKNOWN := Edition(None, None, false)

  function WindowsEdition(editionId: string, caption: string): Edition {
    var id := Lower(Trim(editionId));
    if id != "" then
      if "server" <= id then Edition(Some(if EndsWith(id, "acor") then ServerSac else Server), None, false)
      else if id == "enterprises" || id == "enterprisesn" then Edition(Some(Client), Some(Ltsc), false)
      else if id == "iotenterprises" then Edition(Some(Client), Some(IotLtsc), false)
      else if "core" <= id || "professional" <= id then Edition(Some(Client), Some(TrackW), false)
      else if "enterprise" <= id || "education" <= id || "iotenterprise" <= id then
        Edition(Some(Client), Some(TrackE), false)
      else UNKNOWN
    else
      var c := Lower(caption);
      if HasWord(c, "server") then Edition(Some(Server), None, true)
      else if Contains(c, "ltsc") || Contains(c, "ltsb") then
        Edition(Some(Client), Some(if HasWord(c, "iot") then IotLtsc else Ltsc), true)
      else if HasWord(c, "home") || HasWord(c, "pro") || HasWord(c, "pro education") || HasWord(c, "workstation") then
        Edition(Some(Client), Some(TrackW), true)
      else if Contains(c, "enterprise") || Contains(c, "education") || HasWord(c, "iot") then
        Edition(Some(Client), Some(TrackE), true)
      else UNKNOWN
  }

  // ---- narrowing the calendar ----------------------------------------------------------

  datatype Variant = VariantOfTrack(track: Track) | IotCore | Common | Sac | ServerVariant

  function VariantOf(r: OsRelease): Variant {
    var c := Lower(r.cycle);
    if r.product == "windows-server" then
      if EndsWith(c, "-sac") || EndsWith(c, "-ac") then Sac else ServerVariant
    else if EndsWith(c, "-iot-lts") then VariantOfTrack(IotLtsc)
    else if EndsWith(c, "-e-lts") then VariantOfTrack(Ltsc)
    else if EndsWith(c, "-iot") then IotCore
    else if EndsWith(c, "-e") then VariantOfTrack(TrackE)
    else if EndsWith(c, "-w") then VariantOfTrack(TrackW)
    else Common
  }

  /** A calendar row as the verdict reads it: listed rows are of the windows and windows-server products. */
  datatype Row = Row(release: OsRelease, listed: bool, variant: Variant)

  function Read(r: OsRelease): Row {
    Row(r, r.product == "windows" || r.product == "windows-server", VariantOf(r))
  }

  function ReadAll(calendar: seq<OsRelease>): (rows: seq<Row>)
    ensures |rows| == |calendar|
  {
    seq(|calendar|, i requires 0 <= i < |calendar| => Read(calendar[i]))
  }

  lemma LowerSuffix(p: string, w: string)
    requires forall i :: 0 <= i < |w| ==> !('A' <= w[i] <= 'Z')
    ensures Lower(p + w) == Lower(p) + w && EndsWith(Lower(p + w), w)
  {
    var s := Lower(p + w);
    assert s[|p|..] == w;
    assert s[..|p|] == Lower(p);
  }

  /** A text ends in at most one of two texts that differ somewhere, counted from the end. */
  lemma OneEnding(c: string, v: string, w: string, back: nat)
    requires 1 <= back <= |v| && back <= |w| && v[|v| - back] != w[|w| - back]
    ensures !(EndsWith(c, v) && EndsWith(c, w))
  {
    if |v| <= |c| { assert c[|c| - |v|..][|v| - back] == c[|c| - back]; }
    if |w| <= |c| { assert c[|c| - |w|..][|w| - back] == c[|c| - back]; }
  }

  /** Which cycles belong to which edition. Each suffix decides by itself: the order in which they are tried
      does not matter, because no cycle has two of them. */
  lemma CycleTable(r: OsRelease)
    ensures var c, v := Lower(r.cycle), VariantOf(r);
      if r.product == "windows-server" then
        (v == Sac <==> EndsWith(c, "-sac") || EndsWith(c, "-ac")) && (v == ServerVariant <==> v != Sac)
      else
        (v == VariantOfTrack(TrackW) <==> EndsWith(c, "-w")) &&
        (v == VariantOfTrack(TrackE) <==> EndsWith(c, "-e")) &&
        (v == VariantOfTrack(Ltsc) <==> EndsWith(c, "-e-lts")) &&
        (v == VariantOfTrack(IotLtsc) <==> EndsWith(c, "-iot-lts")) &&
        (v == IotCore <==> EndsWith(c, "-iot")) &&
        (v == Common <==> !v.VariantOfTrack? && v != IotCore)
  {
    var c := Lower(r.cycle);
    OneEnding(c, "-w", "-e", 1);
    OneEnding(c, "-w", "-iot", 1);
    OneEnding(c, "-w", "-e-lts", 1);
    OneEnding(c, "-w", "-iot-lts", 1);
    OneEnding(c, "-e", "-iot", 1);
    OneEnding(c, "-e", "-e-lts", 1);
    OneEnding(c, "-e", "-iot-lts", 1);
    OneEnding(c, "-iot", "-e-lts", 1);
    OneEnding(c, "-iot", "-iot-lts", 1);
    OneEnding(c, "-e-lts", "-iot-lts", 5);
  }

  predicate Fits(v: Variant, e: Edition) {
    match e.kind
    case Some(Server) => v == ServerVariant
    case Some(ServerSac) => v == Sac
    case Some(Client) => (v.VariantOfTrack? && e.track == Some(v.track)) || v == Common
    case None => v != Sac && v != IotCore
  }

  function OfBuild(build: nat): Row -> bool {
    (r: Row) => r.listed && r.release.build == Some(build)
  }

  function OfEdition(e: Edition): Row -> bool {
    (r: Row) => Fits(r.variant, e)
  }

  function OfVerdict(v: Option<bool>, today: string): Row -> bool {
    (r: Row) => Verdict(r, today) == v
  }

  // ---- the verdict ------------------------------------------------------------------------

  /** None: the calendar has no end date. */
  function Verdict(r: Row, today: string): Option<bool> {
    if r.release.eolFrom == "" then None else Some(Less(today, r.release.eolFrom))
  }

  datatype Reason =
    | NoBuild | NoCalendar | NotInCalendar | NoneForEdition | NoEndDate
    | Says(pick: Row)
    | Disagree(yes: seq<Row>, no: seq<Row>)

  datatype Support = Support(state: Option<bool>, reason: Reason, cycles: seq<Row>)

  function EndsLater(): (Row, Row) -> bool {
    (a: Row, b: Row) => !Less(a.release.eolFrom, b.release.eolFrom)
  }

  /** The rows a host of this edition and build could be. */
  function Candidates(e: Edition, build: nat, calendar: seq<Row>): (rows: seq<Row>)
    ensures forall r :: r in rows <==> r in calendar && OfBuild(build)(r) && OfEdition(e)(r)
  {
    WhereMembers(calendar, OfBuild(build));
    WhereMembers(Where(calendar, OfBuild(build)), OfEdition(e));
    Where(Where(calendar, OfBuild(build)), OfEdition(e))
  }

  /** What the candidate rows say together. */
  function Judge(rows: seq<Row>, today: string): Support
    requires rows != []
  {
    var yes, no := Where(rows, OfVerdict(Some(true), today)), Where(rows, OfVerdict(Some(false), today));
    if Where(rows, OfVerdict(None, today)) != [] then Support(None, NoEndDate, rows)
    else if no == [] || yes == [] then Support(Some(no == []), Says(Sort(EndsLater(), rows)[0]), rows)
    else Support(None, Disagree(yes, no), rows)
  }

  function WindowsSupport(e: Edition, build: Option<nat>, calendar: seq<Row>, today: string): Support {
    if build.None? then Support(None, NoBuild, [])
    else if calendar == [] then Support(None, NoCalendar, [])
    else if Where(calendar, OfBuild(build.value)) == [] then Support(None, NotInCalendar, [])
    else
      var rows := Candidates(e, build.value, calendar);
      if rows == [] then Support(None, NoneForEdition, []) else Judge(rows, today)
  }

  /** The answer for a host as it reports itself. */
  function HostSupport(
    editionId: string, caption: string, build: Option<nat>, calendar: seq<OsRelease>, today: string): Support
  {
    WindowsSupport(WindowsEdition(editionId, caption), build, ReadAll(calendar), today)
  }

  // ---- what a verdict means -----------------------------------------------------------------

  /** r is a row of the calendar that a host of this edition and build could be. */
  predicate Judged(r: Row, e: Edition, build: Option<nat>, calendar: seq<Row>) {
    r in calendar && build.Some? && OfBuild(build.value)(r) && OfEdition(e)(r)
  }

  ghost predicate Unanimous(rows: seq<Row>, today: string, ok: bool) {
    forall r :: r in rows ==> Verdict(r, today) == Some(ok)
  }

  lemma JudgeMeaning(rows: seq<Row>, today: string)
    requires rows != []
    ensures Judge(rows, today).state == Some(true) <==> Unanimous(rows, today, true)
    ensures Judge(rows, today).state == Some(false) <==> Unanimous(rows, today, false)
  {
    UnanimousMeans(rows, today, true);
    UnanimousMeans(rows, today, false);
    NotUnanimous(rows, today);
    NoneOfVerdict(rows, today, Some(true));
    NoneOfVerdict(rows, today, Some(false));
  }

  lemma OneOfThree(v: Option<bool>)
    ensures v == None || v == Some(true) || v == Some(false)
  {
    if v.Some? {
      if v.value { assert v == Some(true); } else { assert v == Some(false); }
    }
  }

  /** Unanimous means that no row is undated and none says the opposite. */
  lemma UnanimousMeans(rows: seq<Row>, today: string, ok: bool)
    ensures Unanimous(rows, today, ok) <==>
      Where(rows, OfVerdict(None, today)) == [] && Where(rows, OfVerdict(Some(!ok), today)) == []
  {
    NoneOfVerdict(rows, today, None);
    NoneOfVerdict(rows, today, Some(!ok));
    forall r ensures Verdict(r, today) == Some(ok) <==>
      Verdict(r, today) != None && Verdict(r, today) != Some(!ok)
    {
      OneOfThree(Verdict(r, today));
    }
  }

  lemma NotUnanimous(rows: seq<Row>, today: string)
    requires rows != []
    ensures !(Unanimous(rows, today, true) && Unanimous(rows, today, false))
  {
    assert rows[0] in rows;
  }

  lemma NoneOfVerdict(rows: seq<Row>, today: string, v: Option<bool>)
    ensures Where(rows, OfVerdict(v, today)) == [] <==> forall r :: r in rows ==> Verdict(r, today) != v
  {
    var found := Where(rows, OfVerdict(v, today));
    WhereMembers(rows, OfVerdict(v, today));
    if found != [] { assert found[0] in found; }
  }

  /** A verdict is given exactly when some row applies and all that apply agree. */
  lemma SupportMeaning(e: Edition, build: Option<nat>, calendar: seq<Row>, today: string, ok: bool)
    ensures WindowsSupport(e, build, calendar, today).state == Some(ok) <==>
      (exists r :: Judged(r, e, build, calendar)) &&
      forall r :: Judged(r, e, build, calendar) ==> Verdict(r, today) == Some(ok)
  {
    if build.Some? {
      var rows := Candidates(e, build.value, calendar);
      forall r ensures r in rows <==> Judged(r, e, build, calendar) {}
      if rows != [] {
        assert rows[0] in rows;
        JudgeMeaning(rows, today);
      }
    }
  }

  lemma EndsLaterTotal()
    ensures TotalPreorder(EndsLater())
  {
    forall x, y ensures EndsLater()(x, y) || EndsLater()(y, x) { LessTrichotomy(x.release.eolFrom, y.release.eolFrom); }
    forall x, y, z | EndsLater()(x, y) && EndsLater()(y, z) ensures EndsLater()(x, z) {
      LessTrichotomy(x.release.eolFrom, y.release.eolFrom);
      LessTrichotomy(y.release.eolFrom, z.release.eolFrom);
      if Less(x.release.eolFrom, z.release.eolFrom) && Less(z.release.eolFrom, y.release.eolFrom) {
        LessTransitive(x.release.eolFrom, z.release.eolFrom, y.release.eolFrom);
      }
    }
  }

  /** The row reported is one that applies, and none that applies ends later. */
  lemma PickEndsLast(e: Edition, build: Option<nat>, calendar: seq<Row>, today: string)
    requires WindowsSupport(e, build, calendar, today).state.Some?
    ensures var s := WindowsSupport(e, build, calendar, today);
      s.reason.Says? && Judged(s.reason.pick, e, build, calendar) &&
      Verdict(s.reason.pick, today) == s.state &&
      forall r :: Judged(r, e, build, calendar) ==> !Less(s.reason.pick.release.eolFrom, r.release.eolFrom)
  {
    var s := WindowsSupport(e, build, calendar, today);
    var rows := Candidates(e, build.value, calendar);
    JudgeMeaning(rows, today);
    PickIsLast(rows);
    var pick := Sort(EndsLater(), rows)[0];
    assert s.reason == Says(pick);
    forall r | Judged(r, e, build, calendar) ensures !Less(pick.release.eolFrom, r.release.eolFrom) {
      assert r in rows;
    }
  }

  lemma PickIsLast(rows: seq<Row>)
    requires rows != []
    ensures var sorted := Sort(EndsLater(), rows);
      sorted != [] && sorted[0] in rows &&
      forall r :: r in rows ==> !Less(sorted[0].release.eolFrom, r.release.eolFrom)
  {
    var sorted := Sort(EndsLater(), rows);
    assert |sorted| == |multiset(sorted)| == |multiset(rows)| == |rows|;
    EndsLaterTotal();
    SortSorted(EndsLater(), rows);
    assert sorted[0] in multiset(rows);
    forall r | r in rows ensures !Less(sorted[0].release.eolFrom, r.release.eolFrom) {
      assert r in multiset(sorted);
      var i :| 0 <= i < |sorted| && sorted[i] == r;
      LessTrichotomy(r.release.eolFrom, r.release.eolFrom);
      assert i > 0 ==> EndsLater()(sorted[0], sorted[i]);
    }
  }

  // ---- refinement ------------------------------------------------------------------------------

  lemma EditionsAreKnownKinds(editionId: string, caption: string)
    ensures var e := WindowsEdition(editionId, caption);
      (e.track.Some? <==> e.kind == Some(Client)) && (e.kind == Some(ServerSac) ==> !e.fromCaption)
  {
  }

  lemma UnknownFitsMore(v: Variant, u: Edition, e: Edition)
    requires u.kind.None? && e.kind != Some(ServerSac) && Fits(v, e)
    ensures Fits(v, u)
  {
  }

  /** An answer given without knowing the edition is never contradicted by learning it, unless the
      host turns out to be a semi-annual server release: the one kind the unknown edition leaves out. */
  lemma UnknownEditionIsSafe(u: Edition, e: Edition, build: Option<nat>, calendar: seq<Row>, today: string)
    requires u.kind.None? && e.kind != Some(ServerSac)
    ensures var unknown := WindowsSupport(u, build, calendar, today).state;
      var known := WindowsSupport(e, build, calendar, today).state;
      unknown.Some? ==> known == unknown || known == None
  {
    var unknown := WindowsSupport(u, build, calendar, today).state;
    var known := WindowsSupport(e, build, calendar, today).state;
    if unknown.Some? && known.Some? {
      SupportMeaning(u, build, calendar, today, unknown.value);
      SupportMeaning(e, build, calendar, today, known.value);
      var r :| Judged(r, e, build, calendar);
      UnknownFitsMore(r.variant, u, e);
      assert OfEdition(u)(r);
    }
  }

  /** The same for a host as it reports itself, before and after its edition can be read. */
  lemma HostVerdictIsSafe(
    editionId: string, caption: string, laterId: string, laterCaption: string, build: Option<nat>,
    calendar: seq<OsRelease>, today: string)
    requires WindowsEdition(editionId, caption).kind.None?
    requires WindowsEdition(laterId, laterCaption).kind != Some(ServerSac)
    ensures var before := HostSupport(editionId, caption, build, calendar, today).state;
      var after := HostSupport(laterId, laterCaption, build, calendar, today).state;
      before.Some? ==> after == before || after == None
  {
    UnknownEditionIsSafe(
      WindowsEdition(editionId, caption), WindowsEdition(laterId, laterCaption), build, ReadAll(calendar), today);
  }

  // ---- when learning the edition contradicts -----------------------------------------------------

  /** The calendar gives every release of this edition and build an end date, and there is one. */
  ghost predicate Dated(e: Edition, build: Option<nat>, calendar: seq<Row>) {
    (exists r :: Judged(r, e, build, calendar)) &&
    forall r :: Judged(r, e, build, calendar) ==> r.release.eolFrom != ""
  }

  /** Every release of edition x ends before every release of edition y does. */
  ghost predicate AllBefore(x: Edition, y: Edition, build: Option<nat>, calendar: seq<Row>) {
    Dated(x, build, calendar) && Dated(y, build, calendar) &&
    forall r, s :: Judged(r, x, build, calendar) && Judged(s, y, build, calendar) ==>
      Less(r.release.eolFrom, s.release.eolFrom)
  }

  /** On this day the calendar says of x that it is out of support and of y that it is in support. */
  ghost predicate Parted(x: Edition, y: Edition, build: Option<nat>, calendar: seq<Row>, today: string) {
    WindowsSupport(x, build, calendar, today).state == Some(false) &&
    WindowsSupport(y, build, calendar, today).state == Some(true)
  }

  /** Two editions of one build ever get opposite verdicts exactly when the calendar ends all the releases of
      one before any of the other. */
  lemma ContradictedExactly(x: Edition, y: Edition, build: Option<nat>, calendar: seq<Row>)
    ensures (exists today :: Parted(x, y, build, calendar, today) || Parted(y, x, build, calendar, today)) <==>
      AllBefore(x, y, build, calendar) || AllBefore(y, x, build, calendar)
  {
    PartedExactly(x, y, build, calendar);
    PartedExactly(y, x, build, calendar);
  }

  lemma PartedExactly(x: Edition, y: Edition, build: Option<nat>, calendar: seq<Row>)
    ensures (exists today :: Parted(x, y, build, calendar, today)) <==> AllBefore(x, y, build, calendar)
  {
    forall today | Parted(x, y, build, calendar, today) ensures AllBefore(x, y, build, calendar) {
      PartedIsBefore(x, y, build, calendar, today);
    }
    if AllBefore(x, y, build, calendar) { var today := BeforeParts(x, y, build, calendar); }
  }

  lemma PartedIsBefore(x: Edition, y: Edition, build: Option<nat>, calendar: seq<Row>, today: string)
    requires Parted(x, y, build, calendar, today)
    ensures AllBefore(x, y, build, calendar)
  {
    SupportMeaning(x, build, calendar, today, false);
    SupportMeaning(y, build, calendar, today, true);
    forall r, s | Judged(r, x, build, calendar) && Judged(s, y, build, calendar)
      ensures Less(r.release.eolFrom, s.release.eolFrom)
    {
      assert Verdict(r, today) == Some(false) && Verdict(s, today) == Some(true);
      NotLater(r.release.eolFrom, today, s.release.eolFrom);
    }
  }

  lemma NotLater(a: string, b: string, c: string)
    requires !Less(b, a) && Less(b, c)
    ensures Less(a, c)
  {
    LessTrichotomy(a, b);
    if a != b { LessTransitive(a, b, c); }
  }

  /** The day on which they part: the one on which the last release of x ends. */
  lemma BeforeParts(x: Edition, y: Edition, build: Option<nat>, calendar: seq<Row>) returns (today: string)
    requires AllBefore(x, y, build, calendar)
    ensures Parted(x, y, build, calendar, today)
    ensures exists r :: Judged(r, x, build, calendar) && r.release.eolFrom == today
  {
    var rows := Candidates(x, build.value, calendar);
    forall r ensures r in rows <==> Judged(r, x, build, calendar) {}
    PickIsLast(rows);
    var last := Sort(EndsLater(), rows)[0];
    today := last.release.eolFrom;
    assert Judged(last, x, build, calendar);
    forall r | Judged(r, x, build, calendar) ensures Verdict(r, today) == Some(false) {}
    forall s | Judged(s, y, build, calendar) ensures Verdict(s, today) == Some(true) {}
    SupportMeaning(x, build, calendar, today, false);
    SupportMeaning(y, build, calendar, today, true);
  }

  /** A release of x that ends no earlier than one of y, and one that ends no later than one of y, keep the
      two editions from ever contradicting each other, whatever else the calendar lists. */
  lemma OverlapIsSafe(x: Edition, y: Edition, build: Option<nat>, calendar: seq<Row>, r: Row, s: Row, r': Row, s': Row,
    today: string)
    requires Judged(r, x, build, calendar) && Judged(s, y, build, calendar)
    requires Judged(r', x, build, calendar) && Judged(s', y, build, calendar)
    requires !Less(r.release.eolFrom, s.release.eolFrom) && !Less(s'.release.eolFrom, r'.release.eolFrom)
    ensures !Parted(x, y, build, calendar, today) && !Parted(y, x, build, calendar, today)
  {
    ContradictedExactly(x, y, build, calendar);
  }

  // ---- the published calendar ----------------------------------------------------------------------

  /** A semi-annual server release. */
  function SacRow(name: string, ends: string, build: nat): OsRelease {
    OsRelease("windows-server", name + "-sac", ends, Some(build))
  }

  /** A Windows client release; suffix is that of its edition, "" when it has one date for all of them. */
  function ClientRow(name: string, suffix: string, ends: string, build: nat): OsRelease {
    OsRelease("windows", name + suffix, ends, Some(build))
  }

  /** The published rows of the builds that have semi-annual server releases. */
  function Published(build: nat): seq<OsRelease> {
    match build
    case 25398 => [OsRelease("windows-server", "23h2" + "-ac", "2026-05-12", Some(25398))]
    case 19042 =>
      [SacRow("20h2", "2022-08-09", 19042),
       ClientRow("10-20h2", "-e", "2023-05-09", 19042), ClientRow("10-20h2", "-w", "2022-05-10", 19042)]
    case 19041 => [SacRow("2004", "2021-12-14", 19041), ClientRow("10-2004", "", "2021-12-14", 19041)]
    case 18363 =>
      [SacRow("1909", "2021-05-11", 18363),
       ClientRow("10-1909", "-e", "2022-05-10", 18363), ClientRow("10-1909", "-w", "2021-05-11", 18363)]
    case 18362 => [SacRow("1903", "2020-12-08", 18362), ClientRow("10-1903", "", "2020-12-08", 18362)]
    case 17763 =>
      [SacRow("1809", "2020-11-10", 17763), OsRelease("windows-server", "2019", "2029-01-09", Some(17763)),
       ClientRow("10-1809", "-e-lts", "2029-01-09", 17763),
       ClientRow("10-1809", "-e", "2021-05-11", 17763), ClientRow("10-1809", "-w", "2020-11-10", 17763)]
    case 17134 =>
      [SacRow("1803", "2019-11-12", 17134),
       ClientRow("10-1803", "-e", "2021-05-11", 17134), ClientRow("10-1803", "-w", "2019-11-12", 17134)]
    case 16299 =>
      [SacRow("1709", "2019-04-09", 16299),
       ClientRow("10-1709", "-e", "2020-10-13", 16299), ClientRow("10-1709", "-w", "2019-04-09", 16299)]
    case _ => []
  }

  /** What the calendar lists for those builds is what is published, and it has no semi-annual release of any
      other build. */
  ghost predicate AsPublished(calendar: seq<OsRelease>) {
    (forall build, r :: r in Published(build) ==> r in calendar) &&
    forall r :: r in calendar && r.build.Some? && (VariantOf(r) == Sac || Published(r.build.value) != []) ==>
      r in Published(r.build.value)
  }

  const SAC_BUILDS: seq<nat> := [25398, 19042, 19041, 18363, 18362, 17763, 17134, 16299]

  function PublishedOf(builds: seq<nat>): seq<OsRelease> {
    if builds == [] then [] else Published(builds[0]) + PublishedOf(builds[1..])
  }

  lemma {:induction false} PublishedMembers(builds: seq<nat>, r: OsRelease)
    ensures r in PublishedOf(builds) <==> exists build :: build in builds && r in Published(build)
  {
    if builds != [] {
      PublishedMembers(builds[1..], r);
      assert forall build :: build in builds <==> build == builds[0] || build in builds[1..];
    }
  }

  lemma PublishedBuild(build: nat)
    ensures forall r :: r in Published(build) ==> r.build == Some(build)
    ensures Published(build) != [] <==> build in SAC_BUILDS
  {
  }

  /** Those rows alone are such a calendar. */
  lemma PublishedAlone()
    ensures AsPublished(PublishedOf(SAC_BUILDS))
  {
    var calendar := PublishedOf(SAC_BUILDS);
    forall build, r | r in Published(build) ensures r in calendar {
      PublishedBuild(build);
      PublishedMembers(SAC_BUILDS, r);
    }
    forall r | r in calendar ensures r.build.Some? && r in Published(r.build.value) {
      PublishedMembers(SAC_BUILDS, r);
      var build :| build in SAC_BUILDS && r in Published(build);
      PublishedBuild(build);
    }
  }

  lemma SacVariant(name: string)
    ensures forall ends, build :: VariantOf(SacRow(name, ends, build)) == Sac
  {
    LowerSuffix(name, "-sac");
  }

  /** A client row is neither a semi-annual server release nor IoT Core if its text does not end in "t". */
  lemma ClientVariant(name: string, suffix: string)
    requires |name + suffix| > 0 && (name + suffix)[|name + suffix| - 1] !in {'t', 'T'}
    ensures forall ends, build :: VariantOf(ClientRow(name, suffix, ends, build)) !in {Sac, IotCore}
  {
    EndsAlike(Lower(name + suffix), "-iot");
  }

  lemma EndsAlike(c: string, w: string)
    requires w != ""
    ensures EndsWith(c, w) ==> c != "" && c[|c| - 1] == w[|w| - 1]
  {
    if EndsWith(c, w) { assert c[|c| - |w|..][|w| - 1] == c[|c| - 1]; }
  }

  /** A semi-annual release and a client release of one build that end on one day. */
  lemma SameDayIsSafe(u: Edition, e: Edition, calendar: seq<OsRelease>, sac: OsRelease, other: OsRelease, today: string)
    requires u.kind.None? && e.kind == Some(ServerSac)
    requires sac in calendar && Read(sac).listed && VariantOf(sac) == Sac
    requires other in calendar && Read(other).listed && VariantOf(other) !in {Sac, IotCore}
    requires sac.build.Some? && sac.build == other.build && sac.eolFrom == other.eolFrom
    ensures var rows := ReadAll(calendar);
      !Parted(u, e, sac.build, rows, today) && !Parted(e, u, sac.build, rows, today)
  {
    var rows := ReadAll(calendar);
    ReadIn(calendar, sac);
    ReadIn(calendar, other);
    LessTrichotomy(sac.eolFrom, sac.eolFrom);
    OverlapIsSafe(u, e, sac.build, rows, Read(other), Read(sac), Read(other), Read(sac), today);
  }

  /** Client releases of its build that end before and after it. */
  lemma BetweenIsSafe(
    u: Edition, e: Edition, calendar: seq<OsRelease>, first: OsRelease, sac: OsRelease, last: OsRelease, today: string)
    requires u.kind.None? && e.kind == Some(ServerSac)
    requires sac in calendar && Read(sac).listed && VariantOf(sac) == Sac
    requires first in calendar && Read(first).listed && VariantOf(first) !in {Sac, IotCore}
    requires last in calendar && Read(last).listed && VariantOf(last) !in {Sac, IotCore}
    requires sac.build.Some? && first.build == sac.build == last.build
    requires Less(first.eolFrom, sac.eolFrom) && Less(sac.eolFrom, last.eolFrom)
    ensures var rows := ReadAll(calendar);
      !Parted(u, e, sac.build, rows, today) && !Parted(e, u, sac.build, rows, today)
  {
    var rows := ReadAll(calendar);
    ReadIn(calendar, sac);
    ReadIn(calendar, first);
    ReadIn(calendar, last);
    LessTrichotomy(first.eolFrom, sac.eolFrom);
    LessTrichotomy(sac.eolFrom, last.eolFrom);
    OverlapIsSafe(u, e, sac.build, rows, Read(last), Read(sac), Read(first), Read(sac), today);
  }

  lemma ReadIn(calendar: seq<OsRelease>, r: OsRelease)
    requires r in calendar
    ensures Read(r) in ReadAll(calendar)
  {
    var i :| 0 <= i < |calendar| && calendar[i] == r;
    assert ReadAll(calendar)[i] == Read(r);
  }

  /** The published calendar never contradicts a verdict given without the edition, on any day and whatever the
      edition turns out to be. */
  lemma PublishedIsSafe(u: Edition, e: Edition, build: Option<nat>, calendar: seq<OsRelease>, today: string)
    requires u.kind.None? && AsPublished(calendar)
    ensures var unknown := WindowsSupport(u, build, ReadAll(calendar), today).state;
      var known := WindowsSupport(e, build, ReadAll(calendar), today).state;
      unknown.Some? ==> known == unknown || known == None
  {
    var rows := ReadAll(calendar);
    if e.kind != Some(ServerSac) {
      UnknownEditionIsSafe(u, e, build, rows, today);
    } else if build.Some? {
      SacIsSafe(u, e, build.value, calendar, today);
      NotOpposite(WindowsSupport(u, build, rows, today).state, WindowsSupport(e, build, rows, today).state);
    }
  }

  lemma NotOpposite(a: Option<bool>, b: Option<bool>)
    requires !(a == Some(false) && b == Some(true)) && !(b == Some(false) && a == Some(true))
    ensures a.Some? ==> b == a || b == None
  {
    if a.Some? && b.Some? {
      if a.value { assert a == Some(true); } else { assert a == Some(false); }
      if b.value { assert b == Some(true); } else { assert b == Some(false); }
    }
  }

  lemma SacIsSafe(u: Edition, e: Edition, build: nat, calendar: seq<OsRelease>, today: string)
    requires u.kind.None? && e.kind == Some(ServerSac) && AsPublished(calendar)
    ensures var rows := ReadAll(calendar);
      !Parted(u, e, Some(build), rows, today) && !Parted(e, u, Some(build), rows, today)
  {
    if Published(build) == [] || build == 25398 {
      NothingToCompare(u, e, build, calendar, today);
    } else if build == 19042 {
      var first, sac, last := EndsBetween();
      BetweenIsSafe(u, e, calendar, first, sac, last, today);
    } else {
      var sac, other := EndsTheSameDay(build);
      SameDayIsSafe(u, e, calendar, sac, other, today);
    }
  }

  /** The build has no semi-annual release, or no other. */
  lemma NothingToCompare(u: Edition, e: Edition, build: nat, calendar: seq<OsRelease>, today: string)
    requires u.kind.None? && e.kind == Some(ServerSac) && AsPublished(calendar)
    requires Published(build) == [] || build == 25398
    ensures var rows := ReadAll(calendar);
      !Parted(u, e, Some(build), rows, today) && !Parted(e, u, Some(build), rows, today)
  {
    var rows := ReadAll(calendar);
    LowerSuffix("23h2", "-ac");
    forall r, s ensures !(Judged(r, u, Some(build), rows) && Judged(s, e, Some(build), rows)) {
      if Judged(r, u, Some(build), rows) && Judged(s, e, Some(build), rows) {
        OfCalendar(calendar, r);
        OfCalendar(calendar, s);
      }
    }
    ContradictedExactly(u, e, Some(build), rows);
  }

  lemma OfCalendar(calendar: seq<OsRelease>, r: Row)
    requires r in ReadAll(calendar)
    ensures r.release in calendar && r == Read(r.release)
  {
    var i :| 0 <= i < |calendar| && ReadAll(calendar)[i] == r;
    assert calendar[i] in calendar;
  }

  lemma EndsTheSameDay(build: nat) returns (sac: OsRelease, other: OsRelease)
    requires Published(build) != [] && build != 25398 && build != 19042
    ensures sac in Published(build) && other in Published(build)
    ensures sac.build == other.build == Some(build) && sac.eolFrom == other.eolFrom
    ensures Read(sac).listed && VariantOf(sac) == Sac
    ensures Read(other).listed && VariantOf(other) !in {Sac, IotCore}
  {
    sac, other := Published(build)[0], Published(build)[|Published(build)| - 1];
    match build
    case 19041 => SacVariant("2004"); ClientVariant("10-2004", "");
    case 18363 => SacVariant("1909"); ClientVariant("10-1909", "-w");
    case 18362 => SacVariant("1903"); ClientVariant("10-1903", "");
    case 17763 => SacVariant("1809"); ClientVariant("10-1809", "-w");
    case 17134 => SacVariant("1803"); ClientVariant("10-1803", "-w");
    case 16299 => SacVariant("1709"); ClientVariant("10-1709", "-w");
  }

  lemma EndsBetween() returns (first: OsRelease, sac: OsRelease, last: OsRelease)
    ensures first in Published(19042) && sac in Published(19042) && last in Published(19042)
    ensures first.build == sac.build == last.build == Some(19042)
    ensures Read(sac).listed && VariantOf(sac) == Sac
    ensures Read(first).listed && VariantOf(first) !in {Sac, IotCore}
    ensures Read(last).listed && VariantOf(last) !in {Sac, IotCore}
    ensures Less(first.eolFrom, sac.eolFrom) && Less(sac.eolFrom, last.eolFrom)
  {
    first, sac, last := Published(19042)[2], Published(19042)[0], Published(19042)[1];
    SacVariant("20h2");
    ClientVariant("10-20h2", "-e");
    ClientVariant("10-20h2", "-w");
    DatesBetween();
  }

  lemma DatesBetween()
    ensures Less("2022-05-10", "2022-08-09") && Less("2022-08-09", "2023-05-09")
  {
    LessAt("2022-05-10", "2022-08-09", 6);
    LessAt("2022-08-09", "2023-05-09", 3);
  }

  /** The first unit that differs decides. */
  lemma {:induction false} LessAt(a: string, b: string, k: nat)
    requires k < |a| && k < |b| && a[..k] == b[..k] && Unit(a[k]) < Unit(b[k])
    ensures Less(a, b)
  {
    if k > 0 {
      assert a[0] == a[..k][0] == b[..k][0] == b[0];
      assert a[1..][..k - 1] == a[..k][1..] == b[..k][1..] == b[1..][..k - 1];
      LessAt(a[1..], b[1..], k - 1);
    }
  }

  /** A stored calendar can lack the client product. On the published server rows alone a semi-annual release
      of build 17763 is contradicted, from the day it ends to the day Windows Server 2019 does. */
  lemma WithoutClients(u: Edition, e: Edition, calendar: seq<OsRelease>, today: string)
    requires u.kind.None? && e.kind == Some(ServerSac)
    requires forall r :: r in calendar && r.build == Some(17763) <==>
      r in Published(17763) && r.product == "windows-server"
    ensures Parted(e, u, Some(17763), ReadAll(calendar), today) <==>
      !Less(today, "2020-11-10") && Less(today, "2029-01-09")
  {
    var sac, server := PublishedServers();
    assert sac in calendar && server in calendar;
    TwoServerRows(u, e, calendar, sac, server, 17763, today);
  }

  /** The two published server rows of build 17763. */
  lemma PublishedServers() returns (sac: OsRelease, server: OsRelease)
    ensures forall r :: r in Published(17763) && r.product == "windows-server" <==> r == sac || r == server
    ensures Read(sac).listed && VariantOf(sac) == Sac && sac.eolFrom == "2020-11-10"
    ensures Read(server).listed && VariantOf(server) == ServerVariant && server.eolFrom == "2029-01-09"
    ensures sac.build == server.build == Some(17763)
  {
    sac, server := PublishedRows();
    FirstTwo(Published(17763), "windows-server");
    PlainServer(server);
  }

  lemma PublishedRows() returns (sac: OsRelease, server: OsRelease)
    ensures var rows := Published(17763);
      |rows| == 5 && rows[0] == sac && rows[1] == server &&
      forall i :: 2 <= i < 5 ==> rows[i].product != "windows-server"
    ensures sac.product == server.product == "windows-server" && VariantOf(sac) == Sac && server.cycle == "2019"
    ensures sac.eolFrom == "2020-11-10" && server.eolFrom == "2029-01-09" && sac.build == server.build == Some(17763)
  {
    sac, server := Published(17763)[0], Published(17763)[1];
    SacVariant("1809");
    assert |"windows"| != |"windows-server"|;
  }

  lemma FirstTwo(rows: seq<OsRelease>, product: string)
    requires |rows| == 5 && rows[0].product == rows[1].product == product
    requires forall i :: 2 <= i < 5 ==> rows[i].product != product
    ensures forall r :: r in rows && r.product == product <==> r == rows[0] || r == rows[1]
  {
  }

  lemma PlainServer(server: OsRelease)
    requires server.product == "windows-server" && server.cycle == "2019"
    ensures VariantOf(server) == ServerVariant
  {
    EndsOtherwise(server.cycle, "-sac");
    EndsOtherwise(server.cycle, "-ac");
  }

  lemma EndsOtherwise(name: string, w: string)
    requires name != "" && w != "" && name[|name| - 1] == '9' && w[|w| - 1] != '9'
    ensures !EndsWith(Lower(name), w)
  {
    EndsAlike(Lower(name), w);
  }

  lemma TwoServerRows(
    u: Edition, e: Edition, calendar: seq<OsRelease>, sac: OsRelease, server: OsRelease, build: nat, today: string)
    requires u.kind.None? && e.kind == Some(ServerSac)
    requires Read(sac).listed && VariantOf(sac) == Sac && sac.eolFrom != ""
    requires Read(server).listed && VariantOf(server) == ServerVariant && server.eolFrom != ""
    requires sac in calendar && server in calendar && sac.build == server.build == Some(build)
    requires forall r :: r in calendar && r.build == Some(build) ==> r == sac || r == server
    ensures Parted(e, u, Some(build), ReadAll(calendar), today) <==>
      !Less(today, sac.eolFrom) && Less(today, server.eolFrom)
  {
    OnlyOne(e, calendar, sac, server, build);
    OnlyOne(u, calendar, server, sac, build);
    OneRow(e, Some(build), ReadAll(calendar), Read(sac), today, false);
    OneRow(u, Some(build), ReadAll(calendar), Read(server), today, true);
  }

  /** Of the two rows of a build one applies. */
  lemma OnlyOne(e: Edition, calendar: seq<OsRelease>, row: OsRelease, other: OsRelease, build: nat)
    requires Read(row).listed && Fits(VariantOf(row), e) && !Fits(VariantOf(other), e)
    requires row in calendar && row.build == Some(build)
    requires forall r :: r in calendar && r.build == Some(build) ==> r == row || r == other
    ensures forall r :: Judged(r, e, Some(build), ReadAll(calendar)) <==> r == Read(row)
  {
    ReadIn(calendar, row);
    forall r | Judged(r, e, Some(build), ReadAll(calendar)) ensures r == Read(row) { OfCalendar(calendar, r); }
  }

  lemma OneRow(e: Edition, build: Option<nat>, rows: seq<Row>, r: Row, today: string, ok: bool)
    requires forall s :: Judged(s, e, build, rows) <==> s == r
    ensures WindowsSupport(e, build, rows, today).state == Some(ok) <==> Verdict(r, today) == Some(ok)
  {
    SupportMeaning(e, build, rows, today, ok);
    assert Judged(r, e, build, rows);
  }

  /** As days pass, a host that is out of support stays out, and one in support always was. */
  lemma VerdictInTime(e: Edition, build: Option<nat>, calendar: seq<Row>, today: string, later: string)
    requires !Less(later, today)
    ensures var now := WindowsSupport(e, build, calendar, today).state;
      var then' := WindowsSupport(e, build, calendar, later).state;
      (now == Some(false) ==> then' == Some(false)) && (then' == Some(true) ==> now == Some(true))
  {
    if WindowsSupport(e, build, calendar, today).state == Some(false) {
      SupportMeaning(e, build, calendar, today, false);
      forall r | Judged(r, e, build, calendar) ensures Verdict(r, later) == Some(false) {
        VerdictOfRowInTime(r, today, later);
      }
      SupportMeaning(e, build, calendar, later, false);
    }
    if WindowsSupport(e, build, calendar, later).state == Some(true) {
      SupportMeaning(e, build, calendar, later, true);
      forall r | Judged(r, e, build, calendar) ensures Verdict(r, today) == Some(true) {
        VerdictOfRowInTime(r, today, later);
      }
      SupportMeaning(e, build, calendar, today, true);
    }
  }

  lemma VerdictOfRowInTime(r: Row, today: string, later: string)
    requires !Less(later, today)
    ensures Verdict(r, later) == Some(true) ==> Verdict(r, today) == Some(true)
    ensures Verdict(r, today) == Some(false) ==> Verdict(r, later) == Some(false)
  {
    LessTrichotomy(today, later);
    if today != later && Less(later, r.release.eolFrom) { LessTransitive(today, later, r.release.eolFrom); }
  }

  /** New calendar rows can make an answer uncertain but never turn it around. */
  lemma NewRowsNeverFlip(e: Edition, build: Option<nat>, calendar: seq<Row>, larger: seq<Row>, today: string)
    requires forall r :: r in calendar ==> r in larger
    ensures var before := WindowsSupport(e, build, calendar, today).state;
      var after := WindowsSupport(e, build, larger, today).state;
      before.Some? && after.Some? ==> before == after
  {
    var before := WindowsSupport(e, build, calendar, today).state;
    var after := WindowsSupport(e, build, larger, today).state;
    if before.Some? && after.Some? {
      SupportMeaning(e, build, calendar, today, before.value);
      SupportMeaning(e, build, larger, today, after.value);
      var r :| Judged(r, e, build, calendar);
      assert Judged(r, e, build, larger);
    }
  }
}
