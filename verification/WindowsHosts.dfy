/** What a host's EditionID, caption and build decide in lib/os-lifecycle.ts, in terms of the texts themselves. */
module WindowsHosts {
  import opened Wrappers
  import opened Text
  import opened Filtering
  import opened OsLifecycle

  // ---- EditionIDs ---------------------------------------------------------------------------

  lemma LowerConcat(a: string, b: string)
    ensures Lower(a + b) == Lower(a) + Lower(b)
  {
  }

  /** Home and Pro editions, in whatever case, with whatever suffix and caption. */
  lemma HomeAndPro(name: string, rest: string, caption: string)
    requires Lower(name) == "core" || Lower(name) == "professional"
    requires Trim(name + rest) == name + rest
    ensures WindowsEdition(name + rest, caption) == Edition(Some(Client), Some(TrackW), false)
  {
    LowerConcat(name, rest);
    var id := Lower(name + rest);
    assert id[0] == Lower(name)[0] && Lower(name) <= id;
  }

  /** Education editions. */
  lemma Education(name: string, rest: string, caption: string)
    requires Lower(name) == "education" && Trim(name + rest) == name + rest
    ensures WindowsEdition(name + rest, caption) == Edition(Some(Client), Some(TrackE), false)
  {
    LowerConcat(name, rest);
    var id := Lower(name + rest);
    assert id[0] == 'e' && id[1] == 'd' && Lower(name) <= id;
  }

  /** Servers; the semi-annual ones exactly if the EditionID ends in "acor". */
  lemma Servers(name: string, rest: string, caption: string)
    requires Lower(name) == "server" && Trim(name + rest) == name + rest
    ensures WindowsEdition(name + rest, caption) ==
      Edition(Some(if EndsWith(Lower(name + rest), "acor") then ServerSac else Server), None, false)
  {
    LowerConcat(name, rest);
    assert Lower(name) <= Lower(name + rest);
  }

  lemma EndsSame(p: string, a: string, b: string)
    ensures p + a == p + b <==> a == b
  {
    assert (p + a)[|p|..] == a && (p + b)[|p|..] == b;
  }

  /** Enterprise editions: long-term servicing ones exactly with the suffix S or SN. */
  lemma Enterprise(name: string, rest: string, caption: string)
    requires Lower(name) == "enterprise" && Trim(name + rest) == name + rest
    ensures WindowsEdition(name + rest, caption) ==
      Edition(Some(Client), Some(if Lower(rest) == "s" || Lower(rest) == "sn" then Ltsc else TrackE), false)
  {
    LowerConcat(name, rest);
    var id := Lower(name + rest);
    assert id[0] == 'e' && id[1] == 'n' && Lower(name) <= id;
    EndsSame("enterprise", Lower(rest), "s");
    EndsSame("enterprise", Lower(rest), "sn");
    assert "enterprise" + "s" == "enterprises" && "enterprise" + "sn" == "enterprisesn";
  }

  /** The IoT enterprise editions: long-term servicing ones exactly with the suffix S. */
  lemma IotEnterprise(name: string, rest: string, caption: string)
    requires Lower(name) == "iotenterprise" && Trim(name + rest) == name + rest
    ensures WindowsEdition(name + rest, caption) ==
      Edition(Some(Client), Some(if Lower(rest) == "s" then IotLtsc else TrackE), false)
  {
    LowerConcat(name, rest);
    var id := Lower(name + rest);
    assert id[0] == 'i' && Lower(name) <= id;
    EndsSame("iotenterprise", Lower(rest), "s");
    assert "iotenterprise" + "s" == "iotenterprises";
  }

  /** An EditionID is known exactly when it begins with one of six words. */
  lemma UnknownIds(editionId: string, caption: string)
    requires Trim(editionId) != ""
    ensures var id := Lower(Trim(editionId));
      WindowsEdition(editionId, caption).kind.None? <==>
        !("server" <= id || "core" <= id || "professional" <= id || "enterprise" <= id || "education" <= id ||
          "iotenterprise" <= id)
  {
  }

  // ---- captions ---------------------------------------------------------------------------------

  function WordEnd(s: string, i: nat): (e: nat)
    requires i <= |s|
    ensures i <= e <= |s| && (e < |s| ==> !IsWordChar(s[e])) && forall k :: i <= k < e ==> IsWordChar(s[k])
    ensures i < |s| && IsWordChar(s[i]) ==> i < e
    decreases |s| - i
  {
    if i < |s| && IsWordChar(s[i]) then WordEnd(s, i + 1) else i
  }

  /** The words of a text from position i on: its longest runs of letters, digits and underscores. */
  function Words(s: string, i: nat): seq<string>
    requires i <= |s|
    decreases |s| - i
  {
    if i == |s| then []
    else if !IsWordChar(s[i]) then Words(s, i + 1)
    else [s[i..WordEnd(s, i)]] + Words(s, WordEnd(s, i))
  }

  predicate IsWord(w: string) {
    w != "" && forall k :: 0 <= k < |w| ==> IsWordChar(w[k])
  }

  /** w stands at j with no word character beside it. */
  predicate StandsAlone(s: string, w: string, j: nat) {
    j <= |s| && StandsAt(s, w, j) && (j == 0 || !IsWordChar(s[j - 1])) && (j + |w| == |s| || !IsWordChar(s[j + |w|]))
  }

  lemma AloneIsRun(s: string, w: string, i: nat)
    requires IsWord(w) && i < |s| && IsWordChar(s[i]) && StandsAlone(s, w, i)
    ensures w == s[i..WordEnd(s, i)]
  {
    var e := WordEnd(s, i);
    forall k | i <= k < i + |w| ensures IsWordChar(s[k]) { assert s[k] == s[i..i + |w|][k - i] == w[k - i]; }
    assert e >= i + |w|;
  }

  lemma {:induction false} WordsFrom(s: string, w: string, i: nat)
    requires IsWord(w) && i <= |s| && (i == 0 || i == |s| || !(IsWordChar(s[i - 1]) && IsWordChar(s[i])))
    ensures w in Words(s, i) <==> exists j: nat :: i <= j && StandsAlone(s, w, j)
    decreases |s| - i
  {
    if i < |s| {
      var e := if IsWordChar(s[i]) then WordEnd(s, i) else i + 1;
      WordsFrom(s, w, e);
      forall j: nat | i <= j < e && StandsAlone(s, w, j) ensures IsWordChar(s[i]) && j == i && w == s[i..e] {
        assert s[j] == s[j..j + |w|][0] == w[0];
        AloneIsRun(s, w, j);
      }
      if IsWordChar(s[i]) && w == s[i..e] { assert StandsAlone(s, w, i); }
    }
  }

  /** A word stands in a text exactly when it is one of its words. */
  lemma HasWordMeans(s: string, w: string)
    requires IsWord(w)
    ensures HasWord(s, w) <==> w in Words(s, 0)
  {
    WordsFrom(s, w, 0);
    if HasWord(s, w) {
      var i: nat :| i <= |s| && StandsAt(s, w, i) &&
        (i == 0 || !IsWordChar(s[i - 1])) && (i + |w| == |s| || !IsWordChar(s[i + |w|]));
      assert StandsAlone(s, w, i);
    }
    if j: nat :| StandsAlone(s, w, j) { assert HasWord(s, w); }
  }

  /** A phrase stands only where its first word does. */
  lemma FirstWord(s: string, w: string, rest: string)
    ensures HasWord(s, w + [' '] + rest) ==> HasWord(s, w)
  {
    var phrase := w + [' '] + rest;
    if HasWord(s, phrase) {
      var i: nat :| i <= |s| && StandsAt(s, phrase, i) &&
        (i == 0 || !IsWordChar(s[i - 1])) && (i + |phrase| == |s| || !IsWordChar(s[i + |phrase|]));
      Beginning(s, i, w, rest);
    }
  }

  lemma Beginning(s: string, i: nat, w: string, rest: string)
    requires i <= |s| && StandsAt(s, w + [' '] + rest, i)
    ensures StandsAt(s, w, i) && i + |w| < |s| && s[i + |w|] == ' '
  {
    var phrase := w + [' '] + rest;
    assert s[i..i + |w|] == s[i..i + |phrase|][..|w|] == phrase[..|w|] == w;
    assert s[i + |w|] == s[i..i + |phrase|][|w|] == phrase[|w|];
  }

  lemma ProEducation(s: string)
    ensures HasWord(s, "pro education") ==> HasWord(s, "pro")
  {
    FirstWord(s, "pro", "education");
    assert "pro" + [' '] + "education" == "pro education";
  }

  /** Without an EditionID the words of the caption decide, in whatever case: a server; LTSC or LTSB, for IoT or
      not; home, pro or workstation; enterprise, education or IoT; anything else stays unknown. */
  lemma Captions(editionId: string, caption: string)
    requires Trim(editionId) == ""
    ensures var c := Lower(caption);
      var words := Words(c, 0);
      WindowsEdition(editionId, caption) ==
        if "server" in words then Edition(Some(Server), None, true)
        else if Contains(c, "ltsc") || Contains(c, "ltsb") then
          Edition(Some(Client), Some(if "iot" in words then IotLtsc else Ltsc), true)
        else if "home" in words || "pro" in words || "workstation" in words then
          Edition(Some(Client), Some(TrackW), true)
        else if Contains(c, "enterprise") || Contains(c, "education") || "iot" in words then
          Edition(Some(Client), Some(TrackE), true)
        else UNKNOWN
  {
    var c := Lower(caption);
    HasWordMeans(c, "server");
    HasWordMeans(c, "iot");
    HasWordMeans(c, "home");
    HasWordMeans(c, "pro");
    HasWordMeans(c, "workstation");
    ProEducation(c);
  }

  // ---- which releases an edition is judged on ------------------------------------------------------

  predicate SemiAnnual(c: string) {
    EndsWith(c, "-sac") || EndsWith(c, "-ac")
  }

  /** No suffix of an edition. */
  predicate Plain(c: string) {
    !EndsWith(c, "-w") && !EndsWith(c, "-e") && !EndsWith(c, "-e-lts") && !EndsWith(c, "-iot-lts") &&
    !EndsWith(c, "-iot")
  }

  predicate OfTrack(c: string, t: Track) {
    match t
    case TrackW => EndsWith(c, "-w")
    case TrackE => EndsWith(c, "-e")
    case Ltsc => EndsWith(c, "-e-lts")
    case IotLtsc => EndsWith(c, "-iot-lts")
  }

  lemma TrackTable(r: OsRelease, t: Track)
    requires r.product != "windows-server"
    ensures VariantOf(r) == VariantOfTrack(t) <==> OfTrack(Lower(r.cycle), t)
  {
    CycleTable(r);
  }

  lemma PlainTable(r: OsRelease)
    requires r.product != "windows-server"
    ensures var c, v := Lower(r.cycle), VariantOf(r);
      (v == Common <==> Plain(c)) && (v == IotCore <==> EndsWith(c, "-iot")) && v != Sac && v != ServerVariant
  {
    CycleTable(r);
  }

  /** By product and cycle: servers on the server releases, the semi-annual ones on those; a client on the releases
      of its track and those for every edition; an unknown edition on all but semi-annual and IoT Core ones. */
  lemma RowsOfEdition(r: OsRelease, e: Edition)
    requires e.kind == Some(Client) ==> e.track.Some?
    ensures var c, server := Lower(r.cycle), r.product == "windows-server";
      Fits(VariantOf(r), e) <==>
        match e.kind
        case Some(Server) => server && !SemiAnnual(c)
        case Some(ServerSac) => server && SemiAnnual(c)
        case Some(Client) => !server && (Plain(c) || OfTrack(c, e.track.value))
        case None => if server then !SemiAnnual(c) else !EndsWith(c, "-iot")
  {
    if r.product == "windows-server" {
      CycleTable(r);
    } else {
      PlainTable(r);
      if e.kind == Some(Client) { TrackTable(r, e.track.value); }
    }
  }

  // ---- why a verdict is not given --------------------------------------------------------------------

  ghost predicate InCalendar(build: Option<nat>, calendar: seq<Row>) {
    exists r :: r in calendar && r.listed && r.release.build == build
  }

  ghost predicate Applies(e: Edition, build: Option<nat>, calendar: seq<Row>) {
    exists r :: Judged(r, e, build, calendar)
  }

  ghost predicate Undated(e: Edition, build: Option<nat>, calendar: seq<Row>) {
    exists r :: Judged(r, e, build, calendar) && r.release.eolFrom == ""
  }

  /** Each reason is given in its own case, and the releases named are those that apply. */
  lemma ReasonMeaning(e: Edition, build: Option<nat>, calendar: seq<Row>, today: string)
    ensures var s := WindowsSupport(e, build, calendar, today);
      (s.reason.NoBuild? <==> build.None?) &&
      (s.reason.NoCalendar? <==> build.Some? && calendar == []) &&
      (s.reason.NotInCalendar? <==> build.Some? && calendar != [] && !InCalendar(build, calendar)) &&
      (s.reason.NoneForEdition? <==> build.Some? && InCalendar(build, calendar) && !Applies(e, build, calendar)) &&
      (Applies(e, build, calendar) ==> JudgedReason(s, e, build, calendar, today)) &&
      (!Applies(e, build, calendar) ==> s.cycles == [] && s.state == None)
  {
    if build.Some? {
      ListedRows(build.value, calendar);
      CandidatesAre(e, build.value, calendar);
      if Applies(e, build, calendar) { JudgedReasons(e, build.value, calendar, today); }
    }
  }

  /** Where some release applies: whether one of them has no date, they disagree, or a verdict is given. */
  ghost predicate JudgedReason(s: Support, e: Edition, build: Option<nat>, calendar: seq<Row>, today: string) {
    (s.reason.NoEndDate? <==> Undated(e, build, calendar)) && (s.reason.Says? <==> s.state.Some?) &&
    (s.reason.NoEndDate? || s.reason.Says? || s.reason.Disagree?) &&
    (forall r :: r in s.cycles <==> Judged(r, e, build, calendar)) &&
    (s.reason.Disagree? ==> Splits(s.reason.yes, s.reason.no, e, build, calendar, today))
  }

  lemma JudgedReasons(e: Edition, build: nat, calendar: seq<Row>, today: string)
    requires Applies(e, Some(build), calendar)
    ensures WindowsSupport(e, Some(build), calendar, today) == Judge(Candidates(e, build, calendar), today)
    ensures JudgedReason(WindowsSupport(e, Some(build), calendar, today), e, Some(build), calendar, today)
  {
    var rows := Candidates(e, build, calendar);
    ListedRows(build, calendar);
    CandidatesAre(e, build, calendar);
    JudgeReason(rows, today);
    var s := Judge(rows, today);
    if s.reason.Disagree? {
      WhereMembers(rows, OfVerdict(Some(true), today));
      WhereMembers(rows, OfVerdict(Some(false), today));
      forall r | r in rows ensures
        (Verdict(r, today) == Some(true) <==> Less(today, r.release.eolFrom)) &&
        (Verdict(r, today) == Some(false) <==> !Less(today, r.release.eolFrom))
      {
        DatedVerdict(r, today);
      }
    }
  }

  lemma DatedVerdict(r: Row, today: string)
    requires r.release.eolFrom != ""
    ensures Verdict(r, today) == Some(true) <==> Less(today, r.release.eolFrom)
    ensures Verdict(r, today) == Some(false) <==> !Less(today, r.release.eolFrom)
  {
  }

  /** Those in support and those past it, one at least of each. */
  ghost predicate Splits(
    yes: seq<Row>, no: seq<Row>, e: Edition, build: Option<nat>, calendar: seq<Row>, today: string)
  {
    yes != [] && no != [] &&
    (forall r :: r in yes <==> Judged(r, e, build, calendar) && Less(today, r.release.eolFrom)) &&
    forall r :: r in no <==> Judged(r, e, build, calendar) && !Less(today, r.release.eolFrom)
  }

  lemma ListedRows(build: nat, calendar: seq<Row>)
    ensures Where(calendar, OfBuild(build)) == [] <==> !InCalendar(Some(build), calendar)
  {
    var found := Where(calendar, OfBuild(build));
    WhereMembers(calendar, OfBuild(build));
    if found != [] { assert found[0] in found; }
  }

  lemma CandidatesAre(e: Edition, build: nat, calendar: seq<Row>)
    ensures forall r :: r in Candidates(e, build, calendar) <==> Judged(r, e, Some(build), calendar)
    ensures Candidates(e, build, calendar) != [] <==> Applies(e, Some(build), calendar)
    ensures Applies(e, Some(build), calendar) ==> InCalendar(Some(build), calendar)
  {
    var rows := Candidates(e, build, calendar);
    forall r ensures r in rows <==> Judged(r, e, Some(build), calendar) {}
    if rows != [] { assert rows[0] in rows; }
    if r :| Judged(r, e, Some(build), calendar) { assert r in calendar && r.listed; }
  }

  lemma JudgeReason(rows: seq<Row>, today: string)
    requires rows != []
    ensures var s := Judge(rows, today);
      s.cycles == rows && (s.reason.NoEndDate? <==> !DatedAll(rows)) && (s.reason.Says? <==> s.state.Some?) &&
      (s.reason.NoEndDate? || s.reason.Says? || s.reason.Disagree?) &&
      (s.reason.Disagree? ==>
        s.reason.yes == Where(rows, OfVerdict(Some(true), today)) != [] &&
        s.reason.no == Where(rows, OfVerdict(Some(false), today)) != [])
  {
    NoneOfVerdict(rows, today, None);
    forall r ensures Verdict(r, today) == None <==> r.release.eolFrom == "" {}
  }

  ghost predicate DatedAll(rows: seq<Row>) {
    forall r :: r in rows ==> r.release.eolFrom != ""
  }

  // ---- the published rows of build 17763 --------------------------------------------------------------

  lemma WRow(name: string)
    ensures forall ends, build :: VariantOf(ClientRow(name, "-w", ends, build)) == VariantOfTrack(TrackW)
  {
    LowerSuffix(name, "-w");
    forall ends, build ensures VariantOf(ClientRow(name, "-w", ends, build)) == VariantOfTrack(TrackW) {
      CycleTable(ClientRow(name, "-w", ends, build));
    }
  }

  lemma ERow(name: string)
    ensures forall ends, build :: VariantOf(ClientRow(name, "-e", ends, build)) == VariantOfTrack(TrackE)
  {
    LowerSuffix(name, "-e");
    forall ends, build ensures VariantOf(ClientRow(name, "-e", ends, build)) == VariantOfTrack(TrackE) {
      CycleTable(ClientRow(name, "-e", ends, build));
    }
  }

  lemma LtscRow(name: string)
    ensures forall ends, build :: VariantOf(ClientRow(name, "-e-lts", ends, build)) == VariantOfTrack(Ltsc)
  {
    LowerSuffix(name, "-e-lts");
    forall ends, build ensures VariantOf(ClientRow(name, "-e-lts", ends, build)) == VariantOfTrack(Ltsc) {
      CycleTable(ClientRow(name, "-e-lts", ends, build));
    }
  }

  lemma PublishedServerRows()
    ensures |Published(17763)| == 5 && RowIs(Published(17763)[0], 0) && RowIs(Published(17763)[1], 1)
  {
    SacVariant("1809");
    PlainServer(Published(17763)[1]);
  }

  lemma PublishedClientRows()
    ensures |Published(17763)| == 5 && RowIs(Published(17763)[2], 2) && RowIs(Published(17763)[3], 3)
    ensures RowIs(Published(17763)[4], 4)
  {
    LtscRow("10-1809");
    ERow("10-1809");
    WRow("10-1809");
  }

  lemma PublishedListed()
    ensures forall r :: r in Published(17763) ==> Read(r).listed && r.build == Some(17763)
  {
  }

  ghost predicate RowsOfBuild(calendar: seq<OsRelease>, rows: seq<OsRelease>) {
    (forall r :: r in rows ==> r in calendar && Read(r).listed && r.build == Some(17763)) &&
    forall r :: r in calendar && r.build == Some(17763) ==> r in rows
  }

  predicate FiveRows(rows: seq<OsRelease>) {
    |rows| == 5 && RowIs(rows[0], 0) && RowIs(rows[1], 1) && RowIs(rows[2], 2) && RowIs(rows[3], 3) &&
    RowIs(rows[4], 4)
  }

  predicate RowIs(r: OsRelease, k: nat) {
    VariantOf(r) == VariantIn(k) && r.eolFrom == EndsIn(k)
  }

  /** The five rows: semi-annual, server, LTSC, enterprise, home and pro. */
  lemma PublishedFive(calendar: seq<OsRelease>) returns (rows: seq<OsRelease>)
    requires AsPublished(calendar)
    ensures RowsOfBuild(calendar, rows) && FiveRows(rows)
  {
    rows := Published(17763);
    PublishedServerRows();
    PublishedClientRows();
    PublishedListed();
  }

  /** The first, second, ... of the five rows that an edition is judged on. */
  function RowFor(e: Edition): nat {
    match e.kind
    case Some(ServerSac) => 0
    case Some(Server) => 1
    case _ => if e.track == Some(Ltsc) then 2 else if e.track == Some(TrackE) then 3 else 4
  }

  function EndsIn(k: nat): (ends: string)
    ensures ends != ""
  {
    match k
    case 1 => "2029-01-09"
    case 2 => "2029-01-09"
    case 3 => "2021-05-11"
    case _ => "2020-11-10"
  }

  predicate OneRelease(e: Edition) {
    e.kind.Some? && (e.kind == Some(Client) ==> e.track.Some? && e.track != Some(IotLtsc))
  }

  /** What the published rows say of a host of build 17763, by the edition read from it: semi-annual servers, home
      and pro clients ended on 2020-11-10, enterprise and education clients on 2021-05-11, and servers and LTSC
      clients end on 2029-01-09. */
  lemma PublishedVerdicts(calendar: seq<OsRelease>, e: Edition, today: string)
    requires AsPublished(calendar) && OneRelease(e)
    ensures WindowsSupport(e, Some(17763), ReadAll(calendar), today).state == Some(Less(today, EndsIn(RowFor(e))))
  {
    var rows := PublishedFive(calendar);
    OneOfFive(calendar, rows, e, today);
  }

  function VariantIn(k: nat): Variant {
    match k
    case 0 => Sac
    case 1 => ServerVariant
    case 2 => VariantOfTrack(Ltsc)
    case 3 => VariantOfTrack(TrackE)
    case _ => VariantOfTrack(TrackW)
  }

  lemma FiveAlike(rows: seq<OsRelease>, k: nat)
    requires FiveRows(rows) && k < 5
    ensures RowIs(rows[k], k)
  {
  }

  lemma FitsOne(e: Edition, k: nat)
    requires OneRelease(e) && k < 5
    ensures Fits(VariantIn(k), e) <==> k == RowFor(e)
  {
    match e.kind.value
    case Server =>
    case ServerSac =>
    case Client =>
      match e.track.value {
        case TrackW =>
        case TrackE =>
        case Ltsc =>
        case IotLtsc =>
      }
  }

  lemma OneOfFive(calendar: seq<OsRelease>, rows: seq<OsRelease>, e: Edition, today: string)
    requires OneRelease(e) && RowsOfBuild(calendar, rows) && FiveRows(rows)
    ensures WindowsSupport(e, Some(17763), ReadAll(calendar), today).state == Some(Less(today, EndsIn(RowFor(e))))
  {
    var build := 17763;
    var all, row := ReadAll(calendar), Read(rows[RowFor(e)]);
    assert rows[RowFor(e)] in rows;
    FiveAlike(rows, RowFor(e));
    ReadIn(calendar, rows[RowFor(e)]);
    forall r ensures Judged(r, e, Some(build), all) <==> r == row {
      if Judged(r, e, Some(build), all) {
        OfCalendar(calendar, r);
        var k :| 0 <= k < 5 && rows[k] == r.release;
        FiveAlike(rows, k);
        FitsOne(e, k);
      }
      FitsOne(e, RowFor(e));
    }
    var ok := Less(today, row.release.eolFrom);
    OneRow(e, Some(build), all, row, today, ok);
  }

  /** The same for a host as it reports itself. */
  lemma PublishedHost(calendar: seq<OsRelease>, editionId: string, caption: string, e: Edition, today: string)
    requires AsPublished(calendar) && WindowsEdition(editionId, caption) == e && OneRelease(e)
    ensures HostSupport(editionId, caption, Some(17763), calendar, today).state == Some(Less(today, EndsIn(RowFor(e))))
  {
    PublishedVerdicts(calendar, e, today);
  }

  /** So a Home or Pro host is out of support from 2020-11-10 on, whatever its EditionID ends in. */
  lemma PublishedHome(calendar: seq<OsRelease>, name: string, rest: string, caption: string, today: string)
    requires AsPublished(calendar) && Trim(name + rest) == name + rest
    requires Lower(name) == "core" || Lower(name) == "professional"
    ensures HostSupport(name + rest, caption, Some(17763), calendar, today).state == Some(Less(today, EndsIn(4)))
    ensures EndsIn(4) == "2020-11-10"
  {
    HomeAndPro(name, rest, caption);
    PublishedHost(calendar, name + rest, caption, Edition(Some(Client), Some(TrackW), false), today);
  }

  /** An Education host from 2021-05-11 on. */
  lemma PublishedEducation(calendar: seq<OsRelease>, name: string, rest: string, caption: string, today: string)
    requires AsPublished(calendar) && Trim(name + rest) == name + rest && Lower(name) == "education"
    ensures HostSupport(name + rest, caption, Some(17763), calendar, today).state == Some(Less(today, EndsIn(3)))
    ensures EndsIn(3) == "2021-05-11"
  {
    Education(name, rest, caption);
    PublishedHost(calendar, name + rest, caption, Edition(Some(Client), Some(TrackE), false), today);
  }
}
