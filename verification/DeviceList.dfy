/** The host list's URL: lib/device-list.ts. */
module DeviceList {
  import opened Wrappers
  import opened Text
  import opened CursorStack

  const MAX_CURSOR := 400

  datatype Platform = AnyPlatform | Linux | Windows
  datatype Status = AnyStatus | Online | Offline

  datatype Query = Query(q: string, platform: Platform, status: Status, page: Page)

  function Search(s: string): (r: string)
    ensures |r| <= 200
  {
    var t := Trim(s);
    if |t| <= 200 then t else t[..200]
  }

  function ParsePlatform(s: string): Platform {
    if s == "linux" then Linux else if s == "windows" then Windows else AnyPlatform
  }

  function ParseStatus(s: string): Status {
    if s == "online" then Online else if s == "offline" then Offline else AnyStatus
  }

  function Parse(p: Params): Query {
    Query(Search(One(p, QueryKey)), ParsePlatform(One(p, PlatformKey)), ParseStatus(One(p, StatusKey)),
          ReadPage(p, MAX_CURSOR))
  }

  ghost predicate Parsed(q: Query) {
    |q.q| <= 200 && IsPage(q.page, MAX_CURSOR)
  }

  function PlatformText(p: Platform): string {
    match p case Linux => "linux" case Windows => "windows" case AnyPlatform => ""
  }

  function StatusText(s: Status): string {
    match s case Online => "online" case Offline => "offline" case AnyStatus => ""
  }

  function FilterParams(q: string, platform: string, status: string): Params {
    SetUnlessEmpty(SetUnlessEmpty(SetUnlessEmpty(map[], QueryKey, q), PlatformKey, platform), StatusKey, status)
  }

  function PageHref(base: Query, page: Page): Params {
    WritePage(FilterParams(base.q, PlatformText(base.platform), StatusText(base.status)), page)
  }

  function NextHref(q: Query, next: Option<string>): Option<Params> {
    if next.None? || next.value == "" then None else Some(PageHref(q, Pushed(q.page, next.value)))
  }

  function PrevHref(q: Query): Option<Params> {
    if q.page.cursor == "" then None else Some(PageHref(q, Popped(q.page)))
  }

  lemma ParsedAlways(p: Params)
    ensures Parsed(Parse(p))
  {
    ReadIsPage(p, MAX_CURSOR);
  }

  lemma FiltersRoundTrip(p: Platform, s: Status)
    ensures ParsePlatform(PlatformText(p)) == p && ParseStatus(StatusText(s)) == s
  {
    assert PlatformText(p) == "" || PlatformText(p)[0] == 'l' || PlatformText(p)[0] == 'w';
    assert |StatusText(s)| == match s case Online => 6 case Offline => 7 case AnyStatus => 0;
  }

  /** Any other text leaves the list unfiltered. */
  lemma OtherFilters(s: string)
    ensures ParsePlatform(s) == AnyPlatform <==> s != "linux" && s != "windows"
    ensures ParseStatus(s) == AnyStatus <==> s != "online" && s != "offline"
  {
  }

  lemma FilterParamsRead(q: string, platform: string, status: string)
    requires Basic(platform) && Basic(status)
    ensures var p := FilterParams(q, platform, status);
      One(p, QueryKey) == ToWellFormed(q) && One(p, PlatformKey) == platform && One(p, StatusKey) == status &&
      One(p, CursorKey) == "" && One(p, BackKey) == ""
  {
    BasicUnchanged(status);
    TwoFiltersRead(q, platform);
  }

  lemma TwoFiltersRead(q: string, platform: string)
    requires Basic(platform)
    ensures var p := SetUnlessEmpty(SetUnlessEmpty(map[], QueryKey, q), PlatformKey, platform);
      One(p, QueryKey) == ToWellFormed(q) && One(p, PlatformKey) == platform && One(p, StatusKey) == "" &&
      One(p, CursorKey) == "" && One(p, BackKey) == ""
  {
    BasicUnchanged(platform);
  }

  lemma TextsBasic(p: Platform, s: Status)
    ensures Basic(PlatformText(p)) && Basic(StatusText(s))
  {
  }

  lemma WrittenRead(q: string, platform: string, status: string, page: Page)
    requires Basic(platform) && Basic(status)
    requires forall i :: 0 <= i < |page.back| ==> IsMark(page.back[i], MAX_CURSOR)
    ensures var p := WritePage(FilterParams(q, platform, status), page);
      One(p, QueryKey) == ToWellFormed(q) && One(p, PlatformKey) == platform && One(p, StatusKey) == status &&
      ReadPage(p, MAX_CURSOR) == Clipped(page, MAX_CURSOR)
  {
    var filters := FilterParams(q, platform, status);
    FilterParamsRead(q, platform, status);
    PageRoundTrip(filters, page, MAX_CURSOR);
  }

  lemma ParseReads(p: Params, q: string, platform: string, status: string)
    requires One(p, QueryKey) == q && One(p, PlatformKey) == platform && One(p, StatusKey) == status && |q| <= 200
    ensures Parse(p) == Query(Trim(q), ParsePlatform(platform), ParseStatus(status), ReadPage(p, MAX_CURSOR))
  {
  }

  /** The search text as it comes back from a URL. */
  function Returned(q: string): string {
    Trim(ToWellFormed(q))
  }

  /** Parsing a link gives the query it was written for, its search text made well formed and trimmed once
      more. */
  lemma HrefRoundTrip(base: Query, page: Page)
    requires |base.q| <= 200 && forall i :: 0 <= i < |page.back| ==> IsMark(page.back[i], MAX_CURSOR)
    ensures Parse(PageHref(base, page)) == base.(q := Returned(base.q), page := Clipped(page, MAX_CURSOR))
  {
    var platform, status := PlatformText(base.platform), StatusText(base.status);
    TextsBasic(base.platform, base.status);
    WrittenRead(base.q, platform, status, page);
    ParseReads(PageHref(base, page), ToWellFormed(base.q), platform, status);
    FiltersRoundTrip(base.platform, base.status);
  }

  /** A search text is stable exactly when neither end is white space and no half character is left; a
      text that has come back once is. */
  lemma ReturnedIsStable(q: string)
    ensures Returned(q) == q <==> Trim(q) == q && IsWellFormed(q)
    ensures Returned(Returned(q)) == Returned(q)
  {
    var w := ToWellFormed(q);
    WellFormedMeans(q);
    TrimKeepsWellFormed(w);
    WellFormedMeans(Trim(w));
    TrimIdempotent(w);
    TrimWhole(w);
  }

  lemma TrimWhole(s: string)
    ensures |Trim(s)| == |s| ==> Trim(s) == s
  {
    TrimEndKeepsStart(TrimStart(s));
    TrimEndKeepsStart(s);
  }

  /** When the first parse leaves a text that the next one changes, of a URL whose text is well formed: the
      cut to 200 units falls after white space or between the halves of a character. */
  lemma SearchTextDrifts(s: string)
    requires IsWellFormed(s)
    ensures Returned(Search(s)) == Search(s) <==>
      |Trim(s)| <= 200 || !(IsSpace(Trim(s)[199]) || IsHigh(Trim(s)[199]))
  {
    var t, cut := Trim(s), Search(s);
    TrimKeepsWellFormed(s);
    TrimIdempotent(s);
    ReturnedIsStable(cut);
    if |t| > 200 {
      CutWellFormed(t, 200);
      CutTrimmed(t, 200);
    }
  }

  /** A trimmed text cut short is trimmed exactly when the cut does not fall after white space. */
  lemma CutTrimmed(t: string, n: nat)
    requires Trim(t) == t && 0 < n <= |t|
    ensures Trim(t[..n]) == t[..n] <==> !IsSpace(t[n - 1])
  {
    var cut := t[..n];
    TrimStartStops(t);
    TrimEndKeepsStart(TrimStart(t));
    assert |t| <= |TrimStart(t)|;
    assert cut[0] == t[0] && cut[|cut| - 1] == t[n - 1];
    assert TrimStart(cut) == cut;
  }

  /** Such texts exist: a space, or a character outside the basic plane, where the cut falls. */
  lemma SearchTextCanDrift(c: string)
    requires c == " b" || (|c| == 2 && IsHigh(c[0]) && IsLow(c[1]))
    ensures exists s :: IsWellFormed(s) && Returned(Search(s)) != Search(s)
  {
    var stem := seq(199, i => 'a');
    var s := stem + c;
    assert forall i :: 0 <= i < 199 ==> s[i] == 'a';
    assert s[199] == c[0] && s[200] == c[1];
    assert IsWellFormed(s);
    assert TrimStart(s) == s && TrimEnd(s) == s;
    SearchTextDrifts(s);
  }

  /** The query a Previous link leads to. */
  function Previous(q: Query): Query {
    q.(q := Returned(q.q), page := Popped(q.page))
  }

  lemma PreviousParsed(q: Query)
    requires Parsed(q)
    ensures Parsed(Previous(q))
  {
    PoppedIsPage(q.page, MAX_CURSOR);
  }

  lemma PrevPops(q: Query)
    requires Parsed(q) && q.page.cursor != ""
    ensures Parse(PrevHref(q).value) == Previous(q)
  {
    PoppedIsPage(q.page, MAX_CURSOR);
    HrefRoundTrip(q, Popped(q.page));
  }

  /** Next then Previous comes back to the same page, filters and search included, exactly when the
      stack had room, the page's own cursor is not the sentinel and the search text is trimmed and well
      formed. */
  lemma NextThenPrev(q: Query, next: string)
    requires Parsed(q) && IsCursor(next, MAX_CURSOR)
    ensures var there := Parse(NextHref(q, Some(next)).value);
      there == q.(q := Returned(q.q), page := Clipped(Pushed(q.page, next), MAX_CURSOR)) && PrevHref(there).Some? &&
      (Parse(PrevHref(there).value) == q <==>
        |q.page.back| < 50 && q.page.cursor != "0" && Trim(q.q) == q.q && IsWellFormed(q.q))
  {
    NextPushes(q, next);
    PushThenPop(q.page, next, MAX_CURSOR);
    PrevPops(q.(q := Returned(q.q), page := Clipped(Pushed(q.page, next), MAX_CURSOR)));
    ReturnedIsStable(q.q);
  }

  lemma NextPushes(q: Query, next: string)
    requires Parsed(q) && next != ""
    ensures Parse(NextHref(q, Some(next)).value) ==
      q.(q := Returned(q.q), page := Clipped(Pushed(q.page, next), MAX_CURSOR))
  {
    HrefRoundTrip(q, Pushed(q.page, next));
  }

  /** The query reached by n of them, or the first page if that comes earlier. */
  function Backward(q: Query, n: nat): Query
    decreases n
  {
    if n == 0 || q.page.cursor == "" then q else Backward(Previous(q), n - 1)
  }

  /** From here the Previous link, read back from its URL, leads one step further, if there is one. */
  ghost predicate LinkLeads(q: Query, k: nat) {
    var here := Backward(q, k);
    here.page.cursor != "" ==> PrevHref(here).Some? && Parse(PrevHref(here).value) == Backward(q, k + 1)
  }

  lemma {:induction false} BackwardPages(q: Query, n: nat)
    requires Parsed(q)
    ensures Backward(q, n).page == BackPages(q.page, n) && Parsed(Backward(q, n))
    decreases n
  {
    if n > 0 && q.page.cursor != "" {
      PreviousParsed(q);
      BackwardPages(Previous(q), n - 1);
    }
  }

  lemma {:induction false} OneMoreBack(q: Query, n: nat)
    ensures Backward(q, n + 1) == if Backward(q, n).page.cursor == "" then Backward(q, n) else Previous(Backward(q, n))
    decreases n
  {
    if n > 0 && q.page.cursor != "" { OneMoreBack(Previous(q), n - 1); }
  }

  lemma LinksLead(q: Query, k: nat)
    requires Parsed(q)
    ensures LinkLeads(q, k)
  {
    BackwardPages(q, k);
    OneMoreBack(q, k);
    if Backward(q, k).page.cursor != "" { PrevPops(Backward(q, k)); }
  }

  /** From any URL whatever, at most 51 Previous links lead to the first page, which has none. */
  lemma FirstPageReached(p: Params) returns (n: nat)
    ensures n <= 51 && PrevHref(Backward(Parse(p), n)).None?
    ensures forall k: nat :: k < n ==> LinkLeads(Parse(p), k)
  {
    ParsedAlways(p);
    n := FirstPageFrom(Parse(p));
  }

  lemma FirstPageFrom(q: Query) returns (n: nat)
    requires Parsed(q)
    ensures n <= 51 && PrevHref(Backward(q, n)).None?
    ensures forall k: nat :: k < n ==> LinkLeads(q, k)
  {
    n := StepsToFirst(q.page);
    BackwardPages(q, n);
    forall k: nat | k < n ensures LinkLeads(q, k) { LinksLead(q, k); }
  }
}
