/** The ranked list's URL: lib/exposure-model.ts, from parseExposureQuery to pageNumber. */
module ExposureList {
  import opened Wrappers
  import opened Text
  import opened CursorStack

  const MAX_CURSOR := 600

  datatype Bucket = Fix | Watch
  datatype Status = Open | Resolved

  datatype Query = Query(bucket: Bucket, status: Status, page: Page, advisory: string)

  function Short(advisory: string): string {
    if |advisory| <= 200 then advisory else advisory[..200]
  }

  function Parse(p: Params): Query {
    Query(
      if One(p, BucketKey) == "watch" then Watch else Fix,
      if One(p, StatusKey) == "resolved" then Resolved else Open,
      ReadPage(p, MAX_CURSOR),
      Short(One(p, AdvisoryKey)))
  }

  /** What parsing guarantees of a query. */
  ghost predicate Parsed(q: Query) {
    IsPage(q.page, MAX_CURSOR) && |q.advisory| <= 200
  }

  function BucketText(bucket: Bucket): string {
    if bucket == Watch then "watch" else ""
  }

  function StatusText(status: Status): string {
    if status == Resolved then "resolved" else ""
  }

  function FilterParams(bucket: string, status: string): Params {
    SetUnlessEmpty(SetUnlessEmpty(map[], BucketKey, bucket), StatusKey, status)
  }

  function ListHref(bucket: Bucket, status: Status, page: Page, advisory: string): Params {
    SetUnlessEmpty(WritePage(FilterParams(BucketText(bucket), StatusText(status)), page), AdvisoryKey, advisory)
  }

  function NextHref(q: Query, next: Option<string>): Option<Params> {
    if next.None? || next.value == "" then None
    else Some(ListHref(q.bucket, q.status, Pushed(q.page, next.value), ""))
  }

  function PrevHref(q: Query): Option<Params> {
    if q.page.cursor == "" then None
    else Some(ListHref(q.bucket, q.status, Popped(q.page), ""))
  }

  function DrawerHref(q: Query, advisoryId: string): Params {
    ListHref(q.bucket, q.status, q.page, advisoryId)
  }

  // ---- links are read back -----------------------------------------------------------

  lemma ParsedAlways(p: Params)
    ensures Parsed(Parse(p))
  {
    ReadIsPage(p, MAX_CURSOR);
  }

  lemma HrefParams(bucket: Bucket, status: Status, page: Page, advisory: string)
    requires forall i :: 0 <= i < |page.back| ==> IsMark(page.back[i], MAX_CURSOR)
    ensures var p := ListHref(bucket, status, page, advisory);
      One(p, BucketKey) == BucketText(bucket) && One(p, StatusKey) == StatusText(status) &&
      One(p, AdvisoryKey) == ToWellFormed(advisory) && ReadPage(p, MAX_CURSOR) == Clipped(page, MAX_CURSOR)
  {
    TextsBasic(bucket, status);
    WrittenRead(BucketText(bucket), StatusText(status), page, advisory);
  }

  lemma TextsBasic(bucket: Bucket, status: Status)
    ensures Basic(BucketText(bucket)) && Basic(StatusText(status))
  {
  }

  lemma WrittenRead(bucket: string, status: string, page: Page, advisory: string)
    requires Basic(bucket) && Basic(status)
    requires forall i :: 0 <= i < |page.back| ==> IsMark(page.back[i], MAX_CURSOR)
    ensures var p := SetUnlessEmpty(WritePage(FilterParams(bucket, status), page), AdvisoryKey, advisory);
      One(p, BucketKey) == bucket && One(p, StatusKey) == status &&
      One(p, AdvisoryKey) == ToWellFormed(advisory) && ReadPage(p, MAX_CURSOR) == Clipped(page, MAX_CURSOR)
  {
    FilterParamsRead(bucket, status);
    PageRoundTrip(FilterParams(bucket, status), page, MAX_CURSOR);
    AdvisoryKeepsPage(WritePage(FilterParams(bucket, status), page), advisory);
  }

  lemma FilterParamsRead(bucket: string, status: string)
    requires Basic(bucket) && Basic(status)
    ensures var p := FilterParams(bucket, status);
      One(p, BucketKey) == bucket && One(p, StatusKey) == status &&
      One(p, CursorKey) == "" && One(p, BackKey) == "" && One(p, AdvisoryKey) == ""
  {
    BasicUnchanged(bucket);
    BasicUnchanged(status);
  }

  lemma AdvisoryKeepsPage(p: Params, advisory: string)
    requires One(p, AdvisoryKey) == ""
    ensures var r := SetUnlessEmpty(p, AdvisoryKey, advisory);
      One(r, AdvisoryKey) == ToWellFormed(advisory) && ReadPage(r, MAX_CURSOR) == ReadPage(p, MAX_CURSOR) &&
      One(r, BucketKey) == One(p, BucketKey) && One(r, StatusKey) == One(p, StatusKey)
  {
  }

  /** Parsing a link gives the query it was written for, its advisory made well formed and cut. */
  lemma HrefRoundTrip(bucket: Bucket, status: Status, page: Page, advisory: string)
    requires forall i :: 0 <= i < |page.back| ==> IsMark(page.back[i], MAX_CURSOR)
    ensures Parse(ListHref(bucket, status, page, advisory)) ==
      Query(bucket, status, Clipped(page, MAX_CURSOR), Short(ToWellFormed(advisory)))
  {
    HrefParams(bucket, status, page, advisory);
  }

  lemma LinkRoundTrip(bucket: Bucket, status: Status, page: Page)
    requires forall i :: 0 <= i < |page.back| ==> IsMark(page.back[i], MAX_CURSOR)
    ensures Parse(ListHref(bucket, status, page, "")) == Query(bucket, status, Clipped(page, MAX_CURSOR), "")
  {
    HrefRoundTrip(bucket, status, page, "");
    assert ToWellFormed("") == "";
  }

  /** Opening a drawer changes nothing but the advisory, and opens the one asked for exactly when its id
      is well formed and has at most 200 units. */
  lemma DrawerKeepsPage(q: Query, advisoryId: string)
    requires Parsed(q)
    ensures var drawer := Parse(DrawerHref(q, advisoryId));
      drawer.(advisory := q.advisory) == q &&
      (drawer.advisory == advisoryId <==> |advisoryId| <= 200 && IsWellFormed(advisoryId))
  {
    HrefRoundTrip(q.bucket, q.status, q.page, advisoryId);
    WellFormedMeans(advisoryId);
  }

  lemma NextPushes(q: Query, next: string)
    requires Parsed(q) && next != ""
    ensures Parse(NextHref(q, Some(next)).value) ==
      Query(q.bucket, q.status, Clipped(Pushed(q.page, next), MAX_CURSOR), "")
  {
    assert NextHref(q, Some(next)).value == ListHref(q.bucket, q.status, Pushed(q.page, next), "");
    LinkRoundTrip(q.bucket, q.status, Pushed(q.page, next));
  }

  /** The query a Previous link leads to. */
  function Previous(q: Query): Query {
    Query(q.bucket, q.status, Popped(q.page), "")
  }

  lemma PreviousParsed(q: Query)
    requires Parsed(q)
    ensures Parsed(Previous(q))
  {
    PoppedIsPage(q.page, MAX_CURSOR);
  }

  lemma PrevPops(q: Query)
    requires Parsed(q) && q.page.cursor != ""
    ensures Parse(PrevHref(q).value) == Previous(q)
  {
    PoppedIsPage(q.page, MAX_CURSOR);
    LinkRoundTrip(q.bucket, q.status, Popped(q.page));
  }

  /** Next then Previous comes back to the same page with the same filters exactly when the stack had
      room and the page's own cursor is not the sentinel; a cursor the parser would drop leads nowhere. */
  lemma NextThenPrev(q: Query, next: string)
    requires Parsed(q) && next != ""
    ensures var there := Parse(NextHref(q, Some(next)).value);
      if IsCursor(next, MAX_CURSOR) then
        there.page.cursor == next && PrevHref(there).Some? &&
        (Parse(PrevHref(there).value) == q.(advisory := "") <==> |q.page.back| < 50 && q.page.cursor != "0")
      else PrevHref(there).None?
  {
    NextPushes(q, next);
    if IsCursor(next, MAX_CURSOR) {
      PushThenPop(q.page, next, MAX_CURSOR);
      PrevPops(Parse(NextHref(q, Some(next)).value));
    }
  }

  /** The query reached by n of them, or the first page if that comes earlier. */
  function Backward(q: Query, n: nat): Query
    decreases n
  {
    if n == 0 || q.page.cursor == "" then q else Backward(Previous(q), n - 1)
  }

  /** From here the Previous link, read back from its URL, leads one step further, if there is one. */
  ghost predicate LinkLeads(q: Query, k: nat) {
    var here := Backward(q, k);
    here.page.cursor != "" ==> PrevHref(here).Some? && Parse(PrevHref(here).value) == Backward(q, k + 1)
  }

  lemma {:induction false} BackwardPages(q: Query, n: nat)
    requires Parsed(q)
    ensures Backward(q, n).page == BackPages(q.page, n) && Parsed(Backward(q, n))
    decreases n
  {
    if n > 0 && q.page.cursor != "" {
      PreviousParsed(q);
      BackwardPages(Previous(q), n - 1);
    }
  }

  lemma {:induction false} OneMoreBack(q: Query, n: nat)
    ensures Backward(q, n + 1) == if Backward(q, n).page.cursor == "" then Backward(q, n) else Previous(Backward(q, n))
    decreases n
  {
    if n > 0 && q.page.cursor != "" { OneMoreBack(Previous(q), n - 1); }
  }

  lemma LinksLead(q: Query, k: nat)
    requires Parsed(q)
    ensures LinkLeads(q, k)
  {
    BackwardPages(q, k);
    OneMoreBack(q, k);
    if Backward(q, k).page.cursor != "" { PrevPops(Backward(q, k)); }
  }

  /** From any URL whatever, at most 51 Previous links lead to the first page, which has none. */
  lemma FirstPageReached(p: Params) returns (n: nat)
    ensures n <= 51 && PrevHref(Backward(Parse(p), n)).None?
    ensures forall k: nat :: k < n ==> LinkLeads(Parse(p), k)
  {
    ParsedAlways(p);
    n := FirstPageFrom(Parse(p));
  }

  lemma FirstPageFrom(q: Query) returns (n: nat)
    requires Parsed(q)
    ensures n <= 51 && PrevHref(Backward(q, n)).None?
    ensures forall k: nat :: k < n ==> LinkLeads(q, k)
  {
    n := StepsToFirst(q.page);
    BackwardPages(q, n);
    forall k: nat | k < n ensures LinkLeads(q, k) { LinksLead(q, k); }
  }
}
