/** What the two paged lists share: a cursor, the cursors of the pages before it, and how both
    travel in a query string. lib/exposure-model.ts and lib/device-list.ts, paging. */
module CursorStack {
  import opened Text

  /** The parameters the two lists use. */
  datatype Key = QueryKey | PlatformKey | BucketKey | StatusKey | CursorKey | BackKey | AdvisoryKey

  /** The search params of a page. A repeated parameter has several values. */
  type Params = map<Key, seq<string>>

  /** The first value of a parameter, or "". */
  function One(p: Params, key: Key): string {
    if key in p && p[key] != [] then p[key][0] else ""
  }

  /** URLSearchParams.set, for a value that is left out when empty. It keeps well-formed text only. */
  function SetUnlessEmpty(p: Params, key: Key, value: string): (r: Params)
    ensures forall k :: One(r, k) == if k == key && value != "" then ToWellFormed(value) else One(p, k)
  {
    if value == "" then p else p[key := [ToWellFormed(value)]]
  }

  const DEPTH := 50

  predicate CursorChar(c: char) {
    'A' <= c <= 'Z' || 'a' <= c <= 'z' || '0' <= c <= '9' || c == '_' || c == '-'
  }

  /** CURSOR_RE with its maximal length. */
  predicate IsCursor(s: string, max: nat) {
    1 <= |s| <= max && forall i :: 0 <= i < |s| ==> CursorChar(s[i])
  }

  /** "0" in the stack stands for the first page. */
  predicate IsMark(s: string, max: nat) {
    s == "0" || IsCursor(s, max)
  }

  function Mark(cursor: string): string {
    if cursor == "" then "0" else cursor
  }

  function Unmark(mark: string): string {
    if mark == "0" then "" else mark
  }

  /** text.split(".") */
  function Split(s: string): (parts: seq<string>)
    ensures parts != []
  {
    if s == "" then [""]
    else
      var rest := Split(s[1..]);
      if s[0] == '.' then [""] + rest else [[s[0]] + rest[0]] + rest[1..]
  }

  /** parts.join(".") */
  function Join(parts: seq<string>): string {
    if parts == [] then "" else if |parts| == 1 then parts[0] else parts[0] + "." + Join(parts[1..])
  }

  function Marks(parts: seq<string>, max: nat): (r: seq<string>)
    ensures forall i :: 0 <= i < |r| ==> IsMark(r[i], max)
  {
    if parts == [] then []
    else (if IsMark(parts[0], max) then [parts[0]] else []) + Marks(parts[1..], max)
  }

  /** list.slice(-50) */
  function Last<T>(s: seq<T>): seq<T> {
    if |s| <= DEPTH then s else s[|s| - DEPTH..]
  }

  function ParseBack(text: string, max: nat): seq<string> {
    Last(Marks(Split(text), max))
  }

  predicate Undotted(s: string) {
    forall i :: 0 <= i < |s| ==> s[i] != '.'
  }

  lemma {:induction false} SplitUndotted(s: string, tail: string)
    requires Undotted(s)
    ensures Split(s) == [s]
    ensures Split(s + "." + tail) == [s] + Split(tail)
  {
    if s == "" {
      assert (s + "." + tail)[1..] == tail;
    } else {
      var t := s + "." + tail;
      assert t[1..] == s[1..] + "." + tail;
      SplitUndotted(s[1..], tail);
      assert s == [s[0]] + s[1..];
    }
  }

  lemma {:induction false} SplitJoin(parts: seq<string>)
    requires parts != [] && forall i :: 0 <= i < |parts| ==> Undotted(parts[i])
    ensures Split(Join(parts)) == parts
  {
    if |parts| == 1 {
      SplitUndotted(parts[0], "");
    } else {
      SplitJoin(parts[1..]);
      SplitUndotted(parts[0], Join(parts[1..]));
    }
  }

  lemma {:induction false} MarksKept(parts: seq<string>, max: nat)
    requires forall i :: 0 <= i < |parts| ==> IsMark(parts[i], max)
    ensures Marks(parts, max) == parts
  {
    if parts != [] { MarksKept(parts[1..], max); }
  }

  /** A stack written into a URL is read back, less what lies deeper than 50. */
  lemma BackRoundTrip(back: seq<string>, max: nat)
    requires forall i :: 0 <= i < |back| ==> IsMark(back[i], max)
    ensures ParseBack(Join(back), max) == Last(back)
  {
    if back == [] {
      assert Split("") == [""];
      assert Marks([""], max) == [];
    } else {
      forall i | 0 <= i < |back| ensures Undotted(back[i]) { assert IsMark(back[i], max); }
      SplitJoin(back);
      MarksKept(back, max);
    }
  }

  /** The stack is empty in the URL only when there is nothing on it. */
  lemma JoinNonempty(back: seq<string>, max: nat)
    requires back != [] && forall i :: 0 <= i < |back| ==> IsMark(back[i], max)
    ensures Join(back) != ""
  {
    assert IsMark(back[0], max);
  }

  lemma {:induction false} JoinBasic(back: seq<string>, max: nat)
    requires forall i :: 0 <= i < |back| ==> IsMark(back[i], max)
    ensures Basic(Join(back))
  {
    if back != [] {
      assert IsMark(back[0], max);
      JoinBasic(back[1..], max);
    }
  }

  /** A cursor goes through a URL unchanged, and what is none does not become one. */
  lemma CursorUnchanged(s: string, max: nat)
    ensures IsCursor(ToWellFormed(s), max) <==> IsCursor(s, max)
    ensures IsCursor(s, max) ==> ToWellFormed(s) == s
  {
    var r := ToWellFormed(s);
    forall i | 0 <= i < |s| ensures r[i] == (if LoneHalf(s, i) then REPLACEMENT else s[i]) { ToWellFormedAt(s, i); }
    assert forall i :: 0 <= i < |s| && CursorChar(r[i]) ==> r[i] == s[i];
    if IsCursor(s, max) { BasicUnchanged(s); }
  }

  // ---- pages -----------------------------------------------------------------------

  /** Where a list stands: the cursor of the page, and the marks of the pages before it. */
  datatype Page = Page(cursor: string, back: seq<string>)

  /** What parsing guarantees of a page. */
  ghost predicate IsPage(p: Page, max: nat) {
    (p.cursor == "" || IsCursor(p.cursor, max)) &&
    |p.back| <= DEPTH && forall i :: 0 <= i < |p.back| ==> IsMark(p.back[i], max)
  }

  function ReadPage(p: Params, max: nat): Page {
    var cursor := One(p, CursorKey);
    Page(if IsCursor(cursor, max) then cursor else "", ParseBack(One(p, BackKey), max))
  }

  lemma ReadIsPage(p: Params, max: nat)
    ensures IsPage(ReadPage(p, max), max)
  {
  }

  function WritePage(p: Params, page: Page): Params {
    SetUnlessEmpty(SetUnlessEmpty(p, CursorKey, page.cursor), BackKey, Join(page.back))
  }

  /** What is left of a page that went through a URL. */
  function Clipped(page: Page, max: nat): Page {
    Page(if IsCursor(page.cursor, max) then page.cursor else "", Last(page.back))
  }

  lemma PageRoundTrip(p: Params, page: Page, max: nat)
    requires One(p, CursorKey) == "" && One(p, BackKey) == ""
    requires forall i :: 0 <= i < |page.back| ==> IsMark(page.back[i], max)
    ensures ReadPage(WritePage(p, page), max) == Clipped(page, max)
    ensures forall k :: k != CursorKey && k != BackKey ==> One(WritePage(p, page), k) == One(p, k)
    ensures IsPage(Clipped(page, max), max)
  {
    BackRoundTrip(page.back, max);
    JoinBasic(page.back, max);
    BasicUnchanged(Join(page.back));
    CursorUnchanged(page.cursor, max);
    if page.back != [] { JoinNonempty(page.back, max); }
  }

  /** The page a Next link names. */
  function Pushed(page: Page, next: string): Page {
    Page(next, page.back + [Mark(page.cursor)])
  }

  /** The page a Previous link names. */
  function Popped(page: Page): Page {
    if page.back == [] then Page("", [])
    else Page(Unmark(page.back[|page.back| - 1]), page.back[..|page.back| - 1])
  }

  function PageNumber(page: Page): nat {
    if page.cursor != "" then |page.back| + 1 else 1
  }

  lemma PoppedIsPage(page: Page, max: nat)
    requires IsPage(page, max)
    ensures IsPage(Popped(page), max) && Clipped(Popped(page), max) == Popped(page)
  {
    if page.back != [] { assert IsMark(page.back[|page.back| - 1], max); }
  }

  /** Next then Previous comes back to the page exactly when the stack had room and the page's own
      cursor is not the sentinel. The page number counts up exactly when, besides, an empty cursor means
      an empty stack. */
  lemma PushThenPop(page: Page, next: string, max: nat)
    requires IsPage(page, max) && IsCursor(next, max)
    ensures var there := Clipped(Pushed(page, next), max);
      there.cursor == next && IsPage(there, max) &&
      (Popped(there) == page <==> |page.back| < 50 && page.cursor != "0") &&
      (PageNumber(there) == PageNumber(page) + 1 <==> |page.back| < 50 && (page.cursor == "" ==> page.back == []))
  {
    var there := Clipped(Pushed(page, next), max);
    assert there.back[|there.back| - 1] == Mark(page.cursor);
    if |page.back| < DEPTH {
      assert there.back[..|there.back| - 1] == page.back;
    }
  }

  /** The page reached by n Previous links, or the first page if that comes earlier. */
  function BackPages(page: Page, n: nat): Page
    decreases n
  {
    if n == 0 || page.cursor == "" then page else BackPages(Popped(page), n - 1)
  }

  lemma {:induction false} BackOneMore(page: Page, n: nat)
    ensures BackPages(page, n + 1) == BackPages(BackPages(page, n), 1)
    decreases n
  {
    if n > 0 && page.cursor != "" { BackOneMore(Popped(page), n - 1); }
  }

  /** Previous reaches the first page in at most one step more than the stack is deep: from a URL,
      never more than 51. */
  function {:induction false} StepsToFirst(page: Page): (n: nat)
    ensures n <= |page.back| + 1
    ensures BackPages(page, n).cursor == ""
    decreases if page.cursor == "" then 0 else |page.back| + 1
  {
    if page.cursor == "" then 0 else 1 + StepsToFirst(Popped(page))
  }

  /** The page reached by a Next link for each cursor in turn, each link read back from its URL. */
  function ForwardPages(page: Page, cursors: seq<string>, max: nat): Page
    decreases cursors
  {
    if cursors == [] then page else ForwardPages(Clipped(Pushed(page, cursors[0]), max), cursors[1..], max)
  }

  /** However many pages are walked, as long as the stack holds them, walking back retraces them. */
  lemma {:induction false} WalkRetraced(page: Page, cursors: seq<string>, max: nat)
    requires IsPage(page, max) && page.cursor != "0"
    requires forall i :: 0 <= i < |cursors| ==> IsCursor(cursors[i], max) && cursors[i] != "0"
    requires |page.back| + |cursors| <= 50
    ensures BackPages(ForwardPages(page, cursors, max), |cursors|) == page
    decreases cursors
  {
    if cursors != [] {
      var second := Clipped(Pushed(page, cursors[0]), max);
      PushThenPop(page, cursors[0], max);
      WalkRetraced(second, cursors[1..], max);
      BackOneMore(ForwardPages(page, cursors, max), |cursors| - 1);
      assert BackPages(second, 1) == BackPages(Popped(second), 0);
    }
  }
}
