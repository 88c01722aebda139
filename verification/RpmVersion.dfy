/** RPM version comparison: internal/vuln/rpm.go. */
module RpmVersion {
  import opened Text
  import opened Sorting
  import opened Numbers

  predicate IsLetter(c: char) {
    'a' <= c <= 'z' || 'A' <= c <= 'Z'
  }

  /** Any other character separates. */
  predicate Counts(c: char) {
    IsDigit(c) || IsLetter(c) || c == '~' || c == '^'
  }

  function Sign(n: int): int {
    if n < 0 then -1 else if n > 0 then 1 else 0
  }

  /** strings.Compare */
  function CompareText(a: string, b: string): int {
    if Less(a, b) then -1 else if Less(b, a) then 1 else 0
  }

  lemma CompareTextOrder(a: string, b: string, c: string)
    ensures CompareText(a, b) == -CompareText(b, a) && (CompareText(a, b) == 0 <==> a == b)
    ensures CompareText(a, b) <= 0 && CompareText(b, c) <= 0 ==> CompareText(a, c) <= 0
  {
    LessTrichotomy(a, b);
    LessTrichotomy(b, c);
    LessTrichotomy(a, c);
    if Less(a, b) && Less(b, c) { LessTransitive(a, b, c); }
  }

  // ---- reference: a version is a list of segments -------------------------------------------

  /** A number is its digits without leading zeros. */
  datatype Segment = Tilde | Caret | Letters(text: string) | Number(digits: string)

  function RunEnd(s: string, i: nat, digits: bool): (e: nat)
    requires i <= |s|
    ensures i <= e <= |s|
    decreases |s| - i
  {
    if i < |s| && (if digits then IsDigit(s[i]) else IsLetter(s[i])) then RunEnd(s, i + 1, digits) else i
  }

  function TrimZeros(digits: string): string {
    if digits != "" && digits[0] == '0' then TrimZeros(digits[1..]) else digits
  }

  /** The segments from position i on. */
  function Segments(s: string, i: nat): seq<Segment>
    requires i <= |s|
    decreases |s| - i
  {
    if i == |s| then []
    else if !Counts(s[i]) then Segments(s, i + 1)
    else if s[i] == '~' then [Tilde] + Segments(s, i + 1)
    else if s[i] == '^' then [Caret] + Segments(s, i + 1)
    else
      var e := RunEnd(s, i + 1, IsDigit(s[i]));
      [if IsDigit(s[i]) then Number(TrimZeros(s[i..e])) else Letters(s[i..e])] + Segments(s, e)
  }

  /** What a list starts with: a tilde before the end of the list, the end before a caret, then letters, then a
      number. */
  function Kind(x: seq<Segment>): int {
    if x == [] then 1
    else match x[0]
      case Tilde => 0
      case Caret => 2
      case Letters(_) => 3
      case Number(_) => 4
  }

  /** Of two numbers the one with more digits is larger. */
  function CompareNumber(a: string, b: string): int {
    if |a| != |b| then Sign(|a| - |b|) else CompareText(a, b)
  }

  function CompareHead(x: seq<Segment>, y: seq<Segment>): int {
    if Kind(x) != Kind(y) then Sign(Kind(x) - Kind(y))
    else match Kind(x)
      case 3 => CompareText(x[0].text, y[0].text)
      case 4 => CompareNumber(x[0].digits, y[0].digits)
      case _ => 0
  }

  function Compare(x: seq<Segment>, y: seq<Segment>): int
    decreases |x|
  {
    var c := CompareHead(x, y);
    if c != 0 || x == [] then c else Compare(x[1..], y[1..])
  }

  lemma CompareHeadOrder(x: seq<Segment>, y: seq<Segment>, z: seq<Segment>)
    ensures CompareHead(x, y) == -CompareHead(y, x)
    ensures CompareHead(x, y) == 0 <==> (x == [] && y == []) || (x != [] && y != [] && x[0] == y[0])
    ensures CompareHead(x, y) <= 0 && CompareHead(y, z) <= 0 ==> CompareHead(x, z) <= 0
  {
    if Kind(x) == Kind(y) == 3 {
      CompareTextOrder(x[0].text, y[0].text, if Kind(z) == 3 then z[0].text else "");
    }
    if Kind(x) == Kind(y) == 4 {
      CompareTextOrder(x[0].digits, y[0].digits, if Kind(z) == 4 then z[0].digits else "");
    }
  }

  /** The comparison is a total order of segment lists. */
  lemma {:induction false} CompareOrder(x: seq<Segment>, y: seq<Segment>)
    ensures Compare(x, y) == -Compare(y, x) && (Compare(x, y) == 0 <==> x == y)
    decreases |x|
  {
    CompareHeadOrder(x, y, []);
    if CompareHead(x, y) == 0 && x != [] {
      CompareOrder(x[1..], y[1..]);
      assert x == [x[0]] + x[1..] && y == [y[0]] + y[1..];
    }
  }

  lemma {:induction false} CompareTransitive(x: seq<Segment>, y: seq<Segment>, z: seq<Segment>)
    requires Compare(x, y) <= 0 && Compare(y, z) <= 0
    ensures Compare(x, z) <= 0
    decreases |x|
  {
    CompareHeadOrder(x, y, z);
    CompareHeadOrder(y, z, x);
    CompareHeadOrder(z, x, y);
    if CompareHead(x, y) == 0 && CompareHead(y, z) == 0 && x != [] {
      CompareTransitive(x[1..], y[1..], z[1..]);
    }
  }

  // ---- the comparison as the program does it -------------------------------------------------

  method SkipSeparators(s: string, from: nat) returns (i: nat)
    requires from <= |s|
    ensures from <= i <= |s| && Segments(s, i) == Segments(s, from) && (i < |s| ==> Counts(s[i]))
  {
    i := from;
    while i < |s| && !(IsDigit(s[i]) || IsLetter(s[i])) && s[i] != '~' && s[i] != '^'
      invariant from <= i <= |s| && Segments(s, i) == Segments(s, from)
    {
      i := i + 1;
    }
  }

  method Run(s: string, from: nat, digits: bool) returns (e: nat)
    requires from <= |s|
    ensures e == RunEnd(s, from, digits)
  {
    e := from;
    while e < |s| && (if digits then IsDigit(s[e]) else IsLetter(s[e]))
      invariant from <= e <= |s| && RunEnd(s, e, digits) == RunEnd(s, from, digits)
    {
      e := e + 1;
    }
  }

  /** Compares the runs at these positions; on 0 both lists go on behind them. */
  method CompareRuns(a: string, b: string, one: nat, two: nat) returns (c: int, s1: nat, s2: nat)
    requires one < |a| && two < |b|
    requires (IsDigit(a[one]) || IsLetter(a[one])) && (IsDigit(b[two]) || IsLetter(b[two]))
    ensures one < s1 <= |a| && two <= s2 <= |b|
    ensures c == CompareHead(Segments(a, one), Segments(b, two))
    ensures c == 0 ==> two < s2 && Segments(a, one)[1..] == Segments(a, s1) && Segments(b, two)[1..] == Segments(b, s2)
  {
    var isNum := IsDigit(a[one]);
    s1 := Run(a, one, isNum);
    s2 := Run(b, two, isNum);
    var segA, segB := a[one..s1], b[two..s2];
    if |segB| == 0 {
      return if isNum then 1 else -1, s1, s2;
    }
    if isNum {
      segA, segB := TrimZeros(segA), TrimZeros(segB);
      if |segA| != |segB| {
        return if |segA| > |segB| then 1 else -1, s1, s2;
      }
    }
    c := CompareText(segA, segB);
  }

  /** The program's comparison is that of the segments. */
  method RpmVerCmp(a: string, b: string) returns (r: int)
    ensures r == Compare(Segments(a, 0), Segments(b, 0))
  {
    if a == b {
      CompareOrder(Segments(a, 0), Segments(b, 0));
      return 0;
    }
    var one, two := 0, 0;
    while one < |a| || two < |b|
      invariant one <= |a| && two <= |b|
      invariant Compare(Segments(a, one), Segments(b, two)) == Compare(Segments(a, 0), Segments(b, 0))
      decreases |a| - one + |b| - two
    {
      one := SkipSeparators(a, one);
      two := SkipSeparators(b, two);
      var aTilde, bTilde := one < |a| && a[one] == '~', two < |b| && b[two] == '~';
      if aTilde || bTilde {
        if !aTilde { return 1; }
        if !bTilde { return -1; }
        one, two := one + 1, two + 1;
        continue;
      }
      var aCaret, bCaret := one < |a| && a[one] == '^', two < |b| && b[two] == '^';
      if aCaret || bCaret {
        if one >= |a| { return -1; }
        if two >= |b| { return 1; }
        if !aCaret { return 1; }
        if !bCaret { return -1; }
        one, two := one + 1, two + 1;
        continue;
      }
      if one >= |a| || two >= |b| { break; }
      var c, s1, s2 := CompareRuns(a, b, one, two);
      if c != 0 { return c; }
      one, two := s1, s2;
    }
    r := if one >= |a| && two >= |b| then 0 else if one >= |a| then -1 else 1;
  }

  // ---- what the comparison means -----------------------------------------------------------------

  predicate InRun(c: char, digits: bool) {
    if digits then IsDigit(c) else IsLetter(c)
  }

  /** No run of digits or of letters goes on from p into t. */
  predicate Breaks(p: string, t: string) {
    p != "" && t != "" ==> forall digits :: !(InRun(p[|p| - 1], digits) && InRun(t[0], digits))
  }

  lemma {:induction false} RunEndSplit(p: string, t: string, i: nat, digits: bool)
    requires 0 < i <= |p| && InRun(p[i - 1], digits) && Breaks(p, t)
    ensures RunEnd(p + t, i, digits) == RunEnd(p, i, digits)
    decreases |p| - i
  {
    if i < |p| {
      assert (p + t)[i] == p[i];
      if InRun(p[i], digits) { RunEndSplit(p, t, i + 1, digits); }
    } else if t != "" {
      assert (p + t)[i] == t[0] && !InRun(t[0], digits);
    }
  }

  lemma {:induction false} RunEndShift(p: string, t: string, k: nat, digits: bool)
    requires k <= |t|
    ensures RunEnd(p + t, |p| + k, digits) == |p| + RunEnd(t, k, digits)
    decreases |t| - k
  {
    if k < |t| {
      assert (p + t)[|p| + k] == t[k];
      RunEndShift(p, t, k + 1, digits);
    }
  }

  /** Where the step of reading at i ends. */
  function StepEnd(s: string, i: nat): (e: nat)
    requires i < |s|
    ensures i < e <= |s|
  {
    if IsDigit(s[i]) || IsLetter(s[i]) then RunEnd(s, i + 1, IsDigit(s[i])) else i + 1
  }

  lemma StepShift(p: string, t: string, k: nat)
    requires k < |t|
    ensures StepEnd(p + t, |p| + k) == |p| + StepEnd(t, k)
    ensures (p + t)[|p| + k..|p| + StepEnd(t, k)] == t[k..StepEnd(t, k)]
  {
    assert (p + t)[|p| + k] == t[k];
    RunEndShift(p, t, k + 1, IsDigit(t[k]));
  }

  lemma {:induction false} SegmentsShift(p: string, t: string, k: nat)
    requires k <= |t|
    ensures Segments(p + t, |p| + k) == Segments(t, k)
    decreases |t| - k
  {
    if k < |t| {
      StepShift(p, t, k);
      SegmentsShift(p, t, StepEnd(t, k));
      FirstSegment(t, k);
      FirstSegment(p + t, |p| + k);
    }
  }

  lemma StepSplit(p: string, t: string, i: nat)
    requires i < |p| && Breaks(p, t)
    ensures StepEnd(p + t, i) == StepEnd(p, i) && (p + t)[i..StepEnd(p, i)] == p[i..StepEnd(p, i)]
  {
    assert (p + t)[i] == p[i];
    if IsDigit(p[i]) || IsLetter(p[i]) { RunEndSplit(p, t, i + 1, IsDigit(p[i])); }
    SliceInFront(p, t, i, StepEnd(p, i));
  }

  lemma SliceInFront(p: string, t: string, i: nat, j: nat)
    requires i <= j <= |p|
    ensures (p + t)[i..j] == p[i..j]
  {
  }

  lemma Regroup(a: seq<Segment>, b: seq<Segment>, c: seq<Segment>)
    ensures a + (b + c) == a + b + c
  {
  }

  /** Two texts that break between them are read one after the other. */
  lemma {:induction false} SegmentsSplit(p: string, t: string, i: nat)
    requires i <= |p| && Breaks(p, t)
    ensures Segments(p + t, i) == Segments(p, i) + Segments(t, 0)
    decreases |p| - i
  {
    if i == |p| {
      SegmentsShift(p, t, 0);
    } else {
      var e := StepEnd(p, i);
      StepSplit(p, t, i);
      SegmentsSplit(p, t, e);
      FirstSegment(p, i);
      FirstSegment(p + t, i);
      Regroup(SegmentOf(p[i..e]), Segments(p, e), Segments(t, 0));
    }
  }

  /** One step of reading the segments. */
  lemma FirstSegment(s: string, i: nat)
    requires i < |s|
    ensures Segments(s, i) == SegmentOf(s[i..StepEnd(s, i)]) + Segments(s, StepEnd(s, i))
  {
  }

  function SegmentOf(text: string): seq<Segment>
    requires text != ""
  {
    var c := text[0];
    if !Counts(c) then []
    else [if c == '~' then Tilde else if c == '^' then Caret
          else if IsDigit(c) then Number(TrimZeros(text)) else Letters(text)]
  }

  lemma {:induction false} CompareAppended(x: seq<Segment>, y: seq<Segment>, z: seq<Segment>)
    ensures Compare(x + y, x + z) == Compare(y, z)
    decreases |x|
  {
    if x == [] {
      assert x + y == y && x + z == z;
    } else {
      assert (x + y)[0] == (x + z)[0] && (x + y)[1..] == x[1..] + y && (x + z)[1..] == x[1..] + z;
      CompareHeadOrder(x + y, x + z, []);
      CompareAppended(x[1..], y, z);
    }
  }

  /** A pre-release comes before the release, and a snapshot after it; what follows the mark does not matter. */
  lemma MarksOrder(s: string, t: string)
    ensures Compare(Segments(s + (['~'] + t), 0), Segments(s, 0)) < 0
    ensures Compare(Segments(s + (['^'] + t), 0), Segments(s, 0)) > 0
  {
    var x := Segments(s, 0);
    var pre, post := Segments(['~'] + t, 0), Segments(['^'] + t, 0);
    SegmentsSplit(s, ['~'] + t, 0);
    SegmentsSplit(s, ['^'] + t, 0);
    assert x + [] == x && pre[0] == Tilde && post[0] == Caret;
    CompareAppended(x, pre, []);
    CompareAppended(x, post, []);
  }

  /** And a snapshot comes before any version that goes on with more letters or digits. */
  lemma SnapshotBeforeNext(s: string, t: string, next: string)
    requires Breaks(s, next) && GoesOn(next)
    ensures Compare(Segments(s + (['^'] + t), 0), Segments(s + next, 0)) < 0
  {
    SegmentsSplit(s, ['^'] + t, 0);
    SegmentsSplit(s, next, 0);
    assert Segments(['^'] + t, 0)[0] == Caret;
    CompareAppended(Segments(s, 0), Segments(['^'] + t, 0), Segments(next, 0));
  }

  /** Behind separators there are letters or digits. */
  predicate GoesOn(t: string) {
    var x := Segments(t, 0);
    x != [] && (x[0].Letters? || x[0].Number?)
  }

  /** A version that goes on with letters or digits is newer than one that ends. */
  lemma LongerIsNewer(s: string, next: string)
    requires Breaks(s, next) && GoesOn(next)
    ensures Compare(Segments(s + next, 0), Segments(s, 0)) > 0
  {
    SegmentsSplit(s, next, 0);
    assert Segments(s, 0) + [] == Segments(s, 0);
    CompareAppended(Segments(s, 0), Segments(next, 0), []);
  }

  /** A run of letters, or of digits. */
  predicate IsRun(m: string, digits: bool) {
    m != "" && forall i :: 0 <= i < |m| ==> InRun(m[i], digits)
  }

  lemma {:induction false} WholeRun(m: string, i: nat, digits: bool)
    requires IsRun(m, digits) && i <= |m|
    ensures RunEnd(m, i, digits) == |m|
    decreases |m| - i
  {
    if i < |m| { WholeRun(m, i + 1, digits); }
  }

  lemma RunSegment(m: string, digits: bool)
    requires IsRun(m, digits)
    ensures Segments(m, 0) == [if digits then Number(TrimZeros(m)) else Letters(m)]
  {
    WholeRun(m, 1, digits);
    assert m[0..|m|] == m;
  }

  /** Behind a common beginning two runs decide, whatever follows them. */
  lemma RunsDecide(p: string, m: string, dm: bool, q: string, n: string, dn: bool, r: string)
    requires IsRun(m, dm) && IsRun(n, dn)
    requires Breaks(p, m) && Breaks(m, q) && Breaks(p, n) && Breaks(n, r)
    ensures var c := CompareHead(Segments(m, 0), Segments(n, 0));
      c != 0 ==> Compare(Segments(p + (m + q), 0), Segments(p + (n + r), 0)) == c
  {
    BehindRun(p, m, dm, q);
    BehindRun(p, n, dn, r);
    CompareAppended(Segments(p, 0), Segments(m, 0) + Segments(q, 0), Segments(n, 0) + Segments(r, 0));
    RunSegment(m, dm);
    RunSegment(n, dn);
  }

  lemma BehindRun(p: string, m: string, digits: bool, q: string)
    requires IsRun(m, digits) && Breaks(p, m) && Breaks(m, q)
    ensures Segments(p + (m + q), 0) == Segments(p, 0) + (Segments(m, 0) + Segments(q, 0))
  {
    assert (m + q)[0] == m[0];
    SegmentsSplit(p, m + q, 0);
    SegmentsSplit(m, q, 0);
  }

  lemma {:induction false} TrimZerosMeans(m: string)
    requires Digits(m)
    ensures var t := TrimZeros(m); Digits(t) && Value(t) == Value(m) && (t != "" ==> t[0] != '0')
  {
    if m != "" && m[0] == '0' {
      TrimZerosMeans(m[1..]);
      ZeroInFront(m[1..]);
      assert m == ['0'] + m[1..];
    }
  }

  lemma NumberOrder(m: string, n: string)
    requires Digits(m) && Digits(n)
    ensures CompareNumber(TrimZeros(m), TrimZeros(n)) == Sign(Value(m) - Value(n))
  {
    TrimZerosMeans(m);
    TrimZerosMeans(n);
    TrimmedOrder(TrimZeros(m), TrimZeros(n));
  }

  lemma TrimmedOrder(a: string, b: string)
    requires Digits(a) && Digits(b) && (a != "" ==> a[0] != '0') && (b != "" ==> b[0] != '0')
    ensures CompareNumber(a, b) == Sign(Value(a) - Value(b))
  {
    LessTrichotomy(a, b);
    if |a| > |b| { LongerIsLarger(a, b); }
    if |b| > |a| { LongerIsLarger(b, a); }
    if |a| == |b| && Less(a, b) { SameLengthOrder(a, b); }
    if |a| == |b| && Less(b, a) { SameLengthOrder(b, a); }
  }

  lemma RunDigits(m: string)
    requires IsRun(m, true)
    ensures Digits(m)
  {
    forall i | 0 <= i < |m| ensures IsDigit(m[i]) { assert InRun(m[i], true); }
  }

  /** Behind a common beginning the larger number is the newer version, whatever follows. */
  lemma NumbersDecide(p: string, m: string, q: string, n: string, r: string)
    requires IsRun(m, true) && IsRun(n, true) && Value(m) != Value(n)
    requires Breaks(p, m) && Breaks(m, q) && Breaks(p, n) && Breaks(n, r)
    ensures Compare(Segments(p + (m + q), 0), Segments(p + (n + r), 0)) == Sign(Value(m) - Value(n))
  {
    RunDigits(m);
    RunDigits(n);
    RunsDecide(p, m, true, q, n, true, r);
    RunSegment(m, true);
    RunSegment(n, true);
    NumberOrder(m, n);
  }

  /** Letters compare as texts, and come before a number. */
  lemma LettersDecide(p: string, m: string, q: string, n: string, digits: bool, r: string)
    requires IsRun(m, false) && IsRun(n, digits) && (digits || m != n)
    requires Breaks(p, m) && Breaks(m, q) && Breaks(p, n) && Breaks(n, r)
    ensures Compare(Segments(p + (m + q), 0), Segments(p + (n + r), 0)) == if digits || Less(m, n) then -1 else 1
  {
    RunsDecide(p, m, false, q, n, digits, r);
    RunSegment(m, false);
    RunSegment(n, digits);
    LessTrichotomy(m, n);
  }

  // ---- whole versions ----------------------------------------------------------------------------

  datatype Evr = Evr(epoch: int, version: string, release: string)

  method CompareRPM(a: Evr, b: Evr) returns (r: int)
    ensures r == CompareEvr(a, b)
  {
    if a.epoch != b.epoch {
      return if a.epoch < b.epoch then -1 else 1;
    }
    r := RpmVerCmp(a.version, b.version);
    if r == 0 {
      r := RpmVerCmp(a.release, b.release);
    }
  }

  function CompareEvr(a: Evr, b: Evr): int {
    if a.epoch != b.epoch then Sign(a.epoch - b.epoch)
    else
      var c := Compare(Segments(a.version, 0), Segments(b.version, 0));
      if c != 0 then c else Compare(Segments(a.release, 0), Segments(b.release, 0))
  }

  function NotNewer(): (Evr, Evr) -> bool {
    (a: Evr, b: Evr) => CompareEvr(a, b) <= 0
  }

  /** Versions are ordered: swapping them negates the comparison, it is transitive, and two are equal exactly when
      they have one epoch and the same segments. */
  lemma VersionsAreOrdered()
    ensures forall a, b :: CompareEvr(a, b) == -CompareEvr(b, a)
    ensures TotalPreorder(NotNewer())
    ensures forall a, b :: CompareEvr(a, b) == 0 <==>
      a.epoch == b.epoch && Segments(a.version, 0) == Segments(b.version, 0) &&
      Segments(a.release, 0) == Segments(b.release, 0)
  {
    forall a, b
      ensures CompareEvr(a, b) == -CompareEvr(b, a)
      ensures CompareEvr(a, b) == 0 <==>
        a.epoch == b.epoch && Segments(a.version, 0) == Segments(b.version, 0) &&
        Segments(a.release, 0) == Segments(b.release, 0)
    {
      CompareOrder(Segments(a.version, 0), Segments(b.version, 0));
      CompareOrder(Segments(a.release, 0), Segments(b.release, 0));
    }
    forall a, b, c | NotNewer()(a, b) && NotNewer()(b, c) ensures NotNewer()(a, c) { NotNewerTransitive(a, b, c); }
  }

  lemma NotNewerTransitive(a: Evr, b: Evr, c: Evr)
    requires CompareEvr(a, b) <= 0 && CompareEvr(b, c) <= 0
    ensures CompareEvr(a, c) <= 0
  {
    var x, y, z := Segments(a.version, 0), Segments(b.version, 0), Segments(c.version, 0);
    if a.epoch == b.epoch == c.epoch {
      CompareOrder(x, y);
      CompareOrder(y, z);
      CompareOrder(x, z);
      CompareTransitive(x, y, z);
      if x == y == z {
        CompareTransitive(Segments(a.release, 0), Segments(b.release, 0), Segments(c.release, 0));
      }
    }
  }

  /** The epoch decides before all else, the version before the release, and the release between equal versions. */
  lemma EvrDecides(a: Evr, b: Evr)
    ensures a.epoch < b.epoch ==> CompareEvr(a, b) < 0
    ensures a.epoch == b.epoch && Compare(Segments(a.version, 0), Segments(b.version, 0)) < 0 ==> CompareEvr(a, b) < 0
    ensures a.epoch == b.epoch && Segments(a.version, 0) == Segments(b.version, 0) ==>
      CompareEvr(a, b) == Compare(Segments(a.release, 0), Segments(b.release, 0))
  {
    CompareOrder(Segments(a.version, 0), Segments(b.version, 0));
  }

  /** So a larger number in the version is newer, whatever the releases are. */
  lemma NewerVersion(a: Evr, b: Evr, p: string, m: string, q: string, n: string, r: string)
    requires a.epoch == b.epoch && a.version == p + (m + q) && b.version == p + (n + r)
    requires IsRun(m, true) && IsRun(n, true) && Value(m) < Value(n)
    requires Breaks(p, m) && Breaks(m, q) && Breaks(p, n) && Breaks(n, r)
    ensures CompareEvr(a, b) < 0 < CompareEvr(b, a)
  {
    NumbersDecide(p, m, q, n, r);
    NumbersDecide(p, n, r, m, q);
  }
}
