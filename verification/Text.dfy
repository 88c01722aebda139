/** Text shared by the components: decimal rendering, the string order, trim, and UTF-16.
    A string is a sequence of code units: one char per byte for the Go packages, one char per UTF-16
    unit for the TypeScript modules. A Dafny char is never a surrogate, so the half with unit value u
    is written as the char u + 0x100000, which is not the value of any other unit. */
module Text {

  predicate IsDigit(c: char) {
    '0' <= c <= '9'
  }

  function Digit(n: nat): (c: char)
    requires n < 10
    ensures IsDigit(c)
  {
    ('0' as int + n) as char
  }

  /** strconv.Itoa for a length. */
  function Decimal(n: nat): (s: string)
    ensures s != "" && forall i :: 0 <= i < |s| ==> IsDigit(s[i])
  {
    if n < 10 then [Digit(n)] else Decimal(n / 10) + [Digit(n % 10)]
  }

  /** strconv.FormatInt in base ten. */
  function FormatInt(i: int): string {
    if i < 0 then "-" + Decimal(-i) else Decimal(i)
  }

  /** The number a decimal text denotes: the inverse of Decimal. */
  function Value(s: string): int {
    if s == "" then 0 else Value(s[..|s| - 1]) * 10 + (s[|s| - 1] as int - '0' as int)
  }

  lemma {:induction false} DecimalRoundTrip(n: nat)
    ensures Value(Decimal(n)) == n
  {
    if n < 10 {
      assert [Digit(n)][..0] == "";
    } else {
      DecimalRoundTrip(n / 10);
      var s := Decimal(n);
      assert s[..|s| - 1] == Decimal(n / 10);
    }
  }

  lemma FormatIntInjective(i: int, j: int)
    requires FormatInt(i) == FormatInt(j)
    ensures i == j
  {
    var s, t := FormatInt(i), FormatInt(j);
    assert s[0] == t[0];
    if i < 0 {
      assert s[1..] == Decimal(-i) && t[1..] == Decimal(-j);
      DecimalRoundTrip(-i);
      DecimalRoundTrip(-j);
    } else {
      DecimalRoundTrip(i);
      DecimalRoundTrip(j);
    }
  }

  /** toLowerCase, for ASCII. */
  function Lower(s: string): string {
    seq(|s|, i requires 0 <= i < |s| => if 'A' <= s[i] <= 'Z' then (s[i] as int + 32) as char else s[i])
  }

  /** The value of a UTF-16 unit. */
  function Unit(c: char): int {
    if IsHigh(c) || IsLow(c) then c as int - 0x10_0000 else c as int
  }

  lemma UnitInjective(c: char, d: char)
    ensures Unit(c) == Unit(d) ==> c == d
  {
  }

  /** The string order of JavaScript's `<`: code unit by code unit, a proper prefix first. */
  predicate Less(a: string, b: string)
    decreases |a|
  {
    b != "" && (a == "" || Unit(a[0]) < Unit(b[0]) || (a[0] == b[0] && Less(a[1..], b[1..])))
  }

  lemma {:induction false} LessTransitive(a: string, b: string, c: string)
    requires Less(a, b) && Less(b, c)
    ensures Less(a, c)
    decreases |a|
  {
    if a != "" && a[0] == b[0] == c[0] {
      LessTransitive(a[1..], b[1..], c[1..]);
    }
  }

  lemma {:induction false} LessTrichotomy(a: string, b: string)
    ensures a == b || Less(a, b) || Less(b, a)
    ensures !(Less(a, b) && Less(b, a))
    ensures a == b ==> !Less(a, b)
    decreases |a|
  {
    if a != "" && b != "" {
      UnitInjective(a[0], b[0]);
      if a[0] == b[0] {
        LessTrichotomy(a[1..], b[1..]);
        assert a == [a[0]] + a[1..] && b == [b[0]] + b[1..];
      }
    }
  }

  // ---- trim --------------------------------------------------------------------------

  /** What String.prototype.trim strips: white space and line terminators. */
  predicate IsSpace(c: char) {
    c == ' ' || '\U{9}' <= c <= '\U{d}' || c == '\U{a0}' || c == '\U{1680}' || '\U{2000}' <= c <= '\U{200a}' ||
    c == '\U{2028}' || c == '\U{2029}' || c == '\U{202f}' || c == '\U{205f}' || c == '\U{3000}' || c == '\U{feff}'
  }

  function TrimStart(s: string): (r: string)
    ensures |r| <= |s|
  {
    if s != "" && IsSpace(s[0]) then TrimStart(s[1..]) else s
  }

  function TrimEnd(s: string): (r: string)
    ensures |r| <= |s|
  {
    if s != "" && IsSpace(s[|s| - 1]) then TrimEnd(s[..|s| - 1]) else s
  }

  function Trim(s: string): (r: string)
    ensures |r| <= |s|
  {
    TrimEnd(TrimStart(s))
  }

  lemma {:induction false} TrimEndKeepsStart(s: string)
    ensures TrimEnd(s) <= s
    ensures TrimEnd(TrimEnd(s)) == TrimEnd(s)
    ensures (s == "" || !IsSpace(s[0])) ==> TrimStart(TrimEnd(s)) == TrimEnd(s)
  {
    if s != "" && IsSpace(s[|s| - 1]) { TrimEndKeepsStart(s[..|s| - 1]); }
  }

  lemma {:induction false} TrimStartStops(s: string)
    ensures TrimStart(s) == "" || !IsSpace(TrimStart(s)[0])
  {
    if s != "" && IsSpace(s[0]) { TrimStartStops(s[1..]); }
  }

  lemma TrimIdempotent(s: string)
    ensures Trim(Trim(s)) == Trim(s)
  {
    TrimStartStops(s);
    TrimEndKeepsStart(TrimStart(s));
  }

  // ---- UTF-16 ------------------------------------------------------------------------

  /** The first and the second half of a character outside the basic plane. */
  predicate IsHigh(c: char) {
    '\U{10d800}' <= c <= '\U{10dbff}'
  }

  predicate IsLow(c: char) {
    '\U{10dc00}' <= c <= '\U{10dfff}'
  }

  const REPLACEMENT: char := '\U{fffd}'

  /** What URLSearchParams makes of a value, as toWellFormed does: a half without its other half becomes
      the replacement character. */
  function ToWellFormed(s: string): (r: string)
    ensures |r| == |s|
  {
    if s == "" then ""
    else if IsHigh(s[0]) && |s| > 1 && IsLow(s[1]) then s[..2] + ToWellFormed(s[2..])
    else [if IsHigh(s[0]) || IsLow(s[0]) then REPLACEMENT else s[0]] + ToWellFormed(s[1..])
  }

  /** Unit i is a half that has lost its other half. */
  predicate LoneHalf(s: string, i: nat)
    requires i < |s|
  {
    (IsHigh(s[i]) && !(i + 1 < |s| && IsLow(s[i + 1]))) || (IsLow(s[i]) && !(i > 0 && IsHigh(s[i - 1])))
  }

  predicate IsWellFormed(s: string) {
    forall i :: 0 <= i < |s| ==> !LoneHalf(s, i)
  }

  /** Exactly the lone halves are replaced. */
  lemma {:induction false} ToWellFormedAt(s: string, i: nat)
    requires i < |s|
    ensures ToWellFormed(s)[i] == if LoneHalf(s, i) then REPLACEMENT else s[i]
    decreases |s|
  {
    if IsHigh(s[0]) && |s| > 1 && IsLow(s[1]) {
      if i >= 2 {
        ToWellFormedAt(s[2..], i - 2);
        assert LoneHalf(s[2..], i - 2) == LoneHalf(s, i);
      }
    } else if i > 0 {
      ToWellFormedAt(s[1..], i - 1);
      assert LoneHalf(s[1..], i - 1) == LoneHalf(s, i);
    }
  }

  /** A text goes through a URL unchanged exactly when it is well formed, and what comes out always is. */
  lemma WellFormedMeans(s: string)
    ensures ToWellFormed(s) == s <==> IsWellFormed(s)
    ensures IsWellFormed(ToWellFormed(s))
  {
    var r := ToWellFormed(s);
    forall i | 0 <= i < |s| ensures r[i] == (if LoneHalf(s, i) then REPLACEMENT else s[i]) {
      ToWellFormedAt(s, i);
    }
    forall i | 0 <= i < |s| ensures !LoneHalf(r, i) {
      if i > 0 { ToWellFormedAt(s, i - 1); }
      if i + 1 < |s| { ToWellFormedAt(s, i + 1); }
    }
  }

  /** Trimming takes whole characters away. */
  lemma TrimKeepsWellFormed(s: string)
    requires IsWellFormed(s)
    ensures IsWellFormed(Trim(s))
  {
    TrimStartWellFormed(s);
    TrimEndWellFormed(TrimStart(s));
  }

  lemma {:induction false} TrimStartWellFormed(s: string)
    requires IsWellFormed(s)
    ensures IsWellFormed(TrimStart(s))
  {
    if s != "" && IsSpace(s[0]) {
      var t := s[1..];
      forall i | 0 <= i < |t| ensures !LoneHalf(t, i) { assert !LoneHalf(s, i + 1); }
      TrimStartWellFormed(t);
    }
  }

  lemma {:induction false} TrimEndWellFormed(s: string)
    requires IsWellFormed(s)
    ensures IsWellFormed(TrimEnd(s))
  {
    if s != "" && IsSpace(s[|s| - 1]) {
      var t := s[..|s| - 1];
      forall i | 0 <= i < |t| ensures !LoneHalf(t, i) { assert !LoneHalf(s, i); }
      TrimEndWellFormed(t);
    }
  }

  /** A well-formed text cut after n units is well formed exactly when the cut does not fall between the
      two halves of a character. */
  lemma CutWellFormed(s: string, n: nat)
    requires IsWellFormed(s) && n <= |s|
    ensures IsWellFormed(s[..n]) <==> !(0 < n && IsHigh(s[n - 1]))
  {
    forall i | 0 <= i < n ensures LoneHalf(s[..n], i) <==> i == n - 1 && IsHigh(s[i]) {
      assert !LoneHalf(s, i);
    }
    if 0 < n && IsHigh(s[n - 1]) { assert LoneHalf(s[..n], n - 1); }
  }

  /** Text without halves, such as ASCII, is well formed. */
  predicate Basic(s: string) {
    forall i :: 0 <= i < |s| ==> !IsHigh(s[i]) && !IsLow(s[i])
  }

  lemma BasicUnchanged(s: string)
    requires Basic(s)
    ensures ToWellFormed(s) == s
  {
    WellFormedMeans(s);
  }
}
