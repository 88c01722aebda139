/** How digit texts compare with the numbers they denote. */
module Numbers {
  import opened Text

  predicate Digits(s: string) {
    forall i :: 0 <= i < |s| ==> IsDigit(s[i])
  }

  lemma {:induction false} ValuePositive(s: string)
    requires Digits(s)
    ensures Value(s) >= 0 && (s != "" && s[0] != '0' ==> Value(s) > 0)
  {
    if s != "" { ValuePositive(s[..|s| - 1]); }
  }

  /** A longer number without leading zeros is larger. */
  lemma {:induction false} LongerIsLarger(a: string, b: string)
    requires Digits(a) && Digits(b) && |a| > |b| && a[0] != '0'
    ensures Value(a) > Value(b)
  {
    if b == "" { ValuePositive(a); } else { LongerIsLarger(a[..|a| - 1], b[..|b| - 1]); }
  }

  lemma {:induction false} LessSnoc(a: string, b: string, x: char, y: char)
    requires |a| == |b|
    ensures Less(a + [x], b + [y]) <==> Less(a, b) || (a == b && Unit(x) < Unit(y))
  {
    if a == "" {
      assert a + [x] == [x] && b + [y] == [y] && [x][1..] == "" == [y][1..];
    } else {
      assert (a + [x])[1..] == a[1..] + [x] && (b + [y])[1..] == b[1..] + [y];
      LessSnoc(a[1..], b[1..], x, y);
      assert a == [a[0]] + a[1..] && b == [b[0]] + b[1..];
    }
  }

  /** Of two texts of one length the one that sorts first is the smaller number. */
  lemma {:induction false} SameLengthOrder(a: string, b: string)
    requires Digits(a) && Digits(b) && |a| == |b| && Less(a, b)
    ensures Value(a) < Value(b)
  {
    var p, q, x, y := a[..|a| - 1], b[..|b| - 1], a[|a| - 1], b[|b| - 1];
    assert a == p + [x] && b == q + [y];
    LessSnoc(p, q, x, y);
    if Less(p, q) { SameLengthOrder(p, q); }
  }

  lemma {:induction false} ZeroInFront(s: string)
    ensures Value(['0'] + s) == Value(s)
  {
    var w := ['0'] + s;
    if s == "" {
      assert w[..0] == "";
    } else {
      assert w[..|w| - 1] == ['0'] + s[..|s| - 1];
      ZeroInFront(s[..|s| - 1]);
    }
  }
}
