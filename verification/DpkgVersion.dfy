/** Debian version comparison: internal/vuln/dpkg.go. */
module DpkgVersion {
  import opened Sorting
  import opened Numbers
  import opened Text

  predicate IsLetter(c: char) {
    'a' <= c <= 'z' || 'A' <= c <= 'Z'
  }

  function Sign(n: int): int {
    if n < 0 then -1 else if n > 0 then 1 else 0
  }

  const NUL := 0 as char

  /** dpkgOrder */
  function Order(c: char): int {
    if IsDigit(c) then 0
    else if IsLetter(c) then c as int
    else if c == '~' then -1
    else if c == NUL then 0
    else c as int + 256
  }

  /** A read past the end of a string gives NUL. */
  function ByteAt(s: string, i: nat): char {
    if i < |s| then s[i] else NUL
  }

  /** On a NUL inside a version the loop would not move on. */
  predicate Terminated(s: string) {
    NUL !in s
  }

  // ---- reference: a version is a list of parts, text and number in turn ----------------------------

  /** The order values of a text, and the digits of the number after it without leading zeros. A version goes on
      with empty parts for ever. */
  datatype Part = Part(text: seq<int>, digits: string)

  const EMPTY := Part([], "")

  /** The order values of the characters from position i on, up to a digit. */
  function TextFrom(s: string, i: nat): seq<int>
    requires i <= |s|
    decreases |s| - i
  {
    if i < |s| && !IsDigit(s[i]) then [Order(s[i])] + TextFrom(s, i + 1) else []
  }

  function TextEnd(s: string, i: nat): (e: nat)
    requires i <= |s|
    ensures i <= e <= |s| && (e < |s| ==> IsDigit(s[e]))
    decreases |s| - i
  {
    if i < |s| && !IsDigit(s[i]) then TextEnd(s, i + 1) else i
  }

  function ZerosEnd(s: string, i: nat): (e: nat)
    requires i <= |s|
    ensures i <= e <= |s|
    decreases |s| - i
  {
    if i < |s| && s[i] == '0' then ZerosEnd(s, i + 1) else i
  }

  function DigitsFrom(s: string, i: nat): string
    requires i <= |s|
    decreases |s| - i
  {
    if i < |s| && IsDigit(s[i]) then [s[i]] + DigitsFrom(s, i + 1) else ""
  }

  function DigitsEnd(s: string, i: nat): (e: nat)
    requires i <= |s|
    ensures i <= e <= |s|
    ensures i < |s| && IsDigit(s[i]) ==> i < e
    decreases |s| - i
  {
    if i < |s| && IsDigit(s[i]) then DigitsEnd(s, i + 1) else i
  }

  function PartEnd(s: string, i: nat): (e: nat)
    requires i < |s|
    ensures i < e <= |s|
  {
    var z := ZerosEnd(s, TextEnd(s, i));
    DigitsEnd(s, z)
  }

  function PartAt(s: string, i: nat): Part
    requires i <= |s|
  {
    Part(TextFrom(s, i), DigitsFrom(s, ZerosEnd(s, TextEnd(s, i))))
  }

  function Parts(s: string, i: nat): seq<Part>
    requires i <= |s|
    decreases |s| - i
  {
    if i == |s| then [] else [PartAt(s, i)] + Parts(s, PartEnd(s, i))
  }

  /** Part k of a version. */
  function Nth(x: seq<Part>, k: nat): Part {
    if k < |x| then x[k] else EMPTY
  }

  /** The first value that differs decides; the end of a text counts as 0, above a tilde and below all else. */
  function CompareTexts(a: seq<int>, b: seq<int>): int
    decreases |a| + |b|
  {
    if a == [] && b == [] then 0
    else
      var x, y := if a == [] then 0 else a[0], if b == [] then 0 else b[0];
      if x != y then Sign(x - y) else CompareTexts(if a == [] then [] else a[1..], if b == [] then [] else b[1..])
  }

  /** The first digit that differs. */
  function FirstDifference(a: string, b: string): int {
    if a == "" || b == "" then 0
    else if a[0] != b[0] then Sign(a[0] as int - b[0] as int)
    else FirstDifference(a[1..], b[1..])
  }

  /** Of two numbers the one with more digits is larger. */
  function CompareDigits(a: string, b: string): int {
    if |a| != |b| then Sign(|a| - |b|) else FirstDifference(a, b)
  }

  function ComparePart(p: Part, q: Part): int {
    var c := CompareTexts(p.text, q.text);
    if c != 0 then c else CompareDigits(p.digits, q.digits)
  }

  function Rest(x: seq<Part>): seq<Part> {
    if x == [] then [] else x[1..]
  }

  function Compare(x: seq<Part>, y: seq<Part>): int
    decreases |x| + |y|
  {
    if x == [] && y == [] then 0
    else
      var c := ComparePart(Nth(x, 0), Nth(y, 0));
      if c != 0 then c else Compare(Rest(x), Rest(y))
  }

  // ---- the reference is an order ---------------------------------------------------------------

  /** No value of a text is 0: that is kept for its end. */
  predicate Proper(a: seq<int>) {
    forall i :: 0 <= i < |a| ==> a[i] != 0
  }

  ghost predicate ProperParts(x: seq<Part>) {
    forall i :: 0 <= i < |x| ==> Proper(x[i].text)
  }

  lemma {:induction false} TextsOrder(a: seq<int>, b: seq<int>)
    requires Proper(a) && Proper(b)
    ensures CompareTexts(a, b) == -CompareTexts(b, a) && (CompareTexts(a, b) == 0 <==> a == b)
    decreases |a| + |b|
  {
    if a != [] && b != [] {
      TextsOrder(a[1..], b[1..]);
      assert a == [a[0]] + a[1..] && b == [b[0]] + b[1..];
    }
  }

  lemma {:induction false} TextsTransitive(a: seq<int>, b: seq<int>, c: seq<int>)
    requires Proper(a) && Proper(b) && Proper(c) && CompareTexts(a, b) <= 0 && CompareTexts(b, c) <= 0
    ensures CompareTexts(a, c) <= 0
    decreases |a| + |b| + |c|
  {
    if a != [] && b != [] && c != [] && a[0] == b[0] == c[0] { TextsTransitive(a[1..], b[1..], c[1..]); }
  }

  lemma {:induction false} DifferenceOrder(a: string, b: string, c: string)
    requires |a| == |b| == |c|
    ensures FirstDifference(a, b) == -FirstDifference(b, a) && (FirstDifference(a, b) == 0 <==> a == b)
    ensures FirstDifference(a, b) <= 0 && FirstDifference(b, c) <= 0 ==> FirstDifference(a, c) <= 0
  {
    if a != "" {
      DifferenceOrder(a[1..], b[1..], c[1..]);
      assert a == [a[0]] + a[1..] && b == [b[0]] + b[1..];
    }
  }

  lemma PartOrder(p: Part, q: Part)
    requires Proper(p.text) && Proper(q.text)
    ensures ComparePart(p, q) == -ComparePart(q, p) && (ComparePart(p, q) == 0 <==> p == q)
  {
    TextsOrder(p.text, q.text);
    if |p.digits| == |q.digits| { DifferenceOrder(p.digits, q.digits, q.digits); }
  }

  lemma PartTransitive(p: Part, q: Part, r: Part)
    requires Proper(p.text) && Proper(q.text) && Proper(r.text) && ComparePart(p, q) <= 0 && ComparePart(q, r) <= 0
    ensures ComparePart(p, r) <= 0
  {
    TextsOrder(p.text, q.text);
    TextsOrder(q.text, r.text);
    TextsOrder(p.text, r.text);
    TextsTransitive(p.text, q.text, r.text);
    if |p.digits| == |q.digits| == |r.digits| { DifferenceOrder(p.digits, q.digits, r.digits); }
  }

  lemma RestProper(x: seq<Part>)
    requires ProperParts(x)
    ensures ProperParts(Rest(x)) && Proper(Nth(x, 0).text) && forall k: nat :: Nth(Rest(x), k) == Nth(x, k + 1)
  {
  }

  /** Two versions compare equal exactly when they have the same parts, those missing counted as empty. */
  ghost predicate SameParts(x: seq<Part>, y: seq<Part>) {
    forall k: nat :: Nth(x, k) == Nth(y, k)
  }

  lemma {:induction false} CompareOrder(x: seq<Part>, y: seq<Part>)
    requires ProperParts(x) && ProperParts(y)
    ensures Compare(x, y) == -Compare(y, x) && (Compare(x, y) == 0 <==> SameParts(x, y))
    decreases |x| + |y|
  {
    if x != [] || y != [] {
      RestProper(x);
      RestProper(y);
      PartOrder(Nth(x, 0), Nth(y, 0));
      CompareOrder(Rest(x), Rest(y));
      SameRest(x, y);
    }
  }

  lemma SameRest(x: seq<Part>, y: seq<Part>)
    ensures SameParts(x, y) <==> Nth(x, 0) == Nth(y, 0) && SameParts(Rest(x), Rest(y))
  {
    if SameParts(x, y) {
      forall k: nat ensures Nth(Rest(x), k) == Nth(Rest(y), k) { assert Nth(x, k + 1) == Nth(y, k + 1); }
    }
    if Nth(x, 0) == Nth(y, 0) && SameParts(Rest(x), Rest(y)) {
      forall k: nat ensures Nth(x, k) == Nth(y, k) {
        if k > 0 { assert Nth(Rest(x), k - 1) == Nth(Rest(y), k - 1); }
      }
    }
  }

  lemma {:induction false} CompareTransitive(x: seq<Part>, y: seq<Part>, z: seq<Part>)
    requires ProperParts(x) && ProperParts(y) && ProperParts(z) && Compare(x, y) <= 0 && Compare(y, z) <= 0
    ensures Compare(x, z) <= 0
    decreases |x| + |y| + |z|
  {
    if x != [] || y != [] || z != [] {
      RestProper(x);
      RestProper(y);
      RestProper(z);
      var p, q, r := Nth(x, 0), Nth(y, 0), Nth(z, 0);
      PartOrder(p, q);
      PartOrder(q, r);
      PartOrder(p, r);
      EmptyCompares(x, y);
      EmptyCompares(y, z);
      PartTransitive(p, q, r);
      if p == q == r {
        EmptyCompares(x, z);
        CompareTransitive(Rest(x), Rest(y), Rest(z));
      }
    }
  }

  /** One step of the comparison, also where both versions have ended. */
  lemma EmptyCompares(x: seq<Part>, y: seq<Part>)
    ensures var c := ComparePart(Nth(x, 0), Nth(y, 0));
      Compare(x, y) == if c != 0 then c else Compare(Rest(x), Rest(y))
  {
  }

  // ---- the comparison as the program does it -------------------------------------------------------

  lemma {:induction false} TextProper(s: string, i: nat)
    requires Terminated(s) && i <= |s|
    ensures Proper(TextFrom(s, i))
    decreases |s| - i
  {
    if i < |s| && !IsDigit(s[i]) {
      TextProper(s, i + 1);
      assert s[i] in s;
    }
  }

  lemma {:induction false} PartsProper(s: string, i: nat)
    requires Terminated(s) && i <= |s|
    ensures ProperParts(Parts(s, i))
    decreases |s| - i
  {
    if i < |s| {
      TextProper(s, i);
      PartsProper(s, PartEnd(s, i));
    }
  }

  predicate IsText(c: char) {
    c != NUL && !IsDigit(c)
  }

  /** Outside digits and NUL the order value tells characters apart, and is not that of an end. */
  lemma OrderTells(c: char, d: char)
    requires IsText(c) || IsText(d)
    ensures Order(c) == Order(d) ==> c == d
  {
  }

  /** The texts at these positions; 0 if they are the same, and then both go on behind them. */
  method CompareText(a: string, b: string, from: nat, start: nat) returns (c: int, i: nat, j: nat)
    requires Terminated(a) && Terminated(b) && from <= |a| && start <= |b|
    ensures Sign(c) == CompareTexts(TextFrom(a, from), TextFrom(b, start))
    ensures c == 0 ==> i == TextEnd(a, from) && j == TextEnd(b, start)
  {
    i, j := from, start;
    while IsText(ByteAt(a, i)) || IsText(ByteAt(b, j))
      invariant from <= i <= |a| && start <= j <= |b|
      invariant TextEnd(a, i) == TextEnd(a, from) && TextEnd(b, j) == TextEnd(b, start)
      invariant CompareTexts(TextFrom(a, i), TextFrom(b, j)) == CompareTexts(TextFrom(a, from), TextFrom(b, start))
      decreases |a| - i
    {
      var ac, bc := Order(ByteAt(a, i)), Order(ByteAt(b, j));
      OrderTells(ByteAt(a, i), ByteAt(b, j));
      assert i < |a| ==> a[i] in a;
      assert j < |b| ==> b[j] in b;
      if ac != bc {
        return ac - bc, i, j;
      }
      assert TextFrom(a, i)[1..] == TextFrom(a, i + 1) && TextFrom(b, j)[1..] == TextFrom(b, j + 1);
      i, j := i + 1, j + 1;
    }
    assert i < |a| ==> a[i] in a;
    assert j < |b| ==> b[j] in b;
    c := 0;
  }

  method SkipZeros(s: string, from: nat) returns (i: nat)
    requires from <= |s|
    ensures i == ZerosEnd(s, from)
  {
    i := from;
    while ByteAt(s, i) == '0'
      invariant from <= i <= |s| && ZerosEnd(s, i) == ZerosEnd(s, from)
      decreases |s| - i
    {
      i := i + 1;
    }
  }

  lemma {:induction false} DifferenceSnoc(p: string, q: string, x: char, y: char)
    requires |p| == |q|
    ensures FirstDifference(p + [x], q + [y]) ==
      if FirstDifference(p, q) != 0 then FirstDifference(p, q) else Sign(x as int - y as int)
  {
    if p == "" {
      assert p + [x] == [x] && q + [y] == [y] && [x][1..] == [] && [y][1..] == [];
    } else {
      assert (p + [x])[1..] == p[1..] + [x] && (q + [y])[1..] == q[1..] + [y];
      DifferenceSnoc(p[1..], q[1..], x, y);
    }
  }

  /** n digits from position `from` on are read. */
  ghost predicate DigitsRead(s: string, from: nat, n: nat) {
    from + n <= |s| && n <= |DigitsFrom(s, from)| && DigitsFrom(s, from + n) == DigitsFrom(s, from)[n..] &&
    DigitsEnd(s, from + n) == DigitsEnd(s, from)
  }

  lemma NextDigit(s: string, from: nat, n: nat)
    requires from <= |s| && DigitsRead(s, from, n) && IsDigit(ByteAt(s, from + n))
    ensures DigitsRead(s, from, n + 1)
    ensures DigitsFrom(s, from)[..n + 1] == DigitsFrom(s, from)[..n] + [s[from + n]]
  {
    var digits := DigitsFrom(s, from);
    assert digits[n..][0] == s[from + n] && digits[n..][1..] == digits[n + 1..];
    assert DigitsFrom(s, from + n)[1..] == DigitsFrom(s, from + n + 1);
  }

  /** The digits at these positions. */
  method CompareRun(a: string, b: string, from: nat, start: nat) returns (c: int, i: nat, j: nat)
    requires from <= |a| && start <= |b|
    ensures Sign(c) == CompareDigits(DigitsFrom(a, from), DigitsFrom(b, start))
    ensures c == 0 ==> i == DigitsEnd(a, from) && j == DigitsEnd(b, start)
  {
    i, j := from, start;
    var firstDiff := 0;
    ghost var p, q, n := DigitsFrom(a, from), DigitsFrom(b, start), 0;
    while IsDigit(ByteAt(a, i)) && IsDigit(ByteAt(b, j))
      invariant i == from + n && j == start + n && 0 <= n
      invariant DigitsRead(a, from, n) && DigitsRead(b, start, n)
      invariant Sign(firstDiff) == FirstDifference(p[..n], q[..n])
      decreases |a| - i
    {
      NextDigit(a, from, n);
      NextDigit(b, start, n);
      DifferenceSnoc(p[..n], q[..n], a[i], b[j]);
      if firstDiff == 0 {
        firstDiff := ByteAt(a, i) as int - ByteAt(b, j) as int;
      }
      i, j, n := i + 1, j + 1, n + 1;
    }
    if IsDigit(ByteAt(a, i)) {
      return 1, i, j;
    }
    if IsDigit(ByteAt(b, j)) {
      return -1, i, j;
    }
    assert p[..n] == p && q[..n] == q;
    c := firstDiff;
  }

  lemma PartsStep(s: string, i: nat)
    requires i <= |s|
    ensures Nth(Parts(s, i), 0) == PartAt(s, i)
    ensures Rest(Parts(s, i)) == if i < |s| then Parts(s, PartEnd(s, i)) else []
    ensures i == |s| ==> DigitsEnd(s, ZerosEnd(s, TextEnd(s, i))) == i
  {
  }

  /** The program's comparison is that of the parts. */
  method DpkgVerRevCmp(a: string, b: string) returns (r: int)
    requires Terminated(a) && Terminated(b)
    ensures Sign(r) == Compare(Parts(a, 0), Parts(b, 0))
  {
    var i, j := 0, 0;
    while i < |a| || j < |b|
      invariant 0 <= i <= |a| && 0 <= j <= |b|
      invariant Compare(Parts(a, i), Parts(b, j)) == Compare(Parts(a, 0), Parts(b, 0))
      decreases |a| - i + |b| - j
    {
      PartsStep(a, i);
      PartsStep(b, j);
      EmptyCompares(Parts(a, i), Parts(b, j));
      var c, i', j' := CompareText(a, b, i, j);
      if c != 0 {
        return c;
      }
      i' := SkipZeros(a, i');
      j' := SkipZeros(b, j');
      c, i', j' := CompareRun(a, b, i', j');
      if c != 0 {
        return c;
      }
      assert Parts(a, i') == Rest(Parts(a, i)) && Parts(b, j') == Rest(Parts(b, j));
      i, j := i', j';
    }
    r := 0;
  }

  // ---- a tilde comes first -----------------------------------------------------------------------

  function WithTilde(s: string, t: string): string {
    s + ['~'] + t
  }

  lemma {:induction false} TextTilde(s: string, t: string, i: nat)
    requires i <= |s|
    ensures var w := WithTilde(s, t);
      if TextEnd(s, i) == |s| then CompareTexts(TextFrom(w, i), TextFrom(s, i)) < 0
      else TextFrom(w, i) == TextFrom(s, i) && TextEnd(w, i) == TextEnd(s, i)
    decreases |s| - i
  {
    var w := WithTilde(s, t);
    if i < |s| {
      assert w[i] == s[i];
      TextTilde(s, t, i + 1);
      if !IsDigit(s[i]) {
        assert TextFrom(w, i)[1..] == TextFrom(w, i + 1);
        assert TextFrom(s, i)[1..] == TextFrom(s, i + 1);
      }
    }
  }

  lemma {:induction false} NumberTilde(s: string, t: string, i: nat)
    requires i <= |s|
    ensures var w := WithTilde(s, t);
      ZerosEnd(w, i) == ZerosEnd(s, i) && DigitsFrom(w, i) == DigitsFrom(s, i) && DigitsEnd(w, i) == DigitsEnd(s, i)
    decreases |s| - i
  {
    if i < |s| {
      assert WithTilde(s, t)[i] == s[i];
      NumberTilde(s, t, i + 1);
    }
  }

  lemma {:induction false} TildeFrom(s: string, t: string, i: nat)
    requires Terminated(s) && i <= |s|
    ensures Compare(Parts(WithTilde(s, t), i), Parts(s, i)) < 0
    decreases |s| - i
  {
    var w := WithTilde(s, t);
    PartsStep(w, i);
    PartsStep(s, i);
    EmptyCompares(Parts(w, i), Parts(s, i));
    TextTilde(s, t, i);
    var e := TextEnd(s, i);
    if e < |s| {
      NumberTilde(s, t, e);
      NumberTilde(s, t, ZerosEnd(s, e));
      TextProper(s, i);
      PartOrder(PartAt(s, i), PartAt(s, i));
      TildeFrom(s, t, PartEnd(s, i));
    }
  }

  /** A tilde sorts before everything, the end included: whatever follows it, 1.0~rc1 comes before 1.0. */
  lemma TildeFirst(s: string, t: string)
    requires Terminated(s)
    ensures Compare(Parts(WithTilde(s, t), 0), Parts(s, 0)) < 0
  {
    TildeFrom(s, t, 0);
  }

  // ---- what decides between two versions -----------------------------------------------------------

  predicate StartsWithDigit(t: string) {
    t != "" && IsDigit(t[0])
  }

  predicate EndsInDigit(p: string) {
    p != "" && IsDigit(p[|p| - 1])
  }

  lemma {:induction false} TextSplit(p: string, t: string, i: nat)
    requires i <= |p|
    ensures if TextEnd(p, i) == |p| then TextFrom(p + t, i) == TextFrom(p, i) + TextFrom(p + t, |p|)
            else TextFrom(p + t, i) == TextFrom(p, i) && TextEnd(p + t, i) == TextEnd(p, i)
    ensures TextEnd(p, i) == |p| && (t == "" || IsDigit(t[0])) ==> TextEnd(p + t, i) == |p|
    decreases |p| - i
  {
    if i < |p| {
      assert (p + t)[i] == p[i];
      TextSplit(p, t, i + 1);
    } else if t != "" {
      assert (p + t)[i] == t[0];
    }
  }

  lemma {:induction false} RunSplit(p: string, t: string, j: nat)
    requires j <= |p| && (j == |p| || EndsInDigit(p) ==> !StartsWithDigit(t))
    ensures ZerosEnd(p + t, j) == ZerosEnd(p, j)
    ensures DigitsFrom(p + t, j) == DigitsFrom(p, j) && DigitsEnd(p + t, j) == DigitsEnd(p, j)
    decreases |p| - j
  {
    if j < |p| {
      assert (p + t)[j] == p[j];
      if IsDigit(p[j]) { RunSplit(p, t, j + 1); }
    } else if t != "" {
      assert (p + t)[j] == t[0];
    }
  }

  lemma {:induction false} ZerosInside(p: string, j: nat)
    requires j < |p| && !EndsInDigit(p)
    ensures ZerosEnd(p, j) < |p|
    decreases |p| - j
  {
    if p[j] == '0' && j + 1 < |p| { ZerosInside(p, j + 1); }
  }

  /** A part that ends inside p is not touched by what follows p. */
  lemma PartSplit(p: string, t: string, i: nat)
    requires i < |p| && TextEnd(p, i) < |p| && (EndsInDigit(p) ==> !StartsWithDigit(t))
    ensures PartAt(p + t, i) == PartAt(p, i) && PartEnd(p + t, i) == PartEnd(p, i)
  {
    var e := TextEnd(p, i);
    TextSplit(p, t, i);
    RunSplit(p, t, e);
    if !EndsInDigit(p) { ZerosInside(p, e); }
    RunSplit(p, t, ZerosEnd(p, e));
  }

  /** The value with which a tail goes on: 0 if it ends or begins a number. */
  function OrderAt(t: string): int {
    if t == "" || IsDigit(t[0]) then 0 else Order(t[0])
  }

  lemma {:induction false} TextsAppended(a: seq<int>, x: seq<int>, y: seq<int>)
    ensures CompareTexts(a + x, a + y) == CompareTexts(x, y)
    decreases |a|
  {
    if a == [] {
      assert a + x == x && a + y == y;
    } else {
      assert (a + x)[1..] == a[1..] + x && (a + y)[1..] == a[1..] + y;
      TextsAppended(a[1..], x, y);
    }
  }

  lemma TailText(p: string, t: string)
    ensures var x := TextFrom(p + t, |p|); if OrderAt(t) == 0 then true else x != [] && x[0] == OrderAt(t)
    ensures t == "" || IsDigit(t[0]) ==> TextFrom(p + t, |p|) == []
  {
    if t != "" { assert (p + t)[|p|] == t[0]; }
  }

  lemma TailsCompare(p: string, x: string, y: string)
    requires Terminated(x) && Terminated(y) && OrderAt(x) != OrderAt(y)
    ensures CompareTexts(TextFrom(p + x, |p|), TextFrom(p + y, |p|)) == Sign(OrderAt(x) - OrderAt(y))
  {
    TailText(p, x);
    TailText(p, y);
    TailOrder(x);
    TailOrder(y);
  }

  lemma TailOrder(t: string)
    requires Terminated(t)
    ensures OrderAt(t) == 0 <==> t == "" || IsDigit(t[0])
  {
    if t != "" && !IsDigit(t[0]) { assert t[0] in t; }
  }

  lemma {:induction false} TextDecidesFrom(p: string, x: string, y: string, i: nat)
    requires i <= |p| && Terminated(p) && Terminated(x) && Terminated(y) && OrderAt(x) != OrderAt(y)
    requires EndsInDigit(p) ==> !StartsWithDigit(x) && !StartsWithDigit(y)
    ensures Compare(Parts(p + x, i), Parts(p + y, i)) == Sign(OrderAt(x) - OrderAt(y))
    decreases |p| - i
  {
    PartsStep(p + x, i);
    PartsStep(p + y, i);
    EmptyCompares(Parts(p + x, i), Parts(p + y, i));
    TextSplit(p, x, i);
    TextSplit(p, y, i);
    if TextEnd(p, i) == |p| {
      TailsCompare(p, x, y);
      TextsAppended(TextFrom(p, i), TextFrom(p + x, |p|), TextFrom(p + y, |p|));
    } else {
      PartSplit(p, x, i);
      PartSplit(p, y, i);
      TextProper(p, i);
      PartOrder(PartAt(p, i), PartAt(p, i));
      TextDecidesFrom(p, x, y, PartEnd(p, i));
    }
  }

  /** Behind a common beginning the first character outside a number decides: a tilde before the end, the end
      and a number before letters, letters by their code, and every other character after them. */
  lemma TextDecides(p: string, x: string, y: string)
    requires Terminated(p) && Terminated(x) && Terminated(y) && OrderAt(x) != OrderAt(y)
    requires EndsInDigit(p) ==> !StartsWithDigit(x) && !StartsWithDigit(y)
    ensures Compare(Parts(p + x, 0), Parts(p + y, 0)) == Sign(OrderAt(x) - OrderAt(y))
  {
    TextDecidesFrom(p, x, y, 0);
  }

  lemma OrderTable(c: char, d: char)
    requires IsText(c) && IsText(d)
    ensures c == '~' <==> OrderAt([c]) < 0
    ensures c == '~' && d != '~' ==> OrderAt([c]) < OrderAt([d])
    ensures IsLetter(c) && IsLetter(d) ==> (OrderAt([c]) < OrderAt([d]) <==> c < d)
    ensures IsLetter(c) && !IsLetter(d) && d != '~' ==> 0 < OrderAt([c]) < OrderAt([d])
    ensures !IsLetter(c) && !IsLetter(d) && c != '~' && d != '~' ==> (OrderAt([c]) < OrderAt([d]) <==> c < d)
  {
  }

  lemma {:induction false} DifferenceValue(a: string, b: string)
    requires Digits(a) && Digits(b) && |a| == |b|
    ensures FirstDifference(a, b) == Sign(Value(a) - Value(b))
  {
    if a != "" {
      var p, q, x, y := a[..|a| - 1], b[..|b| - 1], a[|a| - 1], b[|b| - 1];
      assert a == p + [x] && b == q + [y];
      DifferenceValue(p, q);
      DifferenceSnoc(p, q, x, y);
    }
  }

  lemma DigitsOrder(a: string, b: string)
    requires Digits(a) && Digits(b) && (a != "" ==> a[0] != '0') && (b != "" ==> b[0] != '0')
    ensures CompareDigits(a, b) == Sign(Value(a) - Value(b))
  {
    if |a| > |b| { LongerIsLarger(a, b); }
    if |b| > |a| { LongerIsLarger(b, a); }
    if |a| == |b| { DifferenceValue(a, b); }
  }

  /** m stands at j, and no digit behind it. */
  predicate NumberStands(w: string, j: nat, m: string) {
    Digits(m) && j + |m| <= |w| && w[j..j + |m|] == m && !(j + |m| < |w| && IsDigit(w[j + |m|]))
  }

  lemma NumberTail(w: string, j: nat, m: string)
    requires NumberStands(w, j, m) && m != ""
    ensures w[j] == m[0] && NumberStands(w, j + 1, m[1..])
  {
    assert w[j..j + |m|][0] == m[0] && w[j..j + |m|][1..] == m[1..];
  }

  lemma {:induction false} DigitsAre(w: string, j: nat, m: string)
    requires NumberStands(w, j, m)
    ensures DigitsFrom(w, j) == m
    decreases |m|
  {
    if m != "" {
      NumberTail(w, j, m);
      DigitsAre(w, j + 1, m[1..]);
      assert m == [m[0]] + m[1..];
    }
  }

  /** What is read of a number is its digits without leading zeros: its value. */
  lemma {:induction false} NumberRead(w: string, j: nat, m: string)
    requires NumberStands(w, j, m)
    ensures var d := DigitsFrom(w, ZerosEnd(w, j)); Digits(d) && Value(d) == Value(m) && (d != "" ==> d[0] != '0')
    decreases |m|
  {
    if m != "" { NumberTail(w, j, m); }
    if m != "" && m[0] == '0' {
      NumberRead(w, j + 1, m[1..]);
      ZeroInFront(m[1..]);
      assert m == ['0'] + m[1..];
    } else {
      DigitsAre(w, j, m);
    }
  }

  lemma {:induction false} NumbersDecideFrom(p: string, x: string, y: string, i: nat)
    requires i <= |p| && Terminated(p) && !EndsInDigit(p) && StartsWithDigit(x) && StartsWithDigit(y)
    requires CompareDigits(NumberBehind(p, x), NumberBehind(p, y)) != 0
    ensures Compare(Parts(p + x, i), Parts(p + y, i)) == CompareDigits(NumberBehind(p, x), NumberBehind(p, y))
    decreases |p| - i
  {
    PartsStep(p + x, i);
    PartsStep(p + y, i);
    EmptyCompares(Parts(p + x, i), Parts(p + y, i));
    TextSplit(p, x, i);
    TextSplit(p, y, i);
    TextProper(p, i);
    if TextEnd(p, i) == |p| {
      TailText(p, x);
      TailText(p, y);
      TextsOrder(TextFrom(p, i), TextFrom(p, i));
      assert TextFrom(p, i) + [] == TextFrom(p, i);
    } else {
      PartSplit(p, x, i);
      PartSplit(p, y, i);
      PartOrder(PartAt(p, i), PartAt(p, i));
      NumbersDecideFrom(p, x, y, PartEnd(p, i));
    }
  }

  /** The number with which t begins, read behind p. */
  function NumberBehind(p: string, t: string): string {
    DigitsFrom(p + t, ZerosEnd(p + t, |p|))
  }

  /** Behind a common beginning the larger number is the newer version, whatever follows. */
  lemma NumbersDecide(p: string, m: string, q: string, n: string, r: string)
    requires Terminated(p) && !EndsInDigit(p) && Digits(m) && Digits(n) && m != "" && n != "" && Value(m) != Value(n)
    requires !StartsWithDigit(q) && !StartsWithDigit(r)
    ensures Compare(Parts(p + (m + q), 0), Parts(p + (n + r), 0)) == Sign(Value(m) - Value(n))
  {
    NumbersRead(p, m, q, n, r);
    NumbersDecideFrom(p, m + q, n + r, 0);
  }

  lemma NumbersRead(p: string, m: string, q: string, n: string, r: string)
    requires Digits(m) && Digits(n) && m != "" && n != "" && !StartsWithDigit(q) && !StartsWithDigit(r)
    ensures StartsWithDigit(m + q) && StartsWithDigit(n + r)
    ensures CompareDigits(NumberBehind(p, m + q), NumberBehind(p, n + r)) == Sign(Value(m) - Value(n))
  {
    ReadBehind(p, m, q);
    ReadBehind(p, n, r);
    DigitsOrder(NumberBehind(p, m + q), NumberBehind(p, n + r));
  }

  lemma ReadBehind(p: string, m: string, q: string)
    requires Digits(m) && m != "" && !StartsWithDigit(q)
    ensures var d := NumberBehind(p, m + q); Digits(d) && Value(d) == Value(m) && (d != "" ==> d[0] != '0')
    ensures StartsWithDigit(m + q)
  {
    Stands(p, m, q);
    NumberRead(p + (m + q), |p|, m);
    assert (m + q)[0] == m[0];
  }

  lemma Stands(p: string, m: string, q: string)
    requires Digits(m) && !StartsWithDigit(q)
    ensures NumberStands(p + (m + q), |p|, m)
  {
    var w := p + (m + q);
    assert w[|p|..|p| + |m|] == m;
    if q != "" { assert w[|p| + |m|] == q[0]; }
  }

  // ---- whole versions ---------------------------------------------------------------------------

  datatype Version = Version(epoch: int, upstream: string, revision: string)

  predicate Readable(v: Version) {
    Terminated(v.upstream) && Terminated(v.revision)
  }

  type Debian = v: Version | Readable(v) witness Version(0, "", "")

  function CompareVersions(a: Debian, b: Debian): int {
    if a.epoch != b.epoch then Sign(a.epoch - b.epoch)
    else
      var c := Compare(Parts(a.upstream, 0), Parts(b.upstream, 0));
      if c != 0 then c else Compare(Parts(a.revision, 0), Parts(b.revision, 0))
  }

  method CompareDpkg(a: Debian, b: Debian) returns (r: int)
    ensures r == CompareVersions(a, b)
  {
    if a.epoch != b.epoch {
      return if a.epoch < b.epoch then -1 else 1;
    }
    var c := DpkgVerRevCmp(a.upstream, b.upstream);
    if c != 0 {
      return Sign(c);
    }
    c := DpkgVerRevCmp(a.revision, b.revision);
    r := Sign(c);
  }

  /** The epoch decides before all else, the upstream version before the revision, and the revision between equal
      upstream versions. */
  lemma VersionDecides(a: Debian, b: Debian)
    ensures a.epoch < b.epoch ==> CompareVersions(a, b) < 0
    ensures a.epoch == b.epoch && Compare(Parts(a.upstream, 0), Parts(b.upstream, 0)) < 0 ==> CompareVersions(a, b) < 0
    ensures a.epoch == b.epoch && SameParts(Parts(a.upstream, 0), Parts(b.upstream, 0)) ==>
      CompareVersions(a, b) == Compare(Parts(a.revision, 0), Parts(b.revision, 0))
  {
    StringsOrder(a.upstream, b.upstream);
  }

  /** So a larger number in the upstream version is newer, whatever the revisions are. */
  lemma NewerUpstream(a: Debian, b: Debian, p: string, m: string, q: string, n: string, r: string)
    requires a.epoch == b.epoch && a.upstream == p + (m + q) && b.upstream == p + (n + r)
    requires !EndsInDigit(p) && Digits(m) && Digits(n) && m != "" && n != "" && Value(m) < Value(n)
    requires !StartsWithDigit(q) && !StartsWithDigit(r)
    ensures CompareVersions(a, b) < 0 < CompareVersions(b, a)
  {
    TerminatedFront(p, m + q);
    NumbersDecide(p, m, q, n, r);
    OlderUpstream(a, b);
  }

  lemma TerminatedFront(p: string, t: string)
    requires Terminated(p + t)
    ensures Terminated(p)
  {
    forall c | c in p ensures c != NUL { assert c in p + t; }
  }

  lemma OlderUpstream(a: Debian, b: Debian)
    requires a.epoch == b.epoch && Compare(Parts(a.upstream, 0), Parts(b.upstream, 0)) < 0
    ensures CompareVersions(a, b) < 0 < CompareVersions(b, a)
  {
    StringsOrder(a.upstream, b.upstream);
  }

  function NotNewer(): (Debian, Debian) -> bool {
    (a: Debian, b: Debian) => CompareVersions(a, b) <= 0
  }

  /** Versions are ordered: swapping them negates the comparison, it is transitive, and two are equal exactly when
      they have one epoch and the same parts, missing ones counted as empty. */
  lemma VersionsAreOrdered()
    ensures forall a, b :: CompareVersions(a, b) == -CompareVersions(b, a)
    ensures TotalPreorder(NotNewer())
    ensures forall a, b :: CompareVersions(a, b) == 0 <==>
      a.epoch == b.epoch && SameParts(Parts(a.upstream, 0), Parts(b.upstream, 0)) &&
      SameParts(Parts(a.revision, 0), Parts(b.revision, 0))
  {
    forall a, b
      ensures CompareVersions(a, b) == -CompareVersions(b, a)
      ensures CompareVersions(a, b) == 0 <==>
        a.epoch == b.epoch && SameParts(Parts(a.upstream, 0), Parts(b.upstream, 0)) &&
        SameParts(Parts(a.revision, 0), Parts(b.revision, 0))
    {
      StringsOrder(a.upstream, b.upstream);
      StringsOrder(a.revision, b.revision);
    }
    forall a, b, c | NotNewer()(a, b) && NotNewer()(b, c) ensures NotNewer()(a, c) { NotNewerTransitive(a, b, c); }
  }

  lemma StringsOrder(a: string, b: string)
    requires Terminated(a) && Terminated(b)
    ensures var x, y := Parts(a, 0), Parts(b, 0);
      Compare(x, y) == -Compare(y, x) && (Compare(x, y) == 0 <==> SameParts(x, y))
  {
    PartsProper(a, 0);
    PartsProper(b, 0);
    CompareOrder(Parts(a, 0), Parts(b, 0));
  }

  lemma StringsTransitive(a: string, b: string, c: string)
    requires Terminated(a) && Terminated(b) && Terminated(c)
    requires Compare(Parts(a, 0), Parts(b, 0)) <= 0 && Compare(Parts(b, 0), Parts(c, 0)) <= 0
    ensures Compare(Parts(a, 0), Parts(c, 0)) <= 0
    ensures Compare(Parts(a, 0), Parts(c, 0)) == 0 ==>
      Compare(Parts(a, 0), Parts(b, 0)) == 0 && Compare(Parts(b, 0), Parts(c, 0)) == 0
  {
    var x, y, z := Parts(a, 0), Parts(b, 0), Parts(c, 0);
    PartsProper(a, 0);
    PartsProper(b, 0);
    PartsProper(c, 0);
    CompareOrder(x, y);
    CompareOrder(y, z);
    CompareOrder(x, z);
    CompareTransitive(x, y, z);
    if Compare(x, z) == 0 {
      CompareTransitive(z, x, y);
      CompareTransitive(y, z, x);
    }
  }

  lemma NotNewerTransitive(a: Debian, b: Debian, c: Debian)
    requires CompareVersions(a, b) <= 0 && CompareVersions(b, c) <= 0
    ensures CompareVersions(a, c) <= 0
  {
    if a.epoch == b.epoch == c.epoch {
      StringsTransitive(a.upstream, b.upstream, c.upstream);
      if Compare(Parts(a.upstream, 0), Parts(c.upstream, 0)) == 0 {
        StringsTransitive(a.revision, b.revision, c.revision);
      }
    }
  }
}
