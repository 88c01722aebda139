/** Dropping a flag from a Windows command line: cmd/defendsec-agentd/cmdline.go. A text is here the
    sequence of its runes as a range loop yields them: a byte that is not valid UTF-8 is U+FFFD. */
module CommandLine {
  import Filtering

  // ---- tokens ----------------------------------------------------------------------

  /** The tokens of s when the scanner holds cur and is inside quotes or not. */
  function Scan(s: string, cur: string, inQuote: bool): seq<string> {
    if s == "" then (if cur == "" then [] else [cur])
    else if s[0] == '"' then Scan(s[1..], cur + [s[0]], !inQuote)
    else if s[0] == ' ' && !inQuote then (if cur == "" then [] else [cur]) + Scan(s[1..], "", false)
    else Scan(s[1..], cur + [s[0]], inQuote)
  }

  function Tokens(s: string): seq<string> {
    Scan(s, "", false)
  }

  /** splitCommandLine */
  method SplitCommandLine(s: string) returns (toks: seq<string>)
    ensures toks == Tokens(s)
  {
    toks := [];
    var cur, inQuote := "", false;
    for i := 0 to |s|
      invariant Tokens(s) == toks + Scan(s[i..], cur, inQuote)
    {
      assert s[i..][1..] == s[i + 1..];
      var r := s[i];
      if r == '"' {
        inQuote := !inQuote;
        cur := cur + [r];
      } else if r == ' ' && !inQuote {
        if |cur| > 0 {
          toks := toks + [cur];
          cur := "";
        }
      } else {
        cur := cur + [r];
      }
    }
    if |cur| > 0 {
      toks := toks + [cur];
    }
  }

  /** Whether quotes are open after s. */
  function QuoteAfter(s: string, inQuote: bool): bool {
    if s == "" then inQuote else QuoteAfter(s[1..], if s[0] == '"' then !inQuote else inQuote)
  }

  /** No space of s stands outside quotes. */
  predicate Solid(s: string, inQuote: bool) {
    s == "" || ((s[0] == ' ' ==> inQuote) && Solid(s[1..], if s[0] == '"' then !inQuote else inQuote))
  }

  predicate IsToken(t: string) {
    t != "" && Solid(t, false)
  }

  /** What a command line splits into: tokens, of which only the last may leave a quote open. */
  ghost predicate TokenList(toks: seq<string>) {
    (forall i :: 0 <= i < |toks| ==> IsToken(toks[i])) &&
    (forall i :: 0 <= i < |toks| - 1 ==> !QuoteAfter(toks[i], false))
  }

  /** strings.Join(toks, " ") */
  function Join(toks: seq<string>): string {
    if toks == [] then "" else if |toks| == 1 then toks[0] else toks[0] + " " + Join(toks[1..])
  }

  lemma {:induction false} ScanToken(t: string, cur: string, inQuote: bool, rest: string)
    requires Solid(t, inQuote)
    requires rest == "" || (rest[0] == ' ' && !QuoteAfter(t, inQuote))
    requires cur + t != ""
    ensures Scan(t + rest, cur, inQuote) == [cur + t] + if rest == "" then [] else Tokens(rest[1..])
    decreases |t|
  {
    if t == "" {
      assert t + rest == rest && cur + t == cur;
    } else {
      assert (t + rest)[1..] == t[1..] + rest;
      assert cur + [t[0]] + t[1..] == cur + t;
      ScanToken(t[1..], cur + [t[0]], if t[0] == '"' then !inQuote else inQuote, rest);
    }
  }

  /** Joining tokens and splitting again gives the tokens back, quoted spaces and an unterminated
      last quote included. */
  lemma {:induction false} SplitJoin(toks: seq<string>)
    requires TokenList(toks)
    ensures Tokens(Join(toks)) == toks
  {
    if |toks| == 1 {
      assert IsToken(toks[0]);
      ScanToken(toks[0], "", false, "");
      assert toks[0] + "" == toks[0] && "" + toks[0] == toks[0];
    } else if |toks| > 1 {
      assert IsToken(toks[0]) && !QuoteAfter(toks[0], false);
      var tail := Join(toks[1..]);
      ScanToken(toks[0], "", false, " " + tail);
      assert toks[0] + " " + tail == toks[0] + (" " + tail) && (" " + tail)[1..] == tail;
      assert "" + toks[0] == toks[0];
      SplitJoin(toks[1..]);
    }
  }

  lemma {:induction false} QuoteAfterSnoc(s: string, c: char, q: bool)
    ensures QuoteAfter(s + [c], q) == if c == '"' then !QuoteAfter(s, q) else QuoteAfter(s, q)
    ensures Solid(s + [c], q) <==> Solid(s, q) && (c == ' ' ==> QuoteAfter(s, q))
  {
    if s == "" {
      assert s + [c] == [c];
      assert [c][1..] == "";
    } else {
      assert (s + [c])[1..] == s[1..] + [c];
      QuoteAfterSnoc(s[1..], c, if s[0] == '"' then !q else q);
    }
  }

  lemma {:induction false} ScanGivesTokens(s: string, cur: string, inQuote: bool)
    requires Solid(cur, false) && QuoteAfter(cur, false) == inQuote
    ensures TokenList(Scan(s, cur, inQuote))
    decreases |s|
  {
    if s != "" {
      QuoteAfterSnoc(cur, s[0], false);
      if s[0] == '"' {
        ScanGivesTokens(s[1..], cur + [s[0]], !inQuote);
      } else if s[0] == ' ' && !inQuote {
        ScanGivesTokens(s[1..], "", false);
      } else {
        ScanGivesTokens(s[1..], cur + [s[0]], inQuote);
      }
    }
  }

  lemma TokensAreTokens(s: string)
    ensures TokenList(Tokens(s))
  {
    ScanGivesTokens(s, "", false);
  }

  function Flatten(toks: seq<string>): string {
    if toks == [] then "" else toks[0] + Flatten(toks[1..])
  }

  /** s without the spaces that stand outside quotes. */
  function Squeeze(s: string, inQuote: bool): string {
    if s == "" then ""
    else (if s[0] == ' ' && !inQuote then "" else [s[0]]) + Squeeze(s[1..], if s[0] == '"' then !inQuote else inQuote)
  }

  /** Splitting loses nothing but the separating spaces. */
  lemma {:induction false} ScanConserves(s: string, cur: string, inQuote: bool)
    ensures Flatten(Scan(s, cur, inQuote)) == cur + Squeeze(s, inQuote)
    decreases |s|
  {
    if s == "" {
      if cur != "" { assert [cur][1..] == []; }
    } else if s[0] == ' ' && !inQuote {
      ScanConserves(s[1..], "", false);
      FlattenCons(cur, Scan(s[1..], "", false));
    } else {
      var q := if s[0] == '"' then !inQuote else inQuote;
      ScanConserves(s[1..], cur + [s[0]], q);
      assert cur + [s[0]] + Squeeze(s[1..], q) == cur + ([s[0]] + Squeeze(s[1..], q));
    }
  }

  lemma FlattenCons(cur: string, rest: seq<string>)
    ensures Flatten((if cur == "" then [] else [cur]) + rest) == cur + Flatten(rest)
  {
    if cur == "" {
      assert [] + rest == rest;
    } else {
      assert ([cur] + rest)[1..] == rest;
    }
  }

  // ---- removing a flag ---------------------------------------------------------------

  function TrimLeft(t: string): string {
    if t != "" && t[0] == '"' then TrimLeft(t[1..]) else t
  }

  function TrimRight(t: string): string {
    if t != "" && t[|t| - 1] == '"' then TrimRight(t[..|t| - 1]) else t
  }

  /** strings.Trim(t, `"`) */
  function Bare(t: string): string {
    TrimRight(TrimLeft(t))
  }

  /** The token is the flag alone: its value is the next token. */
  predicate IsFlag(t: string, flag: string) {
    Bare(t) == flag || Bare(t) == "-" + flag
  }

  /** The token is the flag with its value after "=". */
  predicate IsFlagWithValue(t: string, flag: string) {
    flag + "=" <= Bare(t) || "-" + flag + "=" <= Bare(t)
  }

  predicate IsAnyForm(t: string, flag: string) {
    IsFlag(t, flag) || IsFlagWithValue(t, flag)
  }

  function Kept(toks: seq<string>, flag: string): seq<string>
    decreases |toks|
  {
    if toks == [] then []
    else if IsFlag(toks[0], flag) then (if |toks| == 1 then [] else Kept(toks[2..], flag))
    else if IsFlagWithValue(toks[0], flag) then Kept(toks[1..], flag)
    else [toks[0]] + Kept(toks[1..], flag)
  }

  ghost predicate Mentions(toks: seq<string>, flag: string) {
    exists i :: 0 <= i < |toks| && IsAnyForm(toks[i], flag)
  }

  lemma KeptStep(toks: seq<string>, flag: string, i: nat)
    requires i < |toks|
    ensures Kept(toks[i..], flag) ==
      if IsFlag(toks[i], flag) then (if i + 1 < |toks| then Kept(toks[i + 2..], flag) else [])
      else if IsFlagWithValue(toks[i], flag) then Kept(toks[i + 1..], flag)
      else [toks[i]] + Kept(toks[i + 1..], flag)
    ensures Mentions(toks[i..], flag) <==> IsAnyForm(toks[i], flag) || Mentions(toks[i + 1..], flag)
  {
    var rest := toks[i..];
    assert rest[1..] == toks[i + 1..];
    if i + 1 < |toks| { assert rest[2..] == toks[i + 2..]; }
    assert rest[0] == toks[i];
    if Mentions(toks[i + 1..], flag) {
      var k :| 0 <= k < |toks[i + 1..]| && IsAnyForm(toks[i + 1..][k], flag);
      assert rest[k + 1] == toks[i + 1..][k];
    }
    if Mentions(rest, flag) && !IsAnyForm(toks[i], flag) {
      var k :| 0 <= k < |rest| && IsAnyForm(rest[k], flag);
      assert toks[i + 1..][k - 1] == rest[k];
    }
  }

  method RemoveFlag(cmdline: string, flag: string) returns (result: string, changed: bool)
    ensures result == Join(Kept(Tokens(cmdline), flag))
    ensures changed <==> Mentions(Tokens(cmdline), flag)
  {
    var toks := SplitCommandLine(cmdline);
    var out: seq<string> := [];
    changed := false;
    var i := 0;
    ghost var rest := toks[i..];
    while i < |toks|
      invariant 0 <= i
      invariant rest == if i <= |toks| then toks[i..] else []
      invariant Kept(toks, flag) == out + Kept(rest, flag)
      invariant changed ==> Mentions(toks, flag)
      invariant !changed ==> Mentions(toks, flag) == Mentions(rest, flag)
    {
      KeptStep(toks, flag, i);
      var t := toks[i];
      if IsFlag(t, flag) {
        assert IsAnyForm(t, flag);
        changed := true;
        i := i + 1;
      } else if IsFlagWithValue(t, flag) {
        assert IsAnyForm(t, flag);
        changed := true;
      } else {
        out := out + [t];
      }
      i := i + 1;
      rest := if i <= |toks| then toks[i..] else [];
    }
    assert rest == [] && out + [] == out;
    result := Join(out);
  }

  /** Token i is the value of a flag: the token before it is the flag, and not itself a value. */
  predicate IsValue(toks: seq<string>, flag: string, i: nat)
    requires i < |toks|
  {
    i > 0 && IsFlag(toks[i - 1], flag) && !IsValue(toks, flag, i - 1)
  }

  /** Token i stays: it is no value of a flag and in no form the flag. */
  predicate Stays(toks: seq<string>, flag: string, i: nat)
    requires i < |toks|
  {
    !IsValue(toks, flag, i) && !IsAnyForm(toks[i], flag)
  }

  /** at[k] is the position of the k-th kept token. Positions rise, and are exactly those that stay. */
  ghost predicate Selection(toks: seq<string>, flag: string, kept: seq<string>, at: seq<nat>) {
    |at| == |kept| &&
    (forall k :: 0 <= k < |at| ==> at[k] < |toks| && kept[k] == toks[at[k]]) &&
    (forall k, l :: 0 <= k < l < |at| ==> at[k] < at[l]) &&
    (forall i: nat :: i < |toks| ==> (i in at <==> Stays(toks, flag, i)))
  }

  function Shift(at: seq<nat>, d: nat): seq<nat> {
    seq(|at|, k requires 0 <= k < |at| => at[k] + d)
  }

  lemma ShiftMembers(at: seq<nat>, d: nat, i: nat)
    ensures i in Shift(at, d) <==> i >= d && i - d in at
  {
    if i >= d && i - d in at {
      var k :| 0 <= k < |at| && at[k] == i - d;
      assert Shift(at, d)[k] == i;
    }
  }

  /** What is a value is decided behind a token that is none. */
  lemma {:induction false} ValueBehind(toks: seq<string>, flag: string, d: nat, i: nat)
    requires d <= i < |toks| && !IsValue(toks, flag, d)
    ensures IsValue(toks[d..], flag, i - d) == IsValue(toks, flag, i)
  {
    if i > d { ValueBehind(toks, flag, d, i - 1); }
  }

  lemma StaysBehind(toks: seq<string>, flag: string, d: nat, rest: seq<nat>, i: nat)
    requires d <= i < |toks| && !IsValue(toks, flag, d)
    requires i - d in rest <==> Stays(toks[d..], flag, i - d)
    ensures i in Shift(rest, d) <==> Stays(toks, flag, i)
  {
    ValueBehind(toks, flag, d, i);
    ShiftMembers(rest, d, i);
  }

  /** A selection from toks[d..], read as positions in toks, when nothing before d stays. */
  lemma SelectionBehind(toks: seq<string>, flag: string, d: nat, kept: seq<string>, rest: seq<nat>)
    requires d <= |toks| && Selection(toks[d..], flag, kept, rest)
    requires d < |toks| ==> !IsValue(toks, flag, d)
    requires forall i: nat :: i < d ==> !Stays(toks, flag, i)
    ensures Selection(toks, flag, kept, Shift(rest, d))
  {
    forall i: nat | i < |toks| ensures i in Shift(rest, d) <==> Stays(toks, flag, i) {
      if i < d { ShiftMembers(rest, d, i); } else { StaysBehind(toks, flag, d, rest, i); }
    }
  }

  /** The same when the first token stays. */
  lemma SelectionCons(toks: seq<string>, flag: string, kept: seq<string>, rest: seq<nat>)
    requires toks != [] && Stays(toks, flag, 0) && Selection(toks[1..], flag, kept, rest)
    ensures Selection(toks, flag, [toks[0]] + kept, [0] + Shift(rest, 1))
  {
    var at := [0] + Shift(rest, 1);
    assert Shift(rest, 1) == Filtering.Shift(rest);
    Filtering.KeptPositions(toks, kept, rest);
    forall i: nat | i < |toks| ensures i in at <==> Stays(toks, flag, i) {
      if i > 0 { StaysBehind(toks, flag, 1, rest, i); }
      Filtering.InCons(0, Shift(rest, 1), i);
    }
  }

  /** Exactly the flag in its forms and the values of the flags left out are removed, and the rest survives
      in order. A token that looks like the flag but is the value of one takes no value of its own. */
  lemma {:induction false} KeptSelection(toks: seq<string>, flag: string) returns (at: seq<nat>)
    ensures Selection(toks, flag, Kept(toks, flag), at)
    decreases |toks|
  {
    if toks == [] {
      at := [];
    } else if IsFlag(toks[0], flag) {
      var d := if |toks| == 1 then 1 else 2;
      var rest := KeptSelection(toks[d..], flag);
      assert IsAnyForm(toks[0], flag) && !IsValue(toks, flag, 0);
      assert |toks| > 1 ==> IsValue(toks, flag, 1);
      assert Kept(toks, flag) == Kept(toks[d..], flag);
      SelectionBehind(toks, flag, d, Kept(toks[d..], flag), rest);
      at := Shift(rest, d);
    } else {
      var rest := KeptSelection(toks[1..], flag);
      if IsFlagWithValue(toks[0], flag) {
        SelectionBehind(toks, flag, 1, Kept(toks[1..], flag), rest);
        at := Shift(rest, 1);
      } else {
        SelectionCons(toks, flag, Kept(toks[1..], flag), rest);
        at := [0] + Shift(rest, 1);
      }
    }
  }

  lemma SelectionIsTokenList(toks: seq<string>, flag: string, kept: seq<string>, at: seq<nat>)
    requires TokenList(toks) && Selection(toks, flag, kept, at)
    ensures TokenList(kept)
  {
    forall k | 0 <= k < |kept| - 1 ensures !QuoteAfter(kept[k], false) {
      assert at[k] < at[k + 1] < |toks|;
    }
  }

  lemma {:induction false} NothingToRemove(toks: seq<string>, flag: string)
    requires forall i :: 0 <= i < |toks| ==> !IsAnyForm(toks[i], flag)
    ensures Kept(toks, flag) == toks
  {
    if toks != [] { NothingToRemove(toks[1..], flag); }
  }

  /** The rewritten command line splits into exactly the kept tokens, so a second removal finds
      nothing and changes nothing. */
  lemma RemoveFlagRoundTrip(cmdline: string, flag: string)
    ensures var kept := Kept(Tokens(cmdline), flag);
      Tokens(Join(kept)) == kept && Kept(Tokens(Join(kept)), flag) == kept &&
      forall t :: t in kept ==> !IsAnyForm(t, flag)
  {
    var toks := Tokens(cmdline);
    var at := KeptSelection(toks, flag);
    TokensAreTokens(cmdline);
    SelectionIsTokenList(toks, flag, Kept(toks, flag), at);
    forall t | t in Kept(toks, flag) ensures !IsAnyForm(t, flag) {
      var k :| 0 <= k < |at| && Kept(toks, flag)[k] == t;
      assert at[k] in at && Stays(toks, flag, at[k]);
    }
    SplitJoin(Kept(toks, flag));
    NothingToRemove(Kept(toks, flag), flag);
  }

  // ---- what the forms of a flag are ------------------------------------------------------------

  predicate IsQuotes(q: string) {
    forall i :: 0 <= i < |q| ==> q[i] == '"'
  }

  lemma {:induction false} LeftQuotes(t: string) returns (q: string)
    ensures IsQuotes(q) && t == q + TrimLeft(t) && (TrimLeft(t) != "" ==> TrimLeft(t)[0] != '"')
  {
    if t != "" && t[0] == '"' {
      q := LeftQuotes(t[1..]);
      q := ['"'] + q;
      assert t == ['"'] + t[1..];
    } else {
      q := "";
    }
  }

  lemma {:induction false} RightQuotes(t: string) returns (q: string)
    ensures IsQuotes(q) && t == TrimRight(t) + q && (TrimRight(t) != "" ==> TrimRight(t)[|TrimRight(t)| - 1] != '"')
  {
    if t != "" && t[|t| - 1] == '"' {
      q := RightQuotes(t[..|t| - 1]);
      q := q + ['"'];
      assert t == t[..|t| - 1] + ['"'];
    } else {
      q := "";
    }
  }

  lemma {:induction false} TrimLeftOf(q: string, t: string)
    requires IsQuotes(q) && t != "" && t[0] != '"'
    ensures TrimLeft(q + t) == t
  {
    if q == "" {
      assert q + t == t;
    } else {
      assert (q + t)[1..] == q[1..] + t;
      TrimLeftOf(q[1..], t);
    }
  }

  lemma {:induction false} TrimRightOf(t: string, q: string)
    requires IsQuotes(q) && t != "" && t[|t| - 1] != '"'
    ensures TrimRight(t + q) == t
  {
    if q == "" {
      assert t + q == t;
    } else {
      assert (t + q)[..|t + q| - 1] == t + q[..|q| - 1];
      TrimRightOf(t, q[..|q| - 1]);
    }
  }

  /** t is core between quotes. */
  ghost predicate Quoted(t: string, core: string) {
    exists p, q :: IsQuotes(p) && IsQuotes(q) && t == p + core + q
  }

  predicate QuoteFree(core: string) {
    core != "" && core[0] != '"' && core[|core| - 1] != '"'
  }

  lemma BareMeans(t: string, core: string)
    requires QuoteFree(core)
    ensures Bare(t) == core <==> Quoted(t, core)
  {
    if Bare(t) == core {
      var p := LeftQuotes(t);
      var q := RightQuotes(TrimLeft(t));
      assert t == p + core + q;
    }
    if p, q :| IsQuotes(p) && IsQuotes(q) && t == p + core + q {
      assert t == p + (core + q) && (core + q)[0] == core[0];
      TrimLeftOf(p, core + q);
      TrimRightOf(core, q);
    }
  }

  /** A token begins, behind its quotes, with this text. */
  ghost predicate QuotedStart(t: string, start: string) {
    exists p, rest :: IsQuotes(p) && t == p + start + rest
  }

  lemma StartMeans(t: string, start: string)
    requires QuoteFree(start)
    ensures start <= Bare(t) <==> QuotedStart(t, start)
  {
    if start <= Bare(t) {
      var p := LeftQuotes(t);
      var q := RightQuotes(TrimLeft(t));
      var rest := Bare(t)[|start|..] + q;
      assert Bare(t) == start + Bare(t)[|start|..];
      assert t == p + start + rest;
    }
    if p, rest :| IsQuotes(p) && t == p + start + rest {
      assert t == p + (start + rest) && (start + rest)[0] == start[0];
      TrimLeftOf(p, start + rest);
      TrimRightKeeps(start, rest);
    }
  }

  lemma {:induction false} TrimRightKeeps(start: string, rest: string)
    requires start != "" && start[|start| - 1] != '"'
    ensures start <= TrimRight(start + rest)
  {
    if rest != "" && rest[|rest| - 1] == '"' {
      assert (start + rest)[..|start + rest| - 1] == start + rest[..|rest| - 1];
      TrimRightKeeps(start, rest[..|rest| - 1]);
    } else if rest == "" {
      assert start + rest == start;
    }
  }

  /** The forms of a flag, for a name without quotes at its ends: the name or the name behind one more dash, alone
      or before an equals sign, with any number of quotes around the token. */
  lemma FlagForms(t: string, flag: string)
    requires QuoteFree(flag)
    ensures IsFlag(t, flag) <==> Quoted(t, flag) || Quoted(t, "-" + flag)
    ensures IsFlagWithValue(t, flag) <==> QuotedStart(t, flag + "=") || QuotedStart(t, "-" + flag + "=")
  {
    BareMeans(t, flag);
    BareMeans(t, "-" + flag);
    StartMeans(t, flag + "=");
    StartMeans(t, "-" + flag + "=");
  }

  lemma {:induction false} KeptAppended(pre: seq<string>, post: seq<string>, flag: string)
    requires forall t :: t in pre ==> !IsAnyForm(t, flag)
    ensures Kept(pre + post, flag) == pre + Kept(post, flag)
    decreases |pre|
  {
    if pre == [] {
      assert pre + post == post;
    } else {
      assert (pre + post)[1..] == pre[1..] + post && pre[0] in pre;
      KeptAppended(pre[1..], post, flag);
      assert pre == [pre[0]] + pre[1..];
    }
  }

  /** A flag goes with the token behind it, a flag with its value goes alone, and what stands before the first of
      them stays. */
  lemma FlagGoes(pre: seq<string>, t: string, value: string, post: seq<string>, flag: string)
    requires forall x :: x in pre ==> !IsAnyForm(x, flag)
    ensures IsFlag(t, flag) ==> Kept(pre + ([t, value] + post), flag) == pre + Kept(post, flag)
    ensures !IsFlag(t, flag) && IsFlagWithValue(t, flag) ==> Kept(pre + ([t] + post), flag) == pre + Kept(post, flag)
  {
    KeptAppended(pre, [t, value] + post, flag);
    KeptAppended(pre, [t] + post, flag);
    assert ([t, value] + post)[2..] == post && ([t] + post)[1..] == post;
  }
}
