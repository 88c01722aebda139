/** The key of the fleet aggregates: keyFor and sameTriage of lib/fleet-aggregates.ts. */
module FleetKey {
  import opened Wrappers
  import opened Text
  import opened Filtering
  import HostStore

  /** A host; local hosts come from the console's own store. */
  datatype Host = Host(id: string, lastSeen: string, local: bool)
  type Triage = HostStore.Triage
  datatype Findings = Findings(deviceId: string, matchedAt: string)

  /** What one request reads, the version of the fleet export included. */
  datatype Inputs = Inputs(version: string, fleet: seq<Host>, triages: seq<Triage>, vulns: Option<seq<Findings>>)

  function JoinComma(parts: seq<string>): string {
    if parts == [] then "" else if |parts| == 1 then parts[0] else parts[0] + "," + JoinComma(parts[1..])
  }

  function LocalHosts(fleet: seq<Host>): seq<string> {
    if fleet == [] then []
    else (if fleet[0].local then [fleet[0].id + "@" + fleet[0].lastSeen] else []) + LocalHosts(fleet[1..])
  }

  function Latest(vulns: seq<Findings>, latest: string): string {
    if vulns == [] then latest
    else Latest(vulns[1..], if Less(latest, vulns[0].matchedAt) then vulns[0].matchedAt else latest)
  }

  function VulnKey(vulns: Option<seq<Findings>>): string {
    if vulns.None? then "unavailable" else Decimal(|vulns.value|) + "@" + Latest(vulns.value, "")
  }

  /** The triage list as the key renders it. */
  function Rendered(triages: seq<Triage>): string {
    JoinComma(Parts(triages))
  }

  function Parts(triages: seq<Triage>): seq<string> {
    seq(|triages|, i requires 0 <= i < |triages| => triages[i].key + "=" + triages[i].status)
  }

  function BeforeTriage(i: Inputs): string {
    i.version + "|" + Decimal(|i.fleet|) + "|" + JoinComma(LocalHosts(i.fleet)) + "|" + VulnKey(i.vulns)
  }

  function KeyFor(i: Inputs): string {
    BeforeTriage(i) + "|" + Rendered(i.triages)
  }

  /** s.lastIndexOf("|") */
  function LastBar(s: string): (i: int)
    ensures -1 <= i < |s|
    ensures i >= 0 ==> s[i] == '|'
    ensures forall j :: i < j < |s| ==> s[j] != '|'
  {
    if s == "" then -1 else if s[|s| - 1] == '|' then |s| - 1 else LastBar(s[..|s| - 1])
  }

  /** s.slice(i): a negative index counts from the end. */
  function Slice(s: string, i: int): string
    requires -1 <= i <= |s|
  {
    if i >= 0 then s[i..] else if s == "" then "" else s[|s| - 1..]
  }

  predicate SameTriage(a: string, b: string) {
    Slice(a, LastBar(a)) == Slice(b, LastBar(b))
  }

  /** The part of a rendered list after its last bar. */
  function Tail(s: string): string {
    s[LastBar(s) + 1..]
  }

  predicate Barless(s: string) {
    forall j :: 0 <= j < |s| ==> s[j] != '|'
  }

  lemma LastBarIs(s: string, i: nat)
    requires i < |s| && s[i] == '|' && forall j :: i < j < |s| ==> s[j] != '|'
    ensures LastBar(s) == i
  {
  }

  /** The last bar of p|t is the one before t, or the last one inside t. */
  lemma LastBarOf(p: string, t: string)
    ensures var s := p + "|" + t; LastBar(s) == |p| + 1 + LastBar(t) && s[LastBar(s)..] == "|" + Tail(t)
  {
    var s, j := p + "|" + t, |p| + 1 + LastBar(t);
    assert s[|p|] == '|' && s[|p| + 1..] == t;
    LastBarIs(s, j);
    assert s[j..] == ['|'] + s[j + 1..];
    assert s[j + 1..] == t[LastBar(t) + 1..];
  }

  lemma SameTriageOfKeys(p: string, t: string, q: string, u: string)
    ensures SameTriage(p + "|" + t, q + "|" + u) <==> Tail(t) == Tail(u)
  {
    FromLastBar(p, t);
    FromLastBar(q, u);
    BarInFront(Tail(t));
    BarInFront(Tail(u));
  }

  lemma FromLastBar(p: string, t: string)
    ensures var s := p + "|" + t; Slice(s, LastBar(s)) == "|" + Tail(t)
  {
    LastBarOf(p, t);
    SliceIsRest(p + "|" + t);
  }

  lemma SliceIsRest(s: string)
    requires LastBar(s) >= 0
    ensures Slice(s, LastBar(s)) == s[LastBar(s)..]
  {
  }

  lemma BarInFront(t: string)
    ensures ("|" + t)[1..] == t
  {
  }

  lemma TailIsRest(s: string)
    requires LastBar(s) >= 0
    ensures Tail(s) == s[LastBar(s)..][1..]
  {
  }

  lemma BarlessTail(t: string)
    requires Barless(t)
    ensures Tail(t) == t
  {
  }

  /** Two keys count as one triage exactly when their rendered lists end alike after the last bar:
      for lists without a bar, when the lists render alike. */
  lemma SameTriageMeans(a: Inputs, b: Inputs)
    ensures SameTriage(KeyFor(a), KeyFor(b)) <==> Tail(Rendered(a.triages)) == Tail(Rendered(b.triages))
    ensures Barless(Rendered(a.triages)) && Barless(Rendered(b.triages)) ==>
      (SameTriage(KeyFor(a), KeyFor(b)) <==> Rendered(a.triages) == Rendered(b.triages))
  {
    var t, u := Rendered(a.triages), Rendered(b.triages);
    SameTriageOfKeys(BeforeTriage(a), t, BeforeTriage(b), u);
    if Barless(t) && Barless(u) {
      BarlessTail(t);
      BarlessTail(u);
    }
  }

  lemma DifferOnlyBeforeBar(p: string, q: string, t: string)
    requires p != q
    ensures Tail(p + "|" + t) == Tail(q + "|" + t) && p + "|" + t != q + "|" + t
  {
    TailOf(p, t);
    TailOf(q, t);
    if |p| == |q| {
      var i :| 0 <= i < |p| && p[i] != q[i];
      assert (p + "|" + t)[i] == p[i] && (q + "|" + t)[i] == q[i];
    }
  }

  lemma TailOf(p: string, t: string)
    ensures Tail(p + "|" + t) == Tail(t)
  {
    LastBarOf(p, t);
    TailIsRest(p + "|" + t);
    BarInFront(Tail(t));
  }

  /** A bar in a triage key hides what stands before it: two lists that differ only there count as one. */
  lemma BarHidesTriage(a: Inputs, b: Inputs, p: string, q: string, t: string)
    requires p != q
    requires Rendered(a.triages) == p + "|" + t && Rendered(b.triages) == q + "|" + t
    ensures SameTriage(KeyFor(a), KeyFor(b)) && Rendered(a.triages) != Rendered(b.triages)
  {
    DifferOnlyBeforeBar(p, q, t);
    SameTriageMeans(a, b);
  }

  lemma {:induction false} JoinLast(parts: seq<string>, part: string)
    ensures JoinComma(parts + [part]) == (if parts == [] then "" else JoinComma(parts) + ",") + part
  {
    if parts == [] {
      assert parts + [part] == [part];
    } else {
      assert (parts + [part])[1..] == parts[1..] + [part];
      JoinLast(parts[1..], part);
      if |parts| > 1 { assert JoinComma(parts) == parts[0] + "," + JoinComma(parts[1..]); }
    }
  }

  /** A list whose last key has a bar in it ends, after the last bar, like that triage does; and it renders
      longer than the list before it. */
  lemma RenderedLast(triages: seq<Triage>, p: string, t: string, status: string)
    ensures var after := Rendered(triages + [HostStore.Triage(p + "|" + t, status)]);
      Tail(after) == Tail(t + "=" + status) && |after| > |Rendered(triages)|
  {
    var last := HostStore.Triage(p + "|" + t, status);
    var before := if triages == [] then "" else Rendered(triages) + ",";
    assert Parts(triages + [last]) == Parts(triages) + [last.key + "=" + status];
    JoinLast(Parts(triages), last.key + "=" + status);
    var end := t + "=" + status;
    assert before + (last.key + "=" + status) == (before + p) + "|" + end;
    TailOf(before + p, end);
  }

  // ---- what the key tells apart ---------------------------------------------------------------

  lemma {:induction false} LatestMeans(vulns: seq<Findings>, latest: string)
    ensures var r := Latest(vulns, latest);
      (r == latest || exists v :: v in vulns && v.matchedAt == r) &&
      !Less(r, latest) && forall v :: v in vulns ==> !Less(r, v.matchedAt)
  {
    LessTrichotomy(latest, latest);
    if vulns != [] {
      var next := if Less(latest, vulns[0].matchedAt) then vulns[0].matchedAt else latest;
      LatestMeans(vulns[1..], next);
      LessTrichotomy(latest, vulns[0].matchedAt);
      LessTrichotomy(next, next);
      NotLess(latest, next, Latest(vulns, latest));
      NotLess(vulns[0].matchedAt, next, Latest(vulns, latest));
      assert forall v :: v in vulns <==> v == vulns[0] || v in vulns[1..];
    }
  }

  lemma NotLess(a: string, b: string, c: string)
    ensures !Less(b, a) && !Less(c, b) ==> !Less(c, a)
  {
    LessTrichotomy(a, b);
    LessTrichotomy(b, c);
    LessTrichotomy(a, c);
    if Less(a, b) && Less(b, c) { LessTransitive(a, b, c); }
  }

  /** The newest match time: "" or one of those of the summaries, and none of them is later. */
  lemma NewestMatch(vulns: seq<Findings>)
    ensures Latest(vulns, "") == "" || exists v :: v in vulns && v.matchedAt == Latest(vulns, "")
    ensures forall v :: v in vulns ==> !Less(Latest(vulns, ""), v.matchedAt)
  {
    LatestMeans(vulns, "");
  }

  /** How many bars a text holds. */
  function Bars(s: string): nat {
    if s == "" then 0 else Bars(s[..|s| - 1]) + if s[|s| - 1] == '|' then 1 else 0
  }

  lemma {:induction false} BarsConcat(a: string, b: string)
    ensures Bars(a + b) == Bars(a) + Bars(b)
  {
    if b == "" {
      assert a + b == a;
    } else {
      assert (a + b)[..|a + b| - 1] == a + b[..|b| - 1];
      BarsConcat(a, b[..|b| - 1]);
    }
  }

  lemma {:induction false} BarlessBars(s: string)
    ensures Bars(s) == 0 <==> Barless(s)
  {
    if s != "" {
      BarlessBars(s[..|s| - 1]);
      assert Barless(s) <==> Barless(s[..|s| - 1]) && s[|s| - 1] != '|';
    }
  }

  /** Fields with as many bars each end at the same bar. */
  lemma FieldEnds(p: string, s: string, q: string, t: string)
    requires p + "|" + s == q + "|" + t && Bars(p) == Bars(q)
    ensures p == q && s == t
  {
    if |p| < |q| { ShorterField(p, s, q, t); }
    if |q| < |p| { ShorterField(q, t, p, s); }
    var w := p + "|" + s;
    assert p == w[..|p|] && q == w[..|q|] && s == w[|p| + 1..] && t == w[|q| + 1..];
  }

  lemma ShorterField(p: string, s: string, q: string, t: string)
    requires p + "|" + s == q + "|" + t && |p| < |q|
    ensures Bars(p) < Bars(q)
  {
    var w := p + "|" + s;
    assert w[..|q|] == q && w[..|p| + 1] == p + "|";
    assert q == (p + "|") + q[|p| + 1..];
    BarsConcat(p + "|", q[|p| + 1..]);
    BarsConcat(p, "|");
    assert Bars("|") == 1 by { assert "|"[..0] == ""; }
  }

  lemma DecimalBarless(n: nat)
    ensures Bars(Decimal(n)) == 0
  {
    BarlessBars(Decimal(n));
  }

  /** The fields of the key before the triages, on the inputs. */
  ghost predicate SameFields(a: Inputs, b: Inputs) {
    a.version == b.version && |a.fleet| == |b.fleet| &&
    JoinComma(LocalHosts(a.fleet)) == JoinComma(LocalHosts(b.fleet)) && SameMatches(a.vulns, b.vulns)
  }

  /** As many summaries with the same newest match time, or none to be had in either. */
  predicate SameMatches(v: Option<seq<Findings>>, w: Option<seq<Findings>>) {
    if v.Some? && w.Some? then |v.value| == |w.value| && Latest(v.value, "") == Latest(w.value, "")
    else v.None? && w.None?
  }

  lemma SameVulnKey(v: Option<seq<Findings>>, w: Option<seq<Findings>>)
    ensures VulnKey(v) == VulnKey(w) <==> SameMatches(v, w)
  {
    if v.Some? && w.Some? {
      CountAndTime(|v.value|, Latest(v.value, ""), |w.value|, Latest(w.value, ""));
    } else if v.Some? {
      NotUnavailable(|v.value|, Latest(v.value, ""));
    } else if w.Some? {
      NotUnavailable(|w.value|, Latest(w.value, ""));
    }
  }

  lemma NotUnavailable(n: nat, t: string)
    ensures Decimal(n) + "@" + t != "unavailable"
  {
    assert (Decimal(n) + "@" + t)[0] == Decimal(n)[0] && "unavailable"[0] == 'u';
  }

  lemma CountAndTime(m: nat, s: string, n: nat, t: string)
    ensures Decimal(m) + "@" + s == Decimal(n) + "@" + t <==> m == n && s == t
  {
    var p, q := Decimal(m), Decimal(n);
    var u, v := p + "@" + s, q + "@" + t;
    if u == v {
      assert u[|p|] == '@' && v[|q|] == '@';
      assert forall i :: 0 <= i < |p| ==> u[i] == p[i];
      assert forall i :: 0 <= i < |q| ==> v[i] == q[i];
      assert |p| == |q|;
      assert p == u[..|p|] == v[..|q|] == q && s == u[|p| + 1..] == v[|q| + 1..] == t;
      DecimalRoundTrip(m);
      DecimalRoundTrip(n);
    }
  }

  function JoinBars(fields: seq<string>): string
    requires fields != []
  {
    if |fields| == 1 then fields[0] else fields[0] + "|" + JoinBars(fields[1..])
  }

  lemma {:induction false} JoinedFields(fs: seq<string>, gs: seq<string>)
    requires |fs| == |gs| > 0 && JoinBars(fs) == JoinBars(gs)
    requires forall i :: 0 <= i < |fs| - 1 ==> Bars(fs[i]) == Bars(gs[i])
    ensures fs == gs
  {
    if |fs| > 1 {
      FieldEnds(fs[0], JoinBars(fs[1..]), gs[0], JoinBars(gs[1..]));
      JoinedFields(fs[1..], gs[1..]);
      assert fs == [fs[0]] + fs[1..] && gs == [gs[0]] + gs[1..];
    }
  }

  lemma Joined(a: string, b: string)
    ensures JoinBars([a, b]) == a + "|" + b
  {
    assert [a, b][1..] == [b];
  }

  lemma {:induction false} JoinSnoc(fs: seq<string>, f: string)
    requires fs != []
    ensures JoinBars(fs + [f]) == JoinBars(fs) + "|" + f
  {
    if |fs| == 1 {
      assert fs + [f] == [fs[0], f];
      Joined(fs[0], f);
    } else {
      assert (fs + [f])[1..] == fs[1..] + [f];
      JoinSnoc(fs[1..], f);
    }
  }

  function KeyFields(i: Inputs): (fields: seq<string>)
    ensures |fields| == 5
  {
    [i.version, Decimal(|i.fleet|), JoinComma(LocalHosts(i.fleet)), VulnKey(i.vulns), Rendered(i.triages)]
  }

  lemma KeyJoined(i: Inputs)
    ensures KeyFor(i) == JoinBars(KeyFields(i))
  {
    var fs := KeyFields(i);
    JoinSnoc(fs[..1], fs[1]);
    JoinSnoc(fs[..2], fs[2]);
    JoinSnoc(fs[..3], fs[3]);
    JoinSnoc(fs[..4], fs[4]);
    assert fs[..1] + [fs[1]] == fs[..2] && fs[..2] + [fs[2]] == fs[..3];
    assert fs[..3] + [fs[3]] == fs[..4] && fs[..4] + [fs[4]] == fs;
  }

  /** Equal keys mean equal fields, and lists that render alike, exactly when the versions, the local hosts and
      the newest match times hold as many bars in the one as in the other; equal fields and lists always mean
      equal keys. */
  lemma EqualKeys(a: Inputs, b: Inputs)
    ensures SameFields(a, b) && Rendered(a.triages) == Rendered(b.triages) ==> KeyFor(a) == KeyFor(b)
    ensures KeyFor(a) == KeyFor(b) ==>
      (SameFields(a, b) && Rendered(a.triages) == Rendered(b.triages) <==>
        Bars(a.version) == Bars(b.version) &&
        Bars(JoinComma(LocalHosts(a.fleet))) == Bars(JoinComma(LocalHosts(b.fleet))) &&
        Bars(VulnKey(a.vulns)) == Bars(VulnKey(b.vulns)))
  {
    var p, q := JoinComma(LocalHosts(a.fleet)), JoinComma(LocalHosts(b.fleet));
    var m, n := Decimal(|a.fleet|), Decimal(|b.fleet|);
    SameVulnKey(a.vulns, b.vulns);
    DecimalBarless(|a.fleet|);
    DecimalBarless(|b.fleet|);
    DecimalRoundTrip(|a.fleet|);
    DecimalRoundTrip(|b.fleet|);
    KeyJoined(a);
    KeyJoined(b);
    if KeyFor(a) == KeyFor(b) && Bars(a.version) == Bars(b.version) && Bars(p) == Bars(q) &&
      Bars(VulnKey(a.vulns)) == Bars(VulnKey(b.vulns))
    {
      JoinedFields(KeyFields(a), KeyFields(b));
      assert KeyFields(a)[0] == a.version && KeyFields(a)[1] == m && KeyFields(a)[2] == p;
      assert KeyFields(b)[0] == b.version && KeyFields(b)[1] == n && KeyFields(b)[2] == q;
      assert KeyFields(a)[3] == VulnKey(a.vulns) && KeyFields(b)[3] == VulnKey(b.vulns);
      assert KeyFields(a)[4] == Rendered(a.triages) && KeyFields(b)[4] == Rendered(b.triages);
    }
  }

  // ---- changes that show in the key ----------------------------------------------------------

  lemma Cancel(p: string, a: string, b: string, t: string)
    ensures p + a + t == p + b + t <==> a == b
  {
    var u, v := p + a + t, p + b + t;
    assert u[|p|..|u| - |t|] == a && v[|p|..|v| - |t|] == b;
  }

  lemma {:induction false} JoinAt(parts: seq<string>, k: nat, part: string)
    requires k < |parts|
    ensures JoinComma(parts[k := part]) == JoinComma(parts) <==> part == parts[k]
  {
    var changed := parts[k := part];
    if k == 0 {
      var rest := if |parts| == 1 then "" else "," + JoinComma(parts[1..]);
      assert changed[1..] == parts[1..];
      assert JoinComma(parts) == "" + parts[0] + rest && JoinComma(changed) == "" + part + rest;
      Cancel("", parts[0], part, rest);
    } else {
      JoinAt(parts[1..], k - 1, part);
      assert changed[1..] == parts[1..][k - 1 := part];
      var front := parts[0] + ",";
      assert JoinComma(parts) == front + JoinComma(parts[1..]) + "";
      assert JoinComma(changed) == front + JoinComma(changed[1..]) + "";
      Cancel(front, JoinComma(parts[1..]), JoinComma(changed[1..]), "");
    }
  }

  function PartOf(h: Host): string {
    h.id + "@" + h.lastSeen
  }

  /** Where a local host stands among them. */
  lemma {:induction false} LocalUpdate(fleet: seq<Host>, k: nat, h: Host) returns (m: nat)
    requires k < |fleet| && fleet[k].local && h.local
    ensures m < |LocalHosts(fleet)| && LocalHosts(fleet)[m] == PartOf(fleet[k])
    ensures LocalHosts(fleet[k := h]) == LocalHosts(fleet)[m := PartOf(h)]
  {
    var rest := LocalHosts(fleet[1..]);
    if k == 0 {
      m := 0;
      assert fleet[k := h][1..] == fleet[1..];
    } else {
      m := LocalUpdate(fleet[1..], k - 1, h);
      assert fleet[k := h][1..] == fleet[1..][k - 1 := h];
      if fleet[0].local { m := m + 1; } else { assert [] + rest == rest; }
    }
  }

  lemma {:induction false} RemoteUpdate(fleet: seq<Host>, k: nat, h: Host)
    requires k < |fleet| && !fleet[k].local && !h.local
    ensures LocalHosts(fleet[k := h]) == LocalHosts(fleet)
  {
    if k == 0 {
      assert fleet[k := h][1..] == fleet[1..];
    } else {
      RemoteUpdate(fleet[1..], k - 1, h);
      assert fleet[k := h][1..] == fleet[1..][k - 1 := h];
    }
  }

  /** The inputs after a host has been seen again. */
  function SeenAgain(i: Inputs, k: nat, seen: string): Inputs
    requires k < |i.fleet|
  {
    i.(fleet := i.fleet[k := i.fleet[k].(lastSeen := seen)])
  }

  lemma KeyAroundHosts(i: Inputs)
    ensures KeyFor(i) == (i.version + "|" + Decimal(|i.fleet|) + "|") + JoinComma(LocalHosts(i.fleet)) +
      ("|" + VulnKey(i.vulns) + "|" + Rendered(i.triages))
  {
    var p, j := i.version + "|" + Decimal(|i.fleet|) + "|", JoinComma(LocalHosts(i.fleet));
    var k, r := VulnKey(i.vulns), Rendered(i.triages);
    assert p + j + "|" + k + "|" + r == p + j + ("|" + k + "|" + r);
  }

  lemma KeyAroundMatches(i: Inputs)
    ensures KeyFor(i) == (i.version + "|" + Decimal(|i.fleet|) + "|" + JoinComma(LocalHosts(i.fleet)) + "|") +
      VulnKey(i.vulns) + ("|" + Rendered(i.triages))
  {
    var p := i.version + "|" + Decimal(|i.fleet|) + "|" + JoinComma(LocalHosts(i.fleet)) + "|";
    var k, r := VulnKey(i.vulns), Rendered(i.triages);
    assert p + k + "|" + r == p + k + ("|" + r);
  }

  /** A host of the console's own store that is seen again changes the key, and no other host does. */
  lemma CheckinChangesKey(i: Inputs, k: nat, seen: string)
    requires k < |i.fleet|
    ensures KeyFor(SeenAgain(i, k, seen)) == KeyFor(i) <==> !i.fleet[k].local || seen == i.fleet[k].lastSeen
  {
    var h := i.fleet[k].(lastSeen := seen);
    KeyAroundHosts(i);
    KeyAroundHosts(SeenAgain(i, k, seen));
    var before, after := LocalHosts(i.fleet), LocalHosts(i.fleet[k := h]);
    Cancel(i.version + "|" + Decimal(|i.fleet|) + "|", JoinComma(before), JoinComma(after),
      "|" + VulnKey(i.vulns) + "|" + Rendered(i.triages));
    if h.local {
      var m := LocalUpdate(i.fleet, k, h);
      JoinAt(before, m, PartOf(h));
      var id := h.id + "@";
      assert (id + seen)[|id|..] == seen && (id + i.fleet[k].lastSeen)[|id|..] == i.fleet[k].lastSeen;
    } else {
      RemoteUpdate(i.fleet, k, h);
    }
  }

  /** Match results change the key exactly when they are as many with another newest time, or more or fewer, or
      come or go altogether. */
  lemma RematchChangesKey(i: Inputs, vulns: Option<seq<Findings>>)
    ensures KeyFor(i.(vulns := vulns)) == KeyFor(i) <==> SameMatches(i.vulns, vulns)
  {
    KeyAroundMatches(i);
    KeyAroundMatches(i.(vulns := vulns));
    SameVulnKey(i.vulns, vulns);
    Cancel(i.version + "|" + Decimal(|i.fleet|) + "|" + JoinComma(LocalHosts(i.fleet)) + "|",
      VulnKey(i.vulns), VulnKey(vulns), "|" + Rendered(i.triages));
  }

  /** So a re-match newer than all before it always does. */
  lemma NewerMatchChangesKey(i: Inputs, vulns: seq<Findings>, v: Findings)
    requires i.vulns.Some? && v in vulns
    requires v.matchedAt != "" && forall u :: u in i.vulns.value ==> Less(u.matchedAt, v.matchedAt)
    ensures KeyFor(i.(vulns := Some(vulns))) != KeyFor(i)
  {
    RematchChangesKey(i, Some(vulns));
    NewestMatch(vulns);
    NewestMatch(i.vulns.value);
  }

  // ---- changes that show in the triage list -----------------------------------------------------

  function Width(t: Triage): nat {
    |t.key| + 2 + |t.status|
  }

  function Length(triages: seq<Triage>): nat {
    if triages == [] then 0 else Width(triages[0]) + Length(triages[1..])
  }

  /** The length of a rendered list: that of its parts, and the commas. */
  lemma {:induction false} RenderedLength(triages: seq<Triage>)
    ensures |Rendered(triages)| == if triages == [] then 0 else Length(triages) - 1
  {
    if triages != [] {
      RenderedLength(triages[1..]);
      assert Parts(triages)[1..] == Parts(triages[1..]);
      assert |triages| == 1 ==> triages[1..] == [];
    }
  }

  lemma {:induction false} LengthSnoc(triages: seq<Triage>, t: Triage)
    ensures Length(triages + [t]) == Length(triages) + Width(t)
  {
    if triages == [] {
      assert triages + [t] == [t] && [t][1..] == [];
    } else {
      assert (triages + [t])[1..] == triages[1..] + [t];
      LengthSnoc(triages[1..], t);
    }
  }

  /** The list without one key. */
  lemma {:induction false} LengthWithout(triages: seq<Triage>, k: nat)
    requires HostStore.OneEach(triages) && k < |triages|
    ensures Length(Where(triages, HostStore.IsOther(triages[k].key))) + Width(triages[k]) == Length(triages)
  {
    var tail, other := triages[1..], HostStore.IsOther(triages[k].key);
    if k == 0 {
      WhereAll(tail, other);
      assert [] + tail == tail;
    } else {
      LengthWithout(tail, k - 1);
      assert other(triages[0]);
      LengthSecond(triages[0], Where(tail, other));
    }
  }

  lemma LengthSecond(t: Triage, triages: seq<Triage>)
    ensures Length([t] + triages) == Width(t) + Length(triages)
  {
    assert ([t] + triages)[1..] == triages;
  }

  /** A triage that sets a key for the first time, or to a status of another length, such as acknowledged for
      open, changes how the list renders. */
  lemma TriageRenders(data: HostStore.Data, t: Triage)
    requires forall u: Triage :: u in data.triages && u.key == t.key ==> |u.status| != |t.status|
    requires HostStore.OneEach(data.triages)
    ensures Rendered(HostStore.TriageResult(data, t).triages) != Rendered(data.triages)
  {
    var ts := data.triages;
    var rest := Where(ts, HostStore.IsOther(t.key));
    RenderedLength(ts);
    RenderedLength(rest + [t]);
    LengthSnoc(rest, t);
    if k :| 0 <= k < |ts| && ts[k].key == t.key {
      LengthWithout(ts, k);
    } else {
      WhereAll(ts, HostStore.IsOther(t.key));
    }
  }
}
