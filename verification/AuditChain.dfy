/** The hash-chained audit log: internal/auditchain/chain.go. */
module AuditChain {
  import opened Wrappers
  import opened Text

  // ---- hashing -----------------------------------------------------------------

  type Byte = b: int | 0 <= b < 256
  type Digest = d: seq<Byte> | |d| == 32 witness seq(32, i => 0)

  /** sha256.Sum256: any function from byte strings to 32 bytes. Nothing is assumed about it. */
  type Sha = string -> Digest

  predicate IsHex(c: char) {
    '0' <= c <= '9' || 'a' <= c <= 'f'
  }

  function HexDigit(n: nat): (c: char)
    requires n < 16
    ensures IsHex(c)
  {
    if n < 10 then ('0' as int + n) as char else ('a' as int + n - 10) as char
  }

  /** hex.EncodeToString */
  function Hex(d: seq<Byte>): (s: string)
    ensures |s| == 2 * |d|
    ensures forall i :: 0 <= i < |s| ==> IsHex(s[i])
  {
    if d == [] then "" else [HexDigit(d[0] / 16), HexDigit(d[0] % 16)] + Hex(d[1..])
  }

  lemma {:induction false} HexInjective(a: seq<Byte>, b: seq<Byte>)
    requires Hex(a) == Hex(b)
    ensures a == b
  {
    assert |a| == |b|;
    if a != [] {
      var s, t := Hex(a), Hex(b);
      assert s[0] == t[0] && s[1] == t[1];
      assert s[2..] == Hex(a[1..]) && t[2..] == Hex(b[1..]);
      HexInjective(a[1..], b[1..]);
      assert a == [a[0]] + a[1..] && b == [b[0]] + b[1..];
    }
  }

  function HexValue(c: char): int {
    if '0' <= c <= '9' then c as int - '0' as int else c as int - 'a' as int + 10
  }

  /** Byte i is written as its two hex digits, the high one first. */
  lemma {:induction false} HexReads(d: seq<Byte>, i: nat)
    requires i < |d|
    ensures HexValue(Hex(d)[2 * i]) * 16 + HexValue(Hex(d)[2 * i + 1]) == d[i]
  {
    if i > 0 {
      HexReads(d[1..], i - 1);
      assert Hex(d)[2..] == Hex(d[1..]);
      assert Hex(d)[2 * i] == Hex(d)[2..][2 * (i - 1)] && Hex(d)[2 * i + 1] == Hex(d)[2..][2 * (i - 1) + 1];
    }
  }

  /** Two different byte strings with one digest: what SHA-256 is trusted never to show. */
  predicate Collides(sha: Sha, x: string, y: string) {
    x != y && sha(x) == sha(y)
  }

  // ---- entries and their encoding ------------------------------------------------

  const MAX_INT64: int := 0x7fff_ffff_ffff_ffff
  const TWO_64: int := 0x1_0000_0000_0000_0000
  type Int64 = i: int | -0x8000_0000_0000_0000 <= i <= MAX_INT64

  /** i + 1 on a Go int64, which wraps. */
  function Succ(i: Int64): Int64 {
    if i == MAX_INT64 then -0x8000_0000_0000_0000 else i + 1
  }

  /** `at` is the instant as its RFC 3339 text in UTC, which is what is hashed. */
  datatype Entry = Entry(
    seqno: Int64, at: string, actor: string, action: string, deviceId: string, detail: string,
    prevHash: string, entryHash: string)

  const DOMAIN := "defendsec-audit-v1"
  const CHECKPOINT_DOMAIN := "defendsec-audit-checkpoint-v1"
  const HEADER := DOMAIN + "\n"
  const CHECKPOINT_HEADER := CHECKPOINT_DOMAIN + "\n"
  const GENESIS := ""

  function Field(s: string): string {
    Decimal(|s|) + ":" + s + "\n"
  }

  function Fields(fs: seq<string>): string {
    if fs == [] then "" else Field(fs[0]) + Fields(fs[1..])
  }

  function HashedFields(e: Entry): seq<string> {
    [FormatInt(e.seqno), e.at, e.actor, e.action, e.deviceId, e.detail]
  }

  function Canonical(e: Entry): string {
    HEADER + Fields(HashedFields(e))
  }

  predicate SameHashedFields(e: Entry, f: Entry) {
    e.seqno == f.seqno && e.at == f.at && e.actor == f.actor && e.action == f.action &&
    e.deviceId == f.deviceId && e.detail == f.detail
  }

  /** bytes.Buffer, as far as the encoders use it. */
  class Buffer {
    var data: string

    constructor ()
      ensures data == ""
    {
      data := "";
    }

    method WriteString(s: string)
      modifies this
      ensures data == old(data) + s
    {
      data := data + s;
    }
  }

  method WriteField(b: Buffer, s: string)
    modifies b
    ensures b.data == old(b.data) + Field(s)
  {
    b.WriteString(Decimal(|s|));
    b.WriteString(":");
    b.WriteString(s);
    b.WriteString("\n");
  }

  lemma Associative(a: string, b: string, c: string)
    ensures a + (b + c) == a + b + c
  {
  }

  lemma {:induction false} FieldsSnoc(fs: seq<string>, s: string)
    ensures Fields(fs + [s]) == Fields(fs) + Field(s)
  {
    if fs == [] {
      assert fs + [s] == [s];
      assert Fields([s][1..]) == "";
    } else {
      FieldsSnoc(fs[1..], s);
      assert (fs + [s])[1..] == fs[1..] + [s];
      Associative(Field(fs[0]), Fields(fs[1..]), Field(s));
    }
  }

  /** Writes field i of a record whose header and earlier fields are in the buffer. */
  method WriteNext(b: Buffer, ghost header: string, ghost fs: seq<string>, ghost i: nat, s: string)
    requires i < |fs| && s == fs[i] && b.data == header + Fields(fs[..i])
    modifies b
    ensures b.data == header + Fields(fs[..i + 1])
  {
    WriteField(b, s);
    FieldsSnoc(fs[..i], fs[i]);
    assert fs[..i + 1] == fs[..i] + [fs[i]];
    Associative(header, Fields(fs[..i]), Field(fs[i]));
  }

  method RenderCanonical(e: Entry) returns (bytes: string)
    ensures bytes == Canonical(e)
  {
    var b := new Buffer();
    b.WriteString(HEADER);
    ghost var fs := HashedFields(e);
    assert |fs| == 6 && fs[..3] == [FormatInt(e.seqno), e.at, e.actor] && fs[3..] == [e.action, e.deviceId, e.detail];
    WriteThree(b, HEADER, fs, 0, FormatInt(e.seqno), e.at, e.actor);
    WriteThree(b, HEADER, fs, 3, e.action, e.deviceId, e.detail);
    assert fs[..6] == fs;
    bytes := b.data;
  }

  /** Three fields, one after the other. */
  method WriteThree(
    b: Buffer, ghost header: string, ghost fs: seq<string>, ghost i: nat, s: string, t: string, u: string)
    requires i + 2 < |fs| && s == fs[i] && t == fs[i + 1] && u == fs[i + 2] && b.data == header + Fields(fs[..i])
    modifies b
    ensures b.data == header + Fields(fs[..i + 3])
  {
    WriteNext(b, header, fs, i, s);
    WriteNext(b, header, fs, i + 1, t);
    WriteNext(b, header, fs, i + 2, u);
  }

  lemma UpToColon(u: string, m: string, n: string)
    requires |m| < |u| && u[..|m|] == m && u[|m|] == ':' && ':' !in m
    requires |n| < |u| && u[..|n|] == n && u[|n|] == ':' && ':' !in n
    ensures m == n
  {
    assert forall i :: 0 <= i < |m| ==> u[i] == m[i];
    assert forall i :: 0 <= i < |n| ==> u[i] == n[i];
  }

  /** A length-prefixed field is read back whole, whatever follows it and whatever bytes it holds. */
  lemma FieldPrefixFree(s: string, t: string, x: string, y: string)
    requires Field(s) + x == Field(t) + y
    ensures s == t && x == y
  {
    var m, n := Decimal(|s|), Decimal(|t|);
    var u, v := Field(s) + x, Field(t) + y;
    assert u[..|m|] == m && v[..|n|] == n && u[|m|] == ':' && v[|n|] == ':';
    UpToColon(u, m, n);
    DecimalRoundTrip(|s|);
    DecimalRoundTrip(|t|);
    var k := |m| + 1;
    assert s == u[k..k + |s|] == v[k..k + |s|] == t;
    assert x == u[k + |s| + 1..] == v[k + |s| + 1..] == y;
  }

  // ---- reading an encoding back ----------------------------------------------------------------

  /** Where the first colon stands, or the end. */
  function FirstColon(s: string): (k: nat)
    ensures k <= |s|
  {
    if s == "" || s[0] == ':' then 0 else 1 + FirstColon(s[1..])
  }

  /** A field and what follows it: the decimal length, a colon, as many bytes and a newline. */
  function ReadField(s: string): Option<(string, string)> {
    var k := FirstColon(s);
    var n := Value(s[..k]);
    if 0 <= n && k + 1 + n < |s| && s[k + 1 + n] == '\n' then Some((s[k + 1..k + 1 + n], s[k + 2 + n..])) else None
  }

  function ReadFields(s: string, n: nat): Option<seq<string>> {
    if n == 0 then (if s == "" then Some([]) else None)
    else
      match ReadField(s)
      case None => None
      case Some((field, rest)) =>
        match ReadFields(rest, n - 1)
        case None => None
        case Some(fields) => Some([field] + fields)
  }

  lemma {:induction false} ColonBehind(m: string, t: string)
    requires ':' !in m
    ensures FirstColon(m + [':'] + t) == |m|
  {
    var w := m + [':'] + t;
    if m != "" {
      assert w[0] == m[0] && m[0] in m && w[1..] == m[1..] + [':'] + t;
      ColonBehind(m[1..], t);
    }
  }

  lemma FieldReadBack(s: string, x: string)
    ensures ReadField(Field(s) + x) == Some((s, x))
  {
    var m := Decimal(|s|);
    var w := Field(s) + x;
    assert w == m + [':'] + (s + ['\n'] + x);
    ColonBehind(m, s + ['\n'] + x);
    DecimalRoundTrip(|s|);
    var k := |m|;
    assert w[..k] == m && w[k + 1..] == s + ['\n'] + x;
    assert w[k + 1..k + 1 + |s|] == s && w[k + 1 + |s|] == '\n' && w[k + 2 + |s|..] == x;
  }

  lemma {:induction false} FieldsReadBack(fs: seq<string>)
    ensures ReadFields(Fields(fs), |fs|) == Some(fs)
  {
    if fs != [] {
      FieldsReadBack(fs[1..]);
      NextReadBack(fs[0], fs[1..]);
      assert fs == [fs[0]] + fs[1..];
    }
  }

  lemma NextReadBack(f: string, rest: seq<string>)
    requires ReadFields(Fields(rest), |rest|) == Some(rest)
    ensures ReadFields(Field(f) + Fields(rest), |rest| + 1) == Some([f] + rest)
  {
    FieldReadBack(f, Fields(rest));
  }

  /** What is hashed of an entry reads back as its sequence number, time, actor, action, device and detail, in this
      order, behind the domain line. */
  lemma EncodingReadBack(e: Entry)
    ensures Canonical(e)[..|HEADER|] == HEADER
    ensures ReadFields(Canonical(e)[|HEADER|..], 6) ==
      Some([FormatInt(e.seqno), e.at, e.actor, e.action, e.deviceId, e.detail])
  {
    FieldsReadBack(HashedFields(e));
    HeaderThen(HEADER, Fields(HashedFields(e)));
  }

  lemma HeaderThen(header: string, rest: string)
    ensures (header + rest)[..|header|] == header && (header + rest)[|header|..] == rest
  {
  }

  lemma {:induction false} FieldsInjective(fs: seq<string>, gs: seq<string>)
    requires |fs| == |gs| && Fields(fs) == Fields(gs)
    ensures fs == gs
  {
    if fs != [] {
      FieldPrefixFree(fs[0], gs[0], Fields(fs[1..]), Fields(gs[1..]));
      FieldsInjective(fs[1..], gs[1..]);
      assert fs == [fs[0]] + fs[1..] && gs == [gs[0]] + gs[1..];
    }
  }

  lemma CanonicalInjective(e: Entry, f: Entry)
    requires Canonical(e) == Canonical(f)
    ensures SameHashedFields(e, f)
  {
    assert Fields(HashedFields(e)) == Canonical(e)[|HEADER|..] == Canonical(f)[|HEADER|..] == Fields(HashedFields(f));
    FieldsInjective(HashedFields(e), HashedFields(f));
    var a, b := HashedFields(e), HashedFields(f);
    assert a[0] == b[0] && a[1] == b[1] && a[2] == b[2] && a[3] == b[3] && a[4] == b[4] && a[5] == b[5];
    FormatIntInjective(e.seqno, f.seqno);
  }

  // ---- the hash preimage -----------------------------------------------------------

  /** What a previous hash can be: nothing, or 64 hex characters. */
  predicate WellFormedPrev(p: string) {
    p == "" || (|p| == 64 && forall i :: 0 <= i < 64 ==> IsHex(p[i]))
  }

  function Preimage(prev: string, e: Entry): string {
    prev + Canonical(e)
  }

  function ComputeHash(sha: Sha, prev: string, e: Entry): (h: string)
    ensures h != "" && WellFormedPrev(h)
  {
    Hex(sha(Preimage(prev, e)))
  }

  /** The previous hash carries no length prefix; it does not need one, because
      "defendsec" is not a hex string. */
  lemma PreimageInjective(p: string, e: Entry, q: string, f: Entry)
    requires WellFormedPrev(p) && WellFormedPrev(q)
    requires Preimage(p, e) == Preimage(q, f)
    ensures p == q && SameHashedFields(e, f)
  {
    var x, y := Preimage(p, e), Preimage(q, f);
    assert p == "" ==> x[4] == 'n' by { assert p == "" ==> x == Canonical(e); }
    assert q == "" ==> y[4] == 'n' by { assert q == "" ==> y == Canonical(f); }
    assert p != "" ==> IsHex(x[4]);
    assert q != "" ==> IsHex(y[4]);
    assert |p| == |q|;
    assert p == x[..|p|] == y[..|q|] == q;
    assert Canonical(e) == x[|p|..] == y[|q|..] == Canonical(f);
    CanonicalInjective(e, f);
  }

  /** Equal entry hashes mean equal predecessors and equal contents, unless SHA-256 collided. */
  lemma EqualHashes(sha: Sha, p: string, e: Entry, q: string, f: Entry)
    requires WellFormedPrev(p) && WellFormedPrev(q)
    requires ComputeHash(sha, p, e) == ComputeHash(sha, q, f)
    ensures (p == q && SameHashedFields(e, f)) || Collides(sha, Preimage(p, e), Preimage(q, f))
  {
    HexInjective(sha(Preimage(p, e)), sha(Preimage(q, f)));
    if Preimage(p, e) == Preimage(q, f) {
      PreimageInjective(p, e, q, f);
    }
  }

  function Link(sha: Sha, prev: string, e: Entry): Entry {
    e.(prevHash := prev, entryHash := ComputeHash(sha, prev, e))
  }

  // ---- verification -------------------------------------------------------------------

  datatype Reason =
    | SequenceJumped(last: Int64)
    | PrevHashMismatch
    | EntryHashMismatch
    | NotAtOne
    | NoEntries(through: Int64)
    | CheckpointHashMismatch

  datatype Error =
    | Tamper(seqno: Int64, actor: string, action: string, at: string, reason: Reason)
    | BadSignature(through: Int64)
    | WrongEnd(covers: Int64, ends: Int64)

  function TamperAt(e: Entry, reason: Reason): Error {
    Tamper(e.seqno, e.actor, e.action, e.at, reason)
  }

  /** The hash entry i has to name as its predecessor. */
  function PrevAt(prev: string, es: seq<Entry>, i: nat): string
    requires i <= |es|
  {
    if i == 0 then prev else es[i - 1].entryHash
  }

  /** What is wrong with entry i of a range that follows prev, given the entry before it. */
  function Fault(sha: Sha, prev: string, es: seq<Entry>, i: nat): Option<Reason>
    requires i < |es|
  {
    if i > 0 && es[i].seqno != Succ(es[i - 1].seqno) then Some(SequenceJumped(es[i - 1].seqno))
    else if es[i].prevHash != PrevAt(prev, es, i) then Some(PrevHashMismatch)
    else if es[i].entryHash != ComputeHash(sha, PrevAt(prev, es, i), es[i]) then Some(EntryHashMismatch)
    else None
  }

  /** A row is faulted for its number exactly if it does not follow that of the row before; else for its previous
      hash exactly if that is not the hash of the row before; else for its own hash exactly if that is not the digest
      of both. */
  lemma FaultMeans(sha: Sha, prev: string, es: seq<Entry>, i: nat)
    requires i < |es|
    ensures var before := if i == 0 then prev else es[i - 1].entryHash;
      var jumped := i > 0 && es[i].seqno != Succ(es[i - 1].seqno);
      var hash := Hex(sha(before + Canonical(es[i])));
      var fault := Fault(sha, prev, es, i);
      (jumped <==> fault.Some? && fault.value.SequenceJumped?) &&
      (fault == Some(PrevHashMismatch) <==> !jumped && es[i].prevHash != before) &&
      (fault == Some(EntryHashMismatch) <==> !jumped && es[i].prevHash == before && es[i].entryHash != hash)
  {
  }

  ghost predicate Linked(sha: Sha, prev: string, es: seq<Entry>) {
    forall i :: 0 <= i < |es| ==> Fault(sha, prev, es, i).None?
  }

  /** Verification stops at entry i: it is faulty and nothing before it is. */
  ghost predicate FirstFault(sha: Sha, prev: string, es: seq<Entry>, i: nat) {
    i < |es| && Fault(sha, prev, es, i).Some? &&
    forall j :: 0 <= j < i ==> Fault(sha, prev, es, j).None?
  }

  /** The error names entry i and what is wrong with it. */
  ghost predicate StopsAt(sha: Sha, prev: string, es: seq<Entry>, i: nat, err: Error) {
    FirstFault(sha, prev, es, i) && err == TamperAt(es[i], Fault(sha, prev, es, i).value)
  }

  method VerifyFrom(sha: Sha, prevHash: string, entries: seq<Entry>) returns (err: Option<Error>)
    ensures err.None? <==> Linked(sha, prevHash, entries)
    ensures err.Some? ==> exists i: nat :: StopsAt(sha, prevHash, entries, i, err.value)
  {
    var prev, last := prevHash, 0;
    for i := 0 to |entries|
      invariant prev == PrevAt(prevHash, entries, i)
      invariant i > 0 ==> last == entries[i - 1].seqno
      invariant forall j :: 0 <= j < i ==> Fault(sha, prevHash, entries, j).None?
    {
      var e := entries[i];
      assert Fault(sha, prevHash, entries, i).Some? ==>
          StopsAt(sha, prevHash, entries, i, TamperAt(e, Fault(sha, prevHash, entries, i).value));
      if i > 0 && e.seqno != Succ(last) {
        return Some(TamperAt(e, SequenceJumped(last)));
      }
      if e.prevHash != prev {
        return Some(TamperAt(e, PrevHashMismatch));
      }
      if e.entryHash != ComputeHash(sha, prev, e) {
        return Some(TamperAt(e, EntryHashMismatch));
      }
      prev := e.entryHash;
      last := e.seqno;
    }
    return None;
  }

  ghost predicate Accepted(sha: Sha, es: seq<Entry>) {
    es != [] ==> es[0].seqno == 1 && Linked(sha, GENESIS, es)
  }

  method Verify(sha: Sha, entries: seq<Entry>) returns (err: Option<Error>)
    ensures err.None? <==> Accepted(sha, entries)
    ensures err.Some? ==> entries != []
    ensures err.Some? && entries[0].seqno != 1 ==> err.value == TamperAt(entries[0], NotAtOne)
    ensures err.Some? && entries[0].seqno == 1 ==> exists i: nat :: StopsAt(sha, GENESIS, entries, i, err.value)
  {
    if |entries| == 0 {
      return None;
    }
    if entries[0].seqno != 1 {
      return Some(TamperAt(entries[0], NotAtOne));
    }
    err := VerifyFrom(sha, GENESIS, entries);
  }

  // ---- tamper evidence -------------------------------------------------------------------

  /** SHA-256 collided on the preimages of entry i of one range and entry j of another. */
  predicate ClashAt(sha: Sha, p: string, a: seq<Entry>, q: string, b: seq<Entry>, i: nat, j: nat)
    requires i < |a| && j < |b|
  {
    Collides(sha, Preimage(PrevAt(p, a, i), a[i]), Preimage(PrevAt(q, b, j), b[j]))
  }

  /** A collision among the very strings the two ranges hash. */
  ghost predicate Clash(sha: Sha, p: string, a: seq<Entry>, q: string, b: seq<Entry>) {
    exists i, j :: 0 <= i < |a| && 0 <= j < |b| && ClashAt(sha, p, a, q, b, i, j)
  }

  /** Entry i names the hash before it and has the hash of its contents; its sequence number aside, it
      links. */
  predicate Hashes(sha: Sha, prev: string, es: seq<Entry>, i: nat)
    requires i < |es|
  {
    es[i].prevHash == PrevAt(prev, es, i) && es[i].entryHash == ComputeHash(sha, PrevAt(prev, es, i), es[i])
  }

  ghost predicate Chained(sha: Sha, prev: string, es: seq<Entry>) {
    forall i :: 0 <= i < |es| ==> Hashes(sha, prev, es, i)
  }

  lemma LinkedIsChained(sha: Sha, prev: string, es: seq<Entry>)
    requires Linked(sha, prev, es)
    ensures Chained(sha, prev, es)
  {
    forall i | 0 <= i < |es| ensures Hashes(sha, prev, es, i) { assert Fault(sha, prev, es, i).None?; }
  }

  /** Two entries with one hash are equal and follow equal hashes, unless their preimages collide. */
  lemma AgreeOnce(sha: Sha, p: string, a: seq<Entry>, q: string, b: seq<Entry>, i: nat, j: nat)
    requires WellFormedPrev(p) && WellFormedPrev(q)
    requires Chained(sha, p, a) && Chained(sha, q, b)
    requires i < |a| && j < |b| && a[i].entryHash == b[j].entryHash
    ensures ClashAt(sha, p, a, q, b, i, j) || (a[i] == b[j] && PrevAt(p, a, i) == PrevAt(q, b, j))
  {
    var pa, pb := PrevAt(p, a, i), PrevAt(q, b, j);
    assert Hashes(sha, p, a, i) && Hashes(sha, q, b, j);
    assert WellFormedPrev(pa) by { if i > 0 { assert Hashes(sha, p, a, i - 1); } }
    assert WellFormedPrev(pb) by { if j > 0 { assert Hashes(sha, q, b, j - 1); } }
    EqualHashes(sha, pa, a[i], pb, b[j]);
  }

  /** Walking back from two entries with one hash: everything behind them agrees. */
  lemma {:induction false} AgreeBackwards(
    sha: Sha, p: string, a: seq<Entry>, q: string, b: seq<Entry>, i: nat, j: nat)
    requires WellFormedPrev(p) && WellFormedPrev(q)
    requires Chained(sha, p, a) && Chained(sha, q, b)
    requires i <= j && i < |a| && j < |b| && a[i].entryHash == b[j].entryHash
    ensures Clash(sha, p, a, q, b) || (a[..i + 1] == b[j - i..j + 1] && p == PrevAt(q, b, j - i))
  {
    AgreeOnce(sha, p, a, q, b, i, j);
    if ClashAt(sha, p, a, q, b, i, j) {
      assert Clash(sha, p, a, q, b);
    } else if i == 0 {
      assert a[..1] == [a[0]] && b[j..j + 1] == [b[j]];
    } else {
      AgreeBackwards(sha, p, a, q, b, i - 1, j - 1);
      SlicesAgree(a, b, i, j);
    }
  }

  lemma SlicesAgree<T>(a: seq<T>, b: seq<T>, i: nat, j: nat)
    requires i <= j && i < |a| && j < |b| && a[i] == b[j]
    ensures a[..i] == b[j - i..j] ==> a[..i + 1] == b[j - i..j + 1]
  {
    SliceSnoc(a, 0, i);
    SliceSnoc(b, j - i, j);
  }

  lemma SliceSnoc<T>(s: seq<T>, lo: nat, hi: nat)
    requires lo <= hi < |s|
    ensures s[lo..hi + 1] == s[lo..hi] + [s[hi]]
  {
  }

  lemma ClashSymmetric(sha: Sha, p: string, a: seq<Entry>, q: string, b: seq<Entry>)
    requires Clash(sha, q, b, p, a)
    ensures Clash(sha, p, a, q, b)
  {
    var j, i :| 0 <= j < |b| && 0 <= i < |a| && ClashAt(sha, q, b, p, a, j, i);
    assert ClashAt(sha, p, a, q, b, i, j);
  }

  /** Equal hashes from the genesis on are reached only at equal positions. */
  lemma PrefixFixedByHash(sha: Sha, a: seq<Entry>, b: seq<Entry>, i: nat, j: nat)
    requires Chained(sha, GENESIS, a) && Chained(sha, GENESIS, b)
    requires i < |a| && j < |b| && a[i].entryHash == b[j].entryHash
    ensures (i == j && a[..i + 1] == b[..i + 1]) || Clash(sha, GENESIS, a, GENESIS, b)
    decreases if j < i then 1 else 0
  {
    if j < i {
      PrefixFixedByHash(sha, b, a, j, i);
      if Clash(sha, GENESIS, b, GENESIS, a) { ClashSymmetric(sha, GENESIS, a, GENESIS, b); }
    } else {
      assert i < j ==> PrevAt(GENESIS, b, j - i) != GENESIS by {
        if i < j { assert Hashes(sha, GENESIS, b, j - i - 1); }
      }
      AgreeBackwards(sha, GENESIS, a, GENESIS, b, i, j);
    }
  }

  /** Two chains from the genesis that end in the same hash are the same log, or SHA-256 collided on two
      strings they hash. It takes the hashes alone: sequence numbers are among what they cover. */
  lemma ChainFixedByLastHash(sha: Sha, a: seq<Entry>, b: seq<Entry>)
    requires a != [] && b != []
    requires Chained(sha, GENESIS, a) && Chained(sha, GENESIS, b)
    requires a[|a| - 1].entryHash == b[|b| - 1].entryHash
    ensures a == b || Clash(sha, GENESIS, a, GENESIS, b)
  {
    PrefixFixedByHash(sha, a, b, |a| - 1, |b| - 1);
    assert a[..|a|] == a && b[..|b|] == b;
  }

  /** Two accepted logs that end in the same hash are the same log, or SHA-256 collided on two
      strings they hash. */
  lemma TamperEvidence(sha: Sha, a: seq<Entry>, b: seq<Entry>)
    requires a != [] && b != []
    requires Accepted(sha, a) && Accepted(sha, b)
    requires a[|a| - 1].entryHash == b[|b| - 1].entryHash
    ensures a == b || Clash(sha, GENESIS, a, GENESIS, b)
  {
    LinkedIsChained(sha, GENESIS, a);
    LinkedIsChained(sha, GENESIS, b);
    ChainFixedByLastHash(sha, a, b);
  }

  // ---- building, joining and damaging a chain ------------------------------------------------

  function LastHash(prev: string, es: seq<Entry>): string {
    PrevAt(prev, es, |es|)
  }

  /** A concatenation verifies exactly when both parts do and hash and sequence join up. */
  lemma LinkedConcat(sha: Sha, p: string, a: seq<Entry>, b: seq<Entry>)
    ensures Linked(sha, p, a + b) <==>
            Linked(sha, p, a) && Linked(sha, LastHash(p, a), b) && Joins(a, b)
  {
    if Linked(sha, p, a + b) { PartsLinked(sha, p, a, b); }
    if Linked(sha, p, a) && Linked(sha, LastHash(p, a), b) && Joins(a, b) { JoinLinked(sha, p, a, b); }
  }

  /** The sequence goes on from a to b. */
  predicate Joins(a: seq<Entry>, b: seq<Entry>) {
    a != [] && b != [] ==> b[0].seqno == Succ(a[|a| - 1].seqno)
  }

  lemma PartsLinked(sha: Sha, p: string, a: seq<Entry>, b: seq<Entry>)
    requires Linked(sha, p, a + b)
    ensures Linked(sha, p, a) && Linked(sha, LastHash(p, a), b) && Joins(a, b)
  {
    forall i | 0 <= i < |a| ensures Fault(sha, p, a, i).None? {
      FaultInFront(sha, p, a, b, i);
      assert Fault(sha, p, a + b, i).None?;
    }
    forall i | 0 <= i < |b| ensures Fault(sha, LastHash(p, a), b, i).None? {
      FaultBehind(sha, p, a, b, i);
      assert Fault(sha, p, a + b, |a| + i).None?;
    }
    if b != [] {
      FaultBehind(sha, p, a, b, 0);
      assert Fault(sha, p, a + b, |a|).None?;
    }
  }

  lemma JoinLinked(sha: Sha, p: string, a: seq<Entry>, b: seq<Entry>)
    requires Linked(sha, p, a) && Linked(sha, LastHash(p, a), b) && Joins(a, b)
    ensures Linked(sha, p, a + b)
  {
    forall i | 0 <= i < |a + b| ensures Fault(sha, p, a + b, i).None? {
      if i < |a| {
        FaultInFront(sha, p, a, b, i);
        assert Fault(sha, p, a, i).None?;
      } else {
        FaultBehind(sha, p, a, b, i - |a|);
        assert Fault(sha, LastHash(p, a), b, i - |a|).None?;
      }
    }
  }

  lemma FaultInFront(sha: Sha, p: string, a: seq<Entry>, b: seq<Entry>, i: nat)
    requires i < |a|
    ensures Fault(sha, p, a + b, i) == Fault(sha, p, a, i)
  {
  }

  lemma FaultBehind(sha: Sha, p: string, a: seq<Entry>, b: seq<Entry>, i: nat)
    requires i < |b|
    ensures Fault(sha, p, a + b, |a| + i).None? <==>
      Fault(sha, LastHash(p, a), b, i).None? && (i == 0 && a != [] ==> b[0].seqno == Succ(a[|a| - 1].seqno))
  {
    assert (a + b)[|a| + i] == b[i];
    assert PrevAt(p, a + b, |a| + i) == PrevAt(LastHash(p, a), b, i);
  }

  /** One append, as the store does it: the next sequence number, linked to the last hash. */
  function Append(sha: Sha, log: seq<Entry>, draft: Entry): seq<Entry> {
    var last: Int64 := if log == [] then 0 else log[|log| - 1].seqno;
    log + [Link(sha, LastHash(GENESIS, log), draft.(seqno := Succ(last)))]
  }

  function AppendAll(sha: Sha, log: seq<Entry>, drafts: seq<Entry>): seq<Entry>
    decreases drafts
  {
    if drafts == [] then log else AppendAll(sha, Append(sha, log, drafts[0]), drafts[1..])
  }

  /** Whatever is appended to an accepted log, it stays accepted and keeps what it had. */
  lemma {:induction false} AppendsAccepted(sha: Sha, log: seq<Entry>, drafts: seq<Entry>)
    requires Accepted(sha, log)
    ensures Accepted(sha, AppendAll(sha, log, drafts))
    ensures log <= AppendAll(sha, log, drafts) && |AppendAll(sha, log, drafts)| == |log| + |drafts|
    decreases drafts
  {
    if drafts != [] {
      var longer := Append(sha, log, drafts[0]);
      var e := longer[|log|];
      assert Fault(sha, LastHash(GENESIS, log), [e], 0).None?;
      LinkedConcat(sha, GENESIS, log, [e]);
      AppendsAccepted(sha, longer, drafts[1..]);
    }
  }

  /** Editing the hashed fields of one row, its stored hashes left alone, is reported at that row. */
  lemma ModifiedRowIsReported(sha: Sha, p: string, es: seq<Entry>, k: nat, e: Entry)
    requires WellFormedPrev(p) && Linked(sha, p, es) && k < |es|
    requires e.prevHash == es[k].prevHash && e.entryHash == es[k].entryHash
    requires !SameHashedFields(e, es[k])
    ensures FirstFault(sha, p, es[k := e], k) ||
            Collides(sha, Preimage(PrevAt(p, es, k), e), Preimage(PrevAt(p, es, k), es[k]))
  {
    var damaged := es[k := e];
    forall j | 0 <= j < k ensures Fault(sha, p, damaged, j).None? {
      FaultBefore(sha, p, es, k, e, j);
      assert Fault(sha, p, es, j).None?;
    }
    assert Fault(sha, p, es, k).None?;
    var prev := PrevAt(p, es, k);
    assert WellFormedPrev(prev) by { if k > 0 { assert Fault(sha, p, es, k - 1).None?; } }
    if Fault(sha, p, damaged, k).None? {
      EqualHashes(sha, prev, e, prev, es[k]);
    }
  }

  lemma FaultBefore(sha: Sha, p: string, es: seq<Entry>, k: nat, e: Entry, j: nat)
    requires j < k < |es|
    ensures Fault(sha, p, es[k := e], j) == Fault(sha, p, es, j)
  {
  }

  /** Deleting an interior row is reported at the row after it, as a jump. */
  lemma RemovedRowIsReported(sha: Sha, p: string, es: seq<Entry>, k: nat)
    requires Linked(sha, p, es) && 0 < k < |es| - 1
    ensures FirstFault(sha, p, es[..k] + es[k + 1..], k)
    ensures (es[..k] + es[k + 1..])[k] == es[k + 1]
    ensures Fault(sha, p, es[..k] + es[k + 1..], k) == Some(SequenceJumped(es[k - 1].seqno))
  {
    var damaged := es[..k] + es[k + 1..];
    assert forall j :: 0 <= j < k ==> Fault(sha, p, damaged, j) == Fault(sha, p, es, j);
    assert Fault(sha, p, es, k).None? && Fault(sha, p, es, k + 1).None?;
    assert damaged[k - 1] == es[k - 1] && damaged[k] == es[k + 1];
  }

  /** Truncation alone is invisible: every prefix of an accepted log is accepted. */
  lemma PrefixAccepted(sha: Sha, es: seq<Entry>, n: nat)
    requires Accepted(sha, es) && n <= |es|
    ensures Accepted(sha, es[..n])
  {
    forall i | 0 <= i < n ensures Fault(sha, GENESIS, es[..n], i).None? {
      assert Fault(sha, GENESIS, es, i).None?;
    }
  }

  // ---- sequence numbers ------------------------------------------------------------------------

  /** Sequence numbers count up modulo the width of an int64. */
  lemma {:induction false} SeqnoCounts(sha: Sha, p: string, es: seq<Entry>, i: nat)
    requires Linked(sha, p, es) && i < |es| && i < TWO_64
    ensures es[i].seqno == es[0].seqno + i || es[i].seqno == es[0].seqno + i - TWO_64
  {
    if i > 0 {
      SeqnoCounts(sha, p, es, i - 1);
      assert Fault(sha, p, es, i).None?;
    }
  }

  /** A Go slice holds fewer than 2^63 entries, so an accepted log numbers its entries 1, 2, 3, ... */
  lemma SeqnoIsPosition(sha: Sha, es: seq<Entry>, i: nat)
    requires Accepted(sha, es) && i < |es| <= MAX_INT64
    ensures es[i].seqno == i + 1
  {
    SeqnoCounts(sha, GENESIS, es, i);
  }

  // ---- checkpoints --------------------------------------------------------------------------------

  datatype Checkpoint = Checkpoint(
    throughSeq: Int64, entryHash: string, at: string, signingKeyId: string, signature: string)

  function CheckpointFields(c: Checkpoint): seq<string> {
    [FormatInt(c.throughSeq), c.entryHash, c.at, c.signingKeyId]
  }

  function CanonicalCheckpoint(c: Checkpoint): string {
    CHECKPOINT_HEADER + Fields(CheckpointFields(c))
  }

  method RenderCheckpoint(c: Checkpoint) returns (bytes: string)
    ensures bytes == CanonicalCheckpoint(c)
  {
    ghost var fs := CheckpointFields(c);
    var b := new Buffer();
    b.WriteString(CHECKPOINT_HEADER);
    WriteNext(b, CHECKPOINT_HEADER, fs, 0, FormatInt(c.throughSeq));
    WriteNext(b, CHECKPOINT_HEADER, fs, 1, c.entryHash);
    WriteNext(b, CHECKPOINT_HEADER, fs, 2, c.at);
    WriteNext(b, CHECKPOINT_HEADER, fs, 3, c.signingKeyId);
    assert fs[..4] == fs;
    bytes := b.data;
  }

  /** What is signed of a checkpoint reads back likewise. */
  lemma CheckpointReadBack(c: Checkpoint)
    ensures CanonicalCheckpoint(c)[..|CHECKPOINT_HEADER|] == CHECKPOINT_HEADER
    ensures ReadFields(CanonicalCheckpoint(c)[|CHECKPOINT_HEADER|..], 4) ==
      Some([FormatInt(c.throughSeq), c.entryHash, c.at, c.signingKeyId])
  {
    FieldsReadBack(CheckpointFields(c));
    HeaderThen(CHECKPOINT_HEADER, Fields(CheckpointFields(c)));
  }

  /** Signing different checkpoints signs different messages. */
  lemma CheckpointInjective(c: Checkpoint, d: Checkpoint)
    requires CanonicalCheckpoint(c) == CanonicalCheckpoint(d)
    ensures c.(signature := d.signature) == d
  {
    var h := CHECKPOINT_HEADER;
    var a, b := CheckpointFields(c), CheckpointFields(d);
    assert Fields(a) == CanonicalCheckpoint(c)[|h|..] == CanonicalCheckpoint(d)[|h|..] == Fields(b);
    FieldsInjective(a, b);
    assert a[0] == b[0] && a[1] == b[1] && a[2] == b[2] && a[3] == b[3];
    FormatIntInjective(c.throughSeq, d.throughSeq);
  }

  /** A signed checkpoint is never the preimage of an entry hash. */
  lemma DomainsSeparate(p: string, e: Entry, c: Checkpoint)
    requires WellFormedPrev(p)
    ensures Preimage(p, e) != CanonicalCheckpoint(c)
  {
    var x, y := Preimage(p, e), CanonicalCheckpoint(c);
    assert y[4] == 'n' && y[16] == 'c';
    if p == "" {
      assert x == Canonical(e);
      assert x[16] == 'v';
    } else {
      assert IsHex(x[4]);
    }
  }

  /** ed25519.Verify under the control key, after base64: any relation on message and signature. */
  type Verifier = (string, string) -> bool

  /** The range is linked and ends at the sequence and hash the signed checkpoint names. */
  ghost predicate Attested(sha: Sha, ok: Verifier, p: string, es: seq<Entry>, c: Checkpoint) {
    ok(CanonicalCheckpoint(c), c.signature) && Linked(sha, p, es) && es != [] &&
    es[|es| - 1].seqno == c.throughSeq && es[|es| - 1].entryHash == c.entryHash
  }

  method VerifyAgainstCheckpoint(sha: Sha, ok: Verifier, prevHash: string, entries: seq<Entry>, c: Checkpoint)
    returns (err: Option<Error>)
    ensures err.None? <==> Attested(sha, ok, prevHash, entries, c)
    ensures !ok(CanonicalCheckpoint(c), c.signature) ==> err == Some(BadSignature(c.throughSeq))
    ensures ok(CanonicalCheckpoint(c), c.signature) && !Linked(sha, prevHash, entries) ==>
              err.Some? && exists i: nat :: StopsAt(sha, prevHash, entries, i, err.value)
    ensures ok(CanonicalCheckpoint(c), c.signature) && entries == [] ==>
              err == Some(Tamper(c.throughSeq, "", "", c.at, NoEntries(c.throughSeq)))
    ensures ok(CanonicalCheckpoint(c), c.signature) && entries != [] && Linked(sha, prevHash, entries) ==>
              var last := entries[|entries| - 1];
              err == if last.seqno != c.throughSeq then Some(WrongEnd(c.throughSeq, last.seqno))
                     else if last.entryHash != c.entryHash then Some(TamperAt(last, CheckpointHashMismatch))
                     else None
  {
    var message := RenderCheckpoint(c);
    if !ok(message, c.signature) {
      return Some(BadSignature(c.throughSeq));
    }
    err := VerifyFrom(sha, prevHash, entries);
    if err.Some? {
      return;
    }
    if |entries| == 0 {
      return Some(Tamper(c.throughSeq, "", "", c.at, NoEntries(c.throughSeq)));
    }
    var last := entries[|entries| - 1];
    if last.seqno != c.throughSeq {
      return Some(WrongEnd(c.throughSeq, last.seqno));
    }
    if last.entryHash != c.entryHash {
      return Some(TamperAt(last, CheckpointHashMismatch));
    }
    return None;
  }

  /** One checkpoint attests one range: with the first sequence number fixed, the rows and the hash
      they start from are determined, or SHA-256 collided on two strings the ranges hash. */
  lemma CheckpointCommits(
    sha: Sha, ok: Verifier, p: string, a: seq<Entry>, q: string, b: seq<Entry>, c: Checkpoint)
    requires WellFormedPrev(p) && WellFormedPrev(q)
    requires |a| <= MAX_INT64 && |b| <= MAX_INT64
    requires Attested(sha, ok, p, a, c) && Attested(sha, ok, q, b, c)
    requires a[0].seqno == b[0].seqno
    ensures (a == b && p == q) || Clash(sha, p, a, q, b)
    decreases if |a| > |b| then 1 else 0
  {
    if |a| > |b| {
      CheckpointCommits(sha, ok, q, b, p, a, c);
      if Clash(sha, q, b, p, a) { ClashSymmetric(sha, p, a, q, b); }
    } else {
      var skipped := |b| - |a|;
      LinkedIsChained(sha, p, a);
      LinkedIsChained(sha, q, b);
      AgreeBackwards(sha, p, a, q, b, |a| - 1, |b| - 1);
      assert a[..|a|] == a;
      if !Clash(sha, p, a, q, b) {
        assert b[skipped] == a[0];
        SeqnoCounts(sha, q, b, skipped);
        assert skipped == 0;
        assert b[0..|b|] == b;
      }
    }
  }
}
