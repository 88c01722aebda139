/** The operations on the host store: lib/store.ts. */
module HostStore {
  import opened Wrappers
  import opened Text
  import opened Filtering

  // ---- values -----------------------------------------------------------------------

  datatype FimFile = FimFile(path: string, sha256: string)
  datatype FimEvent = FimEvent(
    deviceId: string, hostname: string, path: string, previous: string, current: string, sample: bool)

  /** pending is how many updates the host reports as outstanding. */
  datatype Device = Device(
    id: string, nodeKey: string, sample: bool, hostname: string, pending: nat,
    fim: seq<FimFile>, fimBaseline: seq<FimFile>)
  datatype Triage = Triage(key: string, status: string)
  datatype Data = Data(
    schema: nat, secret: string, devices: seq<Device>, fimEvents: seq<FimEvent>, triages: seq<Triage>)

  /** What a check-in says of the host's name, its updates and its files; an empty hostname keeps the old
      one, and so does what is missing. */
  datatype Payload = Payload(nodeKey: string, hostname: string, pending: Option<nat>, fim: Option<seq<FimFile>>)

  const MAX_EVENTS := 200
  const SCHEMA_VERSION := 2

  /** new Map(files.map(f => [f.path, f.sha256])).get(path): the last entry counts. */
  function HashOf(files: seq<FimFile>, path: string): Option<string> {
    if files == [] then None
    else if files[|files| - 1].path == path then Some(files[|files| - 1].sha256)
    else HashOf(files[..|files| - 1], path)
  }

  /** A reported file counts as changed if the last report had it under another, non-empty hash. */
  function Changed(d: Device, f: FimFile): bool {
    var last := HashOf(d.fim, f.path);
    last.Some? && last.value != "" && last.value != f.sha256
  }

  function EventFor(d: Device, f: FimFile): FimEvent
    requires Changed(d, f)
  {
    FimEvent(d.id, d.hostname, f.path, HashOf(d.fim, f.path).value, f.sha256, false)
  }

  /** The events of one report, in the order of the reported files. */
  function Changes(d: Device, files: seq<FimFile>): seq<FimEvent> {
    if files == [] then []
    else
      var f := files[|files| - 1];
      Changes(d, files[..|files| - 1]) + if Changed(d, f) then [EventFor(d, f)] else []
  }

  function Capped(events: seq<FimEvent>): seq<FimEvent> {
    if |events| <= MAX_EVENTS then events else events[..MAX_EVENTS]
  }

  /** The device after a report: the first non-empty one becomes its baseline. */
  function Reported(d: Device, files: seq<FimFile>): Device {
    d.(fim := files, fimBaseline := if d.fimBaseline == [] && files != [] then files else d.fimBaseline)
  }

  /** The device after the rest of a check-in. */
  function Updated(d: Device, p: Payload): Device {
    d.(hostname := if p.hostname == "" then d.hostname else p.hostname,
       pending := if p.pending.None? then d.pending else p.pending.value)
  }

  function NewDevice(id: string, nodeKey: string, hostname: string): Device {
    Device(id, nodeKey, false, hostname, 0, [], [])
  }

  /** What devices.find(...) looks for. */
  datatype Wanted = ByKey(nodeKey: string) | ById(id: string) | ByHost(hostname: string)

  predicate Matches(w: Wanted, d: Device) {
    match w
    case ByKey(k) => d.nodeKey == k
    case ById(i) => d.id == i
    case ByHost(h) => Lower(d.hostname) == Lower(h) && !d.sample
  }

  /** The first device wanted, or -1. */
  function Find(devices: seq<Device>, w: Wanted): (i: int)
    ensures -1 <= i < |devices| && (i >= 0 ==> Matches(w, devices[i]))
    ensures i < 0 ==> forall k :: 0 <= k < |devices| ==> !Matches(w, devices[k])
  {
    if devices == [] then -1
    else if Matches(w, devices[0]) then 0
    else
      var i := Find(devices[1..], w);
      assert devices == [devices[0]] + devices[1..];
      if i < 0 then -1 else i + 1
  }

  function IsLive(): Device -> bool {
    (d: Device) => !d.sample
  }

  function IsSample(): Device -> bool {
    (d: Device) => d.sample
  }

  function IsLiveEvent(): FimEvent -> bool {
    (e: FimEvent) => !e.sample
  }

  function IsOther(key: string): Triage -> bool {
    (t: Triage) => t.key != key
  }

  // ---- what each operation does to the data --------------------------------------------

  function CreatedStore(secret: string): Data {
    Data(SCHEMA_VERSION, secret, [], [], [])
  }

  function RotateResult(data: Data, secret: string): Data {
    data.(secret := secret)
  }

  /** None: the secret is wrong and nothing is written. A known live host is only stamped as seen. */
  function EnrollResult(data: Data, secret: string, hostname: string, id: string, nodeKey: string): Option<Data> {
    if secret != data.secret then None
    else if Find(data.devices, ByHost(hostname)) >= 0 then Some(data)
    else Some(data.(devices := data.devices + [NewDevice(id, nodeKey, hostname)]))
  }

  /** None: the node key is unknown and nothing is written. */
  function CheckinResult(data: Data, p: Payload): Option<Data> {
    var i := Find(data.devices, ByKey(p.nodeKey));
    if i < 0 then None
    else
      var d := Updated(data.devices[i], p);
      if p.fim.None? then Some(data.(devices := data.devices[i := d]))
      else Some(data.(devices := data.devices[i := Reported(d, p.fim.value)],
                      fimEvents := Capped(Changes(d, p.fim.value) + data.fimEvents)))
  }

  function AcceptResult(data: Data, id: string): Option<Data> {
    var i := Find(data.devices, ById(id));
    if i < 0 then None
    else Some(data.(devices := data.devices[i := data.devices[i].(fimBaseline := data.devices[i].fim)]))
  }

  /** The sample fleet and its events are replaced. */
  function WithSamples(data: Data, samples: seq<Device>, events: seq<FimEvent>): Data {
    data.(devices := Where(data.devices, IsLive()) + samples,
          fimEvents := Where(data.fimEvents, IsLiveEvent()) + events)
  }

  function ReplaceResult(data: Data, samples: seq<Device>, events: seq<FimEvent>): Data {
    WithSamples(data, samples, events).(schema := SCHEMA_VERSION)
  }

  function ClearResult(data: Data): Data {
    WithSamples(data, [], [])
  }

  function TriageResult(data: Data, t: Triage): Data {
    data.(triages := Where(data.triages, IsOther(t.key)) + [t])
  }

  predicate Stale(d: Device) {
    d.pending == 0 && d.fim == []
  }

  /** There are sample devices, and none of them has anything to show. */
  predicate StaleSamples(devices: seq<Device>) {
    var samples := Where(devices, IsSample());
    samples != [] && forall i :: 0 <= i < |samples| ==> Stale(samples[i])
  }

  predicate NeedsWork(data: Data, enabled: bool) {
    data.schema < SCHEMA_VERSION ||
    (if enabled then data.devices == [] || StaleSamples(data.devices) else Where(data.devices, IsSample()) != [])
  }

  /** None: the store is as it should be and nothing is written. */
  function EnsureResult(data: Data, enabled: bool, fleet: seq<Device>, events: seq<FimEvent>): Option<Data> {
    if !NeedsWork(data, enabled) then None
    else Some(if enabled then ReplaceResult(data, fleet, events) else ReplaceResult(data, [], []))
  }

  // ---- what the results mean ---------------------------------------------------------------

  /** b is a with its sample devices and events exchanged for these, and the live ones kept in order. */
  ghost predicate SamplesExchanged(a: Data, b: Data, samples: seq<Device>, events: seq<FimEvent>) {
    b.secret == a.secret && b.triages == a.triages &&
    (exists live :: Selected(a.devices, IsLive(), live) && b.devices == live + samples) &&
    (exists live :: Selected(a.fimEvents, IsLiveEvent(), live) && b.fimEvents == live + events)
  }

  lemma WithSamplesMeans(data: Data, b: Data, samples: seq<Device>, events: seq<FimEvent>)
    ensures SamplesExchanged(data, b, samples, events) <==> b == WithSamples(data, samples, events).(schema := b.schema)
  {
    WhereIsSelected(data.devices, IsLive());
    WhereIsSelected(data.fimEvents, IsLiveEvent());
    if SamplesExchanged(data, b, samples, events) {
      var live :| Selected(data.devices, IsLive(), live) && b.devices == live + samples;
      SelectedIsWhere(data.devices, IsLive(), live);
      var liveEvents :| Selected(data.fimEvents, IsLiveEvent(), liveEvents) && b.fimEvents == liveEvents + events;
      SelectedIsWhere(data.fimEvents, IsLiveEvent(), liveEvents);
    }
  }

  ghost predicate AllSamples(samples: seq<Device>, events: seq<FimEvent>) {
    (forall d :: d in samples ==> d.sample) && forall e :: e in events ==> e.sample
  }

  /** Clearing undoes a replacement, and a second replacement wipes out the first, exactly when what was
      brought in is marked as sample. */
  lemma ReplacementUndone(data: Data, samples: seq<Device>, events: seq<FimEvent>)
    ensures ClearResult(ReplaceResult(data, samples, events)) == ClearResult(data).(schema := SCHEMA_VERSION) <==>
      AllSamples(samples, events)
    ensures AllSamples(samples, events) ==> forall s, e ::
      ReplaceResult(ReplaceResult(data, samples, events), s, e) == ReplaceResult(data, s, e)
  {
    KeptTwice(data.devices, samples, IsLive());
    KeptTwice(data.fimEvents, events, IsLiveEvent());
    var once := ReplaceResult(data, samples, events);
    assert forall d: Device :: d.sample <==> !IsLive()(d);
    assert forall e: FimEvent :: e.sample <==> !IsLiveEvent()(e);
    var live, liveEvents := Where(once.devices, IsLive()), Where(once.fimEvents, IsLiveEvent());
    assert live + [] == live && liveEvents + [] == liveEvents;
    assert Where(data.devices, IsLive()) + [] == Where(data.devices, IsLive());
    assert Where(data.fimEvents, IsLiveEvent()) + [] == Where(data.fimEvents, IsLiveEvent());
  }

  /** What is kept of the elements kept and others is the elements kept, exactly when none of the others is. */
  lemma KeptTwice<T(!new)>(s: seq<T>, more: seq<T>, keep: T -> bool)
    ensures Where(Where(s, keep) + more, keep) == Where(s, keep) <==> forall x :: x in more ==> !keep(x)
  {
    var kept := Where(s, keep);
    WhereMembers(s, keep);
    WhereConcat(kept, more, keep);
    WhereAll(kept, keep);
    NoneKept(more, keep);
    assert |kept + Where(more, keep)| == |kept| + |Where(more, keep)|;
    assert kept + [] == kept;
  }

  lemma NoneKept<T(!new)>(s: seq<T>, keep: T -> bool)
    ensures Where(s, keep) == [] <==> forall x :: x in s ==> !keep(x)
  {
    WhereMembers(s, keep);
    if Where(s, keep) != [] { assert Where(s, keep)[0] in Where(s, keep); }
  }

  /** ensureStore settles the store: run again, it finds nothing to do, provided the fleet it brings in is
      one of samples and not all of them stale. */
  lemma EnsureSettles(data: Data, enabled: bool, fleet: seq<Device>, events: seq<FimEvent>)
    requires enabled ==> (forall d :: d in fleet ==> d.sample) && exists d :: d in fleet && !Stale(d)
    requires EnsureResult(data, enabled, fleet, events).Some?
    ensures EnsureResult(EnsureResult(data, enabled, fleet, events).value, enabled, fleet, events) == None
  {
    var live := Where(data.devices, IsLive());
    WhereMembers(data.devices, IsLive());
    WhereNone(live, IsSample());
    if enabled {
      WhereConcat(live, fleet, IsSample());
      WhereAll(fleet, IsSample());
      var d :| d in fleet && !Stale(d);
      var i :| 0 <= i < |fleet| && fleet[i] == d;
      assert Where(live + fleet, IsSample()) == fleet;
    } else {
      assert live + [] == live;
    }
  }

  ghost predicate OneEach(triages: seq<Triage>) {
    forall i, j :: 0 <= i < j < |triages| ==> triages[i].key != triages[j].key
  }

  /** b is a with t as its last entry and no other of t's key; the others are kept in order. */
  ghost predicate TriagePut(a: seq<Triage>, b: seq<Triage>, t: Triage) {
    exists rest :: Selected(a, IsOther(t.key), rest) && b == rest + [t]
  }

  /** What a triage does: its key has this status and no other, the rest is as it was, keys stay distinct,
      and only the last triage of a key counts. */
  lemma TriageMeans(data: Data, t: Triage)
    ensures var after := TriageResult(data, t);
      TriagePut(data.triages, after.triages, t) &&
      (forall u: Triage :: u in after.triages <==> u == t || (u in data.triages && u.key != t.key)) &&
      (OneEach(data.triages) ==> OneEach(after.triages)) &&
      forall u: Triage :: u.key == t.key ==> TriageResult(after, u) == TriageResult(data, u)
  {
    var rest := Where(data.triages, IsOther(t.key));
    WhereIsSelected(data.triages, IsOther(t.key));
    WhereMembers(data.triages, IsOther(t.key));
    if OneEach(data.triages) { OthersDistinct(data.triages, t.key); }
    forall u: Triage | u.key == t.key ensures TriageResult(TriageResult(data, t), u) == TriageResult(data, u) {
      WhereConcat(rest, [t], IsOther(t.key));
      WhereAll(rest, IsOther(t.key));
      WhereNone([t], IsOther(t.key));
      assert rest + [] == rest;
    }
  }

  lemma OthersDistinct(triages: seq<Triage>, key: string)
    requires OneEach(triages)
    ensures OneEach(Where(triages, IsOther(key)))
  {
    var at := WhereSelects(triages, IsOther(key));
    var rest := Where(triages, IsOther(key));
    forall i, j | 0 <= i < j < |rest| ensures rest[i].key != rest[j].key {
      assert at[i] < at[j];
    }
  }

  /** A host that enrols again under a name it is known by gets the device it has, and nothing changes. */
  lemma EnrolledOnce(
    data: Data, secret: string, hostname: string, id: string, nodeKey: string, again: string, id2: string, key2: string)
    requires EnrollResult(data, secret, hostname, id, nodeKey).Some? && Lower(again) == Lower(hostname)
    ensures var after := EnrollResult(data, secret, hostname, id, nodeKey).value;
      Find(after.devices, ByHost(again)) >= 0 && EnrollResult(after, secret, again, id2, key2) == Some(after)
  {
    var after := EnrollResult(data, secret, hostname, id, nodeKey).value;
    var i := Find(data.devices, ByHost(hostname));
    var k := if i >= 0 then i else |data.devices|;
    assert Matches(ByHost(again), after.devices[k]);
  }

  /** What ensureStore leaves, and when it writes nothing: samples disabled means that no sample device stays,
      samples enabled that there are devices, if there is a sample fleet at all; the live devices stay as they are
      and the schema is current. */
  lemma EnsureMeans(data: Data, enabled: bool, fleet: seq<Device>, events: seq<FimEvent>)
    requires forall d :: d in fleet ==> d.sample
    ensures var result := EnsureResult(data, enabled, fleet, events);
      var after := if result.Some? then result.value else data;
      (!enabled ==> forall d :: d in after.devices ==> !d.sample) &&
      (enabled && fleet != [] ==> after.devices != []) &&
      (forall d: Device :: !d.sample ==> (d in after.devices <==> d in data.devices)) &&
      after.schema >= SCHEMA_VERSION && after.secret == data.secret && after.triages == data.triages
    ensures EnsureResult(data, enabled, fleet, events) == None <==>
      data.schema >= SCHEMA_VERSION &&
      if enabled then data.devices != [] && (HasSample(data) ==> HasShowing(data)) else !HasSample(data)
  {
    WhereMembers(data.devices, IsLive());
    WhereMembers(data.devices, IsSample());
    NoneKept(data.devices, IsSample());
    SamplesMean(data);
    var live := Where(data.devices, IsLive());
    assert forall d :: d in live + fleet <==> d in live || d in fleet;
    assert live + [] == live;
  }

  ghost predicate HasSample(data: Data) {
    exists d :: d in data.devices && d.sample
  }

  /** Some sample has an update pending or a file to show. */
  ghost predicate HasShowing(data: Data) {
    exists d :: d in data.devices && d.sample && (d.pending != 0 || d.fim != [])
  }

  lemma SamplesMean(data: Data)
    ensures StaleSamples(data.devices) <==> HasSample(data) && !HasShowing(data)
    ensures Where(data.devices, IsSample()) != [] <==> HasSample(data)
  {
    var samples := Where(data.devices, IsSample());
    WhereMembers(data.devices, IsSample());
    if samples != [] { assert samples[0] in samples; }
    if d :| d in data.devices && d.sample && (d.pending != 0 || d.fim != []) {
      assert d in samples;
      var i :| 0 <= i < |samples| && samples[i] == d;
      assert !Stale(samples[i]);
    }
    if samples != [] && !StaleSamples(data.devices) {
      var i :| 0 <= i < |samples| && !Stale(samples[i]);
      assert samples[i] in samples;
    }
  }

  /** A check-in is refused exactly when no device has the key. Of the first that has, it changes the name unless
      none is given, the pending updates and the files unless they are missing, and an empty baseline to the files;
      every other device, the secret and the triages stay as they are. */
  lemma CheckinMeans(data: Data, p: Payload)
    ensures CheckinResult(data, p) == None <==> forall d :: d in data.devices ==> d.nodeKey != p.nodeKey
    ensures CheckinResult(data, p).Some? ==>
      var i, after := Find(data.devices, ByKey(p.nodeKey)), CheckinResult(data, p).value;
      0 <= i < |data.devices| == |after.devices| &&
      data.devices[i].nodeKey == p.nodeKey && (forall k :: 0 <= k < i ==> data.devices[k].nodeKey != p.nodeKey) &&
      (forall k :: 0 <= k < |data.devices| && k != i ==> after.devices[k] == data.devices[k]) &&
      CheckedIn(data.devices[i], after.devices[i], p) && after.secret == data.secret && after.triages == data.triages
  {
    FirstWanted(data.devices, ByKey(p.nodeKey));
    var i := Find(data.devices, ByKey(p.nodeKey));
    if i >= 0 {
      assert data.devices[i] in data.devices;
    } else {
      forall d | d in data.devices ensures d.nodeKey != p.nodeKey {
        var k :| 0 <= k < |data.devices| && data.devices[k] == d;
        assert !Matches(ByKey(p.nodeKey), data.devices[k]);
      }
    }
  }

  predicate CheckedIn(d: Device, e: Device, p: Payload) {
    e.id == d.id && e.nodeKey == d.nodeKey && e.sample == d.sample &&
    e.hostname == (if p.hostname != "" then p.hostname else d.hostname) &&
    e.pending == (match p.pending case Some(n) => n case None => d.pending) &&
    e.fim == (match p.fim case Some(files) => files case None => d.fim) &&
    e.fimBaseline == if p.fim.Some? && d.fimBaseline == [] then p.fim.value else d.fimBaseline
  }

  lemma {:induction false} FirstWanted(devices: seq<Device>, w: Wanted)
    ensures var i := Find(devices, w);
      forall k :: 0 <= k < (if i < 0 then |devices| else i) ==> !Matches(w, devices[k])
  {
    if devices != [] && !Matches(w, devices[0]) {
      FirstWanted(devices[1..], w);
      assert forall k :: 1 <= k < |devices| ==> devices[k] == devices[1..][k - 1];
    }
  }

  /** Accepting a baseline fails exactly for an unknown id; otherwise the first device with the id has its files as
      its baseline, and nothing else changes. */
  lemma AcceptMeans(data: Data, id: string)
    ensures AcceptResult(data, id) == None <==> forall d :: d in data.devices ==> d.id != id
    ensures AcceptResult(data, id).Some? ==>
      var i, after := Find(data.devices, ById(id)), AcceptResult(data, id).value;
      0 <= i < |data.devices| == |after.devices| && after.(devices := data.devices) == data &&
      data.devices[i].id == id && (forall k :: 0 <= k < i ==> data.devices[k].id != id) &&
      (forall k :: 0 <= k < |data.devices| && k != i ==> after.devices[k] == data.devices[k]) &&
      after.devices[i].fimBaseline == data.devices[i].fim &&
      after.devices[i].(fimBaseline := data.devices[i].fimBaseline) == data.devices[i]
  {
    FirstWanted(data.devices, ById(id));
    var i := Find(data.devices, ById(id));
    if i >= 0 {
      assert data.devices[i] in data.devices;
    } else {
      forall d | d in data.devices ensures d.id != id {
        var k :| 0 <= k < |data.devices| && data.devices[k] == d;
        assert !Matches(ById(id), data.devices[k]);
      }
    }
  }

  /** Enrolling is refused exactly for a wrong secret. A live host of that name, in any case, is enrolled already;
      otherwise one device is added behind the others, live, with what was given and nothing reported. */
  lemma EnrollMeans(data: Data, secret: string, hostname: string, id: string, nodeKey: string)
    ensures var result := EnrollResult(data, secret, hostname, id, nodeKey);
      (result == None <==> secret != data.secret) &&
      (result.Some? ==>
        result.value.devices ==
          if exists d :: d in data.devices && !d.sample && Lower(d.hostname) == Lower(hostname) then data.devices
          else data.devices + [Device(id, nodeKey, false, hostname, 0, [], [])]) &&
      (result.Some? ==> result.value.(devices := data.devices) == data)
  {
    var i := Find(data.devices, ByHost(hostname));
    if i >= 0 {
      assert data.devices[i] in data.devices;
    }
  }

  // ---- the operations, on the objects read from the file ----------------------------------

  class DeviceRecord {
    const id: string
    const nodeKey: string
    const sample: bool
    var hostname: string
    var pending: nat
    var fim: seq<FimFile>
    var fimBaseline: seq<FimFile>

    constructor (d: Device)
      ensures Row() == d
    {
      id, nodeKey, sample, hostname, pending := d.id, d.nodeKey, d.sample, d.hostname, d.pending;
      fim, fimBaseline := d.fim, d.fimBaseline;
    }

    function Row(): Device
      reads this
    {
      Device(id, nodeKey, sample, hostname, pending, fim, fimBaseline)
    }

    /** What a check-in says besides the files. */
    method Update(p: Payload)
      modifies this
      ensures Row() == Updated(old(Row()), p)
    {
      hostname := if p.hostname == "" then hostname else p.hostname;
      pending := if p.pending.None? then pending else p.pending.value;
    }
  }

  function Rows(ds: seq<DeviceRecord>): (rows: seq<Device>)
    reads ds
    ensures |rows| == |ds| && forall i :: 0 <= i < |ds| ==> rows[i] == ds[i].Row()
  {
    if ds == [] then [] else [ds[0].Row()] + Rows(ds[1..])
  }

  function FindRecord(ds: seq<DeviceRecord>, w: Wanted): (i: int)
    reads ds
    ensures -1 <= i < |ds|
  {
    if ds == [] then -1
    else if Matches(w, ds[0].Row()) then 0
    else var i := FindRecord(ds[1..], w); if i < 0 then -1 else i + 1
  }

  /** devices.filter(d => d.sample), or the others. */
  function RecordsMarked(ds: seq<DeviceRecord>, sample: bool): (found: seq<DeviceRecord>)
    ensures forall d :: d in found ==> d in ds
  {
    if ds == [] then [] else (if ds[0].sample == sample then [ds[0]] else []) + RecordsMarked(ds[1..], sample)
  }

  function SampleRecords(ds: seq<DeviceRecord>): (samples: seq<DeviceRecord>)
    reads ds
    ensures Rows(samples) == Where(Rows(ds), IsSample())
    ensures forall d :: d in samples ==> d in ds
  {
    MarkedAgree(ds);
    RecordsMarked(ds, true)
  }

  /** samples.every(d => d.pendingUpdates.length === 0 && d.fim.length === 0) */
  predicate AllStale(ds: seq<DeviceRecord>)
    reads ds
  {
    var rows := Rows(ds);
    forall i :: 0 <= i < |rows| ==> Stale(rows[i])
  }

  lemma {:induction false} FindAgrees(ds: seq<DeviceRecord>, w: Wanted)
    ensures FindRecord(ds, w) == Find(Rows(ds), w)
  {
    if ds != [] {
      FindAgrees(ds[1..], w);
      assert Rows(ds)[1..] == Rows(ds[1..]);
    }
  }

  lemma {:induction false} MarkedAgree(ds: seq<DeviceRecord>)
    ensures Rows(RecordsMarked(ds, false)) == Where(Rows(ds), IsLive())
    ensures Rows(RecordsMarked(ds, true)) == Where(Rows(ds), IsSample())
  {
    if ds != [] {
      MarkedAgree(ds[1..]);
      assert Rows(ds)[1..] == Rows(ds[1..]);
      var live, samples := RecordsMarked(ds[1..], false), RecordsMarked(ds[1..], true);
      RowsConcat([ds[0]], live);
      RowsConcat([ds[0]], samples);
      assert [] + live == live && [] + samples == samples;
    }
  }

  lemma {:induction false} KeptDistinct(ds: seq<DeviceRecord>, more: seq<DeviceRecord>)
    requires Distinct(ds + more)
    ensures Distinct(RecordsMarked(ds, false) + more)
  {
    if ds != [] {
      assert (ds + more)[1..] == ds[1..] + more;
      KeptDistinct(ds[1..], more);
      var kept := RecordsMarked(ds[1..], false);
      if ds[0].sample {
        assert [] + kept == kept;
      } else {
        assert ds[0] !in kept + more;
        DistinctCons(ds[0], kept, more);
      }
    } else {
      assert ds + more == more && [] + more == more;
    }
  }

  lemma DistinctCons(d: DeviceRecord, kept: seq<DeviceRecord>, more: seq<DeviceRecord>)
    requires Distinct(kept + more) && d !in kept + more
    ensures Distinct([d] + kept + more)
  {
    assert ([d] + kept + more)[1..] == kept + more;
  }

  lemma RowsConcat(a: seq<DeviceRecord>, b: seq<DeviceRecord>)
    ensures Rows(a + b) == Rows(a) + Rows(b)
  {
  }

  lemma RowsAre(ds: seq<DeviceRecord>, rows: seq<Device>)
    requires |rows| == |ds| && forall k :: 0 <= k < |ds| ==> rows[k] == ds[k].Row()
    ensures Rows(ds) == rows
  {
  }

  ghost predicate Distinct(ds: seq<DeviceRecord>) {
    ds == [] || (ds[0] !in ds[1..] && Distinct(ds[1..]))
  }

  lemma {:induction false} DistinctPairs(ds: seq<DeviceRecord>)
    requires Distinct(ds)
    ensures forall i, j :: 0 <= i < j < |ds| ==> ds[i] != ds[j]
  {
    if ds != [] {
      DistinctPairs(ds[1..]);
      forall i, j | 0 <= i < j < |ds| ensures ds[i] != ds[j] { assert ds[j] in ds[1..]; }
    }
  }

  lemma {:induction false} DistinctConcat(a: seq<DeviceRecord>, b: seq<DeviceRecord>)
    requires Distinct(a) && Distinct(b) && forall d :: d in b ==> d !in a
    ensures Distinct(a + b)
  {
    if a == [] {
      assert a + b == b;
    } else {
      assert (a + b)[1..] == a[1..] + b;
      DistinctConcat(a[1..], b);
    }
  }

  class StoreRecord {
    var schema: nat
    var secret: string
    var devices: seq<DeviceRecord>
    var fimEvents: seq<FimEvent>
    var triages: seq<Triage>

    ghost predicate Valid()
      reads this
    {
      Distinct(devices)
    }

    /** emptyStore */
    constructor (secret: string)
      ensures View() == CreatedStore(secret) && Valid()
    {
      schema, this.secret := SCHEMA_VERSION, secret;
      devices, fimEvents, triages := [], [], [];
    }

    ghost function View(): Data
      reads this, devices
    {
      Data(schema, secret, Rows(devices), fimEvents, triages)
    }

    method RotateEnrollSecret(secret: string)
      modifies this`secret
      ensures View() == RotateResult(old(View()), secret) == old(View()).(secret := secret)
    {
      this.secret := secret;
    }

    /** The device the host is told, if the secret was right. id and nodeKey are the random values a new
        device would get. */
    method EnrollDevice(secret: string, hostname: string, id: string, nodeKey: string)
      returns (device: Option<DeviceRecord>)
      requires Valid()
      modifies this`devices
      ensures Valid()
      ensures var result := EnrollResult(old(View()), secret, hostname, id, nodeKey);
        device.Some? == result.Some? && View() == if result.Some? then result.value else old(View())
      ensures device.Some? ==>
        device.value in devices && Matches(ByHost(hostname), device.value.Row()) &&
        (fresh(device.value) || old(devices) == devices)
    {
      if secret != this.secret {
        return None;
      }
      FindAgrees(devices, ByHost(hostname));
      ghost var rows := Rows(devices);
      var i := FindRecord(devices, ByHost(hostname));
      if i >= 0 {
        return Some(devices[i]);
      }
      var d := new DeviceRecord(NewDevice(id, nodeKey, hostname));
      DistinctConcat(devices, [d]);
      devices := devices + [d];
      RowsAre(devices, rows + [NewDevice(id, nodeKey, hostname)]);
      return Some(d);
    }

    method ApplyFim(device: DeviceRecord, incoming: seq<FimFile>)
      modifies this`fimEvents, device
      ensures device.Row() == Reported(old(device.Row()), incoming)
      ensures fimEvents == Capped(Changes(old(device.Row()), incoming) + old(fimEvents))
    {
      if |device.fimBaseline| == 0 && |incoming| > 0 {
        device.fimBaseline := incoming;
      }
      ghost var was := old(device.Row());
      var events: seq<FimEvent> := [];
      for i := 0 to |incoming|
        invariant events == Changes(was, incoming[..i])
      {
        var file := incoming[i];
        assert incoming[..i + 1][..i] == incoming[..i];
        var last := HashOf(device.fim, file.path);
        if last.Some? && last.value != "" && last.value != file.sha256 {
          events := events + [FimEvent(device.id, device.hostname, file.path, last.value, file.sha256, false)];
        }
      }
      assert incoming[..|incoming|] == incoming;
      device.fim := incoming;
      fimEvents := if |events + fimEvents| <= 200 then events + fimEvents else (events + fimEvents)[..200];
    }

    method Checkin(p: Payload) returns (ok: bool)
      requires Valid()
      modifies this`fimEvents, devices
      ensures Valid() && devices == old(devices)
      ensures var result := CheckinResult(old(View()), p);
        ok == result.Some? && View() == if result.Some? then result.value else old(View())
    {
      FindAgrees(devices, ByKey(p.nodeKey));
      DistinctPairs(devices);
      ghost var rows := Rows(devices);
      var i := FindRecord(devices, ByKey(p.nodeKey));
      if i < 0 {
        return false;
      }
      var device := devices[i];
      ApplyCheckin(device, p);
      RowsAre(devices, rows[i := device.Row()]);
      return true;
    }

    /** What a check-in does to its device and to the events. */
    method ApplyCheckin(device: DeviceRecord, p: Payload)
      modifies this`fimEvents, device
      ensures var d := Updated(old(device.Row()), p);
        if p.fim.None? then device.Row() == d && fimEvents == old(fimEvents)
        else device.Row() == Reported(d, p.fim.value) &&
             fimEvents == Capped(Changes(d, p.fim.value) + old(fimEvents))
    {
      device.Update(p);
      if p.fim.Some? {
        ApplyFim(device, p.fim.value);
      }
    }

    method AcceptFimBaseline(deviceId: string) returns (ok: bool)
      requires Valid()
      modifies devices
      ensures Valid() && devices == old(devices)
      ensures var result := AcceptResult(old(View()), deviceId);
        ok == result.Some? && View() == if result.Some? then result.value else old(View())
    {
      FindAgrees(devices, ById(deviceId));
      DistinctPairs(devices);
      var i := FindRecord(devices, ById(deviceId));
      if i < 0 {
        return false;
      }
      var device := devices[i];
      device.fimBaseline := device.fim;
      RowsAre(devices, old(Rows(devices))[i := device.Row()]);
      return true;
    }

    /** Keeps what is live and puts samples and their events after it. */
    method ExchangeSamples(samples: seq<DeviceRecord>, sampleEvents: seq<FimEvent>)
      modifies this`devices, this`fimEvents
      ensures Distinct(old(devices) + samples) ==> Valid()
      ensures View() == WithSamples(old(View()), old(Rows(samples)), sampleEvents)
    {
      ghost var after := WithSamples(View(), Rows(samples), sampleEvents);
      MarkedAgree(devices);
      var live := RecordsMarked(devices, false);
      RowsConcat(live, samples);
      if Distinct(devices + samples) { KeptDistinct(devices, samples); }
      devices := live + samples;
      fimEvents := Where(fimEvents, IsLiveEvent()) + sampleEvents;
      RowsAre(devices, after.devices);
      assert fimEvents == after.fimEvents;
    }

    method ReplaceSampleFleet(samples: seq<DeviceRecord>, sampleEvents: seq<FimEvent>)
      modifies this`devices, this`fimEvents, this`schema
      ensures SamplesExchanged(old(View()), View(), old(Rows(samples)), sampleEvents)
      ensures View() == ReplaceResult(old(View()), old(Rows(samples)), sampleEvents)
      ensures Distinct(old(devices) + samples) ==> Valid()
    {
      ExchangeSamples(samples, sampleEvents);
      schema := SCHEMA_VERSION;
      WithSamplesMeans(old(View()), View(), old(Rows(samples)), sampleEvents);
    }

    method ClearSampleFleet()
      modifies this`devices, this`fimEvents
      ensures SamplesExchanged(old(View()), View(), [], [])
      ensures View() == ClearResult(old(View()))
      ensures old(Valid()) ==> Valid()
    {
      assert devices + [] == devices;
      ExchangeSamples([], []);
      WithSamplesMeans(old(View()), View(), [], []);
    }

    method SetTriage(key: string, status: string)
      modifies this`triages
      ensures TriagePut(old(triages), triages, Triage(key, status))
      ensures forall t :: t in triages <==> t == Triage(key, status) || (t in old(triages) && t.key != key)
      ensures old(OneEach(triages)) ==> OneEach(triages)
      ensures View() == TriageResult(old(View()), Triage(key, status))
    {
      TriageMeans(View(), Triage(key, status));
      triages := Where(triages, IsOther(key)) + [Triage(key, status)];
    }

    method NeedsWriting(enabled: bool) returns (needed: bool)
      ensures needed == NeedsWork(View(), enabled)
    {
      var samples := SampleRecords(devices);
      var stale := |samples| > 0 && AllStale(samples);
      var needsSchema := schema < SCHEMA_VERSION;
      var needsSamples := enabled && (|devices| == 0 || stale);
      var removeSamples := !enabled && |samples| > 0;
      needed := needsSamples || removeSamples || needsSchema;
    }

    /** ensureStore on a store that exists. */
    method Settle(enabled: bool, fleet: seq<DeviceRecord>, events: seq<FimEvent>) returns (wrote: bool)
      modifies this`devices, this`fimEvents, this`schema
      ensures var result := EnsureResult(old(View()), enabled, old(Rows(fleet)), events);
        wrote == result.Some? && View() == if result.Some? then result.value else old(View())
      ensures old(Valid()) && (enabled ==> Distinct(old(devices) + fleet)) ==> Valid()
    {
      wrote := NeedsWriting(enabled);
      if wrote {
        var samples, sampleEvents := [], [];
        if enabled {
          samples, sampleEvents := fleet, events;
        }
        assert devices + [] == devices;
        ghost var after := ReplaceResult(View(), Rows(samples), sampleEvents);
        ExchangeSamples(samples, sampleEvents);
        schema := SCHEMA_VERSION;
        assert View() == after;
      }
    }
  }

  /** What ensureStore leaves of a file that may be missing; None if it writes nothing. */
  function EnsuredFile(file: Option<Data>, enabled: bool, secret: string, fleet: seq<Device>, events: seq<FimEvent>)
    : Option<Data>
  {
    match file
    case None => Some(if enabled then WithSamples(CreatedStore(secret), fleet, events) else CreatedStore(secret))
    case Some(data) => EnsureResult(data, enabled, fleet, events)
  }

  /** null is a missing file. secret is the random secret of a new store; fleet and events are what sampleFleet
      and sampleFimEvents give. */
  method EnsureStore(
    file: StoreRecord?, enabled: bool, secret: string, fleet: seq<DeviceRecord>, events: seq<FimEvent>)
    returns (data: StoreRecord, wrote: bool)
    modifies file
    ensures if file == null then fresh(data) else data == file
    ensures var before := old(if file == null then None else Some(file.View()));
      var result := EnsuredFile(before, enabled, secret, old(Rows(fleet)), events);
      wrote == result.Some? && Some(data.View()) == if result.Some? then result else before
    ensures file == null && (enabled ==> Distinct(fleet)) ==> data.Valid()
    ensures file != null && old(file.Valid()) && (enabled ==> Distinct(old(file.devices) + fleet)) ==> data.Valid()
  {
    if file == null {
      data := new StoreRecord(secret);
      if enabled {
        data.devices := fleet;
        data.fimEvents := events;
        assert data.View().devices == Where([], IsLive()) + old(Rows(fleet));
        assert data.View().fimEvents == Where([], IsLiveEvent()) + events;
      }
      wrote := true;
    } else {
      data := file;
      wrote := data.Settle(enabled, fleet, events);
    }
  }
}
