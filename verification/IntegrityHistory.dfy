/** What the integrity history and the baselines keep over whole runs of store operations: lib/store.ts. */
module IntegrityHistory {
  import opened Wrappers
  import opened Filtering
  import opened HostStore
  import opened PathTrail

  /** One critical section, with the random values and the sample fleet it would use. */
  datatype Op =
    | Rotate(secret: string)
    | Enroll(secret: string, hostname: string, id: string, nodeKey: string, made: string)
    | Checkin(p: Payload)
    | Accept(id: string)
    | Replace(samples: seq<Device>, events: seq<FimEvent>)
    | Clear
    | SetTriage(t: Triage)
    | Ensure(enabled: bool, made: string, samples: seq<Device>, events: seq<FimEvent>)

  /** What the section writes; None if it writes nothing. */
  function Written(data: Data, op: Op): Option<Data> {
    match op
    case Rotate(secret) => Some(RotateResult(data, secret))
    case Enroll(secret, hostname, id, nodeKey, _) => EnrollResult(data, secret, hostname, id, nodeKey)
    case Checkin(p) => CheckinResult(data, p)
    case Accept(id) => AcceptResult(data, id)
    case Replace(samples, events) => Some(ReplaceResult(data, samples, events))
    case Clear => Some(ClearResult(data))
    case SetTriage(t) => Some(TriageResult(data, t))
    case Ensure(enabled, _, samples, events) => EnsureResult(data, enabled, samples, events)
  }

  function Perform(data: Data, op: Op): Data {
    match Written(data, op) case Some(r) => r case None => data
  }

  function PerformAll(data: Data, ops: seq<Op>): Data
    decreases ops
  {
    if ops == [] then data else PerformAll(Perform(data, ops[0]), ops[1..])
  }

  // ---- the history of one path --------------------------------------------------------

  /** The changes the events record for one path of one device, newest first. */
  function History(events: seq<FimEvent>, id: string, path: string): seq<Change> {
    if events == [] then []
    else
      var e := events[0];
      (if e.deviceId == id && e.path == path then [Change(e.previous, e.current)] else []) +
      History(events[1..], id, path)
  }

  /** The hashes a report lists for a path. */
  function Listed(files: seq<FimFile>, path: string): Reading {
    if files == [] then []
    else
      Listed(files[..|files| - 1], path) +
      if files[|files| - 1].path == path then [files[|files| - 1].sha256] else []
  }

  ghost predicate DistinctIds(ds: seq<Device>) {
    forall i, j :: 0 <= i < j < |ds| ==> ds[i].id != ds[j].id
  }

  /** A live device has this id, no other device has, and no sample event names it. */
  ghost predicate Present(data: Data, id: string) {
    var i := Find(data.devices, ById(id));
    DistinctIds(data.devices) && i >= 0 && !data.devices[i].sample &&
    forall e :: e in data.fimEvents && e.sample ==> e.deviceId != id
  }

  /** What the device last reported. */
  function FilesOf(data: Data, id: string): seq<FimFile> {
    var i := Find(data.devices, ById(id));
    if i >= 0 then data.devices[i].fim else []
  }

  ghost predicate SamplesApart(data: Data, samples: seq<Device>, events: seq<FimEvent>, id: string) {
    DistinctIds(Where(data.devices, IsLive()) + samples) && AllSamples(samples, events) &&
    forall e :: e in events ==> e.deviceId != id
  }

  /** The ids that randomBytes has to keep apart. */
  ghost predicate Separate(data: Data, op: Op, id: string) {
    match op
    case Enroll(_, _, newId, _, _) => forall d :: d in data.devices ==> d.id != newId
    case Replace(samples, events) => SamplesApart(data, samples, events, id)
    case Ensure(enabled, _, samples, events) => enabled ==> SamplesApart(data, samples, events, id)
    case _ => true
  }

  ghost predicate SeparateRun(data: Data, ops: seq<Op>, id: string)
    decreases ops
  {
    ops == [] || (Separate(data, ops[0], id) && SeparateRun(Perform(data, ops[0]), ops[1..], id))
  }

  /** The files an operation reports for the device, if it is a check-in of it with files. */
  function ReportOf(data: Data, op: Op, id: string): Option<seq<FimFile>> {
    if op.Checkin? then
      var i := Find(data.devices, ByKey(op.p.nodeKey));
      if i >= 0 && data.devices[i].id == id then op.p.fim else None
    else None
  }

  /** What the reports of a run list for the path. */
  function Readings(data: Data, ops: seq<Op>, id: string, path: string): seq<Reading>
    decreases ops
  {
    if ops == [] then []
    else
      var report := ReportOf(data, ops[0], id);
      (if report.Some? then [Listed(report.value, path)] else []) + Readings(Perform(data, ops[0]), ops[1..], id, path)
  }

  /** The readings of a run after what was known before it. */
  function AllReadings(data: Data, ops: seq<Op>, id: string, path: string): seq<Reading> {
    [Listed(FilesOf(data, id), path)] + Readings(data, ops, id, path)
  }

  /** The check-in leaves more than the 200 events the store retains. */
  predicate Cuts(data: Data, op: Op) {
    op.Checkin? && op.p.fim.Some? &&
    var i := Find(data.devices, ByKey(op.p.nodeKey));
    i >= 0 && |Changes(Updated(data.devices[i], op.p), op.p.fim.value)| + |data.fimEvents| > 200
  }

  predicate NothingCut(data: Data, ops: seq<Op>)
    decreases ops
  {
    ops == [] || (!Cuts(data, ops[0]) && NothingCut(Perform(data, ops[0]), ops[1..]))
  }

  // ---- lemmas about histories -------------------------------------------------------------

  lemma {:induction false} HistoryConcat(a: seq<FimEvent>, b: seq<FimEvent>, id: string, path: string)
    ensures History(a + b, id, path) == History(a, id, path) + History(b, id, path)
  {
    if a == [] {
      assert a + b == b;
    } else {
      assert (a + b)[1..] == a[1..] + b;
      HistoryConcat(a[1..], b, id, path);
    }
  }

  /** The cap drops the oldest events, so what is kept of a history is its newest part. */
  lemma CapKeepsNewest(events: seq<FimEvent>, id: string, path: string)
    ensures History(Capped(events), id, path) <= History(events, id, path)
  {
    if |events| > MAX_EVENTS {
      assert events == events[..MAX_EVENTS] + events[MAX_EVENTS..];
      HistoryConcat(events[..MAX_EVENTS], events[MAX_EVENTS..], id, path);
    }
  }

  lemma {:induction false} ListedLast(files: seq<FimFile>, path: string)
    ensures HashOf(files, path) == if Listed(files, path) == [] then None else Some(Known(Listed(files, path)))
  {
    if files != [] { ListedLast(files[..|files| - 1], path); }
  }

  /** What one report adds to the history of a path: of its own device the changes it records, of another
      device nothing. */
  lemma {:induction false} HistoryOfReport(d: Device, files: seq<FimFile>, id: string, path: string)
    ensures History(Changes(d, files), id, path) ==
      if d.id == id then Recorded(Known(Listed(d.fim, path)), Listed(files, path)) else []
  {
    if files != [] {
      var init, f := files[..|files| - 1], files[|files| - 1];
      var known := Known(Listed(d.fim, path));
      var added := if Changed(d, f) then [EventFor(d, f)] else [];
      HistoryOfReport(d, init, id, path);
      HistoryConcat(Changes(d, init), added, id, path);
      if Changed(d, f) { HistoryOne(EventFor(d, f), id, path); }
      ListedLast(d.fim, path);
      if f.path == path {
        RecordedSnoc(known, Listed(init, path), f.sha256);
      } else {
        assert Listed(files, path) == Listed(init, path) + [] == Listed(init, path);
        assert History(Changes(d, init), id, path) + [] == History(Changes(d, init), id, path);
      }
    }
  }

  lemma HistoryOne(e: FimEvent, id: string, path: string)
    ensures History([e], id, path) == if e.deviceId == id && e.path == path then [Change(e.previous, e.current)] else []
  {
    assert [e][1..] == [];
  }

  lemma {:induction false} ChangesAreLive(d: Device, files: seq<FimFile>)
    ensures forall e :: e in Changes(d, files) ==> !e.sample
  {
    if files != [] { ChangesAreLive(d, files[..|files| - 1]); }
  }

  lemma {:induction false} LiveEventsHistory(events: seq<FimEvent>, id: string, path: string)
    requires forall e :: e in events && e.sample ==> e.deviceId != id
    ensures History(Where(events, IsLiveEvent()), id, path) == History(events, id, path)
  {
    if events != [] {
      LiveEventsHistory(events[1..], id, path);
      var rest := Where(events[1..], IsLiveEvent());
      if events[0].sample {
        assert [] + rest == rest;
      } else {
        assert ([events[0]] + rest)[1..] == rest;
      }
    }
  }

  lemma {:induction false} HistoryWithout(events: seq<FimEvent>, id: string, path: string)
    requires forall e :: e in events ==> e.deviceId != id
    ensures History(events, id, path) == []
  {
    if events != [] { HistoryWithout(events[1..], id, path); }
  }

  // ---- lemmas about devices -----------------------------------------------------------------

  lemma {:induction false} FindIdAt(ds: seq<Device>, i: nat)
    requires DistinctIds(ds) && i < |ds|
    ensures Find(ds, ById(ds[i].id)) == i
  {
    if i > 0 { FindIdAt(ds[1..], i - 1); }
  }

  /** Updating a device under the same id moves no one. */
  lemma {:induction false} FindIdUpdate(ds: seq<Device>, i: nat, d: Device, id: string)
    requires i < |ds| && d.id == ds[i].id
    ensures Find(ds[i := d], ById(id)) == Find(ds, ById(id))
  {
    if i == 0 {
      assert ds[i := d][1..] == ds[1..];
    } else {
      FindIdUpdate(ds[1..], i - 1, d, id);
      assert ds[i := d][1..] == ds[1..][i - 1 := d];
    }
  }

  /** Dropping the samples and adding devices at the end keeps a live device. */
  lemma {:induction false} FindIdLive(ds: seq<Device>, more: seq<Device>, id: string)
    requires Find(ds, ById(id)) >= 0 && !ds[Find(ds, ById(id))].sample
    ensures var kept := Where(ds, IsLive()) + more;
      Find(kept, ById(id)) >= 0 && kept[Find(kept, ById(id))] == ds[Find(ds, ById(id))]
  {
    var kept := Where(ds, IsLive()) + more;
    if ds[0].id != id {
      FindIdLive(ds[1..], more, id);
      if ds[0].sample {
        assert kept == Where(ds[1..], IsLive()) + more;
      } else {
        assert kept[1..] == Where(ds[1..], IsLive()) + more;
      }
    }
  }

  lemma {:induction false} FindIdAppend(ds: seq<Device>, d: Device, id: string)
    requires Find(ds, ById(id)) >= 0
    ensures Find(ds + [d], ById(id)) == Find(ds, ById(id))
  {
    if ds[0].id != id {
      FindIdAppend(ds[1..], d, id);
      assert (ds + [d])[1..] == ds[1..] + [d];
    }
  }

  lemma LiveDistinct(ds: seq<Device>)
    requires DistinctIds(ds)
    ensures DistinctIds(Where(ds, IsLive()))
  {
    var at := WhereSelects(ds, IsLive());
    var live := Where(ds, IsLive());
    forall i, j | 0 <= i < j < |live| ensures live[i].id != live[j].id { assert at[i] < at[j]; }
  }

  // ---- the history over runs -------------------------------------------------------------------

  /** The history of a path after an operation, before the cap. */
  function Grown(data: Data, op: Op, id: string, path: string): seq<Change> {
    var report := ReportOf(data, op, id);
    (if report.None? then [] else Recorded(Known(Listed(FilesOf(data, id), path)), Listed(report.value, path))) +
    History(data.fimEvents, id, path)
  }

  /** What one operation does to the device. */
  ghost predicate DeviceKept(data: Data, op: Op, id: string) {
    var after, report := Perform(data, op), ReportOf(data, op, id);
    Present(after, id) && FilesOf(after, id) == (if report.None? then FilesOf(data, id) else report.value)
  }

  /** What it does to the history of a path. */
  ghost predicate HistoryKept(data: Data, op: Op, id: string, path: string) {
    var h := History(Perform(data, op).fimEvents, id, path);
    h <= Grown(data, op, id, path) && (!Cuts(data, op) ==> h == Grown(data, op, id, path))
  }

  /** An operation that leaves the device's files and its history alone. */
  ghost predicate Quiet(data: Data, after: Data, id: string, path: string) {
    Present(after, id) && FilesOf(after, id) == FilesOf(data, id) &&
    History(after.fimEvents, id, path) == History(data.fimEvents, id, path)
  }

  lemma QuietKeeps(data: Data, op: Op, id: string, path: string)
    requires Quiet(data, Perform(data, op), id, path) && ReportOf(data, op, id).None?
    ensures DeviceKept(data, op, id) && HistoryKept(data, op, id, path)
  {
    assert [] + History(data.fimEvents, id, path) == History(data.fimEvents, id, path);
  }

  /** Updating device i under its id, with the events as they are. */
  lemma UpdateQuiet(data: Data, i: nat, d: Device, id: string, path: string)
    requires Present(data, id) && i < |data.devices|
    requires d.id == data.devices[i].id && d.sample == data.devices[i].sample && d.fim == data.devices[i].fim
    ensures Quiet(data, data.(devices := data.devices[i := d]), id, path)
  {
    FindIdUpdate(data.devices, i, d, id);
  }

  lemma ReportHistory(d: Device, files: seq<FimFile>, events: seq<FimEvent>, id: string, path: string)
    ensures var all, h := Changes(d, files) + events, History(events, id, path);
      var grown := if d.id == id then Recorded(Known(Listed(d.fim, path)), Listed(files, path)) + h else h;
      History(Capped(all), id, path) <= grown && (|all| <= MAX_EVENTS ==> History(Capped(all), id, path) == grown)
  {
    HistoryOfReport(d, files, id, path);
    HistoryConcat(Changes(d, files), events, id, path);
    CapKeepsNewest(Changes(d, files) + events, id, path);
    assert [] + History(events, id, path) == History(events, id, path);
  }

  lemma ReportPresent(data: Data, i: nat, d: Device, files: seq<FimFile>, id: string)
    requires Present(data, id) && i < |data.devices| && d.id == data.devices[i].id && d.sample == data.devices[i].sample
    ensures var after := data.(devices := data.devices[i := Reported(d, files)],
                               fimEvents := Capped(Changes(d, files) + data.fimEvents));
      Present(after, id) && FilesOf(after, id) == if d.id == id then files else FilesOf(data, id)
  {
    FindIdUpdate(data.devices, i, Reported(d, files), id);
    FindIdAt(data.devices, i);
    ChangesAreLive(d, files);
  }

  lemma ReportKeepsDevice(data: Data, p: Payload, id: string)
    requires Present(data, id) && p.fim.Some? && Find(data.devices, ByKey(p.nodeKey)) >= 0
    ensures DeviceKept(data, Checkin(p), id)
  {
    var i := Find(data.devices, ByKey(p.nodeKey));
    ReportPresent(data, i, Updated(data.devices[i], p), p.fim.value, id);
  }

  lemma ReportKeepsHistory(data: Data, p: Payload, id: string, path: string)
    requires Present(data, id) && p.fim.Some? && Find(data.devices, ByKey(p.nodeKey)) >= 0
    ensures HistoryKept(data, Checkin(p), id, path)
  {
    var d := Updated(data.devices[Find(data.devices, ByKey(p.nodeKey))], p);
    ReportHistory(d, p.fim.value, data.fimEvents, id, path);
    ReportGrown(data, p, id, path);
    ReportEvents(data, p);
  }

  lemma ReportEvents(data: Data, p: Payload)
    requires p.fim.Some? && Find(data.devices, ByKey(p.nodeKey)) >= 0
    ensures var d := Updated(data.devices[Find(data.devices, ByKey(p.nodeKey))], p);
      var all := Changes(d, p.fim.value) + data.fimEvents;
      Perform(data, Checkin(p)).fimEvents == Capped(all) && (Cuts(data, Checkin(p)) <==> |all| > MAX_EVENTS)
  {
  }

  lemma ReportGrown(data: Data, p: Payload, id: string, path: string)
    requires Present(data, id) && p.fim.Some? && Find(data.devices, ByKey(p.nodeKey)) >= 0
    ensures var d := Updated(data.devices[Find(data.devices, ByKey(p.nodeKey))], p);
      var h := History(data.fimEvents, id, path);
      ReportOf(data, Checkin(p), id) == (if d.id == id then p.fim else None) &&
      Grown(data, Checkin(p), id, path) ==
        if d.id == id then Recorded(Known(Listed(d.fim, path)), Listed(p.fim.value, path)) + h else h
  {
    FindIdAt(data.devices, Find(data.devices, ByKey(p.nodeKey)));
    var h := History(data.fimEvents, id, path);
    assert [] + h == h;
  }

  lemma CheckinKeeps(data: Data, p: Payload, id: string, path: string)
    requires Present(data, id)
    ensures DeviceKept(data, Checkin(p), id) && HistoryKept(data, Checkin(p), id, path)
  {
    var i := Find(data.devices, ByKey(p.nodeKey));
    if i >= 0 && p.fim.Some? {
      ReportKeepsDevice(data, p, id);
      ReportKeepsHistory(data, p, id, path);
    } else {
      if i >= 0 { UpdateQuiet(data, i, Updated(data.devices[i], p), id, path); }
      QuietKeeps(data, Checkin(p), id, path);
    }
  }

  lemma SamplesQuiet(data: Data, samples: seq<Device>, events: seq<FimEvent>, schema: nat, id: string, path: string)
    requires Present(data, id) && SamplesApart(data, samples, events, id)
    ensures Quiet(data, WithSamples(data, samples, events).(schema := schema), id, path)
  {
    FindIdLive(data.devices, samples, id);
    WhereMembers(data.fimEvents, IsLiveEvent());
    SampleHistory(data.fimEvents, events, id, path);
  }

  lemma SampleHistory(before: seq<FimEvent>, events: seq<FimEvent>, id: string, path: string)
    requires forall e :: e in before && e.sample ==> e.deviceId != id
    requires forall e :: e in events ==> e.deviceId != id
    ensures History(Where(before, IsLiveEvent()) + events, id, path) == History(before, id, path)
  {
    LiveEventsHistory(before, id, path);
    HistoryConcat(Where(before, IsLiveEvent()), events, id, path);
    HistoryWithout(events, id, path);
    var h := History(before, id, path);
    assert h + [] == h;
  }

  lemma ClearApart(data: Data, id: string)
    requires DistinctIds(data.devices)
    ensures SamplesApart(data, [], [], id)
  {
    LiveDistinct(data.devices);
    assert Where(data.devices, IsLive()) + [] == Where(data.devices, IsLive());
  }

  lemma EnrollQuiet(data: Data, d: Device, id: string, path: string)
    requires Present(data, id) && forall e :: e in data.devices ==> e.id != d.id
    ensures Quiet(data, data.(devices := data.devices + [d]), id, path)
  {
    FindIdAppend(data.devices, d, id);
    assert forall i :: 0 <= i < |data.devices| ==> data.devices[i] in data.devices;
  }

  lemma OtherQuiet(data: Data, op: Op, id: string, path: string)
    requires Present(data, id) && Separate(data, op, id) && !op.Checkin?
    ensures Quiet(data, Perform(data, op), id, path)
  {
    match op
    case Rotate(_) =>
    case Enroll(_, hostname, newId, nodeKey, _) => EnrollQuiet(data, NewDevice(newId, nodeKey, hostname), id, path);
    case Accept(other) => AcceptQuiet(data, other, id, path);
    case Replace(samples, events) => SamplesQuiet(data, samples, events, SCHEMA_VERSION, id, path);
    case Clear =>
      ClearApart(data, id);
      SamplesQuiet(data, [], [], data.schema, id, path);
    case SetTriage(_) =>
    case Ensure(_, _, _, _) => EnsureQuiet(data, op, id, path);
  }

  lemma AcceptQuiet(data: Data, other: string, id: string, path: string)
    requires Present(data, id)
    ensures Quiet(data, Perform(data, Accept(other)), id, path)
  {
    var i := Find(data.devices, ById(other));
    if i >= 0 { UpdateQuiet(data, i, data.devices[i].(fimBaseline := data.devices[i].fim), id, path); }
  }

  lemma EnsureQuiet(data: Data, op: Op, id: string, path: string)
    requires Present(data, id) && Separate(data, op, id) && op.Ensure?
    ensures Quiet(data, Perform(data, op), id, path)
  {
    ClearApart(data, id);
    if op.enabled {
      SamplesQuiet(data, op.samples, op.events, SCHEMA_VERSION, id, path);
    } else {
      SamplesQuiet(data, [], [], SCHEMA_VERSION, id, path);
    }
  }

  lemma StepKeepsAll(data: Data, op: Op, id: string, path: string)
    requires Present(data, id) && Separate(data, op, id)
    ensures DeviceKept(data, op, id) && HistoryKept(data, op, id, path)
  {
    if op.Checkin? {
      CheckinKeeps(data, op.p, id, path);
    } else {
      OtherQuiet(data, op, id, path);
      QuietKeeps(data, op, id, path);
    }
  }

  /** The first operation of a run moves the front of the trail into the history. */
  lemma TrailStep(data: Data, ops: seq<Op>, id: string, path: string)
    requires ops != []
    requires ReportOf(data, ops[0], id).Some? ==> FilesOf(Perform(data, ops[0]), id) == ReportOf(data, ops[0], id).value
    requires ReportOf(data, ops[0], id).None? ==> FilesOf(Perform(data, ops[0]), id) == FilesOf(data, id)
    ensures var rs, rest := AllReadings(data, ops, id, path), AllReadings(Perform(data, ops[0]), ops[1..], id, path);
      Trail(rs) + History(data.fimEvents, id, path) == Trail(rest) + Grown(data, ops[0], id, path) &&
      rs[|rs| - 1] == rest[|rest| - 1]
  {
    var known, report := Listed(FilesOf(data, id), path), ReadingOf(data, ops[0], id, path);
    var later, h := Readings(Perform(data, ops[0]), ops[1..], id, path), History(data.fimEvents, id, path);
    ReadingsStep(data, ops, id, path);
    assert AllReadings(data, ops, id, path) == [known] + if report.None? then later else [report.value] + later;
    assert Grown(data, ops[0], id, path) == (if report.None? then [] else Recorded(Known(known), report.value)) + h;
    TrailMoves(known, report, later, h);
  }

  /** What an operation's report lists for the path. */
  function ReadingOf(data: Data, op: Op, id: string, path: string): Option<Reading> {
    var report := ReportOf(data, op, id);
    if report.None? then None else Some(Listed(report.value, path))
  }

  lemma TrailMoves(known: Reading, report: Option<Reading>, later: seq<Reading>, h: seq<Change>)
    ensures var rs := [known] + if report.None? then later else [report.value] + later;
      var rest := [if report.None? then known else report.value] + later;
      var added := if report.None? then [] else Recorded(Known(known), report.value);
      Trail(rs) + h == Trail(rest) + (added + h) && rs[|rs| - 1] == rest[|rest| - 1]
  {
    if report.None? {
      assert [] + h == h;
    } else {
      TrailCons(known, [report.value] + later, h);
    }
  }

  lemma ReadingsStep(data: Data, ops: seq<Op>, id: string, path: string)
    requires ops != []
    ensures var rest, report := Readings(Perform(data, ops[0]), ops[1..], id, path), ReadingOf(data, ops[0], id, path);
      Readings(data, ops, id, path) == if report.None? then rest else [report.value] + rest
  {
    var rest := Readings(Perform(data, ops[0]), ops[1..], id, path);
    assert [] + rest == rest;
  }

  /** Over every run, whatever the reports leave out: the retained history is the newest part of the
      changes they record and the history before, and all of it if the cap cut nothing. */
  lemma {:induction false} HistoryIsTrail(data: Data, ops: seq<Op>, id: string, path: string)
    requires Present(data, id) && SeparateRun(data, ops, id)
    ensures var end, before := PerformAll(data, ops), History(data.fimEvents, id, path);
      var all := Trail(AllReadings(data, ops, id, path)) + before;
      Present(end, id) && History(end.fimEvents, id, path) <= all &&
      (NothingCut(data, ops) ==> History(end.fimEvents, id, path) == all)
    ensures var rs := AllReadings(data, ops, id, path);
      rs[|rs| - 1] == Listed(FilesOf(PerformAll(data, ops), id), path)
    decreases ops
  {
    if ops == [] {
      assert [] + History(data.fimEvents, id, path) == History(data.fimEvents, id, path);
    } else {
      var next := Perform(data, ops[0]);
      StepKeepsAll(data, ops[0], id, path);
      TrailStep(data, ops, id, path);
      HistoryIsTrail(next, ops[1..], id, path);
      PrefixOnto(
        Trail(AllReadings(next, ops[1..], id, path)), History(next.fimEvents, id, path), Grown(data, ops[0], id, path));
    }
  }

  lemma PrefixOnto<T>(a: seq<T>, b: seq<T>, c: seq<T>)
    requires b <= c
    ensures a + b <= a + c
  {
  }

  /** Exactly when the history tells the truth, after any run of store operations. The cap, which drops the
      oldest events, has left the changes of the readings after some position and the newest part of those of
      the report there, or of the history before the run. They replay from a hash y if and only if none of the
      readings after the position broke their chain and that part replays from where the first change after it
      starts. When nothing was cut the position is the start of the run and the part is the whole history. */
  lemma HistoryExactly(data: Data, ops: seq<Op>, id: string, path: string, y: string)
    returns (cut: nat, part: seq<Change>)
    requires Present(data, id) && SeparateRun(data, ops, id)
    ensures var h, before := History(PerformAll(data, ops).fimEvents, id, path), History(data.fimEvents, id, path);
      var steps := StepsOf(AllReadings(data, ops, id, path));
      var n := |steps| - 1;
      CutAt(steps, before, n, h, cut, part) && (NothingCut(data, ops) ==> cut == 0 && part == before) &&
      (Replays(h, y) <==> Unbroken(steps, cut, n, y) && Replays(part, NextFrom(steps, cut, n, y)))
  {
    var rs, before := AllReadings(data, ops, id, path), History(data.fimEvents, id, path);
    HistoryIsTrail(data, ops, id, path);
    cut, part := KeptReplays(rs, before, History(PerformAll(data, ops).fimEvents, id, path), y);
  }

  // ---- reports that cover the path -----------------------------------------------------------

  /** The retained events for the path replay from the hash the device last reported, if it reported one. */
  ghost predicate Tracked(data: Data, id: string, path: string) {
    Present(data, id) && Followed(HashOf(FilesOf(data, id), path), History(data.fimEvents, id, path))
  }

  ghost predicate Followed(hash: Option<string>, h: seq<Change>) {
    match hash
    case None => h == []
    case Some(current) => current != "" && Replays(h, current)
  }

  ghost predicate DistinctPaths(files: seq<FimFile>) {
    forall i, j :: 0 <= i < j < |files| ==> files[i].path != files[j].path
  }

  /** The report has the path, with a hash, and no path twice. */
  ghost predicate Covers(files: seq<FimFile>, path: string) {
    DistinctPaths(files) && HashOf(files, path).Some? && HashOf(files, path).value != ""
  }

  ghost predicate CoveredRun(data: Data, ops: seq<Op>, id: string, path: string)
    decreases ops
  {
    ops == [] || (
      (ReportOf(data, ops[0], id).Some? ==> Covers(ReportOf(data, ops[0], id).value, path)) &&
      CoveredRun(Perform(data, ops[0]), ops[1..], id, path))
  }

  lemma {:induction false} ListedNone(files: seq<FimFile>, path: string)
    requires forall i :: 0 <= i < |files| ==> files[i].path != path
    ensures Listed(files, path) == []
  {
    if files != [] { ListedNone(files[..|files| - 1], path); }
  }

  lemma {:induction false} CoveringLists(files: seq<FimFile>, path: string)
    requires Covers(files, path)
    ensures |Listed(files, path)| == 1 && Listed(files, path)[0] != ""
  {
    var init := files[..|files| - 1];
    if files[|files| - 1].path == path { ListedNone(init, path); } else { CoveringLists(init, path); }
  }

  lemma {:induction false} CoveredReadings(data: Data, ops: seq<Op>, id: string, path: string)
    requires CoveredRun(data, ops, id, path)
    ensures forall r :: r in Readings(data, ops, id, path) ==> |r| == 1 && r[0] != ""
    decreases ops
  {
    if ops != [] {
      var report := ReportOf(data, ops[0], id);
      if report.Some? { CoveringLists(report.value, path); }
      CoveredReadings(Perform(data, ops[0]), ops[1..], id, path);
    }
  }

  lemma CoveredAll(data: Data, ops: seq<Op>, id: string, path: string)
    requires CoveredRun(data, ops, id, path)
    ensures Covered(AllReadings(data, ops, id, path))
  {
    CoveredReadings(data, ops, id, path);
    CoveredCons(Listed(FilesOf(data, id), path), Readings(data, ops, id, path));
  }

  lemma CoveredCons(known: Reading, rest: seq<Reading>)
    requires forall r :: r in rest ==> |r| == 1 && r[0] != ""
    ensures Covered([known] + rest)
  {
    forall k | 0 <= k < |rest| ensures |rest[k]| == 1 && rest[k][0] != "" {
      assert rest[k] in rest;
    }
  }

  /** What the start and the end of covered readings say, for a history that was followed before them. */
  lemma CoveredTold(rs: seq<Reading>, h: seq<Change>)
    requires Covered(rs) && rs != []
    requires if rs[0] == [] then h == [] else Known(rs[0]) != "" && Replays(h, Known(rs[0]))
    ensures if rs[|rs| - 1] == [] then Trail(rs) + h == []
            else Known(rs[|rs| - 1]) != "" && Replays(Trail(rs) + h, Known(rs[|rs| - 1]))
  {
    if rs[|rs| - 1] != [] {
      CoveredUnbroken(rs);
      ReportSteps(rs);
      TrailReplays(StepsOf(rs), 0, |rs| - 1, h, Known(rs[|rs| - 1]));
    }
  }

  /** In every run whose reports cover the path the retained events replay, newest first, from the hash the
      device last reported, however many the cap dropped, however often the sample fleet came and went, and
      however often the host enrolled again. */
  lemma HistoryReplays(data: Data, ops: seq<Op>, id: string, path: string)
    requires Tracked(data, id, path) && SeparateRun(data, ops, id) && CoveredRun(data, ops, id, path)
    ensures Tracked(PerformAll(data, ops), id, path)
  {
    var rs, h := AllReadings(data, ops, id, path), History(data.fimEvents, id, path);
    var end := PerformAll(data, ops);
    HistoryIsTrail(data, ops, id, path);
    CoveredAll(data, ops, id, path);
    ListedLast(FilesOf(data, id), path);
    ListedLast(FilesOf(end, id), path);
    CoveredTold(rs, h);
    if rs[|rs| - 1] != [] { ReplaysPrefix(History(end.fimEvents, id, path), Trail(rs) + h, Known(rs[|rs| - 1])); }
  }

  /** A check-in that covers the path keeps its history, and leaves at most 200 events. */
  lemma CheckinTracks(data: Data, p: Payload, id: string, path: string)
    requires Tracked(data, id, path)
    requires var report := ReportOf(data, Checkin(p), id); report.Some? ==> Covers(report.value, path)
    ensures Tracked(Perform(data, Checkin(p)), id, path)
    ensures p.fim.Some? && Find(data.devices, ByKey(p.nodeKey)) >= 0 ==>
      |Perform(data, Checkin(p)).fimEvents| <= 200
  {
    var ops := [Checkin(p)];
    assert ops[1..] == [];
    assert PerformAll(Perform(data, ops[0]), ops[1..]) == Perform(data, ops[0]);
    HistoryReplays(data, ops, id, path);
  }

  /** A device that has just enrolled is tracked for every path. */
  lemma EnrolledIsTracked(data: Data, hostname: string, id: string, nodeKey: string, made: string, path: string)
    requires DistinctIds(data.devices) && Find(data.devices, ByHost(hostname)) < 0
    requires forall d :: d in data.devices ==> d.id != id
    requires forall e :: e in data.fimEvents ==> e.deviceId != id
    ensures Tracked(Perform(data, Enroll(data.secret, hostname, id, nodeKey, made)), id, path)
  {
    var after := Perform(data, Enroll(data.secret, hostname, id, nodeKey, made));
    assert forall i :: 0 <= i < |data.devices| ==> after.devices[i] in data.devices;
    FindIdAt(after.devices, |data.devices|);
    HistoryWithout(data.fimEvents, id, path);
  }

  /** Coverage is needed: a path left out of one report and back with another hash in the next has changed
      without an event. */
  lemma GapBreaksHistory(d: Device, path: string, a: string, b: string)
    requires a != "" && b != "" && a != b && d.fim == [FimFile(path, b)] && !d.sample
    ensures var event := FimEvent(d.id, d.hostname, path, a, b, false);
      var data := Data(SCHEMA_VERSION, "", [d], [event], []);
      var ops := [Checkin(Payload(d.nodeKey, "", None, Some([]))),
                  Checkin(Payload(d.nodeKey, "", None, Some([FimFile(path, a)])))];
      Tracked(data, d.id, path) && !Replays(History(PerformAll(data, ops).fimEvents, d.id, path), a)
  {
    var event := FimEvent(d.id, d.hostname, path, a, b, false);
    var data := Data(SCHEMA_VERSION, "", [d], [event], []);
    var first := Checkin(Payload(d.nodeKey, "", None, Some([])));
    var second := Checkin(Payload(d.nodeKey, "", None, Some([FimFile(path, a)])));
    var events := [event];
    HistoryOne(event, d.id, path);
    ListedOne(path, a);
    ListedOne(path, b);
    assert [FimFile(path, a)][..0] == [];
    OnlyDevice(d, events, [], "");
    OnlyDevice(d.(fim := []), events, [FimFile(path, a)], "");
    assert Perform(data, first) == Data(SCHEMA_VERSION, "", [d.(fim := [])], events, []);
    RunOfTwo(data, first, second, d.id, path);
    HistoryIsTrail(data, [first, second], d.id, path);
    GapBreaks(AllReadings(data, [first, second], d.id, path), [Change(a, b)], a);
  }

  /** A report of the only device that records no change. */
  lemma OnlyDevice(d: Device, events: seq<FimEvent>, files: seq<FimFile>, secret: string)
    requires |events| == 1 && Changes(d, files) == []
    ensures var data := Data(SCHEMA_VERSION, secret, [d], events, []);
      var op := Checkin(Payload(d.nodeKey, "", None, Some(files)));
      ReportOf(data, op, d.id) == Some(files) && FilesOf(data, d.id) == d.fim && !Cuts(data, op) &&
      Perform(data, op) == Data(SCHEMA_VERSION, secret, [Reported(d, files)], events, [])
  {
    assert Changes(d, files) + events == events;
    assert Updated(d, Payload(d.nodeKey, "", None, Some(files))) == d;
  }

  lemma ListedOne(path: string, hash: string)
    ensures Listed([FimFile(path, hash)], path) == [hash] && HashOf([FimFile(path, hash)], path) == Some(hash)
  {
    assert [FimFile(path, hash)][..0] == [];
  }

  /** What the recursive notions say of two reports. */
  lemma RunOfTwo(data: Data, a: Op, b: Op, id: string, path: string)
    requires ReportOf(data, a, id).Some? && ReportOf(Perform(data, a), b, id).Some?
    requires !Cuts(data, a) && !Cuts(Perform(data, a), b)
    ensures AllReadings(data, [a, b], id, path) ==
      [Listed(FilesOf(data, id), path), Listed(ReportOf(data, a, id).value, path),
       Listed(ReportOf(Perform(data, a), b, id).value, path)]
    ensures NothingCut(data, [a, b]) && SeparateRun(data, [a, b], id)
  {
    var ops := [a, b];
    assert ops[1..] == [b] && [b][1..] == [];
    var next := Perform(data, a);
    assert Readings(Perform(next, b), [], id, path) == [];
    assert Readings(next, [b], id, path) == [Listed(ReportOf(next, b, id).value, path)];
    assert NothingCut(Perform(next, b), []) && SeparateRun(Perform(next, b), [], id);
    assert NothingCut(next, [b]) && SeparateRun(next, [b], id);
  }

  // ---- baselines over runs ------------------------------------------------------------------------

  /** The accepted files of a device. */
  function BaselineOf(data: Data, id: string): seq<FimFile> {
    var i := Find(data.devices, ById(id));
    if i >= 0 then data.devices[i].fimBaseline else []
  }

  /** A live device is found under the id. */
  predicate Lives(data: Data, id: string) {
    var i := Find(data.devices, ById(id));
    i >= 0 && !data.devices[i].sample
  }

  /** Neither a check-in nor an acceptance: the device stays as it is. */
  lemma StepKeepsDevice(data: Data, op: Op, id: string)
    requires Lives(data, id) && !op.Checkin? && op != Accept(id)
    ensures Lives(Perform(data, op), id) &&
      Perform(data, op).devices[Find(Perform(data, op).devices, ById(id))] == data.devices[Find(data.devices, ById(id))]
  {
    var ds := data.devices;
    match op
    case Rotate(_) =>
    case Enroll(_, hostname, newId, nodeKey, _) => FindIdAppend(ds, NewDevice(newId, nodeKey, hostname), id);
    case Accept(other) =>
      var k := Find(ds, ById(other));
      if k >= 0 { FindIdUpdate(ds, k, ds[k].(fimBaseline := ds[k].fim), id); }
    case Replace(samples, events) => SamplesKeepDevice(data, op, samples, events, id);
    case Clear => SamplesKeepDevice(data, op, [], [], id);
    case SetTriage(_) =>
    case Ensure(enabled, _, samples, events) =>
      if Written(data, op).Some? {
        SamplesKeepDevice(data, op, if enabled then samples else [], if enabled then events else [], id);
      }
  }

  lemma CheckinKeepsBaseline(data: Data, p: Payload, id: string)
    requires Lives(data, id) && BaselineOf(data, id) != []
    ensures Lives(Perform(data, Checkin(p)), id) && BaselineOf(Perform(data, Checkin(p)), id) == BaselineOf(data, id)
  {
    var k := Find(data.devices, ByKey(p.nodeKey));
    if k >= 0 {
      var d := Updated(data.devices[k], p);
      FindIdUpdate(data.devices, k, if p.fim.None? then d else Reported(d, p.fim.value), id);
    }
  }

  lemma StepKeepsBaseline(data: Data, op: Op, id: string)
    requires Lives(data, id) && BaselineOf(data, id) != [] && op != Accept(id)
    ensures Lives(Perform(data, op), id) && BaselineOf(Perform(data, op), id) == BaselineOf(data, id)
  {
    if op.Checkin? {
      CheckinKeepsBaseline(data, op.p, id);
    } else {
      StepKeepsDevice(data, op, id);
    }
  }

  lemma SamplesKeepDevice(data: Data, op: Op, samples: seq<Device>, events: seq<FimEvent>, id: string)
    requires Lives(data, id)
    requires Perform(data, op).devices == WithSamples(data, samples, events).devices
    ensures var i, j := Find(data.devices, ById(id)), Find(Perform(data, op).devices, ById(id));
      j >= 0 && Perform(data, op).devices[j] == data.devices[i]
  {
    FindIdLive(data.devices, samples, id);
  }

  /** Only accepting a baseline changes one that is not empty: no run of other operations does. */
  lemma {:induction false} BaselineFixed(data: Data, ops: seq<Op>, id: string)
    requires Lives(data, id) && BaselineOf(data, id) != [] && Accept(id) !in ops
    ensures Lives(PerformAll(data, ops), id) && BaselineOf(PerformAll(data, ops), id) == BaselineOf(data, id)
    decreases ops
  {
    if ops != [] {
      StepKeepsBaseline(data, ops[0], id);
      BaselineFixed(Perform(data, ops[0]), ops[1..], id);
    }
  }

  /** The reports of a run for the device. */
  function Reports(data: Data, ops: seq<Op>, id: string): seq<seq<FimFile>>
    decreases ops
  {
    if ops == [] then []
    else
      var report := ReportOf(data, ops[0], id);
      (if report.Some? then [report.value] else []) + Reports(Perform(data, ops[0]), ops[1..], id)
  }

  /** The first list that is not empty, or the last one. */
  function FirstFilled(first: seq<FimFile>, more: seq<seq<FimFile>>): seq<FimFile>
    decreases more
  {
    if first != [] || more == [] then first else FirstFilled(more[0], more[1..])
  }

  function LastOf(first: seq<FimFile>, more: seq<seq<FimFile>>): seq<FimFile> {
    if more == [] then first else more[|more| - 1]
  }

  lemma StepBaseline(data: Data, op: Op, id: string)
    requires Present(data, id) && Separate(data, op, id) && op != Accept(id)
    ensures var report := ReportOf(data, op, id);
      BaselineOf(Perform(data, op), id) ==
        if report.Some? && BaselineOf(data, id) == [] then report.value else BaselineOf(data, id)
  {
    if op.Checkin? {
      var k := Find(data.devices, ByKey(op.p.nodeKey));
      if k >= 0 {
        var d := Updated(data.devices[k], op.p);
        FindIdAt(data.devices, k);
        FindIdUpdate(data.devices, k, if op.p.fim.None? then d else Reported(d, op.p.fim.value), id);
      }
    } else {
      StepKeepsDevice(data, op, id);
    }
  }

  /** Over every run without an acceptance the baseline is the first of the baseline before and the reports that
      is not empty, and the device's files are those of the last report. */
  lemma {:induction false} BaselineOverRun(data: Data, ops: seq<Op>, id: string)
    requires Present(data, id) && SeparateRun(data, ops, id) && Accept(id) !in ops
    ensures var end, reports := PerformAll(data, ops), Reports(data, ops, id);
      Present(end, id) && BaselineOf(end, id) == FirstFilled(BaselineOf(data, id), reports) &&
      FilesOf(end, id) == LastOf(FilesOf(data, id), reports)
    decreases ops
  {
    if ops != [] {
      var next, rest := Perform(data, ops[0]), Reports(Perform(data, ops[0]), ops[1..], id);
      StepBaseline(data, ops[0], id);
      StepKeepsAll(data, ops[0], id, "");
      BaselineOverRun(next, ops[1..], id);
      if ReportOf(data, ops[0], id).Some? {
        ReportsCons(BaselineOf(data, id), FilesOf(data, id), ReportOf(data, ops[0], id).value, rest);
      } else {
        assert [] + rest == rest;
      }
    }
  }

  lemma ReportsCons(baseline: seq<FimFile>, files: seq<FimFile>, report: seq<FimFile>, rest: seq<seq<FimFile>>)
    ensures LastOf(files, [report] + rest) == LastOf(report, rest)
    ensures FirstFilled(baseline, [report] + rest) == FirstFilled(if baseline == [] then report else baseline, rest)
  {
    assert ([report] + rest)[1..] == rest;
  }
}
