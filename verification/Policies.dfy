/** Drift of watched files from the accepted baseline: lib/policies.ts. */
module Policies {
  import opened HostStore
  import opened IntegrityHistory

  ghost predicate Distinct(s: seq<string>) {
    forall i, j :: 0 <= i < j < |s| ==> s[i] != s[j]
  }

  /** [...new Map(files.map(f => [f.path, f.sha256])).keys()]: each path once, as first inserted. */
  function Paths(files: seq<FimFile>): (paths: seq<string>)
    ensures Distinct(paths)
    ensures forall p :: p in paths <==> HashOf(files, p).Some?
  {
    if files == [] then []
    else
      var before := Paths(files[..|files| - 1]);
      var p := files[|files| - 1].path;
      if p in before then before else before + [p]
  }

  /** An accepted path that is gone, or present under another hash than a non-empty accepted one. */
  predicate DriftedFrom(accepted: seq<FimFile>, files: seq<FimFile>, p: string) {
    var expected, current := HashOf(accepted, p), HashOf(files, p);
    expected.Some? && (current.None? || (expected.value != "" && current.value != expected.value))
  }

  predicate Drifted(d: Device, p: string) {
    DriftedFrom(d.fimBaseline, d.fim, p)
  }

  /** Exactly the drifted paths, each once. */
  method FimDriftPaths(d: Device) returns (paths: seq<string>)
    ensures Distinct(paths)
    ensures forall p :: p in paths <==> Drifted(d, p)
  {
    paths := [];
    var current, baseline := Paths(d.fim), Paths(d.fimBaseline);
    for i := 0 to |current|
      invariant Distinct(paths)
      invariant forall p :: p in paths <==> p in current[..i] && Drifted(d, p)
    {
      var path := current[i];
      assert path !in current[..i];
      assert current[..i + 1] == current[..i] + [path];
      assert HashOf(d.fim, path).Some?;
      var expected := HashOf(d.fimBaseline, path);
      if expected.Some? && expected.value != "" && expected.value != HashOf(d.fim, path).value {
        paths := paths + [path];
      }
    }
    assert current[..|current|] == current;
    for i := 0 to |baseline|
      invariant Distinct(paths)
      invariant forall p :: p in paths <==> Drifted(d, p) && (p in current || p in baseline[..i])
    {
      var path := baseline[i];
      assert path !in baseline[..i];
      assert baseline[..i + 1] == baseline[..i] + [path];
      assert HashOf(d.fimBaseline, path).Some?;
      if path !in current {
        paths := paths + [path];
      }
    }
    assert baseline[..|baseline|] == baseline;
  }

  ghost predicate NoDrift(d: Device) {
    forall p :: !Drifted(d, p)
  }

  /** After an acceptance and any run of other operations the drift is that of the last report from the files
      accepted, or from the first report with files if there were none to accept. */
  lemma DriftSinceAcceptance(data: Data, ops: seq<Op>, id: string)
    requires Present(data, id) && Accept(id) !in ops && SeparateRun(Perform(data, Accept(id)), ops, id)
    ensures var accepted := Perform(data, Accept(id));
      var end, reports := PerformAll(accepted, ops), Reports(accepted, ops, id);
      var i := Find(end.devices, ById(id));
      i >= 0 && forall p :: Drifted(end.devices[i], p) <==>
        DriftedFrom(FirstFilled(FilesOf(data, id), reports), LastOf(FilesOf(data, id), reports), p)
  {
    AcceptedFiles(data, id);
    BaselineOverRun(Perform(data, Accept(id)), ops, id);
  }

  lemma AcceptedFiles(data: Data, id: string)
    requires Present(data, id)
    ensures var accepted := Perform(data, Accept(id));
      Present(accepted, id) && BaselineOf(accepted, id) == FilesOf(accepted, id) == FilesOf(data, id)
  {
    var i := Find(data.devices, ById(id));
    UpdateQuiet(data, i, data.devices[i].(fimBaseline := data.devices[i].fim), id, "");
    FindIdUpdate(data.devices, i, data.devices[i].(fimBaseline := data.devices[i].fim), id);
  }

  /** Every accepted file is still reported, hash for hash. */
  ghost predicate BaselineHolds(d: Device) {
    forall p :: KeepsHash(d, p)
  }

  predicate KeepsHash(d: Device, p: string) {
    HashOf(d.fimBaseline, p).Some? ==> HashOf(d.fim, p) == HashOf(d.fimBaseline, p)
  }

  /** With non-empty accepted hashes, no drift means just that; an empty one hides a change. */
  lemma NoDriftMeansUnchanged(d: Device)
    requires forall p :: HashOf(d.fimBaseline, p).Some? ==> HashOf(d.fimBaseline, p).value != ""
    ensures NoDrift(d) <==> BaselineHolds(d)
  {
    forall p ensures Drifted(d, p) <==> !KeepsHash(d, p) {
      assert HashOf(d.fimBaseline, p).Some? ==> HashOf(d.fimBaseline, p).value != "";
    }
  }
}
