/** The extractor written the way the source writes it — nested index loops, a mutable `found`
    list, a forward search for the last matching descriptor — proved to compute exactly the
    functional model. */
module ExtractLoop {
  import opened Results
  import opened PackageModel
  import opened InstalledDeps
  import opened PackageDependencies
  import opened ExtractionProperties

  /** `packages.filter(d => d.name === name).pop()`: scans every descriptor and keeps the last
      index whose name matches. */
  method LastMatching(packages: seq<Package>, name: string) returns (m: Option<nat>)
    ensures m == LastIndexNamed(packages, name)
  {
    m := None;
    var t := 0;
    while t < |packages|
      invariant 0 <= t <= |packages|
      invariant m == LastIndexNamed(packages[..t], name)
    {
      if packages[t].name == name {
        m := Some(t);
      }
      assert packages[..t + 1][..t] == packages[..t];
      t := t + 1;
    }
    assert packages[..t] == packages;
  }

  /** A failure in a prefix of the scanned records is the failure of the whole dedup loop. */
  lemma {:induction false} DedupFailureSticks(packages: seq<Package>, parent: Package, found: seq<string>,
                                              recs: seq<InstalledRecord>, m: nat)
    requires m <= |recs| && DedupEdges(packages, parent, found, recs[..m]).Failure?
    ensures DedupEdges(packages, parent, found, recs) == DedupEdges(packages, parent, found, recs[..m])
    decreases |recs| - m
  {
    if m < |recs| {
      assert recs[..m + 1][..m] == recs[..m];
      DedupFailureSticks(packages, parent, found, recs, m + 1);
    } else {
      assert recs[..m] == recs;
    }
  }

  /** The inner loop body for one candidate: the `dependencies` check, then the
      `devDependencies` check, each pushing onto `found` and onto the results. */
  method CandidatePhase(parent: Package, dependency: Package) returns (step: seq<Edge>, pushed: seq<string>)
    ensures step == CandidateEdges(parent, dependency)
    ensures pushed == Pushed(parent, dependency)
  {
    step, pushed := [], [];
    if parent.dependencies.Some? && dependency.name in parent.dependencies.value {
      pushed := pushed + [dependency.name];
      step := step + [Edge(dependency.name, dependency.folder, parent.name, parent.folder,
                           parent.dependencies.value[dependency.name], dependency.version, Some(false))];
    }
    if parent.devDependencies.Some? && dependency.name in parent.devDependencies.value {
      pushed := pushed + [dependency.name];
      step := step + [Edge(dependency.name, dependency.folder, parent.name, parent.folder,
                           parent.devDependencies.value[dependency.name], dependency.version, Some(true))];
    }
  }

  /** One turn of the inner loop: candidate `j` is skipped when it is the parent itself; `found`
      grows by one name per edge pushed. */
  method VisitCandidate(packages: seq<Package>, i: nat, j: nat, edges: seq<Edge>, found: seq<string>)
    returns (edges': seq<Edge>, found': seq<string>)
    requires i < |packages| && j < |packages|
    requires edges == DirectUpTo(packages, i, j) && found == Sources(edges)
    ensures edges' == DirectUpTo(packages, i, j + 1) && found' == Sources(edges')
  {
    DirectStep(packages, i, j);
    if i == j {
      edges', found' := edges + [], found + [];
    } else {
      var step, pushed := CandidatePhase(packages[i], packages[j]);
      SourcesAppend(edges, step);
      CandidateSources(packages[i], packages[j]);
      edges', found' := edges + step, found + pushed;
    }
  }

  /** The direct phase of the outer loop body for parent `i`. */
  method DirectPhase(packages: seq<Package>, i: nat) returns (edges: seq<Edge>, found: seq<string>)
    requires i < |packages|
    ensures edges == DirectEdges(packages, i) && found == Found(packages, i)
  {
    edges, found := [], [];
    var j := 0;
    while j < |packages|
      invariant 0 <= j <= |packages|
      invariant edges == DirectUpTo(packages, i, j)
      invariant found == Sources(edges)
    {
      edges, found := VisitCandidate(packages, i, j, edges, found);
      j := j + 1;
    }
    assert j == |packages|;
  }

  /** The dedup phase of the outer loop body: one edge per scanned record not found directly. */
  method DedupPhase(packages: seq<Package>, parent: Package, found: seq<string>, recs: seq<InstalledRecord>)
    returns (r: Result<seq<Edge>, Error>)
    ensures r == DedupEdges(packages, parent, found, recs)
  {
    var edges: seq<Edge> := [];
    var k := 0;
    while k < |recs|
      invariant 0 <= k <= |recs|
      invariant DedupEdges(packages, parent, found, recs[..k]) == Success(edges)
    {
      var installedDep := recs[k];
      assert recs[..k + 1][..k] == recs[..k];
      assert DedupEdges(packages, parent, found, recs[..k + 1]) ==
             Then(DedupEdges(packages, parent, found, recs[..k]), DedupOne(packages, parent, found, installedDep));
      if installedDep.name !in found {
        var matching := LastMatching(packages, installedDep.name);
        if matching.None? {
          DedupFailureSticks(packages, parent, found, recs, k + 1);
          return Failure(UnknownPackage(installedDep.name));
        }
        var edge := Edge(installedDep.name, installedDep.folder, parent.name, parent.folder,
                         installedDep.version, packages[matching.value].version, None);
        assert DedupOne(packages, parent, found, installedDep) == Success([edge]);
        edges := edges + [edge];
      } else {
        assert edges + [] == edges;
      }
      k := k + 1;
    }
    assert recs[..k] == recs;
    return Success(edges);
  }

  /** One turn of the outer loop, as the functional model describes it. */
  lemma ParentStep(packages: seq<Package>, fs: FileSystem, i: nat, results: seq<Edge>,
                   installed: Result<seq<InstalledRecord>, Error>, deduped: Result<seq<Edge>, Error>)
    requires i < |packages| && ExtractUpTo(packages, fs, i) == Success(results)
    requires installed == GetInstalledDeps(fs, packages[i].folder, Names(packages))
    requires installed.Success? ==> deduped == DedupEdges(packages, packages[i], Found(packages, i), installed.value)
    ensures installed.Failure? ==> ExtractUpTo(packages, fs, i + 1) == Failure(installed.error)
    ensures installed.Success? && deduped.Failure? ==> ExtractUpTo(packages, fs, i + 1) == Failure(deduped.error)
    ensures installed.Success? && deduped.Success? ==>
              ExtractUpTo(packages, fs, i + 1) == Success(results + (DirectEdges(packages, i) + deduped.value))
  {
    ExtractStep(packages, fs, i);
  }

  /** The exported function, loop for loop. */
  method ExtractEdges(packages: seq<Package>, fs: FileSystem) returns (r: Result<seq<Edge>, Error>)
    ensures r == GetPackageDependencies(packages, fs)
  {
    var results: seq<Edge> := [];
    var pkgNames := Names(packages);
    var i := 0;
    while i < |packages|
      invariant 0 <= i <= |packages|
      invariant ExtractUpTo(packages, fs, i) == Success(results)
    {
      var parent := packages[i];
      var direct, found := DirectPhase(packages, i);
      var installed := GetInstalledDeps(fs, parent.folder, pkgNames);
      if installed.Failure? {
        ParentStep(packages, fs, i, results, installed, Success([]));
        FailureSticks(packages, fs, i + 1, |packages|);
        return Failure(installed.error);
      }
      var deduped := DedupPhase(packages, parent, found, installed.value);
      ParentStep(packages, fs, i, results, installed, deduped);
      if deduped.Failure? {
        FailureSticks(packages, fs, i + 1, |packages|);
        return Failure(deduped.error);
      }
      results := results + (direct + deduped.value);
      i := i + 1;
    }
    return Success(results);
  }
}
