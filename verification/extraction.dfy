/** Properties of one parent's block of edges and of the whole extraction. */
module ExtractionProperties {
  import opened Results
  import opened PackageModel
  import opened InstalledDeps
  import opened PackageDependencies
  import opened DirectEdgeProperties

  /** Within one parent's block, once a dedup edge (no `dev` field) appears no direct edge follows. */
  ghost predicate DirectBeforeDedup(es: seq<Edge>) {
    forall p, q :: 0 <= p < q < |es| && es[q].dev.Some? ==> es[p].dev.Some?
  }

  /** No name is reported both by a direct edge and by a dedup edge. */
  ghost predicate PhasesDisjoint(es: seq<Edge>) {
    forall p, q :: 0 <= p < |es| && 0 <= q < |es| && es[p].dev.Some? && es[q].dev.None? ==> es[p].source != es[q].source
  }

  /** One parent's block: its direct edges come first, then its dedup edges, and a name that
      produced a direct or dev edge is never re-emitted as a dedup edge. */
  lemma ParentPhases(packages: seq<Package>, fs: FileSystem, i: nat)
    requires i < |packages|
    ensures var r := ParentEdges(packages, fs, i);
      r.Success? ==> DirectBeforeDedup(r.value) && PhasesDisjoint(r.value)
  {
    var r := ParentEdges(packages, fs, i);
    if r.Success? {
      var recs := GetInstalledDeps(fs, packages[i].folder, Names(packages)).value;
      var found := Found(packages, i);
      var d := DirectEdges(packages, i);
      var x := DedupEdges(packages, packages[i], found, recs).value;
      assert r.value == d + x;
      DirectTargets(packages, i, |packages|);
      DedupFields(packages, packages[i], found, recs);
      var es := r.value;
      forall p, q | 0 <= p < q < |es| && es[q].dev.Some?
        ensures es[p].dev.Some?
      {
        assert es[p] in d;
      }
      forall p, q | 0 <= p < |es| && 0 <= q < |es| && es[p].dev.Some? && es[q].dev.None?
        ensures es[p].source != es[q].source
      {
        assert es[p].source == found[p];
      }
    }
  }

  /** A parent's block fails exactly when its scan fails or an installed name that was not found
      directly has no descriptor. */
  lemma ParentFailure(packages: seq<Package>, fs: FileSystem, i: nat)
    requires i < |packages|
    ensures var scan := GetInstalledDeps(fs, packages[i].folder, Names(packages));
      ParentEdges(packages, fs, i).Failure? <==>
        scan.Failure? || exists rec :: rec in scan.value && Orphan(packages, Found(packages, i), rec)
  {
    var scan := GetInstalledDeps(fs, packages[i].folder, Names(packages));
    if scan.Success? {
      DedupFailure(packages, packages[i], Found(packages, i), scan.value);
    }
  }

  /** An installed package whose name neither of the parent's maps declares gets a dedup edge
      carrying the installed folder and version and the version of the last descriptor with
      that name. */
  lemma UndeclaredInstalledGetsEdge(packages: seq<Package>, fs: FileSystem, i: nat, rec: InstalledRecord)
    requires i < |packages|
    requires ParentEdges(packages, fs, i).Success?
    requires rec in GetInstalledDeps(fs, packages[i].folder, Names(packages)).value
    requires !Declares(packages[i].dependencies, rec.name) && !Declares(packages[i].devDependencies, rec.name)
    ensures exists e :: e in ParentEdges(packages, fs, i).value && IsDedupEdge(packages, packages[i], rec, e)
  {
    var recs := GetInstalledDeps(fs, packages[i].folder, Names(packages)).value;
    var found := Found(packages, i);
    UndeclaredNotFound(packages, i, rec.name);
    var u := Unfound(recs, found);
    assert rec in u;
    var k :| 0 <= k < |u| && u[k] == rec;
    var x := DedupEdges(packages, packages[i], found, recs).value;
    DedupSpec(packages, packages[i], found, recs);
    var d := DirectEdges(packages, i);
    assert ParentEdges(packages, fs, i).value == d + x;
    assert x[k] in d + x;
  }

  /** The number of dedup edges (no `dev` field) in `es` with source `name`. */
  function CountDedup(es: seq<Edge>, name: string): nat
    decreases |es|
  {
    if es == [] then 0
    else CountDedup(es[..|es| - 1], name)
         + (if es[|es| - 1].source == name && es[|es| - 1].dev.None? then 1 else 0)
  }

  /** The number of installed records named `name`. */
  function CountRecords(recs: seq<InstalledRecord>, name: string): nat
    decreases |recs|
  {
    if recs == [] then 0
    else CountRecords(recs[..|recs| - 1], name) + (if recs[|recs| - 1].name == name then 1 else 0)
  }

  lemma {:induction false} CountDedupAppend(a: seq<Edge>, b: seq<Edge>, name: string)
    ensures CountDedup(a + b, name) == CountDedup(a, name) + CountDedup(b, name)
    decreases |b|
  {
    if b == [] {
      assert a + b == a;
    } else {
      var b' := b[..|b| - 1];
      assert (a + b)[..|a + b| - 1] == a + b';
      CountDedupAppend(a, b', name);
    }
  }

  /** Edges that all carry a `dev` flag contain no dedup edge. */
  lemma {:induction false} NoDedupAmongFlagged(es: seq<Edge>, name: string)
    requires forall e :: e in es ==> e.dev.Some?
    ensures CountDedup(es, name) == 0
    decreases |es|
  {
    if es != [] {
      assert forall e :: e in es[..|es| - 1] ==> e in es;
      NoDedupAmongFlagged(es[..|es| - 1], name);
    }
  }

  /** For a name not found directly, the dedup loop emits one edge per installed record carrying
      that name. */
  lemma {:induction false} DedupCount(packages: seq<Package>, parent: Package, found: seq<string>,
                                      recs: seq<InstalledRecord>, name: string)
    requires name !in found
    ensures var r := DedupEdges(packages, parent, found, recs);
      r.Success? ==> CountDedup(r.value, name) == CountRecords(recs, name)
    decreases |recs|
  {
    var r := DedupEdges(packages, parent, found, recs);
    if recs != [] && r.Success? {
      var init, last := recs[..|recs| - 1], recs[|recs| - 1];
      var a := DedupEdges(packages, parent, found, init);
      var b := DedupOne(packages, parent, found, last);
      assert r == Then(a, b);
      DedupCount(packages, parent, found, init, name);
      CountDedupAppend(a.value, b.value, name);
      if last.name !in found {
        var k := LastIndexNamed(packages, last.name).value;
        assert b.value == [DedupEdge(parent, last, packages[k])];
        assert b.value[..0] == [];
      } else {
        assert b.value == [];
      }
    }
  }

  /** An installed name that neither of the parent's maps declares gets exactly as many dedup
      edges in the parent's block as the scan reports records with that name. */
  lemma UndeclaredInstalledCount(packages: seq<Package>, fs: FileSystem, i: nat, name: string)
    requires i < |packages|
    requires !Declares(packages[i].dependencies, name) && !Declares(packages[i].devDependencies, name)
    ensures var r := ParentEdges(packages, fs, i);
      var scan := GetInstalledDeps(fs, packages[i].folder, Names(packages));
      r.Success? ==> scan.Success? && CountDedup(r.value, name) == CountRecords(scan.value, name)
  {
    var r := ParentEdges(packages, fs, i);
    if r.Success? {
      var recs := GetInstalledDeps(fs, packages[i].folder, Names(packages)).value;
      var found := Found(packages, i);
      UndeclaredNotFound(packages, i, name);
      DedupCount(packages, packages[i], found, recs, name);
      DirectTargets(packages, i, |packages|);
      var d := DirectEdges(packages, i);
      var x := DedupEdges(packages, packages[i], found, recs).value;
      assert r.value == d + x;
      NoDedupAmongFlagged(d, name);
      CountDedupAppend(d, x, name);
    }
  }

  // ---------------------------------------------------------------------------

  /** The extraction over parents `0 .. n-1` succeeds exactly when every parent's block does. */
  lemma ExtractSucceeds(packages: seq<Package>, fs: FileSystem, n: nat)
    requires n <= |packages|
    ensures ExtractUpTo(packages, fs, n).Success? <==> forall i :: 0 <= i < n ==> ParentEdges(packages, fs, i).Success?
  {
    var bs := Blocks(packages, fs, n);
    ConcatAllSucceeds(bs);
    assert forall i :: 0 <= i < n ==> bs[i] == ParentEdges(packages, fs, i);
  }

  /** A failing extraction reports the error of the first parent that throws. */
  lemma ExtractFirstFailure(packages: seq<Package>, fs: FileSystem, n: nat)
    requires n <= |packages|
    ensures ExtractUpTo(packages, fs, n).Failure? ==>
      exists i :: 0 <= i < n && ParentEdges(packages, fs, i).Failure?
        && ExtractUpTo(packages, fs, n).error == ParentEdges(packages, fs, i).error
        && forall i' :: 0 <= i' < i ==> ParentEdges(packages, fs, i').Success?
  {
    var bs := Blocks(packages, fs, n);
    ConcatAllFirstFailure(bs);
    assert forall i :: 0 <= i < n ==> bs[i] == ParentEdges(packages, fs, i);
  }

  /** Once an earlier prefix of parents has thrown, later parents change nothing. */
  lemma FailureSticks(packages: seq<Package>, fs: FileSystem, m: nat, n: nat)
    requires m <= n <= |packages|
    requires ExtractUpTo(packages, fs, m).Failure?
    ensures ExtractUpTo(packages, fs, n) == ExtractUpTo(packages, fs, m)
  {
    assert Blocks(packages, fs, n)[..m] == Blocks(packages, fs, m);
    ConcatAllSticks(Blocks(packages, fs, n), m);
  }

  /** Every emitted edge targets one of the parents visited so far. */
  lemma {:induction false} ExtractTargets(packages: seq<Package>, fs: FileSystem, n: nat)
    requires n <= |packages|
    ensures var r := ExtractUpTo(packages, fs, n);
      r.Success? ==> forall e :: e in r.value ==>
        exists i :: 0 <= i < n && e.target == packages[i].name && e.targetFolder == packages[i].folder
  {
    if n > 0 {
      ExtractTargets(packages, fs, n - 1);
      ExtractStep(packages, fs, n - 1);
      var r := ExtractUpTo(packages, fs, n);
      if r.Success? {
        var prev := ExtractUpTo(packages, fs, n - 1).value;
        var block := ParentEdges(packages, fs, n - 1).value;
        assert r.value == prev + block;
        ParentTargets(packages, fs, n - 1);
        forall e: Edge | e in r.value
          ensures exists i :: 0 <= i < n && e.target == packages[i].name && e.targetFolder == packages[i].folder
        {
          if e in prev {
            var i :| 0 <= i < n - 1 && e.target == packages[i].name && e.targetFolder == packages[i].folder;
            assert 0 <= i < n;
          } else {
            assert e in block;
          }
        }
      }
    }
  }

  /** Edges are grouped by parent in input order: an edge for an earlier parent never follows
      an edge for a later one. */
  ghost predicate TargetsInInputOrder(packages: seq<Package>, es: seq<Edge>) {
    forall p, q :: 0 <= p < q < |es| ==> Position(packages, es[p].target) <= Position(packages, es[q].target)
  }

  lemma BlockAppend(packages: seq<Package>, prev: seq<Edge>, block: seq<Edge>, m: int)
    requires TargetsInInputOrder(packages, prev)
    requires forall e :: e in prev ==> Position(packages, e.target) < m
    requires forall e :: e in block ==> Position(packages, e.target) == m
    ensures TargetsInInputOrder(packages, prev + block)
  {
  }

  /** Under distinct names, the targets of parents before `m` sit before position `m`. */
  lemma TargetsBefore(packages: seq<Package>, fs: FileSystem, m: nat)
    requires UniqueNames(packages) && m <= |packages|
    ensures var r := ExtractUpTo(packages, fs, m);
      r.Success? ==> forall e :: e in r.value ==> Position(packages, e.target) < m
  {
    var r := ExtractUpTo(packages, fs, m);
    if r.Success? {
      ExtractTargets(packages, fs, m);
      forall e | e in r.value
        ensures Position(packages, e.target) < m
      {
        var i :| 0 <= i < m && e.target == packages[i].name && e.targetFolder == packages[i].folder;
        PositionOfName(packages, i);
      }
    }
  }

  lemma {:induction false} ParentOrder(packages: seq<Package>, fs: FileSystem, n: nat)
    requires UniqueNames(packages) && n <= |packages|
    ensures var r := ExtractUpTo(packages, fs, n);
      r.Success? ==> TargetsInInputOrder(packages, r.value)
  {
    if n > 0 {
      var r := ExtractUpTo(packages, fs, n);
      ExtractStep(packages, fs, n - 1);
      if r.Success? {
        ParentOrder(packages, fs, n - 1);
        TargetsBefore(packages, fs, n - 1);
        ParentTargets(packages, fs, n - 1);
        PositionOfName(packages, n - 1);
        var prev := ExtractUpTo(packages, fs, n - 1).value;
        var block := ParentEdges(packages, fs, n - 1).value;
        BlockAppend(packages, prev, block, n - 1);
      }
    }
  }

  /** Every parent is scanned, whether or not it declares anything: a parent without a
      `node_modules` directory makes the whole extraction throw. */
  lemma MissingInstallDirFails(packages: seq<Package>, fs: FileSystem, i: nat)
    requires i < |packages| && InstallDir(packages[i].folder) !in fs.listings
    ensures GetPackageDependencies(packages, fs).Failure?
  {
    assert ParentEdges(packages, fs, i).Failure?;
    ExtractSucceeds(packages, fs, |packages|);
  }

  /** Neither map of `p` declares anything (both absent or empty). */
  ghost predicate DeclaresNothing(p: Package) {
    forall name :: !Declares(p.dependencies, name) && !Declares(p.devDependencies, name)
  }

  /** No package declares anything. */
  ghost predicate NoDeclarations(packages: seq<Package>) {
    forall k :: 0 <= k < |packages| ==> DeclaresNothing(packages[k])
  }

  /** With no declarations and every parent's `node_modules` present but empty, there are no edges. */
  lemma {:induction false} NothingDeclaredNothingInstalled(packages: seq<Package>, fs: FileSystem, n: nat)
    requires n <= |packages| && NoDeclarations(packages)
    requires forall k :: 0 <= k < |packages| ==>
      InstallDir(packages[k].folder) in fs.listings && fs.listings[InstallDir(packages[k].folder)] == []
    ensures ExtractUpTo(packages, fs, n) == Success([])
  {
    if n > 0 {
      NothingDeclaredNothingInstalled(packages, fs, n - 1);
      ExtractStep(packages, fs, n - 1);
      ParentEmpty(packages, fs, n - 1);
    }
  }

  /** A parent that declares nothing and has an empty `node_modules` contributes no edges. */
  lemma ParentEmpty(packages: seq<Package>, fs: FileSystem, i: nat)
    requires i < |packages| && DeclaresNothing(packages[i])
    requires InstallDir(packages[i].folder) in fs.listings && fs.listings[InstallDir(packages[i].folder)] == []
    ensures ParentEdges(packages, fs, i) == Success([])
  {
    DeclarationsAbsentNoDirect(packages, i, |packages|);
    assert GetInstalledDeps(fs, packages[i].folder, Names(packages)) == Success([]);
  }

  /** A parent that declares nothing has no direct edges. */
  lemma {:induction false} DeclarationsAbsentNoDirect(packages: seq<Package>, i: nat, n: nat)
    requires i < |packages| && n <= |packages| && DeclaresNothing(packages[i])
    ensures DirectUpTo(packages, i, n) == []
  {
    if n > 0 {
      DeclarationsAbsentNoDirect(packages, i, n - 1);
      assert !Declares(packages[i].dependencies, packages[n - 1].name);
      assert !Declares(packages[i].devDependencies, packages[n - 1].name);
    }
  }
}
