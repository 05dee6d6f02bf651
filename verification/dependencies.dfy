/** The dependency-edge extractor exported by `lib/getPackageDependencies.js`. */
module PackageDependencies {
  import opened Results
  import opened PackageModel
  import opened InstalledDeps

  /** `deps && Object.keys(deps).indexOf(name) > -1`: an absent map declares nothing. */
  predicate Declares(deps: DependencyMap, name: string) {
    deps.Some? && name in deps.value
  }

  /** The runtime map (`dev == false`) or the development map (`dev == true`) of `p`. */
  function MapOf(p: Package, dev: bool): DependencyMap {
    if dev then p.devDependencies else p.dependencies
  }

  /** The edge a declaration of `dep` in one of `parent`'s maps produces. */
  function DeclaredEdge(parent: Package, dep: Package, range: string, dev: bool): Edge {
    Edge(dep.name, dep.folder, parent.name, parent.folder, range, dep.version, Some(dev))
  }

  /** `parent` declares `dep` in the map selected by `dev` and `e` is the edge that declaration yields. */
  ghost predicate IsDeclaredEdge(parent: Package, dep: Package, dev: bool, e: Edge) {
    var deps := MapOf(parent, dev);
    Declares(deps, dep.name) && e == DeclaredEdge(parent, dep, deps.value[dep.name], dev)
  }

  /** The edges one candidate contributes to its parent: the runtime edge, then the
      development edge, each present exactly when the corresponding map declares the name. */
  function CandidateEdges(parent: Package, dep: Package): seq<Edge> {
    (if Declares(parent.dependencies, dep.name)
     then [DeclaredEdge(parent, dep, parent.dependencies.value[dep.name], false)] else [])
    + (if Declares(parent.devDependencies, dep.name)
       then [DeclaredEdge(parent, dep, parent.devDependencies.value[dep.name], true)] else [])
  }

  /** One candidate contributes one edge per map that declares it, the runtime edge first, each
      from the candidate to the parent. */
  lemma CandidateShape(parent: Package, dep: Package)
    ensures var r := CandidateEdges(parent, dep);
      && |r| == (if Declares(parent.dependencies, dep.name) then 1 else 0)
                + (if Declares(parent.devDependencies, dep.name) then 1 else 0)
      && (|r| == 2 ==> r[0].dev == Some(false) && r[1].dev == Some(true))
      && forall e :: e in r ==> e.source == dep.name && e.target == parent.name
                                && e.targetFolder == parent.folder && e.dev.Some?
  {
  }

  /** The edges of one candidate are exactly those its declarations yield. */
  lemma CandidateMembership(parent: Package, dep: Package)
    ensures forall e :: e in CandidateEdges(parent, dep) <==>
      IsDeclaredEdge(parent, dep, false, e) || IsDeclaredEdge(parent, dep, true, e)
  {
  }

  /** The direct edges of parent `i` after the inner loop has visited candidates `0 .. n-1`,
      skipping the parent's own index. */
  function DirectUpTo(packages: seq<Package>, i: nat, n: nat): seq<Edge>
    requires i < |packages| && n <= |packages|
  {
    if n == 0 then []
    else DirectUpTo(packages, i, n - 1)
         + (if n - 1 == i then [] else CandidateEdges(packages[i], packages[n - 1]))
  }

  /** The names one candidate pushes onto `found`: once per matching map, so a name declared in
      both maps is pushed twice. */
  function Pushed(parent: Package, dep: Package): seq<string> {
    (if Declares(parent.dependencies, dep.name) then [dep.name] else [])
    + (if Declares(parent.devDependencies, dep.name) then [dep.name] else [])
  }

  /** What visiting candidate `j` adds to the direct edges. */
  lemma DirectStep(packages: seq<Package>, i: nat, j: nat)
    requires i < |packages| && j < |packages|
    ensures DirectUpTo(packages, i, j + 1) ==
            DirectUpTo(packages, i, j) + (if j == i then [] else CandidateEdges(packages[i], packages[j]))
  {
  }

  /** All direct edges of parent `i`. */
  function DirectEdges(packages: seq<Package>, i: nat): seq<Edge>
    requires i < |packages|
  {
    DirectUpTo(packages, i, |packages|)
  }

  /** The sources of a list of edges, in order. */
  function Sources(es: seq<Edge>): (r: seq<string>)
    ensures |r| == |es| && forall k :: 0 <= k < |es| ==> r[k] == es[k].source
  {
    seq(|es|, k requires 0 <= k < |es| => es[k].source)
  }

  lemma SourcesAppend(a: seq<Edge>, b: seq<Edge>)
    ensures Sources(a + b) == Sources(a) + Sources(b)
  {
  }

  /** A candidate's edges carry its name once per declaring map: what the inner loop pushes onto
      `found` alongside them. */
  lemma CandidateSources(parent: Package, dep: Package)
    ensures Sources(CandidateEdges(parent, dep)) == Pushed(parent, dep)
  {
  }

  /** The `found` list of parent `i` once its inner loop is done: every push onto it accompanies
      the push of a direct edge for the same dependency, so it lists the direct edges' sources. */
  function Found(packages: seq<Package>, i: nat): seq<string>
    requires i < |packages|
  {
    Sources(DirectEdges(packages, i))
  }

  /** `packages.filter(d => d.name === name).pop()`, as an index: the last descriptor
      carrying `name`, or `None` when there is none. */
  function LastIndexNamed(packages: seq<Package>, name: string): (r: Option<nat>)
    ensures r.Some? ==> r.value < |packages| && packages[r.value].name == name
    ensures r.Some? ==> forall k :: r.value < k < |packages| ==> packages[k].name != name
    ensures r.None? <==> forall k :: 0 <= k < |packages| ==> packages[k].name != name
    decreases |packages|
  {
    if packages == [] then None
    else if packages[|packages| - 1].name == name then Some(|packages| - 1)
    else LastIndexNamed(packages[..|packages| - 1], name)
  }

  /** The input position of the descriptor carrying `name` (the last one, if several do), or -1. */
  function Position(packages: seq<Package>, name: string): int {
    match LastIndexNamed(packages, name)
    case Some(k) => k
    case None => -1
  }

  /** With distinct names, a descriptor's name sits at that descriptor's own position. */
  lemma PositionOfName(packages: seq<Package>, j: nat)
    requires UniqueNames(packages) && j < |packages|
    ensures Position(packages, packages[j].name) == j
  {
  }

  /** The supplementary edge for an installed copy: the installed folder and version, and
      the version of the descriptor it was matched with. It has no `dev` field. */
  function DedupEdge(parent: Package, rec: InstalledRecord, descriptor: Package): Edge {
    Edge(rec.name, rec.folder, parent.name, parent.folder, rec.version, descriptor.version, None)
  }

  /** `rec` names a package that is not in `found`, `descriptor` is the last descriptor
      carrying that name, and `e` pairs them. */
  ghost predicate IsDedupEdge(packages: seq<Package>, parent: Package, rec: InstalledRecord, e: Edge) {
    exists k :: 0 <= k < |packages| && packages[k].name == rec.name
      && (forall k' :: k < k' < |packages| ==> packages[k'].name != rec.name)
      && e == DedupEdge(parent, rec, packages[k])
  }

  /** The installed records whose names are not in `found`, in scan order. */
  function Unfound(recs: seq<InstalledRecord>, found: seq<string>): (r: seq<InstalledRecord>)
    ensures forall rec :: rec in r <==> rec in recs && rec.name !in found
    ensures |r| <= |recs|
    decreases |recs|
  {
    if recs == [] then []
    else
      var last := recs[|recs| - 1];
      Unfound(recs[..|recs| - 1], found) + (if last.name in found then [] else [last])
  }

  /** An installed record that was not found directly and that no descriptor carries the name of. */
  ghost predicate Orphan(packages: seq<Package>, found: seq<string>, rec: InstalledRecord) {
    rec.name !in found && rec.name !in Names(packages)
  }

  /** What the dedup loop body does with one installed record. */
  function DedupOne(packages: seq<Package>, parent: Package, found: seq<string>, rec: InstalledRecord)
    : (r: Result<seq<Edge>, Error>)
  {
    if rec.name in found then Success([])
    else match LastIndexNamed(packages, rec.name)
      case None => Failure(UnknownPackage(rec.name))
      case Some(k) => Success([DedupEdge(parent, rec, packages[k])])
  }

  /** The dedup loop over the scanned records, in scan order: one supplementary edge per
      record whose name was not found directly, positionally matching `Unfound`; the first
      such record without a descriptor throws. */
  function DedupEdges(packages: seq<Package>, parent: Package, found: seq<string>, recs: seq<InstalledRecord>)
    : (r: Result<seq<Edge>, Error>)
    decreases |recs|
  {
    if recs == [] then Success([])
    else Then(DedupEdges(packages, parent, found, recs[..|recs| - 1]), DedupOne(packages, parent, found, recs[|recs| - 1]))
  }

  /** A successful dedup loop emits, position for position, one edge per record not found
      directly, pairing it with the last descriptor of the same name. */
  lemma {:induction false} DedupSpec(packages: seq<Package>, parent: Package, found: seq<string>, recs: seq<InstalledRecord>)
    ensures var r := DedupEdges(packages, parent, found, recs);
      r.Success? ==>
        && |r.value| == |Unfound(recs, found)|
        && forall k :: 0 <= k < |r.value| ==> IsDedupEdge(packages, parent, Unfound(recs, found)[k], r.value[k])
    decreases |recs|
  {
    var r := DedupEdges(packages, parent, found, recs);
    if recs != [] && r.Success? {
      var init := recs[..|recs| - 1];
      var last := recs[|recs| - 1];
      DedupSpec(packages, parent, found, init);
      var a := DedupEdges(packages, parent, found, init).value;
      var b := DedupOne(packages, parent, found, last).value;
      var u := Unfound(init, found);
      assert r.value == a + b;
      assert Unfound(recs, found) == u + (if last.name in found then [] else [last]);
      forall k | 0 <= k < |r.value|
        ensures IsDedupEdge(packages, parent, Unfound(recs, found)[k], r.value[k])
      {
        if k < |a| {
          assert r.value[k] == a[k] && Unfound(recs, found)[k] == u[k];
        } else {
          var idx := LastIndexNamed(packages, last.name).value;
          assert r.value[k] == DedupEdge(parent, last, packages[idx]);
        }
      }
    }
  }

  /** Everything the outer loop emits for parent `i`: its direct edges, then one dedup edge per
      package installed under its `node_modules` that was not found directly. */
  function ParentEdges(packages: seq<Package>, fs: FileSystem, i: nat): Result<seq<Edge>, Error>
    requires i < |packages|
  {
    var recs :- GetInstalledDeps(fs, packages[i].folder, Names(packages));
    var dedup :- DedupEdges(packages, packages[i], Found(packages, i), recs);
    Success(DirectEdges(packages, i) + dedup)
  }

  /** Every edge of parent `i`'s block, direct or dedup, targets that parent. */
  lemma ParentTargets(packages: seq<Package>, fs: FileSystem, i: nat)
    requires i < |packages|
    ensures var r := ParentEdges(packages, fs, i);
      r.Success? ==> forall e :: e in r.value ==> e.target == packages[i].name && e.targetFolder == packages[i].folder
  {
    var scan := GetInstalledDeps(fs, packages[i].folder, Names(packages));
    if scan.Success? {
      DirectTargets(packages, i, |packages|);
      DedupFields(packages, packages[i], Found(packages, i), scan.value);
    }
  }

  /** The blocks of parents `0 .. n-1`, in input order. */
  function Blocks(packages: seq<Package>, fs: FileSystem, n: nat): (r: seq<Result<seq<Edge>, Error>>)
    requires n <= |packages|
    ensures |r| == n
  {
    seq(n, i requires 0 <= i < n <= |packages| => ParentEdges(packages, fs, i))
  }

  /** The edges of parents `0 .. n-1`, in parent order; the first parent that throws aborts. */
  function ExtractUpTo(packages: seq<Package>, fs: FileSystem, n: nat): Result<seq<Edge>, Error>
    requires n <= |packages|
  {
    ConcatAll(Blocks(packages, fs, n))
  }

  /** The exported function: the edges of all parents. */
  function GetPackageDependencies(packages: seq<Package>, fs: FileSystem): Result<seq<Edge>, Error> {
    ExtractUpTo(packages, fs, |packages|)
  }

  /** One more turn of the outer loop appends parent `n`'s block. */
  lemma ExtractStep(packages: seq<Package>, fs: FileSystem, n: nat)
    requires n < |packages|
    ensures ExtractUpTo(packages, fs, n + 1) == Then(ExtractUpTo(packages, fs, n), ParentEdges(packages, fs, n))
  {
    assert Blocks(packages, fs, n + 1) == Blocks(packages, fs, n) + [ParentEdges(packages, fs, n)];
    ConcatAllStep(Blocks(packages, fs, n), ParentEdges(packages, fs, n));
  }

  /** Every direct edge of parent `i` targets that parent. */
  lemma {:induction false} DirectTargets(packages: seq<Package>, i: nat, n: nat)
    requires i < |packages| && n <= |packages|
    ensures forall e :: e in DirectUpTo(packages, i, n) ==>
              e.target == packages[i].name && e.targetFolder == packages[i].folder && e.dev.Some?
  {
    if n > 0 {
      DirectTargets(packages, i, n - 1);
      CandidateShape(packages[i], packages[n - 1]);
      var xs := DirectUpTo(packages, i, n - 1);
      var c := if n - 1 == i then [] else CandidateEdges(packages[i], packages[n - 1]);
      assert DirectUpTo(packages, i, n) == xs + c;
      assert forall e :: e in xs + c ==> e in xs || e in c;
    }
  }

  /** The dedup loop throws exactly when some record not found directly has no descriptor,
      and what it throws is the unknown-package error. */
  lemma {:induction false} DedupFailure(packages: seq<Package>, parent: Package, found: seq<string>, recs: seq<InstalledRecord>)
    ensures var r := DedupEdges(packages, parent, found, recs);
      && (r.Failure? <==> exists rec :: rec in recs && Orphan(packages, found, rec))
      && (r.Failure? ==> exists rec :: rec in recs && Orphan(packages, found, rec) && r.error == UnknownPackage(rec.name))
    decreases |recs|
  {
    if recs != [] {
      var init := recs[..|recs| - 1];
      var last := recs[|recs| - 1];
      assert recs == init + [last];
      DedupFailure(packages, parent, found, init);
      var r0 := DedupEdges(packages, parent, found, init);
      var r1 := DedupOne(packages, parent, found, last);
      if r0.Failure? {
        var rec :| rec in init && Orphan(packages, found, rec) && r0.error == UnknownPackage(rec.name);
        assert rec in recs;
      } else if r1.Failure? {
        assert Orphan(packages, found, last);
      } else {
        assert !Orphan(packages, found, last);
        forall rec | rec in recs
          ensures !Orphan(packages, found, rec)
        {
          if rec != last {
            assert rec in init;
          }
        }
      }
    }
  }

  /** Every dedup edge has no `dev` field, targets the parent, and has a source that was not
      found directly: the two phases never report the same name for one parent. */
  lemma DedupFields(packages: seq<Package>, parent: Package, found: seq<string>, recs: seq<InstalledRecord>)
    ensures var r := DedupEdges(packages, parent, found, recs);
      r.Success? ==> forall e :: e in r.value ==>
        e.dev.None? && e.source !in found && e.target == parent.name && e.targetFolder == parent.folder
  {
  }
}
