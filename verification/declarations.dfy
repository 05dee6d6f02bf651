/** The extraction depends on a dependency map only through the names it declares and their
    ranges; in particular an absent map and an empty map are interchangeable. */
module DeclarationProperties {
  import opened Results
  import opened PackageModel
  import opened InstalledDeps
  import opened PackageDependencies

  /** The two maps declare the same names with the same ranges. */
  ghost predicate SameDeclarations(a: DependencyMap, b: DependencyMap) {
    forall name :: (Declares(a, name) <==> Declares(b, name)) && (Declares(a, name) ==> a.value[name] == b.value[name])
  }

  /** Two descriptor lists that differ at most in how their declarations are written down. */
  ghost predicate SameShape(xs: seq<Package>, ys: seq<Package>) {
    && |xs| == |ys|
    && forall k :: 0 <= k < |xs| ==>
         && xs[k].name == ys[k].name && xs[k].version == ys[k].version && xs[k].folder == ys[k].folder
         && SameDeclarations(xs[k].dependencies, ys[k].dependencies)
         && SameDeclarations(xs[k].devDependencies, ys[k].devDependencies)
  }

  lemma CandidateSame(p: Package, q: Package, dep: Package, dep': Package)
    requires p.name == q.name && p.folder == q.folder
    requires SameDeclarations(p.dependencies, q.dependencies) && SameDeclarations(p.devDependencies, q.devDependencies)
    requires dep.name == dep'.name && dep.version == dep'.version && dep.folder == dep'.folder
    ensures CandidateEdges(p, dep) == CandidateEdges(q, dep')
  {
  }

  lemma {:induction false} DirectSame(xs: seq<Package>, ys: seq<Package>, i: nat, n: nat)
    requires SameShape(xs, ys) && i < |xs| && n <= |xs|
    ensures DirectUpTo(xs, i, n) == DirectUpTo(ys, i, n)
  {
    if n > 0 {
      DirectSame(xs, ys, i, n - 1);
      var p, q, d, d' := xs[i], ys[i], xs[n - 1], ys[n - 1];
      assert d.name == d'.name && d.version == d'.version && d.folder == d'.folder;
      assert p.name == q.name && p.folder == q.folder;
      assert SameDeclarations(p.dependencies, q.dependencies) && SameDeclarations(p.devDependencies, q.devDependencies);
      CandidateSame(p, q, d, d');
      assert Declares(p.dependencies, d.name) == Declares(q.dependencies, d'.name);
      assert Declares(p.devDependencies, d.name) == Declares(q.devDependencies, d'.name);
      assert DirectUpTo(xs, i, n) == DirectUpTo(xs, i, n - 1) + (if n - 1 == i then [] else CandidateEdges(p, d));
      assert DirectUpTo(ys, i, n) == DirectUpTo(ys, i, n - 1) + (if n - 1 == i then [] else CandidateEdges(q, d'));
    }
  }

  lemma LastIndexSame(xs: seq<Package>, ys: seq<Package>, name: string)
    requires SameShape(xs, ys)
    ensures LastIndexNamed(xs, name) == LastIndexNamed(ys, name)
  {
  }

  lemma {:induction false} DedupSame(xs: seq<Package>, ys: seq<Package>, p: Package, q: Package,
                                     found: seq<string>, recs: seq<InstalledRecord>)
    requires SameShape(xs, ys) && p.name == q.name && p.folder == q.folder
    ensures DedupEdges(xs, p, found, recs) == DedupEdges(ys, q, found, recs)
    decreases |recs|
  {
    if recs != [] {
      DedupSame(xs, ys, p, q, found, recs[..|recs| - 1]);
      LastIndexSame(xs, ys, recs[|recs| - 1].name);
    }
  }

  lemma ParentSame(xs: seq<Package>, ys: seq<Package>, fs: FileSystem, i: nat)
    requires SameShape(xs, ys) && i < |xs|
    ensures ParentEdges(xs, fs, i) == ParentEdges(ys, fs, i)
  {
    DirectSame(xs, ys, i, |xs|);
    assert Names(xs) == Names(ys);
    var scan := GetInstalledDeps(fs, xs[i].folder, Names(xs));
    if scan.Success? {
      DedupSame(xs, ys, xs[i], ys[i], Found(xs, i), scan.value);
    }
  }

  /** Descriptor lists whose parents yield the same blocks yield the same extraction. */
  lemma ExtractSame(xs: seq<Package>, ys: seq<Package>, fs: FileSystem, n: nat)
    requires |xs| == |ys| && n <= |xs|
    requires forall k :: 0 <= k < |xs| ==> ParentEdges(xs, fs, k) == ParentEdges(ys, fs, k)
    ensures ExtractUpTo(xs, fs, n) == ExtractUpTo(ys, fs, n)
  {
    assert Blocks(xs, fs, n) == Blocks(ys, fs, n);
  }

  /** A package without a `dependencies` or `devDependencies` field behaves exactly as one whose
      field is an empty map. */
  lemma AbsentMapIsEmpty(packages: seq<Package>, fs: FileSystem, i: nat, dev: bool)
    requires i < |packages| && MapOf(packages[i], dev).None?
    ensures var p := if dev then packages[i].(devDependencies := Some(map[]))
                     else packages[i].(dependencies := Some(map[]));
      GetPackageDependencies(packages, fs) == GetPackageDependencies(packages[i := p], fs)
  {
    var p := if dev then packages[i].(devDependencies := Some(map[]))
             else packages[i].(dependencies := Some(map[]));
    var ys := packages[i := p];
    assert SameShape(packages, ys) by {
      forall k | 0 <= k < |packages|
        ensures SameDeclarations(packages[k].dependencies, ys[k].dependencies)
        ensures SameDeclarations(packages[k].devDependencies, ys[k].devDependencies)
      {
      }
    }
    forall k | 0 <= k < |packages|
      ensures ParentEdges(packages, fs, k) == ParentEdges(ys, fs, k)
    {
      ParentSame(packages, ys, fs, k);
    }
    ExtractSame(packages, ys, fs, |packages|);
  }
}
