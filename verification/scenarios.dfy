/** Three concrete workspaces worked through the model: a plain declaration, an installed copy
    that no map declares, and a scoped package two directory levels down. */
module Scenarios {
  import opened Results
  import opened PackageModel
  import opened InstalledDeps
  import opened PackageDependencies
  import opened ExtractionProperties

  const App := Package("app", "1.0.0", "/ws/app", Some(map["lib" := "^1.0.0"]), None)
  const Lib := Package("lib", "1.2.0", "/ws/lib", None, None)
  const Utils := Package("utils", "2.0.0", "/ws/utils", None, None)

  /** Every root has an empty `node_modules`. */
  const Bare := FileSystem(map["/ws/app/node_modules" := [], "/ws/lib/node_modules" := []], map[])

  const Pair := [App, Lib]
  const LibEdge := Edge("lib", "/ws/lib", "app", "/ws/app", "^1.0.0", "1.2.0", Some(false))

  lemma AppDirect(packages: seq<Package>)
    requires packages == Pair || packages == Workspace
    ensures DirectEdges(packages, 0) == [LibEdge]
  {
    assert packages[0] == App && packages[1] == Lib;
    DirectStep(packages, 0, 0);
    DirectStep(packages, 0, 1);
    if packages == Workspace {
      assert packages[2] == Utils;
      DirectStep(packages, 0, 2);
    }
  }

  /** `app` declares `lib`: one runtime edge and nothing else. */
  lemma DeclaredDependency()
    ensures GetPackageDependencies(Pair, Bare) == Success([LibEdge])
  {
    assert InstallDir("/ws/app") == "/ws/app/node_modules";
    assert InstallDir("/ws/lib") == "/ws/lib/node_modules";
    assert ExtractUpTo(Pair, Bare, 0) == Success([]) by {
      assert Blocks(Pair, Bare, 0) == [];
    }
    AppDirect(Pair);
    assert GetInstalledDeps(Bare, "/ws/app", Names(Pair)) == Success([]);
    assert ParentEdges(Pair, Bare, 0) == Success([LibEdge] + []);
    ExtractStep(Pair, Bare, 0);
    assert [] + [LibEdge] + [] == [LibEdge];
    ParentEmpty(Pair, Bare, 1);
    ExtractStep(Pair, Bare, 1);
    assert [LibEdge] + [] == [LibEdge];
  }

  /** `app`'s `node_modules` additionally holds a link `utils`. */
  const Linked := FileSystem(
    map["/ws/app/node_modules" := [Leaf("utils")], "/ws/lib/node_modules" := [], "/ws/utils/node_modules" := []],
    map["/ws/app/node_modules/utils" := Manifest("utils", "1.1.0")])

  const Workspace := [App, Lib, Utils]
  const UtilsEdge := Edge("utils", "/ws/app/node_modules/utils", "app", "/ws/app", "1.1.0", "2.0.0", None)

  lemma LinkedScan()
    ensures GetInstalledDeps(Linked, "/ws/app", Names(Workspace))
         == Success([InstalledRecord("utils", "1.1.0", "/ws/app/node_modules/utils")])
  {
    var names := Names(Workspace);
    assert names == ["app", "lib", "utils"];
    assert InstallDir("/ws/app") == "/ws/app/node_modules";
    assert Join("/ws/app/node_modules", "utils") == "/ws/app/node_modules/utils";
    var rec := InstalledRecord("utils", "1.1.0", "/ws/app/node_modules/utils");
    assert "utils" in names;
    assert ReadManifest(Linked, "/ws/app/node_modules/utils") == Success(Manifest("utils", "1.1.0"));
    assert EntryRecords(Linked, "/ws/app/node_modules", Leaf("utils"), names) == Success([rec]);
    assert [Leaf("utils")][1..] == [];
    assert ListingRecords(Linked, "/ws/app/node_modules", [], names) == Success([]);
    assert [rec] + [] == [rec];
  }

  lemma AppEdges()
    ensures ParentEdges(Workspace, Linked, 0) == Success([LibEdge, UtilsEdge])
  {
    var packages := Workspace;
    assert packages[0] == App;
    var rec := InstalledRecord("utils", "1.1.0", "/ws/app/node_modules/utils");
    LinkedScan();
    AppDirect(packages);
    assert Found(packages, 0) == ["lib"];
    assert LastIndexNamed(packages, "utils") == Some(2);
    assert "utils" !in ["lib"];
    assert DedupOne(packages, App, ["lib"], rec) == Success([UtilsEdge]);
    assert [rec][..0] == [];
    assert DedupEdges(packages, App, ["lib"], [rec]) == Then(Success([]), Success([UtilsEdge]));
    assert [] + [UtilsEdge] == [UtilsEdge];
    assert [LibEdge] + [UtilsEdge] == [LibEdge, UtilsEdge];
    assert GetInstalledDeps(Linked, packages[0].folder, Names(packages)) == Success([rec]);
    assert DedupEdges(packages, packages[0], Found(packages, 0), [rec]) == Success([UtilsEdge]);
  }

  lemma OtherParentsQuiet(k: nat)
    requires 1 <= k < 3
    ensures ParentEdges(Workspace, Linked, k) == Success([])
  {
    if k == 1 {
      assert InstallDir("/ws/lib") == "/ws/lib/node_modules";
    } else {
      assert InstallDir("/ws/utils") == "/ws/utils/node_modules";
    }
    ParentEmpty(Workspace, Linked, k);
  }

  /** `app`'s `node_modules` additionally holds a link `utils` whose manifest says version
      1.1.0; no map declares it, so it is reported against the `utils` descriptor. */
  lemma InstalledCopy()
    ensures GetPackageDependencies(Workspace, Linked) == Success([LibEdge, UtilsEdge])
  {
    var edges := [LibEdge, UtilsEdge];
    assert ExtractUpTo(Workspace, Linked, 0) == Success([]) by {
      assert Blocks(Workspace, Linked, 0) == [];
    }
    AppEdges();
    ExtractStep(Workspace, Linked, 0);
    assert [] + edges == edges;
    assert ExtractUpTo(Workspace, Linked, 1) == Success(edges);
    OtherParentsQuiet(1);
    ExtractStep(Workspace, Linked, 1);
    assert edges + [] == edges;
    assert ExtractUpTo(Workspace, Linked, 2) == Success(edges);
    OtherParentsQuiet(2);
    ExtractStep(Workspace, Linked, 2);
  }

  /** A scoped package sits two levels down and is reported under its full scoped name. */
  const Scoped := FileSystem(
    map["/ws/app/node_modules" := [Dir("@scope", [Dir("pkg", [])])]],
    map["/ws/app/node_modules/@scope/pkg" := Manifest("pkg", "3.0.0")])

  lemma ScopedPackage()
    ensures GetInstalledDeps(Scoped, "/ws/app", ["app", "@scope/pkg"])
         == Success([InstalledRecord("@scope/pkg", "3.0.0", "/ws/app/node_modules/@scope/pkg")])
  {
    var dir := "/ws/app/node_modules";
    assert InstallDir("/ws/app") == dir;
    assert "@scope" + "/" + "pkg" == "@scope/pkg";
    assert Join(dir, "@scope/pkg") == "/ws/app/node_modules/@scope/pkg";
    var child := Dir("pkg", []);
    var names := ["app", "@scope/pkg"];
    var recs := [InstalledRecord("@scope/pkg", "3.0.0", "/ws/app/node_modules/@scope/pkg")];
    assert "@scope/pkg" in names;
    assert ReadManifest(Scoped, "/ws/app/node_modules/@scope/pkg") == Success(Manifest("pkg", "3.0.0"));
    assert ScopedChild(Scoped, dir, "@scope", child, names) == Success(recs);
    assert [child][1..] == [];
    assert ScopedRecords(Scoped, dir, "@scope", [child], names) == Success(recs + []);
    assert recs + [] == recs;
    assert [Dir("@scope", [child])][1..] == [];
    assert ListingRecords(Scoped, dir, [Dir("@scope", [child])], names) == Success(recs + []);
  }

  /** An unscoped package installed as a real directory is read as a scope container: its own
      `package.json` is a plain file, so nothing is reported for it. Only a link is seen. */
  const Copied := FileSystem(
    map["/ws/app/node_modules" := [Dir("utils", [Leaf("package.json")])]],
    map["/ws/app/node_modules/utils" := Manifest("utils", "1.1.0")])

  lemma CopiedDirectoryUnseen()
    ensures GetInstalledDeps(Copied, "/ws/app", ["app", "utils"]) == Success([])
  {
    var dir := "/ws/app/node_modules";
    assert InstallDir("/ws/app") == dir;
    var child := Leaf("package.json");
    assert ScopedChild(Copied, dir, "utils", child, ["app", "utils"]) == Success([]);
    assert [child][1..] == [];
    assert [Dir("utils", [child])][1..] == [];
  }
}
