/** `getInstalledDeps`: which of the workspace packages are physically installed below a
    package root, read from an abstract directory listing and manifest table. */
module InstalledDeps {
  import opened Results
  import opened PackageModel

  /** Reads `<folder>/package.json`; a missing or unparsable file throws. */
  function ReadManifest(fs: FileSystem, folder: string): (r: Result<Manifest, Error>)
    ensures r.Success? <==> folder in fs.manifests
    ensures r.Failure? ==> r.error == BadManifest(folder)
  {
    if folder in fs.manifests then Success(fs.manifests[folder]) else Failure(BadManifest(folder))
  }

  /** The record a single child of the first-level directory `scope` contributes: one when the
      child is itself a directory and the combined name `scope/child` is wanted. The record
      keeps the combined name and only the manifest's version. */
  function ScopedChild(fs: FileSystem, dir: string, scope: string, child: Entry, names: seq<string>)
    : (r: Result<seq<InstalledRecord>, Error>)
    ensures r.Success? ==> forall rec :: rec in r.value <==> FromScoped(fs, dir, scope, child, names, rec)
    ensures r.Success? ==> |r.value| == (if WantedChild(scope, child, names) then 1 else 0)
    ensures r.Failure? <==> ScopedMissing(fs, dir, scope, child, names)
  {
    var name := scope + "/" + child.name;
    if child.Dir? && name in names then
      var m :- ReadManifest(fs, Join(dir, name));
      Success([InstalledRecord(name, m.version, Join(dir, name))])
    else Success([])
  }

  /** The records of all children of the first-level directory `scope`, in listing order. */
  function ScopedRecords(fs: FileSystem, dir: string, scope: string, children: seq<Entry>, names: seq<string>)
    : (r: Result<seq<InstalledRecord>, Error>)
    decreases |children|
  {
    if children == [] then Success([])
    else Then(ScopedChild(fs, dir, scope, children[0], names), ScopedRecords(fs, dir, scope, children[1..], names))
  }

  /** The records contributed by one entry of `node_modules`. Every directory is treated as a
      scope container; any other entry is a package whose name and version are read from its
      manifest when the entry name is wanted. */
  function EntryRecords(fs: FileSystem, dir: string, e: Entry, names: seq<string>)
    : (r: Result<seq<InstalledRecord>, Error>)
    ensures e.Leaf? && r.Success? ==> |r.value| == (if e.name in names then 1 else 0)
    ensures e.Leaf? ==> (r.Failure? <==> e.name in names && Join(dir, e.name) !in fs.manifests)
  {
    match e
    case Dir(scope, children) => ScopedRecords(fs, dir, scope, children, names)
    case Leaf(n) =>
      if n in names then
        var m :- ReadManifest(fs, Join(dir, n));
        Success([InstalledRecord(m.name, m.version, Join(dir, n))])
      else Success([])
  }

  /** The records of a whole listing, entry by entry in listing order. */
  function ListingRecords(fs: FileSystem, dir: string, entries: seq<Entry>, names: seq<string>)
    : (r: Result<seq<InstalledRecord>, Error>)
    decreases |entries|
  {
    if entries == [] then Success([])
    else Then(EntryRecords(fs, dir, entries[0], names), ListingRecords(fs, dir, entries[1..], names))
  }

  /** `getInstalledDeps(rootDir, pkgNames)`: a missing `node_modules` throws. */
  function GetInstalledDeps(fs: FileSystem, root: string, names: seq<string>): (r: Result<seq<InstalledRecord>, Error>)
    ensures InstallDir(root) !in fs.listings ==> r == Failure(MissingDirectory(InstallDir(root)))
  {
    var dir := InstallDir(root);
    if dir !in fs.listings then Failure(MissingDirectory(dir))
    else
      ListingRecords(fs, dir, fs.listings[dir], names)
  }

  /** What a scan below an existing `node_modules` reports: exactly the records some entry
      yields, and a failure exactly when a wanted entry has no readable manifest. */
  lemma ScanSpec(fs: FileSystem, root: string, names: seq<string>)
    requires InstallDir(root) in fs.listings
    ensures var r := GetInstalledDeps(fs, root, names);
      var entries := fs.listings[InstallDir(root)];
      && (r.Success? ==> forall rec :: rec in r.value <==> Produces(fs, InstallDir(root), entries, names, rec))
      && (r.Failure? <==> MissingManifest(fs, InstallDir(root), entries, names))
  {
    var dir := InstallDir(root);
    ListingSound(fs, dir, fs.listings[dir], names);
    ListingFailure(fs, dir, fs.listings[dir], names);
  }

  // ---------------------------------------------------------------------------
  // Reference description of what the scanner reports

  /** `rec` is what a wanted non-directory entry `e` of `dir` yields: the manifest's own name. */
  ghost predicate FromLeaf(fs: FileSystem, dir: string, e: Entry, names: seq<string>, rec: InstalledRecord) {
    && e.Leaf? && e.name in names
    && rec.folder == Join(dir, e.name)
    && rec.folder in fs.manifests
    && rec.name == fs.manifests[rec.folder].name
    && rec.version == fs.manifests[rec.folder].version
  }

  /** `rec` is what the second-level directory `c` inside the first-level directory `scope`
      yields: the combined name, which must be wanted. */
  ghost predicate FromScoped(fs: FileSystem, dir: string, scope: string, c: Entry, names: seq<string>, rec: InstalledRecord) {
    && c.Dir?
    && rec.name == scope + "/" + c.name
    && rec.name in names
    && rec.folder == Join(dir, rec.name)
    && rec.folder in fs.manifests
    && rec.version == fs.manifests[rec.folder].version
  }

  ghost predicate ProducedBy(fs: FileSystem, dir: string, e: Entry, names: seq<string>, rec: InstalledRecord) {
    match e
    case Leaf(_) => FromLeaf(fs, dir, e, names, rec)
    case Dir(scope, children) => exists c :: c in children && FromScoped(fs, dir, scope, c, names, rec)
  }

  /** Some entry of the listing yields `rec`. */
  ghost predicate Produces(fs: FileSystem, dir: string, entries: seq<Entry>, names: seq<string>, rec: InstalledRecord) {
    exists e :: e in entries && ProducedBy(fs, dir, e, names, rec)
  }

  ghost predicate ScopedMissing(fs: FileSystem, dir: string, scope: string, c: Entry, names: seq<string>) {
    c.Dir? && scope + "/" + c.name in names && Join(dir, scope + "/" + c.name) !in fs.manifests
  }

  ghost predicate EntryMissing(fs: FileSystem, dir: string, e: Entry, names: seq<string>) {
    match e
    case Leaf(n) => n in names && Join(dir, n) !in fs.manifests
    case Dir(scope, children) => exists c :: c in children && ScopedMissing(fs, dir, scope, c, names)
  }

  /** A wanted entry of the listing has no readable manifest. */
  ghost predicate MissingManifest(fs: FileSystem, dir: string, entries: seq<Entry>, names: seq<string>) {
    exists e :: e in entries && EntryMissing(fs, dir, e, names)
  }

  /** The second-level entry `c` of the first-level directory `scope` is a wanted package
      directory. */
  ghost predicate WantedChild(scope: string, c: Entry, names: seq<string>) {
    c.Dir? && scope + "/" + c.name in names
  }

  /** The number of wanted second-level package directories among `children`. */
  ghost function WantedChildren(scope: string, children: seq<Entry>, names: seq<string>): nat
    decreases |children|
  {
    if children == [] then 0
    else (if WantedChild(scope, children[0], names) then 1 else 0) + WantedChildren(scope, children[1..], names)
  }

  /** The number of wanted packages one entry holds: itself when it is a wanted non-directory
      entry, its wanted second-level directories when it is a directory. */
  ghost function WantedInEntry(e: Entry, names: seq<string>): nat {
    match e
    case Leaf(n) => if n in names then 1 else 0
    case Dir(scope, children) => WantedChildren(scope, children, names)
  }

  /** The number of wanted packages a listing holds. */
  ghost function WantedEntries(entries: seq<Entry>, names: seq<string>): nat
    decreases |entries|
  {
    if entries == [] then 0 else WantedInEntry(entries[0], names) + WantedEntries(entries[1..], names)
  }

  /** `folder` is the path of a package an entry of `dir` stands for: the entry itself, or a
      child of a first-level directory. */
  ghost predicate EntryFolder(dir: string, e: Entry, folder: string) {
    match e
    case Leaf(n) => folder == Join(dir, n)
    case Dir(scope, children) => exists c :: c in children && folder == Join(dir, scope + "/" + c.name)
  }

  // ---------------------------------------------------------------------------
  // Properties

  /** The records of one first-level directory are exactly those of its wanted second-level
      directories; a non-directory child or an unwanted combined name contributes nothing. */
  lemma {:induction false} ScopedSound(fs: FileSystem, dir: string, scope: string, children: seq<Entry>, names: seq<string>)
    ensures var r := ScopedRecords(fs, dir, scope, children, names);
      r.Success? ==> forall rec :: rec in r.value <==> exists c :: c in children && FromScoped(fs, dir, scope, c, names, rec)
    decreases |children|
  {
    var r := ScopedRecords(fs, dir, scope, children, names);
    if children != [] && r.Success? {
      ScopedSound(fs, dir, scope, children[1..], names);
      var child := children[0];
      forall rec
        ensures rec in r.value <==> exists c :: c in children && FromScoped(fs, dir, scope, c, names, rec)
      {
        if exists c :: c in children && FromScoped(fs, dir, scope, c, names, rec) {
          var c :| c in children && FromScoped(fs, dir, scope, c, names, rec);
          if c != child {
            assert c in children[1..];
          }
        }
      }
    }
  }

  /** A first-level directory's scan fails exactly when a wanted second-level directory has
      no readable manifest. */
  lemma {:induction false} ScopedFailure(fs: FileSystem, dir: string, scope: string, children: seq<Entry>, names: seq<string>)
    ensures ScopedRecords(fs, dir, scope, children, names).Failure? <==>
            exists c :: c in children && ScopedMissing(fs, dir, scope, c, names)
    decreases |children|
  {
    if children != [] {
      ScopedFailure(fs, dir, scope, children[1..], names);
      if exists c :: c in children && ScopedMissing(fs, dir, scope, c, names) {
        var c :| c in children && ScopedMissing(fs, dir, scope, c, names);
        if c != children[0] {
          assert c in children[1..];
        }
      }
    }
  }

  lemma EntrySound(fs: FileSystem, dir: string, e: Entry, names: seq<string>)
    ensures var r := EntryRecords(fs, dir, e, names);
      r.Success? ==> forall rec :: rec in r.value <==> ProducedBy(fs, dir, e, names, rec)
  {
    if e.Dir? {
      ScopedSound(fs, dir, e.name, e.children, names);
    }
  }

  lemma EntryFailure(fs: FileSystem, dir: string, e: Entry, names: seq<string>)
    ensures EntryRecords(fs, dir, e, names).Failure? <==> EntryMissing(fs, dir, e, names)
  {
    if e.Dir? {
      ScopedFailure(fs, dir, e.name, e.children, names);
    }
  }

  /** Soundness and completeness of a successful scan: a record is reported exactly when
      some entry of the listing yields it. */
  lemma {:induction false} ListingSound(fs: FileSystem, dir: string, entries: seq<Entry>, names: seq<string>)
    ensures var r := ListingRecords(fs, dir, entries, names);
      r.Success? ==> forall rec :: rec in r.value <==> Produces(fs, dir, entries, names, rec)
    decreases |entries|
  {
    var r := ListingRecords(fs, dir, entries, names);
    if entries != [] && r.Success? {
      EntrySound(fs, dir, entries[0], names);
      ListingSound(fs, dir, entries[1..], names);
      forall rec
        ensures rec in r.value <==> Produces(fs, dir, entries, names, rec)
      {
        if Produces(fs, dir, entries, names, rec) {
          var e :| e in entries && ProducedBy(fs, dir, e, names, rec);
          if e != entries[0] {
            assert e in entries[1..];
          }
        }
      }
    }
  }

  /** A scan fails exactly when some wanted entry has no readable manifest. */
  lemma {:induction false} ListingFailure(fs: FileSystem, dir: string, entries: seq<Entry>, names: seq<string>)
    ensures ListingRecords(fs, dir, entries, names).Failure? <==> MissingManifest(fs, dir, entries, names)
    decreases |entries|
  {
    if entries != [] {
      EntryFailure(fs, dir, entries[0], names);
      ListingFailure(fs, dir, entries[1..], names);
      if MissingManifest(fs, dir, entries, names) {
        var e :| e in entries && EntryMissing(fs, dir, e, names);
        if e != entries[0] {
          assert e in entries[1..];
        }
      }
    }
  }

  /** Records appear in listing order: scanning a listing split in two is scanning the first
      part and then the second, and the first failure in listing order is the one reported. */
  lemma {:induction false} ListingAppend(fs: FileSystem, dir: string, xs: seq<Entry>, ys: seq<Entry>, names: seq<string>)
    ensures ListingRecords(fs, dir, xs + ys, names) ==
            Then(ListingRecords(fs, dir, xs, names), ListingRecords(fs, dir, ys, names))
    decreases |xs|
  {
    if xs == [] {
      assert xs + ys == ys;
      var r := ListingRecords(fs, dir, ys, names);
      if r.Success? {
        assert [] + r.value == r.value;
      }
    } else {
      assert (xs + ys)[0] == xs[0];
      assert (xs + ys)[1..] == xs[1..] + ys;
      ListingAppend(fs, dir, xs[1..], ys, names);
      ThenAssociative(EntryRecords(fs, dir, xs[0], names), ListingRecords(fs, dir, xs[1..], names), ListingRecords(fs, dir, ys, names));
    }
  }

  /** Every record's folder is the path of an entry of the scanned `node_modules`: one level
      down for a plain entry, two for a child of a first-level directory. */
  lemma FoldersBelowInstallDir(fs: FileSystem, root: string, names: seq<string>)
    ensures var r := GetInstalledDeps(fs, root, names);
      r.Success? ==> InstallDir(root) in fs.listings && forall rec :: rec in r.value ==>
        exists e :: e in fs.listings[InstallDir(root)] && EntryFolder(InstallDir(root), e, rec.folder)
  {
    var r := GetInstalledDeps(fs, root, names);
    if r.Success? {
      ScanSpec(fs, root, names);
      var entries := fs.listings[InstallDir(root)];
      forall rec | rec in r.value
        ensures exists e :: e in entries && EntryFolder(InstallDir(root), e, rec.folder)
      {
        var e :| e in entries && ProducedBy(fs, InstallDir(root), e, names, rec);
        if e.Dir? {
          var c :| c in e.children && FromScoped(fs, InstallDir(root), e.name, c, names, rec);
          assert EntryFolder(InstallDir(root), e, rec.folder);
        }
      }
    }
  }

  /** The children of a first-level directory are scanned in listing order. */
  lemma {:induction false} ScopedAppend(fs: FileSystem, dir: string, scope: string, xs: seq<Entry>, ys: seq<Entry>, names: seq<string>)
    ensures ScopedRecords(fs, dir, scope, xs + ys, names) ==
            Then(ScopedRecords(fs, dir, scope, xs, names), ScopedRecords(fs, dir, scope, ys, names))
    decreases |xs|
  {
    if xs == [] {
      assert xs + ys == ys;
      var r := ScopedRecords(fs, dir, scope, ys, names);
      if r.Success? {
        assert [] + r.value == r.value;
      }
    } else {
      assert (xs + ys)[0] == xs[0];
      assert (xs + ys)[1..] == xs[1..] + ys;
      ScopedAppend(fs, dir, scope, xs[1..], ys, names);
      ThenAssociative(ScopedChild(fs, dir, scope, xs[0], names), ScopedRecords(fs, dir, scope, xs[1..], names),
                      ScopedRecords(fs, dir, scope, ys, names));
    }
  }

  /** A successful scan of a first-level directory reports one record per wanted second-level
      package directory. */
  lemma {:induction false} ScopedCount(fs: FileSystem, dir: string, scope: string, children: seq<Entry>, names: seq<string>)
    ensures var r := ScopedRecords(fs, dir, scope, children, names);
      r.Success? ==> |r.value| == WantedChildren(scope, children, names)
    decreases |children|
  {
    if children != [] {
      ScopedCount(fs, dir, scope, children[1..], names);
    }
  }

  lemma EntryCount(fs: FileSystem, dir: string, e: Entry, names: seq<string>)
    ensures var r := EntryRecords(fs, dir, e, names);
      r.Success? ==> |r.value| == WantedInEntry(e, names)
  {
    if e.Dir? {
      ScopedCount(fs, dir, e.name, e.children, names);
    }
  }

  /** A successful scan of a listing reports exactly one record per wanted package: one per wanted
      non-directory entry and one per wanted second-level directory. */
  lemma {:induction false} ListingCount(fs: FileSystem, dir: string, entries: seq<Entry>, names: seq<string>)
    ensures var r := ListingRecords(fs, dir, entries, names);
      r.Success? ==> |r.value| == WantedEntries(entries, names)
    decreases |entries|
  {
    if entries != [] {
      EntryCount(fs, dir, entries[0], names);
      ListingCount(fs, dir, entries[1..], names);
    }
  }

  /** A successful scan reports as many records as `node_modules` holds wanted packages. */
  lemma ScanCount(fs: FileSystem, root: string, names: seq<string>)
    ensures var r := GetInstalledDeps(fs, root, names);
      r.Success? ==> InstallDir(root) in fs.listings && |r.value| == WantedEntries(fs.listings[InstallDir(root)], names)
  {
    if InstallDir(root) in fs.listings {
      ListingCount(fs, InstallDir(root), fs.listings[InstallDir(root)], names);
    }
  }

}
