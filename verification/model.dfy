/** The records exchanged by the dependency-edge extractor and the installed-package scanner,
    and the in-memory stand-in for the filesystem they read. */
module PackageModel {
  import opened Results

  /** A dependency map as found in a manifest: package name to declared version range.
      `None` is a manifest without the field (or with a falsy value). */
  type DependencyMap = Option<map<string, string>>

  /** One workspace package, as handed to the extractor. */
  datatype Package = Package(
    name: string,
    version: string,
    folder: string,
    dependencies: DependencyMap,
    devDependencies: DependencyMap)

  /** "target depends on source". `dev` is `Some(b)` for an edge read from a dependency map
      and `None` for an edge recovered from an installed copy (the field is absent there). */
  datatype Edge = Edge(
    source: string,
    sourceFolder: string,
    target: string,
    targetFolder: string,
    currVersion: string,
    nextVersion: string,
    dev: Option<bool>)

  /** A package found physically installed below some root's `node_modules`. */
  datatype InstalledRecord = InstalledRecord(name: string, version: string, folder: string)

  /** A directory entry as `readdirSync(.., { withFileTypes: true })` reports it: either a
      directory with its own entries, or anything else (plain file, symbolic link). */
  datatype Entry = Leaf(name: string) | Dir(name: string, children: seq<Entry>)

  /** The two fields the scanner reads from an installed `package.json`. */
  datatype Manifest = Manifest(name: string, version: string)

  /** The part of the filesystem the scanner sees.
      `listings` maps a `<root>/node_modules` path to its entries (absent: the directory does
      not exist); `manifests` maps a package folder to its parsed `package.json` (absent: the
      file is missing or does not parse). */
  datatype FileSystem = FileSystem(
    listings: map<string, seq<Entry>>,
    manifests: map<string, Manifest>)

  /** The ways the extraction throws. */
  datatype Error =
    | MissingDirectory(path: string)   // readdirSync on a missing node_modules
    | BadManifest(folder: string)      // readFileSync / JSON.parse of <folder>/package.json
    | UnknownPackage(name: string)     // installed name with no descriptor: `.version` of undefined

  /** `${dir}/${name}` */
  function Join(dir: string, name: string): string {
    dir + "/" + name
  }

  /** The folder the scanner lists for a package rooted at `root`. */
  function InstallDir(root: string): string {
    Join(root, "node_modules")
  }

  /** The names of all packages, in input order (`packages.map(p => p.name)`). */
  function Names(packages: seq<Package>): (r: seq<string>)
    ensures |r| == |packages|
    ensures forall k :: 0 <= k < |packages| ==> r[k] == packages[k].name
  {
    seq(|packages|, k requires 0 <= k < |packages| => packages[k].name)
  }

  /** No two descriptors share a name (the input invariant the extractor assumes but never checks). */
  predicate UniqueNames(packages: seq<Package>) {
    forall a, b :: 0 <= a < |packages| && 0 <= b < |packages| && packages[a].name == packages[b].name ==> a == b
  }
}
