# Dependency-edge extraction, modelled in Dafny

The package-graph core of the workspace tool turns a list of package descriptors (name,
version, folder, `dependencies`, `devDependencies`) into a list of edges "target depends on
source". The edges come in two kinds:

* **Direct edges.** For every parent and every *other* descriptor whose name one of the
  parent's maps declares, there is one edge per declaring map. The edge carries the declared
  range as `currVersion`, the descriptor's version as `nextVersion`, and `dev` set to
  false or true.
* **Dedup edges.** The parent's `node_modules` is scanned (`getInstalledDeps`). Every
  installed package of interest that was not matched directly gets a supplementary edge. That
  edge carries the installed folder and version, the version of the last descriptor with that
  name, and no `dev` field.

The model is purely functional. The filesystem is an input `FileSystem`, which holds two
tables:
* directory listings for the `node_modules` folders;
* parsed manifests per package folder.

Every way the JavaScript throws becomes a `Failure` value of a `Result`:
* a missing `node_modules`;
* a missing or unparsable `package.json`;
* an installed name that no descriptor carries, where the source reads `.version` of
  `undefined`.

A separate module writes the extractor the way the source writes it: nested index loops, a
mutable `found` list, and a forward filter-and-pop search. It proves that this code computes
exactly the functional model.

Files:

| file | contents |
|---|---|
| `results.dfy` | `Option`, `Result`, and `ConcatAll`: "first failure wins, otherwise concatenate" |
| `model.dfy` | `Package`, `Edge`, `InstalledRecord`, directory `Entry`, `FileSystem`, `Error` |
| `installed.dfy` | `getInstalledDeps` and a reference description of what it reports |
| `dependencies.dfy` | the extractor: direct phase, `found`, dedup phase, per-parent blocks, whole extraction |
| `direct_edges.dfy` | properties of the direct phase: membership, counts, order |
| `extraction.dfy` | properties of a parent's block and of the whole extraction |
| `declarations.dfy` | an absent dependency map behaves as an empty one |
| `extract_loop.dfy` | the imperative loops, proved equal to the functional model |
| `scenarios.dfy` | small concrete workspaces worked through the model |

## Model

| member | source | states |
|---|---|---|
| InstalledDeps.ReadManifest | lib/getPackageDependencies.js:80-90 | reading a manifest succeeds exactly when the folder has one; otherwise it fails naming that folder |
| InstalledDeps.ScopedChild | lib/getPackageDependencies.js:76-87 | a child of a first-level directory yields a record exactly when it is a directory whose combined name `scope/child` is wanted; the record keeps the combined name, the manifest's version and the folder `<node_modules>/scope/child`; it fails exactly when that manifest is missing; a successful call reports one record for a wanted child and none otherwise |
| InstalledDeps.GetInstalledDeps | lib/getPackageDependencies.js:73-74 | a root without `node_modules` throws, naming `<root>/node_modules` |
| InstalledDeps.ScanSpec | lib/getPackageDependencies.js:71-99 | below an existing `node_modules`, a successful scan reports a record iff some entry yields it per the reference description; the scan fails iff some wanted entry has no manifest |
| InstalledDeps.ScopedSound | lib/getPackageDependencies.js:75-87 | a first-level directory's records are exactly those of its wanted second-level directories; non-directory children and unwanted names contribute nothing |
| InstalledDeps.ScopedFailure | lib/getPackageDependencies.js:76-80 | a first-level directory's scan fails iff one of its wanted second-level directories has no manifest |
| InstalledDeps.EntryRecords | lib/getPackageDependencies.js:74-96 | a non-directory entry yields exactly one record when its name is wanted and none otherwise; it fails exactly when that wanted entry has no manifest |
| InstalledDeps.EntrySound | lib/getPackageDependencies.js:74-96 | an entry's records are those of a scope directory, or the single manifest-named record of a wanted non-directory entry |
| InstalledDeps.EntryFailure | lib/getPackageDependencies.js:74-96 | an entry's scan fails iff it is wanted (or holds a wanted child) whose manifest is missing |
| InstalledDeps.ListingSound | lib/getPackageDependencies.js:74-97 | a successful scan of a listing reports exactly the records some entry of the listing yields |
| InstalledDeps.ListingFailure | lib/getPackageDependencies.js:74-97 | a scan of a listing fails iff some wanted entry has no manifest |
| InstalledDeps.ListingAppend | lib/getPackageDependencies.js:74-97 | records come out in listing order: scanning `xs + ys` is scanning `xs`, then `ys`, and the first failure wins |
| InstalledDeps.FoldersBelowInstallDir | lib/getPackageDependencies.js:73-89 | every reported folder is `<root>/node_modules/<name>` for a non-directory entry of the listing, or `<root>/node_modules/<scope>/<child>` for a child of one of its first-level directories |
| InstalledDeps.ScopedAppend | lib/getPackageDependencies.js:76-87 | children of a first-level directory are reported in listing order: scanning `xs + ys` is scanning `xs`, then `ys`, and the first failure wins |
| InstalledDeps.ScopedCount | lib/getPackageDependencies.js:76-87 | a successful scan of a first-level directory reports exactly as many records as it has wanted second-level directories |
| InstalledDeps.EntryCount | lib/getPackageDependencies.js:74-96 | a successful entry scan reports one record per wanted non-directory entry or wanted second-level directory, and no more |
| InstalledDeps.ListingCount | lib/getPackageDependencies.js:74-97 | a successful listing scan reports as many records as the listing has wanted leaves and wanted second-level directories |
| InstalledDeps.ScanCount | lib/getPackageDependencies.js:71-99 | a successful `getInstalledDeps` implies `node_modules` exists and reports one record per wanted leaf and wanted second-level directory of it, so no record is duplicated or dropped |
| PackageDependencies.CandidateShape | lib/getPackageDependencies.js:18-47 | one candidate yields one edge per declaring map, the runtime edge before the dev edge, each with the candidate as source, the parent as target and a `dev` flag |
| PackageDependencies.CandidateMembership | lib/getPackageDependencies.js:18-47 | a candidate's edges are exactly the declared edges of its runtime and dev declarations |
| PackageDependencies.CandidateSources | lib/getPackageDependencies.js:22-37 | the names pushed onto `found` for one candidate are exactly the sources of the edges pushed for it |
| PackageDependencies.LastIndexNamed | lib/getPackageDependencies.js:55 | the descriptor match is the last index carrying the name, and there is none iff no descriptor carries it |
| PackageDependencies.DedupSpec | lib/getPackageDependencies.js:52-65 | a successful dedup loop emits, position by position, one edge per installed record not found directly; each edge pairs the record with the last descriptor of that name |
| PackageDependencies.DedupFailure | lib/getPackageDependencies.js:53-61 | the dedup loop throws iff some record not found directly has no descriptor, and the error names such a record |
| PackageDependencies.DedupFields | lib/getPackageDependencies.js:53-63 | every dedup edge has no `dev` field, targets the parent, and has a source not in `found` |
| PackageDependencies.DirectTargets | lib/getPackageDependencies.js:23-42 | every direct edge targets the parent, with the parent's folder, and has a `dev` flag |
| PackageDependencies.ParentTargets | lib/getPackageDependencies.js:23-60 | every edge of a parent's block targets that parent and its folder |
| DirectEdgeProperties.DirectMembership | lib/getPackageDependencies.js:13-48 | an edge is direct for parent `i` iff it is a declared edge of some candidate `j != i`: the parent is never paired with its own index |
| DirectEdgeProperties.FoundMembership | lib/getPackageDependencies.js:13-37 | a name is in `found` iff another descriptor carries it and one of the parent's maps declares it |
| DirectEdgeProperties.UndeclaredNotFound | lib/getPackageDependencies.js:18-53 | a name that neither map declares is never in `found` |
| DirectEdgeProperties.CandidateCount | lib/getPackageDependencies.js:18-47 | a candidate yields one edge with a given source and flag iff it carries that name and the selected map declares it |
| DirectEdgeProperties.DeclarationCount | lib/getPackageDependencies.js:13-47 | the number of direct edges with source `name` and flag `dev` is the number of other descriptors named `name` if the selected map declares it, else zero; an absent map declares nothing |
| DirectEdgeProperties.ExactlyOneEdgePerDeclaration | lib/getPackageDependencies.js:18-31 | with distinct names, a declaration of another package yields exactly one edge with that source and flag, carrying the declared range and the package's version and folder |
| DirectEdgeProperties.DeclaredInBothMaps | lib/getPackageDependencies.js:34-47 | a name in both maps yields one runtime edge and one dev edge, each with its own declared range |
| DirectEdgeProperties.CandidateAtPosition | lib/getPackageDependencies.js:18-47 | with distinct names, a candidate's edges all have sources at that candidate's input position, runtime first |
| DirectEdgeProperties.DirectOrder | lib/getPackageDependencies.js:13-48 | with distinct names, direct edges follow the candidates' input order, and for one candidate the runtime edge precedes the dev edge |
| ExtractionProperties.ParentPhases | lib/getPackageDependencies.js:13-65 | within one parent's block all direct edges precede all dedup edges, and no name appears in both phases |
| ExtractionProperties.ParentFailure | lib/getPackageDependencies.js:52-61 | a parent's block throws iff its scan throws or an installed name not found directly has no descriptor |
| ExtractionProperties.UndeclaredInstalledGetsEdge | lib/getPackageDependencies.js:52-63 | an installed package that neither map declares gets a dedup edge with the installed folder and version and the last matching descriptor's version |
| ExtractionProperties.DedupCount | lib/getPackageDependencies.js:52-64 | for a name not in `found`, a successful dedup loop emits exactly as many edges with that source as there are records with that name |
| ExtractionProperties.UndeclaredInstalledCount | lib/getPackageDependencies.js:52-63 | for a name neither of the parent's maps declares, the parent's block has exactly as many no-`dev` edges from that name as the scan has records named so |
| ExtractionProperties.ExtractSucceeds | lib/getPackageDependencies.js:9-66 | the extraction succeeds iff every parent's block does |
| ExtractionProperties.ExtractFirstFailure | lib/getPackageDependencies.js:9-66 | a failing extraction reports the error of the first parent that throws, and all earlier parents succeed |
| ExtractionProperties.FailureSticks | lib/getPackageDependencies.js:9-66 | once a prefix of parents has thrown, later parents change nothing |
| ExtractionProperties.ExtractTargets | lib/getPackageDependencies.js:9-66 | every emitted edge targets one of the parents visited, with that parent's folder |
| ExtractionProperties.ParentOrder | lib/getPackageDependencies.js:9-66 | with distinct names, all edges of parent `i` precede all edges of parent `i+1` |
| ExtractionProperties.MissingInstallDirFails | lib/getPackageDependencies.js:52-74 | a parent without `node_modules` makes the whole extraction throw, whether or not it declares anything |
| ExtractionProperties.ParentEmpty | lib/getPackageDependencies.js:9-65 | a parent that declares nothing and has an empty `node_modules` contributes no edges |
| ExtractionProperties.DeclarationsAbsentNoDirect | lib/getPackageDependencies.js:18-34 | a parent that declares nothing has no direct edges |
| ExtractionProperties.NothingDeclaredNothingInstalled | lib/getPackageDependencies.js:9-66 | with no declarations anywhere and every `node_modules` present and empty, the extraction yields no edges |
| DeclarationProperties.AbsentMapIsEmpty | lib/getPackageDependencies.js:18-34 | a descriptor without `dependencies` (or `devDependencies`) yields exactly the extraction of the same descriptor with an empty map there |
| ExtractLoop.LastMatching | lib/getPackageDependencies.js:55 | the filter-and-pop search returns the last index carrying the name, or none |
| ExtractLoop.CandidatePhase | lib/getPackageDependencies.js:18-47 | the two `if` blocks for one candidate push the candidate's edges and the matching names onto `found` |
| ExtractLoop.VisitCandidate | lib/getPackageDependencies.js:13-48 | one turn of the inner loop (skipping `j == i`) extends the direct edges by candidate `j`'s and keeps `found` equal to their sources |
| ExtractLoop.DirectPhase | lib/getPackageDependencies.js:11-48 | the inner loop computes the parent's direct edges and its `found` list |
| ExtractLoop.DedupPhase | lib/getPackageDependencies.js:52-65 | the `forEach` over the scanned records computes the dedup loop, including its throw |
| ExtractLoop.ExtractEdges | lib/getPackageDependencies.js:3-69 | the exported function, loop for loop, returns exactly the functional extraction, including which error it throws |
| Scenarios.DeclaredDependency | lib/getPackageDependencies.js:18-31 | `app` declaring `lib` yields exactly one runtime edge with the declared range and `lib`'s version |
| Scenarios.InstalledCopy | lib/getPackageDependencies.js:52-63 | an undeclared linked `utils` under `app` adds a dedup edge with the installed folder and version and the descriptor's version |
| Scenarios.ScopedPackage | lib/getPackageDependencies.js:75-86 | `@scope/pkg` two levels down is reported under its full scoped name |
| Scenarios.CopiedDirectoryUnseen | lib/getPackageDependencies.js:75-78 | an unscoped package installed as a real directory is read as a scope container and not reported |

## Left out

- File reads and JSON parsing (`fs.readdirSync`, `fs.readFileSync`, `JSON.parse`) are not modelled as such. Their results are the `FileSystem` tables, and their failures are the `MissingDirectory` and `BadManifest` errors.
- The inner listing of a first-level directory is carried inside its `Dir` entry, so that second `readdirSync` cannot fail in the model.
- A manifest that parses but lacks `name` or `version` is not modelled; `Manifest` always has both fields.
- The `depPairs` map is left out. It is written but never read.
- Version ranges are opaque strings, with no semver interpretation. Paths are plain string concatenation with `/`.
- The `TypeError` thrown on `matchingDependency.version` when no descriptor carries an installed name is modelled as the error `UnknownPackage(name)`.
- `dev` on a dedup edge is `None`, standing for the absent field.
- DirectEdgeProperties.DirectOrder: assumes distinct descriptor names, which the input is documented to have. With repeated names the position of a name is ambiguous.
- ExtractionProperties.ParentOrder: assumes distinct descriptor names, for the same reason.
- DirectEdgeProperties.ExactlyOneEdgePerDeclaration: assumes distinct names. Without that, DeclarationCount gives the general count, one edge per other descriptor with the name.
- DirectEdgeProperties.DeclaredInBothMaps: assumes distinct names, so that the one other descriptor carrying the name yields one edge per map; DeclarationCount gives the count when names repeat.
- DirectEdgeProperties.CandidateAtPosition: assumes distinct names, so that a name has a single input position.
- Idempotence is not stated separately: every operation is a pure function of its inputs.

Behaviour a reader might expect the tool to have, but which the code does not have:

- `getInstalledDeps` runs for every parent, even one that declares nothing. A parent without `node_modules` therefore makes the whole extraction throw (`MissingInstallDirFails`). It is not treated as having no installed packages.
- Every first-level *directory* of `node_modules` is read as a scope container. Only non-directory entries, such as links, are read as unscoped packages. An unscoped package installed as a real directory is never reported (`CopiedDirectoryUnseen`). A second-level entry that is not a directory, such as a link inside a scope, is skipped too.
- Two non-directory entries whose manifests carry the same `name` yield two records. Both records get a dedup edge when that name is not found directly; the scan does not merge them (`ScanCount`, `UndeclaredInstalledCount`).
