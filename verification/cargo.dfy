/** Snapshots of what the Cargo library reports about a workspace: packages,
    their declared dependencies and their publishing metadata. The core reads
    these; it never builds them. */
module Cargo {
  import opened Wrappers
  import opened Semver
  import opened Paths

  /** Where a declared dependency comes from. */
  datatype SourceKind = Registry | PathSource(dir: Path) | GitSource(url: string)

  /** `OptVersionReq`: `Any` when the manifest gives no version requirement. */
  datatype Requirement = AnyVersion | Constrained(text: string)

  /** A declared dependency; `packageName` is the true name, after any rename. */
  datatype Dependency = Dependency(packageName: string, source: SourceKind, req: Requirement)

  /** The `[package]` fields crates.io requires before publishing. */
  datatype Metadata = Metadata(
    description: Option<string>,
    repository: Option<string>,
    license: Option<string>,
    licenseFile: Option<string>,
    keywords: seq<string>)

  /** A package: `publish` is `None` unless the manifest restricts publishing. */
  datatype Package = Package(
    name: string,
    version: Version,
    root: Path,
    manifestPath: Path,
    deps: seq<Dependency>,
    publish: Option<seq<string>>,
    metadata: Metadata)

  /** Cargo identifies a package by name, version and source (its directory). */
  function Id(p: Package): (string, Version, Path) {
    (p.name, p.version, p.root)
  }

  /** A workspace: its root, its members, and the package found at a path
      (`PathSource::root_package`, which the program assumes always succeeds). */
  datatype Workspace = Workspace(root: Path, members: seq<Package>, rootPackageAt: Path -> Package)
}
