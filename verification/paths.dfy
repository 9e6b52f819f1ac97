/** File-system paths as sequences of components, compared component-wise
    the way `std::path::Path` compares them. An absolute path starts with the
    root component "/". */
module Paths {
  import opened Wrappers

  type Path = seq<string>

  const RootDir: string := "/"

  /** `Path::parent`: `None` for the empty path and for the root alone. */
  function Parent(p: Path): (r: Option<Path>)
    ensures r.Some? ==> |r.value| + 1 == |p| && r.value == p[..|p| - 1]
  {
    if |p| == 0 || p == [RootDir] then None else Some(p[..|p| - 1])
  }

  /** `Path::join` with a relative path. */
  function Join(p: Path, rel: Path): Path {
    p + rel
  }

  /** `Path::starts_with`: `base` is a component-wise prefix of `p`. */
  predicate StartsWith(p: Path, base: Path) {
    |base| <= |p| && p[..|base|] == base
  }
}
