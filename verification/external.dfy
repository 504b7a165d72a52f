/**
 * The file system as the resolver sees it. `parse_file_from_path` reads and
 * parses a file; here it is a lookup in an immutable map from path to the
 * outcome of parsing that file, which fails on an absent key (as the test
 * mock does).
 */
module External {
  import opened Wrappers
  import opened Syntax

  /** A file-system path as its list of components; `/example/src` is ["", "example", "src"]. */
  type Path = seq<string>

  /**
   * The loader's failure: its display text, and its backtrace already
   * rendered as the text of the "file error backtrace" note.
   */
  datatype LoadError = LoadError(message: string, backtrace: string)

  /** Path -> parsed top-level items, or the loader's error for that path. */
  type FileSystem = map<Path, Result<seq<Item>, LoadError>>

  /** What loading an absent path yields: `std::io::ErrorKind::NotFound`'s text. */
  const NOT_FOUND: LoadError := LoadError("No such file or directory (os error 2)", "disabled backtrace")

  /** `Path::join` with a single relative component. */
  function Join(p: Path, component: string): (r: Path)
    ensures |r| == |p| + 1 && r[..|p|] == p && r[|p|] == component
  {
    p + [component]
  }

  /** The components separated by `/`; a leading empty component gives the leading `/`. */
  function SeparatedComponents(p: Path): string
    decreases |p|
  {
    if |p| == 0 then ""
    else if |p| == 1 then p[0]
    else SeparatedComponents(p[..|p| - 1]) + "/" + p[|p| - 1]
  }

  /** The root directory `/`, as a path. */
  const ROOT: Path := [""]

  /** `Path::to_str`: the components separated by `/`; the root alone is "/". */
  function PathToString(p: Path): (r: string)
    ensures p == ROOT ==> r == "/"
    ensures |p| == 0 ==> r == ""
    ensures |p| == 1 && p[0] != "" ==> r == p[0]
  {
    if p == ROOT then "/" else SeparatedComponents(p)
  }

  /**
   * Rendering a joined path appends `/` and the component, except below the
   * root, whose rendering already ends in its one `/`.
   */
  lemma JoinRenders(p: Path, component: string)
    requires |p| > 0
    ensures PathToString(Join(p, component)) ==
      if p == ROOT then "/" + component else PathToString(p) + "/" + component
  {
    var q := Join(p, component);
    assert q[..|q| - 1] == p;
    assert q != ROOT;
    assert SeparatedComponents(q) == SeparatedComponents(p) + "/" + component;
  }

  /** `parse_file_from_path`: the file's items, or the loader's error. */
  function Load(fs: FileSystem, p: Path): (r: Result<seq<Item>, LoadError>)
    ensures p !in fs ==> r == Failure(NOT_FOUND)
    ensures p in fs ==> r == fs[p]
  {
    if p in fs then fs[p] else Failure(NOT_FOUND)
  }

  /** True when `prefix` is a leading run of components of `p`. */
  predicate IsUnder(p: Path, prefix: Path) {
    |prefix| <= |p| && p[..|prefix|] == prefix
  }
}
