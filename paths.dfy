/**
  Module-path resolution: turning a dotted module name into the path of the
  `.py` file that holds it, under a resolution root. Paths use the POSIX
  separator `/` (`os.sep`).
 */
module ModulePaths {
  import opened Wrappers
  import opened Strings

  /** `os.path.join(a, b)` for two components (posixpath): an absolute `b` replaces `a`;
      otherwise a separator is put between them unless `a` is empty or already ends in one. */
  function PathJoin(a: string, b: string): (r: string)
    ensures |r| >= |b| && r[|r| - |b|..] == b
    ensures (b == [] || b[0] != '/') ==> |r| >= |a| && r[..|a|] == a
  {
    if |b| > 0 && b[0] == '/' then b
    else if a == [] || a[|a| - 1] == '/' then a + b
    else a + "/" + b
  }

  /** Python truthiness of an optional string: present and non-empty. */
  predicate Given(s: Option<string>)
  {
    s.Some? && s.value != ""
  }

  /**
    `get_path_from_package_name` of the current engine: `''` when the root or the
    module name is missing or empty, otherwise the root joined with the module name's
    dot-separated components, separated by `/`, plus `.py`.
   */
  function GetPathFromPackageName(root: Option<string>, pkg: Option<string>): (r: string)
    ensures r == "" <==> !Given(root) || !Given(pkg)
    ensures r != "" ==> r == PathJoin(root.value, Replace(pkg.value, '.', '/') + ".py")
    ensures r != "" ==> |r| >= 3 && r[|r| - 3..] == ".py"
  {
    if !Given(pkg) || !Given(root) then ""
    else
      JoinSplit(pkg.value, '.', '/');
      PathJoin(root.value, Join("/", Split(pkg.value, '.')) + ".py")
  }

  /** What the earlier version does with its arguments: return a path, or raise. */
  datatype LegacyOutcome = Path(path: string) | AttributeError | TypeError

  /**
    `get_path_from_package_name` of the earlier command-line module: no guard, so an
    empty module name still yields a `.py` path and an empty root leaves the result
    relative. A missing module name (`from . import x`) fails first, on `pkg.split`;
    a missing root then fails in `os.path.join`.
   */
  function LegacyGetPathFromPackageName(root: Option<string>, pkg: Option<string>): (r: LegacyOutcome)
    ensures r == AttributeError <==> pkg.None?
    ensures r == TypeError <==> pkg.Some? && root.None?
    ensures r.Path? ==> r.path == PathJoin(root.value, Replace(pkg.value, '.', '/') + ".py")
    ensures r.Path? ==> |r.path| >= 3 && r.path[|r.path| - 3..] == ".py"
  {
    if pkg.None? then AttributeError
    else
      var file := Join("/", Split(pkg.value, '.')) + ".py";
      if root.None? then TypeError
      else
        JoinSplit(pkg.value, '.', '/');
        Path(PathJoin(root.value, file))
  }

  /** On a non-empty root and module name the two versions agree. */
  lemma LegacyAgreesWhenGiven(root: string, pkg: string)
    requires root != "" && pkg != ""
    ensures LegacyGetPathFromPackageName(Some(root), Some(pkg)) == Path(GetPathFromPackageName(Some(root), Some(pkg)))
  {
  }

  /** Where the current version answers `''` for a missing module or root, the earlier
      one raises. */
  lemma LegacyRaisesOnNone(root: Option<string>, pkg: Option<string>)
    requires root.None? || pkg.None?
    ensures !LegacyGetPathFromPackageName(root, pkg).Path?
    ensures GetPathFromPackageName(root, pkg) == ""
  {
  }

  /** A dotted name built from dot-free components resolves to those components joined
      by the path separator, under the root. */
  lemma PathOfDottedName(root: string, parts: seq<string>)
    requires root != "" && |parts| >= 1 && Join(".", parts) != ""
    requires forall i :: 0 <= i < |parts| ==> '.' !in parts[i]
    ensures GetPathFromPackageName(Some(root), Some(Join(".", parts))) == PathJoin(root, Join("/", parts) + ".py")
  {
    SplitJoin(parts, '.');
  }

  /** Only the current version guards against an empty root: the earlier one resolves a
      module name under an empty root to the bare relative file path, where the current
      one yields no path. */
  lemma LegacyHasNoEmptyGuard(pkg: string)
    requires pkg != ""
    ensures LegacyGetPathFromPackageName(Some(""), Some(pkg)) == Path(Replace(pkg, '.', '/') + ".py")
    ensures GetPathFromPackageName(Some(""), Some(pkg)) == ""
  {
    var file := Replace(pkg, '.', '/') + ".py";
    assert PathJoin("", file) == file;
  }

  /** The earlier version, given an empty module name, still yields the file `.py`
      under the root, where the current one yields no path. */
  lemma LegacyEmptyModuleName(root: string)
    requires root != "" && root[|root| - 1] != '/'
    ensures LegacyGetPathFromPackageName(Some(root), Some("")) == Path(root + "/.py")
    ensures GetPathFromPackageName(Some(root), Some("")) == ""
  {
    ReplaceAbsent("", '.', '/');
    assert PathJoin(root, "" + ".py") == root + "/.py";
  }

  /** A module name without dots names one file directly under the root. */
  lemma DotFreeName(root: string, name: string)
    requires root != "" && name != "" && '.' !in name
    ensures GetPathFromPackageName(Some(root), Some(name)) == PathJoin(root, name + ".py")
  {
    ReplaceAbsent(name, '.', '/');
  }

  /** A two-part module name names a file one directory below the root. */
  lemma TwoPartName(root: string, dir: string, name: string)
    requires root != "" && '.' !in dir && '.' !in name
    ensures GetPathFromPackageName(Some(root), Some(dir + "." + name)) == PathJoin(root, dir + "/" + name + ".py")
  {
    ReplaceAround(dir, name, '.', '/');
    ReplaceAbsent(name, '.', '/');
  }

  /** The examples the project's own tests pin down that need no literal splitting. */
  lemma PathExamples()
    ensures GetPathFromPackageName(Some(""), Some("some.package")) == ""
    ensures GetPathFromPackageName(Some("/"), None) == ""
    ensures GetPathFromPackageName(None, Some("some.package")) == ""
  {
  }
}
