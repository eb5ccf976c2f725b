/**
  Reading a project into the import graph, with the file system walk and the Python
  parser abstracted away: each file comes with its directory, its name, its source lines
  and the statements the parser's walk yields, in walk order (or nothing, when the file
  cannot be read or parsed).
 */
module ProjectScan {
  import opened Wrappers
  import opened Strings
  import opened ModulePaths
  import opened ImportGraph

  /** The statements of a walk that the reader acts on. A definition stands for a class or
      a function definition. */
  datatype Event =
    | Import(names: seq<string>, line: int)
    | ImportFrom(pkg: Option<string>, names: seq<string>, line: int)
    | Definition(name: string, line: int)
    | Other

  /** A `.py` file found under the project root. */
  datatype SourceFile = SourceFile(dir: string, fileName: string, lines: seq<string>, walk: Option<seq<Event>>)

  /** The full path of a file: its directory joined with its name. */
  function FilePath(f: SourceFile): string
  {
    PathJoin(f.dir, f.fileName)
  }

  /** The position of the last `.` in a name, if any. */
  function LastDot(p: string): (k: Option<nat>)
    ensures k.Some? ==> k.value < |p| && p[k.value] == '.' && forall j :: k.value < j < |p| ==> p[j] != '.'
    ensures k.None? ==> forall j :: 0 <= j < |p| ==> p[j] != '.'
  {
    if p == [] then None
    else if p[|p| - 1] == '.' then Some(|p| - 1)
    else LastDot(p[..|p| - 1])
  }

  /** Some character before position `k` of `p` is not a dot. */
  predicate NonDotBefore(p: string, k: nat)
  {
    exists j :: 0 <= j < k && j < |p| && p[j] != '.'
  }

  /** Splitting a file name into its root and its extension: the extension runs from the
      last dot, unless only dots precede that dot (a hidden file's leading dots are not an
      extension). File names carry no directory separator. */
  function SplitExt(p: string): (r: (string, string))
    ensures r.0 + r.1 == p
    ensures r.1 == [] || r.1[0] == '.'
  {
    match LastDot(p)
    case None => (p, "")
    case Some(k) => if NonDotBefore(p, k) then (p[..k], p[k..]) else (p, "")
  }

  /** Names never read, whatever the caller asks to ignore. */
  const DefaultIgnored: set<string> := {".hg", ".svn", ".git", ".tox", "__pycache__", "env", "venv"}

  /** A file the reader opens: its extension is `.py` and its name is not ignored. */
  predicate Selected(fileName: string, ignored: set<string>)
  {
    SplitExt(fileName).1 == ".py" && fileName !in DefaultIgnored + ignored
  }

  /** The extension is `.py` exactly when the name ends in `.py` after at least one
      character that is not a dot. */
  lemma PyExtension(fileName: string)
    ensures SplitExt(fileName).1 == ".py" <==>
      |fileName| >= 4 && fileName[|fileName| - 3..] == ".py" && NonDotBefore(fileName, |fileName| - 3)
  {
    var n := |fileName|;
    if SplitExt(fileName).1 == ".py" {
      var k := LastDot(fileName).value;
      assert fileName[k..] == ".py";
      assert k == n - 3;
    }
    if n >= 4 && fileName[n - 3..] == ".py" && NonDotBefore(fileName, n - 3) {
      assert fileName[n - 3] == '.' && fileName[n - 2] == 'p' && fileName[n - 1] == 'y';
      assert LastDot(fileName) == Some(n - 3) by {
        assert LastDot(fileName[..n - 1]) == LastDot(fileName[..n - 2]) by {
          assert fileName[..n - 1][..n - 2] == fileName[..n - 2];
        }
        assert fileName[..n - 2][..n - 3] == fileName[..n - 3];
      }
    }
  }

  /** `file_name[:-3]`: the name without its last three characters (the `.py`). */
  function Stem(fileName: string): (s: string)
    ensures |fileName| >= 3 ==> s + fileName[|fileName| - 3..] == fileName
    ensures |fileName| < 3 ==> s == ""
  {
    if |fileName| >= 3 then fileName[..|fileName| - 3] else ""
  }

  /** The text `from .` occurs in the source line of `line` (lines count from 1). */
  predicate RelativeLine(lines: seq<string>, line: int)
  {
    0 <= line - 1 < |lines| && Contains(lines[line - 1], "from .")
  }

  /** The root a `from … import` resolves against: the file's own directory when its line
      is a relative import, the project root otherwise. */
  function FromBase(rootPath: string, dir: string, lines: seq<string>, line: int): (b: string)
    ensures b == dir <== RelativeLine(lines, line)
    ensures b == rootPath <== !RelativeLine(lines, line)
  {
    if RelativeLine(lines, line) then dir else rootPath
  }

  /** The full path of node `id` (empty for a position outside the table). */
  function PathOf(table: seq<Node>, id: NodeId): string
  {
    if id < |table| then table[id].fullPath else ""
  }

  /** The full paths of the nodes `ids`, in order. */
  function Paths(table: seq<Node>, ids: seq<NodeId>): (ps: seq<string>)
    ensures |ps| == |ids| && forall k :: 0 <= k < |ids| ==> ps[k] == PathOf(table, ids[k])
  {
    seq(|ids|, k requires 0 <= k < |ids| => PathOf(table, ids[k]))
  }

  /** The full paths of the modules node `n` imports, in order. */
  function ImportPaths(r: Registry, n: NodeId): seq<string>
  {
    if n < |r.table| then Paths(r.table, r.table[n].imports) else []
  }

  // ---------------------------------------------------------------------------
  // What a walk adds to the scanned node, as functions of the walk alone

  /** The paths an `import` statement's names resolve to, skipping empty names. */
  function NamePaths(rootPath: string, names: seq<string>): seq<string>
  {
    if names == [] then []
    else
      var last := names[|names| - 1];
      NamePaths(rootPath, names[..|names| - 1]) +
        (if last == "" then [] else [GetPathFromPackageName(Some(rootPath), Some(last))])
  }

  /** A `from … import` with a missing or empty module name is ignored. */
  predicate HasModule(e: Event)
  {
    e.ImportFrom? && e.pkg.Some? && e.pkg.value != ""
  }

  /** The paths of the modules one statement imports, in order. */
  function EventPaths(rootPath: string, dir: string, lines: seq<string>, e: Event): seq<string>
  {
    match e
    case Import(names, _) => NamePaths(rootPath, names)
    case ImportFrom(pkg, _, line) =>
      if HasModule(e) then [GetPathFromPackageName(Some(FromBase(rootPath, dir, lines, line)), pkg)] else []
    case _ => []
  }

  function WalkPaths(rootPath: string, dir: string, lines: seq<string>, events: seq<Event>): seq<string>
  {
    if events == [] then []
    else WalkPaths(rootPath, dir, lines, events[..|events| - 1]) + EventPaths(rootPath, dir, lines, events[|events| - 1])
  }

  /** A `from` import of a named module adds one path: the module resolved against the
      file's own directory when the statement's source line contains `from .`, and against
      the project root otherwise. A `from` import with no module adds nothing. */
  lemma FromImportResolves(rootPath: string, dir: string, lines: seq<string>, pkg: Option<string>,
                           names: seq<string>, line: int)
    ensures var relative := 0 <= line - 1 < |lines| && Contains(lines[line - 1], "from .");
            EventPaths(rootPath, dir, lines, ImportFrom(pkg, names, line)) ==
              if pkg.None? || pkg.value == "" then []
              else if relative then [GetPathFromPackageName(Some(dir), pkg)]
              else [GetPathFromPackageName(Some(rootPath), pkg)]
  {
  }

  /** The line of a statement; a statement that is neither an import nor a definition has
      none, and `0` stands in for it. */
  function LineOf(e: Event): int
  {
    match e
    case Import(_, line) => line
    case ImportFrom(_, _, line) => line
    case Definition(_, line) => line
    case Other => 0
  }

  /** `k` copies of `x`. */
  function Repeat(x: int, k: nat): (s: seq<int>)
    ensures |s| == k && forall j :: 0 <= j < k ==> s[j] == x
  {
    seq(k, _ => x)
  }

  /** The line each module a statement imports records at its target: the statement's own
      line, once per imported path. */
  function EventLines(rootPath: string, dir: string, lines: seq<string>, e: Event): (ls: seq<int>)
    ensures |ls| == |EventPaths(rootPath, dir, lines, e)|
  {
    Repeat(LineOf(e), |EventPaths(rootPath, dir, lines, e)|)
  }

  /** The lines of a whole walk, one per imported path and in the same order. */
  function WalkLines(rootPath: string, dir: string, lines: seq<string>, events: seq<Event>): (ls: seq<int>)
    ensures |ls| == |WalkPaths(rootPath, dir, lines, events)|
  {
    if events == [] then []
    else WalkLines(rootPath, dir, lines, events[..|events| - 1]) + EventLines(rootPath, dir, lines, events[|events| - 1])
  }

  /** Appending the imported names one by one to the list under `line`, creating it on the
      first name. */
  function AppendNames(fi: map<int, seq<string>>, line: int, names: seq<string>): map<int, seq<string>>
  {
    if names == [] then fi
    else
      var f0 := AppendNames(fi, line, names[..|names| - 1]);
      var name := names[|names| - 1];
      if line !in f0 then f0[line := [name]] else f0[line := f0[line] + [name]]
  }

  /** The imported names end up after whatever the line already held, in order; a
      statement that names nothing leaves the map as it was. */
  lemma {:induction false} AppendNamesAll(fi: map<int, seq<string>>, line: int, names: seq<string>)
    ensures AppendNames(fi, line, names) == if names == [] then fi else fi[line := Lookup(fi, line) + names]
    decreases |names|
  {
    if names != [] {
      var init := names[..|names| - 1];
      AppendNamesAll(fi, line, init);
      if init != [] {
        assert Lookup(fi, line) + init + [names[|names| - 1]] == Lookup(fi, line) + names;
      } else {
        assert AppendNames(fi, line, init) == fi;
        assert [] + [names[0]] == [names[0]] == names;
      }
    }
  }

  /** The names one statement records: those of a `from … import` with a module name. */
  function FuncImportsStep(fi: map<int, seq<string>>, e: Event): map<int, seq<string>>
  {
    if HasModule(e) then AppendNames(fi, e.line, e.names) else fi
  }

  /** The names a walk records, by line. */
  function FuncImportsAfter(fi: map<int, seq<string>>, events: seq<Event>): map<int, seq<string>>
  {
    if events == [] then fi
    else FuncImportsStep(FuncImportsAfter(fi, events[..|events| - 1]), events[|events| - 1])
  }

  /** The definition line one statement records. */
  function DefsStep(fd: map<string, int>, e: Event): map<string, int>
  {
    if e.Definition? then fd[e.name := e.line] else fd
  }

  /** The definition lines a walk records, by name. */
  function DefsAfter(fd: map<string, int>, events: seq<Event>): map<string, int>
  {
    if events == [] then fd
    else DefsStep(DefsAfter(fd, events[..|events| - 1]), events[|events| - 1])
  }

  /** `e` defines `name`. */
  predicate Defines(e: Event, name: string)
  {
    e.Definition? && e.name == name
  }

  /** A later definition of a name overrides an earlier one: the recorded line is that of
      the last definition of the name in the walk. */
  lemma {:induction false} LastDefinitionWins(fd: map<string, int>, events: seq<Event>, name: string, k: nat)
    requires k < |events| && Defines(events[k], name)
    requires forall j :: k < j < |events| ==> !Defines(events[j], name)
    ensures name in DefsAfter(fd, events) && DefsAfter(fd, events)[name] == events[k].line
    decreases |events|
  {
    var init := events[..|events| - 1];
    if k < |events| - 1 {
      assert !Defines(events[|events| - 1], name);
      assert forall j :: k < j < |init| ==> init[j] == events[j];
      LastDefinitionWins(fd, init, name, k);
    }
  }

  /** A walk that does not define a name leaves its entry as it was. */
  lemma {:induction false} UndefinedNameKept(fd: map<string, int>, events: seq<Event>, name: string)
    requires forall k :: 0 <= k < |events| ==> !Defines(events[k], name)
    ensures Lookup1(DefsAfter(fd, events), name) == Lookup1(fd, name)
    decreases |events|
  {
    if events != [] {
      var init := events[..|events| - 1];
      assert forall k :: 0 <= k < |init| ==> init[k] == events[k];
      UndefinedNameKept(fd, init, name);
    }
  }

  /** An optional map entry. */
  function Lookup1(m: map<string, int>, k: string): Option<int>
  {
    if k in m then Some(m[k]) else None
  }
}
