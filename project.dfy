/**
  The reader as the program runs it: a project object holding the node table, the
  registry of nodes by full path, the root node and the error flag, updated in place file
  by file and statement by statement. Each method is proved to leave exactly the state the
  specification functions of `GraphBuild` describe, so every property proved about those
  functions holds of the running reader.
 */
module ProjectReader {
  import opened Wrappers
  import opened ModulePaths
  import opened ImportGraph
  import opened ProjectScan
  import opened GraphBuild

  class Project {
    var table: seq<Node>
    var nodes: map<string, NodeId>
    var rootNode: Option<NodeId>
    var errors: bool

    /** The registry part of the state. */
    function Reg(): Registry
      reads this
    {
      Registry(table, nodes)
    }

    /** The whole state of the reader. */
    function State(): Reader
      reads this
    {
      Reader(Reg(), rootNode, errors)
    }

    predicate Valid()
      reads this
    {
      ReaderValid(State())
    }

    /** Nothing read yet. */
    constructor()
      ensures State() == EmptyReader()
    {
      table := [];
      nodes := map[];
      rootNode := None;
      errors := false;
    }

    /** The node registered under `path`, or a new one named `name` registered there. */
    method GetOrCreate(name: string, path: string) returns (n: NodeId)
      requires ImportGraph.Valid(Reg())
      modifies this`table, this`nodes
      ensures Reg() == ImportGraph.GetOrCreate(old(Reg()), name, path).0
      ensures n == ImportGraph.GetOrCreate(old(Reg()), name, path).1
      ensures ImportGraph.Valid(Reg()) && n < |table| && |old(table)| <= |table|
    {
      if path in nodes {
        n := nodes[path];
      } else {
        n := |table|;
        table := table + [NewNode(name, None, path)];
        nodes := nodes[path := n];
      }
    }

    /** Node `n` imports node `t` at `line`: the line is recorded under `n`'s path in `t`,
        then `t` is appended to `n`'s imports. */
    method AddImport(n: NodeId, t: NodeId, line: int)
      requires ImportGraph.Valid(Reg()) && n < |table| && t < |table|
      modifies this`table
      ensures Reg() == AddEdge(old(Reg()), n, t, line)
    {
      var key := table[n].fullPath;
      table := table[t := table[t].(isImportedFrom := AppendAt(table[t].isImportedFrom, key, line))];
      table := table[n := table[n].(imports := table[n].imports + [t])];
    }

    /** The names of an `import` statement of node `n`'s file. */
    method ImportNames(n: NodeId, rootPath: string, names: seq<string>, line: int)
      requires ImportGraph.Valid(Reg()) && n < |table|
      modifies this`table, this`nodes
      ensures Reg() == GraphBuild.ImportNames(old(Reg()), n, rootPath, names, line)
    {
      ghost var r0 := Reg();
      for i := 0 to |names|
        invariant Reg() == GraphBuild.ImportNames(r0, n, rootPath, names[..i], line)
      {
        assert names[..i + 1][..i] == names[..i];
        var name := names[i];
        if name != "" {
          var path := GetPathFromPackageName(Some(rootPath), Some(name));
          var t := GetOrCreate(name, path);
          AddImport(n, t, line);
        }
      }
      assert names[..|names|] == names;
    }

    /** A `from … import` of node `n`'s file: the module's node, the imported names under
        the line, then the edge. */
    method ImportFrom(n: NodeId, name: string, path: string, line: int, names: seq<string>)
      requires ImportGraph.Valid(Reg()) && n < |table|
      modifies this`table, this`nodes
      ensures Reg() == ImportFromModule(old(Reg()), n, name, path, line, names)
    {
      var t := GetOrCreate(name, path);
      var fi := table[n].funcImports;
      ghost var fi0 := fi;
      for i := 0 to |names|
        invariant fi == AppendNames(fi0, line, names[..i])
      {
        assert names[..i + 1][..i] == names[..i];
        if line !in fi {
          fi := fi[line := [names[i]]];
        } else {
          fi := fi[line := fi[line] + [names[i]]];
        }
      }
      assert names[..|names|] == names;
      ghost var r1 := Reg();
      table := table[n := table[n].(funcImports := fi)];
      assert Reg() == WithNames(r1, n, fi, r1.table[n].funcDefs);
      AddImport(n, t, line);
    }

    /** One statement of the walk of node `n`'s file. */
    method ScanEvent(n: NodeId, rootPath: string, dir: string, lines: seq<string>, e: Event)
      requires ImportGraph.Valid(Reg()) && n < |table|
      modifies this`table, this`nodes
      ensures Reg() == GraphBuild.ScanEvent(old(Reg()), n, rootPath, dir, lines, e)
    {
      match e
      case Import(names, line) =>
        ImportNames(n, rootPath, names, line);
      case ImportFrom(pkg, names, line) =>
        if pkg.Some? && pkg.value != "" {
          var base := if RelativeLine(lines, line) then dir else rootPath;
          var path := GetPathFromPackageName(Some(base), pkg);
          ImportFrom(n, pkg.value, path, line, names);
        }
      case Definition(name, line) =>
        ghost var r0 := Reg();
        table := table[n := table[n].(funcDefs := table[n].funcDefs[name := line])];
        assert Reg() == WithNames(r0, n, r0.table[n].funcImports, r0.table[n].funcDefs[name := line]);
      case Other =>
    }

    /** The whole walk of node `n`'s file, statement by statement. */
    method ScanEvents(n: NodeId, rootPath: string, dir: string, lines: seq<string>, events: seq<Event>)
      requires ImportGraph.Valid(Reg()) && n < |table|
      modifies this`table, this`nodes
      ensures Reg() == GraphBuild.ScanEvents(old(Reg()), n, rootPath, dir, lines, events)
      ensures ImportGraph.Valid(Reg()) && |old(table)| <= |table|
    {
      ghost var r0 := Reg();
      for i := 0 to |events|
        invariant Reg() == GraphBuild.ScanEvents(r0, n, rootPath, dir, lines, events[..i])
      {
        GraphBuild.ScanEventsStep(r0, n, rootPath, dir, lines, events, i);
        ScanEvent(n, rootPath, dir, lines, events[i]);
      }
      assert events[..|events|] == events;
    }

    /** A parsed file: its node is got or created, then its walk is scanned. */
    method ScanParsed(rootPath: string, f: SourceFile) returns (n: NodeId)
      requires ImportGraph.Valid(Reg()) && f.walk.Some?
      modifies this`table, this`nodes
      ensures var (r1, m) := ImportGraph.GetOrCreate(old(Reg()), Stem(f.fileName), FilePath(f));
              n == m && Reg() == GraphBuild.ScanEvents(r1, m, rootPath, f.dir, f.lines, f.walk.value)
    {
      n := GetOrCreate(Stem(f.fileName), FilePath(f));
      ScanEvents(n, rootPath, f.dir, f.lines, f.walk.value);
    }

    /** One file of the project: a file that does not parse only sets the error flag; a
        parsed file gets or reuses its node, its walk is scanned, and it becomes the root if
        there is none yet. */
    method ScanFile(rootPath: string, f: SourceFile)
      requires Valid()
      modifies this
      ensures State() == GraphBuild.ScanFile(old(State()), rootPath, f)
    {
      if f.walk.None? {
        errors := true;
        return;
      }
      ghost var st0 := State();
      var n := ScanParsed(rootPath, f);
      // The walk neither reads nor sets the root, so setting it here, after the walk
      // rather than before, leaves the same state.
      if rootNode.None? {
        rootNode := Some(n);
      }
      ScanFileParsed(st0, rootPath, f, ImportGraph.GetOrCreate(st0.reg, Stem(f.fileName), FilePath(f)).0, n);
    }
  }

  /** Reading a project: every selected file in walk order. The root node is what the
      program returns; the table holds the graph reachable from it. */
  method ReadProject(rootPath: string, ignored: set<string>, files: seq<SourceFile>) returns (p: Project, root: Option<NodeId>)
    ensures fresh(p) && p.Valid()
    ensures p.State() == ReadFiles(rootPath, ignored, files) && root == p.rootNode
  {
    p := new Project();
    for i := 0 to |files|
      invariant p.State() == ReadFiles(rootPath, ignored, files[..i]) && p.Valid()
    {
      assert files[..i + 1][..i] == files[..i];
      if Selected(files[i].fileName, ignored) {
        p.ScanFile(rootPath, files[i]);
      }
    }
    assert files[..|files|] == files;
    root := p.rootNode;
  }
}
