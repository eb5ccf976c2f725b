/**
  Building the import graph from the walks of a project's files: the registry operations
  of the reader, one statement, one file and a whole project at a time.
 */
module GraphBuild {
  import opened Wrappers
  import opened ModulePaths
  import opened ImportGraph
  import opened ProjectScan

  /** `res` is `r` after scanning part of the file of node `n`: still valid, every other node
      kept, `paths` appended to the import paths of `n`, and `fi`/`fd` its recorded from-import
      names and definition lines. */
  predicate Advanced(r: Registry, res: Registry, n: NodeId, paths: seq<string>,
                     fi: map<int, seq<string>>, fd: map<string, int>)
  {
    Valid(res) && OthersKept(r, res, n) && n < |res.table|
    && ImportPaths(res, n) == ImportPaths(r, n) + paths
    && res.table[n].funcImports == fi && res.table[n].funcDefs == fd
  }

  lemma AdvancedTransitive(r: Registry, r0: Registry, res: Registry, n: NodeId, p0: seq<string>, p1: seq<string>,
                           fi0: map<int, seq<string>>, fd0: map<string, int>, fi: map<int, seq<string>>, fd: map<string, int>)
    requires Advanced(r, r0, n, p0, fi0, fd0) && Advanced(r0, res, n, p1, fi, fd)
    ensures Advanced(r, res, n, p0 + p1, fi, fd)
  {
    OthersKeptTransitive(r, r0, res, n);
  }

  /** Existing nodes keep their paths, so the paths of old edges read the same. */
  lemma PathsKept(a: Registry, b: Registry, ids: seq<NodeId>)
    requires Extends(a, b) && forall k :: 0 <= k < |ids| ==> ids[k] < |a.table|
    ensures Paths(b.table, ids) == Paths(a.table, ids)
  {
  }

  lemma PathsAppend(table: seq<Node>, ids: seq<NodeId>, t: NodeId)
    requires t < |table|
    ensures Paths(table, ids + [t]) == Paths(table, ids) + [table[t].fullPath]
  {
  }

  /** Replacing the recorded names of node `n`. */
  function WithNames(r: Registry, n: NodeId, fi: map<int, seq<string>>, fd: map<string, int>): (res: Registry)
    requires Valid(r) && n < |r.table|
    ensures Advanced(r, res, n, [], fi, fd) && |res.table| == |r.table|
    ensures res.table[n] == r.table[n].(funcImports := fi, funcDefs := fd)
    ensures forall i :: 0 <= i < |r.table| && i != n ==> res.table[i] == r.table[i]
  {
    var table := r.table[n := r.table[n].(funcImports := fi, funcDefs := fd)];
    SameEdgesKeepValid(r, table);
    var res := Registry(table, r.nodes);
    assert forall i :: 0 <= i < |table| && i != n ==> KeptAt(r, res, i);
    PathsKept(r, res, r.table[n].imports);
    assert ImportPaths(r, n) + [] == ImportPaths(r, n);
    res
  }

  /** One imported module: get or create its node, then add the edge from `n`. */
  function ImportOne(r: Registry, n: NodeId, name: string, path: string, line: int): (res: Registry)
    requires Valid(r) && n < |r.table|
    ensures Advanced(r, res, n, [path], r.table[n].funcImports, r.table[n].funcDefs)
  {
    var (r1, t) := GetOrCreate(r, name, path);
    assert r1.table[n] == r.table[n];
    var res := AddEdge(r1, n, t, line);
    OthersKeptTransitive(r, r1, res, n);
    PathsKept(r, res, r.table[n].imports);
    PathsAppend(res.table, r.table[n].imports, t);
    res
  }

  /** The names of an `import` statement, in order; an empty name is skipped. */
  function ImportNames(r: Registry, n: NodeId, rootPath: string, names: seq<string>, line: int): (res: Registry)
    requires Valid(r) && n < |r.table|
    ensures Advanced(r, res, n, NamePaths(rootPath, names), r.table[n].funcImports, r.table[n].funcDefs)
    decreases |names|
  {
    if names == [] then
      assert ImportPaths(r, n) + [] == ImportPaths(r, n);
      r
    else
      var init := names[..|names| - 1];
      var r0 := ImportNames(r, n, rootPath, init, line);
      var name := names[|names| - 1];
      if name == "" then
        assert NamePaths(rootPath, init) + [] == NamePaths(rootPath, names);
        r0
      else
        var path := GetPathFromPackageName(Some(rootPath), Some(name));
        var res := ImportOne(r0, n, name, path, line);
        AdvancedTransitive(r, r0, res, n, NamePaths(rootPath, init), [path],
                           r.table[n].funcImports, r.table[n].funcDefs, r.table[n].funcImports, r.table[n].funcDefs);
        res
  }

  /** A `from` import of a module: get or create its node, record the imported names under
      the line, then add the edge from `n`. */
  function ImportFromModule(r: Registry, n: NodeId, name: string, path: string, line: int, names: seq<string>): (res: Registry)
    requires Valid(r) && n < |r.table|
    ensures Advanced(r, res, n, [path], AppendNames(r.table[n].funcImports, line, names), r.table[n].funcDefs)
  {
    var (r1, t) := GetOrCreate(r, name, path);
    assert r1.table[n] == r.table[n];
    var r2 := WithNames(r1, n, AppendNames(r1.table[n].funcImports, line, names), r1.table[n].funcDefs);
    var res := AddEdge(r2, n, t, line);
    OthersKeptTransitive(r, r1, r2, n);
    OthersKeptTransitive(r, r2, res, n);
    PathsKept(r, res, r.table[n].imports);
    PathsAppend(res.table, r.table[n].imports, t);
    res
  }

  /** One statement of the walk of the file of node `n`. */
  function ScanEvent(r: Registry, n: NodeId, rootPath: string, dir: string, lines: seq<string>, e: Event): (res: Registry)
    requires Valid(r) && n < |r.table|
    ensures Advanced(r, res, n, EventPaths(rootPath, dir, lines, e),
                     FuncImportsStep(r.table[n].funcImports, e), DefsStep(r.table[n].funcDefs, e))
  {
    match e
    case Import(names, line) => ImportNames(r, n, rootPath, names, line)
    case ImportFrom(pkg, names, line) =>
      if !HasModule(e) then
        assert ImportPaths(r, n) + [] == ImportPaths(r, n);
        r
      else
        var path := GetPathFromPackageName(Some(FromBase(rootPath, dir, lines, line)), pkg);
        ImportFromModule(r, n, pkg.value, path, line, names)
    case Definition(name, line) =>
      WithNames(r, n, r.table[n].funcImports, r.table[n].funcDefs[name := line])
    case Other =>
      assert ImportPaths(r, n) + [] == ImportPaths(r, n);
      r
  }

  /** The whole walk of the file of node `n`, statement by statement. */
  function ScanEvents(r: Registry, n: NodeId, rootPath: string, dir: string, lines: seq<string>, events: seq<Event>): (res: Registry)
    requires Valid(r) && n < |r.table|
    ensures Advanced(r, res, n, WalkPaths(rootPath, dir, lines, events),
                     FuncImportsAfter(r.table[n].funcImports, events), DefsAfter(r.table[n].funcDefs, events))
    decreases |events|
  {
    if events == [] then
      assert ImportPaths(r, n) + [] == ImportPaths(r, n);
      r
    else
      var init := events[..|events| - 1];
      var e := events[|events| - 1];
      var r0 := ScanEvents(r, n, rootPath, dir, lines, init);
      var res := ScanEvent(r0, n, rootPath, dir, lines, e);
      AdvancedTransitive(r, r0, res, n, WalkPaths(rootPath, dir, lines, init), EventPaths(rootPath, dir, lines, e),
                         r0.table[n].funcImports, r0.table[n].funcDefs, res.table[n].funcImports, res.table[n].funcDefs);
      res
  }

  /** The walk of the first `i + 1` statements is the walk of the first `i` and one more. */
  lemma ScanEventsStep(r: Registry, n: NodeId, rootPath: string, dir: string, lines: seq<string>, events: seq<Event>, i: nat)
    requires Valid(r) && n < |r.table| && i < |events|
    ensures var r0 := ScanEvents(r, n, rootPath, dir, lines, events[..i]);
            n < |r0.table| &&
            ScanEvents(r, n, rootPath, dir, lines, events[..i + 1]) == ScanEvent(r0, n, rootPath, dir, lines, events[i])
  {
    assert events[..i + 1][..i] == events[..i];
  }

  // ---------------------------------------------------------------------------
  // The lines recorded at the targets

  /** The lines node `i` records under `key`; a node not made yet records none. */
  function Recorded(table: seq<Node>, i: NodeId, key: string): seq<int>
  {
    if i < |table| then Lookup(table[i].isImportedFrom, key) else []
  }

  /** The lines of `lns` whose path in `paths` is `target`, in order: one per import of
      `target`. */
  function LinesFor(paths: seq<string>, lns: seq<int>, target: string): (ls: seq<int>)
    requires |paths| == |lns|
    ensures (forall k :: 0 <= k < |paths| ==> paths[k] != target) ==> ls == []
    decreases |paths|
  {
    if paths == [] then []
    else
      var m := |paths| - 1;
      LinesFor(paths[..m], lns[..m], target) + (if paths[m] == target then [lns[m]] else [])
  }

  /** There is one line for each occurrence of `target` among the paths. */
  lemma {:induction false} LinesForCount(paths: seq<string>, lns: seq<int>, target: string)
    requires |paths| == |lns|
    ensures |LinesFor(paths, lns, target)| == multiset(paths)[target]
    decreases |paths|
  {
    if paths != [] {
      var m := |paths| - 1;
      LinesForCount(paths[..m], lns[..m], target);
      assert paths == paths[..m] + [paths[m]];
    }
  }

  lemma LinesForSingle(p: string, l: int, target: string)
    ensures LinesFor([p], [l], target) == if p == target then [l] else []
  {
    assert [p][..0] == [] && [l][..0] == [];
  }

  lemma {:induction false} LinesForAppend(p0: seq<string>, l0: seq<int>, p1: seq<string>, l1: seq<int>, target: string)
    requires |p0| == |l0| && |p1| == |l1|
    ensures LinesFor(p0 + p1, l0 + l1, target) == LinesFor(p0, l0, target) + LinesFor(p1, l1, target)
    decreases |p1|
  {
    if p1 == [] {
      assert p0 + p1 == p0 && l0 + l1 == l0;
    } else {
      var m := |p1| - 1;
      var p, l := p0 + p1, l0 + l1;
      LinesForAppend(p0, l0, p1[..m], l1[..m], target);
      assert p[..|p| - 1] == p0 + p1[..m];
      assert l[..|l| - 1] == l0 + l1[..m];
      assert p[|p| - 1] == p1[m] && l[|l| - 1] == l1[m];
      var tail := if p1[m] == target then [l1[m]] else [];
      calc {
        LinesFor(p, l, target);
        LinesFor(p0 + p1[..m], l0 + l1[..m], target) + tail;
        LinesFor(p0, l0, target) + LinesFor(p1[..m], l1[..m], target) + tail;
        LinesFor(p0, l0, target) + LinesFor(p1, l1, target);
      }
    }
  }

  /** `res` is `r` after imports, made by the file whose path is `key`, of the modules at
      `paths` at the lines `lns`: every node, old or new, records under `key` what it did
      before and then the lines of the imports of its own path, in order; no other list of
      lines changes. */
  ghost predicate LinesAdvanced(r: Registry, res: Registry, key: string, paths: seq<string>, lns: seq<int>)
  {
    |paths| == |lns| && |r.table| <= |res.table| &&
    (forall k :: 0 <= k < |paths| ==> paths[k] in res.nodes) &&
    (forall i :: 0 <= i < |res.table| ==> GrownAt(r, res, key, paths, lns, i)) &&
    (forall i, other :: 0 <= i < |res.table| && other != key ==> Recorded(res.table, i, other) == Recorded(r.table, i, other))
  }

  /** Node `i` records under `key` what it did in `r` and then the lines of the imports of
      its own path. */
  predicate GrownAt(r: Registry, res: Registry, key: string, paths: seq<string>, lns: seq<int>, i: NodeId)
    requires |paths| == |lns| && i < |res.table|
  {
    Recorded(res.table, i, key) == Recorded(r.table, i, key) + LinesFor(paths, lns, res.table[i].fullPath)
  }

  /** A node made after `r0` has a path that no node of `r0` has. */
  lemma NewPathFresh(r0: Registry, res: Registry, paths: seq<string>, i: NodeId)
    requires Registered(r0) && Registered(res) && Extends(r0, res)
    requires forall k :: 0 <= k < |paths| ==> paths[k] in r0.nodes
    requires |r0.table| <= i < |res.table|
    ensures forall k :: 0 <= k < |paths| ==> paths[k] != res.table[i].fullPath
  {
    forall k | 0 <= k < |paths|
      ensures paths[k] != res.table[i].fullPath
    {
      assert r0.nodes[paths[k]] < |r0.table|;
      assert res.nodes[res.table[i].fullPath] == i;
    }
  }

  lemma LinesTransitive(r: Registry, r0: Registry, res: Registry, key: string,
                        p0: seq<string>, l0: seq<int>, p1: seq<string>, l1: seq<int>)
    requires LinesAdvanced(r, r0, key, p0, l0) && LinesAdvanced(r0, res, key, p1, l1)
    requires Registered(r0) && Registered(res) && Extends(r0, res)
    ensures LinesAdvanced(r, res, key, p0 + p1, l0 + l1)
  {
    forall k | 0 <= k < |p0 + p1|
      ensures (p0 + p1)[k] in res.nodes
    {
      if k < |p0| {
        assert p0[k] in r0.nodes;
      } else {
        assert (p0 + p1)[k] == p1[k - |p0|];
      }
    }
    forall i | 0 <= i < |res.table|
      ensures GrownAt(r, res, key, p0 + p1, l0 + l1, i)
    {
      if i >= |r0.table| {
        NewPathFresh(r0, res, p0, i);
      }
      GrownThrough(r, r0, res, key, p0, l0, p1, l1, i);
    }
  }

  /** Node `i`'s growth over two steps is the growth over the first, then over the second. */
  lemma GrownThrough(r: Registry, r0: Registry, res: Registry, key: string,
                     p0: seq<string>, l0: seq<int>, p1: seq<string>, l1: seq<int>, i: NodeId)
    requires |p0| == |l0| && |p1| == |l1| && |r.table| <= |r0.table| && i < |res.table|
    requires GrownAt(r0, res, key, p1, l1, i)
    requires i < |r0.table| ==> GrownAt(r, r0, key, p0, l0, i) && r0.table[i].fullPath == res.table[i].fullPath
    requires i >= |r0.table| ==> forall k :: 0 <= k < |p0| ==> p0[k] != res.table[i].fullPath
    ensures GrownAt(r, res, key, p0 + p1, l0 + l1, i)
  {
    LinesForAppend(p0, l0, p1, l1, res.table[i].fullPath);
  }

  /** Getting or creating a node records no line anywhere. */
  lemma GetOrCreateLines(r: Registry, name: string, path: string, key: string)
    requires Valid(r)
    ensures LinesAdvanced(r, GetOrCreate(r, name, path).0, key, [], [])
  {
  }

  /** Replacing the names of a node records no line anywhere. */
  lemma WithNamesLines(r: Registry, n: NodeId, fi: map<int, seq<string>>, fd: map<string, int>, key: string)
    requires Valid(r) && n < |r.table|
    ensures LinesAdvanced(r, WithNames(r, n, fi, fd), key, [], [])
  {
  }

  /** One edge from `n` to `t` records `line` at `t`, and only there, under `n`'s path. */
  lemma AddEdgeLines(r: Registry, n: NodeId, t: NodeId, line: int)
    requires Valid(r) && n < |r.table| && t < |r.table|
    ensures LinesAdvanced(r, AddEdge(r, n, t, line), r.table[n].fullPath, [r.table[t].fullPath], [line])
  {
    var res := AddEdge(r, n, t, line);
    forall i | 0 <= i < |res.table|
      ensures GrownAt(r, res, r.table[n].fullPath, [r.table[t].fullPath], [line], i)
    {
      LinesForSingle(r.table[t].fullPath, line, res.table[i].fullPath);
      assert res.table[i].fullPath == r.table[i].fullPath;
      if i != t {
        assert r.nodes[r.table[i].fullPath] == i && r.nodes[r.table[t].fullPath] == t;
      }
    }
  }

  /** One module of an `import` statement records the statement's line at its node. */
  lemma ImportOneLines(r: Registry, n: NodeId, name: string, path: string, line: int)
    requires Valid(r) && n < |r.table|
    ensures LinesAdvanced(r, ImportOne(r, n, name, path, line), r.table[n].fullPath, [path], [line])
  {
    var key := r.table[n].fullPath;
    var (r1, t) := GetOrCreate(r, name, path);
    GetOrCreateLines(r, name, path, key);
    assert r1.table[n] == r.table[n];
    AddEdgeLines(r1, n, t, line);
    var res := AddEdge(r1, n, t, line);
    assert res == ImportOne(r, n, name, path, line);
    LinesTransitive(r, r1, res, key, [], [], [path], [line]);
    assert [] + [path] == [path] && [] + [line] == [line];
  }

  /** An `import` statement records its line once at the node of each module it names,
      in order. */
  lemma {:induction false} ImportNamesLines(r: Registry, n: NodeId, rootPath: string, names: seq<string>, line: int)
    requires Valid(r) && n < |r.table|
    ensures var paths := NamePaths(rootPath, names);
            LinesAdvanced(r, ImportNames(r, n, rootPath, names, line), r.table[n].fullPath, paths, Repeat(line, |paths|))
    decreases |names|
  {
    var key := r.table[n].fullPath;
    if names == [] {
      assert ImportNames(r, n, rootPath, names, line) == r;
      assert Repeat(line, 0) == [];
    } else {
      var init := names[..|names| - 1];
      var r0 := ImportNames(r, n, rootPath, init, line);
      ImportNamesLines(r, n, rootPath, init, line);
      var name := names[|names| - 1];
      var p0 := NamePaths(rootPath, init);
      if name == "" {
        assert NamePaths(rootPath, names) == p0;
        assert ImportNames(r, n, rootPath, names, line) == r0;
      } else {
        var path := GetPathFromPackageName(Some(rootPath), Some(name));
        assert ImportNames(r, n, rootPath, names, line) == ImportOne(r0, n, name, path, line);
        assert NamePaths(rootPath, names) == p0 + [path];
        LinesThenImportOne(r, r0, n, name, path, line, p0);
      }
    }
  }

  /** One more name of an `import` statement, after the earlier ones. */
  lemma LinesThenImportOne(r: Registry, r0: Registry, n: NodeId, name: string, path: string, line: int, p0: seq<string>)
    requires Valid(r0) && n < |r0.table| && n < |r.table| && r0.table[n].fullPath == r.table[n].fullPath
    requires LinesAdvanced(r, r0, r.table[n].fullPath, p0, Repeat(line, |p0|))
    ensures LinesAdvanced(r, ImportOne(r0, n, name, path, line), r.table[n].fullPath, p0 + [path], Repeat(line, |p0| + 1))
  {
    var res := ImportOne(r0, n, name, path, line);
    ImportOneLines(r0, n, name, path, line);
    LinesTransitive(r, r0, res, r.table[n].fullPath, p0, Repeat(line, |p0|), [path], [line]);
    assert Repeat(line, |p0| + 1) == Repeat(line, |p0|) + [line];
  }

  /** A `from` import records its line at the node of its module. */
  lemma ImportFromLines(r: Registry, n: NodeId, name: string, path: string, line: int, names: seq<string>)
    requires Valid(r) && n < |r.table|
    ensures LinesAdvanced(r, ImportFromModule(r, n, name, path, line, names), r.table[n].fullPath, [path], [line])
  {
    var key := r.table[n].fullPath;
    var (r1, t) := GetOrCreate(r, name, path);
    GetOrCreateLines(r, name, path, key);
    assert r1.table[n] == r.table[n];
    var fi := AppendNames(r1.table[n].funcImports, line, names);
    var r2 := WithNames(r1, n, fi, r1.table[n].funcDefs);
    WithNamesLines(r1, n, fi, r1.table[n].funcDefs, key);
    LinesTransitive(r, r1, r2, key, [], [], [], []);
    AddEdgeLines(r2, n, t, line);
    var res := AddEdge(r2, n, t, line);
    assert res == ImportFromModule(r, n, name, path, line, names);
    LinesTransitive(r, r2, res, key, [], [], [path], [line]);
    assert [] + [path] == [path] && [] + [line] == [line];
  }

  /** One statement records its line once for each module it imports. */
  lemma ScanEventLines(r: Registry, n: NodeId, rootPath: string, dir: string, lines: seq<string>, e: Event)
    requires Valid(r) && n < |r.table|
    ensures LinesAdvanced(r, ScanEvent(r, n, rootPath, dir, lines, e), r.table[n].fullPath,
                          EventPaths(rootPath, dir, lines, e), EventLines(rootPath, dir, lines, e))
  {
    var key := r.table[n].fullPath;
    match e
    case Import(names, line) =>
      ImportNamesLines(r, n, rootPath, names, line);
    case ImportFrom(pkg, names, line) =>
      FromEventLines(r, n, rootPath, dir, lines, pkg, names, line);
    case Definition(name, line) =>
      WithNamesLines(r, n, r.table[n].funcImports, r.table[n].funcDefs[name := line], key);
      assert EventLines(rootPath, dir, lines, e) == [];
    case Other =>
      assert EventLines(rootPath, dir, lines, e) == [];
  }

  /** A `from` import records its line at its module's node, or nothing when it names no
      module. */
  lemma FromEventLines(r: Registry, n: NodeId, rootPath: string, dir: string, lines: seq<string>,
                       pkg: Option<string>, names: seq<string>, line: int)
    requires Valid(r) && n < |r.table|
    ensures var e := ImportFrom(pkg, names, line);
            LinesAdvanced(r, ScanEvent(r, n, rootPath, dir, lines, e), r.table[n].fullPath,
                          EventPaths(rootPath, dir, lines, e), EventLines(rootPath, dir, lines, e))
  {
    var e := ImportFrom(pkg, names, line);
    if HasModule(e) {
      var path := GetPathFromPackageName(Some(FromBase(rootPath, dir, lines, line)), pkg);
      assert EventPaths(rootPath, dir, lines, e) == [path];
      assert EventLines(rootPath, dir, lines, e) == Repeat(line, 1) == [line];
      assert ScanEvent(r, n, rootPath, dir, lines, e) == ImportFromModule(r, n, pkg.value, path, line, names);
      ImportFromLines(r, n, pkg.value, path, line, names);
    } else {
      assert EventLines(rootPath, dir, lines, e) == [];
    }
  }

  /** The whole walk records, at each module's node, the line of every import of it, in
      walk order. */
  lemma {:induction false} ScanEventsLines(r: Registry, n: NodeId, rootPath: string, dir: string, lines: seq<string>, events: seq<Event>)
    requires Valid(r) && n < |r.table|
    ensures LinesAdvanced(r, ScanEvents(r, n, rootPath, dir, lines, events), r.table[n].fullPath,
                          WalkPaths(rootPath, dir, lines, events), WalkLines(rootPath, dir, lines, events))
    decreases |events|
  {
    if events == [] {
      assert ScanEvents(r, n, rootPath, dir, lines, events) == r;
    } else {
      var init := events[..|events| - 1];
      var e := events[|events| - 1];
      ScanEventsLines(r, n, rootPath, dir, lines, init);
      var r0 := ScanEvents(r, n, rootPath, dir, lines, init);
      assert r0.table[n].fullPath == r.table[n].fullPath;
      ScanEventLines(r0, n, rootPath, dir, lines, e);
      var res := ScanEvent(r0, n, rootPath, dir, lines, e);
      assert ScanEvents(r, n, rootPath, dir, lines, events) == res;
      LinesTransitive(r, r0, res, r.table[n].fullPath,
                      WalkPaths(rootPath, dir, lines, init), WalkLines(rootPath, dir, lines, init),
                      EventPaths(rootPath, dir, lines, e), EventLines(rootPath, dir, lines, e));
    }
  }

  // ---------------------------------------------------------------------------
  // Files and projects

  /** What the reader holds while it reads a project: the registry of nodes, the root node
      (the node of the first file parsed) and whether some file failed to parse. */
  datatype Reader = Reader(reg: Registry, root: Option<NodeId>, errors: bool)

  predicate ReaderValid(st: Reader)
  {
    Valid(st.reg) && (st.root.Some? ==> st.root.value < |st.reg.table|)
  }

  /** Before anything is read. */
  function EmptyReader(): (st: Reader)
    ensures ReaderValid(st) && st.reg.nodes == map[] && st.root.None? && !st.errors
  {
    Reader(Registry([], map[]), None, false)
  }

  /** The node of `path` as it stands before its file is scanned: the one registered, or a
      new node named after the file. */
  function NodeBefore(r: Registry, path: string, fileName: string): Node
    requires Valid(r)
  {
    if path in r.nodes then r.table[r.nodes[path]] else NewNode(Stem(fileName), None, path)
  }

  /** A file is parsed: its node is the one registered under its path or a new one at the end
      of the table, and that node keeps its name and gains the imports, the from-import
      names and the definitions of the walk; every other node imports and records what it
      did; the root is set if none was. */
  predicate FileScanned(st: Reader, res: Reader, rootPath: string, f: SourceFile)
    requires ReaderValid(st) && ReaderValid(res) && f.walk.Some?
  {
    var path := FilePath(f);
    var before := NodeBefore(st.reg, path, f.fileName);
    path in res.reg.nodes &&
    var n := res.reg.nodes[path];
    n == (if path in st.reg.nodes then st.reg.nodes[path] else |st.reg.table|) &&
    res.reg.table[n].name == before.name &&
    Paths(res.reg.table, res.reg.table[n].imports) ==
      Paths(st.reg.table, before.imports) + WalkPaths(rootPath, f.dir, f.lines, f.walk.value) &&
    res.reg.table[n].funcImports == FuncImportsAfter(before.funcImports, f.walk.value) &&
    res.reg.table[n].funcDefs == DefsAfter(before.funcDefs, f.walk.value) &&
    (forall i :: 0 <= i < |res.reg.table| && i != n ==> KeptAt(st.reg, res.reg, i)) &&
    res.root == (if st.root.Some? then st.root else Some(n)) &&
    res.errors == st.errors
  }

  /** The small part of `FileScanned` the project-level facts need. */
  predicate ParsedInto(st: Reader, res: Reader, path: string)
  {
    path in res.reg.nodes && res.errors == st.errors &&
    res.root == (if st.root.Some? then st.root else Some(res.reg.nodes[path]))
  }

  /** One file of the project: a file that failed to parse only sets the error flag; a
      parsed file gets (or reuses) its node and its walk is scanned (`ScanFileEffect`). */
  function ScanFile(st: Reader, rootPath: string, f: SourceFile): (res: Reader)
    requires ReaderValid(st)
    ensures ReaderValid(res) && Extends(st.reg, res.reg)
    ensures f.walk.None? ==> res == st.(errors := true)
    ensures f.walk.Some? ==> ParsedInto(st, res, FilePath(f))
  {
    if f.walk.None? then st.(errors := true)
    else
      var (r1, n) := GetOrCreate(st.reg, Stem(f.fileName), FilePath(f));
      var r2 := ScanEvents(r1, n, rootPath, f.dir, f.lines, f.walk.value);
      ExtendsTransitive(st.reg, r1, r2);
      Reader(r2, if st.root.Some? then st.root else Some(n), st.errors)
  }

  /** What scanning a parsed file does to the registry. */
  lemma ScanFileEffect(st: Reader, rootPath: string, f: SourceFile)
    requires ReaderValid(st) && f.walk.Some?
    ensures FileScanned(st, ScanFile(st, rootPath, f), rootPath, f)
  {
    var path := FilePath(f);
    var (r1, n) := GetOrCreate(st.reg, Stem(f.fileName), path);
    var r2 := ScanEvents(r1, n, rootPath, f.dir, f.lines, f.walk.value);
    ScanFileParsed(st, rootPath, f, r1, n);
    assert r1.table[n] == NodeBefore(st.reg, path, f.fileName);
    CreatedThenKept(st.reg, r1, r2, n, Stem(f.fileName), path);
    PathsKept(st.reg, r1, r1.table[n].imports);
  }

  /** Getting or creating the node of `path` and then scanning a walk from it records, at
      each node, the line of every import of it in the walk, under `path`. */
  lemma GetAndScanLines(r: Registry, name: string, path: string,
                        rootPath: string, dir: string, lines: seq<string>, walk: seq<Event>)
    requires Valid(r)
    ensures var (r1, n) := GetOrCreate(r, name, path);
            LinesAdvanced(r, ScanEvents(r1, n, rootPath, dir, lines, walk), path,
                          WalkPaths(rootPath, dir, lines, walk), WalkLines(rootPath, dir, lines, walk))
  {
    var (r1, n) := GetOrCreate(r, name, path);
    var ps, ls := WalkPaths(rootPath, dir, lines, walk), WalkLines(rootPath, dir, lines, walk);
    GetOrCreateLines(r, name, path, path);
    ScanEventsLines(r1, n, rootPath, dir, lines, walk);
    LinesTransitive(r, r1, ScanEvents(r1, n, rootPath, dir, lines, walk), path, [], [], ps, ls);
    assert [] + ps == ps && [] + ls == ls;
  }

  /** After a parsed file, every node records under the file's path what it did before and
      then the line of each import of it in the walk, in walk order; every other list of
      lines is unchanged. */
  lemma ScanFileLines(st: Reader, rootPath: string, f: SourceFile)
    requires ReaderValid(st) && f.walk.Some?
    ensures LinesAdvanced(st.reg, ScanFile(st, rootPath, f).reg, FilePath(f),
                          WalkPaths(rootPath, f.dir, f.lines, f.walk.value), WalkLines(rootPath, f.dir, f.lines, f.walk.value))
  {
    var (r1, n) := GetOrCreate(st.reg, Stem(f.fileName), FilePath(f));
    ScanFileParsed(st, rootPath, f, r1, n);
    GetAndScanLines(st.reg, Stem(f.fileName), FilePath(f), rootPath, f.dir, f.lines, f.walk.value);
  }

  /** Getting or creating node `n` and then changing only `n` leaves every other node
      importing and recording what it did before, or nothing when it is new. */
  lemma CreatedThenKept(r0: Registry, r1: Registry, r2: Registry, n: NodeId, name: string, path: string)
    requires Valid(r0) && (r1, n) == GetOrCreate(r0, name, path) && OthersKept(r1, r2, n)
    ensures forall i :: 0 <= i < |r2.table| && i != n ==> KeptAt(r0, r2, i)
  {
    forall i | 0 <= i < |r2.table| && i != n
      ensures KeptAt(r0, r2, i)
    {
      assert KeptAt(r1, r2, i);
      if i < |r1.table| {
        assert r1.table[i] == (if i < |r0.table| then r0.table[i] else NewNode(name, None, path));
      }
    }
  }

  /** A parsed file: the node got or created for its path, then its walk scanned. */
  lemma ScanFileParsed(st: Reader, rootPath: string, f: SourceFile, r1: Registry, n: NodeId)
    requires ReaderValid(st) && f.walk.Some?
    requires r1 == GetOrCreate(st.reg, Stem(f.fileName), FilePath(f)).0
    requires n == GetOrCreate(st.reg, Stem(f.fileName), FilePath(f)).1
    ensures ScanFile(st, rootPath, f) ==
      Reader(ScanEvents(r1, n, rootPath, f.dir, f.lines, f.walk.value), if st.root.Some? then st.root else Some(n), st.errors)
  {
  }

  /** A file the reader opens and parses. */
  predicate Parsed(f: SourceFile, ignored: set<string>)
  {
    Selected(f.fileName, ignored) && f.walk.Some?
  }

  /** A file the reader opens but cannot parse. */
  predicate Failed(f: SourceFile, ignored: set<string>)
  {
    Selected(f.fileName, ignored) && f.walk.None?
  }

  /** The files of a project in walk order, skipping those not selected. */
  function ReadFiles(rootPath: string, ignored: set<string>, files: seq<SourceFile>): (st: Reader)
    ensures ReaderValid(st)
    decreases |files|
  {
    if files == [] then EmptyReader()
    else
      var st0 := ReadFiles(rootPath, ignored, files[..|files| - 1]);
      var f := files[|files| - 1];
      if Selected(f.fileName, ignored) then ScanFile(st0, rootPath, f) else st0
  }

  /** One more file: how the error flag, the root and the registered paths move. */
  lemma ReadFilesStep(rootPath: string, ignored: set<string>, files: seq<SourceFile>)
    requires files != []
    ensures var st0 := ReadFiles(rootPath, ignored, files[..|files| - 1]);
            var st := ReadFiles(rootPath, ignored, files);
            var f := files[|files| - 1];
            Extends(st0.reg, st.reg) &&
            st.errors == (st0.errors || Failed(f, ignored)) &&
            (Parsed(f, ignored) ==> FilePath(f) in st.reg.nodes) &&
            st.root == (if st0.root.Some? then st0.root
                        else if Parsed(f, ignored) then Some(st.reg.nodes[FilePath(f)]) else None)
  {
  }

  /** A selected file that fails to parse sets the error flag, and it stays set. */
  lemma {:induction false} FailedSetsErrors(rootPath: string, ignored: set<string>, files: seq<SourceFile>, k: nat)
    requires k < |files| && Failed(files[k], ignored)
    ensures ReadFiles(rootPath, ignored, files).errors
    decreases |files|
  {
    ReadFilesStep(rootPath, ignored, files);
    if k < |files| - 1 {
      var init := files[..|files| - 1];
      assert init[k] == files[k];
      FailedSetsErrors(rootPath, ignored, init, k);
    }
  }

  /** The error flag is set only by a selected file that failed to parse. */
  lemma {:induction false} ErrorsHaveCause(rootPath: string, ignored: set<string>, files: seq<SourceFile>)
    ensures ReadFiles(rootPath, ignored, files).errors ==> exists i :: 0 <= i < |files| && Failed(files[i], ignored)
    decreases |files|
  {
    if files != [] && ReadFiles(rootPath, ignored, files).errors {
      var init := files[..|files| - 1];
      ReadFilesStep(rootPath, ignored, files);
      if !Failed(files[|files| - 1], ignored) {
        ErrorsHaveCause(rootPath, ignored, init);
        var i :| 0 <= i < |init| && Failed(init[i], ignored);
        assert files[i] == init[i];
      }
    }
  }

  /** There is a root node exactly when some selected file parsed. */
  lemma {:induction false} RootIffSomeParsed(rootPath: string, ignored: set<string>, files: seq<SourceFile>)
    ensures ReadFiles(rootPath, ignored, files).root.Some? <==> exists i :: 0 <= i < |files| && Parsed(files[i], ignored)
    decreases |files|
  {
    if files != [] {
      var init := files[..|files| - 1];
      RootIffSomeParsed(rootPath, ignored, init);
      ReadFilesStep(rootPath, ignored, files);
      assert forall i :: 0 <= i < |init| ==> init[i] == files[i];
      if ReadFiles(rootPath, ignored, init).root.Some? {
        var i :| 0 <= i < |init| && Parsed(init[i], ignored);
        assert Parsed(files[i], ignored);
      }
    }
  }

  /** Every parsed file is registered under its path, and stays so. */
  lemma {:induction false} ParsedRegistered(rootPath: string, ignored: set<string>, files: seq<SourceFile>, k: nat)
    requires k < |files| && Parsed(files[k], ignored)
    ensures FilePath(files[k]) in ReadFiles(rootPath, ignored, files).reg.nodes
    decreases |files|
  {
    ReadFilesStep(rootPath, ignored, files);
    if k < |files| - 1 {
      var init := files[..|files| - 1];
      assert init[k] == files[k];
      ParsedRegistered(rootPath, ignored, init, k);
    }
  }

  /** The root is the node of the first file that parsed. */
  lemma {:induction false} RootIsFirstParsed(rootPath: string, ignored: set<string>, files: seq<SourceFile>, k: nat)
    requires k < |files| && Parsed(files[k], ignored)
    requires forall j :: 0 <= j < k ==> !Parsed(files[j], ignored)
    ensures var st := ReadFiles(rootPath, ignored, files);
            FilePath(files[k]) in st.reg.nodes && st.root == Some(st.reg.nodes[FilePath(files[k])])
    decreases |files|
  {
    if k < |files| - 1 {
      var init := files[..|files| - 1];
      assert init[k] == files[k];
      assert forall j :: 0 <= j < k ==> init[j] == files[j];
      RootIsFirstParsed(rootPath, ignored, init, k);
      ReadFilesStep(rootPath, ignored, files);
    } else {
      RootSetByFirstParsed(rootPath, ignored, files);
    }
  }

  /** The last file is the first to parse: it sets the root. */
  lemma RootSetByFirstParsed(rootPath: string, ignored: set<string>, files: seq<SourceFile>)
    requires files != [] && Parsed(files[|files| - 1], ignored)
    requires forall j :: 0 <= j < |files| - 1 ==> !Parsed(files[j], ignored)
    ensures var st := ReadFiles(rootPath, ignored, files);
            FilePath(files[|files| - 1]) in st.reg.nodes && st.root == Some(st.reg.nodes[FilePath(files[|files| - 1])])
  {
    var init := files[..|files| - 1];
    forall j | 0 <= j < |init|
      ensures !Parsed(init[j], ignored)
    {
      assert init[j] == files[j];
    }
    RootIffSomeParsed(rootPath, ignored, init);
    ReadFilesStep(rootPath, ignored, files);
  }
}
