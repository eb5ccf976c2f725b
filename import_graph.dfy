/**
  The import graph of the current engine. Nodes live in a table and are known by their
  position in it, which plays the part of object identity: two references to the same
  node are the same position. The registry maps a full file path to the position of the
  one node kept for that path.
 */
module ImportGraph {
  import opened Wrappers
  import opened Strings

  type NodeId = nat

  /** A module: its import edges, the lines at which each importing file imports it
      (keyed by the importer's full path), the names each `from … import` line brings in,
      the lines of its class and function definitions, and the detector's scratch fields. */
  datatype Node = Node(
    name: string,
    imports: seq<NodeId>,
    isImportedFrom: map<string, seq<int>>,
    fullPath: string,
    marked: nat,
    parent: Option<NodeId>,
    funcImports: map<int, seq<string>>,
    funcDefs: map<string, int>,
    isInContext: bool)

  /** The detector's fields as a new node has them. */
  predicate Pristine(n: Node)
  {
    n.marked == 0 && n.parent.None? && !n.isInContext
  }

  /** A new node. A missing or empty `imports` argument gives an empty list. */
  function NewNode(name: string, imports: Option<seq<NodeId>>, fullPath: string): (n: Node)
    ensures n.name == name && n.fullPath == fullPath && Pristine(n)
    ensures n.imports == if imports.Some? && imports.value != [] then imports.value else []
    ensures n.isImportedFrom == map[] && n.funcImports == map[] && n.funcDefs == map[]
  {
    Node(name, if imports.None? || imports.value == [] then [] else imports.value,
         map[], fullPath, 0, None, map[], map[], false)
  }

  /** Reading a `defaultdict(list)`: a missing key reads as the empty list. */
  function Lookup<K, V>(m: map<K, seq<V>>, k: K): seq<V>
  {
    if k in m then m[k] else []
  }

  /** Appending to the list under `k` of a `defaultdict(list)`. */
  function AppendAt<K(!new), V>(m: map<K, seq<V>>, k: K, v: V): (r: map<K, seq<V>>)
    ensures r.Keys == m.Keys + {k}
    ensures Lookup(r, k) == Lookup(m, k) + [v]
    ensures forall j :: j != k ==> Lookup(r, j) == Lookup(m, j)
  {
    m[k := Lookup(m, k) + [v]]
  }

  /** `repr` of a node: the decimal count of its imports. */
  function Repr(n: Node): (r: string)
    ensures r != [] && forall k :: 0 <= k < |r| ==> IsDigit(r[k])
    ensures ParseNat(r) == |n.imports|
  {
    ParseNatToString(|n.imports|);
    NatToString(|n.imports|)
  }

  /** The node table and the registry of nodes by full path. */
  datatype Registry = Registry(table: seq<Node>, nodes: map<string, NodeId>)

  /** The registry and the table agree: every registered path leads to the node with that
      path, and every node is registered under its own path. */
  predicate Registered(r: Registry)
  {
    (forall p :: p in r.nodes ==> r.nodes[p] < |r.table| && r.table[r.nodes[p]].fullPath == p) &&
    (forall i :: 0 <= i < |r.table| ==> r.table[i].fullPath in r.nodes && r.nodes[r.table[i].fullPath] == i)
  }

  /** Every import edge leads to a node of the table. */
  predicate EdgesInRange(table: seq<Node>)
  {
    forall i, k :: 0 <= i < |table| && 0 <= k < |table[i].imports| ==> table[i].imports[k] < |table|
  }

  /** For every importer `i` and target `t`, `t` records one line under `i`'s path for each
      edge from `i` to `t`. */
  predicate LinesCounted(table: seq<Node>)
  {
    forall i, t :: 0 <= i < |table| && 0 <= t < |table| ==> CountedAt(table, i, t)
  }

  /** `t` records as many lines under `i`'s path as there are edges from `i` to `t`. */
  predicate CountedAt(table: seq<Node>, i: NodeId, t: NodeId)
    requires i < |table| && t < |table|
  {
    |Lookup(table[t].isImportedFrom, table[i].fullPath)| == multiset(table[i].imports)[t]
  }

  /** Lines are only ever recorded under the path of a registered node. */
  predicate KeysRegistered(r: Registry)
  {
    forall t, key :: 0 <= t < |r.table| && key in r.table[t].isImportedFrom ==> key in r.nodes
  }

  /** What reading a project keeps true of the graph. */
  predicate Valid(r: Registry)
  {
    Registered(r) && EdgesInRange(r.table) && LinesCounted(r.table) && KeysRegistered(r) &&
    forall i :: 0 <= i < |r.table| ==> Pristine(r.table[i])
  }

  /** `b` keeps every registration and the name and path of every node of `a`. */
  predicate Extends(a: Registry, b: Registry)
  {
    |a.table| <= |b.table| &&
    (forall p :: p in a.nodes ==> p in b.nodes && b.nodes[p] == a.nodes[p]) &&
    (forall i :: 0 <= i < |a.table| ==> b.table[i].name == a.table[i].name && b.table[i].fullPath == a.table[i].fullPath)
  }

  /** Node `i` of `b` imports and records what it did in `a`, or nothing when it is new. */
  predicate KeptAt(a: Registry, b: Registry, i: NodeId)
    requires i < |b.table|
  {
    b.table[i].imports == (if i < |a.table| then a.table[i].imports else []) &&
    b.table[i].funcImports == (if i < |a.table| then a.table[i].funcImports else map[]) &&
    b.table[i].funcDefs == (if i < |a.table| then a.table[i].funcDefs else map[])
  }

  /** `b` extends `a` and differs from it only in node `n`'s imports and recorded names,
      besides new nodes, which import nothing and record no names. */
  predicate OthersKept(a: Registry, b: Registry, n: NodeId)
  {
    Extends(a, b) && n < |a.table| &&
    forall i :: 0 <= i < |b.table| && i != n ==> KeptAt(a, b, i)
  }

  lemma OthersKeptTransitive(a: Registry, b: Registry, c: Registry, n: NodeId)
    requires OthersKept(a, b, n) && OthersKept(b, c, n)
    ensures OthersKept(a, c, n)
  {
    forall i | 0 <= i < |c.table| && i != n
      ensures KeptAt(a, c, i)
    {
      assert KeptAt(b, c, i);
      if i < |b.table| {
        assert KeptAt(a, b, i);
      }
    }
  }

  lemma ExtendsTransitive(a: Registry, b: Registry, c: Registry)
    requires Extends(a, b) && Extends(b, c)
    ensures Extends(a, c)
  {
  }

  /** At most one node per full path. */
  lemma OneNodePerPath(r: Registry, i: NodeId, j: NodeId)
    requires Registered(r) && i < |r.table| && j < |r.table| && i != j
    ensures r.table[i].fullPath != r.table[j].fullPath
  {
    assert r.nodes[r.table[i].fullPath] == i && r.nodes[r.table[j].fullPath] == j;
  }

  /** An importer always finds at least one line recorded for each module it imports, and
      the target records exactly one line per edge. */
  lemma EdgeHasLine(table: seq<Node>, i: NodeId, k: nat)
    requires LinesCounted(table) && EdgesInRange(table)
    requires i < |table| && k < |table[i].imports|
    ensures Lookup(table[table[i].imports[k]].isImportedFrom, table[i].fullPath) != []
  {
    var t := table[i].imports[k];
    assert t in multiset(table[i].imports);
    assert CountedAt(table, i, t);
  }

  /** Registering a new node for an unregistered path keeps the graph valid. */
  lemma NewNodeKeepsValid(r: Registry, name: string, path: string)
    requires Valid(r) && path !in r.nodes
    ensures Valid(Registry(r.table + [NewNode(name, None, path)], r.nodes[path := |r.table|]))
  {
    var r1 := Registry(r.table + [NewNode(name, None, path)], r.nodes[path := |r.table|]);
    NewNodeShape(r, name, path);
    forall i, t | 0 <= i < |r1.table| && 0 <= t < |r1.table|
      ensures CountedAt(r1.table, i, t)
    {
      NewNodeCountedAt(r, name, path, i, t);
    }
  }

  lemma NewNodeShape(r: Registry, name: string, path: string)
    requires Valid(r) && path !in r.nodes
    ensures var r1 := Registry(r.table + [NewNode(name, None, path)], r.nodes[path := |r.table|]);
      Registered(r1) && EdgesInRange(r1.table) && KeysRegistered(r1) &&
      forall i :: 0 <= i < |r1.table| ==> Pristine(r1.table[i])
  {
    var r1 := Registry(r.table + [NewNode(name, None, path)], r.nodes[path := |r.table|]);
    assert forall i :: 0 <= i < |r.table| ==> r1.table[i] == r.table[i];
    assert Registered(r1);
  }

  lemma NewNodeCountedAt(r: Registry, name: string, path: string, i: NodeId, t: NodeId)
    requires Valid(r) && path !in r.nodes
    requires i <= |r.table| && t <= |r.table|
    ensures CountedAt(r.table + [NewNode(name, None, path)], i, t)
  {
    var id := |r.table|;
    var r1 := Registry(r.table + [NewNode(name, None, path)], r.nodes[path := id]);
    if i < id && t < id {
      assert r1.table[i] == r.table[i] && r1.table[t] == r.table[t];
      assert CountedAt(r.table, i, t);
    } else if t == id {
      assert r1.table[t].isImportedFrom == map[];
      if i < id {
        assert r1.table[i] == r.table[i];
        assert t !in r.table[i].imports;
      }
    } else {
      assert r1.table[t] == r.table[t];
      assert r.table[t].fullPath in r.nodes;
      assert path !in r.table[t].isImportedFrom;
    }
  }

  /** The two tables have the same nodes, paths, edges and recorded lines. */
  predicate SameEdges(a: seq<Node>, b: seq<Node>)
  {
    |a| == |b| &&
    forall i :: 0 <= i < |a| ==>
      b[i].fullPath == a[i].fullPath && b[i].imports == a[i].imports &&
      b[i].isImportedFrom == a[i].isImportedFrom
  }

  /** Validity depends only on the registry, the edges and the recorded lines. */
  lemma SameEdgesKeepValid(r: Registry, table: seq<Node>)
    requires Valid(r) && SameEdges(r.table, table)
    requires forall i :: 0 <= i < |table| ==> Pristine(table[i])
    ensures Valid(Registry(table, r.nodes))
  {
    var r2 := Registry(table, r.nodes);
    assert Registered(r2);
    assert EdgesInRange(table);
    assert KeysRegistered(r2);
    forall i, t | 0 <= i < |table| && 0 <= t < |table|
      ensures CountedAt(table, i, t)
    {
      assert CountedAt(r.table, i, t);
    }
  }

  /**
    The registry's get-or-create: the node registered under `path`, or else a new node
    named `name` for that path, appended to the table and registered.
   */
  function GetOrCreate(r: Registry, name: string, path: string): (res: (Registry, NodeId))
    requires Valid(r)
    ensures Valid(res.0) && Extends(r, res.0)
    ensures res.1 < |res.0.table| && res.0.table[res.1].fullPath == path
    ensures res.0.nodes == r.nodes[path := res.1]
    ensures path in r.nodes ==> res == (r, r.nodes[path])
    ensures path !in r.nodes ==> res.1 == |r.table| && res.0.table == r.table + [NewNode(name, None, path)]
    ensures forall m: NodeId :: m < |r.table| ==> OthersKept(r, res.0, m)
  {
    if path in r.nodes then
      assert forall i :: 0 <= i < |r.table| ==> KeptAt(r, r, i);
      (r, r.nodes[path])
    else
      NewNodeKeepsValid(r, name, path);
      var r1 := Registry(r.table + [NewNode(name, None, path)], r.nodes[path := |r.table|]);
      assert forall i :: 0 <= i < |r1.table| ==> KeptAt(r, r1, i);
      (r1, |r.table|)
  }

  /** Only the import lists and the recorded lines differ between the two tables. */
  predicate OnlyEdgesChanged(a: seq<Node>, b: seq<Node>)
  {
    |a| == |b| &&
    forall i :: 0 <= i < |a| ==> b[i] == a[i].(imports := b[i].imports, isImportedFrom := b[i].isImportedFrom)
  }

  /** The table after one import edge from `n` to `t` at `line`. */
  function EdgeAdded(table: seq<Node>, n: NodeId, t: NodeId, line: int): (res: seq<Node>)
    requires n < |table| && t < |table|
    ensures OnlyEdgesChanged(table, res)
  {
    var key := table[n].fullPath;
    var t1 := table[t := table[t].(isImportedFrom := AppendAt(table[t].isImportedFrom, key, line))];
    t1[n := t1[n].(imports := t1[n].imports + [t])]
  }

  lemma EdgeAddedEffect(table: seq<Node>, n: NodeId, t: NodeId, line: int)
    requires n < |table| && t < |table|
    ensures var res := EdgeAdded(table, n, t, line);
      res[n].imports == table[n].imports + [t] &&
      (forall i :: 0 <= i < |res| && i != n ==> res[i].imports == table[i].imports) &&
      Lookup(res[t].isImportedFrom, table[n].fullPath) == Lookup(table[t].isImportedFrom, table[n].fullPath) + [line] &&
      (forall i, key :: 0 <= i < |res| && (i != t || key != table[n].fullPath) ==>
         Lookup(res[i].isImportedFrom, key) == Lookup(table[i].isImportedFrom, key)) &&
      (forall i :: 0 <= i < |res| ==> res[i].isImportedFrom.Keys <= table[i].isImportedFrom.Keys + {table[n].fullPath})
  {
  }

  lemma EdgeAddedCounted(r: Registry, n: NodeId, t: NodeId, line: int)
    requires Registered(r) && LinesCounted(r.table) && n < |r.table| && t < |r.table|
    ensures LinesCounted(EdgeAdded(r.table, n, t, line))
  {
    var t2 := EdgeAdded(r.table, n, t, line);
    forall i, u | 0 <= i < |t2| && 0 <= u < |t2|
      ensures CountedAt(t2, i, u)
    {
      EdgeAddedCountedAt(r, n, t, line, i, u);
    }
  }

  lemma EdgeAddedCountedAt(r: Registry, n: NodeId, t: NodeId, line: int, i: NodeId, u: NodeId)
    requires Registered(r) && LinesCounted(r.table) && n < |r.table| && t < |r.table|
    requires i < |r.table| && u < |r.table|
    ensures CountedAt(EdgeAdded(r.table, n, t, line), i, u)
  {
    var t2 := EdgeAdded(r.table, n, t, line);
    EdgeAddedEffect(r.table, n, t, line);
    var p := r.table[i].fullPath;
    assert t2[i].fullPath == p;
    var was := |Lookup(r.table[u].isImportedFrom, p)|;
    assert CountedAt(r.table, i, u);
    assert was == multiset(r.table[i].imports)[u];
    if i == n {
      assert multiset(t2[i].imports) == multiset(r.table[i].imports) + multiset{t};
      if u == t {
        assert |Lookup(t2[u].isImportedFrom, p)| == was + 1;
      } else {
        assert |Lookup(t2[u].isImportedFrom, p)| == was;
      }
    } else {
      OneNodePerPath(r, i, n);
      assert t2[i].imports == r.table[i].imports;
      assert Lookup(t2[u].isImportedFrom, p) == Lookup(r.table[u].isImportedFrom, p);
    }
  }

  lemma EdgeAddedKeepsValid(r: Registry, n: NodeId, t: NodeId, line: int)
    requires Valid(r) && n < |r.table| && t < |r.table|
    ensures Valid(Registry(EdgeAdded(r.table, n, t, line), r.nodes))
  {
    EdgeAddedCounted(r, n, t, line);
    EdgeAddedShape(r, n, t, line);
  }

  lemma EdgeAddedShape(r: Registry, n: NodeId, t: NodeId, line: int)
    requires Registered(r) && EdgesInRange(r.table) && KeysRegistered(r)
    requires forall i :: 0 <= i < |r.table| ==> Pristine(r.table[i])
    requires n < |r.table| && t < |r.table|
    ensures var r2 := Registry(EdgeAdded(r.table, n, t, line), r.nodes);
      Registered(r2) && EdgesInRange(r2.table) && KeysRegistered(r2) &&
      forall i :: 0 <= i < |r2.table| ==> Pristine(r2.table[i])
  {
    var t2 := EdgeAdded(r.table, n, t, line);
    EdgeAddedEffect(r.table, n, t, line);
    assert forall i :: 0 <= i < |t2| ==> t2[i].fullPath == r.table[i].fullPath && Pristine(t2[i]);
    assert Registered(Registry(t2, r.nodes));
    EdgeAddedRanges(r, n, t, line);
  }

  lemma EdgeAddedRanges(r: Registry, n: NodeId, t: NodeId, line: int)
    requires EdgesInRange(r.table) && KeysRegistered(r)
    requires n < |r.table| && t < |r.table| && r.table[n].fullPath in r.nodes
    ensures var r2 := Registry(EdgeAdded(r.table, n, t, line), r.nodes);
      EdgesInRange(r2.table) && KeysRegistered(r2)
  {
    EdgeAddedEffect(r.table, n, t, line);
  }

  /**
    One import edge from `n` to `t` at `line`: the line is appended to `t`'s list for
    `n`'s path, then `t` is appended to `n`'s imports.
   */
  function AddEdge(r: Registry, n: NodeId, t: NodeId, line: int): (res: Registry)
    requires Valid(r) && n < |r.table| && t < |r.table|
    ensures Valid(res) && res.nodes == r.nodes && OnlyEdgesChanged(r.table, res.table)
    ensures res.table[n].imports == r.table[n].imports + [t]
    ensures forall i :: 0 <= i < |r.table| && i != n ==> res.table[i].imports == r.table[i].imports
    ensures Lookup(res.table[t].isImportedFrom, r.table[n].fullPath) ==
            Lookup(r.table[t].isImportedFrom, r.table[n].fullPath) + [line]
    ensures forall i, key :: 0 <= i < |r.table| && (i != t || key != r.table[n].fullPath) ==>
              Lookup(res.table[i].isImportedFrom, key) == Lookup(r.table[i].isImportedFrom, key)
    ensures OthersKept(r, res, n)
  {
    EdgeAddedKeepsValid(r, n, t, line);
    EdgeAddedEffect(r.table, n, t, line);
    var res := Registry(EdgeAdded(r.table, n, t, line), r.nodes);
    assert forall i :: 0 <= i < |res.table| && i != n ==> KeptAt(r, res, i);
    res
  }
}
