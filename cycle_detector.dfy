/**
  The cycle detector of the import graph: an explicit-stack walk from the root that marks
  each node it expands, records for every import it follows which node it came from, and
  suppresses a cycle when the import that closes it comes after the definition it needs
  (the import context heuristic). The walk only writes three fields of a node: its parent,
  its mark count and its in-context flag.
 */
module CycleDetector {
  import opened Wrappers
  import opened ImportGraph
  import opened ProjectReader

  // ---------------------------------------------------------------------------
  // The graph the detector runs on

  /** Node `i`'s parent, when set, is a node of the table that imports `i`. */
  predicate LinkedAt(g: seq<Node>, i: NodeId)
    requires i < |g|
  {
    g[i].parent.Some? ==> g[i].parent.value < |g| && i in g[g[i].parent.value].imports
  }

  predicate ParentsLinked(g: seq<Node>)
  {
    forall i :: 0 <= i < |g| ==> LinkedAt(g, i)
  }

  /** What the detector relies on: edges stay in the table, every edge has its recorded
      line, and parents are importers. */
  predicate Wf(g: seq<Node>)
  {
    EdgesInRange(g) && LinesCounted(g) && ParentsLinked(g)
  }

  /** A freshly read project is a graph the detector can run on. */
  lemma ValidIsWf(r: Registry)
    requires Valid(r)
    ensures Wf(r.table)
  {
    forall i | 0 <= i < |r.table|
      ensures LinkedAt(r.table, i)
    {
      assert Pristine(r.table[i]);
    }
  }

  /** Node `i` differs at most in its parent, its mark count and its in-context flag. */
  predicate FrozenAt(a: seq<Node>, b: seq<Node>, i: NodeId)
    requires i < |a| && i < |b|
  {
    b[i] == a[i].(parent := b[i].parent, marked := b[i].marked, isInContext := b[i].isInContext)
  }

  /** The detector changes nothing but parents, marks and in-context flags. */
  predicate Frozen(a: seq<Node>, b: seq<Node>)
  {
    |a| == |b| && forall i :: 0 <= i < |a| ==> FrozenAt(a, b, i)
  }

  lemma FrozenTransitive(a: seq<Node>, b: seq<Node>, c: seq<Node>)
    requires Frozen(a, b) && Frozen(b, c)
    ensures Frozen(a, c)
  {
    forall i | 0 <= i < |a|
      ensures FrozenAt(a, c, i)
    {
      assert FrozenAt(a, b, i) && FrozenAt(b, c, i);
    }
  }

  /** Edges and recorded lines do not depend on the fields the detector writes. */
  lemma FrozenKeepsEdges(a: seq<Node>, b: seq<Node>)
    requires EdgesInRange(a) && LinesCounted(a) && Frozen(a, b)
    ensures EdgesInRange(b) && LinesCounted(b)
  {
    forall i | 0 <= i < |a|
      ensures b[i].imports == a[i].imports
    {
      assert FrozenAt(a, b, i);
    }
    forall i, t | 0 <= i < |b| && 0 <= t < |b|
      ensures CountedAt(b, i, t)
    {
      assert FrozenAt(a, b, i) && FrozenAt(a, b, t);
      assert CountedAt(a, i, t);
    }
  }

  /** Node `i` is marked no less than before and, unless it already was, at most twice. */
  predicate MarkGrewAt(a: seq<Node>, b: seq<Node>, i: NodeId)
    requires i < |a| && i < |b|
  {
    a[i].marked <= b[i].marked && (b[i].marked <= 2 || b[i].marked == a[i].marked)
  }

  /** Marks never go down, and the detector takes none past two. */
  predicate MarksGrew(a: seq<Node>, b: seq<Node>)
    requires |a| == |b|
  {
    forall i :: 0 <= i < |a| ==> MarkGrewAt(a, b, i)
  }

  /** An in-context flag once set stays set. */
  predicate ContextKeptAt(a: seq<Node>, b: seq<Node>, i: NodeId)
    requires i < |a| && i < |b|
  {
    a[i].isInContext ==> b[i].isInContext
  }

  predicate ContextKept(a: seq<Node>, b: seq<Node>)
    requires |a| == |b|
  {
    forall i :: 0 <= i < |a| ==> ContextKeptAt(a, b, i)
  }

  /** The detector's whole guarantee between two states of the table. */
  predicate Progressed(a: seq<Node>, b: seq<Node>)
  {
    Frozen(a, b) && MarksGrew(a, b) && ContextKept(a, b)
  }

  lemma ProgressedTransitive(a: seq<Node>, b: seq<Node>, c: seq<Node>)
    requires Progressed(a, b) && Progressed(b, c)
    ensures Progressed(a, c)
  {
    FrozenTransitive(a, b, c);
    forall i | 0 <= i < |a|
      ensures MarkGrewAt(a, c, i) && ContextKeptAt(a, c, i)
    {
      assert MarkGrewAt(a, b, i) && MarkGrewAt(b, c, i);
      assert ContextKeptAt(a, b, i) && ContextKeptAt(b, c, i);
    }
  }

  // ---------------------------------------------------------------------------
  // The import context

  /** The positions of the table. */
  function Ids(g: seq<Node>): (s: set<NodeId>)
    ensures forall i: NodeId :: i in s <==> i < |g|
  {
    if g == [] then {} else Ids(g[..|g| - 1]) + {|g| - 1}
  }

  /**
    The climb of the import context from node `n`: while the node has a parent and a
    grandparent, move to the parent, stopping there if it was met before or if its own
    parent bears `name`. `seen` holds the nodes met so far.
   */
  function Ascend(g: seq<Node>, name: string, n: NodeId, seen: set<NodeId>): (r: NodeId)
    requires ParentsLinked(g) && n < |g|
    ensures r < |g|
    ensures g[n].parent.Some? ==> g[r].parent.Some?
    decreases |Ids(g) - seen|
  {
    assert LinkedAt(g, n);
    if g[n].parent.Some? && g[g[n].parent.value].parent.Some? then
      var p := g[n].parent.value;
      assert LinkedAt(g, p);
      if p in seen || g[g[p].parent.value].name == name then p
      else
        assert p in Ids(g) - seen;
        assert Ids(g) - (seen + {p}) == (Ids(g) - seen) - {p};
        Ascend(g, name, p, seen + {p})
    else n
  }

  /**
    The import context of node `n`: the first line at which the parent of the node the
    ascent reaches imports it. The program fails (a missing parent, or an empty list of
    lines) where this gives `None`.
   */
  function ImportContext(g: seq<Node>, n: NodeId): (line: Option<int>)
    requires ParentsLinked(g) && n < |g|
  {
    var r := Ascend(g, g[n].name, n, {});
    if g[r].parent.None? then None
    else
      assert LinkedAt(g, r);
      var lines := Lookup(g[r].isImportedFrom, g[g[r].parent.value].fullPath);
      if lines == [] then None else Some(lines[0])
  }

  /** Starting from a node with a parent, the ascent ends on an edge, and that edge has a
      recorded line: the import context never fails inside the detector. */
  lemma ContextFound(g: seq<Node>, n: NodeId)
    requires Wf(g) && n < |g| && g[n].parent.Some?
    ensures var r := Ascend(g, g[n].name, n, {});
            var q := g[r].parent.value;
            g[r].parent.Some? && q < |g| && r in g[q].imports &&
            Lookup(g[r].isImportedFrom, g[q].fullPath) != [] &&
            ImportContext(g, n) == Some(Lookup(g[r].isImportedFrom, g[q].fullPath)[0])
  {
    var r := Ascend(g, g[n].name, n, {});
    assert LinkedAt(g, r);
    var q := g[r].parent.value;
    assert CountedAt(g, q, r);
    assert r in multiset(g[q].imports);
  }

  /** The ascent stops below a parent that bears the start node's name: when the
      grandparent of `n` has `n`'s name, the context is read at `n`'s parent. */
  lemma ContextStopsAtSameName(g: seq<Node>, n: NodeId)
    requires ParentsLinked(g) && n < |g| && g[n].parent.Some? && g[n].parent.value < |g|
    requires g[g[n].parent.value].parent.Some? && g[g[n].parent.value].parent.value < |g|
    requires g[g[g[n].parent.value].parent.value].name == g[n].name
    ensures Ascend(g, g[n].name, n, {}) == g[n].parent.value
  {
  }

  /** The node `k` parent links above `x`, if the links go that far. */
  function Up(g: seq<Node>, x: NodeId, k: nat): (u: Option<NodeId>)
    requires ParentsLinked(g) && x < |g|
    ensures u.Some? ==> u.value < |g|
    decreases k
  {
    assert LinkedAt(g, x);
    if k == 0 then Some(x)
    else if g[x].parent.None? then None
    else Up(g, g[x].parent.value, k - 1)
  }

  /** The loop guard fails at `r`: it has no parent or no grandparent. */
  predicate NoGrandparent(g: seq<Node>, r: NodeId)
    requires ParentsLinked(g) && r < |g|
  {
    assert LinkedAt(g, r);
    g[r].parent.None? || g[g[r].parent.value].parent.None?
  }

  /** The parent of `r` bears `name`. */
  predicate ParentNamed(g: seq<Node>, r: NodeId, name: string)
    requires ParentsLinked(g) && r < |g|
  {
    assert LinkedAt(g, r);
    g[r].parent.Some? && g[g[r].parent.value].name == name
  }

  /** Climbing the parent links from `r` comes back to `r`. */
  ghost predicate OnCycle(g: seq<Node>, r: NodeId)
    requires ParentsLinked(g) && r < |g|
  {
    exists j: nat :: j >= 1 && Up(g, r, j) == Some(r)
  }

  /**
    Where the ascent stops. It ends at `n` itself only when `n` has no grandparent, and
    otherwise at a node some parent links above `n`. There one of the loop's three stops
    holds: no grandparent left, a parent that bears `name`, or a node met before (one of
    `seen`, or one the climb has come back to).
   */
  lemma {:induction false} AscendStops(g: seq<Node>, name: string, n: NodeId, seen: set<NodeId>)
    requires ParentsLinked(g) && n < |g|
    ensures var r := Ascend(g, name, n, seen);
            ((r == n && NoGrandparent(g, r)) || exists j: nat :: j >= 1 && Up(g, n, j) == Some(r)) &&
            (NoGrandparent(g, r) || ParentNamed(g, r, name) || r in seen || OnCycle(g, r))
    decreases |Ids(g) - seen|
  {
    assert LinkedAt(g, n);
    if g[n].parent.Some? && g[g[n].parent.value].parent.Some? {
      var p := g[n].parent.value;
      assert LinkedAt(g, p);
      assert Up(g, p, 0) == Some(p);
      assert Up(g, n, 1) == Some(p);
      if p !in seen && g[g[p].parent.value].name != name {
        assert p in Ids(g) - seen;
        assert Ids(g) - (seen + {p}) == (Ids(g) - seen) - {p};
        AscendStops(g, name, p, seen + {p});
        var r := Ascend(g, name, p, seen + {p});
        assert Ascend(g, name, n, seen) == r;
        if !(r == p && NoGrandparent(g, r)) {
          var j: nat :| j >= 1 && Up(g, p, j) == Some(r);
          assert Up(g, n, j + 1) == Some(r);
          if r == p {
            assert OnCycle(g, r);
          }
        }
      }
    }
  }

  /**
    The loop's `break` fires at node `i >= 1` of the climb from `n`: that node was met
    before (it is in `seen`, or the climb passed it already) or its parent bears `name`.
   */
  ghost predicate StopsAt(g: seq<Node>, name: string, n: NodeId, seen: set<NodeId>, i: nat)
    requires ParentsLinked(g) && n < |g|
  {
    var x := Up(g, n, i);
    x.Some? && (x.value in seen || ParentNamed(g, x.value, name) ||
                exists j :: 1 <= j < i && Up(g, n, j) == x)
  }

  /** The climb from `n` goes on past node `i`: the node has a grandparent, and above `n`
      itself the loop did not stop there. */
  ghost predicate Climbs(g: seq<Node>, name: string, n: NodeId, seen: set<NodeId>, i: nat)
    requires ParentsLinked(g) && n < |g|
  {
    Up(g, n, i).Some? && !NoGrandparent(g, Up(g, n, i).value) &&
    (i == 0 || !StopsAt(g, name, n, seen, i))
  }

  /** One step up: the climb from `n` seen from its parent `p`, which is then met. */
  lemma StopsShift(g: seq<Node>, name: string, n: NodeId, seen: set<NodeId>, i: nat)
    requires ParentsLinked(g) && n < |g| && g[n].parent.Some? && i >= 1
    ensures g[n].parent.value < |g|
    ensures StopsAt(g, name, g[n].parent.value, seen + {g[n].parent.value}, i) <==>
            StopsAt(g, name, n, seen, i + 1)
  {
    assert LinkedAt(g, n);
    var p := g[n].parent.value;
    assert Up(g, n, 1) == Some(p) by { assert Up(g, p, 0) == Some(p); }
    forall j | 0 <= j
      ensures Up(g, n, j + 1) == Up(g, p, j)
    {
    }
    var x := Up(g, p, i);
    if StopsAt(g, name, p, seen + {p}, i) {
      if x.value == p {
        assert Up(g, n, 1) == x;
      } else if exists j :: 1 <= j < i && Up(g, p, j) == x {
        var j :| 1 <= j < i && Up(g, p, j) == x;
        assert Up(g, n, j + 1) == x;
      }
    }
    if StopsAt(g, name, n, seen, i + 1) {
      if exists j :: 1 <= j < i + 1 && Up(g, n, j) == x {
        var j :| 1 <= j < i + 1 && Up(g, n, j) == x;
        if j >= 2 {
          assert Up(g, p, j - 1) == x;
        }
      }
    }
  }

  /**
    The ascent ends at the first node where the loop leaves: if the climb from `n` goes on
    past nodes `0 .. k - 1`, and node `k` has no grandparent or (above `n`) is a stop, the
    ascent ends at node `k` and nowhere earlier or later.
   */
  lemma {:induction false} AscendFirstStop(g: seq<Node>, name: string, n: NodeId, seen: set<NodeId>, k: nat)
    requires ParentsLinked(g) && n < |g| && Up(g, n, k).Some?
    requires forall i :: 0 <= i < k ==> Climbs(g, name, n, seen, i)
    requires NoGrandparent(g, Up(g, n, k).value) || (k >= 1 && StopsAt(g, name, n, seen, k))
    ensures Ascend(g, name, n, seen) == Up(g, n, k).value
    decreases k
  {
    assert LinkedAt(g, n);
    if k >= 1 {
      assert Climbs(g, name, n, seen, 0);
      var p := g[n].parent.value;
      assert LinkedAt(g, p);
      assert Up(g, n, 1) == Some(p) by { assert Up(g, p, 0) == Some(p); }
      forall j | 0 <= j
        ensures Up(g, n, j + 1) == Up(g, p, j)
      {
      }
      if k == 1 {
        if !(p in seen || ParentNamed(g, p, name)) {
          assert !StopsAt(g, name, n, seen, 1);
          assert Ascend(g, name, n, seen) == Ascend(g, name, p, seen + {p});
        }
      } else {
        assert Climbs(g, name, n, seen, 1);
        assert Ascend(g, name, n, seen) == Ascend(g, name, p, seen + {p});
        forall i | 0 <= i < k - 1
          ensures Climbs(g, name, p, seen + {p}, i)
        {
          assert Climbs(g, name, n, seen, i + 1);
          if i >= 1 {
            StopsShift(g, name, n, seen, i);
          }
        }
        if !NoGrandparent(g, Up(g, p, k - 1).value) {
          StopsShift(g, name, n, seen, k - 1);
        }
        AscendFirstStop(g, name, p, seen + {p}, k - 1);
      }
    }
  }

  /**
    On a loop of parent links `a -> c -> b -> a`, the shape the walk leaves on a cycle of
    three modules, the ascent from `a` passes `c` and stops at `b`, whose parent bears
    `a`'s name; it goes no further round the loop.
   */
  lemma ParentLoopStops(g: seq<Node>, a: NodeId, b: NodeId, c: NodeId)
    requires ParentsLinked(g) && a < |g| && b < |g| && c < |g| && a != b && b != c && a != c
    requires g[a].parent == Some(c) && g[c].parent == Some(b) && g[b].parent == Some(a)
    requires g[b].name != g[a].name
    ensures Ascend(g, g[a].name, a, {}) == b
  {
    assert Up(g, a, 1) == Some(c) by { assert Up(g, c, 0) == Some(c); }
    assert Up(g, a, 2) == Some(b) by { assert Up(g, b, 0) == Some(b); assert Up(g, c, 1) == Some(b); }
    assert Climbs(g, g[a].name, a, {}, 0);
    assert Climbs(g, g[a].name, a, {}, 1);
    assert StopsAt(g, g[a].name, a, {}, 2);
    AscendFirstStop(g, g[a].name, a, {}, 2);
  }

  /** The import context as the program computes it: a loop that climbs parents. */
  method GetImportContext(g: seq<Node>, n: NodeId) returns (line: Option<int>)
    requires ParentsLinked(g) && n < |g|
    ensures line == ImportContext(g, n)
  {
    var name := g[n].name;
    var seen: set<NodeId> := {};
    var node: NodeId := n;
    while g[node].parent.Some? && g[g[node].parent.value].parent.Some?
      invariant node < |g| && LinkedAt(g, node)
      invariant Ascend(g, name, node, seen) == Ascend(g, name, n, {})
      decreases |Ids(g) - seen|
    {
      node := g[node].parent.value;
      assert LinkedAt(g, node);
      if node in seen || g[g[node].parent.value].name == name {
        break;
      }
      assert node in Ids(g) - seen;
      assert Ids(g) - (seen + {node}) == (Ids(g) - seen) - {node};
      seen := seen + {node};
    }
    if g[node].parent.None? {
      return None;
    }
    var lines := Lookup(g[node].isImportedFrom, g[g[node].parent.value].fullPath);
    if lines == [] {
      return None;
    }
    line := Some(lines[0]);
  }

  /** `name` is defined in `item` on a line before `ctx`. */
  predicate DefinedBefore(item: Node, name: string, ctx: int)
  {
    name in item.funcDefs && ctx > item.funcDefs[name]
  }

  /** One of the names `prev` imports with a `from` import is defined in `item` before the
      import that started the possible cycle. */
  predicate InContext(prev: Node, item: Node, ctx: int)
  {
    exists ln, k :: ln in prev.funcImports && 0 <= k < |prev.funcImports[ln]| &&
      DefinedBefore(item, prev.funcImports[ln][k], ctx)
  }

  /** The program's two nested loops over the lines and names `prev` imports. */
  method ContextMatches(prev: Node, item: Node, ctx: int) returns (found: bool)
    ensures found == InContext(prev, item, ctx)
  {
    found := false;
    var keys := prev.funcImports.Keys;
    while keys != {}
      invariant keys <= prev.funcImports.Keys
      invariant found <==> (exists ln, k :: ln in prev.funcImports && ln !in keys &&
                              0 <= k < |prev.funcImports[ln]| && DefinedBefore(item, prev.funcImports[ln][k], ctx))
      decreases |keys|
    {
      if forall x :: x !in keys {
        // the loop guard says otherwise
        assert false;
      }
      var line :| line in keys;
      var names := prev.funcImports[line];
      ghost var before := found;
      for j := 0 to |names|
        invariant found <==> before || exists k :: 0 <= k < j && DefinedBefore(item, names[k], ctx)
      {
        if names[j] in item.funcDefs && ctx > item.funcDefs[names[j]] {
          found := true;
        }
      }
      keys := keys - {line};
      if found && !before {
        var k :| 0 <= k < |names| && DefinedBefore(item, names[k], ctx);
        assert line in prev.funcImports && line !in keys && DefinedBefore(item, prev.funcImports[line][k], ctx);
      }
    }
  }

  // ---------------------------------------------------------------------------
  // The walk

  /** The table once `item` records `cur` as its parent. */
  function WithParent(g: seq<Node>, cur: NodeId, item: NodeId): (res: seq<Node>)
    ensures |res| == |g|
  {
    if item < |g| then g[item := g[item].(parent := Some(cur))] else g
  }

  /** The import-context heuristic fires for `item`: it was marked already, an item came
      before it, and one of the names that item imports with a `from` import is defined
      in `item` before the line of the import that started the possible cycle. */
  predicate Suppressed(g: seq<Node>, item: NodeId, prev: Option<NodeId>)
  {
    ParentsLinked(g) && item < |g| && g[item].marked > 0 && prev.Some? && prev.value < |g| &&
    var ctx := ImportContext(g, item);
    ctx.Some? && InContext(g[prev.value], g[item], ctx.value)
  }

  /** One item of the current node's imports: it records the current node as its parent;
      if it was marked already and an item came before it, the import context decides
      whether the item is in context. */
  function VisitItem(g: seq<Node>, cur: NodeId, item: NodeId, prev: Option<NodeId>): (res: seq<Node>)
    requires Wf(g) && cur < |g| && item in g[cur].imports && (prev.Some? ==> prev.value < |g|)
    ensures Wf(res) && Progressed(g, res)
    ensures SameMarks(g, res)
    ensures forall i :: 0 <= i < |g| && i != item ==> res[i] == g[i]
    ensures item < |res| && res[item] == g[item].(parent := Some(cur), isInContext := res[item].isInContext)
  {
    assert item < |g| by { EdgeTargetInRange(g, cur, item); }
    var g1 := WithParent(g, cur, item);
    FrozenStep(g, g1, item);
    if g1[item].marked > 0 && prev.Some? then
      ContextFound(g1, item);
      var ctx := ImportContext(g1, item).value;
      if InContext(g1[prev.value], g1[item], ctx) then
        var g2 := g1[item := g1[item].(isInContext := true)];
        FrozenStep(g1, g2, item);
        ProgressedTransitive(g, g1, g2);
        g2
      else g1
    else g1
  }

  /** The item's in-context flag after the visit: set exactly when it was set before or
      the heuristic fires once the item records its new parent. */
  lemma VisitItemContext(g: seq<Node>, cur: NodeId, item: NodeId, prev: Option<NodeId>)
    requires Wf(g) && cur < |g| && item in g[cur].imports && (prev.Some? ==> prev.value < |g|)
    ensures item < |g|
    ensures VisitItem(g, cur, item, prev)[item].isInContext ==
              (g[item].isInContext || Suppressed(WithParent(g, cur, item), item, prev))
  {
    EdgeTargetInRange(g, cur, item);
    var g1 := WithParent(g, cur, item);
    FrozenStep(g, g1, item);
    if g1[item].marked > 0 && prev.Some? {
      ContextFound(g1, item);
    }
  }

  lemma EdgeTargetInRange(g: seq<Node>, cur: NodeId, item: NodeId)
    requires EdgesInRange(g) && cur < |g| && item in g[cur].imports
    ensures item < |g|
  {
    var k :| 0 <= k < |g[cur].imports| && g[cur].imports[k] == item;
  }

  /** Writing the parent (to an importer) or the in-context flag (to true) of one node. */
  lemma FrozenStep(a: seq<Node>, b: seq<Node>, item: NodeId)
    requires Wf(a) && item < |a| && |b| == |a| && FrozenAt(a, b, item)
    requires forall i :: 0 <= i < |a| && i != item ==> b[i] == a[i]
    requires MarkGrewAt(a, b, item)
    requires a[item].isInContext ==> b[item].isInContext
    requires LinkedAt(b, item)
    ensures Wf(b) && Progressed(a, b)
  {
    assert Frozen(a, b);
    FrozenKeepsEdges(a, b);
    forall i | 0 <= i < |b|
      ensures LinkedAt(b, i)
    {
      if i != item {
        assert LinkedAt(a, i);
        if b[i].parent.Some? {
          assert FrozenAt(a, b, b[i].parent.value);
        }
      }
    }
    assert forall i :: 0 <= i < |a| ==> MarkGrewAt(a, b, i) && ContextKeptAt(a, b, i);
  }

  /** The first `k` items of `cur`'s imports, in order; the last of them becomes `prev`. */
  function Visit(g: seq<Node>, cur: NodeId, k: nat, prev: Option<NodeId>): (res: (seq<Node>, Option<NodeId>))
    requires Wf(g) && cur < |g| && k <= |g[cur].imports| && (prev.Some? ==> prev.value < |g|)
    ensures Wf(res.0) && Progressed(g, res.0)
    ensures SameMarks(g, res.0)
    ensures res.1 == if k == 0 then prev else Some(g[cur].imports[k - 1])
    ensures res.1.Some? ==> res.1.value < |g|
    decreases k
  {
    if k == 0 then
      assert Frozen(g, g) by { assert forall i :: 0 <= i < |g| ==> FrozenAt(g, g, i); }
      assert MarksGrew(g, g) by { assert forall i :: 0 <= i < |g| ==> MarkGrewAt(g, g, i); }
      assert ContextKept(g, g) by { assert forall i :: 0 <= i < |g| ==> ContextKeptAt(g, g, i); }
      (g, prev)
    else
      var (g1, p1) := Visit(g, cur, k - 1, prev);
      assert FrozenAt(g, g1, cur);
      var item := g[cur].imports[k - 1];
      EdgeTargetInRange(g, cur, item);
      var g2 := VisitItem(g1, cur, item, p1);
      ProgressedTransitive(g, g1, g2);
      SameMarksTransitive(g, g1, g2);
      (g2, Some(item))
  }

  /** One more item of the visit, in the terms the in-place loop needs. */
  lemma VisitStep(g: seq<Node>, cur: NodeId, k: nat, prev: Option<NodeId>)
    requires Wf(g) && cur < |g| && k < |g[cur].imports| && (prev.Some? ==> prev.value < |g|)
    ensures var (g1, p1) := Visit(g, cur, k, prev);
            Wf(g1) && cur < |g1| && g1[cur].imports == g[cur].imports &&
            (p1.Some? ==> p1.value < |g1|) && g[cur].imports[k] in g1[cur].imports &&
            Visit(g, cur, k + 1, prev) == (VisitItem(g1, cur, g[cur].imports[k], p1), Some(g[cur].imports[k]))
  {
    var (g1, p1) := Visit(g, cur, k, prev);
    assert FrozenAt(g, g1, cur);
  }

  /** What is left for the walk to expand: two expansions for an unmarked node, one for a
      node marked once. */
  function Slack(m: nat): nat
  {
    if m >= 2 then 0 else 2 - m
  }

  function Budget(g: seq<Node>): (b: nat)
    ensures b <= 2 * |g|
  {
    if g == [] then 0 else Budget(g[..|g| - 1]) + Slack(g[|g| - 1].marked)
  }

  /** Changing one node's mark changes the budget by the difference of its slack. */
  lemma {:induction false} BudgetUpdate(g: seq<Node>, i: NodeId, m: nat)
    requires i < |g|
    ensures Budget(g[i := g[i].(marked := m)]) + Slack(g[i].marked) == Budget(g) + Slack(m)
    decreases |g|
  {
    var h := g[i := g[i].(marked := m)];
    assert h[..|h| - 1] == if i == |g| - 1 then g[..|g| - 1] else g[..|g| - 1][i := g[i].(marked := m)];
    if i < |g| - 1 {
      BudgetUpdate(g[..|g| - 1], i, m);
    }
  }

  /** `b` has the nodes of `a` with the same marks. */
  predicate SameMarks(a: seq<Node>, b: seq<Node>)
  {
    |a| == |b| && forall i :: 0 <= i < |a| ==> SameMarkAt(a, b, i)
  }

  predicate SameMarkAt(a: seq<Node>, b: seq<Node>, i: NodeId)
    requires i < |a| && i < |b|
  {
    a[i].marked == b[i].marked
  }

  lemma SameMarksTransitive(a: seq<Node>, b: seq<Node>, c: seq<Node>)
    requires SameMarks(a, b) && SameMarks(b, c)
    ensures SameMarks(a, c)
  {
    forall i | 0 <= i < |a|
      ensures SameMarkAt(a, c, i)
    {
      assert SameMarkAt(a, b, i) && SameMarkAt(b, c, i);
    }
  }

  /** Tables with the same marks have the same budget. */
  lemma {:induction false} BudgetSameMarks(a: seq<Node>, b: seq<Node>)
    requires SameMarks(a, b)
    ensures Budget(a) == Budget(b)
    decreases |a|
  {
    if a != [] {
      var m := |a| - 1;
      assert SameMarks(a[..m], b[..m]) by {
        forall i | 0 <= i < m
          ensures SameMarkAt(a[..m], b[..m], i)
        {
          assert SameMarkAt(a, b, i);
        }
      }
      BudgetSameMarks(a[..m], b[..m]);
      assert SameMarkAt(a, b, m);
    }
  }

  /** Every id of `ids` is a node of the table. */
  predicate InTable(g: seq<Node>, ids: seq<NodeId>)
  {
    forall k :: 0 <= k < |ids| ==> ids[k] < |g|
  }

  /** Marking `cur` once more. */
  function MarkOnce(g: seq<Node>, cur: NodeId): (res: seq<Node>)
    requires Wf(g) && cur < |g| && g[cur].marked <= 1
    ensures Wf(res) && Progressed(g, res) && Budget(res) < Budget(g)
    ensures res[cur].marked == g[cur].marked + 1
  {
    var res := g[cur := g[cur].(marked := g[cur].marked + 1)];
    BudgetUpdate(g, cur, g[cur].marked + 1);
    assert LinkedAt(res, cur) by { assert LinkedAt(g, cur); }
    FrozenStep(g, res, cur);
    res
  }

  /** Expanding `cur`: visit all its imports, then mark it once more. The budget drops,
      which is why the walk ends. */
  function Expand(g: seq<Node>, cur: NodeId, prev: Option<NodeId>): (res: (seq<Node>, Option<NodeId>))
    requires Wf(g) && cur < |g| && g[cur].marked <= 1 && (prev.Some? ==> prev.value < |g|)
    ensures Wf(res.0) && Progressed(g, res.0) && Budget(res.0) < Budget(g)
    ensures res.0[cur].marked == g[cur].marked + 1
    ensures res.1 == if g[cur].imports == [] then prev else Some(g[cur].imports[|g[cur].imports| - 1])
    ensures res.1.Some? ==> res.1.value < |g|
  {
    var v := Visit(g, cur, |g[cur].imports|, prev);
    BudgetSameMarks(g, v.0);
    assert SameMarkAt(g, v.0, cur);
    var g2 := MarkOnce(v.0, cur);
    ProgressedTransitive(g, v.0, g2);
    (g2, v.1)
  }

  /** Expanding a node, as the program runs it: visit all its imports, then mark it once
      more. */
  lemma ExpandIs(g: seq<Node>, cur: NodeId, prev: Option<NodeId>)
    requires Wf(g) && cur < |g| && g[cur].marked <= 1 && (prev.Some? ==> prev.value < |g|)
    ensures var v := Visit(g, cur, |g[cur].imports|, prev);
            cur < |v.0| && v.0[cur].marked <= 1 && Expand(g, cur, prev) == (MarkOnce(v.0, cur), v.1)
  {
    var v := Visit(g, cur, |g[cur].imports|, prev);
    assert SameMarkAt(g, v.0, cur);
  }

  /** Marking a node once more changes its mark and nothing else. */
  lemma MarkOnceIs(g: seq<Node>, cur: NodeId)
    requires Wf(g) && cur < |g| && g[cur].marked <= 1
    ensures MarkOnce(g, cur) == g[cur := g[cur].(marked := g[cur].marked + 1)]
  {
  }

  /** The stack after expanding `cur`: the rest of it, then `cur`'s imports in order. */
  lemma PushedInTable(g: seq<Node>, stack: seq<NodeId>, cur: NodeId)
    requires EdgesInRange(g) && cur < |g| && stack != [] && InTable(g, stack)
    ensures InTable(g, stack[..|stack| - 1] + g[cur].imports)
  {
    var rest := stack[..|stack| - 1] + g[cur].imports;
    forall k | 0 <= k < |rest|
      ensures rest[k] < |g|
    {
      if k >= |stack| - 1 {
        assert rest[k] == g[cur].imports[k - (|stack| - 1)];
      }
    }
  }

  /**
    The detector's loop from the stack `stack` (its top at the end), with `prev` the item
    last pushed: pop a node; if it is marked more than once, the answer is whether it is
    out of context; otherwise expand it, pushing its imports. An empty stack answers no
    cycle. The result is the answer and the final table.
   */
  function Run(g: seq<Node>, stack: seq<NodeId>, prev: Option<NodeId>): (res: (bool, seq<Node>))
    requires Wf(g) && InTable(g, stack) && (prev.Some? ==> prev.value < |g|)
    ensures Wf(res.1) && Progressed(g, res.1)
    ensures res.0 ==> exists i :: 0 <= i < |res.1| && res.1[i].marked > 1 && !res.1[i].isInContext
    decreases Budget(g)
  {
    if stack == [] then
      Unchanged(g);
      (false, g)
    else
      var cur := stack[|stack| - 1];
      if g[cur].marked > 1 then
        Unchanged(g);
        (!g[cur].isInContext, g)
      else
        var (g2, p1) := Expand(g, cur, prev);
        PushedInTable(g, stack, cur);
        assert Frozen(g, g2) && FrozenAt(g, g2, cur);
        var res := Run(g2, stack[..|stack| - 1] + g2[cur].imports, p1);
        ProgressedTransitive(g, g2, res.1);
        res
  }

  /** One step of the walk: an unfinished node on top of the stack is expanded and its
      imports take its place. */
  lemma RunStep(g: seq<Node>, stack: seq<NodeId>, prev: Option<NodeId>)
    requires Wf(g) && InTable(g, stack) && (prev.Some? ==> prev.value < |g|)
    requires stack != [] && g[stack[|stack| - 1]].marked <= 1
    ensures var cur := stack[|stack| - 1];
            var rest := stack[..|stack| - 1] + g[cur].imports;
            var (g2, p1) := Expand(g, cur, prev);
            InTable(g2, rest) && Run(g, stack, prev) == Run(g2, rest, p1)
  {
    var cur := stack[|stack| - 1];
    var (g2, p1) := Expand(g, cur, prev);
    PushedInTable(g, stack, cur);
    assert FrozenAt(g, g2, cur);
  }

  /** How many nodes the walk expands before it answers: at most twice the number of
      nodes, since each expansion uses up one unit of the budget. */
  function Expansions(g: seq<Node>, stack: seq<NodeId>, prev: Option<NodeId>): (e: nat)
    requires Wf(g) && InTable(g, stack) && (prev.Some? ==> prev.value < |g|)
    ensures e <= Budget(g) <= 2 * |g|
    decreases Budget(g)
  {
    if stack == [] then 0
    else
      var cur := stack[|stack| - 1];
      if g[cur].marked > 1 then 0
      else
        var (g2, p1) := Expand(g, cur, prev);
        PushedInTable(g, stack, cur);
        assert FrozenAt(g, g2, cur);
        1 + Expansions(g2, stack[..|stack| - 1] + g2[cur].imports, p1)
  }

  /** Two modules that import each other with plain `import` statements: `a` (node 0,
      path `pa`) imports `b` at line `la`, and `b` (node 1, path `pb`) imports `a` at
      line `lb`. */
  function MutualPair(na: string, nb: string, pa: string, pb: string, la: int, lb: int): (g: seq<Node>)
    requires pa != pb
    ensures Wf(g)
  {
    var g := [Node(na, [1], map[pb := [lb]], pa, 0, None, map[], map[], false),
              Node(nb, [0], map[pa := [la]], pb, 0, None, map[], map[], false)];
    assert forall i, t :: 0 <= i < 2 && 0 <= t < 2 ==> CountedAt(g, i, t);
    g
  }

  /** Nodes that import no names with `from` never have their cycles suppressed. */
  lemma NoNamesNoContext(g: seq<Node>, cur: NodeId, item: NodeId, prev: Option<NodeId>)
    requires Wf(g) && cur < |g| && item in g[cur].imports && (prev.Some? ==> prev.value < |g|)
    requires prev.Some? ==> g[prev.value].funcImports == map[]
    ensures item < |g| && VisitItem(g, cur, item, prev) == WithParent(g, cur, item)
  {
    VisitItemContext(g, cur, item, prev);
  }

  /** Expanding a node with a single import, when the previous item imports no names:
      the target records its parent and the node is marked once more. */
  lemma ExpandSingle(g: seq<Node>, cur: NodeId, prev: Option<NodeId>)
    requires Wf(g) && cur < |g| && g[cur].marked <= 1 && (prev.Some? ==> prev.value < |g|)
    requires |g[cur].imports| == 1 && (prev.Some? ==> g[prev.value].funcImports == map[])
    ensures var t := g[cur].imports[0];
            var g1 := WithParent(g, cur, t);
            t < |g| && Expand(g, cur, prev) == (g1[cur := g1[cur].(marked := g1[cur].marked + 1)], Some(t))
  {
    var t := g[cur].imports[0];
    NoNamesNoContext(g, cur, t, prev);
    assert Visit(g, cur, 0, prev) == (g, prev);
    assert Visit(g, cur, 1, prev) == (WithParent(g, cur, t), Some(t));
  }

  /** A mutual import is reported: from `a`, each module is expanded twice and the walk
      then pops `a` marked twice and not in context. */
  lemma MutualImportIsCycle(na: string, nb: string, pa: string, pb: string, la: int, lb: int)
    requires pa != pb
    ensures Run(MutualPair(na, nb, pa, pb, la, lb), [0], None).0
  {
    var g0 := MutualPair(na, nb, pa, pb, la, lb);
    var a0, b0 := g0[0], g0[1];
    ExpandSingle(g0, 0, None);
    RunOne(g0, 0, None);
    var g1 := Expand(g0, 0, None).0;
    assert g1 == [a0.(marked := 1), b0.(parent := Some(0))];
    ExpandSingle(g1, 1, Some(1));
    RunOne(g1, 1, Some(1));
    var g2 := Expand(g1, 1, Some(1)).0;
    assert g2 == [a0.(marked := 1, parent := Some(1)), b0.(marked := 1, parent := Some(0))];
    ExpandSingle(g2, 0, Some(0));
    RunOne(g2, 0, Some(0));
    var g3 := Expand(g2, 0, Some(0)).0;
    assert g3 == [a0.(marked := 2, parent := Some(1)), b0.(marked := 1, parent := Some(0))];
    ExpandSingle(g3, 1, Some(1));
    RunOne(g3, 1, Some(1));
    var g4 := Expand(g3, 1, Some(1)).0;
    assert g4[0] == a0.(marked := 2, parent := Some(1));
  }

  /** Expanding a node with a single import visits that import and marks the node once
      more. */
  lemma ExpandOne(g: seq<Node>, cur: NodeId, prev: Option<NodeId>)
    requires Wf(g) && cur < |g| && g[cur].marked <= 1 && (prev.Some? ==> prev.value < |g|)
    requires |g[cur].imports| == 1
    ensures var t := g[cur].imports[0];
            var v := VisitItem(g, cur, t, prev);
            t < |g| && cur < |v| && Expand(g, cur, prev) == (v[cur := v[cur].(marked := v[cur].marked + 1)], Some(t))
  {
    var t := g[cur].imports[0];
    EdgeTargetInRange(g, cur, t);
    assert Visit(g, cur, 0, prev) == (g, prev);
    assert Visit(g, cur, 1, prev) == (VisitItem(g, cur, t, prev), Some(t));
  }

  /** The walk from a one-node stack whose node has a single import moves on to that
      import, whatever the previous item imports. */
  lemma RunOne(g: seq<Node>, cur: NodeId, prev: Option<NodeId>)
    requires Wf(g) && cur < |g| && g[cur].marked <= 1 && (prev.Some? ==> prev.value < |g|)
    requires |g[cur].imports| == 1
    ensures var t := g[cur].imports[0];
            var g1 := Expand(g, cur, prev).0;
            t < |g1| && Wf(g1) && Run(g, [cur], prev) == Run(g1, [t], Some(t))
  {
    RunStep(g, [cur], prev);
    assert [cur][..|[cur]| - 1] + g[cur].imports == [g[cur].imports[0]];
  }

  /** Two modules that import each other, where `a` defines `f` at line `lf` and imports `b`
      at line `la`, and `b` imports `f` from `a` at line `lb`. */
  function GuardedPair(na: string, nb: string, pa: string, pb: string, f: string, la: int, lb: int, lf: int): (g: seq<Node>)
    requires pa != pb
    ensures Wf(g)
  {
    var g := [Node(na, [1], map[pb := [lb]], pa, 0, None, map[], map[f := lf], false),
              Node(nb, [0], map[pa := [la]], pb, 0, None, map[lb := [f]], map[], false)];
    assert forall i, t :: 0 <= i < 2 && 0 <= t < 2 ==> CountedAt(g, i, t);
    g
  }

  /** `b` visits `a` a second time: the ascent from `a` stops at `b`, whose parent bears
      `a`'s name, so the import context is line `la`; `b` imports `f`, which `a` defines
      before that line, so `a` is in context. */
  lemma GuardedVisit(na: string, nb: string, pa: string, pb: string, f: string, la: int, lb: int, lf: int)
    requires pa != pb && lf < la
    ensures var g0 := GuardedPair(na, nb, pa, pb, f, la, lb, lf);
            var g1 := [g0[0].(marked := 1), g0[1].(parent := Some(0))];
            Wf(g1) && 0 in g1[1].imports &&
            VisitItem(g1, 1, 0, Some(1)) ==
              [g0[0].(marked := 1, parent := Some(1), isInContext := true), g0[1].(parent := Some(0))]
  {
    var g0 := GuardedPair(na, nb, pa, pb, f, la, lb, lf);
    var g1 := [g0[0].(marked := 1), g0[1].(parent := Some(0))];
    assert Wf(g1) by {
      assert LinkedAt(g1, 0) && LinkedAt(g1, 1);
      assert forall i, t :: 0 <= i < 2 && 0 <= t < 2 ==> CountedAt(g1, i, t);
    }
    var w := WithParent(g1, 1, 0);
    assert w == [g0[0].(marked := 1, parent := Some(1)), g0[1].(parent := Some(0))];
    assert ParentsLinked(w) by { assert LinkedAt(w, 0) && LinkedAt(w, 1); }
    assert Ascend(w, na, 0, {}) == 1;
    assert ImportContext(w, 0) == Some(la);
    assert InContext(w[1], w[0], la) by {
      assert lb in w[1].funcImports && 0 < |w[1].funcImports[lb]| && w[1].funcImports[lb][0] == f;
      assert DefinedBefore(w[0], w[1].funcImports[lb][0], la);
    }
    assert Suppressed(w, 0, Some(1));
    VisitItemContext(g1, 1, 0, Some(1));
  }

  /** The import context at work: `a` and `b` import each other, but `b` only needs `f`,
      which `a` defines before importing `b`, so no cycle is reported. */
  lemma GuardedMutualNotCycle(na: string, nb: string, pa: string, pb: string, f: string, la: int, lb: int, lf: int)
    requires pa != pb && lf < la
    ensures !Run(GuardedPair(na, nb, pa, pb, f, la, lb, lf), [0], None).0
  {
    var g0 := GuardedPair(na, nb, pa, pb, f, la, lb, lf);
    var a0, b0 := g0[0], g0[1];
    // `a` is expanded: `b` was never marked, so only its parent is set
    ExpandOne(g0, 0, None);
    RunOne(g0, 0, None);
    VisitItemContext(g0, 0, 1, None);
    var g1 := Expand(g0, 0, None).0;
    assert g1 == [a0.(marked := 1), b0.(parent := Some(0))];
    // `b` is expanded: `a` is marked and put in context
    GuardedVisit(na, nb, pa, pb, f, la, lb, lf);
    ExpandOne(g1, 1, Some(1));
    RunOne(g1, 1, Some(1));
    var g2 := Expand(g1, 1, Some(1)).0;
    assert g2 == [a0.(marked := 1, parent := Some(1), isInContext := true), b0.(marked := 1, parent := Some(0))];
    // `a` is expanded again: it imports no names, so `b` stays out of context
    ExpandOne(g2, 0, Some(0));
    RunOne(g2, 0, Some(0));
    NoNamesNoContext(g2, 0, 1, Some(0));
    var g3 := Expand(g2, 0, Some(0)).0;
    assert g3 == [a0.(marked := 2, parent := Some(1), isInContext := true), b0.(marked := 1, parent := Some(0))];
    // `b` is expanded again; `a` keeps its mark and its context, and is popped marked twice
    ExpandOne(g3, 1, Some(1));
    RunOne(g3, 1, Some(1));
    var g4 := Expand(g3, 1, Some(1)).0;
    assert g4[0].marked == 2 && g4[0].isInContext;
  }

  lemma Unchanged(g: seq<Node>)
    ensures Progressed(g, g)
  {
    assert forall i :: 0 <= i < |g| ==> FrozenAt(g, g, i) && MarkGrewAt(g, g, i) && ContextKeptAt(g, g, i);
  }

  /** One item of `cur`'s imports: its parent is set, then, when it was marked before
      and an item came before it, its import context is looked up and the names are
      matched. */
  method VisitItemAt(g0: seq<Node>, cur: NodeId, item: NodeId, prev: Option<NodeId>) returns (g: seq<Node>)
    requires Wf(g0) && cur < |g0| && item in g0[cur].imports
    requires prev.Some? ==> prev.value < |g0|
    ensures g == VisitItem(g0, cur, item, prev)
  {
    EdgeTargetInRange(g0, cur, item);
    g := g0[item := g0[item].(parent := Some(cur))];
    if g[item].marked > 0 && prev.Some? {
      assert LinkedAt(g, item);
      FrozenStep(g0, g, item);
      var ctx := GetImportContext(g, item);
      ContextFound(g, item);
      var hit := ContextMatches(g[prev.value], g[item], ctx.value);
      if hit {
        g := g[item := g[item].(isInContext := true)];
      }
    }
  }

  /** The inner loop of the detector: every import of `cur` in order is visited and
      pushed, and becomes the previous item. */
  method VisitImports(g0: seq<Node>, cur: NodeId, prev0: Option<NodeId>, stack0: seq<NodeId>)
    returns (g: seq<Node>, prev: Option<NodeId>, stack: seq<NodeId>)
    requires Wf(g0) && cur < |g0| && (prev0.Some? ==> prev0.value < |g0|)
    ensures g == Visit(g0, cur, |g0[cur].imports|, prev0).0
    ensures prev == Visit(g0, cur, |g0[cur].imports|, prev0).1
    ensures stack == stack0 + g0[cur].imports
  {
    var imports := g0[cur].imports;
    g, prev := g0, prev0;
    for k := 0 to |imports|
      invariant g == Visit(g0, cur, k, prev0).0 && prev == Visit(g0, cur, k, prev0).1
    {
      VisitStep(g0, cur, k, prev0);
      var item := imports[k];
      g := VisitItemAt(g, cur, item, prev);
      prev := Some(item);
    }
    // Nothing in the loop reads the stack, so pushing the items after it, all at once,
    // leaves the same stack as pushing each in turn.
    stack := stack0 + imports;
  }

  /** The detector as the program runs it, on the project's table in place. */
  method CheckIfCyclesExist(p: Project, root: NodeId) returns (cycle: bool)
    requires Wf(p.table) && root < |p.table|
    modifies p`table
    ensures (cycle, p.table) == Run(old(p.table), [root], None)
  {
    var stack: seq<NodeId> := [root];
    var prev: Option<NodeId> := None;
    while stack != []
      invariant Wf(p.table) && InTable(p.table, stack) && (prev.Some? ==> prev.value < |p.table|)
      invariant Run(p.table, stack, prev) == Run(old(p.table), [root], None)
      decreases Budget(p.table)
    {
      ghost var g0, stack0, prev0 := p.table, stack, prev;
      var cur := stack[|stack| - 1];
      stack := stack[..|stack| - 1];
      if p.table[cur].marked > 1 {
        return !p.table[cur].isInContext;
      }
      RunStep(g0, stack0, prev0);
      ExpandIs(g0, cur, prev0);
      var g;
      g, prev, stack := VisitImports(p.table, cur, prev, stack);
      MarkOnceIs(g, cur);
      p.table := g[cur := g[cur].(marked := g[cur].marked + 1)];
    }
    cycle := false;
  }
}
