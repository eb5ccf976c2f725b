/**
  The report of a found cycle: a descent from the root that always follows the first
  import with imports of its own, collecting the nodes it passes and the full paths it has
  met, and the text that lists the collected nodes with the line of each hop.
 */
module CyclePaths {
  import opened Wrappers
  import opened Strings
  import opened ImportGraph
  import opened CycleDetector

  // ---------------------------------------------------------------------------
  // Paths and their text

  /** Node `j + 1` of `p` is an import of node `j`. */
  predicate EdgeAt(g: seq<Node>, p: seq<NodeId>, j: nat)
  {
    j + 1 < |p| && p[j] < |g| && p[j + 1] in g[p[j]].imports
  }

  /** Consecutive nodes of `p` are joined by import edges. */
  predicate Chain(g: seq<Node>, p: seq<NodeId>)
  {
    InTable(g, p) && forall j: nat :: j + 1 < |p| ==> EdgeAt(g, p, j)
  }

  lemma ChainSnoc(g: seq<Node>, p: seq<NodeId>, item: NodeId)
    requires Chain(g, p) && item < |g| && (p != [] ==> item in g[p[|p| - 1]].imports)
    ensures Chain(g, p + [item]) && (p + [item])[..|p|] == p
  {
    var q := p + [item];
    assert forall j :: 0 <= j < |p| ==> q[j] == p[j];
    forall j: nat | j + 1 < |q|
      ensures EdgeAt(g, q, j)
    {
      if j + 1 < |p| {
        assert EdgeAt(g, p, j);
      }
    }
  }

  /** The first line at which `prev` imports `item`; the edge guarantees there is one. */
  function FirstLine(g: seq<Node>, prev: NodeId, item: NodeId): int
    requires EdgesInRange(g) && LinesCounted(g) && prev < |g| && item < |g| && item in g[prev].imports
  {
    assert CountedAt(g, prev, item);
    assert item in multiset(g[prev].imports);
    Lookup(g[item].isImportedFrom, g[prev].fullPath)[0]
  }

  /** One hop of the text: the module reached and the line that imports it. */
  function Hop(g: seq<Node>, prev: NodeId, item: NodeId): string
    requires EdgesInRange(g) && LinesCounted(g) && prev < |g| && item < |g| && item in g[prev].imports
  {
    g[item].name + ": Line " + IntToString(FirstLine(g, prev, item))
  }

  /** The hops along the first `i` nodes of a chain, one per edge, in order. */
  function Hops(g: seq<Node>, p: seq<NodeId>, i: nat): (h: seq<string>)
    requires EdgesInRange(g) && LinesCounted(g) && Chain(g, p) && i <= |p|
    ensures |h| == if i == 0 then 0 else i - 1
  {
    if i <= 1 then []
    else
      assert EdgeAt(g, p, i - 2);
      Hops(g, p, i - 1) + [Hop(g, p[i - 2], p[i - 1])]
  }

  /** Hop `j` of a chain is the edge from its node `j` to its node `j + 1`. */
  lemma {:induction false} HopsAt(g: seq<Node>, p: seq<NodeId>, i: nat, j: nat)
    requires EdgesInRange(g) && LinesCounted(g) && Chain(g, p) && i <= |p| && j + 1 < i
    ensures p[j + 1] in g[p[j]].imports && Hops(g, p, i)[j] == Hop(g, p[j], p[j + 1])
  {
    assert EdgeAt(g, p, i - 2) && EdgeAt(g, p, j);
    var h := Hops(g, p, i - 1);
    var last := Hop(g, p[i - 2], p[i - 1]);
    assert Hops(g, p, i) == h + [last];
    if j + 2 < i {
      HopsAt(g, p, i - 1, j);
      assert (h + [last])[j] == h[j];
    } else {
      assert (h + [last])[j] == last;
    }
  }

  /**
    The text of a path: nothing for a path of at most one node; otherwise the first
    module, then for each further module ` -> `, its name and `: Line ` with the first line
    at which the module before it imports it, and finally ` =>> ` and the first module
    again.
   */
  function PathText(g: seq<Node>, p: seq<NodeId>): (text: string)
    requires EdgesInRange(g) && LinesCounted(g) && Chain(g, p)
    ensures text == "" <==> |p| <= 1
  {
    if |p| <= 1 then ""
    else
      var head := g[p[0]].name;
      Join(" -> ", [head] + Hops(g, p, |p|)) + " =>> " + head
  }

  /** The text of the first `i + 1` nodes is the text of the first `i` and one more hop. */
  lemma HopsStep(g: seq<Node>, p: seq<NodeId>, i: nat, head: string)
    requires EdgesInRange(g) && LinesCounted(g) && Chain(g, p) && 1 <= i < |p|
    ensures p[i - 1] < |g| && p[i] < |g| && p[i] in g[p[i - 1]].imports
    ensures Join(" -> ", [head] + Hops(g, p, i + 1)) ==
              Join(" -> ", [head] + Hops(g, p, i)) + " -> " + g[p[i]].name + ": Line " +
              IntToString(FirstLine(g, p[i - 1], p[i]))
  {
    assert EdgeAt(g, p, i - 1);
    var hop := Hop(g, p[i - 1], p[i]);
    var front := [head] + Hops(g, p, i);
    JoinSnoc(" -> ", front, hop);
    assert [head] + Hops(g, p, i + 1) == front + [hop];
    var name, line := g[p[i]].name, IntToString(FirstLine(g, p[i - 1], p[i]));
    Regroup(Join(" -> ", front) + " -> ", name, ": Line ", line);
  }

  lemma Regroup(a: string, x: string, y: string, z: string)
    ensures a + (x + y + z) == a + x + y + z
  {
  }

  /** The line the program reads for a hop is its first line. */
  lemma FirstLineIs(g: seq<Node>, prev: NodeId, item: NodeId)
    requires EdgesInRange(g) && LinesCounted(g) && prev < |g| && item < |g| && item in g[prev].imports
    ensures Lookup(g[item].isImportedFrom, g[prev].fullPath) != []
    ensures Lookup(g[item].isImportedFrom, g[prev].fullPath)[0] == FirstLine(g, prev, item)
  {
    assert CountedAt(g, prev, item) && item in multiset(g[prev].imports);
  }

  /** The text as the program builds it: a loop that appends hop after hop. */
  method FormatPath(g: seq<Node>, p: seq<NodeId>) returns (text: string)
    requires EdgesInRange(g) && LinesCounted(g) && Chain(g, p)
    ensures text == PathText(g, p)
  {
    if |p| <= 1 {
      return "";
    }
    var head := g[p[0]].name;
    var result := head;
    var previous := p[0];
    for i := 1 to |p|
      invariant previous == p[i - 1]
      invariant result == Join(" -> ", [head] + Hops(g, p, i))
    {
      var item := p[i];
      HopsStep(g, p, i, head);
      FirstLineIs(g, previous, item);
      var lines := Lookup(g[item].isImportedFrom, g[previous].fullPath);
      result := result + " -> " + g[item].name + ": Line " + IntToString(lines[0]);
      previous := item;
    }
    text := result + " =>> " + head;
  }

  // ---------------------------------------------------------------------------
  // The descent

  /** The full paths of the table. */
  function AllPaths(g: seq<Node>): (s: set<string>)
    ensures forall i :: 0 <= i < |g| ==> g[i].fullPath in s
    decreases |g|
  {
    if g == [] then {} else AllPaths(g[..|g| - 1]) + {g[|g| - 1].fullPath}
  }

  /** Meeting a path not met before leaves fewer paths to meet. */
  lemma SeenShrinks(g: seq<Node>, seen: set<string>, path: string)
    requires path in AllPaths(g) && path !in seen
    ensures |AllPaths(g) - (seen + {path})| < |AllPaths(g) - seen|
  {
    assert AllPaths(g) - (seen + {path}) == (AllPaths(g) - seen) - {path};
  }

  /**
    The nodes the descent collects, from item `k` of node `n`'s imports, with `acc`
    collected and the full paths `seen` met so far: an item whose path was met ends the
    descent with what has been collected; otherwise its path is met, and an item with
    imports is collected and descended into, the rest of `n`'s items being dropped. When
    `n`'s items run out the descent ends with nothing.
   */
  function CycleNodes(g: seq<Node>, n: NodeId, k: nat, acc: seq<NodeId>, seen: set<string>): (r: Option<seq<NodeId>>)
    requires EdgesInRange(g) && n < |g| && k <= |g[n].imports|
    decreases |AllPaths(g) - seen|, |g[n].imports| - k
  {
    if k == |g[n].imports| then None
    else
      var item := g[n].imports[k];
      if g[item].fullPath in seen then Some(acc)
      else
        SeenShrinks(g, seen, g[item].fullPath);
        if g[item].imports != [] then CycleNodes(g, item, 0, acc + [item], seen + {g[item].fullPath})
        else CycleNodes(g, n, k + 1, acc, seen + {g[item].fullPath})
  }

  /** What the descent collects is a chain that extends `acc`; from an empty `acc`, it
      starts at an import of `n`. */
  lemma {:induction false} CycleNodesChain(g: seq<Node>, n: NodeId, k: nat, acc: seq<NodeId>, seen: set<string>)
    requires EdgesInRange(g) && n < |g| && k <= |g[n].imports|
    requires Chain(g, acc) && (acc != [] ==> acc[|acc| - 1] == n)
    ensures var r := CycleNodes(g, n, k, acc, seen);
            r.Some? ==> Chain(g, r.value) && |acc| <= |r.value| && r.value[..|acc|] == acc &&
                        (acc == [] && r.value != [] ==> r.value[0] in g[n].imports)
    decreases |AllPaths(g) - seen|, |g[n].imports| - k
  {
    if k < |g[n].imports| {
      var item := g[n].imports[k];
      if g[item].fullPath !in seen {
        SeenShrinks(g, seen, g[item].fullPath);
        if g[item].imports != [] {
          var acc' := acc + [item];
          ChainSnoc(g, acc, item);
          CycleNodesChain(g, item, 0, acc', seen + {g[item].fullPath});
          var r := CycleNodes(g, item, 0, acc', seen + {g[item].fullPath});
          if r.Some? {
            assert r.value[..|acc'|][..|acc|] == r.value[..|acc|];
            if acc == [] {
              assert r.value[0] == acc'[0];
            }
          }
        } else {
          CycleNodesChain(g, n, k + 1, acc, seen + {g[item].fullPath});
        }
      }
    }
  }

  /** The full paths of the nodes of `p`. */
  function PathSet(g: seq<Node>, p: seq<NodeId>): (s: set<string>)
    requires InTable(g, p)
    ensures s <= AllPaths(g)
    decreases |p|
  {
    if p == [] then {}
    else
      assert g[p[|p| - 1]].fullPath in AllPaths(g);
      PathSet(g, p[..|p| - 1]) + {g[p[|p| - 1]].fullPath}
  }

  /** No node of `p` shares its full path with a node before it. */
  predicate DistinctPaths(g: seq<Node>, p: seq<NodeId>)
    decreases |p|
  {
    InTable(g, p) &&
    (p == [] ||
     (DistinctPaths(g, p[..|p| - 1]) && g[p[|p| - 1]].fullPath !in PathSet(g, p[..|p| - 1])))
  }

  lemma DistinctSnoc(g: seq<Node>, p: seq<NodeId>, item: NodeId)
    requires DistinctPaths(g, p) && item < |g| && g[item].fullPath !in PathSet(g, p)
    ensures DistinctPaths(g, p + [item]) && PathSet(g, p + [item]) == PathSet(g, p) + {g[item].fullPath}
  {
    assert (p + [item])[..|p|] == p;
  }

  /** Every collected node was met by its path, once: the collected nodes have distinct
      paths. */
  lemma {:induction false} CycleNodesDistinct(g: seq<Node>, n: NodeId, k: nat, acc: seq<NodeId>, seen: set<string>)
    requires EdgesInRange(g) && n < |g| && k <= |g[n].imports|
    requires DistinctPaths(g, acc) && PathSet(g, acc) <= seen
    ensures var r := CycleNodes(g, n, k, acc, seen);
            r.Some? ==> DistinctPaths(g, r.value)
    decreases |AllPaths(g) - seen|, |g[n].imports| - k
  {
    if k < |g[n].imports| {
      var item := g[n].imports[k];
      var path := g[item].fullPath;
      if path !in seen {
        SeenShrinks(g, seen, path);
        if g[item].imports != [] {
          var acc' := acc + [item];
          DistinctSnoc(g, acc, item);
          CycleNodesDistinct(g, item, 0, acc', seen + {path});
        } else {
          CycleNodesDistinct(g, n, k + 1, acc, seen + {path});
        }
      }
    }
  }

  /** A path with distinct full paths has no more nodes than the table has paths. */
  lemma {:induction false} DistinctPathsBound(g: seq<Node>, p: seq<NodeId>)
    requires DistinctPaths(g, p)
    ensures |PathSet(g, p)| == |p| && |p| <= |AllPaths(g)|
    decreases |p|
  {
    if p != [] {
      DistinctPathsBound(g, p[..|p| - 1]);
    }
    SubsetCard(PathSet(g, p), AllPaths(g));
  }

  lemma {:induction false} SubsetCard(a: set<string>, b: set<string>)
    requires a <= b
    ensures |a| <= |b|
    decreases |b|
  {
    if a != {} {
      var x :| x in a;
      SubsetCard(a - {x}, b - {x});
    }
  }

  /** What the descent from the root collects: a chain that starts at an import of the
      root, whose nodes have distinct paths, so no longer than the number of paths. */
  lemma CycleNodesFromRoot(g: seq<Node>, root: NodeId)
    requires EdgesInRange(g) && root < |g|
    ensures var r := CycleNodes(g, root, 0, [], {});
            r.Some? ==> Chain(g, r.value) && (r.value != [] ==> r.value[0] in g[root].imports) &&
                        DistinctPaths(g, r.value) && |r.value| <= |AllPaths(g)|
  {
    CycleNodesChain(g, root, 0, [], {});
    CycleNodesDistinct(g, root, 0, [], {});
    var r := CycleNodes(g, root, 0, [], {});
    if r.Some? {
      DistinctPathsBound(g, r.value);
    }
  }

  /** The text the descent from the root reports: the collected path, or nothing. */
  function CyclePathText(g: seq<Node>, root: NodeId): string
    requires EdgesInRange(g) && LinesCounted(g) && root < |g|
  {
    match CycleNodes(g, root, 0, [], {})
    case None => ""
    case Some(p) =>
      CycleNodesChain(g, root, 0, [], {});
      PathText(g, p)
  }

  /** The descent as the program runs it; its recursion is a tail call, so a loop. */
  method GetCyclePath(g: seq<Node>, root: NodeId) returns (text: string)
    requires EdgesInRange(g) && LinesCounted(g) && root < |g|
    ensures text == CyclePathText(g, root)
  {
    var node: NodeId, k: nat := root, 0;
    var acc: seq<NodeId> := [];
    var seen: set<string> := {};
    CycleNodesChain(g, root, 0, [], {});
    while k < |g[node].imports|
      invariant node < |g| && k <= |g[node].imports|
      invariant Chain(g, acc) && (acc != [] ==> acc[|acc| - 1] == node)
      invariant CycleNodes(g, node, k, acc, seen) == CycleNodes(g, root, 0, [], {})
      decreases |AllPaths(g) - seen|, |g[node].imports| - k
    {
      var item := g[node].imports[k];
      if g[item].fullPath in seen {
        text := FormatPath(g, acc);
        return;
      }
      SeenShrinks(g, seen, g[item].fullPath);
      seen := seen + {g[item].fullPath};
      if g[item].imports != [] {
        ChainSnoc(g, acc, item);
        acc := acc + [item];
        node, k := item, 0;
      } else {
        k := k + 1;
      }
    }
    text := "";
  }

  // ---------------------------------------------------------------------------
  // Scenarios

  /** Two modules that import each other: the report names the second module, the line at
      which it imports the first, and closes on the second module. */
  lemma MutualImportText(na: string, nb: string, pa: string, pb: string, la: int, lb: int)
    requires pa != pb
    ensures CyclePathText(MutualPair(na, nb, pa, pb, la, lb), 0) ==
              nb + " -> " + na + ": Line " + IntToString(lb) + " =>> " + nb
  {
    var g := MutualPair(na, nb, pa, pb, la, lb);
    MutualPairDescent(na, nb, pa, pb, la, lb);
    var p := [1, 0];
    assert EdgeAt(g, p, 0);
    assert FirstLine(g, 1, 0) == lb;
    assert Hops(g, p, 2) == [Hop(g, 1, 0)];
    JoinCons(nb, [Hop(g, 1, 0)], " -> ");
    Regroup(nb + " -> ", na, ": Line ", IntToString(lb));
  }

  // ---------------------------------------------------------------------------
  // A descent that reports only closed cycles

  /**
    A node of `p` whose import shares its full path with the first node of `p`: the text
    of `p`, which ends on its first module again, describes a cycle.
   */
  predicate Closes(g: seq<Node>, p: seq<NodeId>)
    requires InTable(g, p)
  {
    p != [] &&
    exists t :: t in g[p[|p| - 1]].imports && t < |g| && g[t].fullPath == g[p[0]].fullPath
  }

  predicate DistinctFour(pa: string, pb: string, pc: string, pd: string)
  {
    pa != pb && pa != pc && pa != pd && pb != pc && pb != pd && pc != pd
  }

  /**
    Four modules in a diamond: `a` imports `c` and then `b`, `b` imports `d`, `d` imports
    `c`, and `c` imports nothing. No module is reachable from itself.
   */
  function Diamond(na: string, nb: string, nc: string, nd: string,
                   pa: string, pb: string, pc: string, pd: string): (g: seq<Node>)
    requires DistinctFour(pa, pb, pc, pd)
    ensures EdgesInRange(g) && |g| == 4
  {
    var g := [Node(na, [2, 1], map[], pa, 0, None, map[], map[], false),
              Node(nb, [3], map[pa := [2]], pb, 0, None, map[], map[], false),
              Node(nc, [], map[pa := [1], pd := [4]], pc, 0, None, map[], map[], false),
              Node(nd, [2], map[pb := [3]], pd, 0, None, map[], map[], false)];
    g
  }

  /** Each edge of the diamond has its line recorded at its target. */
  lemma DiamondCounted(na: string, nb: string, nc: string, nd: string,
                       pa: string, pb: string, pc: string, pd: string)
    requires DistinctFour(pa, pb, pc, pd)
    ensures LinesCounted(Diamond(na, nb, nc, nd, pa, pb, pc, pd))
  {
    var g := Diamond(na, nb, nc, nd, pa, pb, pc, pd);
    assert forall t :: 0 <= t < 4 ==> CountedAt(g, 0, t) by {
      assert multiset(g[0].imports) == multiset{1, 2};
    }
    assert forall t :: 0 <= t < 4 ==> CountedAt(g, 1, t) by {
      assert multiset(g[1].imports) == multiset{3};
    }
    assert forall t :: 0 <= t < 4 ==> CountedAt(g, 2, t) by {
      assert multiset(g[2].imports) == multiset{};
    }
    assert forall t :: 0 <= t < 4 ==> CountedAt(g, 3, t) by {
      assert multiset(g[3].imports) == multiset{2};
    }
  }

  /**
    The descent as written records the path of `c` when it passes over it as an import of
    `a`; meeting `c` again below `d` it reports `b -> d` as a cycle, though `d` imports
    nothing on that path.
   */
  lemma SharedLeafReportedAsCycle(na: string, nb: string, nc: string, nd: string,
                                  pa: string, pb: string, pc: string, pd: string)
    requires DistinctFour(pa, pb, pc, pd)
    ensures var g := Diamond(na, nb, nc, nd, pa, pb, pc, pd);
            LinesCounted(g) && CycleNodes(g, 0, 0, [], {}) == Some([1, 3]) && !Closes(g, [1, 3]) &&
            CyclePathText(g, 0) != ""
  {
    var g := Diamond(na, nb, nc, nd, pa, pb, pc, pd);
    DiamondCounted(na, nb, nc, nd, pa, pb, pc, pd);
    assert [] + [1] == [1] && [1] + [3] == [1, 3];
    assert {} + {pc} == {pc} && {pc} + {pb} == {pc, pb} && {pc, pb} + {pd} == {pc, pb, pd};
    assert CycleNodes(g, 3, 0, [1, 3], {pc, pb, pd}) == Some([1, 3]);
    assert CycleNodes(g, 1, 0, [1], {pc, pb}) == CycleNodes(g, 3, 0, [1] + [3], {pc, pb} + {pd});
    assert CycleNodes(g, 0, 1, [], {pc}) == CycleNodes(g, 1, 0, [] + [1], {pc} + {pb});
    assert CycleNodes(g, 0, 0, [], {}) == CycleNodes(g, 0, 1, [], {} + {pc});
  }

  /** The position in `p` of a node with full path `path`. */
  function PathIndex(g: seq<Node>, p: seq<NodeId>, path: string): (j: nat)
    requires InTable(g, p) && path in PathSet(g, p)
    ensures j < |p| && g[p[j]].fullPath == path
    decreases |p|
  {
    if g[p[|p| - 1]].fullPath == path then |p| - 1
    else
      var j := PathIndex(g, p[..|p| - 1], path);
      assert p[..|p| - 1][j] == p[j];
      j
  }

  /** Collecting a node with a new path keeps the paths distinct and leaves fewer paths
      to collect. */
  lemma DescendShrinks(g: seq<Node>, acc: seq<NodeId>, item: NodeId)
    requires DistinctPaths(g, acc) && item < |g| && g[item].fullPath !in PathSet(g, acc)
    ensures DistinctPaths(g, acc + [item])
    ensures |AllPaths(g) - PathSet(g, acc + [item])| < |AllPaths(g) - PathSet(g, acc)|
  {
    DistinctSnoc(g, acc, item);
    SeenShrinks(g, PathSet(g, acc), g[item].fullPath);
  }

  /**
    The descent with the evidently intended stop: an item ends it only when its path is
    the path of a collected node, and the report is the collected nodes from that node on;
    an item without imports is passed over without being recorded.
   */
  function ClosedCycleNodes(g: seq<Node>, n: NodeId, k: nat, acc: seq<NodeId>): (r: Option<seq<NodeId>>)
    requires EdgesInRange(g) && n < |g| && k <= |g[n].imports| && DistinctPaths(g, acc)
    decreases |AllPaths(g) - PathSet(g, acc)|, |g[n].imports| - k
  {
    if k == |g[n].imports| then None
    else
      var item := g[n].imports[k];
      var path := g[item].fullPath;
      if path in PathSet(g, acc) then Some(acc[PathIndex(g, acc, path)..])
      else if g[item].imports == [] then ClosedCycleNodes(g, n, k + 1, acc)
      else
        DescendShrinks(g, acc, item);
        ClosedCycleNodes(g, item, 0, acc + [item])
  }

  lemma ChainSuffix(g: seq<Node>, p: seq<NodeId>, m: nat)
    requires Chain(g, p) && m <= |p|
    ensures Chain(g, p[m..])
  {
    var q := p[m..];
    forall j: nat | j + 1 < |q|
      ensures EdgeAt(g, q, j)
    {
      assert EdgeAt(g, p, m + j);
    }
  }

  /** When the last collected node imports a node whose path was collected, the
      collected nodes from that path on form a chain that closes on itself. */
  lemma ClosesAtRepeat(g: seq<Node>, acc: seq<NodeId>, item: NodeId)
    requires Chain(g, acc) && acc != [] && item in g[acc[|acc| - 1]].imports && item < |g|
    requires g[item].fullPath in PathSet(g, acc)
    ensures var q := acc[PathIndex(g, acc, g[item].fullPath)..];
            Chain(g, q) && Closes(g, q)
  {
    var j := PathIndex(g, acc, g[item].fullPath);
    ChainSuffix(g, acc, j);
    var q := acc[j..];
    assert q[|q| - 1] == acc[|acc| - 1] && q[0] == acc[j];
  }

  /** Whatever the corrected descent reports is a chain of imports that closes on itself. */
  lemma {:induction false} ClosedCycleNodesCloses(g: seq<Node>, n: NodeId, k: nat, acc: seq<NodeId>)
    requires EdgesInRange(g) && n < |g| && k <= |g[n].imports| && DistinctPaths(g, acc)
    requires Chain(g, acc) && (acc != [] ==> acc[|acc| - 1] == n)
    ensures var r := ClosedCycleNodes(g, n, k, acc);
            r.Some? ==> Chain(g, r.value) && Closes(g, r.value)
    decreases |AllPaths(g) - PathSet(g, acc)|, |g[n].imports| - k
  {
    if k < |g[n].imports| {
      var item := g[n].imports[k];
      var path := g[item].fullPath;
      if path in PathSet(g, acc) {
        ClosesAtRepeat(g, acc, item);
      } else if g[item].imports == [] {
        ClosedCycleNodesCloses(g, n, k + 1, acc);
      } else {
        DescendShrinks(g, acc, item);
        ChainSnoc(g, acc, item);
        ClosedCycleNodesCloses(g, item, 0, acc + [item]);
      }
    }
  }

  /** The corrected report from the root: the text of a closed cycle, or nothing. */
  function ClosedCyclePathText(g: seq<Node>, root: NodeId): (text: string)
    requires EdgesInRange(g) && LinesCounted(g) && root < |g|
  {
    match ClosedCycleNodes(g, root, 0, [])
    case None => ""
    case Some(p) =>
      ClosedCycleNodesCloses(g, root, 0, []);
      PathText(g, p)
  }

  /** On the diamond the corrected descent reports nothing. */
  lemma SharedLeafNotReported(na: string, nb: string, nc: string, nd: string,
                              pa: string, pb: string, pc: string, pd: string)
    requires DistinctFour(pa, pb, pc, pd)
    ensures var g := Diamond(na, nb, nc, nd, pa, pb, pc, pd);
            LinesCounted(g) && ClosedCyclePathText(g, 0) == ""
  {
    var g := Diamond(na, nb, nc, nd, pa, pb, pc, pd);
    DiamondCounted(na, nb, nc, nd, pa, pb, pc, pd);
    assert [1, 3][..1] == [1] && [1][..0] == [];
    assert [] + [1] == [1] && [1] + [3] == [1, 3];
    assert PathSet(g, [1]) == {pb};
    assert DistinctPaths(g, [1, 3]) && PathSet(g, [1, 3]) == {pb, pd};
    assert ClosedCycleNodes(g, 3, 1, [1, 3]) == None;
    assert ClosedCycleNodes(g, 3, 0, [1, 3]) == ClosedCycleNodes(g, 3, 1, [1, 3]);
    assert ClosedCycleNodes(g, 1, 0, [1]) == ClosedCycleNodes(g, 3, 0, [1] + [3]);
    assert ClosedCycleNodes(g, 0, 1, []) == ClosedCycleNodes(g, 1, 0, [] + [1]);
    assert ClosedCycleNodes(g, 0, 0, []) == ClosedCycleNodes(g, 0, 1, []);
  }

  /** On two modules that import each other the corrected descent reports what the
      program reports. */
  lemma MutualImportSameReport(na: string, nb: string, pa: string, pb: string, la: int, lb: int)
    requires pa != pb
    ensures var g := MutualPair(na, nb, pa, pb, la, lb);
            ClosedCyclePathText(g, 0) == CyclePathText(g, 0)
  {
    var g := MutualPair(na, nb, pa, pb, la, lb);
    MutualPairDescent(na, nb, pa, pb, la, lb);
    assert [1, 0][..1] == [1] && [1][..0] == [];
    assert [] + [1] == [1] && [1] + [0] == [1, 0];
    assert PathSet(g, [1]) == {pb};
    assert DistinctPaths(g, [1, 0]) && PathSet(g, [1, 0]) == {pb, pa};
    assert PathIndex(g, [1, 0], pb) == 0;
    assert ClosedCycleNodes(g, 0, 0, [1, 0]) == Some([1, 0]);
    assert ClosedCycleNodes(g, 1, 0, [1]) == ClosedCycleNodes(g, 0, 0, [1] + [0]);
    assert ClosedCycleNodes(g, 0, 0, []) == ClosedCycleNodes(g, 1, 0, [] + [1]);
  }

  /** The descent over two modules that import each other collects the second and then
      the first. */
  lemma MutualPairDescent(na: string, nb: string, pa: string, pb: string, la: int, lb: int)
    requires pa != pb
    ensures CycleNodes(MutualPair(na, nb, pa, pb, la, lb), 0, 0, [], {}) == Some([1, 0])
  {
    var g := MutualPair(na, nb, pa, pb, la, lb);
    assert [] + [1] == [1] && [1] + [0] == [1, 0];
    assert {} + {pb} == {pb} && {pb} + {pa} == {pb, pa};
    assert CycleNodes(g, 0, 0, [1, 0], {pb, pa}) == Some([1, 0]);
    assert CycleNodes(g, 1, 0, [1], {pb}) == CycleNodes(g, 0, 0, [1] + [0], {pb} + {pa});
    assert CycleNodes(g, 0, 0, [], {}) == CycleNodes(g, 1, 0, [] + [1], {} + {pb});
  }
}
