/**
  The earlier command-line detector: a recursive first-edge descent over `GraphNodes.Node`
  objects that marks every item it examines and reports a cycle as soon as it meets an
  item that is already marked.
 */
module LegacyCli {
  import opened GraphNodes

  /** Every module imported by a node of `nodes` is itself in `nodes`. */
  ghost predicate Closed(nodes: set<Node>)
    reads nodes
  {
    forall n, m :: n in nodes && m in n.imports ==> m in nodes
  }

  /** The import lists of `nodes`, as a value. */
  ghost function Edges(nodes: set<Node>): (e: map<Node, seq<Node>>)
    reads nodes
    ensures e.Keys == nodes && forall n :: n in nodes ==> e[n] == n.imports
  {
    map n | n in nodes :: n.imports
  }

  /** The nodes of `nodes` that carry a mark. */
  ghost function Marked(nodes: set<Node>): (s: set<Node>)
    reads nodes
    ensures s <= nodes && forall n :: n in nodes ==> (n in s <==> n.marked)
  {
    set n | n in nodes && n.marked
  }

  /** An import map whose every target is one of its keys. */
  ghost predicate ClosedMap(e: map<Node, seq<Node>>)
  {
    forall n, m :: n in e && m in e[n] ==> m in e
  }

  /** `m` is imported by some node of the map. */
  ghost predicate Imported(e: map<Node, seq<Node>>, m: Node)
  {
    exists n :: n in e && m in e[n]
  }

  /**
    The descent from the `i`-th item of `n` on, given the set `marks` of marked nodes:
    whether it reports a cycle, and the marks afterwards. A marked item ends the descent
    with a cycle; an unmarked one is marked, and the descent continues into it when it
    imports anything (never coming back) and otherwise with the next item.
   */
  ghost function Descent(e: map<Node, seq<Node>>, n: Node, i: nat, marks: set<Node>): (r: (bool, set<Node>))
    requires ClosedMap(e) && n in e && i <= |e[n]|
    ensures marks <= r.1
    decreases |e.Keys - marks|, |e[n]| - i
  {
    if i == |e[n]| then (false, marks)
    else
      var item := e[n][i];
      if item in marks then (true, marks)
      else
        assert item in e.Keys - marks;
        assert e.Keys - (marks + {item}) == (e.Keys - marks) - {item};
        assert |(e.Keys - marks) - {item}| == |e.Keys - marks| - 1;
        assert e.Keys - (marks + {item}) < e.Keys - marks;
        if e[item] != [] then Descent(e, item, 0, marks + {item})
        else Descent(e, n, i + 1, marks + {item})
  }

  /** Every node the descent marks is imported by some node: the root itself is never
      marked by its own descent unless something imports it. */
  lemma {:induction false} DescentMarksImported(e: map<Node, seq<Node>>, n: Node, i: nat, marks: set<Node>)
    requires ClosedMap(e) && n in e && i <= |e[n]|
    ensures forall m :: m in Descent(e, n, i, marks).1 && m !in marks ==> Imported(e, m)
    decreases |e.Keys - marks|, |e[n]| - i
  {
    if i < |e[n]| && e[n][i] !in marks {
      var item := e[n][i];
      assert Imported(e, item) by { assert item in e[n]; }
      assert item in e.Keys - marks;
      assert e.Keys - (marks + {item}) == (e.Keys - marks) - {item};
      if e[item] != [] {
        DescentMarksImported(e, item, 0, marks + {item});
      } else {
        DescentMarksImported(e, n, i + 1, marks + {item});
      }
    }
  }

  /** `n` still imports what `e` records for it. */
  ghost predicate Same(n: Node, e: map<Node, seq<Node>>)
    reads n`imports
  {
    n in e && n.imports == e[n]
  }

  /** How many times the descent moves into an item: at most once per unmarked node. */
  ghost function DescentDepth(e: map<Node, seq<Node>>, n: Node, i: nat, marks: set<Node>): (d: nat)
    requires ClosedMap(e) && n in e && i <= |e[n]|
    ensures d <= |e.Keys - marks|
    decreases |e.Keys - marks|, |e[n]| - i
  {
    if i == |e[n]| then 0
    else
      var item := e[n][i];
      if item in marks then 0
      else
        assert item in e.Keys - marks;
        assert e.Keys - (marks + {item}) == (e.Keys - marks) - {item};
        assert |(e.Keys - marks) - {item}| == |e.Keys - marks| - 1;
        if e[item] != [] then 1 + DescentDepth(e, item, 0, marks + {item})
        else
          assert e.Keys - (marks + {item}) <= e.Keys - marks;
          DescentDepth(e, n, i + 1, marks + {item})
  }

  /** Two modules importing each other: the descent from one of them comes back to it and
      reports a cycle, with both marked. */
  lemma MutualImportReported(a: Node, b: Node)
    requires a != b
    ensures ClosedMap(map[a := [b], b := [a]])
    ensures Descent(map[a := [b], b := [a]], a, 0, {}) == (true, {a, b})
  {
    var e := map[a := [b], b := [a]];
    assert e[a] == [b] && e[b] == [a];
    assert Descent(e, a, 0, {}) == Descent(e, b, 0, {} + {b});
    assert Descent(e, b, 0, {} + {b}) == Descent(e, a, 0, {} + {b} + {a});
    assert {} + {b} + {a} == {a, b};
  }

  /**
    Marks are never cleared between items, so two modules that import the same leaf are
    reported as a cycle although the imports are acyclic: the root imports `x`, `x`
    imports the leaf `l` and then `y`, and `y` imports `l` again.
   */
  lemma SharedLeafReported(root: Node, x: Node, y: Node, l: Node)
    requires root != x && root != y && root != l && x != y && x != l && y != l
    ensures ClosedMap(map[root := [x], x := [l, y], y := [l], l := []])
    ensures Descent(map[root := [x], x := [l, y], y := [l], l := []], root, 0, {}).0
  {
    var e := map[root := [x], x := [l, y], y := [l], l := []];
    assert e[root] == [x] && e[x] == [l, y] && e[y] == [l] && e[l] == [];
    var m1 := {} + {x};
    var m2 := m1 + {l};
    var m3 := m2 + {y};
    assert Descent(e, root, 0, {}) == Descent(e, x, 0, m1);
    assert Descent(e, x, 0, m1) == Descent(e, x, 1, m2);
    assert Descent(e, x, 1, m2) == Descent(e, y, 0, m3);
    assert l in m3;
  }

  /**
    The descent never comes back to try a later item once it has moved into one: a
    self-import reached only through the second item of the root goes unreported.
   */
  lemma NoBacktracking(root: Node, a: Node, c: Node, b: Node)
    requires root != a && root != c && root != b && a != c && a != b && c != b
    ensures ClosedMap(map[root := [a, b], a := [c], c := [], b := [b]])
    ensures Descent(map[root := [a, b], a := [c], c := [], b := [b]], root, 0, {}) == (false, {a, c})
  {
    var e := map[root := [a, b], a := [c], c := [], b := [b]];
    assert e[root] == [a, b] && e[a] == [c] && e[c] == [] && e[b] == [b];
    var m1 := {} + {a};
    var m2 := m1 + {c};
    assert Descent(e, root, 0, {}) == Descent(e, a, 0, m1);
    assert Descent(e, a, 0, m1) == Descent(e, a, 1, m2);
    assert m2 == {a, c};
  }

  /** Marking one more node of `nodes` leaves fewer of them unmarked than there were at `was`. */
  lemma FewerUnmarked(nodes: set<Node>, was: set<Node>, before: set<Node>, item: Node)
    requires was <= before <= nodes && item in nodes && item !in before
    ensures |nodes - (before + {item})| < |nodes - was|
  {
    var now, prior := nodes - (before + {item}), nodes - was;
    assert prior == now + (prior - now);
    assert item in prior - now;
  }

  /**
    One item of the descent, as the loop of `CheckIfCyclesExist` meets it: a marked item
    ends it with a cycle; an unmarked one leaves fewer unmarked nodes, and the descent
    goes on inside the item or with the next one.
   */
  lemma DescentStep(e: map<Node, seq<Node>>, n: Node, i: nat, marks: set<Node>, start: set<Node>)
    requires ClosedMap(e) && n in e && i < |e[n]| && start <= marks <= e.Keys
    ensures e[n][i] in e
    ensures e[n][i] in marks ==> Descent(e, n, i, marks) == (true, marks)
    ensures e[n][i] !in marks ==> |e.Keys - (marks + {e[n][i]})| < |e.Keys - start|
    ensures e[n][i] !in marks && e[e[n][i]] != [] ==>
      Descent(e, n, i, marks) == Descent(e, e[n][i], 0, marks + {e[n][i]})
    ensures e[n][i] !in marks && e[e[n][i]] == [] ==>
      Descent(e, n, i, marks) == Descent(e, n, i + 1, marks + {e[n][i]})
  {
    var item := e[n][i];
    if item !in marks {
      FewerUnmarked(e.Keys, start, marks, item);
    }
  }

  /** Every node of `nodes` still imports what `e` records for it. */
  ghost predicate ImportsAre(nodes: set<Node>, e: map<Node, seq<Node>>)
    reads nodes`imports
  {
    forall n :: n in nodes ==> Same(n, e)
  }

  lemma EdgesAgain(nodes: set<Node>, e: map<Node, seq<Node>>)
    requires e.Keys == nodes && ImportsAre(nodes, e)
    ensures Edges(nodes) == e
  {
  }

  lemma EdgesClosed(nodes: set<Node>)
    requires Closed(nodes)
    ensures ClosedMap(Edges(nodes))
  {
  }

  /** The nodes of `nodes` that carry a mark are exactly `marks`. */
  ghost predicate MarksAre(nodes: set<Node>, marks: set<Node>)
    reads nodes
  {
    marks <= nodes && forall n :: n in nodes ==> (n.marked <==> n in marks)
  }

  lemma MarkedIs(nodes: set<Node>, marks: set<Node>)
    requires MarksAre(nodes, marks)
    ensures Marked(nodes) == marks
  {
  }

  /**
    `check_if_cycles_exist` of the earlier command-line module: sets `marked` on the
    nodes it examines and nothing else, and answers as `Descent` does on the import lists.
   */
  method CheckIfCyclesExist(root: Node, ghost nodes: set<Node>) returns (cycle: bool)
    requires root in nodes && Closed(nodes)
    modifies nodes`marked
    ensures forall n :: n in nodes ==> Same(n, old(Edges(nodes)))
    ensures (cycle, Marked(nodes)) == Descent(old(Edges(nodes)), root, 0, old(Marked(nodes)))
    decreases |nodes - Marked(nodes)|
  {
    ghost var e := Edges(nodes);
    EdgesClosed(nodes);
    ghost var start := Marked(nodes);
    ghost var marks := start;
    assert ImportsAre(nodes, e);
    var items := root.imports;
    var i := 0;
    while i < |items|
      invariant 0 <= i <= |items| && items == e[root]
      invariant ImportsAre(nodes, e)
      invariant MarksAre(nodes, marks) && start <= marks
      invariant Descent(e, root, i, marks) == Descent(e, root, 0, start)
    {
      var item := items[i];
      DescentStep(e, root, i, marks, start);
      if item.marked {
        MarkedIs(nodes, marks);
        return true;
      }
      item.marked := true;
      marks := marks + {item};
      assert MarksAre(nodes, marks);
      MarkedIs(nodes, marks);
      if item.imports != [] {
        EdgesAgain(nodes, e);
        cycle := CheckIfCyclesExist(item, nodes);
        return;
      }
      i := i + 1;
    }
    MarkedIs(nodes, marks);
    return false;
  }
}
