/**
  The node of the earlier import graph: a module with the list of modules it imports,
  the line of an import, its file path and a visited mark.
 */
module GraphNodes {
  import opened Wrappers
  import opened Strings

  class Node {
    var name: string
    var imports: seq<Node>
    var lineNo: Option<int>
    var fullPath: Option<string>
    var marked: bool

    /** A missing or empty `imports` argument gives a new empty list; any other list is
        kept as given. */
    constructor (name: string, imports: Option<seq<Node>>, fullPath: Option<string>, lineNo: Option<int>)
      ensures this.name == name
      ensures this.imports == if imports.Some? && imports.value != [] then imports.value else []
      ensures this.fullPath == fullPath && this.lineNo == lineNo
      ensures !this.marked
    {
      this.name := name;
      if imports.None? || imports.value == [] {
        this.imports := [];
      } else {
        this.imports := imports.value;
      }
      this.lineNo := lineNo;
      this.fullPath := fullPath;
      this.marked := false;
    }

    /** Iterating a node yields the modules it imports, in the order they were added. */
    function Items(): (r: seq<Node>)
      reads this
      ensures |r| == |imports| && forall k :: 0 <= k < |r| ==> r[k] == imports[k]
    {
      imports
    }

    /** Appends one imported module at the end; nothing else changes. */
    method Add(item: Node)
      modifies this`imports
      ensures imports == old(imports) + [item]
      ensures Items()[..|Items()| - 1] == old(Items()) && Items()[|Items()| - 1] == item
    {
      imports := imports + [item];
    }

    /** `repr` of a node: the decimal count of its imports. */
    function Repr(): (r: string)
      reads this
      ensures r != [] && forall k :: 0 <= k < |r| ==> IsDigit(r[k])
      ensures ParseNat(r) == |imports|
    {
      ParseNatToString(|imports|);
      NatToString(|imports|)
    }
  }
}
