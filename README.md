# pycycle import-cycle detector, modelled in Dafny

pycycle reads a Python project and builds a graph of its modules. Each `.py` file, and
each module named in an `import` or `from … import` statement, becomes a node keyed by the
full path of its file. Each import statement adds an edge, and the target records the
importing file's path and the line of the statement. The program then looks for an import
cycle. It walks the graph from the first file read with an explicit stack and marks each
node it expands once more. It answers as soon as it pops a node that has already been
expanded twice: a cycle, unless that node was flagged "in context" because the import that
led back to it sits after the definition the loop needs (the "import context" check). A
node reached twice by two branches that meet again is expanded twice, but is not reported
unless it is popped a third time. The cycle is then described by the text `a -> b: Line 3 =>> a`. An earlier command-line
module holds a simpler version of the same reader and detector over the `Node` class of
`pycycle/graph/nodes.py`.

The model is split into these modules:

- `Strings`: the string operations the program relies on. These are split, join,
  character replacement, decimal `str()` of line numbers and substring search.
- `ModulePaths`: `get_path_from_package_name` in both versions, over a two-argument POSIX
  `os.path.join`.
- `ProjectScan`: the walk of one file as a list of statement events. Also file selection
  (`os.path.splitext` and the ignore set), the resolution root of a `from` import, and the
  function-import and definition tables.
- `ImportGraph`: the node record and the registry of nodes by full path. Its invariant
  `Valid` says five things. One node per path. Every edge stays inside the table. A target
  records exactly one line per edge under the importer's path. Lines are recorded only
  under registered paths. The detector's fields are pristine.
- `GraphBuild`: `read_project` as functions on values, statement by statement and file by
  file, with lemmas about the error flag, the root node and the registry.
- `ProjectReader`: the same reader as a `Project` class whose methods update the node
  table, the registry, the root and the error flag in place. Each method is proved to leave
  exactly the state the `GraphBuild` function describes.
- `CycleDetector`: `get_import_context` and `check_if_cycles_exist`. There is a
  specification function for the walk, and a method that runs the loops on the project's
  table in place and is proved equal to it.
- `CyclePaths`: `format_path` and `get_cycle_path`, plus a corrected descent (see
  Findings).
- `GraphNodes` and `LegacyCli`: the heap `Node` class and the recursive detector of the
  earlier command-line module.

Nodes live in one table: a `seq<Node>` whose index is the node's identity. A Python object
reference to a node becomes its index, so two names for the same node are the same index.

## Model

| member | source | states |
|---|---|---|
| Strings.Split | pycycle/utils.py:150 | `str.split` on one character gives one more piece than there are separators, and no piece contains the separator |
| Strings.SplitJoin | pycycle/utils.py:150-151 | splitting the join of pieces that have no separator gives back the pieces |
| Strings.JoinSplit | pycycle/utils.py:150-151 | joining the pieces of a split with another character is replacing that character, so `os.sep.join(pkg.split("."))` turns every dot into `/` |
| Strings.IntToStringRoundTrip | pycycle/utils.py:224 | the decimal `str()` of a line number is a numeral (an optional minus sign, then digits) that parses back to the same number |
| Strings.Contains | pycycle/utils.py:110-111 | searching a line for `from .` succeeds exactly when the pattern occurs at some position |
| ModulePaths.PathJoin | pycycle/utils.py:70 | `os.path.join` of two components ends with the second, and starts with the first when the second is relative |
| ModulePaths.GetPathFromPackageName | pycycle/utils.py:147-151 | the result is `''` exactly when the root or the module name is missing or empty; otherwise it is the root joined with the dotted name (dots replaced by `/`) plus `.py`, so it ends in `.py` |
| ModulePaths.LegacyGetPathFromPackageName | pycycle/cli.py:80-82 | a missing module name (`from . import x`) raises `AttributeError` on `pkg.split`, and exactly then; a missing root with a module name raises `TypeError` in `os.path.join`; otherwise, with no guard for empty strings, the result is the root joined with the dots-to-`/` name plus `.py` |
| ModulePaths.LegacyRaisesOnNone | pycycle/cli.py:80-82 | where the module or the root is missing, the earlier version raises and the current one returns `''` |
| ModulePaths.LegacyAgreesWhenGiven | pycycle/cli.py:80-82 | on a non-empty root and module name the earlier and the current version give the same path |
| ModulePaths.PathOfDottedName | pycycle/utils.py:147-151 | a name of dot-free components resolves to the root joined with the components separated by `/`, plus `.py` |
| ModulePaths.LegacyHasNoEmptyGuard | pycycle/cli.py:80-82 | under an empty root the earlier version returns a relative `.py` path where the current one returns `''` |
| ModulePaths.LegacyEmptyModuleName | pycycle/cli.py:80-82 | an empty module name yields `root/.py` in the earlier version and `''` in the current one |
| ModulePaths.DotFreeName | pycycle/utils.py:147-151 | a module name without dots resolves to the file of that name, plus `.py`, under the root |
| ModulePaths.TwoPartName | pycycle/utils.py:147-151 | a module name `dir.name` resolves to the file `dir/name.py` under the root |
| ModulePaths.PathExamples | pycycle/utils.py:147-149 | an empty root, a missing module name or a missing root each give `''` |
| ProjectScan.SplitExt | pycycle/utils.py:67 | `os.path.splitext` splits a name into a root and an extension that together give back the name, the extension empty or starting with a dot |
| ProjectScan.PyExtension | pycycle/utils.py:67 | a file has the `.py` extension exactly when its name ends in `.py` after at least one character that is not a dot |
| ProjectScan.Stem | pycycle/utils.py:83 | `file_name[:-3]` followed by the last three characters gives back the name |
| ProjectScan.FromImportResolves | pycycle/utils.py:108-115 | a `from` import with no module or an empty one imports nothing; otherwise it imports one path: the module resolved under the file's directory when the statement's line exists and contains `from .`, and under the project root otherwise |
| ProjectScan.AppendNamesAll | pycycle/utils.py:124-128 | recording a from-import's names leaves the table unchanged when there are none, and otherwise extends the list under its line by exactly those names |
| ProjectScan.LastDefinitionWins | pycycle/utils.py:132-133 | after the walk, a defined name maps to the line of its last definition |
| ProjectScan.UndefinedNameKept | pycycle/utils.py:132-133 | a name the walk never defines keeps what it had in the definition table |
| ImportGraph.NewNode | pycycle/utils.py:22-35 | a new node has the given name and path, an empty import list unless one is given, empty line, function-import and definition tables, and pristine detector fields |
| ImportGraph.AppendAt | pycycle/utils.py:105 | appending to a `defaultdict(list)` adds the value at the end of the key's list and leaves every other key's list unchanged |
| ImportGraph.Repr | pycycle/utils.py:43-44 | a node's text is the decimal numeral of its number of imports |
| ImportGraph.OneNodePerPath | pycycle/utils.py:80-84 | two different nodes of the registry never share a full path |
| ImportGraph.EdgeHasLine | pycycle/utils.py:105-106 | every import edge has at least one line recorded at its target under the importer's path |
| ImportGraph.GetOrCreate | pycycle/utils.py:80-84 | a registered path gives back its node and changes nothing; a new path appends a new node at the end of the table and registers it; the registry stays valid and only grows |
| ImportGraph.AddEdge | pycycle/utils.py:105-106 | adding an edge appends the target to the importer's list and the line to the target's list under the importer's path, changes nothing else, and keeps the registry valid |
| GraphBuild.ImportOne | pycycle/utils.py:95-106 | one name of an `import` statement resolves to a node and adds one edge from the file's node; every other node keeps its imports and its name tables (the target's lines are stated by `ImportOneLines`) |
| GraphBuild.ImportNames | pycycle/utils.py:90-106 | an `import` statement adds one edge per name, in order, to the node at each name's resolved path |
| GraphBuild.ImportFromModule | pycycle/utils.py:108-131 | a `from` import records its names under its line and adds one edge to the module's node |
| GraphBuild.ScanEvent | pycycle/utils.py:89-133 | one statement of the walk adds the paths it imports to the file node's imports and updates its function-import and definition tables; every other node keeps its imports and its name tables (the lines recorded at the targets are stated by `ScanEventLines`) |
| GraphBuild.ScanEvents | pycycle/utils.py:89-133 | the whole walk appends the paths of every statement, in walk order, to the file node's imports |
| GraphBuild.LinesFor | pycycle/utils.py:105 | a target none of whose imports is in the list gets no line |
| GraphBuild.LinesForCount | pycycle/utils.py:105 | a target gets one line for each time it is imported |
| GraphBuild.ImportOneLines | pycycle/utils.py:95-106 | one module of an `import` statement appends the statement's line at the module's node under the file's path, and changes no other list of lines |
| GraphBuild.ImportNamesLines | pycycle/utils.py:90-106 | an `import` statement appends its line once at the node of each module it names, under the file's path, in order; no other list of lines changes |
| GraphBuild.ImportFromLines | pycycle/utils.py:108-131 | a `from` import appends its line at the module's node under the file's path, and changes no other list of lines |
| GraphBuild.ScanEventLines | pycycle/utils.py:89-133 | one statement appends its line at the node of each module it imports, once per import, and nothing else; a definition records no line |
| GraphBuild.ScanEventsLines | pycycle/utils.py:89-133 | the whole walk leaves at each node, under the file's path, the lines it had and then the line of every import of it, in walk order |
| GraphBuild.ScanFileLines | pycycle/utils.py:80-133 | after a parsed file, every node, old or new, records under the file's path the lines it had and then the line of each import of it in the walk, in walk order; every list under another path is unchanged |
| GraphBuild.ScanFile | pycycle/utils.py:71-136 | a file that does not parse only sets the error flag; a parsed file is registered and the root becomes its node if there was none |
| GraphBuild.ScanFileEffect | pycycle/utils.py:80-133 | after a parsed file, its node is the one registered under its path (or a new one at the end), keeps its name, and gains exactly the walk's imports, names and definitions; every other node keeps its imports and its name tables (the lines recorded at the targets are stated by `ScanFileLines`) |
| GraphBuild.ReadFiles | pycycle/utils.py:47-143 | reading files in walk order, skipping those not selected, always leaves a valid reader |
| GraphBuild.ReadFilesStep | pycycle/utils.py:63-136 | one more file only extends the registry, sets the error flag exactly when it fails to parse, and sets the root to its node exactly when it parses and there was no root |
| GraphBuild.FailedSetsErrors | pycycle/utils.py:135-136 | one selected file that fails to parse sets the error flag for good |
| GraphBuild.ErrorsHaveCause | pycycle/utils.py:135-136 | the error flag is set only if some selected file failed to parse |
| GraphBuild.RootIffSomeParsed | pycycle/utils.py:86-87 | there is a root node exactly when some selected file parsed |
| GraphBuild.ParsedRegistered | pycycle/utils.py:80-84 | every parsed file's path is registered at the end |
| GraphBuild.RootIsFirstParsed | pycycle/utils.py:86-87 | the root is the node of the first file that parsed |
| ProjectReader.Project.constructor | pycycle/utils.py:53-55 | the reader starts with no nodes, no root and no errors |
| ProjectReader.Project.GetOrCreate | pycycle/utils.py:80-84 | the node lookup or creation, in place, leaves the state `ImportGraph.GetOrCreate` describes |
| ProjectReader.Project.AddImport | pycycle/utils.py:105-106 | recording the line at the target and appending the target, in place, leaves the state `ImportGraph.AddEdge` describes |
| ProjectReader.Project.ImportNames | pycycle/utils.py:90-106 | the loop over an `import` statement's names, in place, leaves the state `GraphBuild.ImportNames` describes |
| ProjectReader.Project.ImportFrom | pycycle/utils.py:108-131 | the loop over a `from` import's names, then the edge, in place, leaves the state `GraphBuild.ImportFromModule` describes |
| ProjectReader.Project.ScanEvent | pycycle/utils.py:89-133 | one statement, in place, leaves the state `GraphBuild.ScanEvent` describes |
| ProjectReader.Project.ScanEvents | pycycle/utils.py:89 | the loop over the walk, in place, leaves the state `GraphBuild.ScanEvents` describes and keeps the registry valid |
| ProjectReader.Project.ScanParsed | pycycle/utils.py:80-133 | a parsed file's node is got or created and its walk scanned, in place |
| ProjectReader.Project.ScanFile | pycycle/utils.py:71-139 | one file, in place, leaves the state `GraphBuild.ScanFile` describes |
| ProjectReader.ReadProject | pycycle/utils.py:47-143 | the loop over the files leaves the state `GraphBuild.ReadFiles` describes and returns its root node |
| CycleDetector.ValidIsWf | pycycle/utils.py:174-207 | the graph the reader builds meets what the detector needs: edges in range, one line per edge, and no parent links yet |
| CycleDetector.Ascend | pycycle/utils.py:161-167 | climbing the parent links ends at a node of the table, and at one that has a parent whenever the start has one |
| CycleDetector.AscendStops | pycycle/utils.py:161-167 | the climb ends at the start when it has no grandparent, and otherwise at an ancestor reached by one or more parent links; where it ends the node has no grandparent, or its parent bears the start's name, or it was met before, or it lies on a loop of parent links |
| CycleDetector.ContextFound | pycycle/utils.py:163-171 | for a node with a parent, the climb ends at a node its parent imports, so the line list read there is non-empty, and the import context is its first line |
| CycleDetector.ContextStopsAtSameName | pycycle/utils.py:163-165 | the climb stops at the parent when the grandparent has the starting node's name |
| CycleDetector.StopsShift | pycycle/utils.py:163-167 | the loop's stop at the node `i + 1` links above `n` is its stop at the node `i` links above `n`'s parent, once that parent has joined `seen` |
| CycleDetector.AscendFirstStop | pycycle/utils.py:161-167 | the climb ends at the first node where the loop leaves: when every node below node `k` of the climb has a grandparent and (above the start) is not yet a stop, and node `k` has no grandparent or has been met before or has a parent bearing the start's name, the climb ends exactly at node `k` |
| CycleDetector.ParentLoopStops | pycycle/utils.py:161-167 | on a loop of parent links `a -> c -> b -> a`, the shape left by a cycle of three modules, the climb from `a` passes `c` and stops at `b`, whose parent bears `a`'s name |
| CycleDetector.GetImportContext | pycycle/utils.py:154-171 | the loop that climbs the parents returns the import context function's line |
| CycleDetector.ContextMatches | pycycle/utils.py:196-200 | the nested loops over the previous item's function imports find a match exactly when some imported name is defined in the item before the import context line |
| CycleDetector.VisitItem | pycycle/utils.py:190-201 | visiting an item sets its parent to the current node and changes nothing else except possibly its in-context flag; marks are unchanged |
| CycleDetector.VisitItemContext | pycycle/utils.py:191-201 | the item's in-context flag is set after the visit exactly when it was set before or the item is marked, there is a previous item, and that item imports a name the item defines before the import context line |
| CycleDetector.NoNamesNoContext | pycycle/utils.py:196-201 | when the previous item imports no names with `from`, a visit only sets the parent |
| CycleDetector.Visit | pycycle/utils.py:187-203 | the inner loop over the first `k` imports keeps the graph well formed and the marks unchanged; the previous item becomes the last item visited |
| CycleDetector.Budget | pycycle/utils.py:205 | the number of expansions left is at most twice the number of nodes |
| CycleDetector.Expand | pycycle/utils.py:183-205 | expanding a node visits all its imports and then marks it once more, which uses up one expansion |
| CycleDetector.Run | pycycle/utils.py:174-207 | the walk keeps the graph well formed, only ever sets parents, raises marks and sets in-context flags, and reports a cycle only if some node is marked twice and not in context |
| CycleDetector.RunStep | pycycle/utils.py:182-205 | popping an unfinished node expands it and pushes its imports in order in its place |
| CycleDetector.Expansions | pycycle/utils.py:180-207 | the walk expands at most twice as many nodes as the table holds before it answers |
| CycleDetector.MutualImportIsCycle | pycycle/utils.py:174-207 | two modules that import each other are reported as a cycle |
| CycleDetector.ExpandOne | pycycle/utils.py:183-205 | expanding a node with a single import visits that import, marks the node once more, and leaves that import as the previous item |
| CycleDetector.RunOne | pycycle/utils.py:182-205 | from a one-node stack whose node has a single import, the walk moves on to that import with it as the previous item |
| CycleDetector.GuardedVisit | pycycle/utils.py:190-201 | when `b` visits `a` again, `a` gets `b` as its parent and is flagged in context, because `b` imports from `a` a name `a` defines before the import context line |
| CycleDetector.GuardedMutualNotCycle | pycycle/utils.py:174-207 | two modules that import each other are not reported when one only imports, with `from`, a name the other defines before the line at which that other imports it |
| CycleDetector.VisitItemAt | pycycle/utils.py:190-201 | one visit, as the program runs it, gives the state `VisitItem` describes |
| CycleDetector.VisitImports | pycycle/utils.py:187-203 | the inner loop gives the state and previous item `Visit` describes, and pushes the imports in order |
| CycleDetector.CheckIfCyclesExist | pycycle/utils.py:174-207 | the detector, run in place on the project's table, returns the answer and leaves the table `Run` describes |
| CyclePaths.Hops | pycycle/utils.py:219-225 | a path of `i` nodes has `i - 1` hops |
| CyclePaths.HopsAt | pycycle/utils.py:219-225 | hop `j` names node `j + 1` and the first line at which node `j` imports it |
| CyclePaths.PathText | pycycle/utils.py:210-231 | the text is empty exactly when the path has at most one node |
| CyclePaths.FirstLineIs | pycycle/utils.py:224 | the line list read for a hop is non-empty and its first entry is the hop's line |
| CyclePaths.FormatPath | pycycle/utils.py:210-231 | the loop that builds the text gives `PathText` |
| CyclePaths.CycleNodesChain | pycycle/utils.py:234-243 | what the descent collects is a chain of import edges that extends what was collected, and starts at an import of the root |
| CyclePaths.CycleNodesDistinct | pycycle/utils.py:236-239 | the collected nodes have distinct full paths |
| CyclePaths.CycleNodesFromRoot | pycycle/utils.py:234-243 | from the root, the descent collects an import chain starting at one of the root's imports, with distinct paths, no longer than the number of paths |
| CyclePaths.GetCyclePath | pycycle/utils.py:234-243 | the tail-recursive descent, run as a loop, returns the text `CyclePathText` describes |
| CyclePaths.MutualImportText | pycycle/utils.py:234-243 | for two modules that import each other, the report is `b -> a: Line n =>> b`, with `n` the line at which `b` imports `a` |
| CyclePaths.SharedLeafReportedAsCycle | pycycle/utils.py:236-239 | on an acyclic diamond the descent as written collects `[b, d]`, whose last module does not import the first, and still reports a non-empty cycle text |
| CyclePaths.ClosedCycleNodesCloses | pycycle/utils.py:234-243 | the corrected descent reports only import chains whose last module imports the first one again |
| CyclePaths.SharedLeafNotReported | pycycle/utils.py:236-239 | on the same diamond the corrected descent reports nothing |
| CyclePaths.MutualImportSameReport | pycycle/utils.py:234-243 | on two modules that import each other the corrected descent reports what the program reports |
| GraphNodes.Node.constructor | pycycle/graph/nodes.py:4-13 | a new node has the given name, line and path, the given imports (or an empty list when none or an empty one is given), and no mark |
| GraphNodes.Node.Add | pycycle/graph/nodes.py:18-19 | adding an item appends it at the end of the imports |
| GraphNodes.Node.Repr | pycycle/graph/nodes.py:21-22 | a node's text is the decimal numeral of its number of imports |
| LegacyCli.Descent | pycycle/cli.py:85-94 | the descent only adds marks, never clearing one |
| LegacyCli.DescentMarksImported | pycycle/cli.py:87-92 | every node the descent marks is imported by some node |
| LegacyCli.DescentStep | pycycle/cli.py:87-92 | at one item: a marked item ends the descent with a cycle and the marks unchanged; an unmarked one is marked, leaves fewer nodes unmarked, and the descent goes on inside it when it imports anything and with the next item otherwise |
| LegacyCli.DescentDepth | pycycle/cli.py:85-94 | the descent recurses at most as many times as there are unmarked nodes |
| LegacyCli.MutualImportReported | pycycle/cli.py:85-94 | two modules that import each other are reported, both marked |
| LegacyCli.SharedLeafReported | pycycle/cli.py:85-94 | a module imported twice on one descent, with no cycle, is still reported as a cycle |
| LegacyCli.NoBacktracking | pycycle/cli.py:91-92 | the descent never returns to a later import of the root, so a self-import there is missed |
| LegacyCli.CheckIfCyclesExist | pycycle/cli.py:85-94 | the recursive detector over heap nodes returns the answer and leaves the marks `Descent` describes; it never changes any import list |

## Left out

- File system and parsing: `os.walk`, the pruning of ignored directories, `open`,
  encodings, `splitlines` and `ast.parse`/`ast.walk` are not modelled. Each file is given
  as its directory, name, source lines and the list of statements the walk yields, or as
  nothing when it cannot be read or parsed. The walk's order is whatever that list holds.
- The realpath and basename applied to the names in the ignore list are not modelled. The
  caller passes the final set of ignored names.
- Console output is left out: `click.echo`, `crayons` colours, tracebacks and the verbose
  messages. The report text carries no colour codes.
- The `cli` command group is left out: its help text, its options and its exit codes.
- `read_project`, `get_cycle_path` and `format_path` of the earlier command-line module
  (`pycycle/cli.py:23-77`, `97-111`) are left out, and with them the command's use of that
  `get_cycle_path` result (`pycycle/cli.py:158-171`). Only its `Node` class,
  `get_path_from_package_name` and `check_if_cycles_exist` are modelled.
- CycleDetector.CheckIfCyclesExist: a missing root is not modelled. `read_project` returns
  `None` when no file parses, and `check_if_cycles_exist(None)` then fails with
  `AttributeError` on the popped `None`. The method (and `CycleDetector.Run`) takes a node
  of the table.
- CyclePaths.GetCyclePath: a missing root is not modelled. `get_cycle_path(None)` fails
  with `TypeError` on iterating `None`. The method (and `CyclePaths.CycleNodes`) takes a
  node of the table.
- GraphBuild.ReadFiles: a file that cannot be opened is not modelled apart from one that
  does not parse. The program calls `open` before its `try` (`pycycle/utils.py:71`), so
  such a file ends the whole read with an exception instead of setting the error flag. In
  the model every file is readable, and only a parse failure sets the flag. The same holds
  for ProjectReader.ReadProject.
- GraphNodes.Node.constructor: the program's `Node` keeps the caller's list of imports by
  reference (`pycycle/graph/nodes.py:4-13`), so later appends are shared with the caller.
  The model copies it into a sequence, so that aliasing is not captured.
- CyclePaths.GetCyclePath: `get_cycle_path` shares its mutable default `acc` and `seen` between calls. The model
  always starts from empty ones, as the program's own callers do.
- CycleDetector.VisitImports: the program pushes each import right after visiting it. The
  model pushes them all after the inner loop. Nothing in the loop reads the stack, so the
  stack ends up the same.
- CycleDetector.Expansions: only the number of expansions is bounded (at most twice the
  number of nodes). The total number of stack pushes, one per edge of each expansion, is
  not stated.
- ProjectReader.Project.ScanFile: the root is set after the walk instead of before it.
  The walk neither reads nor sets the root, so the final state is the same.
- Module names and paths are symbolic in the scenario lemmas (`na`, `pb`, …). The literal
  names of the project's test fixtures are not used.

Where the behaviour is open to two readings, the model follows the code:

- A module name that resolves to `''` still gets a node registered under `''`
  (`pycycle/utils.py:98-103` has no guard). It also gets an edge.
- Every `from … import` statement records its names under its line
  (`pycycle/utils.py:124-128`), not only the imports inside functions.

## Findings

| source | as written | input that shows it | evidently intended | confidence | as-written member | corrected member |
|---|---|---|---|---|---|---|
| pycycle/utils.py:236-239 | every import passed over adds its path to `seen`, including imports with no imports of their own, and meeting any seen path ends the descent with the path collected so far | `a` imports `c` then `b`, `b` imports `d`, `d` imports `c`, `c` imports nothing: no cycle, yet the descent collects `b`, `d` and returns a non-empty report (`b -> d: Line 3 =>> b`, 3 being the line at which `b` imports `d`) | the descent ends only on a module already on the collected path, and the report is the cycle from that module on | not executed | CyclePaths.SharedLeafReportedAsCycle | CyclePaths.ClosedCycleNodesCloses |
