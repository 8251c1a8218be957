# Graph editor model

This project models the two graph data models of a small Python graph
editor and proves properties of them in Dafny.

**The graph engine of `PythonProject7/graph.py`.**
- Nodes are objects with a name, integer coordinates and a `neighbors`
  list that is mutated in place.
- A `Graph` holds a list of nodes and a list of directed segments, each
  segment with an identifier.
- The operations are `GetNodeByName`, `AddNode`, `AddSegment`,
  `DeleteNode`, `DeleteSegment` (the effective definition, the second one
  in the file) and `GetClosest`.
- `LoadGraphFromFile` reads the sectioned `Nodes:` / `Segments:` text
  format, given here as the sequence of lines of the file.

**The alternate model of `PythonProject7/step6.py`.**
- It has its own `Node`, `Segment` and `Graph` classes.
- `remove_node` removes every occurrence of a node together with the
  segments that touch it.
- `save_to_file` writes the tagged-line format (`NODE …` / `SEGMENT …`).
- The click handlers of `GraphApp` choose the node near a click, name new
  nodes `Nodo_k`, build `origin-destination` segments from a two-node
  selection, and remove nodes.

Nodes are compared by identity, as Python compares objects without
`__eq__`, so both `Node`s are classes. Segments are never changed once
built, so both `Segment`s are datatypes.

Modules:
- `Wrappers` holds `Option`.
- `ListOps` models `list.remove` and the filtering list comprehension.
- `StrOps` models `str.strip`, `str.split(sep)`, `startswith` and
  `str(int)`, plus an integer literal reader.
- `GraphEngine` models `graph.py`.
- `GraphLoader` models its loader.
- `Step6` models `step6.py`.
- `ExampleGraph` evaluates the engine's specification functions on the
  example graph of `PythonProject7/interface.py`.

**Graph-engine consistency.** The `GraphEngine.Graph` methods keep an
invariant, `Valid()`:
- no node is listed twice;
- every segment joins two listed nodes;
- for every ordered pair of nodes, the origin's neighbour list names the
  destination at least as often as there are segments between them.

The invariant is stated on values, by `Consistent` over a map from each
node to its neighbour list. One lemma per operation shows that the
operation's change preserves it. A consequence is that in
`DeleteSegment` the guard before removing the neighbour always holds.

**Loader.** The loader is specified by a state machine on values:
- `LoadStep` handles one line and `Load` handles all lines; `None` is the
  exception that aborts the load.
- The imperative `LoadGraphFromFile` returns `None` exactly when `Load`
  fails. Otherwise it returns a fresh, consistent graph that `Realizes`
  the result of `Load`: the same nodes in order, the same segments in
  order, and as each node's neighbours the destinations of its segments.

## Model

| member | source | states |
|---|---|---|
| ListOps.FirstIndex | PythonProject7/graph.py:65 | the position of the first element equal to `x`: it holds `x`, and `x` does not occur before it |
| ListOps.RemoveFirst | PythonProject7/graph.py:65 | `list.remove`: one element shorter; the elements before the first occurrence are kept, those after it shift down by one |
| ListOps.RemoveFirstMultiset | PythonProject7/graph.py:65 | `remove` takes exactly one occurrence of `x` out of the list's multiset |
| ListOps.RemoveFirstCons | PythonProject7/graph.py:68 | an element in front that differs from the one removed stays in front |
| ListOps.RemoveFirstAt | PythonProject7/graph.py:233 | `remove` cuts out exactly the first occurrence's position |
| ListOps.RemoveFirstDistinct | PythonProject7/graph.py:68 | in a list without repetitions, `remove` takes `x` out completely and keeps every other element, still without repetitions |
| ListOps.RemoveFirstLeaves | PythonProject7/graph.py:68 | in a list without repetitions, whatever is left after removing `x` was in the list and is not `x` |
| ListOps.RemoveFirstUndoesAppend | PythonProject7/graph.py:68 | removing an element that was just appended, and was absent before, gives back the original list |
| ListOps.RemoveFirstAfterAppend | PythonProject7/graph.py:65 | when `x` was already present, appending then removing it takes out the earlier occurrence and leaves the new one at the end |
| ListOps.Filter | PythonProject7/graph.py:60 | the comprehension: every survivor is from the list and passes the test, and every element that passes survives |
| ListOps.FilterConcat | PythonProject7/step6.py:61-62 | the survivors of a concatenation are the survivors of each part, in order, so relative order is kept |
| ListOps.FilterCount | PythonProject7/step6.py:61 | an element that passes survives with its full multiplicity; one that fails survives zero times |
| ListOps.FilterKeepsAll | PythonProject7/graph.py:60 | filtering a list whose elements all pass returns it unchanged |
| StrOps.StripLeft | PythonProject7/graph.py:195 | the result is no longer than the input and does not start with whitespace |
| StrOps.StripRight | PythonProject7/graph.py:195 | the result is no longer than the input and does not end with whitespace |
| StrOps.Strip | PythonProject7/graph.py:195 | the result neither starts nor ends with whitespace |
| StrOps.StripLeftSuffix | PythonProject7/graph.py:195 | `lstrip` keeps a suffix of the input and drops only whitespace |
| StrOps.StripRightPrefix | PythonProject7/graph.py:195 | `rstrip` keeps a prefix of the input and drops only whitespace |
| StrOps.StripIsSlice | PythonProject7/graph.py:195 | `strip` keeps one contiguous slice of the line and drops only whitespace before and after it |
| StrOps.StripEmptyIffAllSpace | PythonProject7/graph.py:195-197 | a stripped line is empty exactly when the raw line is all whitespace |
| StrOps.StripIdempotent | PythonProject7/graph.py:195 | stripping twice gives the same as stripping once |
| StrOps.StartsWith | PythonProject7/graph.py:198 | `line.startswith(prefix)`: the prefix is no longer than the line and the line's first characters are exactly the prefix |
| StrOps.Split | PythonProject7/graph.py:208 | `str.split(sep)`: at least one field; no field contains `sep`; joining the fields with `sep` gives back the input |
| StrOps.SplitCount | PythonProject7/graph.py:208 | the number of fields is one more than the number of separators |
| StrOps.SplitNoSep | PythonProject7/graph.py:212 | a string without the separator splits into itself |
| StrOps.SplitAfterField | PythonProject7/graph.py:212 | splitting `p + sep + t` gives `p` followed by the fields of `t` |
| StrOps.SplitJoin | PythonProject7/step6.py:69-72 | splitting undoes joining when no part contains the separator |
| StrOps.NatToString | PythonProject7/step6.py:69 | the decimal digits of a natural number, non-empty, without a leading zero unless the number is 0 |
| StrOps.IntToString | PythonProject7/step6.py:69 | `str(n)`: a leading `-` exactly for negatives, digits after it, and no space, comma or inner dash |
| StrOps.ParseInt | PythonProject7/graph.py:209 | reads exactly the optionally signed decimal literals; a negative value comes from a leading `-` |
| StrOps.DigitsOfNat | PythonProject7/step6.py:69 | the value of the digits printed for `n` is `n` |
| StrOps.ParseIntToString | PythonProject7/step6.py:69 | reading back `str(n)` gives `n` |
| StrOps.IntToStringInjective | PythonProject7/step6.py:139 | different integers print differently |
| GraphEngine.Node.constructor | PythonProject7/graph.py:209 | a new node has the given name and coordinates and no neighbours |
| GraphEngine.FirstIndexOf | PythonProject7/graph.py:17-21 | None exactly when the name is absent; otherwise the earliest position holding it |
| GraphEngine.LastIndexOf | PythonProject7/graph.py:37-43 | None exactly when the name is absent; otherwise the latest position holding it |
| GraphEngine.FirstIndexOfAt | PythonProject7/graph.py:18-20 | a scan that stops at the first match at `i` yields `i` |
| GraphEngine.FirstIsLastWhenUnique | PythonProject7/graph.py:38-42 | with unique names, the first-match and last-match scans agree |
| GraphEngine.DuplicateNamesDisagree | PythonProject7/graph.py:38-42 | whenever a name appears at positions `i < j`, the first-match scan of `GetNodeByName` lands at or before `i` and the last-match scan of `AddSegment` at or after `j`, so the two resolve the name to different nodes |
| GraphEngine.SqDist | PythonProject7/graph.py:92 | the square of the Euclidean distance from a node to the point, which orders nodes as the distance does, without the square root |
| GraphEngine.ClosestIndex | PythonProject7/graph.py:90-97 | a node whose squared distance is at most every other node's, and every earlier node is strictly farther |
| GraphEngine.SegCountConcat | PythonProject7/graph.py:51 | segment counts add up over concatenation |
| GraphEngine.FirstWithIdIsFirstEqual | PythonProject7/graph.py:227-233 | `remove` on the segment found by id removes that very position |
| GraphEngine.SegCountRemoveAt | PythonProject7/graph.py:233 | removing the segment at `i` lowers its own pair's count by one and no other count |
| GraphEngine.SegCountAbsent | PythonProject7/graph.py:27-31 | a pair no segment joins has count zero |
| GraphEngine.Detached | PythonProject7/graph.py:60 | the comprehension over `g.segments`, keeping in list order exactly the segments whose origin and destination both differ from the deleted node (by identity) |
| GraphEngine.DetachedProperties | PythonProject7/graph.py:60 | after the comprehension no segment touches the deleted node; every other segment survives; the survivors keep their relative order |
| GraphEngine.DetachedCount | PythonProject7/graph.py:60 | every pair not involving the deleted node keeps its segment count |
| GraphEngine.Unlinked | PythonProject7/graph.py:63-65 | the neighbour lists after the loop: each list holding the deleted node loses its first occurrence of it, every other list is unchanged |
| GraphEngine.DetachedEndpoints | PythonProject7/graph.py:60-68 | every segment that survives the deletion of a node joins two nodes that survive it |
| GraphEngine.NeighborsOf | PythonProject7/graph.py:52 | the map sends each listed node to its current neighbour list |
| GraphEngine.ConsistentAgree | PythonProject7/graph.py:10-15 | consistency depends only on the listed nodes' neighbour lists |
| GraphEngine.ConsistentAddNode | PythonProject7/graph.py:27-31 | appending a node not yet listed keeps the graph consistent |
| GraphEngine.ConsistentAddSegment | PythonProject7/graph.py:49-52 | appending a segment together with one neighbour occurrence keeps the graph consistent |
| GraphEngine.ConsistentDeleteSegment | PythonProject7/graph.py:232-236 | a segment's destination is among its origin's neighbours; cutting out the segment and one such occurrence keeps the graph consistent |
| GraphEngine.ConsistentDeleteNode | PythonProject7/graph.py:60-68 | dropping the incident segments, one occurrence from each neighbour list and the node itself leaves the nodes distinct, every segment between remaining nodes, and enough neighbour occurrences for every remaining pair |
| GraphEngine.DeleteUndoesAdd | PythonProject7/graph.py:60-68 | taking out a node that was not yet listed, right after appending it, gives back the node list and drops no segment; this is the effect of `DeleteNode` on that node itself |
| GraphEngine.NewNameUnlisted | PythonProject7/graph.py:27 | a node whose name no listed node carries is not listed, so `AddNode`'s identity check lets it in |
| GraphEngine.LookupFindsAppended | PythonProject7/graph.py:17-21 | with its name not yet taken, a node appended to the list is the one the first-match lookup of that name returns |
| GraphEngine.DeleteByNameUndoesAdd | PythonProject7/graph.py:54-70 | when no listed node has the new node's name, the name lookup of `DeleteNode` lands on the freshly added node, so `DeleteNode` by that name after `AddNode` gives back the node list and keeps every segment |
| GraphEngine.RemoveFirstKeepsDistinct | PythonProject7/graph.py:68 | removing the node from a node list without repetitions leaves no repetition |
| GraphEngine.DeleteNodeCounts | PythonProject7/graph.py:60-68 | after the deletion, every pair of remaining nodes has at least as many neighbour occurrences as segments |
| GraphEngine.UnlinkedCounts | PythonProject7/graph.py:60-65 | the same for any list of surviving nodes that were listed before and are not the deleted one |
| GraphEngine.UnlinkedPair | PythonProject7/graph.py:60-65 | for one pair of surviving nodes, the segment count is unchanged and the origin keeps every occurrence of the destination |
| GraphEngine.ConsistentFromParts | PythonProject7/graph.py:10-15 | the three parts of consistency, with neighbour lists that agree on every listed node, give consistency |
| GraphEngine.Graph.constructor | PythonProject7/graph.py:12-15 | a new graph is empty and consistent |
| GraphEngine.Graph.GetNodeByName | PythonProject7/graph.py:17-21 | the first node with the name, or None exactly when no node has it |
| GraphEngine.Graph.GetClosest | PythonProject7/graph.py:80-100 | None exactly for an empty graph; otherwise the nearest node, the earliest on ties |
| GraphEngine.Graph.AddNode | PythonProject7/graph.py:24-31 | false, with nothing changed, exactly when the node is already listed (by identity); otherwise appended at the end; names are not checked; consistency kept |
| GraphEngine.Graph.FindEndpoints | PythonProject7/graph.py:37-43 | the scan without `break`: each name resolves to the last node carrying it |
| GraphEngine.Graph.AddSegment | PythonProject7/graph.py:34-53 | true exactly when both names are known; false leaves everything unchanged; true appends one segment (id, last `name1` node, last `name2` node), appends one occurrence of the destination to the origin's neighbours even when already linked, and touches no other node |
| GraphEngine.Graph.Link | PythonProject7/graph.py:49-52 | appends the segment and its destination to its origin's neighbours, keeps the node list, and keeps consistency |
| GraphEngine.Graph.DropNeighbor | PythonProject7/graph.py:63-65 | each node's neighbour list loses the first occurrence of the deleted node if it has one, and is unchanged otherwise |
| GraphEngine.Graph.Detach | PythonProject7/graph.py:59-68 | the segments become those not touching the node, each neighbour list loses its first occurrence of the node, and the node list loses the node |
| GraphEngine.Graph.Remove | PythonProject7/graph.py:59-68 | the incident segments are dropped and the rest keep their order; one occurrence leaves each neighbour list; the node leaves the node list; consistency kept |
| GraphEngine.Graph.DeleteNode | PythonProject7/graph.py:54-70 | false, with nothing changed, exactly for an unknown name; otherwise removes the first node with that name as `Remove` states |
| GraphEngine.Graph.FindSegment | PythonProject7/graph.py:226-230 | the first segment with the id, or None exactly when there is none |
| GraphEngine.Graph.Unlink | PythonProject7/graph.py:232-236 | cuts out the segment's position; its destination was among its origin's neighbours and loses one occurrence there; consistency kept |
| GraphEngine.Graph.DeleteSegment | PythonProject7/graph.py:225-238 | false, with nothing changed, exactly when no segment has the id; otherwise removes the first such segment and one occurrence of its destination from its origin's neighbours; no other node changes |
| GraphLoader.TrimFloatLeft | PythonProject7/graph.py:209 | drops the leading space and `\t`..`\r` characters that `float()` skips; what is left does not start with one |
| GraphLoader.TrimFloatRight | PythonProject7/graph.py:209 | drops the trailing characters `float()` skips; what is left does not end with one |
| GraphLoader.TrimFloatLeftSuffix | PythonProject7/graph.py:209 | the left trim keeps a suffix and drops only characters `float()` skips |
| GraphLoader.TrimFloatRightPrefix | PythonProject7/graph.py:209 | the right trim keeps a prefix and drops only characters `float()` skips |
| GraphLoader.TrimFloat | PythonProject7/graph.py:209 | the trimmed field neither starts nor ends with a character `float()` skips |
| GraphLoader.TrimFloatIsSlice | PythonProject7/graph.py:209 | the trim keeps one contiguous slice of the field and drops only space and `\t`..`\r` on either side |
| GraphLoader.ParseCoordinate | PythonProject7/graph.py:209 | `float(field)` on a coordinate: the space and `\t`..`\r` characters around the field are dropped (not U+001C..U+001F, which `str.strip()` would drop) and an optionally signed integer literal is read; anything else is the `ValueError` (None) |
| GraphLoader.UnitSeparatorRejected | PythonProject7/graph.py:209 | a field `1` followed by U+001F, which `strip` reduces to `1`, does not read as a coordinate, as `float` raises on it |
| GraphLoader.IsHeader | PythonProject7/graph.py:198-203 | a stripped line is a section header when it starts with `Nodes:` or with `Segments:` |
| GraphLoader.ReadNodeLine | PythonProject7/graph.py:206-209 | a nodes-section line: exactly three comma-separated fields, else the unpacking error (None); both coordinates must parse, else None; otherwise one node row with the first field as its untrimmed name is appended |
| GraphLoader.ReadSegmentLine | PythonProject7/graph.py:210-213 | a segments-section line: exactly three fields, else None; when either name is unknown nothing is added; otherwise one segment row joining the last nodes carrying the two names is appended |
| GraphLoader.LoadStep | PythonProject7/graph.py:195-213 | one iteration of the loop: the line is stripped; a blank line is skipped; a `Nodes:` or `Segments:` prefix switches the mode; a data line before any header is ignored, otherwise read by the current section's reader; None is the exception that ends the load |
| GraphLoader.Run | PythonProject7/graph.py:194-214 | the `for line in file` loop: the lines are read in order from a state, and the first failing line makes the whole result None |
| GraphLoader.Load | PythonProject7/graph.py:188-222 | the result of loading a whole file: the loop run from mode `None` with no nodes and no segments |
| GraphLoader.LoadStepGrows | PythonProject7/graph.py:194-213 | reading a line only appends at most one node or segment, and every segment still joins nodes read before it |
| GraphLoader.ReadNodeLineGrows | PythonProject7/graph.py:206-209 | a node line appends exactly one node and changes nothing else |
| GraphLoader.ReadSegmentLineGrows | PythonProject7/graph.py:210-213 | a segment line appends at most one segment, between nodes read before it, and changes nothing else |
| GraphLoader.RunWellFormed | PythonProject7/graph.py:194 | every segment of a successful load joins two loaded nodes |
| GraphLoader.RunConcat | PythonProject7/graph.py:194 | reading `a + b` is reading `a`, then `b` from where `a` stopped; an error in `a` ends the load |
| GraphLoader.NoPartialGraph | PythonProject7/graph.py:219-222 | once a prefix of the file fails, the whole file fails: never a partial graph |
| GraphLoader.LoadPrefix | PythonProject7/graph.py:194 | loading one more line is reading that line from where the shorter load stopped |
| GraphLoader.LoadAborts | PythonProject7/graph.py:219-222 | a load that fails at some line fails as a whole |
| GraphLoader.BlankLineSkipped | PythonProject7/graph.py:195-197 | an all-whitespace line changes nothing |
| GraphLoader.HeaderAddsNothing | PythonProject7/graph.py:198-203 | a `Nodes:` or `Segments:` line switches the mode and adds no data |
| GraphLoader.DataBeforeHeaderIgnored | PythonProject7/graph.py:193 | lines before the first header are ignored, whatever they hold |
| GraphLoader.WrongFieldCountFails | PythonProject7/graph.py:208 | in a data section, a line that does not split into exactly three fields aborts the load |
| GraphLoader.NodeLineRead | PythonProject7/graph.py:206-209 | a three-field node line succeeds exactly when both coordinates parse, and then appends that node |
| GraphLoader.SegmentLineRead | PythonProject7/graph.py:210-213 | a three-field segment line never fails; it is skipped when either name is unknown, and otherwise appends one segment between the last nodes with those names |
| GraphLoader.NeighborRowsExtend | PythonProject7/graph.py:209 | adding a node changes no neighbour list already built |
| GraphLoader.NeighborRowsNone | PythonProject7/graph.py:209 | a node no segment leaves has no neighbours |
| GraphLoader.MirrorsAgree | PythonProject7/graph.py:190 | whether a graph mirrors a read state depends only on the listed nodes' neighbour lists |
| GraphLoader.MirrorsNames | PythonProject7/graph.py:213 | the graph's node names are the names read |
| GraphLoader.MirrorsAddNode | PythonProject7/graph.py:209 | adding a new node without neighbours mirrors reading its line |
| GraphLoader.MirrorsAddSegment | PythonProject7/graph.py:213 | adding a segment and one neighbour occurrence mirrors reading its line |
| GraphLoader.AddNodeLine | PythonProject7/graph.py:206-209 | succeeds exactly when the pure reader does, and the graph then mirrors the reader's new state |
| GraphLoader.AddSegmentLine | PythonProject7/graph.py:210-213 | succeeds exactly when the pure reader does, keeps the node list, and the graph then mirrors the reader's new state |
| GraphLoader.SegmentLineMirrored | PythonProject7/graph.py:210-213 | what `AddSegment` does to the graph's values for a three-field line mirrors what reading the line does to the reader's state |
| GraphLoader.ReadLine | PythonProject7/graph.py:195-213 | one loop iteration: succeeds exactly when the pure reader does, then the graph mirrors the new state and the mode is the new state's mode |
| GraphLoader.LoadGraphFromFile | PythonProject7/graph.py:188-222 | None exactly when the pure reader fails; otherwise a fresh, consistent graph whose nodes are all fresh, holding exactly what the reader read |
| Step6.Node.constructor | PythonProject7/step6.py:12-16 | a new node has the given name and coordinates and no neighbours |
| Step6.DefaultCost | PythonProject7/step6.py:25-29 | a segment built without a cost has cost 0 |
| Step6.NodeLine | PythonProject7/step6.py:69 | the line `NODE <name> <x> <y>` and a newline, with the coordinates in decimal |
| Step6.SegmentLine | PythonProject7/step6.py:71-72 | the line `SEGMENT <name> <origin name> <destination name> <cost>` and a newline, with the cost in decimal |
| Step6.NodeLineFields | PythonProject7/step6.py:69 | a node line ends in a newline; split at spaces it gives `NODE`, the name and the two printed coordinates, which read back as the coordinates (for names without spaces) |
| Step6.SegmentLineFields | PythonProject7/step6.py:71-72 | a segment line ends in a newline; split at spaces it gives `SEGMENT`, the segment's name, both endpoint names and the printed cost, which reads back as the cost (for names without spaces) |
| Step6.Graph.constructor | PythonProject7/step6.py:38-40 | a new graph is empty |
| Step6.Graph.ResetGraph | PythonProject7/step6.py:43-46 | both lists become empty |
| Step6.Graph.AddNode | PythonProject7/step6.py:49-51 | always appends the node, with no check: one node longer, segments unchanged |
| Step6.Graph.AddSegment | PythonProject7/step6.py:54-56 | always appends the segment; nodes unchanged; no node is modified |
| Step6.Graph.RemoveNode | PythonProject7/step6.py:59-62 | the nodes other than `node` and the segments not touching it |
| Step6.Graph.SaveToFile | PythonProject7/step6.py:65-72 | exactly one line per node, then one per segment; all node lines first, in node order, then the segment lines, in segment order |
| Step6.RemoveNodeProperties | PythonProject7/step6.py:59-62 | after `remove_node` the node occurs nowhere; no segment touches it; every other node and segment survives with its multiplicity and in its original order |
| Step6.Near | PythonProject7/step6.py:154 | the click tolerance: the node is less than 10 from the click on both axes, strictly, as `abs(...) < 10` is |
| Step6.FirstHit | PythonProject7/step6.py:153-156 | None exactly when no node is within 10 on both axes; otherwise the first such node |
| Step6.NewNodeName | PythonProject7/step6.py:139 | the name `Nodo_<count + 1>` given to a node added when the graph holds `count` nodes |
| Step6.NewNodeNameInjective | PythonProject7/step6.py:139 | different node counts give different `Nodo_k` names |
| Step6.SegmentNameSplits | PythonProject7/step6.py:161 | a segment's name split at the dash gives back both endpoint names (for names without dashes) |
| Step6.GraphApp.constructor | PythonProject7/step6.py:84-93 | a new application has an empty graph and an empty selection |
| Step6.GraphApp.HitNode | PythonProject7/step6.py:176-177 | the node loop of the click handlers returns the first node near the click, or None |
| Step6.GraphApp.AddNodeWithClick | PythonProject7/step6.py:136-141 | appends one new node at the click, named from the node count, with no neighbours; segments unchanged |
| Step6.GraphApp.EnableAddSegment | PythonProject7/step6.py:145-147 | the selection becomes empty |
| Step6.GraphApp.AddSegmentWithClick | PythonProject7/step6.py:151-165 | selects at most one node per click; a miss changes nothing; the first pick is only selected; the second appends one segment `origin-destination` with the given cost and clears the selection; the selection never reaches two between clicks |
| Step6.GraphApp.RemoveNodeWithClick | PythonProject7/step6.py:174-180 | a miss changes nothing; otherwise removes the first node near the click with its segments, as `remove_node` |
| Step6.GraphApp.DesignNewGraph | PythonProject7/step6.py:183-185 | the graph becomes empty |
| ExampleGraph.ExampleNames | PythonProject7/interface.py:44-47 | the example's names are unique, and both scans resolve "C" to the third node |
| ExampleGraph.ExampleClosest | PythonProject7/interface.py:44-47 | the node nearest to (1, 1) is A; all four nodes are equally near (5, 0), and the earliest, A, wins |
| ExampleGraph.RemoveThird | PythonProject7/interface.py:51-54 | removing the third of four nodes leaves the other three in order |
| ExampleGraph.RemoveSecond | PythonProject7/interface.py:58-62 | removing C from A's neighbours [B, C] leaves [B] |
| ExampleGraph.ExampleDeleteCNodes | PythonProject7/interface.py:51-62 | deleting C leaves the nodes A, B, D; A's neighbours become [B], B's become [], D's stay [A] |
| ExampleGraph.DetachedLastTwo | PythonProject7/interface.py:61-62 | of segments 4 and 5, only 4 avoids C |
| ExampleGraph.DetachedLastFour | PythonProject7/interface.py:59-62 | of segments 2 to 5, only 4 avoids C |
| ExampleGraph.ExampleDeleteCSegments | PythonProject7/interface.py:58-62 | deleting C leaves only segments 1 and 4, in that order |

## Left out

- Tkinter and matplotlib: every plotting, drawing, dialog and canvas-binding method. This is user interface with nothing to state.
- Click modes: the canvas binding that chooses which click handler runs is not modelled. The model lets any handler be called at any time. In the application, re-entering segment mode always clears the selection first.
- File I/O: `open`, `read` and `write` are left out. The loader receives the file's lines as a sequence, and `SaveToFile` returns the lines it would write. The `FileNotFoundError` branch and the message it prints are left out.
- Exceptions in the loader other than a wrong field count or a coordinate that does not parse cannot arise from the modelled code. The generic `except` is the `None` result; the message it prints is left out.
- GraphLoader.ParseCoordinate: `float()` on a coordinate field is modelled as reading an optionally signed ASCII integer literal after trimming the whitespace `float()` skips: space and `\t` to `\r`, but not U+001C to U+001F, which `str.strip()` does drop. Any other form that `float()` accepts is not read: fractions such as `0.5` or `0.0`, exponents, `inf`, `nan`, underscore-grouped digits such as `1_000`, and non-ASCII decimal digits. Such a field makes the model's load fail as a whole (`NodeLineRead`), so a file line such as `A,0.5,1` or `A,0.0,0.0` loads in the source but makes `Load` return None in the model.
- Number conversion: whitespace is ASCII whitespace only, and coordinates are integers; Tk canvas events deliver integers, so `step6.py`'s node lines are exact.
- GraphEngine.ClosestIndex: compares squared distances instead of the floating-point square root. The order is the same for exact arithmetic; floating-point rounding is not modelled.
- The `graph.py` segment cost: the segment constructor comes from a module that is not part of this model, so segments there carry only an id and endpoints.
- Step6.SegmentLine: costs are modelled as `int` and printed with `IntToString`, but `add_segment_with_click` computes every cost with `** 0.5` (PythonProject7/step6.py:162), so in the source it is always a Python float, printed as `5.0` or `7.0710678118654755`. The cost text on every segment line that `save_to_file` writes (PythonProject7/step6.py:71-72) therefore differs from the model's. The model proves the line layout and that the field reads back as the cost, not the float's decimal form. The Euclidean cost itself is a parameter of `AddSegmentWithClick`, since it needs a floating-point square root.
- Step6.GraphApp.AddNodeWithClick: names come from the current node count, so after a removal a new node can reuse an existing name. The model states the naming rule and its injectivity in the count, not uniqueness in the graph.
- The first `DeleteSegment` in `graph.py` is left out: it is rebound by the second definition and never runs.
- No round trip between `save_to_file` and `LoadGraphFromFile` is claimed: their formats differ.
- `interface.py` is left out except for its example graph. The example appears only as lemmas about the specification functions on that graph, not as a run of the methods.

## Notes on the source

- The loader strips the whole line first and then splits it at commas without trimming the fields. So a name loses whitespace only at the line's ends: a node name loses the leading whitespace, and a segment line's destination name the trailing whitespace. Names keep the spaces next to the commas. Only the coordinates tolerate space and `\t` to `\r` on both sides, because `float()` skips those; U+001C to U+001F next to a coordinate make it fail to read.
- In `graph.py`, `AddSegment` resolves a name to the last node carrying it, while `GetNodeByName`, and so `DeleteNode`, take the first. With duplicate names the two disagree, as `DuplicateNamesDisagree` shows.
