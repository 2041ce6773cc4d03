# A verified model of libc++'s header dependency graph utilities

`utils/libcxx/graph.py` holds a small directed-graph library. The libc++
tooling uses it to read, write and search graphs of header dependencies.
It has five parts:

- `Node` and `DirectedGraph`: a set of nodes. Each node has a string id, a
  set of outgoing edges and a dictionary of string attributes.
- `DotEmitter` and `toDot`: write a graph in a restricted subset of the
  Graphviz DOT language, with one `id [ k="v", ... ];` line per node and one
  `a -> b;` line per edge.
- `DotReader` and `fromDot`: read that subset back, one regular expression
  per kind of line.
- `BFS`: a breadth-first work list. It is a visited set and a FIFO queue.
- `CycleFinder`: for a node `s`, does a breadth-first search from `s` and
  reports the search-tree path of every reached node that has an edge back
  to `s`. That path is the one on which the search first reached the node. `findCyclesInGraph` does this for every node.

The model keeps the source's form. `DirectedGraph`, `DotEmitter`,
`DotReader` and `BFS` (named `Bfs` in the model) are Dafny classes whose
methods update their fields; `CycleFinder` is a class holding its graph,
which no method changes. The source's loops are `while`/`for` loops with invariants.
Each method is proved against a pure specification function, and the
properties the library promises are proved as lemmas about those
functions.

Modules, in dependency order:

- `Wrappers`: `Option` and `Result`.
- `Text`: `str.strip`, `str.split`, `str.splitlines`, `str.join` and the
  blank-line filter `parse` applies. Whitespace (`\s` and `strip`) is the
  set `str.isspace()` accepts, and the line boundaries are the ones
  `splitlines` recognises; `\w` keeps its ASCII meaning.
- `Order`: Python's string order, which `sort` uses, and listings. A listing
  is a sequence that holds every element of a set exactly once. Iterating
  over a set or a dictionary is modelled as an arbitrary listing.
- `Graph`: the node records, the pure graph operations `InsertNode`,
  `InsertEdge` and `DeleteNode` with their properties, and the class
  `DirectedGraph`. Its invariant `Valid` says that every edge ends at a node
  of the graph.
- `Dot`: the text the emitter writes (`DotText`, for a given layout); the
  five line patterns as recognisers; and the reader as a function,
  `ParseText`.
- `DotLemmas`: each recogniser is exact. It matches a line precisely when
  the line has the shape its regular expression describes. It also shows
  which near-misses are rejected, such as an edge without whitespace
  around `->`.
- `RoundTrip`: `fromDot(toDot(g))` rebuilds `g`, provided the names, ids,
  keys and values survive the format.
- `DotCodec`: the classes `DotEmitter` and `DotReader`, and the methods
  `ToDot` and `FromDot`, each proved equal to the functions in `Dot`.
- `ReaderFacts`: the reader behaviours users rely on. These are the
  last-value-wins rule for attributes, the undeclared-endpoint abort, blank lines being dropped, and text after the
  closer being ignored.
- `Traversal`: the class `Bfs`.
- `Cycles`: the class `CycleFinder`, with its specification (`CycleReport`)
  and the search invariant. Part of that invariant is breadth-first: the
  FIFO queue holds paths in order of length, so every recorded path is a
  shortest walk from `s`, and so is every reported cycle path.

Error conditions are modelled as `Result` failures wherever the library's
callers can observe them:

- `addEdge` and `removeNode` on absent nodes;
- `getNodeByLabel` with a missing label or an ambiguous label;
- every abort of `parse`.

The assertions that guard an internal invariant are preconditions:
`push_back`'s "not yet visited", `pop_front`'s "non-empty" and
`DotEmitter.addNode`'s "no line for this id yet". So is
`findCycleForNode`'s requirement that its argument is a node.

## Model

| member | source | states |
|---|---|---|
| Graph.DirectedGraph.constructor | utils/libcxx/graph.py:143-145 | a new graph has the given name and no nodes, and satisfies the closed-edges invariant |
| Graph.DirectedGraph.SetName | utils/libcxx/graph.py:147-148 | `setName` replaces the name and leaves the nodes untouched |
| Graph.DirectedGraph.GetNode | utils/libcxx/graph.py:153-155 | `getNode(id)` finds a node exactly when `id` is in the graph, and then returns that node |
| Graph.DirectedGraph.GetNodeByLabel | utils/libcxx/graph.py:157-163 | succeeds iff every node has a `label` and at most one matches; `None` iff none matches; `k` iff `k` is the only match; a failure names an unlabelled node or two distinct matches |
| Graph.DirectedGraph.AddEdge | utils/libcxx/graph.py:165-170 | succeeds iff both ends are nodes, and then adds exactly the pair (src, dst) to the edges; otherwise it fails and changes nothing |
| Graph.DirectedGraph.AddNode | utils/libcxx/graph.py:172-173 | the graph becomes `InsertNode` of the old one: a repeated id is discarded |
| Graph.DirectedGraph.RemoveNode | utils/libcxx/graph.py:175-182 | succeeds iff the id is present, and then the graph becomes `DeleteNode` of the old one; an absent id fails and changes nothing |
| Graph.InsertNodeProperties | utils/libcxx/graph.py:172-173 | adding a node adds its id, creates no edge, keeps the graph closed, records the attributes of a new node, and changes nothing for a repeated id |
| Graph.InsertEdgeProperties | utils/libcxx/graph.py:165-170 | adding an edge between two nodes keeps the ids and the attributes, keeps the graph closed, and adds exactly one pair to the edge relation |
| Graph.InsertEdgeIdempotent | utils/libcxx/graph.py:125-126 | adding the same edge twice is the same as adding it once (edges form a set) |
| Graph.DeleteNodeProperties | utils/libcxx/graph.py:175-182 | after removal, the id is gone and no edge points to it; every other node, edge and attribute is kept; the graph stays closed |
| Order.SortIds | utils/libcxx/graph.py:40-41 | the keys in strictly ascending string order, each key once |
| Order.AscendingListingUnique | utils/libcxx/graph.py:40-41 | a set has only one strictly ascending listing, so the emitter's node order is determined |
| Order.Enumerate | utils/libcxx/graph.py:186 | iterating over a set visits every element exactly once |
| Dot.CollectAttributes | utils/libcxx/graph.py:88-92 | a failure always names a chunk of the list that the attribute pattern does not match |
| Dot.ParseIntoClosed | utils/libcxx/graph.py:60-72 | every graph a parse yields is named, and each of its edges ends at one of its nodes |
| DotLemmas.MatchIntroducerExact | utils/libcxx/graph.py:106-112 | the introducer pattern accepts a line and yields `name` iff the line is `digraph "name"`, with whitespace before `{` and only whitespace around it |
| DotLemmas.MatchNodeExact | utils/libcxx/graph.py:95-99 | the node pattern yields (id, body) iff the line is a word id, whitespace, `[body]` with no `]` inside, then `;` with optional whitespace |
| DotLemmas.MatchEdgeExact | utils/libcxx/graph.py:74-78 | the edge pattern yields (a, b) iff the line is word `a`, whitespace, `->`, whitespace, word `b`, then `;` |
| DotLemmas.MatchAttributeExact | utils/libcxx/graph.py:85-89 | an attribute chunk yields (k, v) iff it starts with a word `k`, then `="`, a non-empty `v` with no quote, and `"` |
| DotLemmas.CloserExact | utils/libcxx/graph.py:114-117 | a line is the closer iff it is `}` with only whitespace around it |
| DotLemmas.MatchEdgeComplete | utils/libcxx/graph.py:75 | every line of the documented edge shape is accepted, with its two ids |
| DotLemmas.MatchNodeComplete | utils/libcxx/graph.py:96 | every line of the documented node shape is accepted, with its id and body |
| DotLemmas.EdgeNeedsSpace | utils/libcxx/graph.py:75 | `a->b;` without whitespace around the arrow is not an edge line |
| DotLemmas.NodeNeedsBracket | utils/libcxx/graph.py:96 | an id followed by anything but `[` is not a node definition |
| DotLemmas.EdgeLineIsNoNode | utils/libcxx/graph.py:67-68 | an emitted edge line is never taken for a node definition |
| DotLemmas.BareNodeLineIsNoStatement | utils/libcxx/graph.py:27 | the `id;` line written for a node without attributes matches no pattern of the reader |
| DotLemmas.CloserIsNoStatement | utils/libcxx/graph.py:115 | `}` is the closer and matches neither statement pattern |
| DotCodec.TemplateStrip | utils/libcxx/graph.py:45-50 | stripping the filled-in template leaves exactly the introducer, the node lines, the edge lines and `}` |
| DotCodec.DotEmitter.constructor | utils/libcxx/graph.py:17-20 | a new emitter has the given name, no node strings and no edge strings |
| DotCodec.DotEmitter.AddNode | utils/libcxx/graph.py:22-29 | the id must be new; its line lists every attribute once, in some dictionary order, and nothing else changes |
| DotCodec.DotEmitter.AddEdge | utils/libcxx/graph.py:31-33 | exactly the line `a -> b;` is appended to the edge strings |
| DotCodec.DotEmitter.Emit | utils/libcxx/graph.py:39-50 | the document holds the node lines in strictly ascending id order, each once, followed by the edge lines in insertion order |
| DotCodec.EmitNode | utils/libcxx/graph.py:186-189 | one node contributes its own line and one edge line per outgoing edge, each edge once |
| DotCodec.ToDot | utils/libcxx/graph.py:184-190 | the text is `DotText` of the graph for a layout that is admissible for that graph |
| DotCodec.DotReader.constructor | utils/libcxx/graph.py:54-55 | a new reader holds a fresh graph with no name and no nodes |
| DotCodec.DotReader.ParseIntroducer | utils/libcxx/graph.py:106-112 | accepts iff the introducer pattern matches, and then sets exactly the graph's name |
| DotCodec.DotReader.ParseAttributes | utils/libcxx/graph.py:84-93 | agrees with the attribute-list function that the lemmas in `ReaderFacts` describe |
| DotCodec.DotReader.ParseNodeDefinition | utils/libcxx/graph.py:95-104 | not a node line: no change; a bad attribute: abort with no change; otherwise the node is added as `InsertNode` |
| DotCodec.DotReader.ParseEdgeDefinition | utils/libcxx/graph.py:74-82 | not an edge line: no change; both ends declared: the edge is added; otherwise abort with no change |
| DotCodec.DotReader.ParseStatement | utils/libcxx/graph.py:67-68 | the node-or-edge test of the loop condition has the effect the statement function describes, on the reader's own graph |
| DotCodec.DotReader.ParseStatements | utils/libcxx/graph.py:67-72 | the statement loop and the closer test produce what `Scan` specifies |
| DotCodec.DotReader.Parse | utils/libcxx/graph.py:60-72 | `parse` produces what `ParseInto` specifies and returns the reader's own graph |
| DotCodec.FromDot | utils/libcxx/graph.py:192-195 | succeeds iff `ParseText` does; then it returns a fresh closed graph equal to the specified value, and otherwise the same error |
| RoundTrip.AttrTextsAt | utils/libcxx/graph.py:25 | the i-th attribute string is `k="v"` for the i-th key of the dictionary order and its value |
| RoundTrip.NodeLinesAt | utils/libcxx/graph.py:40-42 | the i-th node line is the line `addNode` builds for the i-th id listed; `emit` lists the ids in sorted order |
| RoundTrip.EdgeLinesAt | utils/libcxx/graph.py:31-33 | the i-th edge line is `a -> b;` for the i-th edge added |
| RoundTrip.RoundTrip | utils/libcxx/graph.py:184-195 | for a round-trippable graph and every emitter layout, reading back what `toDot` writes yields the same name, ids, attributes and edges |
| ReaderFacts.LastChunkWins | utils/libcxx/graph.py:88-92 | a later chunk for a key overrides the value given earlier |
| ReaderFacts.BadChunkAborts | utils/libcxx/graph.py:88-91 | the first chunk that does not match aborts the attribute list, whatever follows it |
| ReaderFacts.CloserIsNoNodeOrEdge | utils/libcxx/graph.py:67-70 | a closer line never matches a statement pattern, so it always ends the loop |
| ReaderFacts.TextAfterCloserIgnored | utils/libcxx/graph.py:67-72 | the lines after the first closer do not affect the result |
| ReaderFacts.UndeclaredEndAborts | utils/libcxx/graph.py:75-81 | any line the edge pattern matches whose ends are not both declared aborts the parse with that edge, whatever follows |
| ReaderFacts.EdgeIsNoNode | utils/libcxx/graph.py:67-68 | a line the edge pattern matches never matches the node-definition pattern, so trying node definitions first never hides an edge |
| ReaderFacts.BareNodeEndsParse | utils/libcxx/graph.py:67-71 | a bare `id;` line makes the parse fail with "no closing }" |
| ReaderFacts.RedeclaredNodeKept | utils/libcxx/graph.py:101-103 | redefining a declared node has no effect on the result |
| ReaderFacts.BlankLines | utils/libcxx/graph.py:61 | a line of whitespace alone contributes no line |
| ReaderFacts.BlankLineDropped | utils/libcxx/graph.py:61 | a blank line between two others is dropped |
| Traversal.Bfs.constructor | utils/libcxx/graph.py:210-213 | nothing is visited or queued, and the start is recorded |
| Traversal.Bfs.Empty | utils/libcxx/graph.py:218-219 | true iff the queue is empty, iff every visited node has already been taken off the queue |
| Traversal.Bfs.PushBack | utils/libcxx/graph.py:221-224 | an unvisited node becomes visited and is queued at the back; the work list stays consistent |
| Traversal.Bfs.MaybePushBack | utils/libcxx/graph.py:226-229 | the node is visited afterwards, and it is queued iff it was not visited before |
| Traversal.Bfs.PopFront | utils/libcxx/graph.py:231-235 | on a non-empty queue, returns and removes the head; the visited set is unchanged |
| Traversal.Bfs.Seen | utils/libcxx/graph.py:237-238 | true iff the node was visited, iff it was queued at some point |
| Cycles.CycleFinder.constructor | utils/libcxx/graph.py:243-244 | the finder holds the given graph |
| Cycles.ReportNonEmpty | utils/libcxx/graph.py:269 | a full report is non-empty iff the node lies on a cycle, which is what `if cycle :=` tests |
| Cycles.ReportSelfLoop | utils/libcxx/graph.py:262-263 | a self-loop on `s` is reported as the one-node cycle `[s]` |
| Cycles.SearchComplete | utils/libcxx/graph.py:252-264 | once every visited node is taken off the queue, the recorded paths are the full report, each a shortest walk to its node |
| Cycles.SearchStep | utils/libcxx/graph.py:252-263 | one round of the outer loop keeps the search invariant and the breadth-first invariant (every recorded path is a shortest walk; queued path lengths never decrease and differ by at most one), and it either visits a new node or shortens the queue |
| Cycles.Frontier | utils/libcxx/graph.py:252-254 | when the head of the FIFO queue is taken, no unvisited node is reachable from `s` in fewer steps than one more than the head's path, and the rest of the queue lies within one step of the head |
| Cycles.PushShortest | utils/libcxx/graph.py:258-260 | queueing a newly seen node at the back with the current path extended to it keeps every recorded path shortest and the queue layered |
| Cycles.Expand | utils/libcxx/graph.py:255-263 | following every edge of the node just taken off the queue keeps the search invariant and the breadth-first invariant, with that node now done |
| Cycles.VisitEdge | utils/libcxx/graph.py:256-263 | one edge: an unseen target is queued with the path extended to it, and an edge back to the start records the current path; the edge-loop and breadth-first invariants are kept |
| Cycles.EdgeStep | utils/libcxx/graph.py:256-263 | the value-level effect of one edge preserves the edge-loop invariant |
| Cycles.FoundStep | utils/libcxx/graph.py:268-270 | keeping a non-empty answer for a new node preserves the collection invariant |
| Cycles.CycleFinder.CollectNode | utils/libcxx/graph.py:267-270 | one round of `findCyclesInGraph`'s loop: after asking for the next node's answer, the collection invariant holds for one more node |
| Cycles.CycleFinder.FindCycleForNode | utils/libcxx/graph.py:246-264 | every path returned starts at `s`, follows edges, has no repeated node and ends at a node with an edge back to `s`; there is exactly one such path for each reachable node with an edge to `s`, and no walk from `s` reaches that node in fewer steps (the breadth-first first arrival); the result is non-empty iff `s` is on a cycle; a self-loop gives `[s]` |
| Cycles.CycleFinder.FindCycleForNodeAsWritten | utils/libcxx/graph.py:252-253 | under Python 3 the loop never stops on its own, and ends in `pop_front`'s assertion on the empty queue |
| Cycles.CycleFinder.FindCyclesInGraph | utils/libcxx/graph.py:266-271 | each pair is a node on a cycle with its full non-empty report of shortest witnesses, no node appears twice, and the nodes listed are exactly the nodes on a cycle |

## Left out

- File I/O: `fromDotFile` and `toDotFile` only read or write a file around `fromDot` and `toDot`.
- `Node.__str__`, `Node.__repr__` and `DirectedGraph.__repr__` are not modelled. They are display helpers, and `__repr__` is `toDot`.
- `DotEmitter.node_key` is never called, and its assertion compares against a literal string, not a regular expression.
- `abortParse`, the unused imports and `platform`/`os` are not modelled. Aborts are `ParseError` values.
- Python-2 idioms: `node.attributes.iteritems()` and `keys().sort()` would raise under Python 3. The model gives them their evident meaning: every attribute once, in dictionary order, and the keys in ascending order.
- Regular expressions are modelled pattern by pattern. `\s` and `strip()` use the whitespace of `str.isspace()`, and `splitlines` uses its full set of line boundaries. `\w` is given its ASCII meaning (letters, digits, `_`): the non-ASCII letters and digits that `\w` also matches over `str` are not modelled, so a line such as `é -> b;` matches the source's edge pattern but not the model's.
- The iteration order of sets and dictionaries is left open: every statement holds for every order. For `toDot` that order lives in a ghost `Layout` that the model fixes nowhere. The order of the edge lines is therefore unconstrained.
- Nodes are identified by their id, and the model's methods accept ids only. `Node.__eq__` and `__hash__` make a `Node` and its id compare equal, which the `n in self.nodes` tests rely on. `_getNode` on an id is `getNode`. Given a `Node` handle, `_getNode` returns the handle itself (graph.py:151), and `addEdge` then adds the edge to that object (graph.py:170), which need not be the object the graph stores under that id. `Node` handles and this aliasing are not modelled.
- `Graph.DirectedGraph.constructor` and `Graph.DirectedGraph.AddNode`: the constructor's `nodes=` argument (graph.py:143-145) is not modelled, so a graph starts empty. `AddNode` adds a node with the given attributes and no edges; a `Node(id, edges=...)` built with edges of its own (graph.py:120-122) and then passed to `addNode` (graph.py:172-173) is not modelled. Such edges could name nodes outside the graph, which the invariant `Valid` excludes.
- `Graph.DirectedGraph.GetNodeByLabel`: which of the two errors is reported when both an unlabelled node and a second match exist depends on the iteration order, so the contract does not say which.
- `DotCodec.DotReader.Parse`: after an abort the reader's partially built graph is left as the statements before the abort made it, as in the source. The contract only states the error.
- `RoundTrip.RoundTrip` holds only for graphs that survive the format:
  - the name is non-empty and has no `"` and no line break;
  - ids and keys are words;
  - values are non-empty and have no `"`, `,`, `]` or line break;
  - every node has at least one attribute.

  A node without attributes is written as `id;`, which the reader rejects (`ReaderFacts.BareNodeEndsParse`). So is a graph emitted without a name, whose introducer reads `digraph "None"` and comes back named `"None"`.
- `Traversal.Bfs.PushBack` and `Traversal.Bfs.PopFront`: their assertions are preconditions, not modelled failures.
- `DotCodec.DotEmitter.AddNode`: its assertion that the id has no line yet (graph.py:28) is a precondition, not a modelled failure.
- `Cycles.CycleFinder.FindCycleForNode`: its assertions are preconditions, not modelled failures. These are `n in self.graph.nodes`, and `n in all_paths`, which the search invariant implies.
- `Cycles.CycleFinder.FindCycleForNode` returns the search paths as id sequences. The source's lists of `Node` objects carry the same ids.

## Findings

| source | as written | input that shows it | evidently intended | confidence | as-written member | corrected member |
|---|---|---|---|---|---|---|
| utils/libcxx/graph.py:252 | `BFS` (lines 215-216) defines only `__nonzero__`, which Python 3 ignores, and neither `__bool__` nor `__len__`, so `while bfs:` is always true. After the last node is expanded, `pop_front` fails its assertion on the empty queue. The walrus operator at line 269 makes this Python 3 code. | `findCycleForNode(s)` on any graph, e.g. the single node `s` with no edges | loop while the queue is non-empty (`while not bfs.empty()`) | not executed; high | Cycles.CycleFinder.FindCycleForNodeAsWritten | Cycles.CycleFinder.FindCycleForNode |
