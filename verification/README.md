# DewGraph core, modelled in Dafny

This project models `Graph.cs` of the DewGraph library: an in-memory directed graph
whose vertices live in a `NodeList` (a dictionary from a vertex's unique identifier
to the vertex), each vertex carrying its own outgoing-edge `NodeList` and a
`NodeDecoration` that the traversals use as working state. The model covers:

- the vertex collection: `Add`, `Contains`, `GetNode`, `Remove`, `RemoveNode`, `RemoveNode(predicate)`, `Count`;
- the edge operations of `Node`;
- `Graph`'s vertex operations;
- `Reset`, `BFS`, `ShortPathBFS`, `DFS` with its recursive `DFSVisit`, `IsAcyclic`, `IsConnected`;
- `Traspose`.

The model is an arena. A vertex is its identifier. `NodeLists.NodeList` is a class with:

- `keys`, the dictionary's keys in enumeration order;
- `edges`, each member's list of edge-target identifiers in enumeration order;
- `deco`, each member's decoration.

Both kinds of keyed list share the functions of `KeyedLists`. `Graphs.Graph` is a class holding that collection and the `acyclic` flag.

The traversals update the decorations step by step, as the source does. Their loops
are methods with invariants, proved against specifications stated over the edge
relation (`Digraphs`: paths, `Reachable`, `HasCycle`):

- `BfsSpec` holds the breadth-first tree, levels and frontier.
- `DfsSpec` holds the stamps, the gray stack, the search forest, and the no-back-edge ranking.
- `Transposition` holds the transposed edge lists.

Behaviour of the code that the model keeps on purpose:

- **BFS distances.** `BFS` and `ShortPathBFS` copy the ancestor's distance instead of adding one. Every vertex they reach therefore ends with distance 0. The hop count lives only in the model's ghost `level` map, which is proved to be the shortest distance.
- **End equals start.** A search whose `end` is `start` returns null, because `start` is never given an ancestor.
- **ShortPathBFS's stop flag.** The flag is overwritten on every discovery, and the loop tests it only after a whole edge list has been scanned.
- **The acyclic flag.** `_acyclic` is never set back to true. `IsAcyclic` therefore reports "no cycle now and none found by any earlier search".
- **IsConnected.** It counts the DFS roots. So it answers whether every vertex is reachable from the first vertex enumerated; this is proved.
- **Edge removal.** `Node.RemoveEdge` goes through `NodeList.RemoveNode`, which clears the removed item's own edge list. Dropping the edge u -> t therefore also empties t's outgoing edges.
- **Equality.** The traversals' `current != start` (Graph.cs:207, 299) and `v == end` (Graph.cs:309) compare `INode` values. C# resolves operators on interface types to reference equality, so `Node`'s identifier `==` (Graph.cs:460-467) is not used there. The model compares ids. That is the same test under the one-object-per-id assumption listed under Left out.

## Model

| member | source | states |
|---|---|---|
| KeyedLists.Insert | DewGraph/DewGraph/src/Graph.cs:36-39 | adding a key is refused exactly when it is already present; otherwise the key is appended last, the others are kept, and distinctness is preserved |
| KeyedLists.Delete | DewGraph/DewGraph/src/Graph.cs:82-90 | removal drops exactly the given key, keeps distinctness, shortens by one when the key was present and changes nothing otherwise |
| KeyedLists.DeleteSplices | DewGraph/DewGraph/src/Graph.cs:82-90 | removing a key at position i leaves the keys before and after it, in their order: the enumeration with that one entry spliced out |
| KeyedLists.DeleteUndoesInsert | DewGraph/DewGraph/src/Graph.cs:36-39 | adding a fresh key and then removing it restores the original key sequence |
| KeyedLists.DistinctCardinality | DewGraph/DewGraph/src/Graph.cs:30 | a repetition-free key enumeration has as many entries as the dictionary has keys |
| NodeLists.FirstMatch | DewGraph/DewGraph/src/Graph.cs:104-118 | the foreach-with-break search: None exactly when no member satisfies the predicate, otherwise the first member in enumeration order that does |
| NodeLists.FirstOnly | DewGraph/DewGraph/src/Graph.cs:261-273 | `GetVertex(predicate)` as written: it answers only when the first enumerated vertex matches, and then agrees with `FirstMatch` |
| NodeLists.FirstOnlyMissesLaterMatch | DewGraph/DewGraph/src/Graph.cs:264-271 | with keys [1, 2] and a predicate matching only 2, the as-written search finds nothing while a matching vertex exists |
| NodeLists.AfterEdgeRemoval | DewGraph/DewGraph/src/Graph.cs:442-445 | dropping target t from u's edges keeps the vertex set, leaves other vertices alone, removes t from u's list, keeping the other targets in order, and empties t's own list, since `RemoveNode` clears the removed item's edges (so a self-loop leaves u with no edges) |
| NodeLists.NodeList.constructor | DewGraph/DewGraph/src/Graph.cs:29 | a new collection is empty and well formed |
| NodeLists.NodeList.Count | DewGraph/DewGraph/src/Graph.cs:30 | the count is the number of identifiers held, equal to the length of the key enumeration |
| NodeLists.NodeList.Contains | DewGraph/DewGraph/src/Graph.cs:46-49 | true exactly when a member has the identifier |
| NodeLists.NodeList.GetNode | DewGraph/DewGraph/src/Graph.cs:74-80 | None (null) exactly when no member has the identifier, otherwise that member with its edges and decoration |
| NodeLists.NodeList.SetDecorations | DewGraph/DewGraph/src/Graph.cs:232-254 | stores the decorations a traversal computed, one per vertex, leaving the vertices and their edges unchanged and the collection valid |
| NodeLists.NodeList.Add | DewGraph/DewGraph/src/Graph.cs:36-39 | fails with no change exactly when the identifier is taken; otherwise appends the vertex, which `GetNode` then returns, and the count grows by one |
| NodeLists.NodeList.Remove | DewGraph/DewGraph/src/Graph.cs:82-90 | true exactly when the identifier was present; afterwards it is absent, the other members are unchanged and the count has dropped by one |
| NodeLists.NodeList.RemoveNode | DewGraph/DewGraph/src/Graph.cs:92-102 | returns the removed member with its edge list cleared, or None with no change when the identifier is absent |
| NodeLists.NodeList.RemoveNodeWhere | DewGraph/DewGraph/src/Graph.cs:104-118 | removes the first member, in enumeration order, that satisfies the predicate, returning it with its edges cleared; no change when none does |
| NodeLists.NodeList.AddEdge | DewGraph/DewGraph/src/Graph.cs:437-441 | appends target t to u's edge list, failing with no change exactly when u already has an edge to t; the vertices and decorations are untouched |
| NodeLists.NodeList.RemoveEdge | DewGraph/DewGraph/src/Graph.cs:442-445 | returns t exactly when u had an edge to t, and leaves the edges as `AfterEdgeRemoval` describes |
| NodeLists.NodeList.RemoveEdgeWhere | DewGraph/DewGraph/src/Graph.cs:446-449 | picks the first target of u, in edge-list order, whose vertex satisfies the predicate, and removes it as `RemoveEdge` does; no change when none does |
| Graphs.Graph.constructor | DewGraph/DewGraph/src/Graph.cs:141-147 | the graph wraps the given collection and starts with the acyclic flag set |
| Graphs.Graph.AddVertex | DewGraph/DewGraph/src/Graph.cs:149-153 | adds the vertex, retrievable afterwards, exactly when its identifier is new; otherwise nothing changes |
| Graphs.Graph.RemoveVertex | DewGraph/DewGraph/src/Graph.cs:155-158 | removes the vertex: its identifier leaves the enumeration, its edge list and decoration are dropped, every other vertex keeps its edges and decoration, and it is returned with its edge list cleared; None, with nothing changed, when absent |
| Graphs.Graph.RemoveVertexWhere | DewGraph/DewGraph/src/Graph.cs:160-163 | removes the first vertex, in enumeration order, that satisfies the predicate, dropping its edge list and decoration and keeping every other vertex's; None with keys, edges and decorations unchanged when none does |
| Graphs.Graph.GetVertex | DewGraph/DewGraph/src/Graph.cs:256-259 | None exactly when no vertex has the identifier, otherwise that vertex |
| Graphs.Graph.GetVertexWhere | DewGraph/DewGraph/src/Graph.cs:261-273 | `GetVertex(predicate)` as intended: the first vertex in enumeration order that satisfies the predicate, None when none does |
| Graphs.Graph.Reset | DewGraph/DewGraph/src/Graph.cs:344-351 | every vertex's decoration becomes the reset one (unvisited, maximal distance, no ancestor, zero stamps); vertices and edges are unchanged |
| Graphs.Graph.BFS | DewGraph/DewGraph/src/Graph.cs:175-216 | null exactly when `end` is `start` or unreachable from it; otherwise a shortest repetition-free walk listed from `end` back to `start`; each returned vertex's decoration names the next one as its ancestor, and the list read backwards is a path from `start` to `end`; afterwards the reachable vertices are closed with distance 0 and an ancestor edge into them, and the others keep the reset decoration; no discovered or closed stamp is written, so every stamp stays 0 |
| Graphs.Graph.ShortPathBFS | DewGraph/DewGraph/src/Graph.cs:275-318 | the same answer as `BFS`, with the returned list following the decorations' ancestor links and read backwards a path from `start` to `end`; every discovered vertex other than `start` has an ancestor with an edge into it; every vertex is left either reset, or reachable with distance 0; every discovered and closed stamp stays 0 |
| Graphs.Graph.Explore | DewGraph/DewGraph/src/Graph.cs:177-201 | the shared search leaves a breadth-first ancestor tree whose levels are shortest hop counts, the decorations in step with it, and, without the stop flag, every reachable vertex discovered and closed |
| Graphs.Graph.Search | DewGraph/DewGraph/src/Graph.cs:180-201 | the queue loop over reset decorations establishes the tree, minimal levels and decoration facts of `Explore`; with the stop flag, `end` is found or everything reachable is discovered |
| Graphs.Graph.ScanEdges | DewGraph/DewGraph/src/Graph.cs:188-199 | scanning the dequeued vertex's edge list carries the scan invariant to the end of the list; the stop flag, set only in the stopping variant, implies `end` was discovered; and the discovered set only grows, strictly unless the queue is unchanged |
| Graphs.Rebuild | DewGraph/DewGraph/src/Graph.cs:202-215 | None exactly when `end` has no ancestor; otherwise each entry's successor in the list is its recorded ancestor, and the ancestor walk is a repetition-free backward walk from `end` to `start`, one longer than `end`'s level, and no longer than any path |
| Graphs.Graph.DFS | DewGraph/DewGraph/src/Graph.cs:218-230 | the decorations satisfy `Searched`: every vertex ends closed with 1 <= discovered < closed <= 2n and the reset distance, n being the vertex count; the stamps are 1 to 2n, each used once, and nest as the parenthesis theorem says; a vertex is left without an ancestor exactly when no vertex enumerated before it reaches it, and ancestors name tree edges; the flag becomes "was set and the graph has no cycle"; the first vertex enumerated is a root, no other root is reachable from it, and if it is the only root it reaches everything |
| Graphs.Graph.DFSForest | DewGraph/DewGraph/src/Graph.cs:222-228 | the loop over the vertices in enumeration order establishes the facts of `DFS`, stamps and roots included, on the decorations it returns: each vertex lacks an ancestor exactly when no vertex enumerated before it reaches it, every discovered vertex is reached from some enumerated vertex, and the roots it records are vertices of the graph |
| Graphs.Graph.VisitRoot | DewGraph/DewGraph/src/Graph.cs:226-227 | visiting a still-white vertex adds its tree to the forest and settles it |
| Graphs.Graph.DFSVisit | DewGraph/DewGraph/src/Graph.cs:232-254 | the visit of a white vertex discovers it at time0 + 1 and closes it at the final time; every vertex it discovers is stamped after time0 and closed; every vertex it discovers is reachable from it and given an ancestor; vertices discovered before are untouched; the flag is cleared exactly when a back edge is met |
| Graphs.Graph.VisitTarget | DewGraph/DewGraph/src/Graph.cs:239-244 | a white edge target gets the current vertex as ancestor and is visited, after which the scan invariant holds one target further; vertices discovered before keep their decorations and those the visit discovers are stamped after it started |
| Graphs.Graph.ScanTarget | DewGraph/DewGraph/src/Graph.cs:237-249 | one step of the edge loop: a white target is visited, a gray one clears the flag, a closed one is passed over; the visit invariant, the current vertex's discovery stamp and the stamped-after facts carry over, and time only grows |
| Graphs.Graph.IsAcyclic | DewGraph/DewGraph/src/Graph.cs:320-324 | true exactly when the flag was still set and the graph has no cycle; the flag is left at that answer and the decorations are those `DFS` leaves (`Searched`: all closed, stamps 1 to 2n each used once and nested, a vertex without ancestor exactly when no vertex enumerated before it reaches it, tree edges, first-root facts) |
| Graphs.Graph.IsConnected | DewGraph/DewGraph/src/Graph.cs:325-342 | true exactly when the graph is empty or every vertex is reachable from the first vertex enumerated; on a non-empty graph the flag becomes "was set and no cycle" and the decorations are exactly what `DFS` promises (`Searched`, with the stamp, root-by-position, tree-edge and first-root facts); an empty graph is left untouched |
| Graphs.Graph.OnlyFirstRoot | DewGraph/DewGraph/src/Graph.cs:330-339 | with the first vertex a root, the null-ancestor count stays at most one exactly when every later vertex has an ancestor |
| Graphs.ConnectedRoots | DewGraph/DewGraph/src/Graph.cs:327-341 | after a search rooted first at the first vertex, every later vertex has an ancestor exactly when all vertices are reachable from the first |
| Graphs.Graph.Traspose | DewGraph/DewGraph/src/Graph.cs:353-369 | a new graph with the same identifiers in the same order, fresh decorations, the flag set, and edge lists equal to the transpose |
| Graphs.Graph.AddVertices | DewGraph/DewGraph/src/Graph.cs:356-360 | the first loop gives the new graph one fresh, edgeless vertex per identifier, in enumeration order |
| Graphs.Graph.AddAllSources | DewGraph/DewGraph/src/Graph.cs:361-367 | the second loop reverses the edges of every source in enumeration order |
| Graphs.Graph.AddSources | DewGraph/DewGraph/src/Graph.cs:363-366 | reversing every edge of one source appends that source to each target's list |
| Graphs.Graph.ReverseEdge | DewGraph/DewGraph/src/Graph.cs:365 | adding the reversed edge v -> u appends u to v's list and nothing else |
| Transposition.Sources | DewGraph/DewGraph/src/Graph.cs:361-367 | the sources with an edge to v, in enumeration order, with no repetition |
| Transposition.Transposed | DewGraph/DewGraph/src/Graph.cs:353-369 | the transpose has the same vertices and u in v's list exactly when there is an edge u -> v; its lists have no repetition |
| Transposition.TransposedEdge | DewGraph/DewGraph/src/Graph.cs:363-365 | an edge u -> v exists exactly when the transpose has v -> u |
| Transposition.TransposeInvolution | DewGraph/DewGraph/src/Graph.cs:353-369 | transposing twice gives the original vertices and edge relation |
| Transposition.DoneNone | DewGraph/DewGraph/src/Graph.cs:356-360 | before any source is processed every transposed list is empty |
| Transposition.DoneAll | DewGraph/DewGraph/src/Graph.cs:361-367 | once all sources are processed the lists are the transpose |
| Transposition.DoingStart | DewGraph/DewGraph/src/Graph.cs:363 | starting a source's edges changes nothing yet |
| Transposition.DoingEnd | DewGraph/DewGraph/src/Graph.cs:363-366 | finishing a source's edges completes that source |
| Transposition.DoingStep | DewGraph/DewGraph/src/Graph.cs:365 | reversing the next edge u -> v appends u, not yet present, to v's list |
| Digraphs.ClosedSetHoldsReachable | DewGraph/DewGraph/src/Graph.cs:185-201 | a vertex set closed under edges that holds the start holds every vertex reachable from it |
| Digraphs.DecreasingLabelsAcyclic | DewGraph/DewGraph/src/Graph.cs:251-253 | closing stamps that decrease along every edge rule out a cycle |
| Digraphs.BackEdgeCycle | DewGraph/DewGraph/src/Graph.cs:247-248 | an edge back to a vertex on the current path closes a cycle |
| BfsSpec.StartExploring | DewGraph/DewGraph/src/Graph.cs:179-184 | graying `start` over reset decorations establishes the queue-loop invariant |
| BfsSpec.OpenScan | DewGraph/DewGraph/src/Graph.cs:187 | dequeuing the head starts the scan of its edges |
| BfsSpec.ScanSeen | DewGraph/DewGraph/src/Graph.cs:188-190 | a target already discovered lies at most one level further and needs no change |
| BfsSpec.ScanDiscover | DewGraph/DewGraph/src/Graph.cs:190-198 | a white target is new, and graying, linking and enqueuing it one level below keeps the scan invariant |
| BfsSpec.DiscoverGrows | DewGraph/DewGraph/src/Graph.cs:192-197 | a discovery grows the tree, decorations and queue shape together |
| BfsSpec.TreeGrows | DewGraph/DewGraph/src/Graph.cs:194-195 | hanging the new vertex under `u` keeps a tree of edges, levels and reachability |
| BfsSpec.QueueGrows | DewGraph/DewGraph/src/Graph.cs:197 | enqueuing at the next level keeps the queue sorted by level, spanning two levels, repetition-free |
| BfsSpec.DiscoveryGrows | DewGraph/DewGraph/src/Graph.cs:192-196 | the new decoration is gray with the copied distance, keeps the reset's zero stamps and names its ancestor |
| BfsSpec.ColorsGrow | DewGraph/DewGraph/src/Graph.cs:192-197 | discovered vertices stay the non-white ones and gray vertices stay the queued ones |
| BfsSpec.EdgesGrow | DewGraph/DewGraph/src/Graph.cs:188-199 | every edge looked at so far still leads at most one level further |
| BfsSpec.CloseScan | DewGraph/DewGraph/src/Graph.cs:200 | closing the scanned vertex restores the queue-loop invariant |
| BfsSpec.MeasureDrops | DewGraph/DewGraph/src/Graph.cs:185-201 | each round discovers a vertex or shortens the queue, so the loop ends |
| BfsSpec.FrontierMinimal | DewGraph/DewGraph/src/Graph.cs:185-201 | under the loop invariant no path reaches a discovered vertex in fewer hops than its level |
| BfsSpec.DrainedReachClosed | DewGraph/DewGraph/src/Graph.cs:185 | when the queue runs empty every reachable vertex has been discovered |
| BfsSpec.BackWalkReversed | DewGraph/DewGraph/src/Graph.cs:206-213 | the returned list read backwards is a path from `start` to `end` |
| BfsSpec.ChainGrows | DewGraph/DewGraph/src/Graph.cs:206-212 | appending the recorded ancestor of the last entry keeps the list a chain of ancestor links |
| BfsSpec.ChainDecorated | DewGraph/DewGraph/src/Graph.cs:194-196 | a chain of links in the ancestor dictionary is also a chain of the decorations' ancestor identifiers, since both are written together |
| BfsSpec.DiscoveredTree | DewGraph/DewGraph/src/Graph.cs:192-196 | every discovered vertex other than `start` has an ancestor decoration with an edge from it |
| DfsSpec.Discover | DewGraph/DewGraph/src/Graph.cs:234-236 | stamping the vertex discovered and gray starts the scan of its edges and pushes it on the gray stack |
| DfsSpec.DiscoverApart | DewGraph/DewGraph/src/Graph.cs:234-236 | the next discovery stamp differs from every stamp already handed out, keeping the parenthesis structure, and the stamp count stays twice the closed vertices plus the stack height |
| DfsSpec.SeeClosed | DewGraph/DewGraph/src/Graph.cs:245-249 | a closed target needs nothing |
| DfsSpec.SeeGray | DewGraph/DewGraph/src/Graph.cs:247-248 | a gray target proves the graph has a cycle, so clearing the flag is right |
| DfsSpec.Descend | DewGraph/DewGraph/src/Graph.cs:239-243 | a white target, given the current vertex as ancestor, is ready to be visited on top of the stack |
| DfsSpec.AncestorApart | DewGraph/DewGraph/src/Graph.cs:241-242 | naming an ancestor changes neither the closed set nor the parenthesis structure |
| DfsSpec.Return | DewGraph/DewGraph/src/Graph.cs:243 | after the nested visit the target is closed and the scan moves on |
| DfsSpec.Finish | DewGraph/DewGraph/src/Graph.cs:251-253 | closing with the next stamp pops the vertex and keeps stamps, tree edges and finish order |
| DfsSpec.FinishApart | DewGraph/DewGraph/src/Graph.cs:251-253 | the closing stamp, given to the top of the stack, differs from every other stamp and closes the most recently opened interval, and the stamp count stays twice the closed vertices plus the stack height |
| DfsSpec.FinishTree | DewGraph/DewGraph/src/Graph.cs:251-253 | closing the top of the stack keeps every ancestor discovered first and closed last |
| DfsSpec.FinishClosed | DewGraph/DewGraph/src/Graph.cs:251-253 | after closing, every edge target of a closed vertex is discovered, and closed earlier while no back edge was met |
| DfsSpec.FinishExtends | DewGraph/DewGraph/src/Graph.cs:251-253 | closing completes what the visit did to the decorations |
| DfsSpec.ReturnExtends | DewGraph/DewGraph/src/Graph.cs:243 | a nested visit's effect is part of the enclosing visit's effect |
| DfsSpec.StampedAfterGrows | DewGraph/DewGraph/src/Graph.cs:237-244 | what a nested visit discovered lies after the enclosing visit's start too |
| DfsSpec.StampedAfterReturn | DewGraph/DewGraph/src/Graph.cs:243 | back from a nested visit, earlier-discovered vertices keep their decorations and the newly discovered are stamped after the visit began |
| DfsSpec.StampedAfterFinish | DewGraph/DewGraph/src/Graph.cs:251-253 | closing the visited vertex completes its interval: it was discovered at time0 + 1 and all it discovered lies after time0 |
| DfsSpec.WhitesShrink | DewGraph/DewGraph/src/Graph.cs:239-243 | the recursion ends: each nested visit starts with fewer white vertices |
| DfsSpec.SettledReach | DewGraph/DewGraph/src/Graph.cs:224-228 | between two root visits everything reachable from a discovered vertex is discovered |
| DfsSpec.CleanAcyclic | DewGraph/DewGraph/src/Graph.cs:247-248 | with all vertices closed and no back edge met, the graph has no cycle |
| DfsSpec.StartForest | DewGraph/DewGraph/src/Graph.cs:223 | reset decorations form the empty forest |
| DfsSpec.GrowForest | DewGraph/DewGraph/src/Graph.cs:226-227 | a visit from a white vertex adds one tree rooted there, unreachable from the first root unless first |
| DfsSpec.SkipSettled | DewGraph/DewGraph/src/Graph.cs:226 | a vertex discovered by an earlier tree is passed over |
| DfsSpec.SkipRoots | DewGraph/DewGraph/src/Graph.cs:226 | a vertex passed over was reached from an earlier-enumerated vertex, so it keeps its ancestor and the roots stay those of the vertices before it |
| DfsSpec.StartSettled | DewGraph/DewGraph/src/Graph.cs:222-223 | reset decorations start the enumeration loop with no vertex covered |
| DfsSpec.RootUnreached | DewGraph/DewGraph/src/Graph.cs:226-227 | a vertex still white when the loop reaches it is reached by no vertex enumerated before it |
| DfsSpec.GrowRoots | DewGraph/DewGraph/src/Graph.cs:226-227 | visiting a vertex nobody before it reaches makes it a new root without an ancestor, while every vertex the visit discovers is reached from it |
| DfsSpec.ReachedGrows | DewGraph/DewGraph/src/Graph.cs:226-243 | after a root visit every discovered vertex is reached from one of the vertices enumerated so far |
| DfsSpec.RootedGrows | DewGraph/DewGraph/src/Graph.cs:226-243 | after a root visit each enumerated vertex lacks an ancestor exactly when no earlier one reaches it |
| DfsSpec.RootsDone | DewGraph/DewGraph/src/Graph.cs:222-229 | after the loop, the vertex at each position has no ancestor exactly when no vertex at an earlier position reaches it |
| DfsSpec.ClosedStamps | DewGraph/DewGraph/src/Graph.cs:222-254 | once every vertex is closed, the counter stands at twice their number, stamps lie in 1 to 2n, are distinct, nest, and use each of 1 to 2n once |
| DfsSpec.ClosedApart | DewGraph/DewGraph/src/Graph.cs:232-254 | with every vertex closed, the parenthesis structure gives pairwise distinct stamps and the parenthesis theorem |
| DfsSpec.StampsExact | DewGraph/DewGraph/src/Graph.cs:222-254 | n vertices with distinct stamps in 1 to 2n use every stamp in that range |
| DfsSpec.StampListSize | DewGraph/DewGraph/src/Graph.cs:234-253 | distinct vertices with distinct stamps carry two stamps each |
| DfsSpec.StampListBound | DewGraph/DewGraph/src/Graph.cs:234-253 | stamps within 1 to n stay within 1 to n |
| DfsSpec.StampsOutside | DewGraph/DewGraph/src/Graph.cs:234-253 | a vertex not listed shares no stamp with the listed ones |
| DfsSpec.UpTo | DewGraph/DewGraph/src/Graph.cs:222 | the stamps 1 to n, n of them |
| DfsSpec.GrowForested | DewGraph/DewGraph/src/Graph.cs:226-227 | the loop state after a root visit covers one more vertex |
| DfsSpec.ForestRoots | DewGraph/DewGraph/src/Graph.cs:330-339 | once all are discovered, a root other than the first is unreachable from it, and a lone first root reaches everything |
| DfsSpec.ForestDone | DewGraph/DewGraph/src/Graph.cs:224-229 | after the loop all vertices are closed with 1 <= discovered < closed <= 2n, the stamps are exactly 1 to 2n in parenthesis structure, a vertex has no ancestor exactly when no earlier-enumerated vertex reaches it, no back edge was met exactly when there is no cycle, and the root facts hold |

## Left out

- `Dijkstra`, `ShortPathDijkstra`, `AStar` and `WAStar`: the source only throws `NotImplementedException` or returns null. The `OrderHelpType` helper and the edge weight serve only them.
- Topological sort, strongly connected components and predicate-filtered BFS variants: `Graph.cs` does not implement them.
- The `Grade`, `In` and `Out` counters that `IPathDecoration` declares (Interfaces.cs:113-121): `NodeDecoration` (Graph.cs:11-26) defines none of them, and no code in `Graph.cs` reads or writes them.
- `NodeList.Clear`, `CopyTo`, the enumerators, `IsSynchronized` and `IsReadOnly`: these are plumbing, with no behaviour beyond the dictionary's. `Node.Equals` and `GetHashCode` are left out for the same reason.
- The vertex value payload and the `weight` field: no operation here reads them.
- The `anchestors` dictionary of `DFS`: it is written and never read.
- Dictionary slot reuse: after removals, .NET may enumerate a later-added key in a freed slot. The model always appends new keys at the end of the enumeration.
- Object identity: vertices are identified by id. Two distinct node objects with one id, edges to vertices of another graph, and the reference-keyed ancestor dictionaries are not modelled.
- Graphs.Graph.DFSVisit: the `uint` stamp counter is unbounded here, so its wrap-around after 2^32 - 1 ticks is not modelled.
- Graphs.Graph.DFS: the recursion depth of `DFSVisit` is unbounded here, so a stack overflow on very deep graphs is not modelled.
- Graphs.Graph.BFS: requires `start` to be a vertex of the graph and every edge target to be one. The source would also run from a foreign start object.
- Graphs.Graph.ShortPathBFS: requires `start` to be a vertex of the graph and every edge target to be one, as `BFS` does.
- Graphs.Graph.Traspose: requires every edge target to be a vertex of the graph. Otherwise the source dereferences the null returned by `GetVertex`.
- NodeLists.NodeList.RemoveEdgeWhere: requires u's targets to be members, so that the predicate can be applied to their vertex values.
- Graphs.Graph.DFS, Graphs.Graph.IsAcyclic and Graphs.Graph.IsConnected: require every edge target to be a vertex of the graph.
- The decorations are threaded through the traversal loops as a map value. `NodeLists.NodeList.SetDecorations` writes them back to the collection at the end. The order of updates inside a traversal is not observable to callers, so this loses nothing.
- The distance field is an unbounded `nat`. The reset value is `ulong.MaxValue`, written out as a constant.

## Findings

| source | as written | input that shows it | evidently intended | confidence | as-written member | corrected member |
|---|---|---|---|---|---|---|
| DewGraph/DewGraph/src/Graph.cs:261-273 | the `break` sits outside the `if`, so the loop stops after the first vertex whether or not it matched | vertices 1 then 2, with a predicate true only for vertex 2: the result is null | return the first vertex, in enumeration order, that satisfies the predicate, as `RemoveNode(predicate)` does | high, not executed | NodeLists.FirstOnly (counterexample: NodeLists.FirstOnlyMissesLaterMatch) | Graphs.Graph.GetVertexWhere |
