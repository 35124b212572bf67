# Two course-project graphs, modelled in Dafny

The repository holds two small graph classes written in Python:

- `DirectedGraph` (`d_graph.py`) is a weighted directed graph. It keeps a vertex count `v_count` and a
  square adjacency matrix `adj_matrix` of weights, where 0 means "no edge". Its vertices are the
  indices `0 .. v_count - 1`.
- `UndirectedGraph` (`ud_graph.py`) is an unweighted undirected graph on string labels. It keeps a
  dictionary `adj_list` from each vertex to the list of its neighbours. The order in which the
  dictionary holds its keys (insertion order) is what `get_vertices` and `get_edges` report.

Both classes update their state in place, and they are modelled that way:

- `DGraph.DirectedGraph` is a class with the fields `vCount` and `adjMatrix: seq<seq<int>>`.
- `UDGraph.UndirectedGraph` is a class with the fields `keys` (the dictionary's key order) and `adj`
  (the dictionary as a `map`).
- Every method that changes the graph has `modifies this`; the queries change nothing.
- Each loop of the source is a loop of the model, with one exception. In `has_cycle` the source
  raises `NameError` before its loop does any work, so that loop is not modelled.

Each method is proved against a function on values, and the properties are proved about those
functions:

| file | what it holds |
|---|---|
| `matrix.dfy`, module `AdjacencyMatrix` | the matrix as a value: each mutation as a function from the old matrix to the new one, each query as a function of the matrix, and the lemmas about them |
| `adjacency.dfy`, module `AdjacencyList` | the same for the dictionary (`Store`, holding the key order and the map), including DFS, BFS, connected components and `has_cycle` |
| `traversal.dfy`, module `Traversal` | the worklist traversal behind every `dfs` and `bfs`: a stack for DFS, a queue for BFS, a stop once `v_end` is visited. Its invariant: no repeats, only reachable vertices, all reachable vertices unless it stopped early |
| `labels.dfy`, module `Labels` | Python's ordering of `str`, and `list.sort()` as a sorted permutation that is unique |
| `basics.dfy`, module `Basics` | `None`, `list.reverse()`, `list.remove(x)`, and facts about lists without repeats |

The class invariants are the ones the classes document:

- **Directed:** the matrix is `v_count × v_count`, its diagonal is zero, and no weight is negative.
- **Undirected:** no loops and no repeated neighbour. Every edge is listed at both ends, both ends
  are keys, and the key order lists every key once.

How the source's dynamic behaviour is modelled:

- An exception the source raises is a value of `AdjacencyList.Outcome`, either `Raised(KeyError)` or
  `Raised(NameError)`.
- The truthiness test `if v_end and ...` is written out:
  - directed: `None` and `0` mean "no target";
  - undirected: `None` and `""` mean "no target".

## Model

| member | source | states |
|---|---|---|
| `DGraph.DirectedGraph.constructor` | d_graph.py:15-21 | a graph built without start edges has no vertices and an empty matrix, and the invariant holds |
| `DGraph.DirectedGraph.FromEdges` | d_graph.py:15-32 | a graph built from start edges has (largest index named) + 1 vertices, and its matrix is the all-zero one with each start edge passed to `add_edge` in order, so edges that `add_edge` refuses are dropped |
| `DGraph.DirectedGraph.LargestIndex` | d_graph.py:26-28 | the first constructor loop returns the largest index any start edge names, or 0 |
| `AdjacencyMatrix.MaxIndex` | d_graph.py:26-28 | that value is at least 0, at least every index named, and is 0 or an index actually named |
| `DGraph.DirectedGraph.AddVertices` | d_graph.py:29-30 | calling `add_vertex` n times on an edgeless graph gives the edgeless graph with n more vertices |
| `AdjacencyMatrix.GrownZeros` | d_graph.py:29-30 | adding a vertex to the edgeless matrix of n vertices gives the edgeless matrix of n + 1 |
| `DGraph.DirectedGraph.LoadEdges` | d_graph.py:31-32 | the third constructor loop leaves the matrix the start edges loaded in order, with the vertex count unchanged |
| `AdjacencyMatrix.Load` | d_graph.py:31-32 | loading edges keeps the matrix square and keeps the invariant |
| `AdjacencyMatrix.LoadListed` | d_graph.py:31-32 | after loading accepted edges given in strictly row-major order, as `get_edges` lists them, each edge's cell holds its weight |
| `AdjacencyMatrix.LoadUntouched` | d_graph.py:31-32 | loading leaves every cell that no loaded edge names unchanged |
| `DGraph.DirectedGraph.AddVertex` | d_graph.py:53-67 | `add_vertex` adds 1 to the count and returns the new count; the matrix becomes the old one with a zero row and a zero column added |
| `AdjacencyMatrix.Grown` | d_graph.py:60-65 | the grown matrix is square and one larger, keeps every old cell, has a zero new row and column, and keeps the invariant |
| `AdjacencyMatrix.Zeros` | d_graph.py:29-30 | the n-vertex matrix without edges is well formed and all zero |
| `DGraph.DirectedGraph.AddEdge` | d_graph.py:69-90 | after `add_edge` the matrix equals the matrix function of the old matrix, and the invariant is preserved |
| `AdjacencyMatrix.WithEdge` | d_graph.py:75-88 | exactly cell `[src][dst]` becomes `weight` when both ends are vertices, they differ and the weight is positive; otherwise nothing changes; the invariant is preserved |
| `AdjacencyMatrix.AddEdgeTwice` | d_graph.py:69-88 | adding the same edge twice: the later weight wins if it is accepted, otherwise the earlier call stands |
| `DGraph.DirectedGraph.RemoveEdge` | d_graph.py:92-107 | after `remove_edge` the matrix equals the matrix function of the old matrix, and the invariant is preserved |
| `AdjacencyMatrix.WithoutEdge` | d_graph.py:98-105 | exactly cell `[src][dst]` becomes 0 when both ends are vertices, whether or not an edge was there; otherwise nothing changes |
| `AdjacencyMatrix.RemoveEdgeIdempotent` | d_graph.py:92-105 | removing an edge twice is the same as removing it once |
| `AdjacencyMatrix.RemoveAfterAdd` | d_graph.py:69-105 | removing an edge just added is the same as only removing it |
| `DGraph.DirectedGraph.GetVertices` | d_graph.py:109-121 | the result is `[0, 1, ..., v_count - 1]` |
| `DGraph.DirectedGraph.GetEdges` | d_graph.py:123-156 | the nested loops return exactly the edge list of the matrix |
| `AdjacencyMatrix.EdgeList` | d_graph.py:123-156 | an edge is listed exactly when its cell is nonzero, with that cell's weight; the list is in row-major order, so it has no repeats |
| `AdjacencyMatrix.EdgeListAccepted` | d_graph.py:25-32 | every listed edge passes the guards of `add_edge` on (largest index + 1) vertices |
| `AdjacencyMatrix.RebuildFromEdges` | d_graph.py:25-32 | round trip: building a graph from `get_edges()` gives back the same weights on (largest index + 1) vertices, and zeros elsewhere |
| `AdjacencyMatrix.HasEdgeListed` | d_graph.py:176-196 | a cell is nonzero exactly when `get_edges()` has an entry with those two ends |
| `DGraph.DirectedGraph.IsValidPath` | d_graph.py:158-198 | the answer is the as-written check: true for a path of at most one element, otherwise true exactly when every consecutive pair is an edge |
| `AdjacencyMatrix.ValidPathAcceptsNonVertex` | d_graph.py:171-173 | the one-element path `[7]` is accepted on a graph without vertices |
| `AdjacencyMatrix.IntendedValidPathIsWalk` | d_graph.py:158-163 | the intended check accepts exactly the empty path and the walks along edges that start at a vertex |
| `AdjacencyMatrix.ValidPathVersusIntended` | d_graph.py:165-198 | the as-written check accepts everything the intended one does, and more only for `[v]` with v not a vertex |
| `DGraph.DirectedGraph.EdgesLeaving` | d_graph.py:225-228 | the inner scan collects the destinations of the listed edges that leave the popped vertex, in list order |
| `AdjacencyMatrix.SuccessorsOf` | d_graph.py:225-231 | the successors of a vertex are exactly its nonzero columns, in strictly ascending order |
| `AdjacencyMatrix.DestinationsAreSuccessors` | d_graph.py:225-231 | scanning `get_edges()` yields the successors already sorted, so its `sort()` leaves the list unchanged |
| `AdjacencyMatrix.PushOrder` | d_graph.py:229-234 | the stack receives the successors sorted and then reversed, and every pushed vertex is a vertex |
| `DGraph.DirectedGraph.Dfs` | d_graph.py:200-253 | `dfs` returns the stack traversal of the push order with the truthy `v_end` as its target |
| `AdjacencyMatrix.Target` | d_graph.py:246-248 | `v_end` stops the search only when it is not `None` and not 0 |
| `AdjacencyMatrix.DepthFirstProperties` | d_graph.py:200-253 | `dfs` returns `[]` for a non-vertex start; otherwise the start comes first, nothing repeats, only reachable vertices appear, the target ends the list once listed, and without a reached target every reachable vertex appears |
| `AdjacencyMatrix.DepthFirstShape` | d_graph.py:209-248 | the start and end of the `dfs` output, and that it has no repeats |
| `AdjacencyMatrix.DepthFirstSound` | d_graph.py:218-244 | `dfs` lists only vertices that are reachable from the start along edges |
| `AdjacencyMatrix.DepthFirstComplete` | d_graph.py:218-253 | without a reached target, `dfs` lists every vertex reachable from a start vertex |
| `AdjacencyMatrix.DepthFirstStopsAtTarget` | d_graph.py:246-248 | a truthy target reachable from the start is the last vertex listed |
| `AdjacencyMatrix.DepthFirstVisitsSmallestSuccessor` | d_graph.py:229-234 | the second vertex `dfs` lists is the start's lowest-numbered successor |
| `AdjacencyMatrix.DepthFirstOrder` | d_graph.py:218-248 | at every step, each vertex `dfs` lists after the start is the lowest-numbered unvisited successor of the latest listed vertex that still has one; unless the target stopped it, every successor of a listed vertex is listed |
| `AdjacencyMatrix.ReachesIsReachable` | d_graph.py:218-234 | reachability along the push order is the same as reachability along nonzero cells |
| `UDGraph.UndirectedGraph.constructor` | ud_graph.py:22-27 | a graph built without start edges has an empty dictionary, and the invariant holds |
| `UDGraph.UndirectedGraph.FromEdges` | ud_graph.py:22-33 | a graph built from start edges is every start edge passed to `add_edge` in order, and the invariant holds |
| `AdjacencyList.Build` | ud_graph.py:31-33 | the dictionary built from start edges is well formed |
| `AdjacencyList.EmptyWellFormed` | ud_graph.py:27 | the empty dictionary is well formed |
| `UDGraph.UndirectedGraph.AddVertex` | ud_graph.py:49-56 | after `add_vertex` the dictionary equals the dictionary function of the old one, and the invariant is preserved |
| `AdjacencyList.AddVertexTo` | ud_graph.py:49-56 | a new label gets an empty list at the end of the key order; an existing label changes nothing; no other entry changes |
| `AdjacencyList.AddVertexIdempotent` | ud_graph.py:53-56 | adding a vertex twice is the same as adding it once |
| `UDGraph.UndirectedGraph.AddEdge` | ud_graph.py:58-79 | after `add_edge` the dictionary equals the dictionary function of the old one, and the invariant is preserved |
| `AdjacencyList.AddEdgeTo` | ud_graph.py:58-79 | `u == v` changes nothing; otherwise missing ends become vertices and each end lists the other; no other list changes; the invariant is preserved |
| `AdjacencyList.AddEdgeIdempotent` | ud_graph.py:63-79 | adding an edge twice is the same as adding it once |
| `AdjacencyList.AddEdgeAdjacency` | ud_graph.py:58-79 | adding an edge joins exactly its two distinct ends and keeps every other edge |
| `AdjacencyList.AddEdgeSymmetric` | ud_graph.py:58-79 | `add_edge(u, v)` and `add_edge(v, u)` give the same edges |
| `UDGraph.UndirectedGraph.RemoveEdge` | ud_graph.py:81-99 | after `remove_edge` the dictionary equals the dictionary function of the old one, and the invariant is preserved |
| `AdjacencyList.RemoveEdgeFrom` | ud_graph.py:81-99 | nothing changes unless both are keys that list each other; then each end loses exactly the other, no other list and no key changes, and the invariant is preserved |
| `Basics.RemoveFirst` | ud_graph.py:98-99 | `list.remove(x)` drops one occurrence of `x` and keeps the rest |
| `Basics.IndexOf` | ud_graph.py:98-99 | the position of `x` that `remove` finds holds `x`, and no earlier position does |
| `Basics.RemoveFirstKeepsOrder` | ud_graph.py:98-99 | `remove(x)` cuts out exactly the first occurrence of `x` and keeps the rest in order |
| `Basics.RemoveFirstDistinct` | ud_graph.py:98-99 | on a list without repeats, `remove(x)` leaves no `x` and no repeats |
| `AdjacencyList.RemoveAfterAdd` | ud_graph.py:58-99 | removing a newly added edge between two unjoined vertices restores the old edges |
| `UDGraph.UndirectedGraph.RemoveVertex` | ud_graph.py:101-116 | after `remove_vertex` the dictionary equals the dictionary function of the old one, and the invariant is preserved |
| `AdjacencyList.RemoveVertexFrom` | ud_graph.py:101-116 | an absent `v` changes nothing; otherwise the key order is the old one with `v` cut out, `v` is in no list, every edge not touching `v` is kept, no edge is created, and the invariant is preserved |
| `AdjacencyList.Detached` | ud_graph.py:112-113 | a neighbour's list loses exactly `v` |
| `AdjacencyList.DetachStep` | ud_graph.py:112-113 | one pass of the loop removes `v` from the next neighbour, which still lists it |
| `UDGraph.UndirectedGraph.GetVertices` | ud_graph.py:118-129 | the result is the key order: every vertex once |
| `UDGraph.UndirectedGraph.GetEdges` | ud_graph.py:131-149 | the loops with `checked_vertices` return exactly `EdgeList` of the dictionary |
| `UDGraph.UndirectedGraph.ScanNeighbours` | ud_graph.py:140-147 | the inner loop over one key's list appends exactly that key's pairs, and keeps the `checked_vertices` invariant |
| `AdjacencyList.CheckedPicksLater` | ud_graph.py:142-145 | the test `index not in checked_vertices` takes a neighbour exactly when it is a later key |
| `AdjacencyList.EdgeListMembers` | ud_graph.py:131-149 | `get_edges` lists `(u, w)` exactly when `u`-`w` is an edge and `u` is the earlier key, and lists nothing twice |
| `AdjacencyList.EdgeListOneWay` | ud_graph.py:131-149 | each edge appears in exactly one orientation |
| `UDGraph.UndirectedGraph.IsValidPath` | ud_graph.py:151-200 | the answer, or the `KeyError` raised, is the as-written check |
| `AdjacencyList.WalkAccepted` | ud_graph.py:151-200 | every walk is accepted |
| `AdjacencyList.AcceptedIsWalk` | ud_graph.py:175-200 | an accepted path with no isolated vertex before its last is a walk |
| `AdjacencyList.PathOutcomeFailures` | ud_graph.py:175-200 | `KeyError` comes only from a non-key strictly inside the path; False only from a first vertex that is not a key or a step that is not an edge |
| `AdjacencyList.IsolatedVertexAccepted` | ud_graph.py:181-192 | `["a", "b"]` is accepted on two isolated vertices although it is not a walk |
| `AdjacencyList.NonVertexRaises` | ud_graph.py:175-178 | `["a", "z", "b"]` on two isolated vertices raises `KeyError` |
| `AdjacencyList.IntendedPairsFrom` | ud_graph.py:175-200 | the intended pair check succeeds exactly when every remaining step is an edge |
| `AdjacencyList.IntendedPathOutcome` | ud_graph.py:151-169 | the intended check answers True exactly for walks |
| `AdjacencyList.PathOutcomeVersusIntended` | ud_graph.py:151-200 | the as-written check accepts every walk, and agrees with the intended one whenever no vertex before the last is isolated |
| `UDGraph.UndirectedGraph.Dfs` | ud_graph.py:202-248 | `dfs` returns the stack search of the dictionary; the key order is unchanged; only the lists of the vertices it lists are rearranged |
| `UDGraph.UndirectedGraph.StackSearch` | ud_graph.py:209-243 | the `dfs` loop returns the stack traversal over each list sorted then reversed, and leaves exactly the visited vertices' lists in that order |
| `UDGraph.UndirectedGraph.Bfs` | ud_graph.py:250-291 | `bfs` returns the queue search of the dictionary; the key order is unchanged; only the lists of the vertices it lists are sorted |
| `UDGraph.UndirectedGraph.QueueSearch` | ud_graph.py:255-289 | the `bfs` loop returns the queue traversal over each sorted list, and leaves exactly the visited vertices' lists sorted |
| `UDGraph.UndirectedGraph.AppendAll` | ud_graph.py:278-280 | appending item by item puts the whole list at the back of the queue |
| `Labels.Sort` | ud_graph.py:226 | `list.sort()` on labels gives an ascending permutation |
| `Labels.SortedUnique` | ud_graph.py:226 | two ascending lists with the same elements are equal, so the result of the sort is determined |
| `Labels.LessTotal` | ud_graph.py:226 | any two different labels are ordered one way or the other |
| `Labels.SortKeepsElements` | ud_graph.py:226 | the sort keeps membership and length |
| `Labels.SortDistinct` | ud_graph.py:226 | sorting a list without repeats gives a list without repeats |
| `Basics.Reverse` | ud_graph.py:227 | `list.reverse()` puts the same elements back to front |
| `Basics.ReverseKeepsElements` | ud_graph.py:227 | reversal keeps the multiset and keeps "no repeats" |
| `AdjacencyList.Arranged` | ud_graph.py:222-227 | `dfs` sorts then reverses a list and `bfs` sorts it; either way it is a permutation of the same elements |
| `AdjacencyList.ArrangedPermutation` | ud_graph.py:222-227 | lists with the same elements are arranged alike |
| `AdjacencyList.ArrangedIdempotent` | ud_graph.py:222-227 | arranging a list a second time changes nothing |
| `AdjacencyList.Order` | ud_graph.py:222-230 | each vertex's neighbours are pushed in arranged order; a non-vertex has none |
| `AdjacencyList.Target` | ud_graph.py:242-243 | `v_end` stops the search only when it is not `None` and not `""` |
| `AdjacencyList.SearchProperties` | ud_graph.py:202-291 | `dfs` and `bfs` return `[]` for a non-vertex start; otherwise the start comes first, nothing repeats, only connected vertices appear, the target ends the list once listed, and without a reached target every connected vertex appears |
| `AdjacencyList.SearchShape` | ud_graph.py:209-243 | the start and end of the output, and that it has no repeats |
| `AdjacencyList.SearchSound` | ud_graph.py:218-239 | only vertices connected to the start are listed |
| `AdjacencyList.SearchComplete` | ud_graph.py:218-248 | without a reached target, every vertex connected to a start vertex is listed |
| `AdjacencyList.SearchStopsAtTarget` | ud_graph.py:242-243 | a nonempty target connected to the start is the last vertex listed |
| `AdjacencyList.DfsVisitsSmallestNeighbour` | ud_graph.py:202-230 | after the start, `dfs` lists the start's alphabetically smallest neighbour |
| `AdjacencyList.BfsListsNeighboursFirst` | ud_graph.py:250-285 | without a target, `bfs` lists the start and then all its neighbours in alphabetical order |
| `AdjacencyList.DfsOrder` | ud_graph.py:218-248 | at every step, each vertex `dfs` lists after the start is the alphabetically least unvisited neighbour of the latest listed vertex that still has one; unless the target stopped it, every neighbour of a listed vertex is listed |
| `AdjacencyList.BfsOrder` | ud_graph.py:266-291 | at every step, each vertex `bfs` lists after the start is the alphabetically least unvisited neighbour of the earliest listed vertex that still has one; unless the target stopped it, every neighbour of a listed vertex is listed |
| `AdjacencyList.BfsParentsInOrder` | ud_graph.py:266-285 | `bfs` lists in level order: a later vertex never has an earlier parent, and two children of one parent come in alphabetical order |
| `AdjacencyList.ArrangedLeast` | ud_graph.py:222-230 | in a sorted (and for `dfs` reversed) list, the first entry the worklist gives up that is unseen is the alphabetically least unseen one |
| `AdjacencyList.SearchInsideGraph` | ud_graph.py:202-291 | a search from a vertex lists that vertex and only vertices |
| `AdjacencyList.Rearranged` | ud_graph.py:222-227 | the map left behind arranges the lists of exactly the listed vertices |
| `AdjacencyList.RearrangedKeepsGraph` | ud_graph.py:222-227 | rearranging keeps every list's contents, the edges and the invariant |
| `AdjacencyList.RearrangedTwice` | ud_graph.py:222-227 | rearranging twice is rearranging once, for the union |
| `AdjacencyList.SearchIgnoresListOrder` | ud_graph.py:222-230 | the order in which the lists are held does not change what `dfs` or `bfs` return |
| `AdjacencyList.SearchAfterRearranging` | ud_graph.py:297-301 | a search after earlier searches returns what it would have returned on the original dictionary |
| `Traversal.TraverseProperties` | ud_graph.py:209-248 | the generic traversal: nothing for a non-vertex start; otherwise start first, no repeats, only reachable vertices, target last once listed, every reachable vertex without an early stop |
| `Traversal.TraverseListsNext` | ud_graph.py:218-239 | the second vertex listed is the first neighbour of the start that the worklist gives up |
| `Traversal.FifoListsQueueInOrder` | ud_graph.py:266-285 | a queue lists the fresh vertices at its front in queue order |
| `Traversal.TraverseInOrder` | ud_graph.py:218-289 | at every step, the next vertex listed is the first unvisited neighbour, in worklist order, of the latest listed vertex that has one (stack) or of the earliest (queue); unless the target stopped it, no listed vertex keeps an unvisited neighbour |
| `Traversal.RunInOrder` | ud_graph.py:218-243 | the same from any loop state whose worklist gives up its unvisited vertices in that order |
| `Traversal.StepInOrder` | ud_graph.py:219-239 | one loop iteration keeps the worklist in that order |
| `Traversal.Fresh` | ud_graph.py:218-222 | the first unseen vertex the worklist gives up: none exactly when every entry is seen, otherwise an unseen entry |
| `Traversal.FreshPosition` | ud_graph.py:218-222 | that vertex sits at a position every earlier-given-up position of which holds a seen vertex |
| `Traversal.FreshConcat` | ud_graph.py:230 | after pushing a list, the first unseen vertex given up is the pushed list's on a stack and the older entries' on a queue, when they have one |
| `Traversal.NextVisitParent` | ud_graph.py:218-239 | the predicted next vertex is some listed vertex's first unseen neighbour, and every listed vertex given up before it has none |
| `Traversal.RunSameSucc` | ud_graph.py:218-243 | the traversal depends only on the neighbour lists it is given |
| `UDGraph.UndirectedGraph.CountConnectedComponents` | ud_graph.py:293-309 | the count is the number of different vertex sets that a `dfs` from each vertex lists; the key order is unchanged; every list ends up rearranged as `dfs` leaves it |
| `UDGraph.UndirectedGraph.SearchKey` | ud_graph.py:300-304 | the key of a vertex is the set its component's `dfs` lists, whatever earlier searches did to the lists |
| `UDGraph.UndirectedGraph.JoinedKey` | ud_graph.py:302-304 | sorting then joining keeps exactly the listed vertices |
| `AdjacencyList.ComponentsAmongAll` | ud_graph.py:300-307 | collecting keys one vertex at a time gives the key of every vertex |
| `AdjacencyList.CoveredAll` | ud_graph.py:300-301 | searches from every vertex cover exactly the vertices |
| `AdjacencyList.SearchedFromAll` | ud_graph.py:297-309 | after a `dfs` from every vertex, the keys collected are the components and every list has been rearranged once |
| `AdjacencyList.ComponentIsConnectedSet` | ud_graph.py:293-309 | a `dfs` from a vertex lists exactly the vertices connected to it |
| `AdjacencyList.ComponentsAreConnectedSets` | ud_graph.py:293-309 | the count is the number of connected components |
| `AdjacencyList.NoVerticesNoComponents` | ud_graph.py:293-309 | an empty graph has 0 components |
| `AdjacencyList.IsolatedVerticesAreComponents` | ud_graph.py:293-309 | a graph of n vertices without edges has n components |
| `UDGraph.UndirectedGraph.HasCycle` | ud_graph.py:311-327 | `has_cycle` answers False below three vertices and otherwise raises `NameError` |
| `AdjacencyList.FewVerticesNoCycle` | ud_graph.py:316-319 | with fewer than three vertices there is no cycle |
| `AdjacencyList.CycleOutcomeSound` | ud_graph.py:311-327 | whenever `has_cycle` answers, the answer is right; it raises exactly when there are three vertices or more |

## Left out

- `__str__` of both classes: it only renders text.
- The `if __name__ == '__main__'` demonstration blocks: they only print. The demonstration run is
  not proved as a concrete evaluation; the general lemmas above state the behaviour it shows.
- `DirectedGraph.bfs`, `has_cycle` and `dijkstra`: their bodies are `pass`.
- The `check_for_cycle` parameter of the undirected `dfs`: the one caller that sets it,
  `has_cycle`, raises `NameError` before it gets there.
- `UDGraph.UndirectedGraph.HasCycle`: for three vertices or more it returns `Raised(NameError)`. The
  loop names the undefined variable `idx`, so no search runs. No cycle test is modelled beyond the
  fewer-than-three-vertices answer.
- `UDGraph.UndirectedGraph.CountConnectedComponents`: the key of a component is modelled as the
  set of vertices `dfs` lists, not as the string `''.join(sorted(dfs))`. Two different vertex sets
  can join to the same string, which would make the source undercount. The model counts sets.
- The unused import `heapq`. `collections.deque` is modelled as a sequence used as a queue.
- Python integers are unbounded, as Dafny's `int` is. No width or overflow is modelled.
- `UDGraph.UndirectedGraph.Dfs` and `UDGraph.UndirectedGraph.Bfs`: the loop runs in a static method
  (`StackSearch`, `QueueSearch`) on a copy of the map, and the result is written back once.
- `UDGraph.UndirectedGraph.RemoveVertex`: the loop works on a local copy of the map, and the copy
  is written back once.
- The directed `dfs` calls `sort()` on a list that is already ascending. `DestinationsAreSuccessors`
  proves this, so the method does not repeat the sort.
- `DGraph.DirectedGraph.FromEdges`: the three constructor loops are the methods `LargestIndex`,
  `AddVertices` and `LoadEdges`.

## Findings

| source | as written | input that shows it | evidently intended | confidence | as-written member | corrected member |
|---|---|---|---|---|---|---|
| d_graph.py:171-173 | a one-element path that is not a vertex fails the test at line 172 and falls through to the pair loop, which has nothing to check, so it returns True | `is_valid_path([7])` on a graph without vertices | a one-element path is valid only when it names a vertex, as the comment at line 171 says | not executed | `AdjacencyMatrix.ValidPathAcceptsNonVertex` | `AdjacencyMatrix.IntendedValidPathIsWalk` |
| ud_graph.py:181-192 | the inner loop answers False only at the end of a nonempty list, so an isolated vertex lets any next vertex through; if that vertex is not a key either, the next lookup raises `KeyError` | `["a", "b"]` on the isolated vertices `a`, `b` gives True; `["a", "z", "b"]` raises `KeyError` | True exactly for walks along edges and never an exception | not executed | `AdjacencyList.IsolatedVertexAccepted` | `AdjacencyList.IntendedPathOutcome` |
