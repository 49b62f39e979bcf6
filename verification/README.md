# Graph algorithm visualizer: a verified model of its core

This project models the core of a graph-algorithm visualizer written in
TypeScript. The visualizer keeps a graph of nodes and weighted edges and runs
five algorithms on it. Each algorithm returns a list of *steps*; the user
interface plays them back one after another.

- Breadth-first search (`bfs`).
- Depth-first search (`dfs`).
- Dijkstra's algorithm (`dijkstra`).
- A* (`astar`), with node weights as the heuristic.
- Floyd-Warshall (`floydWarshall`), which records matrix snapshots.

Around the algorithms sit:

- the graph model itself (`createNode`, `createEdge`, `getNeighbors`, `getEdgeBetween`);
- the step model (`createStep`) and the step helpers the canvas uses to style edges;
- the pair colour hash that gives every unordered pair of vertices a stable colour;
- weight validation;
- the text edge-list format. `GraphTextParser` reads it, `GraphSerializer`
  writes it, and `GraphModelTransformer` turns a parsed text into a graph model;
- the editor state (`GraphContext`): adding, removing and updating nodes and
  edges, and toggling between directed and undirected graphs.

Each module takes the form of the code it models. Pure functions become Dafny
functions with contracts and lemmas. Loops become methods whose invariants tie
them to a reference function. The editor, whose callbacks change its state,
becomes a class whose methods state the whole new state.

The algorithms are proved against independent specifications:

- BFS records the shortest hop counts, and exactly the reachable nodes.
- DFS gives each node the first node that pushed it as its parent.
- Dijkstra's distances are those of cheapest paths when no weight is
  negative, and `Infinity` exactly for unreachable nodes. Its predecessor
  links lead back to the start.
- A* with a zero heuristic returns a cheapest path, or reports none exactly
  when none exists.
- Floyd-Warshall's final matrix holds the costs of cheapest walks and
  satisfies the triangle inequality.

The text format is proved to round-trip, from a graph to text and back. Text
that was parsed, built into a graph, serialized and parsed again keeps its
pairs, its vertices and its number of definitions. The header that
`includeComments` writes starts with `#` lines, and the parser has no rule
that skips them. Text written with that option therefore does not read back
without errors, so the round trip is stated without it.

Two behaviours of the editor are stated as they are written. When all 26
letters are taken, the fallback id `N<count + 1>` is not checked against the
existing ids, so it can repeat one (`GraphContext.FallbackCollides`).
Switching to undirected keeps one edge per key `from-to` of the sorted ends,
so ids that contain `-` can make two different pairs share a key
(`GraphContext.KeysCollide`).

Modules: `Wrappers`, `Strings`, `Collections`, `Graph`, `Steps`, `Paths`,
`ObjectKeys`, `StepHelpers`, `PairColor`, `Validation`, `Bfs`, `Dfs`,
`DistQueue`, `Dijkstra`, `AStar`, `FwMatrix`, `FloydWarshall`, `TextFormat`,
`TextParser`, `GraphSerializer`, `GraphModelTransformer`, `RoundTrip`,
`GraphContext`.

## Model

| member | source | states |
|---|---|---|
| Graph.NodeIds | src/algorithms/floydWarshall.ts:6 | the ids of the nodes, one per node, in node order |
| Graph.CreateNode | src/models/graph.ts:24-29 | the node has the given id as its id and its label, and keeps the given position |
| Graph.CreateEdge | src/models/graph.ts:31-43 | succeeds exactly when the weight is a number that is not NaN, finite and not negative; the edge keeps its ends, weight and direction, and its id is "e-from-to-now" |
| Graph.Neighbors | src/models/graph.ts:45-50 | the neighbour list has no repetitions |
| Graph.NeighborsSpec | src/models/graph.ts:45-50 | a node is a neighbour exactly when some edge leads to it: the `to` of an edge leaving the node, or in an undirected graph also the `from` of an edge arriving at it |
| Graph.NeighborsOrder | src/models/graph.ts:45-50 | neighbours are listed in the order of their first matching edge |
| Graph.NeighborEndPoint | src/models/graph.ts:45-50 | every neighbour is an end point of some edge |
| Graph.NeighborsSymmetric | src/models/graph.ts:47 | in an undirected graph, `b` is a neighbour of `a` exactly when `a` is a neighbour of `b` |
| Graph.EdgeBetween | src/models/graph.ts:52-56 | the result is the first edge that connects the two nodes (either way round when undirected), or none when no edge does |
| Steps.AllStepTypes | src/models/step.ts:1-8 | the seven step tags, with distinct names |
| Steps.StepTypesClosed | src/models/step.ts:1-8 | every tag is one of the seven |
| Steps.CreateStep | src/models/step.ts:45-52 | the step carries the fresh id and the tag, and every field the overrides give wins over the default |
| Steps.CreateStepBare | src/models/step.ts:45-52 | a step built without overrides carries its id and tag and nothing else |
| Steps.StepIdsDistinct | src/models/step.ts:49 | steps at different positions get different ids |
| Steps.CountKindSnoc | src/models/step.ts:45-52 | appending a step adds one to the count of its own tag and leaves the other counts alone |
| Steps.ProjectionsSnoc | src/models/step.ts:45-52 | appending a step extends the visit, inspection and discovery projections by that step's share alone |
| StepHelpers.AnyPointer | src/lib/stepHelpers.ts:19-21 | true exactly when some pointer joins the two nodes, in either orientation |
| StepHelpers.FindJoining | src/lib/stepHelpers.ts:61-63 | none exactly when no edge joins the two nodes; otherwise the first edge that joins them |
| StepHelpers.IsEdgeHighlighted | src/lib/stepHelpers.ts:10-35 | false without a step or without highlighted edges |
| StepHelpers.HighlightedUnion | src/lib/stepHelpers.ts:24-34 | the grouped form highlights exactly the edges of its `edges`, `oldPath` and `newPath` lists |
| StepHelpers.HighlightedSymmetric | src/lib/stepHelpers.ts:10-35 | swapping the two ends does not change the answer |
| StepHelpers.StyleOr | src/lib/stepHelpers.ts:67 | an absent or empty style gives way to the fallback |
| StepHelpers.GetEdgeHighlightInfo | src/lib/stepHelpers.ts:40-99 | highlighted exactly when `isEdgeHighlighted` says so; a plain list gives the flag alone. In the grouped form, the first old-path edge that joins the pair gives its style (or `path-old` when that is absent or empty), its colour and the old-path flag. Failing that, the first joining new-path edge does the same with `path-new` and the new-path flag. Failing both, the first joining general edge gives its own style and colour |
| StepHelpers.IsEdgeVisited | src/lib/stepHelpers.ts:104-109 | true exactly when the step has visited edges and one of them joins the two nodes in either orientation |
| StepHelpers.VisitedSymmetric | src/lib/stepHelpers.ts:104-109 | swapping the two ends does not change the answer |
| PairColor.ToInt32 | src/lib/pairColorHash.ts:17 | the result is a signed 32-bit value congruent to the input modulo 2^32 |
| PairColor.ToInt32Congruent | src/lib/pairColorHash.ts:17 | congruent inputs give the same 32-bit value |
| PairColor.StepFolds | src/lib/pairColorHash.ts:16-17 | one loop pass, `(hash << 5) - hash + code` then `hash & hash`, is `31 * hash + code` truncated to 32 bits |
| PairColor.FoldPoly | src/lib/pairColorHash.ts:12-20 | the folded hash is the polynomial sum of code(s[i]) * 31^(n-1-i), reduced to a signed 32-bit number |
| PairColor.Hash | src/lib/pairColorHash.ts:19 | the absolute value is at most 2^31, and the empty string hashes to 0 |
| PairColor.HashString | src/lib/pairColorHash.ts:12-20 | the loop computes the absolute value of the folded hash |
| PairColor.Hue | src/lib/pairColorHash.ts:32 | the hue lies between 0 and 360 |
| PairColor.PairColorHsl | src/lib/pairColorHash.ts:57-66 | saturation lies in [70, 90), lightness in [50, 65) and the hue in [0, 360] |
| PairColor.GetPairColor | src/lib/pairColorHash.ts:26-39 | the CSS text of the pair's hue, saturation and lightness |
| PairColor.GetDimmedPairColor | src/lib/pairColorHash.ts:44-52 | the CSS text of the pair's hue, at 40% saturation and 35% lightness |
| PairColor.PairColorSymmetric | src/lib/pairColorHash.ts:26-66 | all three colour functions give the same answer for (a, b) and (b, a) |
| Strings.PairKeySymmetric | src/lib/pairColorHash.ts:28 | the key of an unordered pair does not depend on its orientation |
| Strings.NatToString | src/models/graph.ts:37 | the digits of a natural number, without a leading zero |
| Strings.Trim | src/lib/textParser.ts:41 | the result is the slice of the input left once the white space at both ends is removed: only white space lies outside it, and it neither starts nor ends with white space; it is empty exactly when the input is all white space |
| Strings.StrLessTotal | src/lib/graphModelTransformer.ts:31 | the string order is total on distinct strings |
| Strings.StrLessTransitive | src/lib/graphModelTransformer.ts:31 | the string order is transitive |
| Collections.Dedup | src/models/graph.ts:49 | `Array.from(new Set(xs))` has no repetitions |
| Collections.DedupMembers | src/models/graph.ts:49 | removing repetitions keeps exactly the elements there were |
| Validation.IsValidWeight | src/lib/validation.ts:4-8 | true exactly for numbers that are not NaN, finite and not negative |
| Validation.ValidWeightAgrees | src/lib/validation.ts:4-8 | `createEdge` accepts exactly the weights `isValidWeight` accepts |
| Validation.ParseWeightInput | src/lib/validation.ts:13-31 | valid exactly when the input is not blank and the parsed number is finite and not negative; a valid result carries the number and no error; an invalid one carries an error and no value |
| Validation.ParseWeightInputOrder | src/lib/validation.ts:13-31 | the first failing check decides the message: blank, then NaN, then infinite, then negative |
| Validation.AcceptedIsValid | src/lib/validation.ts:13-31 | a value accepted from the text is one `isValidWeight` accepts |
| Paths.ArcsSpec | src/algorithms/dijkstra.ts:50-55 | an arc out of a node is exactly an edge that leads from it to the arc's node, with that edge's weight |
| Paths.ArcNodes | src/algorithms/dijkstra.ts:50-55 | the arc ends, repetitions included, are the ends `getNeighbors` lists before removing repetitions |
| Paths.PathSnoc | src/algorithms/dijkstra.ts:71 | following one more arc extends a path and adds the arc's weight to its cost |
| Paths.CostPrefix | src/algorithms/dijkstra.ts:71 | with no negative weights, a prefix of a path costs at most the whole path |
| Paths.Crossing | src/algorithms/dijkstra.ts:57-94 | a path that leaves a set of nodes has a first hop out of the set |
| ObjectKeys.EntriesOrderSpec | src/algorithms/astar.ts:40 | `Object.entries` lists the array-index keys first, by increasing value, then the other keys in creation order |
| ObjectKeys.SortAscending | src/algorithms/astar.ts:40 | the array-index keys are listed in increasing order |
| Bfs.DequeueKeepsLayers | src/algorithms/bfs.ts:29-30 | dequeuing the head moves the layers on by one node |
| Bfs.DiscoverKeepsFrontier | src/algorithms/bfs.ts:58-62 | discovering an unvisited neighbour one hop below the current node keeps the queue in layers |
| Bfs.DiscoverKeepsTree | src/algorithms/bfs.ts:58-62 | hanging a new node below a recorded neighbour keeps the breadth-first tree |
| Bfs.InspectNeighbor | src/algorithms/bfs.ts:45-77 | one pass of the inner loop keeps the search state and records one inspection, plus one discovery when the neighbour is new |
| Bfs.ExpandNode | src/algorithms/bfs.ts:43-78 | the inner loop inspects every neighbour in `getNeighbors` order and leaves the current node expanded |
| Bfs.VisitNext | src/algorithms/bfs.ts:30-41 | one pass of the outer loop dequeues the next node, records its visit and expands it |
| Bfs.Search | src/algorithms/bfs.ts:29-79 | the loops end with an empty queue, a closed breadth-first tree and a step list that records each visit and each inspection |
| Bfs.StateDone | src/algorithms/bfs.ts:29-79 | once the queue is empty, every neighbour of a recorded node is recorded and the tree is breadth-first |
| Bfs.RecordDone | src/algorithms/bfs.ts:81-89 | with the closing step, the steps open and close as `bfs` writes them, and count two per visited node plus one per inspection plus one |
| Bfs.Bfs | src/algorithms/bfs.ts:4-92 | the visits are the order, each node once and the start first; the discoveries are the rest of the order; the inspections are each node's neighbours in order; the distances and predecessors form a closed breadth-first tree |
| Bfs.WalksAreRecorded | src/algorithms/bfs.ts:58-62 | every walk from the start ends at a recorded node, no deeper than its number of hops |
| Bfs.TreeWalk | src/algorithms/bfs.ts:61-62 | following the predecessors back from a recorded node gives a walk from the start with exactly its recorded number of hops |
| Bfs.BfsDistancesAreShortest | src/algorithms/bfs.ts:58-62 | a node is recorded exactly when a walk reaches it, and its distance is the least number of hops of such a walk |
| Dfs.FirstPusher | src/algorithms/dfs.ts:72-74 | the node whose push came first is one that pushed the node |
| Dfs.FirstPusherSnoc | src/algorithms/dfs.ts:72-74 | a later push does not change the first pusher |
| Dfs.SkipState | src/algorithms/dfs.ts:29-40 | popping a node visited earlier changes nothing but the stack |
| Dfs.SkipRecord | src/algorithms/dfs.ts:29-40 | and records one `custom` skip step |
| Dfs.VisitState | src/algorithms/dfs.ts:42-55 | popping an unvisited node visits it and starts its expansion |
| Dfs.PushState | src/algorithms/dfs.ts:70-76 | pushing an unvisited neighbour puts it on the stack, sets its predecessor only if it has none, and records the push |
| Dfs.SeenState | src/algorithms/dfs.ts:70 | a neighbour visited earlier is not pushed |
| Dfs.InspectNeighbor | src/algorithms/dfs.ts:57-90 | one pass of the inner loop, over the neighbours in reverse order, keeps the search state and records the inspection and any push |
| Dfs.VisitAndExpand | src/algorithms/dfs.ts:42-91 | visiting a popped unvisited node records its visit and its neighbours' inspections, and leaves it expanded |
| Dfs.Search | src/algorithms/dfs.ts:26-92 | the loop ends with an empty stack and the steps recording each visit, inspection, push and skip |
| Dfs.StateDone | src/algorithms/dfs.ts:26-92 | once the stack is empty, every neighbour of a visited node is visited and each parent is the first pusher |
| Dfs.RecordDone | src/algorithms/dfs.ts:94-102 | with the closing step, the step counts add up: one per visit, inspection and push, plus the `custom` steps |
| Dfs.Dfs | src/algorithms/dfs.ts:4-105 | the visits are the order, each node once and the start first; the inspections are each node's neighbours in reverse; the discoveries are the pushes; every neighbour of a visited node is visited; every predecessor is the node's first pusher |
| Dfs.ParentIsFirstPusher | src/algorithms/dfs.ts:72-74 | each predecessor is a visited node that lists the node as a neighbour and pushed it |
| DistQueue.Insert | src/algorithms/dijkstra.ts:31 | inserting keeps the multiset of elements plus the new one |
| DistQueue.SortByDistance | src/algorithms/dijkstra.ts:31 | the sorted queue is a permutation of the queue |
| DistQueue.SortSorted | src/algorithms/dijkstra.ts:31 | when every element has a distance, the sort orders the queue by distance |
| DistQueue.SortStable | src/algorithms/dijkstra.ts:31 | the sort is stable: the nodes at any one distance keep their queue order |
| DistQueue.SortedFront | src/algorithms/dijkstra.ts:31-32 | the front of the sorted queue has the least distance in it |
| DistQueue.SortNoDup | src/algorithms/dijkstra.ts:31 | sorting a queue without repetitions leaves none |
| DistQueue.SortMembers | src/algorithms/dijkstra.ts:31 | the sort keeps the queue's elements and its length |
| Dijkstra.InitialDistances | src/algorithms/dijkstra.ts:12-15 | every node id maps to `Infinity`, except the start, which maps to 0 |
| Dijkstra.InitialPredecessors | src/algorithms/dijkstra.ts:12-15 | every node id maps to null |
| Dijkstra.Initialize | src/algorithms/dijkstra.ts:12-15 | the loop fills both records with their initial values |
| Dijkstra.SelectFrontier | src/algorithms/dijkstra.ts:31-35 | the front of the sorted queue is unvisited, and has a finite distance when it has one at all |
| Dijkstra.SelectOptimal | src/algorithms/dijkstra.ts:31-35 | with no negative weights, no path undercuts the distance of the front of the sorted queue |
| Dijkstra.RelaxStateTables | src/algorithms/dijkstra.ts:71-75 | relaxing an arc lowers the end's distance to the current node's plus the weight, and sets its predecessor |
| Dijkstra.RelaxStateQueue | src/algorithms/dijkstra.ts:77-79 | the relaxed end is queued unless it is queued already |
| Dijkstra.RelaxArc | src/algorithms/dijkstra.ts:58-93 | one arc is skipped when its end is visited, else inspected, and relaxed when it strictly improves the end; no distance rises and visited nodes keep theirs |
| Dijkstra.RelaxArcs | src/algorithms/dijkstra.ts:57-94 | the loop over the current node's arcs records the inspection of every arc to an unvisited node |
| Dijkstra.Round | src/algorithms/dijkstra.ts:29-35 | a round sorts the queue, visits its front and relaxes its arcs; the visited list grows by one node and no distance rises |
| Dijkstra.VisitAndRelax | src/algorithms/dijkstra.ts:37-94 | the rest of the round visits the front node and goes through its arcs |
| Dijkstra.Search | src/algorithms/dijkstra.ts:29-95 | the main loop ends with an empty queue and the state and record invariants |
| Dijkstra.StateDone | src/algorithms/dijkstra.ts:29-95 | what the search gives once the queue is empty: each visited node once, the start first; the distances, the reach and the predecessors as `Dijkstra.Dijkstra` states them |
| Dijkstra.DoneVisited | src/algorithms/dijkstra.ts:34-37 | the visited nodes are the start and the nodes with a finite distance, each once, the start first |
| Dijkstra.ExitFinite | src/algorithms/dijkstra.ts:57-94 | a path to an unvisited node leaves the visited nodes by a relaxed arc, whose end has a finite distance |
| Dijkstra.DoneReach | src/algorithms/dijkstra.ts:35 | a distance is `Infinity` exactly when no path reaches the node |
| Dijkstra.DoneShortest | src/algorithms/dijkstra.ts:71-75 | with no negative weights, every finite distance is the cost of a cheapest path |
| Dijkstra.DonePredecessors | src/algorithms/dijkstra.ts:75 | every predecessor is joined to its node by an arc whose weight separates their distances |
| Dijkstra.PredArc | src/algorithms/dijkstra.ts:75 | the hop from a predecessor follows an arc whose weight separates the two distances |
| Dijkstra.PredRanked | src/algorithms/dijkstra.ts:75 | a predecessor's recorded path is one hop shorter than its node's, so the links are ranked |
| Dijkstra.ChainToStart | src/algorithms/dijkstra.ts:75 | walking the predecessors back from a node with a finite distance ends at the start |
| Dijkstra.RecordDone | src/algorithms/dijkstra.ts:97-105 | with the closing step, the steps open and close as `dijkstra` writes them, and the counts add up |
| Dijkstra.Dijkstra | src/algorithms/dijkstra.ts:4-108 | each visited node once, the start first; visited exactly when the node is the start or its distance is finite; `Infinity` exactly for unreachable nodes; with no negative weights each finite distance is that of a cheapest path; predecessors are null exactly for the start and unreachable nodes, and are ranked links along arcs |
| AStar.Put | src/algorithms/astar.ts:235-241 | an id already in the open set keeps its position and takes the new entry; a new id goes last |
| AStar.DeleteAt | src/algorithms/astar.ts:165 | deleting the id at a position removes exactly that entry and keeps the others in order |
| AStar.LowestIndex | src/algorithms/astar.ts:126-134 | the pick is an entry of the open set, and none exactly when the set is empty |
| AStar.LowestLeast | src/algorithms/astar.ts:126-134 | the pick has the least `f`, and is the first of several least entries |
| AStar.Lowest | src/algorithms/astar.ts:126-134 | the scan picks the entry `LowestIndex` names |
| AStar.Heuristics | src/algorithms/astar.ts:93-94 | every node id has a heuristic value |
| AStar.HeuristicsLast | src/algorithms/astar.ts:93-94 | an id's value is the weight (or 0) of the last node with that id |
| AStar.InitScores | src/algorithms/astar.ts:93-98 | the loop sets the heuristics, every g score to `Infinity` and every predecessor to null |
| AStar.ReconstructPath | src/algorithms/astar.ts:13-26 | the path ends at the target, starts at a node without predecessor, and each node's predecessor comes just before it |
| AStar.PathEdges | src/algorithms/astar.ts:29-35 | one pointer per consecutive pair of nodes |
| AStar.PathNodesEdges | src/algorithms/astar.ts:29-35 | the pointers between the nodes of a path are its hops, each along an arc |
| AStar.TreeEdges | src/algorithms/astar.ts:38-46 | a pointer from the predecessor to the node for every node that has one, in `Object.entries` order |
| AStar.SelectLowest | src/algorithms/astar.ts:126-139 | the picked entry is not closed and is a node whose recorded distance is its g score; with a zero heuristic, no path undercuts it |
| AStar.RelaxState | src/algorithms/astar.ts:227-241 | relaxing to a strictly lower g score keeps the search state |
| AStar.ExamineArc | src/algorithms/astar.ts:188-259 | one arc is reported rejected when its end is closed, else inspected, and relaxed when the g score strictly drops |
| AStar.ExamineArcs | src/algorithms/astar.ts:188-259 | the loop goes through every arc of the current node |
| AStar.Expand | src/algorithms/astar.ts:165-259 | a round that misses the target closes the picked node, records its visit and goes through its arcs |
| AStar.Search | src/algorithms/astar.ts:124-260 | the main loop ends with the target picked or the open set empty |
| AStar.Rounds | src/algorithms/astar.ts:124-260 | the rounds after the opening step keep the state and record invariants |
| AStar.Round | src/algorithms/astar.ts:124-260 | one round expands the picked entry and scans the open set again |
| AStar.HitReady | src/algorithms/astar.ts:139-141 | the picked entry's g score is its recorded distance; with a zero heuristic and no negative weights, no path to it is cheaper |
| AStar.MissUnreachable | src/algorithms/astar.ts:262-271 | when the open set runs empty first, no path leads from the start to the target |
| AStar.ChainPath | src/algorithms/astar.ts:13-26 | walking the predecessors back from a node with a finite g score lists the nodes of its recorded path |
| AStar.Hit | src/algorithms/astar.ts:139-162 | the path runs from the start to the target along arcs, costs the target's g score and is the closing step's highlight; the visited count is the closed nodes plus one |
| AStar.Miss | src/algorithms/astar.ts:262-279 | the closing step reports no path, with an infinite total cost |
| AStar.Settle | src/algorithms/astar.ts:124-260 | the search ends with a pick of the target, whose g score is a lower bound under a zero heuristic, or no pick, when the target is unreachable |
| AStar.Run | src/algorithms/astar.ts:84-279 | the search between two different nodes meets its outcome |
| AStar.AStar | src/algorithms/astar.ts:56-280 | a lone error step when either end is not a node; a lone step with the one-node path when the start is the target; otherwise a search that opens like Dijkstra's, closes each node at most once, and either finds a path along arcs whose cost is its total (cheapest with a zero heuristic and no negative weights) or reports none, when none exists |
| AStar.AStarSteps | src/algorithms/astar.ts:283-289 | the steps alone, with the same opening, closing and visiting facts |
| AStar.OutcomeSteps | src/algorithms/astar.ts:283-289 | the step facts of an outcome, stated on the steps alone |
| FwMatrix.Relaxed | src/algorithms/floydWarshall.ts:54-60 | an entry visited in round k is the lesser of itself and the path through k, and the diagonal and row and column k are left alone |
| FwMatrix.RoundsLower | src/algorithms/floydWarshall.ts:42-72 | no round raises an entry |
| FwMatrix.RoundsDiagonal | src/algorithms/floydWarshall.ts:54 | the diagonal never changes |
| FwMatrix.RoundsSymmetric | src/algorithms/floydWarshall.ts:42-72 | a symmetric matrix stays symmetric |
| FwMatrix.RoundsWitness | src/algorithms/floydWarshall.ts:56-59 | every finite entry off the diagonal after k rounds is the cost of a walk whose inner nodes come before k |
| FwMatrix.RoundsLeast | src/algorithms/floydWarshall.ts:56-59 | with no negative entry, no walk whose inner nodes come before k is cheaper than the entry after k rounds |
| FwMatrix.Shortest | src/algorithms/floydWarshall.ts:42-72 | with no negative entry, the final matrix holds off its diagonal the cost of a cheapest walk, and `Infinity` exactly where there is none |
| FwMatrix.Triangle | src/algorithms/floydWarshall.ts:42-72 | with no negative entry, the final matrix satisfies the triangle inequality off its diagonal |
| FloydWarshall.NodeIndex | src/algorithms/floydWarshall.ts:10 | an id maps to the position of the last node with that id |
| FloydWarshall.IndexNodes | src/algorithms/floydWarshall.ts:10 | the loop fills the index with those positions |
| FloydWarshall.Blank | src/algorithms/floydWarshall.ts:13-18 | `Infinity` everywhere but on the diagonal, which holds 0 |
| FloydWarshall.NewMatrix | src/algorithms/floydWarshall.ts:13-18 | the array holds the blank matrix |
| FloydWarshall.WrittenFails | src/algorithms/floydWarshall.ts:21-29 | writing the edges throws exactly when an edge's `from`, or the `to` of an undirected edge, is not a node id |
| FloydWarshall.WrittenEntries | src/algorithms/floydWarshall.ts:21-29 | each written entry holds the weight of the last edge that wrote it, or its initial value |
| FloydWarshall.WriteEdges | src/algorithms/floydWarshall.ts:21-29 | the loop writes the edges into the array, and fails exactly when a write throws |
| FloydWarshall.InitialSymmetric | src/algorithms/floydWarshall.ts:26-28 | an undirected graph writes a symmetric matrix |
| FloydWarshall.InitialNonNegative | src/algorithms/floydWarshall.ts:21-29 | with no negative weight, no entry of the written matrix is negative |
| FloydWarshall.CopyMatrix | src/algorithms/floydWarshall.ts:31 | the copy is square, of the array's size, with the array's entries |
| FloydWarshall.Visit | src/algorithms/floydWarshall.ts:54-69 | one pair of round k: the entry is lowered to the path through k when that is strictly less, and a `matrix-update` step shows it |
| FloydWarshall.RowPass | src/algorithms/floydWarshall.ts:53-70 | the j loop leaves row i relaxed and records its updates |
| FloydWarshall.RoundPass | src/algorithms/floydWarshall.ts:52-71 | the i loop leaves the matrix after round k and records its updates |
| FloydWarshall.Passes | src/algorithms/floydWarshall.ts:42-72 | the k loop leaves the final matrix and records one `custom` step per round and its updates |
| FloydWarshall.FloydWarshall | src/algorithms/floydWarshall.ts:4-83 | fails exactly when writing the edges throws; otherwise the steps are the first frame, the rounds and the final frame of the trace from the written matrix |
| FloydWarshall.TraceCounts | src/algorithms/floydWarshall.ts:33-80 | a run records n + 2 `custom` steps and one `matrix-update` per lowered entry, and nothing else |
| FloydWarshall.TraceBetween | src/algorithms/floydWarshall.ts:42-72 | entries never increase: every step shows entries between the final matrix and the written one |
| FloydWarshall.TraceUpdatesShown | src/algorithms/floydWarshall.ts:58-68 | every `matrix-update` step shows the write it reports |
| FloydWarshall.TraceEnds | src/algorithms/floydWarshall.ts:33-39 | the first frame shows the written matrix and the last one the final matrix; both are `custom` and highlight nothing |
| TextFormat.SplitLines | src/lib/textParser.ts:192-194 | the lines hold no break, and "\r\n" counts as one separator |
| TextFormat.SplitJoin | src/lib/textParser.ts:192-194 | splitting undoes joining with "\n" when no line holds a break |
| TextFormat.Words | src/lib/textParser.ts:25 | the maximal runs of non-space characters, in order |
| TextFormat.WordsShape | src/lib/textParser.ts:25 | every word is a non-empty run of non-space characters |
| TextFormat.ThreeWords | src/lib/textParser.ts:25 | three words separated by white space are exactly those three words |
| TextFormat.DigitPrefix | src/lib/textParser.ts:282 | the longest prefix of decimal digits |
| TextFormat.ParseDecimal | src/lib/textParser.ts:282 | `parseFloat` on digits and dots: none exactly when the text does not start with a digit or a point followed by a digit |
| TextFormat.ParseNatText | src/lib/textParser.ts:282 | a natural number written by `toString` parses back to itself |
| TextParser.Refusal | src/lib/textParser.ts:343-358 | the error carries the rule, its type and the line number |
| TextParser.ParseEdgeLine | src/lib/textParser.ts:199-314 | an accepted line gives a definition with its line number, its raw text and a positive weight; a refused one gives an error on that line, never a self-loop or limit error |
| TextParser.CheckTokens | src/lib/textParser.ts:220-313 | the same, on the three tokens the line format regex captures |
| TextParser.TokensAccepted | src/lib/textParser.ts:220-313 | accepted exactly when there are three tokens, the first two vertex names and the third an acceptable weight; the definition carries those names and the parsed weight |
| TextParser.TokensRefused | src/lib/textParser.ts:207-292 | which check refuses: the token count first (with the whole line as column range), then the source, then the target, and only then the weight |
| TextParser.Resolve | src/lib/textParser.ts:16-32 | every option given wins over the default, and no options give the defaults |
| TextParser.Classify | src/lib/textParser.ts:41-66 | a line is skipped exactly when it is blank; an accepted definition carries the line number and the trimmed line |
| TextParser.Decide | src/lib/textParser.ts:49-66 | accepted exactly when parsed, and not a self-loop unless self-loops are allowed; a refusal is kept as it is; a self-loop gets its own error |
| TextParser.AcceptedFacts | src/lib/textParser.ts:40-84 | every accepted definition joins two vertex names by a positive weight, and is no self-loop unless self-loops are allowed |
| TextParser.LastWins | src/lib/textParser.ts:71-82 | the reference reading of "last definition wins": only definitions of the input are kept |
| TextParser.FindPair | src/lib/textParser.ts:74-76 | -1 exactly when no definition has the pair; otherwise the first index that has it |
| TextParser.LastWinsSnoc | src/lib/textParser.ts:71-82 | adding a definition at the end removes the earlier definition of its pair and appends it |
| TextParser.LastWinsUnique | src/lib/textParser.ts:71-82 | after "last wins" each pair has one definition |
| TextParser.LastWinsPairs | src/lib/textParser.ts:71-82 | "last wins" loses no pair |
| TextParser.LastWinsEndpoints | src/lib/textParser.ts:68-82 | "last wins" keeps the vertex set |
| TextParser.SpliceRemovesPair | src/lib/textParser.ts:74-79 | with each pair defined once, `splice(findIndex(...), 1)` removes exactly the definitions of that pair |
| TextParser.Store | src/lib/textParser.ts:71-82 | storing removes the earlier definition of the pair when duplicates are allowed, then appends |
| TextParser.Record | src/lib/textParser.ts:49-83 | the rest of one pass records the error, or adds the vertices and stores the definition |
| TextParser.ScanLine | src/lib/textParser.ts:40-84 | one pass of the loop changes the errors, definitions and vertices as `Classify` decides |
| TextParser.ScanLines | src/lib/textParser.ts:40-84 | the loop's errors are the line errors; the definitions are the accepted ones after "last wins" (or all of them); the vertices are their endpoints |
| TextParser.LimitErrors | src/lib/textParser.ts:86-103 | a too-many-nodes error exactly when the vertex count exceeds the limit, and a too-many-edges error exactly when the definition count does, both on line 0 |
| TextParser.CheckLimits | src/lib/textParser.ts:86-103 | the two checks append the limit errors |
| TextParser.AdjacencySpec | src/lib/textParser.ts:319-338 | the keys are exactly the endpoints, and each key's list holds the names it is joined to, in definition order |
| TextParser.AdjListSymmetric | src/lib/textParser.ts:329-334 | `b` is listed for `a` exactly when `a` is listed for `b` |
| TextParser.AdjListTotal | src/lib/textParser.ts:322-335 | the lists of all endpoints together hold twice as many names as there are definitions |
| TextParser.BuildAdjacencyMap | src/lib/textParser.ts:319-338 | the loop builds the adjacency map of the definitions |
| TextParser.ParseText | src/lib/textParser.ts:30-149 | the result is the outcome of the lines: line errors then limit errors, the kept definitions, the vertices, their adjacency, the counts, and success exactly when there is no error |
| TextParser.IncrementalParse | src/lib/textParser.ts:176-187 | a full parse with the default options, its top-level metadata marked incremental |
| TextParser.ValidateText | src/lib/textParser.ts:154-171 | the errors are the refusals of `parseEdgeLine` on the non-blank lines, in line order |
| TextParser.ValidateLine | src/lib/textParser.ts:158-167 | one pass of the loop adds the refusal of that line, if any |
| TextParser.RefusalsOfLine | src/lib/textParser.ts:154-171 | on one line, `validateText` reports what `parseText` reports, unless that is a self-loop refusal |
| TextParser.ValidateMatchesParse | src/lib/textParser.ts:154-171 | `validateText` reports the line errors of `parseText` except the self-loop ones, whatever the options |
| TextParser.ParsedTextIsValid | src/lib/textParser.ts:154-171 | text that `parseText` accepts is valid for `validateText` too |
| TextParser.CreateGraphTextRepresentation | src/lib/textParser.ts:367-379 | the content and its split lines; the errors of `validateText`; valid exactly when there are none |
| GraphSerializer.Resolve | src/lib/graphSerializer.ts:12-23 | every option given wins over the default, and no options give the defaults |
| GraphSerializer.FindNode | src/lib/graphSerializer.ts:62-63 | the first node with the id, or none when no node has it |
| GraphSerializer.Name | src/lib/graphSerializer.ts:71-72 | an absent or empty label falls back to the id |
| GraphSerializer.DefinitionOf | src/lib/graphSerializer.ts:60-78 | a definition exactly when both ends are nodes, with their names and the edge's weight |
| GraphSerializer.ExtractEdgeDefinitions | src/lib/graphSerializer.ts:57-82 | the loop gives the definitions of the edges in order, skipping edges with a missing end |
| GraphSerializer.ExtractedCount | src/lib/graphSerializer.ts:159-169 | extraction keeps every edge exactly when `canSerializeGraph` accepts the graph |
| GraphSerializer.ExtractedEach | src/lib/graphSerializer.ts:57-82 | when every end is a node, the definitions are those of the edges, one for one and in order |
| GraphSerializer.SortDefinitions | src/lib/graphSerializer.ts:87-100 | the sorted definitions are a permutation of the input, in comparator order |
| GraphSerializer.SortOrdered | src/lib/graphSerializer.ts:87-100 | no later definition goes before an earlier one |
| GraphSerializer.SortPairs | src/lib/graphSerializer.ts:87-100 | sorting keeps the pairs and keeps them unique |
| GraphSerializer.StripZeros | src/lib/graphSerializer.ts:135 | the result is a prefix of the input, and text without trailing zeros is left alone |
| GraphSerializer.WeightTextAsWritten | src/lib/graphSerializer.ts:128-136 | an integer is written by `toString`; other values fail exactly for a precision outside 0 to 100 |
| GraphSerializer.WeightText | src/lib/graphSerializer.ts:128-136 | the same, except that at precision 0 only zeros after a point are stripped; at any other precision it agrees with the code as written |
| GraphSerializer.IntegerZerosStripped | src/lib/graphSerializer.ts:135 | as written, 10.4 at precision 0 is written "1", which reads back as 1, and 0.4 is written as an empty token |
| GraphSerializer.WholeRounding | src/lib/graphSerializer.ts:128-136 | as intended, a value that is not an integer is written at precision 0 as the nearest integer, and reads back as that integer |
| GraphSerializer.PadEnd | src/lib/graphSerializer.ts:118-119 | the text padded with spaces up to the width |
| GraphSerializer.FormatEdgeLine | src/lib/graphSerializer.ts:105-123 | fails exactly when the weight cannot be written; the weight token is the corrected `WeightText`, which differs from the code only for a non-integer weight at precision 0 |
| GraphSerializer.FormatLines | src/lib/graphSerializer.ts:46-49 | one line per definition, or the precision error |
| GraphSerializer.PushLines | src/lib/graphSerializer.ts:46-49 | the loop appends each definition's line, and fails exactly when a line cannot be written |
| GraphSerializer.Serialize | src/lib/graphSerializer.ts:22-52 | the text `serialize` returns for the resolved options, or the error it throws; the lines use the corrected weight text, so a non-integer weight at precision 0 is written as its nearest integer |
| RoundTrip.LineShape | src/lib/graphSerializer.ts:105-123 | the line of a definition is its two names and its weight token, separated by white space |
| RoundTrip.LineWords | src/lib/graphSerializer.ts:105-123 | the line holds no break, is its own trim, and its words are the two names and the weight token |
| RoundTrip.LineReadBack | src/lib/graphSerializer.ts:105-123 | the parser accepts the line written for a writable definition, as the same pair with the weight its token reads as |
| RoundTrip.LinesReadBack | src/lib/graphSerializer.ts:46-51 | the lines of writable definitions raise no error and read back one definition per line, in order |
| RoundTrip.SerializeReadBack | src/lib/graphSerializer.ts:22-52 | serializing without the header and parsing back reports no line error, and reads one definition per written edge, with its pair and the weight its token reads as |
| RoundTrip.SerializeParsePairs | src/lib/graphSerializer.ts:22-52 | the parsed graph has exactly the pairs of the extracted definitions, and one definition per edge when those pairs are distinct |
| RoundTrip.IntegerWeight | src/lib/graphSerializer.ts:130-131 | a positive integer weight is written as its digits and read back exactly |
| RoundTrip.SerializeIntegerWeights | src/lib/graphSerializer.ts:22-52 | a graph with vertex-name ids and positive integer weights reads back with exactly its pairs and weights, in written order |
| RoundTrip.BuiltExtracted | src/lib/graphModelTransformer.ts:11-25 | serializing a built graph writes each definition as it was parsed, one for one and in order |
| RoundTrip.ReparseBuilt | src/lib/graphModelTransformer.ts:11-25 | parse, build, serialize without the header and parse again: success, with the same number of definitions, the same pairs and the same vertices |
| GraphModelTransformer.SortVertices | src/lib/graphModelTransformer.ts:31 | the vertices in ascending order, each once |
| GraphModelTransformer.AscendingUnique | src/lib/graphModelTransformer.ts:31 | a set of names has one ascending order, so the result does not depend on the order in which the set was filled |
| GraphModelTransformer.CreateNodesFromVertices | src/lib/graphModelTransformer.ts:30-48 | one node per vertex, in ascending order, each labelled with its name and placed by the layout at its index |
| GraphModelTransformer.NodeIndex | src/lib/graphModelTransformer.ts:85-88 | each id maps to a node with that id |
| GraphModelTransformer.NodeIndexLast | src/lib/graphModelTransformer.ts:85-88 | the node an id maps to is the last node with that id |
| GraphModelTransformer.IndexNodes | src/lib/graphModelTransformer.ts:85-88 | the loop fills the map of existing nodes |
| GraphModelTransformer.PlaceAll | src/lib/graphModelTransformer.ts:120-138 | the loop places one node per sorted name |
| GraphModelTransformer.CreateNodesPreservingPositions | src/lib/graphModelTransformer.ts:106-141 | one node per vertex, in ascending order; an existing node keeps its record with the name as its label; a new one is placed by the layout at the count of new names before it |
| GraphModelTransformer.PlacedKeeps | src/lib/graphModelTransformer.ts:120-138 | every placed node is labelled with its name; an existing node keeps its position and heuristic weight; a new one has no weight |
| GraphModelTransformer.CreateEdgesFromDefinitions | src/lib/graphModelTransformer.ts:53-72 | the loop gives one undirected edge per definition that `createEdge` accepts, in order |
| GraphModelTransformer.BuiltEdgesCount | src/lib/graphModelTransformer.ts:53-72 | only a negative weight is refused, so every definition yields an edge exactly when no weight is negative |
| GraphModelTransformer.BuiltEdgesEach | src/lib/graphModelTransformer.ts:53-72 | with no negative weight, edge k is the undirected edge of definition k, with its names and weight |
| GraphModelTransformer.ParsedGraphToModel | src/lib/graphModelTransformer.ts:11-25 | an undirected graph with the sorted vertex nodes and the built edges |
| GraphModelTransformer.UpdateGraphModel | src/lib/graphModelTransformer.ts:78-101 | the sorted vertex nodes, keeping existing records; the built edges; the old direction flag |
| GraphModelTransformer.UpdateKeepsPosition | src/lib/graphModelTransformer.ts:78-101 | every node is labelled with its name, and a node whose id is still a vertex comes through with its whole record |
| GraphContext.NodeIdForSpec | src/context/GraphContext.tsx:47-54 | the id is the first letter that is not taken; only when all 26 are taken is it "N" followed by the node count plus one |
| GraphContext.GenerateNodeId | src/context/GraphContext.tsx:47-54 | the loop picks that id |
| GraphContext.AddedIdFresh | src/context/GraphContext.tsx:95-102 | while a letter is free, the id `addNode` picks is new, so the ids stay free of repetitions |
| GraphContext.AppendFreshNode | src/context/GraphContext.tsx:95-102 | appending a node with a new id keeps the node ids free of repetitions |
| GraphContext.FallbackCollides | src/context/GraphContext.tsx:53 | with all letters taken and a node already called "N28", a graph of 27 nodes is given "N28" again |
| GraphContext.NodesWithout | src/context/GraphContext.tsx:107 | exactly the nodes with another id, and no more nodes than before |
| GraphContext.EdgesAvoiding | src/context/GraphContext.tsx:108 | exactly the edges that do not touch the node, and no more edges than before |
| GraphContext.EdgesWithoutId | src/context/GraphContext.tsx:137 | exactly the edges with another id, and no more edges than before |
| GraphContext.RemoveNodeKeepsClosed | src/context/GraphContext.tsx:104-112 | removing a node removes every edge at it, so no edge is left hanging, and the node is gone |
| GraphContext.RemoveEdgeKeepsClosed | src/context/GraphContext.tsx:134-139 | removing edges leaves no edge hanging |
| GraphContext.EdgesAddedSpec | src/context/GraphContext.tsx:121-132 | an edge is appended exactly when the ends differ, are not yet joined and the weight is valid; it joins them with the graph's direction |
| GraphContext.AddEdgeKeepsSimple | src/context/GraphContext.tsx:121-132 | `addEdge` never joins a pair twice |
| GraphContext.RemoveEdgeKeepsSimple | src/context/GraphContext.tsx:134-139 | removing edges never joins a pair twice |
| GraphContext.NodesUpdated | src/context/GraphContext.tsx:117 | the nodes with the id take the update's fields, and the others stay |
| GraphContext.UpdateNodeKeepsIds | src/context/GraphContext.tsx:114-119 | an update that leaves ids alone keeps the ids, so no edge is left hanging |
| GraphContext.EdgesUpdated | src/context/GraphContext.tsx:144 | the edges with the id take the update's fields, and the others stay |
| GraphContext.UpdateEdgeKeepsEnds | src/context/GraphContext.tsx:141-146 | an update that leaves the ends alone keeps the graph closed and simple |
| GraphContext.ReweightSpec | src/context/GraphContext.tsx:158-161 | a weight update changes that edge's weight and nothing else |
| GraphContext.FirstPerKeyStep | src/context/GraphContext.tsx:197-203 | one more edge adds its key, and the edge itself when the key is new |
| GraphContext.FirstPerKeySpec | src/context/GraphContext.tsx:195-209 | merging keeps one edge per key, for every key, each an undirected copy of an edge it was given |
| GraphContext.KeySeqDirected | src/context/GraphContext.tsx:191 | making edges directed keeps their keys |
| GraphContext.ToggleTwiceKeeps | src/context/GraphContext.tsx:183-216 | with distinct keys and undirected edges, toggling to directed and back gives the same edges |
| GraphContext.KeysCollide | src/context/GraphContext.tsx:198 | ids containing '-' make keys collide: an edge from "a-b" to "c" is dropped after one from "a" to "b-c" |
| GraphContext.Editor.constructor | src/context/GraphContext.tsx:56-88 | the saved graph or the default one; no selection, start node "A", no steps, index -1, not running |
| GraphContext.Editor.AddNode | src/context/GraphContext.tsx:95-102 | one more node, labelled with the generated id, at the given position; nothing else changes |
| GraphContext.Editor.RemoveNode | src/context/GraphContext.tsx:104-112 | the node and every edge at it go; a selection or start node naming it is cleared |
| GraphContext.Editor.UpdateNode | src/context/GraphContext.tsx:114-119 | the nodes with the id take the update's fields; nothing else changes |
| GraphContext.Editor.AddEdge | src/context/GraphContext.tsx:121-132 | the edges become `EdgesAdded`; the error `createEdge` throws leaves everything unchanged |
| GraphContext.Editor.RemoveEdge | src/context/GraphContext.tsx:134-139 | the edges with the id go; nothing else changes |
| GraphContext.Editor.UpdateEdge | src/context/GraphContext.tsx:141-146 | the edges with the id take the update's fields; nothing else changes |
| GraphContext.Editor.UpdateEdgeWeight | src/context/GraphContext.tsx:148-169 | succeeds exactly for a valid weight and a known id; then only that edge's weight changes and the run is reset; otherwise nothing changes |
| GraphContext.Editor.ClearGraph | src/context/GraphContext.tsx:171-177 | an empty undirected graph, no selection, no start node, no steps, index -1; the running flag stays as it was |
| GraphContext.Editor.SetDirected | src/context/GraphContext.tsx:179-181 | only the graph's direction flag changes |
| GraphContext.Editor.ToggleDirection | src/context/GraphContext.tsx:183-216 | to directed, every edge is marked directed; to undirected, the first edge per unordered pair is kept, undirected; the run is reset either way |

## Left out

- JavaScript numbers are doubles; the model uses exact reals, in the `Number` datatype (NaN, ±Infinity or a finite real). There is no rounding and no overflow or underflow in `+`, `toFixed` or `parseFloat`. The pair-colour hue is computed exactly from the decimal constant 0.618033988749895.
- Edge and node weights are `real`; distances are `Dist` (`Inf` or a finite real).
- ParseDecimal (TextFormat.ParseDecimal) and CheckTokens (TextParser.CheckTokens): no overflow or underflow. A weight token of 309 or more integer digits is `Infinity` to `parseFloat` and is refused in JavaScript; the model accepts it at its exact value. A token too small for a double, with more than about 324 zeros after the point, reads as 0 in JavaScript and is refused as not positive; the model accepts it as positive.
- Dfs (Dfs.Dfs): the test `neighbor in predecessors` also sees inherited keys of a plain object. A node named `constructor`, `toString`, `valueOf` or another `Object.prototype` member never gets a predecessor in JavaScript; the model gives it one. `__proto__`, which is a valid vertex name, cannot be set as a key at all.
- Object-record lookups in `bfs`, `dijkstra`, `astar` and `floydWarshall` treat every key as an ordinary own key. The `Object.prototype` names above behave differently in JavaScript.
- HashString (PairColor.HashString) and PairKey (Strings.PairKey): strings are sequences of Unicode scalar values. JavaScript reads UTF-16 code units. A character outside the Basic Multilingual Plane is folded as one code in the model but as two surrogates by `charCodeAt`, so its hash differs. `sort` compares code units, so U+10000 sorts before U+FFFF in JavaScript but after it in the model. Names the text parser accepts are ASCII, where the two agree.
- SortDefinitions (GraphSerializer.SortDefinitions): `localeCompare` is modelled as character order. Locale collation, such as case-insensitive ordering, is not modelled.
- Step ids: `Date.now()` and `Math.random()` are replaced by the step's position (`Steps.StepId`), so the model's ids are distinct where JavaScript's are only likely to be. Edge ids take the clock reading as a parameter (`now`, or a `Clock` function in the transformer).
- The `comment` text of each step's state, the messages and suggestions of validation errors, and the message of `createEdge`'s error are not modelled. A refusal carries the rule that refused it in place of its message.
- `parseText`'s `performance.now()` timing and its `catch` path are not modelled; nothing in the modelled loop throws. `GraphTextRepresentation.lastModified` (a `Date`) is not modelled.
- Serialize (GraphSerializer.Serialize) and FormatEdgeLine (GraphSerializer.FormatEdgeLine): weights are written with the corrected `WeightText`, not with the code as written. At precision 0 a non-integer weight is written as its nearest integer (10.4 as "10"), where the code writes "1"; 0.4 becomes "0" where the code writes an empty token. At every other precision, and for integer weights, the two agree (see "## Findings").
- IntText (GraphSerializer.IntText) and ToFixed (GraphSerializer.ToFixed): every value is written in plain digits. JavaScript's `toString` and `toFixed` switch to exponent notation at 10^21 and above, so weights that large are written differently.
- `strictWhitespace` is carried in the options but never read, as in the code. The `duplicate_edge` error type is declared but never produced.
- ReparseBuilt (RoundTrip.ReparseBuilt) requires that every weight, written at the chosen precision, reads back as a positive number. A weight that rounds to 0 (0.004 at precision 2) is written as an empty or zero token, which the parser refuses. The round trip is therefore stated for text written without the `#` header, which the parser cannot read.
- The layout's `Math.cos`/`Math.sin` positions are a parameter (`Layout`) of the transformer.
- The editor's `mode`, `edgeStartNode`, the `useEffect` that saves to `localStorage`, `loadGraphState` (the constructor's `saved` parameter) and the React provider plumbing are not modelled. Neither are the `async`/`Promise` wrappers of `updateEdgeWeight` and `toggleDirection`.
- UpdateNode (GraphContext.Editor.UpdateNode) and UpdateEdge (GraphContext.Editor.UpdateEdge): a `Partial` update is a record of optional fields. A field set explicitly to `undefined`, which the spread copies over, is not modelled.
- `graphToText` and `getGraphEdgeDefinitions` only forward to `serialize` and `extractEdgeDefinitions`; `graphSerializer` and `graphTextParser` are singleton instances. They have no model of their own.
- AddedIdFresh (GraphContext.AddedIdFresh): stated on the list of ids. The statement on nodes follows with GraphContext.AppendFreshNode.

## Findings

| source | as written | input that shows it | evidently intended | confidence | as-written member | corrected member |
|---|---|---|---|---|---|---|
| src/lib/graphSerializer.ts:128-136 | `toFixed(precision).replace(/\.?0+$/, '')` also strips zeros of the integer part when precision is 0, so 10.4 is written "1" and 0.4 as an empty token | weight 10.4 with precision 0 | strip only zeros after a decimal point, keeping the integer digits ("10") | high (not executed) | GraphSerializer.IntegerZerosStripped | GraphSerializer.WholeRounding |
