# huskymaps core in Dafny

A verified model of the algorithmic core of huskymaps. It covers:

- **Seam carving.** The `SeamFinder` contract: what a horizontal or vertical seam is, what it costs, and that a finder returns a seam of least energy. `findVertical` is `findHorizontal` on the transposed picture. `SeamCarver` removes one seam at a time by copying every other pixel of its 2-D picture into a new one.
- **Shortest paths.** Three solvers: `BellmanFordSolver` (BFS for the reachable vertices, then |V| − 1 relaxation rounds), `SPFASolver` (a FIFO worklist, `OptimizedArrayQueueSet`, kept in lockstep with a membership set) and `AStarSolver` (a `DoubleMapMinPQ` frontier keyed by distance plus estimate). All three keep `distTo`/`edgeTo` maps and share the `solution` walk back along `edgeTo`.
- **Priority queue.** `DoubleMapMinPQ`, two maps indexing each other, and the `MinPQ` default methods.
- **Deque.** The `Deque` contract, `ArrayListDeque`, and the property test that compares it against a reference deque.
- **Autocomplete.** `TreeSetAutocomplete`, prefix queries over a sorted set of terms.
- **DNA search.** The suffix views of `DNASearch.SuffixCollection`.
- **Route encoding.** `MapServer.encode`, the Encoded Polyline Algorithm Format.

Modelling choices:

- Java `double` weights and priorities become `nat` edge weights and `int` priorities.
- A vertex missing from `distTo` is at infinite distance.
- Java `null` returns become `Option.None`.
- Thrown exceptions become `Result.Failure`/`Outcome.Fail` carrying the exception's kind.
- Each file is one module:
  - `wrappers.dfy`, `sequences.dfy`: shared datatypes and sequence lemmas.
  - `seam_finder.dfy`, `seam_carver.dfy`: seam carving.
  - `shortest_paths.dfy`: what the three solvers share.
  - `spfa.dfy`, `astar.dfy`, `bellman_ford.dfy`: one solver each.
  - `min_pq.dfy`, `deques.dfy`, `autocomplete.dfy`, `dna_search.dfy`, `polyline.dfy`: the remaining structures.

Every state-changing operation is a method. These include:

- the deque mutators and the priority-queue mutators;
- the worklist's `offer`/`poll`;
- the solvers' loops and the seam carver's copy loops;
- the polyline encoder's loops, `toString`, the suffix iterator and `allMatches`.

Each method is proved against functions and predicates whose properties are lemmas:

- `Reversed` and the two-stack `RefDeque` for deques;
- `Indexes` and `DrainedInOrder` for the priority queue;
- `Labelled`, `Relaxed` and `SearchState` for the solvers;
- `RemoveHorizontalSeam` for the seam carver;
- `EncodeRoute`/`DecodeRoute` for the encoder.

## Model

| member | source | states |
|---|---|---|
| SeamFinding.TransposedTwice | src/seamfinding/SeamFinder.java:37-39 | transposing twice gives the picture back |
| SeamFinding.SeamExistsIff | src/seamfinding/SeamFinder.java:19-27 | a valid horizontal seam (one in-range row per column, neighbours at most one apart) exists exactly when the picture has rows or no columns |
| SeamFinding.MinimumSeamExists | src/seamfinding/SeamFinder.java:19-27 | every picture with a seam has a seam of least summed energy, so the finder contract can be met |
| SeamFinding.VerticalSeamsAreTransposedHorizontal | src/seamfinding/SeamFinder.java:29-39 | a vertical seam of a picture is exactly a horizontal seam of its transposition |
| SeamFinding.FindVertical | src/seamfinding/SeamFinder.java:37-39 | given a finder meeting the horizontal contract, the result is a valid vertical seam (length = height) of least energy as measured on the transposed picture |
| SeamFinding.TransposedSeamEnergy | src/seamfinding/SeamFinder.java:37-39 | for an orientation-independent energy function, the transposed seam's energy is the vertical seam's own energy |
| Carving.InsertUndoesDelete | src/main/java/SeamCarver.java:117-124 | deleting one pixel of a column and inserting it back restores the column |
| Carving.ValidSeamsFit | src/main/java/SeamCarver.java:114-147 | every valid seam lets the copy loops run without leaving the picture |
| Carving.RemoveHorizontalSeam | src/main/java/SeamCarver.java:116-124 | same width, height − 1; column x keeps rows above seam[x] and moves rows below it up by one |
| Carving.RemoveVerticalSeam | src/main/java/SeamCarver.java:136-144 | width − 1, same height; row y keeps columns left of seam[y] and moves columns right of it left by one |
| Carving.RemovalLosesOnlyTheSeam | src/main/java/SeamCarver.java:117-124 | re-inserting the seam's pixels into the carved picture restores the original |
| Carving.VerticalRemovalMirrorsHorizontal | src/main/java/SeamCarver.java:134-147 | removing a vertical seam is removing it horizontally from the transposed picture and transposing back |
| Carving.SeamCarver.constructor | src/main/java/SeamCarver.java:56-58 | a fresh pixel array holding the given (decoded) picture, with the energy function and finder stored |
| Carving.SeamCarver.Snapshot | src/main/java/SeamCarver.java:41 | the array seen as a well-formed picture of the same size and pixels |
| Carving.SeamCarver.Open | src/main/java/SeamCarver.java:52-59 | fails with IllegalArgument exactly when the file, the energy function or the finder is missing; otherwise holds the given picture, function and finder |
| Carving.SeamCarver.CopyAroundHorizontalSeam | src/main/java/SeamCarver.java:116-124 | a fresh array one row shorter whose pixels are those of `RemoveHorizontalSeam` |
| Carving.SeamCarver.CopyRowAroundSeam | src/main/java/SeamCarver.java:138-143 | row y of the result is row y of the source without column s; other rows are untouched |
| Carving.SeamCarver.CopyAroundVerticalSeam | src/main/java/SeamCarver.java:136-144 | a fresh array one column narrower whose pixels are those of `RemoveVerticalSeam` |
| Carving.SeamCarver.RemoveHorizontal | src/main/java/SeamCarver.java:114-127 | returns the finder's seam and replaces the picture by `RemoveHorizontalSeam`; fails without change on a picture without rows or a seam that leaves the picture; the seam is of least energy when the finder meets its contract |
| Carving.SeamCarver.RemoveVertical | src/main/java/SeamCarver.java:134-147 | the same for `findVertical` and `RemoveVerticalSeam`; the seam returned is a valid vertical seam when the finder meets its contract |
| Carving.PromptForSize | src/main/java/SeamCarver.java:98-107 | answers the first input in [3, max]; fails (input exhausted) exactly when none is |
| ShortestPaths.NeighborsLeave | src/graphs/shortestpaths/BellmanFordSolver.java:32-33 | every edge listed under a vertex leaves it |
| ShortestPaths.TargetsAreVertices | src/graphs/shortestpaths/BellmanFordSolver.java:67-68 | every edge target is among the vertices a search can meet |
| ShortestPaths.WeightAppend | src/graphs/shortestpaths/BellmanFordSolver.java:35 | the weight of a concatenated walk is the sum of the weights |
| ShortestPaths.WalkPrefix | src/graphs/shortestpaths/BellmanFordSolver.java:30-42 | a prefix of a walk is a walk and the next edge leaves where the prefix ends |
| ShortestPaths.RelaxedBoundsWalks | src/graphs/shortestpaths/SPFASolver.java:31-43 | once no edge can be relaxed, every walk from the start ends at a reached vertex whose distance is at most the walk's weight |
| ShortestPaths.StartLabelled | src/graphs/shortestpaths/SPFASolver.java:29-30 | start at distance 0 with no predecessor is a consistent labelling |
| ShortestPaths.RelaxKeepsLabelled | src/graphs/shortestpaths/SPFASolver.java:35-39 | a strict improvement through an edge (which never targets the start or loops) keeps every predecessor edge consistent |
| ShortestPaths.LabelledWalk | src/graphs/shortestpaths/SPFASolver.java:35-39 | every reached vertex has a walk from the start no heavier than its distance |
| ShortestPaths.MeasureFrame | src/graphs/shortestpaths/SPFASolver.java:31-43 | changing a vertex outside the measured list leaves the termination measure alone |
| ShortestPaths.ImprovementProgress | src/graphs/shortestpaths/SPFASolver.java:37-39 | reaching a new vertex lowers the unreached count; lowering a distance keeps it and lowers the potential |
| ShortestPaths.ImprovementCloser | src/graphs/shortestpaths/SPFASolver.java:37-39 | every strict improvement moves the search measure lexicographically down |
| ShortestPaths.LoweringKeepsRelaxedExcept | src/graphs/shortestpaths/SPFASolver.java:37-40 | lowering one distance leaves relaxed every vertex except the lowered one, which becomes pending |
| ShortestPaths.StartSearchState | src/graphs/shortestpaths/SPFASolver.java:27-30 | the initial maps with only the start pending satisfy the search invariant |
| ShortestPaths.ImproveKeepsSearchState | src/graphs/shortestpaths/SPFASolver.java:35-40 | an improvement keeps the search invariant with the target pending |
| ShortestPaths.WalkCons | src/graphs/shortestpaths/SPFASolver.java:51-54 | an edge into the start of a walk extends it, adding its weight |
| ShortestPaths.PathEdgesCons | src/graphs/shortestpaths/SPFASolver.java:51-54 | stepping back one `edgeTo` link prepends that edge to the path's edges |
| ShortestPaths.WalkBackStep | src/graphs/shortestpaths/SPFASolver.java:51-54 | one step back keeps a walk to the goal and lowers the (distance, stamp) measure |
| ShortestPaths.PathEdges | src/graphs/shortestpaths/SPFASolver.java:51-54 | the edges along a path that follows `edgeTo`, each leaving the path's vertex at its index |
| ShortestPaths.WalkBack | src/graphs/shortestpaths/SPFASolver.java:47-57 | the path ends at the goal, follows `edgeTo`, starts at a vertex without predecessor; an unreached goal gives [goal]; a reached one gives a walk from the start no heavier than its distance |
| ShortestPaths.SolutionIsShortest | src/graphs/shortestpaths/SPFASolver.java:47-57 | once nothing can be relaxed, that walk weighs exactly the goal's distance and no walk to the goal is lighter; the goal is unreached exactly when no walk reaches it |
| Spfa.OptimizedArrayQueueSet.constructor | src/graphs/shortestpaths/SPFASolver.java:74-77 | an empty queue with an empty member set, consistent with each other |
| Spfa.OptimizedArrayQueueSet.Contains | src/graphs/shortestpaths/SPFASolver.java:80-82 | answered from the set, which agrees with the queue |
| Spfa.OptimizedArrayQueueSet.Size | src/graphs/shortestpaths/SPFASolver.java:112-114 | the queue length, which is the size of the member set |
| Spfa.OptimizedArrayQueueSet.IsEmpty | src/graphs/shortestpaths/SPFASolver.java:31 | empty exactly when no element is pending |
| Spfa.OptimizedArrayQueueSet.Peek | src/graphs/shortestpaths/SPFASolver.java:100-102 | the head of the queue, or none |
| Spfa.OptimizedArrayQueueSet.Offer | src/graphs/shortestpaths/SPFASolver.java:90-97 | false and no change for a pending element; otherwise appended to the queue and the set, which stay in lockstep |
| Spfa.OptimizedArrayQueueSet.Poll | src/graphs/shortestpaths/SPFASolver.java:105-109 | removes the head from queue and set; none on an empty queue |
| Spfa.OptimizedArrayQueueSet.Add | src/graphs/shortestpaths/SPFASolver.java:40 | `AbstractQueue.add`: as `offer`, but a refused element throws IllegalState |
| Spfa.OptimizedArrayQueueSet.Remove | src/graphs/shortestpaths/SPFASolver.java:32 | `AbstractQueue.remove`: the head, or NoSuchElement on an empty queue |
| Spfa.RelaxEdgeAsWritten | src/graphs/shortestpaths/SPFASolver.java:34-41 | one edge with `perimeter.add(to)` as written: throws `IllegalState` exactly when it improves a target that is already pending; otherwise the same as the corrected `RelaxEdge` |
| Spfa.RelaxEdgesAsWritten | src/graphs/shortestpaths/SPFASolver.java:33-42 | the edge loop as written: the only way it fails is `IllegalState`, and the polled vertex stays reached |
| Spfa.AsWrittenAgreesWhenItSucceeds | src/graphs/shortestpaths/SPFASolver.java:33-42 | wherever the loop as written does not throw, it computes what the corrected loop computes |
| Spfa.AsWrittenThrowsOnExample | src/graphs/shortestpaths/SPFASolver.java:40 | on s→b (1), s→a (5), b→a (1) the written `add` throws while `a` is pending; the corrected loop lowers `a` to 2 |
| Spfa.RelaxEdgeKeepsSearchState | src/graphs/shortestpaths/SPFASolver.java:34-41 | one relaxation keeps the search invariant, with improved targets queued |
| Spfa.RelaxEdgeKeepsRelaxed | src/graphs/shortestpaths/SPFASolver.java:34-41 | after relaxing an edge of the polled vertex, only pending vertices may still have relaxable edges; no distance rises |
| Spfa.RelaxEdgesRaisesNoDistance | src/graphs/shortestpaths/SPFASolver.java:33-42 | the loop over the polled vertex's edges keeps every reached vertex reached and raises no distance |
| Spfa.RelaxEdgeMovesCloser | src/graphs/shortestpaths/SPFASolver.java:37-41 | a relaxation changes nothing or lowers the search measure |
| Spfa.RelaxOne | src/graphs/shortestpaths/SPFASolver.java:34-41 | the maps and the worklist become `RelaxEdge` of the old ones |
| Spfa.RelaxNeighbors | src/graphs/shortestpaths/SPFASolver.java:33-42 | the state becomes `RelaxEdges` over the neighbours; the invariant holds, no distance rises, the polled vertex is relaxed, and the state is unchanged or the measure dropped |
| Spfa.Search | src/graphs/shortestpaths/SPFASolver.java:24-44 | terminates with a consistent labelling in which no edge can be relaxed |
| Spfa.SPFASolver.constructor | src/graphs/shortestpaths/SPFASolver.java:24-44 | holds the graph, the start and a relaxed, consistent labelling |
| Spfa.SPFASolver.Solution | src/graphs/shortestpaths/SPFASolver.java:47-57 | ends at the goal following `edgeTo`; [goal] exactly when no walk reaches it; otherwise a shortest walk from the start |
| AStar.RemovalKeepsPrioritised | src/graphs/shortestpaths/AStarSolver.java:37 | removing the minimum keeps every frontier priority equal to distance plus estimate |
| AStar.RelaxEdgeKeepsSearchState | src/graphs/shortestpaths/AStarSolver.java:40-46 | one relaxation keeps the search invariant with the improved target on the frontier |
| AStar.RelaxEdgeKeepsPrioritised | src/graphs/shortestpaths/AStarSolver.java:45-46 | an improved target gets priority newDist + estimatedDistance(to, goal) |
| AStar.RelaxEdgeMovesCloser | src/graphs/shortestpaths/AStarSolver.java:42-46 | a relaxation changes nothing or lowers the search measure |
| AStar.RelaxEdgeKeepsRelaxed | src/graphs/shortestpaths/AStarSolver.java:38-47 | after relaxing an edge of the removed vertex, only frontier vertices may still have relaxable edges; no distance rises |
| AStar.RelaxEdgesRaisesNoDistance | src/graphs/shortestpaths/AStarSolver.java:38-48 | the loop over the removed vertex's edges keeps every reached vertex reached and raises no distance |
| AStar.RelaxOne | src/graphs/shortestpaths/AStarSolver.java:39-47 | the maps and the queue's priorities become `RelaxEdge` of the old ones |
| AStar.ExpandingStep | src/graphs/shortestpaths/AStarSolver.java:38-47 | the loop invariant over the removed vertex's edges survives one more edge |
| AStar.CloserTransitive | src/graphs/shortestpaths/AStarSolver.java:36-49 | "unchanged or closer" composes |
| AStar.ExpandingStart | src/graphs/shortestpaths/AStarSolver.java:37-38 | after `removeMin` the edge loop's invariant holds with no edge done |
| AStar.ExpandingDone | src/graphs/shortestpaths/AStarSolver.java:38-48 | after all edges: invariant, priorities and relaxation restored, and the state unchanged or closer |
| AStar.RelaxNeighbors | src/graphs/shortestpaths/AStarSolver.java:38-48 | the state becomes `RelaxEdges` over the neighbours, keeping the edge-loop invariant; no distance rises |
| AStar.ExpandMin | src/graphs/shortestpaths/AStarSolver.java:37-48 | the removed vertex had the least priority on the frontier, and the new state is `RelaxEdges` of its neighbours over the frontier without it; no distance rises; invariant kept and the measure drops (or the frontier shrinks) |
| AStar.Search | src/graphs/shortestpaths/AStarSolver.java:28-50 | runs until the frontier is empty, whatever the estimate, ending with a consistent labelling in which no edge can be relaxed |
| AStar.AStarSolver.constructor | src/graphs/shortestpaths/AStarSolver.java:28-50 | holds the graph, start, goal and a relaxed, consistent labelling |
| AStar.AStarSolver.Solution | src/graphs/shortestpaths/AStarSolver.java:57-67 | ends at the stored goal following `edgeTo`; [goal] exactly when unreachable; otherwise a shortest walk |
| BellmanFord.WalkSnoc | src/graphs/shortestpaths/BellmanFordSolver.java:32-35 | a walk extended by an edge from its end is a walk, adding the edge's weight |
| BellmanFord.WalkSuffix | src/graphs/shortestpaths/BellmanFordSolver.java:30-42 | the rest of a walk after a prefix is a walk from where the prefix ends |
| BellmanFord.WalkAppend | src/graphs/shortestpaths/BellmanFordSolver.java:30-42 | two walks joined end to start form a walk |
| BellmanFord.ClosedHoldsWalks | src/graphs/shortestpaths/BellmanFordSolver.java:64-74 | a vertex set containing the start and closed under edges contains the end of every walk |
| BellmanFord.DiscoverOne | src/graphs/shortestpaths/BellmanFordSolver.java:69-72 | discovering an unvisited target keeps discovery order, parents and walks consistent |
| BellmanFord.StartDiscovery | src/graphs/shortestpaths/BellmanFordSolver.java:62-63 | the start alone, queued and visited, is a consistent discovery state |
| BellmanFord.QueueingSkip | src/graphs/shortestpaths/BellmanFordSolver.java:69 | an edge to a visited target keeps the neighbours loop's state |
| BellmanFord.QueueingDiscover | src/graphs/shortestpaths/BellmanFordSolver.java:69-72 | an edge to an unvisited target appends it to order and queue and keeps the neighbours loop's state, breadth-first included |
| BellmanFord.DiscoverTarget | src/graphs/shortestpaths/BellmanFordSolver.java:68-72 | an unvisited target is queued and marked visited; a visited one changes nothing |
| BellmanFord.DiscoverNeighbors | src/graphs/shortestpaths/BellmanFordSolver.java:67-73 | afterwards every target of the vertex is visited and the new vertices are queued in order |
| BellmanFord.ListHead | src/graphs/shortestpaths/BellmanFordSolver.java:65-66 | moving the queue head to the result keeps the BFS invariant |
| BellmanFord.VisitNext | src/graphs/shortestpaths/BellmanFordSolver.java:65-73 | one BFS step keeps the invariant and visits a new vertex or shortens the queue |
| BellmanFord.DiscoverLayered | src/graphs/shortestpaths/BellmanFordSolver.java:69-72 | queueing an unvisited target of the vertex being expanded keeps the list breadth-first |
| BellmanFord.ReachableVertices | src/graphs/shortestpaths/BellmanFordSolver.java:58-76 | start first, no duplicates, exactly the vertices reachable from the start; in breadth-first order: each vertex follows a vertex it is a target of, parents never go back down the list, and each vertex is listed under the first listed vertex with an edge to it |
| BellmanFord.StartBounded | src/graphs/shortestpaths/BellmanFordSolver.java:27-28 | with the start at 0, distances bound every walk of no edges |
| BellmanFord.RoundExtendsBound | src/graphs/shortestpaths/BellmanFordSolver.java:30-42 | a round over all vertices turns a bound on walks of up to n edges into one on walks of up to n + 1 edges |
| BellmanFord.LastEdgeBound | src/graphs/shortestpaths/BellmanFordSolver.java:32-39 | a walk of n + 1 edges is bounded through its last edge, relaxed this round |
| BellmanFord.BelowKeepsRelaxedAgainst | src/graphs/shortestpaths/BellmanFordSolver.java:36-39 | later lowering never undoes a relaxation of this round |
| BellmanFord.LoweringKeepsRound | src/graphs/shortestpaths/BellmanFordSolver.java:36-39 | a lowering keeps distances only decreasing and the edges already relaxed |
| BellmanFord.RelaxNeighbors | src/graphs/shortestpaths/BellmanFordSolver.java:32-40 | the labelling stays consistent, distances only decrease, and every edge of the vertex ends no farther than through it |
| BellmanFord.RoundStep | src/graphs/shortestpaths/BellmanFordSolver.java:31-41 | one more vertex of the round has its edges relaxed against the round's start |
| BellmanFord.Round | src/graphs/shortestpaths/BellmanFordSolver.java:31-41 | one round: labelling kept, distances only decrease, every listed vertex's edges relaxed |
| BellmanFord.Pigeonhole | src/graphs/shortestpaths/BellmanFordSolver.java:30 | a sequence longer than its set of values repeats a value |
| BellmanFord.RepeatedVisit | src/graphs/shortestpaths/BellmanFordSolver.java:30 | a walk with at least |vertices| edges visits some vertex twice |
| BellmanFord.CutCycle | src/graphs/shortestpaths/BellmanFordSolver.java:30 | cutting a cycle out of a walk gives a shorter walk to the same end, no heavier |
| BellmanFord.AllWalksBounded | src/graphs/shortestpaths/BellmanFordSolver.java:30-42 | a bound on walks of up to |vertices| − 1 edges bounds every walk |
| BellmanFord.BoundedIsRelaxed | src/graphs/shortestpaths/BellmanFordSolver.java:30-42 | after |vertices| − 1 rounds no edge can be relaxed |
| BellmanFord.BoundedRound | src/graphs/shortestpaths/BellmanFordSolver.java:30-42 | one round raises the walk-length bound from n to n + 1 |
| BellmanFord.Solve | src/graphs/shortestpaths/BellmanFordSolver.java:24-43 | ends with a consistent labelling in which no edge can be relaxed |
| BellmanFord.BellmanFordSolver.constructor | src/graphs/shortestpaths/BellmanFordSolver.java:24-43 | holds the graph, the start and a relaxed, consistent labelling |
| BellmanFord.BellmanFordSolver.Solution | src/graphs/shortestpaths/BellmanFordSolver.java:46-56 | ends at the goal following `edgeTo`; [goal] exactly when unreachable; otherwise a shortest walk |
| MinPriorityQueue.LeastPriority | src/main/java/minpq/DoubleMapMinPQ.java:79 | every non-empty set of priorities has a least one (`firstKey`) |
| MinPriorityQueue.AddKeepsIndexes | src/main/java/minpq/DoubleMapMinPQ.java:53-58 | adding to the bucket and the priority map keeps the two maps indexing each other |
| MinPriorityQueue.RemoveKeepsIndexes | src/main/java/minpq/DoubleMapMinPQ.java:92-96 | removing from the bucket (dropping it when empty) and the map keeps them indexing each other, one element fewer |
| MinPriorityQueue.DrainStep | src/minpq/MinPQ.java:81-88 | taking a least element of what is left extends an in-order drain |
| MinPriorityQueue.DoubleMapMinPQ.constructor | src/main/java/minpq/DoubleMapMinPQ.java:24-27 | an empty, consistent queue |
| MinPriorityQueue.DoubleMapMinPQ.FromMap | src/main/java/minpq/DoubleMapMinPQ.java:34-46 | holds exactly the given elements with the given priorities, consistently bucketed |
| MinPriorityQueue.DoubleMapMinPQ.Contains | src/main/java/minpq/DoubleMapMinPQ.java:62-64 | answered from the priority map; agrees with membership of some bucket |
| MinPriorityQueue.DoubleMapMinPQ.Size | src/main/java/minpq/DoubleMapMinPQ.java:118-120 | the number of queued elements |
| MinPriorityQueue.DoubleMapMinPQ.IsEmpty | src/minpq/MinPQ.java:111-113 | empty exactly when nothing is queued |
| MinPriorityQueue.DoubleMapMinPQ.GetPriority | src/main/java/minpq/DoubleMapMinPQ.java:67-72 | NoSuchElement for an absent element; otherwise a priority whose bucket holds it |
| MinPriorityQueue.DoubleMapMinPQ.Add | src/main/java/minpq/DoubleMapMinPQ.java:49-59 | refuses a present element without change; otherwise queues it with the priority, one element more |
| MinPriorityQueue.DoubleMapMinPQ.PeekMin | src/main/java/minpq/DoubleMapMinPQ.java:75-82 | NoSuchElement when empty; otherwise an element of least priority, with no change |
| MinPriorityQueue.DoubleMapMinPQ.MinKey | src/main/java/minpq/DoubleMapMinPQ.java:79 | a bucket key no greater than any queued priority |
| MinPriorityQueue.DoubleMapMinPQ.RemoveMin | src/main/java/minpq/DoubleMapMinPQ.java:85-98 | NoSuchElement when empty; otherwise removes and answers an element of least priority, one element fewer |
| MinPriorityQueue.DoubleMapMinPQ.ChangePriority | src/main/java/minpq/DoubleMapMinPQ.java:101-115 | NoSuchElement for an absent element; no change for an equal priority; otherwise the new priority, same size |
| MinPriorityQueue.DoubleMapMinPQ.AddOrChangePriority | src/minpq/MinPQ.java:35-41 | afterwards the element is queued with this priority and nothing else changes |
| MinPriorityQueue.DoubleMapMinPQ.RemoveMinElements | src/minpq/MinPQ.java:81-88 | min(n, size) distinct elements in non-decreasing priority, none above what is left; a negative count fails without change |
| Deques.ArrayListDeque.constructor | src/deques/ArrayListDeque.java:19-21 | an empty deque |
| Deques.ArrayListDeque.AddFirst | src/deques/ArrayListDeque.java:24-26 | the element is prepended |
| Deques.ArrayListDeque.AddLast | src/deques/ArrayListDeque.java:29-31 | the element is appended |
| Deques.ArrayListDeque.Get | src/deques/ArrayListDeque.java:34-39 | the element at the index, null exactly outside [0, size) |
| Deques.ArrayListDeque.Size | src/deques/ArrayListDeque.java:42-44 | the list length |
| Deques.ArrayListDeque.IsEmpty | src/main/java/deques/Deque.java:41-43 | empty exactly when the list is |
| Deques.ArrayListDeque.RemoveFirst | src/deques/ArrayListDeque.java:47-52 | null and no change when empty; otherwise the front element, removed |
| Deques.ArrayListDeque.RemoveLast | src/deques/ArrayListDeque.java:55-60 | null and no change when empty; otherwise the back element, removed |
| Deques.RefAddFirst | src/test/java/deques/DequeTests.java:39 | the reference deque's contents gain the element in front |
| Deques.RefAddLast | src/test/java/deques/DequeTests.java:44 | the reference deque's contents gain the element at the back |
| Deques.RefRemoveFirst | src/test/java/deques/DequeTests.java:47-53 | none on an empty reference; otherwise its first element, removed |
| Deques.RefRemoveLast | src/test/java/deques/DequeTests.java:54-60 | none on an empty reference; otherwise its last element, removed |
| Deques.Apply | src/test/java/deques/DequeTests.java:36-61 | one operation on the deque under test matches the same operation on the reference |
| Deques.AddAndRemove | src/test/java/deques/DequeTests.java:27-64 | every run of operations on `ArrayListDeque` observes the reference deque's values and sizes |
| Deques.FillScenario | test/deques/DequeTests.java:185-197 | the adds of the scenario give -1 0 1 2 3 4, each `get` answering as asserted |
| Deques.DrainScenario | test/deques/DequeTests.java:209-216 | the removals answer -3, 5, 4, 3, 2, 1 |
| Deques.ConfusingScenario | test/deques/DequeTests.java:184-217 | the whole interleaved scenario answers -3, 5, 4, 3, 2, 1 |
| Autocomplete.LexTotal | src/autocomplete/TreeSetAutocomplete.java:20 | the lexicographic order by code point (standing in for `CharSequence::compare`) orders any two terms |
| Autocomplete.LexAntisymmetric | src/autocomplete/TreeSetAutocomplete.java:20 | terms ordered both ways are equal, so the set collapses duplicates |
| Autocomplete.LexTransitive | src/autocomplete/TreeSetAutocomplete.java:20 | the order is transitive |
| Autocomplete.PrefixIsBelow | src/autocomplete/TreeSetAutocomplete.java:34 | a prefix sorts no later than the terms it begins, so they lie in the ceiling's tail |
| Autocomplete.PrefixRunIsContiguous | src/autocomplete/TreeSetAutocomplete.java:38-43 | any term between the prefix and a matching term matches too, so the loop may stop at the first mismatch |
| Autocomplete.LeastExists | src/autocomplete/TreeSetAutocomplete.java:34 | every non-empty set of terms has a least one (ceiling, iteration order) |
| Autocomplete.LeastOf | src/autocomplete/TreeSetAutocomplete.java:34 | a least term of a non-empty set |
| Autocomplete.TakeLeast | src/autocomplete/TreeSetAutocomplete.java:38-40 | appending the least remaining term keeps the result ascending and below the rest |
| Autocomplete.TreeSetAutocomplete.constructor | src/autocomplete/TreeSetAutocomplete.java:19-21 | no terms |
| Autocomplete.TreeSetAutocomplete.AddAll | src/autocomplete/TreeSetAutocomplete.java:24-26 | set union with the new terms |
| Autocomplete.TreeSetAutocomplete.AllMatches | src/autocomplete/TreeSetAutocomplete.java:29-46 | empty for a null or empty prefix; otherwise exactly the stored terms that start with the prefix, strictly ascending in code-point order |
| DnaSearch.Length | src/DNASearch.java:113-115 | `length()` of a suffix (`data.length() - offset`) or of a subsequence (lines 171-173): for a valid view, between 0 and the data left after its offset |
| DnaSearch.Text | src/DNASearch.java:107-115 | the characters a view stands for, as many as its length |
| DnaSearch.NewSuffix | src/DNASearch.java:100-105 | accepted exactly when 0 ≤ begin ≤ length; then stands for data[begin..]; otherwise IndexOutOfBounds |
| DnaSearch.NewSubSequence | src/DNASearch.java:152-160 | accepted exactly when 0 ≤ begin ≤ end ≤ length; then stands for data[begin..end] |
| DnaSearch.CharAtAsWritten | src/DNASearch.java:108-110 | `charAt` as written, with the subsequence's `index >= length` check of lines 163-168: whatever it answers is `data[offset + index]`, and every index in [0, length()) is answered with the view's character |
| DnaSearch.CharAt | src/DNASearch.java:107-110 | answers exactly indices in [0, length()), with the view's character there |
| DnaSearch.CharAtAgreesOnNaturals | src/DNASearch.java:162-168 | on non-negative indices the written `charAt` is the corrected one |
| DnaSearch.CharAtNegativeIndex | src/DNASearch.java:108-110 | the suffix "C" of "AC" answers `charAt(-1)` with 'A' as written, and fails when corrected |
| DnaSearch.SubSequenceOf | src/DNASearch.java:118-128 | accepted exactly when 0 ≤ begin ≤ end ≤ length(); stands for the view's text[begin..end] with length end − begin; a `Suffix` exactly when it reaches the end of the data |
| DnaSearch.ToString | src/DNASearch.java:131-137 | data[offset..offset + length()] |
| DnaSearch.Suffixes | src/DNASearch.java:66-82 | one valid suffix per offset 0 .. |data| − 1, in order |
| DnaSearch.SizeAsWritten | src/DNASearch.java:84-87 | `size()` as written: the length of the whole data less one, as the class Javadoc says, fewer than the suffixes iterated |
| DnaSearch.SizeMismatch | src/DNASearch.java:84-87 | the written `size()` is one less than the number of suffixes iterated |
| DnaSearch.Size | src/DNASearch.java:84-87 | corrected `size()`: the number of suffixes iterated |
| DnaSearch.SuffixIterator.constructor | src/DNASearch.java:67-68 | starts at index 0 |
| DnaSearch.SuffixIterator.HasNext | src/DNASearch.java:71-73 | true exactly while the index is below the data length |
| DnaSearch.SuffixIterator.Next | src/DNASearch.java:76-80 | the suffix at the index, then one step on; an index past the end is refused |
| DnaSearch.IterateAll | src/DNASearch.java:66-82 | running the iterator to exhaustion yields `Suffixes(data)` |
| Polyline.ZigZag | src/main/java/MapServer.java:152 | the low bit of the fold is the sign, and `UnZigZag` inverts it |
| Polyline.ZigZagInjective | src/main/java/MapServer.java:162 | different deltas fold to different codes |
| Polyline.GroupChar | src/main/java/MapServer.java:154 | a 6-bit group is written as its value plus 63 |
| Polyline.ChunksShape | src/main/java/MapServer.java:153-157 | all groups but the last carry 0x20, the last does not, all in [63, 126] |
| Polyline.FoldFitsInLong | src/main/java/MapServer.java:147-162 | on coordinates of at most 180 degrees times 1e5, the delta and its fold stay below 2^63, so the `long` arithmetic does not wrap |
| Polyline.EncodeRoute | src/main/java/MapServer.java:146-170 | empty exactly for the empty route |
| Polyline.EncodedCharsInRange | src/main/java/MapServer.java:154-167 | every emitted character lies in [63, 126] |
| Polyline.AppendDelta | src/main/java/MapServer.java:151-157 | the inner loops append exactly the groups of the folded delta |
| Polyline.StepEncode | src/main/java/MapServer.java:149-168 | one point's latitude then longitude groups, relative to the previous point |
| Polyline.Encode | src/main/java/MapServer.java:145-171 | the output is `EncodeRoute` of the route from (0, 0) |
| Polyline.DecodeValue | src/main/java/MapServer.java:153-157 | not a model of these lines (the source has no decoder): the format's reader for the groups they write, the encoder's round-trip partner; reading a value consumes at least one character |
| Polyline.ChunksRoundTrip | src/main/java/MapServer.java:153-157 | reading back the groups of a value gives the value and the rest of the input |
| Polyline.RouteRoundTrip | src/main/java/MapServer.java:147-168 | decoding an encoded route relative to any origin gives the route back |
| Polyline.EncodeDecodes | src/main/java/MapServer.java:143-171 | decoding the encoder's output gives the quantised route back |
| Sequences.ReversedAt | src/graphs/shortestpaths/SPFASolver.java:55 | element k of the reversal is element |s| − 1 − k |
| Sequences.ReversedSnoc | src/graphs/shortestpaths/SPFASolver.java:53-55 | reversing after appending puts the appended element first |
| Sequences.MembersOfDistinct | src/graphs/shortestpaths/BellmanFordSolver.java:58-76 | a duplicate-free list has as many members as entries |

## Left out

- `MapServer` apart from `encode`: routing, URL building, environment variables. `Math.round(x * 1e5)` is floating point; points enter the model already quantised, as integers.
- `Polyline.Encode`: coordinates are unbounded integers, so the model does not capture the 64-bit `long` arithmetic of MapServer.java:147-162. `diffLat << 1` wraps once a delta reaches 2^62, and `Math.round` saturates at `Long.MAX_VALUE`. Quantised latitudes and longitudes stay within 1.8e7 in absolute value, far from either limit (`Polyline.FoldFitsInLong`).
- Console and file I/O: `SeamCarver.main` and `picture.save`, `DNASearch.main`. `promptForSize` takes the console's integers as a sequence.
- `Picture`, `EnergyFunction`, `Graph`/`AStarGraph` and the seam-finding searches are not part of this model.
  - A picture is a value or a 2-D array of colours.
  - An energy function and a finder are function values.
  - A graph is a map from vertex to its edge list.
  - The finders are stated only by their contract (`SeamFinding.MeetsSeamFinderContract`).
- `Carving.SeamCarver.RemoveHorizontal`, `Carving.SeamCarver.RemoveVertical`:
  - a picture with no rows (columns) fails with IllegalArgument, standing for `new Picture(w, -1)`, whose check is not part of this model;
  - a seam that leaves the picture fails with IndexOutOfBounds.
- `Carving.SeamCarver.RemoveVertical`: the seam's minimality is stated as the transposed picture measures it, which is what `findVertical` promises. It equals the vertical energy when the energy function does not depend on orientation (`SeamFinding.TransposedSeamEnergy`).
- Floating point: weights are `nat`, priorities and estimates `int`.
  - Bellman-Ford's tolerance of negative weights is not modelled. With natural weights, the walk back along `edgeTo` provably terminates.
  - A missing `distTo` entry is `+infinity`.
- `AStar.Search`: admissibility of the estimate is not assumed. The loop runs until the frontier is empty, so the result is a relaxed labelling for any estimate, and the path's optimality does not depend on it.
- Hash and tree iteration order:
  - `firstOf` picks some element of the least bucket;
  - SPFA's worklist order is kept, but the graph's edge order is whatever the edge list gives;
  - `FromMap` visits entries in an unspecified order.
- `OptimizedArrayQueueSet.iterator` is not modelled: the solver never iterates the worklist.
- `LinkedDeque`, `OptimizedHeapMinPQ` and `SequentialSearchAutocomplete` are unimplemented stubs.
- `PriorityNode`, `Moderator` and the runtime experiments in the tests.
- `Autocomplete.isPrefixOf` is not part of this model. It is taken as "the term starts with the prefix".
- `CharSequence` equality in the `TreeSet` is content equality, and views are modelled by their text.
- `Autocomplete.LexLeq` and `Autocomplete.TreeSetAutocomplete.AllMatches`: strings are sequences of Unicode scalar values, so the order is code-point order. `CharSequence::compare` (TreeSetAutocomplete.java:20) compares UTF-16 code units, and the two orders differ once a term holds a character outside the Basic Multilingual Plane: Java puts "\uD800\uDC00" (U+10000) before "\uFFFF". The set of matches is the same; only their listed order can differ for such terms.
- `ShortestPaths.Labelled` keeps `distTo[v] <= distTo[u] + w` along each predecessor edge u→v during the search, not equality. The solvers update `distTo[u]` without revisiting `u`'s successors at once, so `u` can improve after `v` was labelled through it. Equality along the path holds once no edge can be relaxed (`ShortestPaths.SolutionIsShortest`).
- `solution` of an unreachable goal returns `[goal]`, as the code does. The contract says that this happens exactly when no walk reaches the goal.
- `SPFASolver` re-queues an improved vertex with `offer`. `OptimizedArrayQueueSet.offer` (SPFASolver.java:90-97) refuses a pending vertex and leaves it in place, which is what its set exists for. The code calls `add`, which throws on that refusal instead (Findings).

## Findings

| source | as written | input that shows it | evidently intended | confidence | as-written member | corrected member |
|---|---|---|---|---|---|---|
| src/graphs/shortestpaths/SPFASolver.java:40 | `perimeter.add(to)`. `OptimizedArrayQueueSet` overrides only `offer`, so `AbstractQueue.add` of a vertex already pending throws `IllegalStateException` out of the constructor. | Edges s→b (1), s→a (5), b→a (1): polling `b` improves `a` to 2 while `a` is still queued. | `offer(to)`: a pending vertex keeps its place with the better distance. | not executed | Spfa.AsWrittenThrowsOnExample | Spfa.RelaxNeighbors |
| src/DNASearch.java:84-87 | `size()` returns `data.length() - 1`. | For "AC" the iterator yields 2 suffixes and `size()` says 1. | `size()` and the iterator must agree, as the `Collection` contract requires of `size()`. The class Javadoc (DNASearch.java:51, :57) promises "length - 1" suffixes and so sides with `size()`, but `addAll` (DNASearch.java:27) consumes the iterator, which yields all `data.length()` suffixes (offsets 0 .. length − 1). The corrected member keeps the iterator and sets `size()` to `data.length()`; which of the two the authors meant to change is not evident. | not executed | DnaSearch.SizeMismatch | DnaSearch.Size |
| src/DNASearch.java:108-110 | `Suffix.charAt(index)` reads `data.charAt(offset + index)` without rejecting a negative index. | The suffix "C" of "AC" answers `charAt(-1)` with 'A'. | `IndexOutOfBoundsException` for index < 0, as `CharSequence.charAt` requires. | not executed | DnaSearch.CharAtNegativeIndex | DnaSearch.CharAt |
