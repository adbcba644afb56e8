# Graph algorithms of the maze generator and solver, in Dafny

This project models the graph core of a maze generator and solver written in
Java. It has two parts.

- `ArrayDisjointSet` is a union-find over an `int` array.
  - A non-negative entry points to the entry's parent.
  - A negative entry marks a root and encodes its rank `r` as `-(r + 1)`.
  - `makeSet` appends a singleton and doubles the array when it is full.
  - `findSet` walks to the root and then re-points the queried entry at it.
  - `union` links two roots by rank.
- `Graph` is an undirected weighted graph.
  - The constructor validates its vertex and edge lists, then builds the
    adjacency sets and one disjoint-set class per vertex.
  - `findMinimumSpanningTree` is Kruskal's algorithm, run over the edges
    sorted by weight.
  - `findShortestPathBetween` is Dijkstra's algorithm with a binary heap and
    decrease-key, followed by a walk back along the recorded predecessors.

Files:

- `wrappers.dfy`: `Result` and `Option`. A `Failure(InvalidArgument)` stands
  for `IllegalArgumentException`, and `Failure(NoPathExists)` for
  `NoPathExistsException`.
- `disjoint_set.dfy`: module `ArrayDisjointSet`.
  - The Java object becomes an immutable value `DisjointSet(pointers, size, indices)`.
  - Every operation returns the updated value.
  - Ranks exist only in the proofs: the invariant `Valid(ds, rank)` takes them
    as a ghost sequence.
  - `Root` is the root a walk from an entry reaches. It is well defined
    because ranks strictly increase along parent pointers.
- `partition.dfy`: module `Partition`, the abstract view of the union-find as
  a map from each vertex to its class representative.
  - `Merge` is what `union` does to that view.
  - `ArrayDisjointSet.Union` proves the same same-class characterisation for
    the array representation.
- `edges.dfy`: the edge record. `Other` is `getOtherVertex`.
- `sorter.dfy`: the order Kruskal's algorithm consumes, an ascending
  permutation by weight. `SortByWeight` is one sorter meeting it.
- `graph.dfy`: module `Graph`.
  - The constructor, `numVertices`, `numEdges` and Kruskal's algorithm.
  - Connectivity is stated through cuts: a graph is connected when every set
    that splits the vertices into two non-empty parts has an edge leaving it.
- `shortest_path.dfy`: module `ShortestPath`.
  - `ComparableVertex` and its ordering, the heap as a set of entries, and
    one relaxation step.
  - The search loop, with invariants that give the final predecessor
    structure.
  - Path reconstruction and `findShortestPathBetween`.

Where the code and its documentation or the usual design differ, the model
follows the code:

- Full path compression is the usual design for `findSet`. The code
  (ArrayDisjointSet.java:51-57) re-points only the queried entry at the root.
  Its loop steps through the entry's new pointer, which is the root, and then
  stops.
- Graph.java:54 documents `IllegalArgumentException` for a null edge. Line 82
  dereferences the edge before the null test on line 83 (listed under Left out below).
- Graph.java:136-143 promises the minimum spanning tree on every call. A
  second call on the same graph returns no edges (listed under Findings below).

## Model

| member | source | states |
|---|---|---|
| ArrayDisjointSet.Empty | src/main/java/datastructures/concrete/ArrayDisjointSet.java:17-21 | the new union-find holds no items, in an array of 10 slots, and meets the rank invariant |
| ArrayDisjointSet.Root | src/main/java/datastructures/concrete/ArrayDisjointSet.java:47-50 | the walk along parent pointers ends at a root (a negative entry), and every step up strictly increases the rank, so the walk terminates |
| ArrayDisjointSet.Grow | src/main/java/datastructures/concrete/ArrayDisjointSet.java:28-34 | the new array is twice the occupied size, with the occupied prefix copied and the rest zero |
| ArrayDisjointSet.MakeSet | src/main/java/datastructures/concrete/ArrayDisjointSet.java:23-38 | fails exactly when the item is already registered; otherwise the item gets index `size` and the entry -1 (rank 0), capacity doubles exactly when the array was full, earlier entries and their roots are unchanged, and the invariant holds |
| ArrayDisjointSet.ExtendPreservesRoots | src/main/java/datastructures/concrete/ArrayDisjointSet.java:28-37 | appending a singleton does not move the root of any existing entry |
| ArrayDisjointSet.FindSet | src/main/java/datastructures/concrete/ArrayDisjointSet.java:40-59 | fails exactly when the item is not registered; otherwise returns the root of the item's entry, and changes only that entry, re-pointing it at the root when it was not a root itself; the rank invariant and every entry's root are preserved |
| ArrayDisjointSet.RepointRanked | src/main/java/datastructures/concrete/ArrayDisjointSet.java:52-55 | pointing a non-root entry straight at its root keeps ranks increasing along parent pointers |
| ArrayDisjointSet.RepointPreservesRoots | src/main/java/datastructures/concrete/ArrayDisjointSet.java:52-57 | pointing an entry straight at its root leaves every entry's root unchanged |
| ArrayDisjointSet.Link | src/main/java/datastructures/concrete/ArrayDisjointSet.java:68-79 | for two roots: equal roots change nothing; otherwise the root of smaller rank (the larger encoded value) points to the other, whose encoded rank drops by one exactly on a tie; every other entry is unchanged, and roots move only from the linked root to the other |
| ArrayDisjointSet.LinkRoots | src/main/java/datastructures/concrete/ArrayDisjointSet.java:71-78 | after linking root `c` under root `q`, exactly the entries whose root was `c` now have root `q` |
| ArrayDisjointSet.LinkRanked | src/main/java/datastructures/concrete/ArrayDisjointSet.java:71-78 | linking by rank keeps the rank invariant, with the surviving root's rank raised on a tie |
| ArrayDisjointSet.MergedPartition | src/main/java/datastructures/concrete/ArrayDisjointSet.java:70-79 | if roots move from `c` to `q` and nowhere else, two items end in the same set exactly when they were together before or one was in `c`'s set and the other in `q`'s |
| ArrayDisjointSet.Union | src/main/java/datastructures/concrete/ArrayDisjointSet.java:61-80 | fails exactly when either item is missing; otherwise the two items end in the same set, any two items are together exactly when they were before or one was with `item1` and the other with `item2`, the two roots change as the rank rule says, and only the two queried entries and the two roots can change |
| Partition.Singletons | src/main/java/datastructures/concrete/Graph.java:72-76 | one class per vertex, each vertex its own representative |
| Partition.Merge | src/main/java/datastructures/concrete/ArrayDisjointSet.java:61-80 | the abstract union: the same vertices, and two vertices share a class exactly when they did before or sit in the two merged classes; merging a class with itself changes nothing, and merging two classes removes exactly one |
| Partition.MergeCount | src/main/java/datastructures/concrete/ArrayDisjointSet.java:70-79 | merging two different classes lowers the number of classes by exactly one |
| Edges.Other | src/main/java/datastructures/concrete/Graph.java:197 | the other endpoint of an edge touching `v` is the endpoint that is not `v`, or `v` for a self-loop |
| Sorter.SortByWeight | src/main/java/datastructures/concrete/Graph.java:145 | a sorter for Kruskal's input exists: its output is an ascending-by-weight permutation of the edges |
| Graph.AddVertices | src/main/java/datastructures/concrete/Graph.java:67-80 | fails exactly when the vertex list has a repetition; otherwise every listed vertex gets an empty adjacency set and its own class, and the count equals the list length |
| Graph.DistinctCard | src/main/java/datastructures/concrete/Graph.java:72-76 | a list without repetitions has as many distinct vertices as entries, so `graphSize` counts the vertices |
| Graph.AddEdges | src/main/java/datastructures/concrete/Graph.java:81-90 | fails exactly when some edge has a negative weight or an endpoint outside the vertex list; otherwise each vertex's adjacency set is exactly the set of listed edges touching it |
| Graph.NewGraph | src/main/java/datastructures/concrete/Graph.java:58-91 | fails exactly when the vertices repeat or some edge is invalid; otherwise the graph keeps the edge list as given, has exactly the listed vertices, gives each its touching edges, starts with one class per vertex, and reports the list lengths as its counts |
| Graph.NumVertices | src/main/java/datastructures/concrete/Graph.java:124-126 | on a constructed graph, the vertex count is the number of distinct vertices; the equality with the length of the constructor's vertex list is stated by `Graph.NewGraph` |
| Graph.NumEdges | src/main/java/datastructures/concrete/Graph.java:132-134 | on a constructed graph, no vertex has more incident edges than the reported edge count (a consequence, not a promise of the source); the promise itself, that the count equals the length of the constructor's edge list, is stated by `Graph.NewGraph` |
| Graph.EdgeSetsBound | src/main/java/datastructures/concrete/Graph.java:81-90 | helper for `Graph.NumEdges`: each adjacency set has at most as many edges as the edge list has distinct edges |
| Graph.KruskalFrom | src/main/java/datastructures/concrete/Graph.java:147-154 | the scan keeps the vertex set of the union-find, and only picks edges from its input |
| Graph.KruskalCoarsens | src/main/java/datastructures/concrete/Graph.java:150-152 | vertices that start in one class end in one class, and every picked edge joined two different starting classes |
| Graph.KruskalJoinsAll | src/main/java/datastructures/concrete/Graph.java:147-154 | after the scan, the endpoints of every scanned edge are in one class |
| Graph.KruskalCount | src/main/java/datastructures/concrete/Graph.java:150-152 | picked edges plus remaining classes equals the starting classes, since each pick merges two classes |
| Graph.KruskalGenerated | src/main/java/datastructures/concrete/Graph.java:150-152 | any union of starting classes that no picked edge leaves is still a union of final classes, so the classes are generated by the picked edges |
| Graph.FindMinimumSpanningTree | src/main/java/datastructures/concrete/Graph.java:144-156 | as written: only the union-find changes; every result edge is a graph edge that joined two different classes; afterwards every graph edge lies within one class; result size plus final classes equals starting classes; and the classes are generated by the result edges |
| Graph.ConnectedOneClass | src/main/java/datastructures/concrete/Graph.java:136-143 | in a connected graph, a partition in which no edge crosses classes has at most one class |
| Graph.FirstCallForest | src/main/java/datastructures/concrete/Graph.java:144-156 | on a freshly constructed graph, the result has as many edges as vertices minus components, and its edges generate the components, so it is a spanning forest |
| Graph.FirstCallSpans | src/main/java/datastructures/concrete/Graph.java:136-156 | on a freshly constructed connected graph with at least one vertex, the result has exactly `numVertices() - 1` edges, so it is a spanning tree |
| Graph.SecondCallIsEmpty | src/main/java/datastructures/concrete/Graph.java:150-151 | a second call on the same graph finds every edge already within one class and returns no edges |
| Graph.SecondCallNotSpanning | src/main/java/datastructures/concrete/Graph.java:144-156 | on a connected graph of at least two vertices, the first call returns `n - 1` edges but the second returns none, so the second result is not a spanning tree |
| Graph.FindMinimumSpanningTreeFresh | src/main/java/datastructures/concrete/Graph.java:136-156 | corrected version that starts from one class per vertex: its result is a spanning forest of the current graph, and on a connected graph with at least one vertex it has exactly `n - 1` edges, whatever earlier calls did |
| Graph.FreshRepeatable | src/main/java/datastructures/concrete/Graph.java:136-156 | calling the corrected version twice gives the same tree |
| ShortestPath.CompareTo | src/main/java/datastructures/concrete/Graph.java:245-254 | entries compare by distance alone: negative exactly when strictly closer, positive exactly when strictly farther |
| ShortestPath.CompareToOrder | src/main/java/datastructures/concrete/Graph.java:245-254 | the comparison is a total preorder: sign-antisymmetric, transitive, and zero exactly on equal distances |
| ShortestPath.MinExists | src/main/java/datastructures/concrete/Graph.java:190-191 | a non-empty heap has an entry no greater than any other |
| ShortestPath.RemoveMin | src/main/java/datastructures/concrete/Graph.java:191 | the removed entry was in the heap and is no greater than any of its entries, and the rest is the heap without it |
| ShortestPath.Relax | src/main/java/datastructures/concrete/Graph.java:195-209 | a processed neighbour is untouched; otherwise the neighbour's distance never rises and ends at most the distance through the current vertex; an entry changes only on a strict improvement, to the new distance with the current vertex and edge as predecessor, and is added to the heap when the neighbour was unreached, or else replaces its old heap entry, which is present |
| ShortestPath.InitOk | src/main/java/datastructures/concrete/Graph.java:178-189 | the initial state (all distances infinite but the start's 0, the start in the heap and processed) satisfies the loop invariant |
| ShortestPath.PopOk | src/main/java/datastructures/concrete/Graph.java:190-194 | removing the least entry and processing its vertex keeps the invariants and shrinks the termination measure |
| ShortestPath.RelaxOk | src/main/java/datastructures/concrete/Graph.java:195-209 | relaxing one edge keeps every invariant, leaves that edge leading to a reached vertex, meets the heap's `replace` requirement, and does not raise the measure |
| ShortestPath.ChangedQueue | src/main/java/datastructures/concrete/Graph.java:202-208 | after an improvement the heap still holds exactly one live entry per reached, unprocessed vertex |
| ShortestPath.ChangedPreds | src/main/java/datastructures/concrete/Graph.java:202-203 | after an improvement every recorded predecessor is processed, and every recorded distance is its predecessor's plus the edge weight |
| ShortestPath.ChangedMeasure | src/main/java/datastructures/concrete/Graph.java:204-208 | discovering a vertex adds one heap entry and lowering a finite distance swaps one, so the measure does not rise |
| ShortestPath.ExitOk | src/main/java/datastructures/concrete/Graph.java:190 | when the heap is empty, every reached vertex is processed and every edge out of a reached vertex leads to a reached vertex |
| ShortestPath.Search | src/main/java/datastructures/concrete/Graph.java:178-211 | the search ends with the start at distance 0, the reached vertices processed and closed under the edges, and every reached vertex other than the start has a processed predecessor stamped earlier, reached by a graph edge, at its distance plus the edge weight |
| ShortestPath.WalkStaysInside | src/main/java/datastructures/concrete/Graph.java:212-224 | a walk over graph edges never leaves a vertex set that no edge leaves |
| ShortestPath.WalkNotSeparated | src/main/java/datastructures/concrete/Graph.java:168 | a walk from `a` to `b` exists only if no set of vertices holds `a` but not `b` with no edge leaving it |
| ShortestPath.ConnectedNotSeparated | src/main/java/datastructures/concrete/Graph.java:136-143 | in a connected graph no two vertices are separated |
| ShortestPath.Reconstruct | src/main/java/datastructures/concrete/Graph.java:212-224 | fails with `NoPathExists` exactly when the end has no predecessor; otherwise returns a non-empty walk from the start to the end over graph edges, whose total weight equals the end's final distance |
| ShortestPath.FindShortestPathBetween | src/main/java/datastructures/concrete/Graph.java:171-225 | fails with `InvalidArgument` exactly when the start or end is not a vertex; returns the empty list when they are equal; a returned list is a walk from the start to the end over graph edges, non-empty when they differ; and `NoPathExists` is raised only when some set of vertices holds the start but not the end with no edge leaving it |

## Left out

- Null checks (Graph.java:64-71, 83, 172) are not modelled, because Dafny
  values cannot be null. The check `edge == null` at Graph.java:83 runs after
  the edge has already been dereferenced.
- `start == end` and `pred != start` compare Java references. The model
  compares vertices by value.
- Weights are Java doubles. The model uses non-negative integers, so NaN,
  infinite weights and rounding in `startV.dist + weight` are not modelled.
- ShortestPath.Search: minimality of the distances (Dijkstra's optimality) is
  not proved. The contract states reachability, closure and consistent
  predecessor chains. The result is a walk, and it is not shown to be
  shortest or vertex-simple.
- Graph.FindMinimumSpanningTree: minimality of the tree's total weight is not
  proved. The contracts state the spanning-forest and spanning-tree
  properties.
- ShortestPath.FindShortestPathBetween: does not promise that the returned
  walk is a shortest one (Graph.java:159-160), because Dijkstra's optimality
  is not proved. It promises a walk from start to end over graph edges, and
  `ShortestPath.Reconstruct` gives its weight as the end's final distance.
- Graph.FindMinimumSpanningTreeFresh: does not promise that the tree has
  minimum total weight (Graph.java:137), because minimality is not proved.
  It promises a spanning forest, and a spanning tree on a connected graph.
- `ArrayHeap`, `ChainedHashDictionary`, `ChainedHashSet`, `DoubleLinkedList`
  and `Sorter` are library classes, and their implementations are not part of
  this model.
  - The heap is a set of entries.
  - Dictionaries and sets are Dafny maps and sets.
  - Lists are sequences.
  - `Sorter.topKSort` is the contract in `sorter.dfy`, so Kruskal's algorithm
    is stated for any weight-sorted permutation.
- The disjoint-set's item dictionary is a Dafny map, so a hash lookup is a
  map lookup.
- The graph's union-find field is modelled by the `Partition` abstraction.
  Union's same-class characterisation on the array is proved separately in
  `ArrayDisjointSet.Union`. No lemma composes the two representations.
- The `vertexToComp` dictionary is a field in Java, but it is rebuilt for
  every vertex on every call (Graph.java:181-183). The model keeps it as
  local state of one search.
- The second constructor `Graph(ISet, ISet)` and its helper `setToList`
  (Graph.java:103-119) are left out, because they only convert sets to lists
  in an iteration order the model cannot see.
- `KruskalMazeCarver` is outside the modelled core.
- Amortised running times, and Java `int` overflow of `size * 2` and of the
  rank counters, are not modelled. Integers here are unbounded.

## Findings

| source | as written | input that shows it | evidently intended | confidence | as-written member | corrected member |
|---|---|---|---|---|---|---|
| src/main/java/datastructures/concrete/Graph.java:144-156 | the union-find is created once in the constructor (line 60), and `findMinimumSpanningTree` merges classes in it without resetting it | a connected graph with vertices A and B and one edge A-B: the first call returns {A-B}, and a second call on the same graph returns the empty set | every call returns a spanning tree of the graph, starting from one class per vertex | not executed | Graph.SecondCallNotSpanning | Graph.FindMinimumSpanningTreeFresh |
