/** The undirected weighted `Graph<V, E>`: construction, counts and Kruskal's
    minimum spanning tree.

    The graph keeps, as the Java object does, the union-find it filled in
    its constructor (one singleton per vertex) and hands that same union-find
    to every `findMinimumSpanningTree` call; the union-find is modelled by
    its partition (module `Partition`).
 */
module Graph {
  import opened Wrappers
  import opened Edges
  import opened Partition
  import Sorter

  /** `sets` is the field `vertices` (the disjoint-set over the vertices),
      `adj` the field `graph` (vertex to incident edges), `edges` the edge
      list as given, `graphSize` the vertex counter. */
  datatype Graph<V> = Graph(sets: Partition<V>, adj: map<V, set<Edge<V>>>, edges: seq<Edge<V>>, graphSize: nat)

  /** The object invariant established by the constructor. */
  ghost predicate Valid<V(!new)>(g: Graph<V>) {
    && g.sets.Keys == g.adj.Keys
    && |g.adj.Keys| == g.graphSize
    && (forall e :: e in g.edges ==> e.weight >= 0 && e.v1 in g.adj && e.v2 in g.adj)
    && (forall v, e :: v in g.adj ==> (e in g.adj[v] <==> e in g.edges && Touches(e, v)))
  }

  /** The union-find is still as the constructor left it. */
  ghost predicate Fresh<V(!new)>(g: Graph<V>) {
    forall v :: v in g.sets ==> g.sets[v] == v
  }

  /** No vertex occurs twice in the list. */
  ghost predicate Distinct<T>(vs: seq<T>) {
    forall i, j :: 0 <= i < j < |vs| ==> vs[i] != vs[j]
  }

  /** An edge the constructor rejects. */
  ghost predicate BadEdge<V(!new)>(e: Edge<V>, vertices: seq<V>) {
    e.weight < 0 || e.v1 !in vertices || e.v2 !in vertices
  }

  /** `e` has exactly one endpoint in `s`. */
  ghost predicate Crosses<V(!new)>(e: Edge<V>, s: set<V>) {
    (e.v1 in s) != (e.v2 in s)
  }

  /** Some edge of the graph leaves `s`. */
  ghost predicate Crossed<V(!new)>(g: Graph<V>, s: set<V>) {
    exists e :: e in g.edges && Crosses(e, s)
  }

  /** `s` splits the vertices into two non-empty parts. */
  ghost predicate ProperCut<V(!new)>(g: Graph<V>, s: set<V>) {
    s <= g.adj.Keys && s != {} && s != g.adj.Keys
  }

  /** The graph "does not contain any unconnected components": every way of
      splitting the vertices in two has an edge across. */
  ghost predicate Connected<V(!new)>(g: Graph<V>) {
    forall s :: ProperCut(g, s) ==> Crossed(g, s)
  }

  /** `s` is a union of classes of `p`. */
  ghost predicate Saturated<V(!new)>(p: Partition<V>, s: set<V>) {
    forall x, y :: x in p && y in p && p[x] == p[y] ==> (x in s <==> y in s)
  }

  /** No edge of `es` leaves `s`. */
  ghost predicate Uncrossed<V(!new)>(es: set<Edge<V>>, s: set<V>) {
    forall e :: e in es ==> !Crosses(e, s)
  }

  /** A list without repetitions has as many distinct elements as entries. */
  lemma {:induction false} DistinctCard<T>(vs: seq<T>)
    requires Distinct(vs)
    ensures |set v | v in vs| == |vs|
  {
    if vs != [] {
      assert Distinct(vs[1..]) by {
        forall a, b | 0 <= a < b < |vs[1..]|
          ensures vs[1..][a] != vs[1..][b]
        {
          assert vs[1..][a] == vs[a + 1] && vs[1..][b] == vs[b + 1];
        }
      }
      DistinctCard(vs[1..]);
      assert forall k :: 0 <= k < |vs[1..]| ==> vs[1..][k] == vs[k + 1] != vs[0];
      assert (set v | v in vs) == (set v | v in vs[1..]) + {vs[0]};
    }
  }

  /** The vertex loop of the constructor: rejects a repeated vertex, and
      otherwise makes a singleton set and an empty adjacency set for each
      vertex, counting them. */
  method AddVertices<V(==,!new)>(vertices: seq<V>) returns (r: Result<(Partition<V>, map<V, set<Edge<V>>>, nat)>)
    ensures r.Failure? <==> !Distinct(vertices)
    ensures r.Failure? ==> r.error == InvalidArgument
    ensures r.Success? ==>
      var (sets, adj, graphSize) := r.value;
      && (forall v :: v in adj <==> v in vertices)
      && sets.Keys == adj.Keys
      && (forall v :: v in sets ==> sets[v] == v)
      && (forall v :: v in adj ==> adj[v] == {})
      && graphSize == |vertices| == |adj.Keys|
  {
    var duplicates: set<V> := {};
    var sets: Partition<V> := map[];
    var adj: map<V, set<Edge<V>>> := map[];
    var graphSize := 0;
    ghost var position: map<V, nat> := map[];
    var i := 0;
    while i < |vertices|
      invariant 0 <= i <= |vertices|
      invariant position.Keys == duplicates
      invariant forall k :: 0 <= k < i ==> vertices[k] in position && position[vertices[k]] == k
      invariant forall v :: v in position ==> position[v] < i && vertices[position[v]] == v
      invariant graphSize == i
      invariant adj.Keys == duplicates && sets.Keys == duplicates
      invariant forall v :: v in adj ==> adj[v] == {}
      invariant forall v :: v in sets ==> sets[v] == v
    {
      var vertex := vertices[i];
      if vertex !in duplicates {
        duplicates := duplicates + {vertex};
        sets := sets[vertex := vertex];
        adj := adj[vertex := {}];
        graphSize := graphSize + 1;
        position := position[vertex := i];
      } else {
        assert vertices[position[vertex]] == vertices[i];
        return Failure(InvalidArgument);
      }
      i := i + 1;
    }
    assert Distinct(vertices) by {
      forall a, b | 0 <= a < b < |vertices|
        ensures vertices[a] != vertices[b]
      {
        assert position[vertices[a]] == a && position[vertices[b]] == b;
      }
    }
    DistinctCard(vertices);
    assert adj.Keys == set v | v in vertices;
    r := Success((sets, adj, graphSize));
  }

  /** The edge loop of the constructor: rejects an edge with a negative
      weight or an endpoint outside the vertex list, and otherwise adds each
      edge to the adjacency sets of both its endpoints. */
  method AddEdges<V(==,!new)>(vertices: seq<V>, adj0: map<V, set<Edge<V>>>, edges: seq<Edge<V>>)
    returns (r: Result<map<V, set<Edge<V>>>>)
    requires forall v :: v in adj0 <==> v in vertices
    requires forall v :: v in adj0 ==> adj0[v] == {}
    ensures r.Failure? <==> exists e :: e in edges && BadEdge(e, vertices)
    ensures r.Failure? ==> r.error == InvalidArgument
    ensures r.Success? ==> r.value.Keys == adj0.Keys
    ensures r.Success? ==>
      forall v, e :: v in r.value ==> (e in r.value[v] <==> e in edges && Touches(e, v))
  {
    var adj := adj0;
    var j := 0;
    while j < |edges|
      invariant 0 <= j <= |edges|
      invariant adj.Keys == adj0.Keys
      invariant forall k :: 0 <= k < j ==> !BadEdge(edges[k], vertices)
      invariant forall v, e :: v in adj ==> (e in adj[v] <==> e in edges[..j] && Touches(e, v))
    {
      var edge := edges[j];
      assert edges[..j + 1] == edges[..j] + [edge];
      if edge.weight < 0 || edge.v1 !in vertices || edge.v2 !in vertices {
        assert BadEdge(edges[j], vertices);
        return Failure(InvalidArgument);
      }
      adj := adj[edge.v1 := adj[edge.v1] + {edge}];
      adj := adj[edge.v2 := adj[edge.v2] + {edge}];
      j := j + 1;
    }
    assert edges[..j] == edges;
    r := Success(adj);
  }

  /** The constructor `Graph(vertices, edges)`: rejects duplicate vertices,
      then rejects any edge with a negative weight or an unknown endpoint,
      and otherwise registers each vertex with the union-find and files each
      edge under both of its endpoints. */
  method NewGraph<V(==,!new)>(vertices: seq<V>, edges: seq<Edge<V>>) returns (r: Result<Graph<V>>)
    ensures r.Failure? <==> !Distinct(vertices) || exists e :: e in edges && BadEdge(e, vertices)
    ensures r.Failure? ==> r.error == InvalidArgument
    ensures r.Success? ==> Valid(r.value) && Fresh(r.value)
    ensures r.Success? ==> r.value.edges == edges
    ensures r.Success? ==> forall v :: v in r.value.adj <==> v in vertices
    ensures r.Success? ==> NumVertices(r.value) == |vertices| && NumEdges(r.value) == |edges|
    ensures r.Success? ==>
      forall v, e :: v in r.value.adj ==> (e in r.value.adj[v] <==> e in edges && Touches(e, v))
  {
    var rv := AddVertices(vertices);
    if rv.Failure? {
      return Failure(rv.error);
    }
    var (sets, adj0, graphSize) := rv.value;
    var re := AddEdges(vertices, adj0, edges);
    if re.Failure? {
      return Failure(re.error);
    }
    var g := Graph(sets, re.value, edges, graphSize);
    assert forall e :: e in edges ==> !BadEdge(e, vertices);
    r := Success(g);
  }

  /** `numVertices()`: the vertex counter, which is the number of distinct
      vertices. */
  function NumVertices<V(!new)>(g: Graph<V>): (n: nat)
    ensures Valid(g) ==> n == |g.adj.Keys|
  {
    g.graphSize
  }

  /** A subset is no larger than its superset. */
  lemma {:induction false} SubsetCard<T>(a: set<T>, b: set<T>)
    requires a <= b
    ensures |a| <= |b|
  {
    if a != {} {
      var x :| x in a;
      SubsetCard(a - {x}, b - {x});
    }
  }

  /** A list holds at most as many distinct elements as it has entries. */
  lemma {:induction false} DistinctBound<T>(es: seq<T>)
    ensures |set e | e in es| <= |es|
  {
    if es != [] {
      DistinctBound(es[1..]);
      assert (set e | e in es) == (set e | e in es[1..]) + {es[0]};
    }
  }

  /** `numEdges()`: the length of the edge list, so parallel (and repeated)
      edges each count; no vertex has more incident edges than that. */
  function NumEdges<V(!new)>(g: Graph<V>): (n: nat)
    ensures Valid(g) ==> forall v :: v in g.adj ==> |g.adj[v]| <= n
  {
    DistinctBound(g.edges);
    EdgeSetsBound(g);
    |g.edges|
  }

  /** Each adjacency set is drawn from the edge list. */
  lemma EdgeSetsBound<V(!new)>(g: Graph<V>)
    ensures Valid(g) ==> forall v :: v in g.adj ==> |g.adj[v]| <= |set e | e in g.edges|
  {
    if Valid(g) {
      forall v | v in g.adj
        ensures |g.adj[v]| <= |set e | e in g.edges|
      {
        SubsetCard(g.adj[v], set e | e in g.edges);
      }
    }
  }

  /** The loop of Kruskal's algorithm over the sorted edges: an edge is kept,
      and its endpoints' sets merged, exactly when the endpoints are in
      different sets at that moment. */
  function KruskalFrom<V(!new)>(sets: Partition<V>, sorted: seq<Edge<V>>): (r: (set<Edge<V>>, Partition<V>))
    requires forall e :: e in sorted ==> e.v1 in sets && e.v2 in sets
    ensures r.1.Keys == sets.Keys
    ensures forall e :: e in r.0 ==> e in sorted
    decreases |sorted|
  {
    if sorted == [] then ({}, sets)
    else
      var e := sorted[0];
      assert forall x :: x in sorted[1..] ==> x in sorted;
      if sets[e.v1] != sets[e.v2] then
        var (rest, fin) := KruskalFrom(Merge(sets, e.v1, e.v2), sorted[1..]);
        ({e} + rest, fin)
      else
        KruskalFrom(sets, sorted[1..])
  }

  /** The sets only ever grow, and a kept edge joined two different sets of
      the starting partition (so it closes no cycle). */
  lemma {:induction false} KruskalCoarsens<V(!new)>(sets: Partition<V>, sorted: seq<Edge<V>>)
    requires forall e :: e in sorted ==> e.v1 in sets && e.v2 in sets
    ensures var (tree, fin) := KruskalFrom(sets, sorted);
      && (forall x, y :: x in sets && y in sets && sets[x] == sets[y] ==> fin[x] == fin[y])
      && (forall e :: e in tree ==> sets[e.v1] != sets[e.v2])
    decreases |sorted|
  {
    if sorted != [] {
      var e := sorted[0];
      assert forall x :: x in sorted[1..] ==> x in sorted;
      if sets[e.v1] != sets[e.v2] {
        KruskalCoarsens(Merge(sets, e.v1, e.v2), sorted[1..]);
      } else {
        KruskalCoarsens(sets, sorted[1..]);
      }
    }
  }

  /** Afterwards both endpoints of every edge share a set. */
  lemma {:induction false} KruskalJoinsAll<V(!new)>(sets: Partition<V>, sorted: seq<Edge<V>>)
    requires forall e :: e in sorted ==> e.v1 in sets && e.v2 in sets
    ensures var fin := KruskalFrom(sets, sorted).1;
      forall e :: e in sorted ==> fin[e.v1] == fin[e.v2]
    decreases |sorted|
  {
    if sorted != [] {
      var e := sorted[0];
      assert forall x :: x in sorted[1..] ==> x in sorted;
      assert forall x :: x in sorted ==> x == e || x in sorted[1..];
      if sets[e.v1] != sets[e.v2] {
        var merged := Merge(sets, e.v1, e.v2);
        KruskalJoinsAll(merged, sorted[1..]);
        KruskalCoarsens(merged, sorted[1..]);
      } else {
        KruskalJoinsAll(sets, sorted[1..]);
        KruskalCoarsens(sets, sorted[1..]);
      }
    }
  }

  /** Every kept edge removes exactly one set. */
  lemma {:induction false} KruskalCount<V(!new)>(sets: Partition<V>, sorted: seq<Edge<V>>)
    requires forall e :: e in sorted ==> e.v1 in sets && e.v2 in sets
    ensures var (tree, fin) := KruskalFrom(sets, sorted);
      |tree| + |Classes(fin)| == |Classes(sets)|
    decreases |sorted|
  {
    if sorted != [] {
      var e := sorted[0];
      assert forall x :: x in sorted[1..] ==> x in sorted;
      if sets[e.v1] != sets[e.v2] {
        var merged := Merge(sets, e.v1, e.v2);
        MergeCount(sets, e.v1, e.v2);
        KruskalCount(merged, sorted[1..]);
        KruskalCoarsens(merged, sorted[1..]);
        var rest := KruskalFrom(merged, sorted[1..]).0;
        assert e !in rest;
      } else {
        KruskalCount(sets, sorted[1..]);
      }
    }
  }

  /** Merging along an edge that does not leave `s` keeps `s` a union of
      classes. */
  lemma MergeSaturated<V(!new)>(p: Partition<V>, a: V, b: V, s: set<V>)
    requires a in p && b in p && Saturated(p, s) && (a in s <==> b in s)
    ensures Saturated(Merge(p, a, b), s)
  {
  }

  /** The final sets are generated by the kept edges: any union of starting
      sets that no kept edge leaves is a union of final sets. */
  lemma {:induction false} KruskalGenerated<V(!new)>(sets: Partition<V>, sorted: seq<Edge<V>>, s: set<V>)
    requires forall e :: e in sorted ==> e.v1 in sets && e.v2 in sets
    requires Saturated(sets, s)
    requires Uncrossed(KruskalFrom(sets, sorted).0, s)
    ensures Saturated(KruskalFrom(sets, sorted).1, s)
    decreases |sorted|
  {
    if sorted != [] {
      var e := sorted[0];
      assert forall x :: x in sorted[1..] ==> x in sorted;
      if sets[e.v1] != sets[e.v2] {
        var merged := Merge(sets, e.v1, e.v2);
        assert e in KruskalFrom(sets, sorted).0;
        assert !Crosses(e, s);
        MergeSaturated(sets, e.v1, e.v2, s);
        KruskalGenerated(merged, sorted[1..], s);
      } else {
        KruskalGenerated(sets, sorted[1..], s);
      }
    }
  }

  /** `KruskalGenerated` for every `s` at once. */
  lemma KruskalGeneratedAll<V(!new)>(sets: Partition<V>, sorted: seq<Edge<V>>)
    requires forall e :: e in sorted ==> e.v1 in sets && e.v2 in sets
    ensures var (tree, fin) := KruskalFrom(sets, sorted);
      forall s :: Saturated(sets, s) && Uncrossed(tree, s) ==> Saturated(fin, s)
  {
    forall s | Saturated(sets, s) && Uncrossed(KruskalFrom(sets, sorted).0, s)
      ensures Saturated(KruskalFrom(sets, sorted).1, s)
    {
      KruskalGenerated(sets, sorted, s);
    }
  }

  /** A permutation has the same members. */
  lemma SameEdges<V>(sorted: seq<Edge<V>>, edges: seq<Edge<V>>)
    requires multiset(sorted) == multiset(edges)
    ensures forall e :: e in sorted <==> e in edges
  {
    forall e
      ensures e in sorted <==> e in edges
    {
      assert e in sorted <==> e in multiset(sorted);
      assert e in edges <==> e in multiset(edges);
    }
  }

  /** `findMinimumSpanningTree()`: Kruskal's algorithm over the edges as the
      sorter orders them, on the graph's own union-find, which is left merged
      in the returned graph. */
  function FindMinimumSpanningTree<V(!new)>(g: Graph<V>, sorted: seq<Edge<V>>): (r: (set<Edge<V>>, Graph<V>))
    requires Valid(g)
    requires Sorter.IsSortedPermutation(sorted, g.edges)
    ensures Valid(r.1) && r.1 == g.(sets := r.1.sets)
    ensures forall e :: e in r.0 ==> e in g.edges && g.sets[e.v1] != g.sets[e.v2]
    ensures forall e :: e in g.edges ==> r.1.sets[e.v1] == r.1.sets[e.v2]
    ensures |r.0| + |Classes(r.1.sets)| == |Classes(g.sets)|
    ensures forall s :: Saturated(g.sets, s) && Uncrossed(r.0, s) ==> Saturated(r.1.sets, s)
  {
    SameEdges(sorted, g.edges);
    KruskalCoarsens(g.sets, sorted);
    KruskalJoinsAll(g.sets, sorted);
    KruskalCount(g.sets, sorted);
    KruskalGeneratedAll(g.sets, sorted);
    var (tree, sets) := KruskalFrom(g.sets, sorted);
    (tree, g.(sets := sets))
  }

  /** On an untouched union-find there are as many classes as vertices. */
  lemma FreshClassCount<V(!new)>(g: Graph<V>)
    requires Valid(g) && Fresh(g)
    ensures |Classes(g.sets)| == g.graphSize
  {
    assert Classes(g.sets) == g.sets.Keys by {
      forall v | v in Classes(g.sets)
        ensures v in g.sets.Keys
      {
        var k :| k in g.sets && g.sets[k] == v;
      }
      forall v | v in g.sets.Keys
        ensures v in Classes(g.sets)
      {
        assert g.sets[v] == v;
      }
    }
  }

  /** A set of two or more elements holds two different ones. */
  lemma TwoElements<V(!new)>(s: set<V>) returns (a: V, b: V)
    requires |s| >= 2
    ensures a in s && b in s && a != b
  {
    a :| a in s;
    assert |s - {a}| >= 1;
    b :| b in s - {a};
  }

  /** A partition of a connected graph's vertices that keeps every edge
      inside one class has at most one class. */
  lemma ConnectedOneClass<V(!new)>(g: Graph<V>, p: Partition<V>)
    requires Valid(g) && Connected(g) && p.Keys == g.adj.Keys
    requires forall e :: e in g.edges ==> p[e.v1] == p[e.v2]
    ensures |Classes(p)| <= 1
  {
    if |Classes(p)| >= 2 {
      var c1, c2 := TwoElements(Classes(p));
      var x1 :| x1 in p && p[x1] == c1;
      var x2 :| x2 in p && p[x2] == c2;
      var s := set v | v in p && p[v] == c1;
      assert x1 in s && x2 !in s;
      assert ProperCut(g, s);
      assert false;
    }
  }

  /** On the first call, the result is a spanning forest: its edge count is
      the number of vertices minus the number of sets it leaves, and the
      sets it leaves are exactly the components of the result edges. */
  lemma {:induction false} FirstCallForest<V(!new)>(g: Graph<V>, sorted: seq<Edge<V>>)
    requires Valid(g) && Fresh(g)
    requires Sorter.IsSortedPermutation(sorted, g.edges)
    ensures var (tree, g') := FindMinimumSpanningTree(g, sorted);
      && |tree| + |Classes(g'.sets)| == NumVertices(g)
      && (forall e :: e in tree ==> g'.sets[e.v1] == g'.sets[e.v2])
      && (forall s :: Uncrossed(tree, s) ==> Saturated(g'.sets, s))
  {
    FreshClassCount(g);
    var (tree, g') := FindMinimumSpanningTree(g, sorted);
    forall s | Uncrossed(tree, s)
      ensures Saturated(g'.sets, s)
    {
      assert Saturated(g.sets, s);
    }
  }

  /** For a connected graph the first call returns `numVertices() - 1`
      edges, a spanning tree. */
  lemma {:induction false} FirstCallSpans<V(!new)>(g: Graph<V>, sorted: seq<Edge<V>>)
    requires Valid(g) && Fresh(g) && Connected(g) && NumVertices(g) > 0
    requires Sorter.IsSortedPermutation(sorted, g.edges)
    ensures |FindMinimumSpanningTree(g, sorted).0| == NumVertices(g) - 1
  {
    FreshClassCount(g);
    var (tree, g') := FindMinimumSpanningTree(g, sorted);
    ConnectedOneClass(g, g'.sets);
    var v :| v in g'.sets;
    assert g'.sets[v] in Classes(g'.sets);
  }

  /** As written, a second call on the same graph returns no edges: the
      union-find is never reset, so every edge already joins one set. */
  lemma {:induction false} SecondCallIsEmpty<V(!new)>(g: Graph<V>, sorted: seq<Edge<V>>)
    requires Valid(g)
    requires Sorter.IsSortedPermutation(sorted, g.edges)
    ensures var g' := FindMinimumSpanningTree(g, sorted).1;
      FindMinimumSpanningTree(g', sorted).0 == {}
  {
  }

  /** So on a connected graph of two or more vertices the first call yields a
      spanning tree and the second call does not. */
  lemma {:induction false} SecondCallNotSpanning<V(!new)>(g: Graph<V>, sorted: seq<Edge<V>>)
    requires Valid(g) && Fresh(g) && Connected(g) && NumVertices(g) >= 2
    requires Sorter.IsSortedPermutation(sorted, g.edges)
    ensures var (tree, g') := FindMinimumSpanningTree(g, sorted);
      && |tree| == NumVertices(g') - 1 >= 1
      && |FindMinimumSpanningTree(g', sorted).0| == 0 != NumVertices(g') - 1
  {
    FirstCallSpans(g, sorted);
    SecondCallIsEmpty(g, sorted);
  }

  /** The intended behaviour: reset the union-find to one singleton per
      vertex before running Kruskal's algorithm. */
  function FindMinimumSpanningTreeFresh<V(!new)>(g: Graph<V>, sorted: seq<Edge<V>>): (r: (set<Edge<V>>, Graph<V>))
    requires Valid(g)
    requires Sorter.IsSortedPermutation(sorted, g.edges)
    ensures Valid(r.1) && r.1 == g.(sets := r.1.sets)
    ensures forall e :: e in r.0 ==> e in g.edges
    ensures forall e :: e in g.edges ==> r.1.sets[e.v1] == r.1.sets[e.v2]
    ensures |r.0| + |Classes(r.1.sets)| == NumVertices(g)
    ensures forall s :: Uncrossed(r.0, s) ==> Saturated(r.1.sets, s)
    ensures Connected(g) && NumVertices(g) > 0 ==> |r.0| == NumVertices(g) - 1
  {
    var reset := g.(sets := Singletons(g.adj.Keys));
    assert Connected(g) ==> Connected(reset) by {
      assert forall s :: ProperCut(reset, s) ==> ProperCut(g, s);
      assert forall s :: Crossed(g, s) ==> Crossed(reset, s);
    }
    FirstCallForest(reset, sorted);
    SpansWhenConnected(reset, sorted);
    FindMinimumSpanningTree(reset, sorted)
  }

  /** `FirstCallSpans` with its connectivity premise as a guard. */
  lemma SpansWhenConnected<V(!new)>(g: Graph<V>, sorted: seq<Edge<V>>)
    requires Valid(g) && Fresh(g)
    requires Sorter.IsSortedPermutation(sorted, g.edges)
    ensures Connected(g) && NumVertices(g) > 0 ==> |FindMinimumSpanningTree(g, sorted).0| == NumVertices(g) - 1
  {
    if Connected(g) && NumVertices(g) > 0 {
      FirstCallSpans(g, sorted);
    }
  }

  /** With the reset, calling again returns the same tree. */
  lemma FreshRepeatable<V(!new)>(g: Graph<V>, sorted: seq<Edge<V>>)
    requires Valid(g)
    requires Sorter.IsSortedPermutation(sorted, g.edges)
    ensures var g' := FindMinimumSpanningTreeFresh(g, sorted).1;
      FindMinimumSpanningTreeFresh(g', sorted).0 == FindMinimumSpanningTreeFresh(g, sorted).0
  {
    var g' := FindMinimumSpanningTreeFresh(g, sorted).1;
    assert g'.(sets := Singletons(g'.adj.Keys)) == g.(sets := Singletons(g.adj.Keys));
  }
}
