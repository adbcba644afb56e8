/** `findShortestPathBetween`: Dijkstra's algorithm with decrease-key over
    the graph's adjacency sets, followed by the walk back along the recorded
    predecessors.

    The binary heap (`ArrayHeap`) is modelled by the finite set of entries
    it holds; `RemoveMin` returns any entry no greater than the others, which
    is all the heap promises about ties. Distances are sums of non-negative
    integer weights, with `Infinity` for `Double.POSITIVE_INFINITY`.
 */
module ShortestPath {
  import opened Wrappers
  import opened Edges
  import opened Graph

  /** A tentative distance. */
  datatype Dist = Infinity | Finite(n: nat)

  /** The `<` of the Java doubles, on distances. */
  predicate Below(a: Dist, b: Dist) {
    a.Finite? && (b.Infinity? || a.n < b.n)
  }

  /** `ComparableVertex`: a vertex, its tentative distance, and the vertex and
      edge it was last reached by (`None` for Java's null). */
  datatype ComparableVertex<V> = ComparableVertex(vertex: V, dist: Dist, pred: Option<V>, edge: Option<Edge<V>>)

  /** `compareTo`: entries are ordered by distance alone. */
  function CompareTo<V>(a: ComparableVertex<V>, b: ComparableVertex<V>): (c: int)
    ensures c == -1 || c == 0 || c == 1
    ensures c < 0 <==> Below(a.dist, b.dist)
    ensures c > 0 <==> Below(b.dist, a.dist)
  {
    if Below(a.dist, b.dist) then -1
    else if Below(b.dist, a.dist) then 1
    else 0
  }

  /** `compareTo` is a total preorder: antisymmetric in sign, transitive, and
      zero exactly on equal distances. */
  lemma CompareToOrder<V>(a: ComparableVertex<V>, b: ComparableVertex<V>, c: ComparableVertex<V>)
    ensures CompareTo(a, b) == -CompareTo(b, a)
    ensures CompareTo(a, b) <= 0 && CompareTo(b, c) <= 0 ==> CompareTo(a, c) <= 0
    ensures CompareTo(a, b) == 0 <==> a.dist == b.dist
  {
  }

  /** Every non-empty heap has an entry no greater than all others. */
  lemma {:induction false} MinExists<V>(pq: set<ComparableVertex<V>>)
    requires pq != {}
    ensures exists x :: x in pq && forall y :: y in pq ==> CompareTo(x, y) <= 0
    decreases |pq|
  {
    var y :| y in pq;
    if pq - {y} == {} {
      assert pq == {y};
    } else {
      MinExists(pq - {y});
      var m :| m in pq - {y} && forall z :: z in pq - {y} ==> CompareTo(m, z) <= 0;
      if Below(y.dist, m.dist) {
        forall z | z in pq
          ensures CompareTo(y, z) <= 0
        {
          if z != y {
            CompareToOrder(y, m, z);
          }
        }
      } else {
        assert forall z :: z in pq ==> CompareTo(m, z) <= 0;
      }
    }
  }

  /** `removeMin()`: takes out an entry of least distance. */
  method RemoveMin<V(==)>(pq: set<ComparableVertex<V>>) returns (x: ComparableVertex<V>, rest: set<ComparableVertex<V>>)
    requires pq != {}
    ensures x in pq && rest == pq - {x}
    ensures forall y :: y in pq ==> CompareTo(x, y) <= 0
  {
    MinExists(pq);
    x :| x in pq && forall y :: y in pq ==> CompareTo(x, y) <= 0;
    rest := pq - {x};
  }

  /** The search state: the processed set, the `vertexToComp` dictionary and
      the heap. */
  datatype SearchState<V> = SearchState(processed: set<V>, vertexToComp: map<V, ComparableVertex<V>>, pq: set<ComparableVertex<V>>)

  /** One pass of the inner loop: relax edge `e` out of the entry `cur` just
      removed from the heap. The neighbour's entry is replaced only when the
      distance through `cur` is strictly smaller and the neighbour is not
      processed; the new entry is added to the heap if the neighbour had
      never been reached, and otherwise replaces the old heap entry (which
      `replace` requires to be present). */
  function Relax<V(==)>(s: SearchState<V>, cur: ComparableVertex<V>, e: Edge<V>): (s': SearchState<V>)
    requires cur.dist.Finite? && e.weight >= 0 && Touches(e, cur.vertex)
    requires Other(e, cur.vertex) in s.vertexToComp
    requires var prev := s.vertexToComp[Other(e, cur.vertex)];
      Below(Finite(cur.dist.n + e.weight), prev.dist) && Other(e, cur.vertex) !in s.processed && prev.dist.Finite?
      ==> prev in s.pq
    ensures s'.processed == s.processed && s'.vertexToComp.Keys == s.vertexToComp.Keys
    ensures forall v :: v in s.vertexToComp && v != Other(e, cur.vertex) ==> s'.vertexToComp[v] == s.vertexToComp[v]
    ensures var nb := Other(e, cur.vertex);
      var prev := s.vertexToComp[nb];
      var nw := s'.vertexToComp[nb];
      var through := Finite(cur.dist.n + e.weight);
      && !Below(prev.dist, nw.dist)
      && (nb in s.processed ==> s' == s)
      && (nb !in s.processed ==> !Below(through, nw.dist))
      && (nw == prev ==> s'.pq == s.pq)
      && (nw != prev ==>
            && Below(through, prev.dist)
            && nw == ComparableVertex(nb, through, Some(cur.vertex), Some(e))
            && (prev.dist.Infinity? ==> s'.pq == s.pq + {nw})
            && (prev.dist.Finite? ==> prev in s.pq && s'.pq == s.pq - {prev} + {nw}))
  {
    var neighbor := Other(e, cur.vertex);
    var oldEndV := s.vertexToComp[neighbor];
    var newDist := Finite(cur.dist.n + e.weight);
    if Below(newDist, oldEndV.dist) && neighbor !in s.processed then
      var newEndV := ComparableVertex(neighbor, newDist, Some(cur.vertex), Some(e));
      s.(vertexToComp := s.vertexToComp[neighbor := newEndV],
         pq := if oldEndV.dist == Infinity then s.pq + {newEndV} else s.pq - {oldEndV} + {newEndV})
    else s
  }

  // ---------------------------------------------------------------------
  // Invariants of the search loop.

  /** `v` has a finite tentative distance. */
  ghost predicate Reached<V>(s: SearchState<V>, v: V) {
    v in s.vertexToComp && s.vertexToComp[v].dist.Finite?
  }

  /** Every vertex has an entry, and each entry names its own vertex. */
  ghost predicate EntriesOk<V(!new)>(g: Graph<V>, s: SearchState<V>) {
    && s.vertexToComp.Keys == g.adj.Keys
    && forall v :: v in s.vertexToComp ==> s.vertexToComp[v].vertex == v
  }

  /** The start is processed, at distance 0, with no predecessor. */
  ghost predicate StartOk<V>(s: SearchState<V>, start: V) {
    && start in s.vertexToComp && start in s.processed
    && s.vertexToComp[start] == ComparableVertex(start, Finite(0), None, None)
  }

  /** Processed vertices have been reached. */
  ghost predicate ProcessedOk<V(!new)>(s: SearchState<V>) {
    forall v :: v in s.processed ==> Reached(s, v)
  }

  /** The heap holds exactly the dictionary entries of the reached,
      unprocessed vertices (and possibly the start's): one live entry per
      vertex. */
  ghost predicate QueueOk<V(!new)>(s: SearchState<V>) {
    && (forall x :: x in s.pq ==> x.vertex in s.vertexToComp && s.vertexToComp[x.vertex] == x && x.dist.Finite?)
    && (forall v :: Reached(s, v) && v !in s.processed ==> s.vertexToComp[v] in s.pq)
  }

  /** `e` leads from the processed vertex `p` to `v`, and `v`'s distance is
      `p`'s plus the weight of `e`. */
  ghost predicate StepOk<V(!new)>(g: Graph<V>, s: SearchState<V>, p: V, e: Edge<V>, v: V) {
    && p in s.processed && p in g.adj && e in g.adj[p] && Touches(e, p) && Other(e, p) == v
    && Reached(s, p) && v in s.vertexToComp && e.weight >= 0
    && s.vertexToComp[v].dist == Finite(s.vertexToComp[p].dist.n + e.weight)
  }

  /** The predecessor recorded for `v` is consistent. */
  ghost predicate PredOk<V(!new)>(g: Graph<V>, s: SearchState<V>, start: V, v: V)
    requires v in s.vertexToComp
  {
    var x := s.vertexToComp[v];
    match x.pred
    case None => x.edge.None? && (v == start || x.dist.Infinity?)
    case Some(p) => x.edge.Some? && StepOk(g, s, p, x.edge.value, v)
  }

  ghost predicate PredsOk<V(!new)>(g: Graph<V>, s: SearchState<V>, start: V) {
    forall v {:trigger PredOk(g, s, start, v)} :: v in s.vertexToComp ==> PredOk(g, s, start, v)
  }

  /** `order` numbers the processed vertices in processing order; a
      processed vertex's predecessor was processed before it. */
  ghost predicate OrderOk<V(!new)>(s: SearchState<V>, order: map<V, nat>) {
    && order.Keys == s.processed
    && forall v {:trigger OrderAt(s, order, v)} :: OrderAt(s, order, v)
  }

  /** The predecessor of the processed vertex `v` has the smaller stamp. */
  ghost predicate OrderAt<V>(s: SearchState<V>, order: map<V, nat>, v: V) {
    v in order && v in s.vertexToComp && s.vertexToComp[v].pred.Some? ==>
      s.vertexToComp[v].pred.value in order && order[s.vertexToComp[v].pred.value] < order[v]
  }

  /** All stamps are below `counter`. */
  ghost predicate StampsBelow<V(!new)>(order: map<V, nat>, counter: nat) {
    forall v :: v in order ==> order[v] < counter
  }

  /** Every edge out of a vertex of `vs` leads to a reached vertex. */
  ghost predicate Closed<V(!new)>(g: Graph<V>, s: SearchState<V>, vs: set<V>) {
    forall v, e :: v in vs && v in g.adj && e in g.adj[v] && Touches(e, v) ==> Reached(s, Other(e, v))
  }

  /** The invariants that hold throughout the search. */
  ghost predicate Core<V(!new)>(g: Graph<V>, start: V, s: SearchState<V>, order: map<V, nat>, counter: nat) {
    && EntriesOk(g, s) && StartOk(s, start) && ProcessedOk(s) && QueueOk(s)
    && PredsOk(g, s, start) && OrderOk(s, order) && StampsBelow(order, counter)
  }

  /** The invariant of the outer loop; `relaxed` holds the vertices whose
      edges have all been relaxed. */
  ghost predicate Outer<V(!new)>(g: Graph<V>, start: V, s: SearchState<V>, order: map<V, nat>, counter: nat, relaxed: set<V>) {
    && Core(g, start, s, order, counter)
    && relaxed <= s.processed && Closed(g, s, relaxed)
    && (forall v :: v in s.processed && v !in relaxed ==> v == start)
    && (start !in relaxed ==> s.pq == {s.vertexToComp[start]})
    && (start in relaxed ==> forall x :: x in s.pq ==> x.vertex !in s.processed)
  }

  /** The invariant of the inner loop over the edges of `cur.vertex`;
      `todo` holds the edges not relaxed yet. */
  ghost predicate Inner<V(!new)>(g: Graph<V>, start: V, s: SearchState<V>, order: map<V, nat>, counter: nat,
                                 relaxed: set<V>, cur: ComparableVertex<V>, todo: set<Edge<V>>) {
    && Core(g, start, s, order, counter)
    && relaxed <= s.processed && Closed(g, s, relaxed)
    && cur.vertex in s.processed && cur.vertex !in relaxed && cur.vertex in g.adj
    && s.vertexToComp[cur.vertex] == cur && cur.dist.Finite?
    && (forall v :: v in s.processed && v !in relaxed ==> v == cur.vertex)
    && start in relaxed + {cur.vertex}
    && (forall x :: x in s.pq ==> x.vertex !in s.processed)
    && todo <= g.adj[cur.vertex]
    && (forall e :: e in g.adj[cur.vertex] && e !in todo && Touches(e, cur.vertex) ==> Reached(s, Other(e, cur.vertex)))
  }

  /** What the search leaves behind: the reached vertices are exactly the
      processed ones, they are closed under the edges, and the predecessors
      form chains back to the start with consistent distances. */
  ghost predicate Settled<V(!new)>(g: Graph<V>, start: V, s: SearchState<V>) {
    && EntriesOk(g, s) && StartOk(s, start) && ProcessedOk(s)
    && PredsOk(g, s, start)
    && (forall v :: Reached(s, v) ==> v in s.processed)
    && Closed(g, s, s.processed)
  }

  /** `Settled`, with `order` witnessing that predecessor chains lead back
      to the start. */
  ghost predicate Final<V(!new)>(g: Graph<V>, start: V, s: SearchState<V>, order: map<V, nat>) {
    Settled(g, start, s) && OrderOk(s, order)
  }

  /** The vertices not reached yet. */
  ghost function Undiscovered<V(!new)>(s: SearchState<V>): set<V> {
    set v | v in s.vertexToComp && s.vertexToComp[v].dist.Infinity?
  }

  /** The termination measure of the outer loop: each removal shrinks the
      heap, and each insertion into the heap discovers a vertex. */
  ghost function Measure<V(!new)>(s: SearchState<V>): nat {
    2 * |Undiscovered(s)| + |s.pq|
  }

  // ---------------------------------------------------------------------
  // The invariants are established and kept.

  /** The initial state: all distances infinite but the start's, the heap
      holding only the start. */
  lemma InitOk<V(!new)>(g: Graph<V>, start: V, s: SearchState<V>)
    requires Valid(g) && start in g.adj
    requires s == SearchState({start},
                         (map v | v in g.adj :: ComparableVertex(v, Infinity, None, None))[start := ComparableVertex(start, Finite(0), None, None)],
                         {ComparableVertex(start, Finite(0), None, None)})
    ensures Outer(g, start, s, map[start := 0], 1, {})
  {
    forall v | v in s.vertexToComp
      ensures PredOk(g, s, start, v)
    {
    }
  }

  /** Removing the least entry and marking its vertex processed moves from the
      outer invariant to the inner one, lowering the measure. */
  lemma PopOk<V(!new)>(g: Graph<V>, start: V, s: SearchState<V>, order: map<V, nat>, counter: nat, relaxed: set<V>,
                       cur: ComparableVertex<V>, s': SearchState<V>, order': map<V, nat>, counter': nat)
    requires Valid(g) && Outer(g, start, s, order, counter, relaxed)
    requires cur in s.pq
    requires s' == s.(pq := s.pq - {cur}, processed := s.processed + {cur.vertex})
    requires cur.vertex in s.processed ==> order' == order && counter' == counter
    requires cur.vertex !in s.processed ==> order' == order[cur.vertex := counter] && counter' == counter + 1
    ensures cur.vertex in g.adj && Inner(g, start, s', order', counter', relaxed, cur, g.adj[cur.vertex])
    ensures Measure(s') < Measure(s)
  {
    var m := s.vertexToComp;
    assert m[cur.vertex] == cur;
    if start !in relaxed {
      assert cur == m[start];
    }
    assert Undiscovered(s') == Undiscovered(s);
    assert QueueOk(s') by {
      forall v | Reached(s', v) && v !in s'.processed
        ensures m[v] in s'.pq
      {
        assert m[v] in s.pq;
        assert m[v].vertex == v;
      }
    }
    assert PredsOk(g, s', start) by {
      forall v | v in s'.vertexToComp
        ensures PredOk(g, s', start, v)
      {
        assert PredOk(g, s, start, v);
      }
    }
    assert OrderOk(s', order') by {
      forall v
        ensures OrderAt(s', order', v)
      {
        if v in order' && v in m && m[v].pred.Some? {
          assert PredOk(g, s, start, v);
          if v in s.processed {
            assert OrderAt(s, order, v);
          } else {
            assert v == cur.vertex;
          }
        }
      }
    }
  }

  /** Relaxing one more edge of `cur.vertex` keeps the inner invariant and
      does not raise the measure. */
  lemma RelaxOk<V(!new)>(g: Graph<V>, start: V, s: SearchState<V>, order: map<V, nat>, counter: nat, relaxed: set<V>,
                         cur: ComparableVertex<V>, todo: set<Edge<V>>, e: Edge<V>)
    requires Valid(g) && Inner(g, start, s, order, counter, relaxed, cur, todo)
    requires e in todo
    ensures Touches(e, cur.vertex) && e.weight >= 0 && Other(e, cur.vertex) in s.vertexToComp
    ensures var prev := s.vertexToComp[Other(e, cur.vertex)];
      Below(Finite(cur.dist.n + e.weight), prev.dist) && Other(e, cur.vertex) !in s.processed && prev.dist.Finite?
      ==> prev in s.pq
    ensures Inner(g, start, Relax(s, cur, e), order, counter, relaxed, cur, todo - {e})
    ensures Measure(Relax(s, cur, e)) <= Measure(s)
  {
    var nb := Other(e, cur.vertex);
    var m := s.vertexToComp;
    assert e in g.adj[cur.vertex];
    assert Touches(e, cur.vertex) && e in g.edges;
    if Reached(s, nb) && nb !in s.processed {
      assert m[nb] in s.pq;
    }
    var s' := Relax(s, cur, e);
    if s'.vertexToComp[nb] == m[nb] {
      assert s' == s by {
        assert s'.vertexToComp == m;
      }
      if nb in s.processed {
        assert Reached(s, nb);
      }
    } else {
      var nw := s'.vertexToComp[nb];
      ChangedQueue(s, nb, nw, s');
      ChangedPreds(g, s, start, cur, e, nb, nw, s');
      ChangedOrder(s, order, nb, nw, s');
      ChangedClosed(g, s, relaxed, cur, todo, e, nb, nw, s');
      ChangedMeasure(s, nb, nw, s');
      assert s'.vertexToComp[cur.vertex] == cur;
    }
  }

  /** A changed entry keeps the heap in step with the dictionary. */
  lemma ChangedQueue<V(!new)>(s: SearchState<V>, nb: V, nw: ComparableVertex<V>, s': SearchState<V>)
    requires QueueOk(s) && nb in s.vertexToComp && nb !in s.processed
    requires forall v :: v in s.vertexToComp ==> s.vertexToComp[v].vertex == v
    requires nw.vertex == nb && Below(nw.dist, s.vertexToComp[nb].dist)
    requires s'.processed == s.processed && s'.vertexToComp == s.vertexToComp[nb := nw]
    requires s'.pq == if s.vertexToComp[nb].dist.Infinity? then s.pq + {nw}
                      else s.pq - {s.vertexToComp[nb]} + {nw}
    ensures QueueOk(s')
    ensures nw !in s.pq
    ensures s.vertexToComp[nb].dist.Finite? ==> s.vertexToComp[nb] in s.pq
    ensures forall x :: x in s'.pq ==> x == nw || x in s.pq
  {
    var m := s.vertexToComp;
    var m' := s'.vertexToComp;
    assert nw != m[nb];
    forall x | x in s'.pq
      ensures x.vertex in m' && m'[x.vertex] == x && x.dist.Finite?
    {
      if x != nw {
        assert x in s.pq && x != m[nb];
      }
    }
    forall v | Reached(s', v) && v !in s'.processed
      ensures m'[v] in s'.pq
    {
      if v != nb {
        assert m'[v] == m[v] && m[v] in s.pq && m[v].vertex == v;
      }
    }
  }

  /** A changed entry records a consistent predecessor, and the other
      entries keep theirs. */
  lemma ChangedPreds<V(!new)>(g: Graph<V>, s: SearchState<V>, start: V, cur: ComparableVertex<V>, e: Edge<V>,
                              nb: V, nw: ComparableVertex<V>, s': SearchState<V>)
    requires PredsOk(g, s, start) && nb in s.vertexToComp && nb !in s.processed && nb != start
    requires cur.vertex in s.processed && cur.vertex in s.vertexToComp && s.vertexToComp[cur.vertex] == cur
    requires cur.dist.Finite? && cur.vertex in g.adj && e in g.adj[cur.vertex]
    requires Touches(e, cur.vertex) && Other(e, cur.vertex) == nb && e.weight >= 0
    requires nw == ComparableVertex(nb, Finite(cur.dist.n + e.weight), Some(cur.vertex), Some(e))
    requires s'.processed == s.processed && s'.vertexToComp == s.vertexToComp[nb := nw]
    ensures PredsOk(g, s', start)
  {
    forall v | v in s'.vertexToComp
      ensures PredOk(g, s', start, v)
    {
      if v != nb {
        assert PredOk(g, s, start, v);
      } else {
        assert StepOk(g, s', cur.vertex, e, nb);
      }
    }
  }

  /** Stamps only concern processed vertices, whose entries do not change. */
  lemma ChangedOrder<V(!new)>(s: SearchState<V>, order: map<V, nat>, nb: V, nw: ComparableVertex<V>, s': SearchState<V>)
    requires OrderOk(s, order) && nb !in s.processed
    requires s'.processed == s.processed && s'.vertexToComp == s.vertexToComp[nb := nw]
    ensures OrderOk(s', order)
  {
    forall v
      ensures OrderAt(s', order, v)
    {
      assert OrderAt(s, order, v);
      if v in order {
        assert v != nb;
      }
    }
  }

  /** Reached vertices stay reached, and the relaxed edge now leads to one. */
  lemma ChangedClosed<V(!new)>(g: Graph<V>, s: SearchState<V>, relaxed: set<V>, cur: ComparableVertex<V>,
                               todo: set<Edge<V>>, e: Edge<V>, nb: V, nw: ComparableVertex<V>, s': SearchState<V>)
    requires Closed(g, s, relaxed) && nb in s.vertexToComp && cur.vertex in g.adj
    requires forall f :: f in g.adj[cur.vertex] && f !in todo && Touches(f, cur.vertex) ==> Reached(s, Other(f, cur.vertex))
    requires Touches(e, cur.vertex) && Other(e, cur.vertex) == nb && nw.dist.Finite?
    requires s'.vertexToComp == s.vertexToComp[nb := nw]
    ensures Closed(g, s', relaxed)
    ensures forall f :: f in g.adj[cur.vertex] && f !in todo - {e} && Touches(f, cur.vertex) ==> Reached(s', Other(f, cur.vertex))
  {
    forall v, f | v in relaxed && v in g.adj && f in g.adj[v] && Touches(f, v)
      ensures Reached(s', Other(f, v))
    {
      assert Reached(s, Other(f, v));
    }
    forall f | f in g.adj[cur.vertex] && f !in todo - {e} && Touches(f, cur.vertex)
      ensures Reached(s', Other(f, cur.vertex))
    {
      if f != e {
        assert Reached(s, Other(f, cur.vertex));
      }
    }
  }

  /** Discovering a vertex adds one heap entry; lowering a finite distance
      swaps one. */
  lemma ChangedMeasure<V(!new)>(s: SearchState<V>, nb: V, nw: ComparableVertex<V>, s': SearchState<V>)
    requires nb in s.vertexToComp && nw.dist.Finite? && nw !in s.pq
    requires s.vertexToComp[nb].dist.Finite? ==> s.vertexToComp[nb] in s.pq
    requires s'.vertexToComp == s.vertexToComp[nb := nw]
    requires s'.pq == if s.vertexToComp[nb].dist.Infinity? then s.pq + {nw}
                      else s.pq - {s.vertexToComp[nb]} + {nw}
    ensures Measure(s') <= Measure(s)
  {
    if s.vertexToComp[nb].dist.Infinity? {
      assert Undiscovered(s') == Undiscovered(s) - {nb};
      assert nb in Undiscovered(s);
    } else {
      assert Undiscovered(s') == Undiscovered(s);
      assert |s'.pq| == |s.pq|;
    }
  }

  /** Once every edge of `cur.vertex` is relaxed, the outer invariant holds
      with `cur.vertex` counted as relaxed. */
  lemma FinishOk<V(!new)>(g: Graph<V>, start: V, s: SearchState<V>, order: map<V, nat>, counter: nat, relaxed: set<V>,
                          cur: ComparableVertex<V>)
    requires Valid(g) && Inner(g, start, s, order, counter, relaxed, cur, {})
    ensures Outer(g, start, s, order, counter, relaxed + {cur.vertex})
  {
  }

  /** When the heap is empty the search is complete. */
  lemma ExitOk<V(!new)>(g: Graph<V>, start: V, s: SearchState<V>, order: map<V, nat>, counter: nat, relaxed: set<V>)
    requires Valid(g) && Outer(g, start, s, order, counter, relaxed) && s.pq == {}
    ensures Final(g, start, s, order)
  {
    assert start in relaxed;
    assert relaxed == s.processed;
  }

  /** Lines 178-211: the search loop. */
  method Search<V(==,!new)>(g: Graph<V>, start: V) returns (s: SearchState<V>, ghost order: map<V, nat>)
    requires Valid(g) && start in g.adj
    ensures Settled(g, start, s)
    ensures OrderOk(s, order)
  {
    var initial := ComparableVertex(start, Finite(0), None, None);
    var vertexToComp := map v | v in g.adj :: ComparableVertex(v, Infinity, None, None);
    s := SearchState({start}, vertexToComp[start := initial], {initial});
    order := map[start := 0];
    ghost var counter: nat := 1;
    ghost var relaxed: set<V> := {};
    InitOk(g, start, s);
    while s.pq != {}
      invariant Outer(g, start, s, order, counter, relaxed)
      decreases Measure(s)
    {
      var cur, rest := RemoveMin(s.pq);
      ghost var s0 := s;
      ghost var order0, counter0 := order, counter;
      if cur.vertex !in s.processed {
        order := order[cur.vertex := counter];
        counter := counter + 1;
      }
      s := s.(pq := rest, processed := s.processed + {cur.vertex});
      PopOk(g, start, s0, order0, counter0, relaxed, cur, s, order, counter);
      ghost var bound := Measure(s);
      var currEdges := g.adj[cur.vertex];
      while currEdges != {}
        invariant Inner(g, start, s, order, counter, relaxed, cur, currEdges)
        invariant Measure(s) <= bound
        decreases currEdges
      {
        var edge :| edge in currEdges;
        RelaxOk(g, start, s, order, counter, relaxed, cur, currEdges, edge);
        s := Relax(s, cur, edge);
        currEdges := currEdges - {edge};
      }
      FinishOk(g, start, s, order, counter, relaxed, cur);
      relaxed := relaxed + {cur.vertex};
    }
    ExitOk(g, start, s, order, counter, relaxed);
  }

  // ---------------------------------------------------------------------
  // Paths.

  /** `path` is a walk from `a` to `b`: each edge leaves the vertex the
      previous one arrived at. */
  ghost predicate Walk<V>(path: seq<Edge<V>>, a: V, b: V)
    decreases |path|
  {
    if path == [] then a == b
    else Touches(path[0], a) && Walk(path[1..], Other(path[0], a), b)
  }

  /** The sum of the weights along `path`. */
  function TotalWeight<V>(path: seq<Edge<V>>): int {
    if path == [] then 0 else path[0].weight + TotalWeight(path[1..])
  }

  /** Some set of vertices holds `a` but not `b` and no edge leaves it. */
  ghost predicate Separated<V(!new)>(g: Graph<V>, a: V, b: V) {
    exists s :: a in s && b !in s && !Crossed(g, s)
  }

  /** A walk over graph edges cannot leave a set that no edge leaves. */
  lemma {:induction false} WalkStaysInside<V(!new)>(g: Graph<V>, path: seq<Edge<V>>, a: V, b: V, s: set<V>)
    requires Walk(path, a, b) && forall e :: e in path ==> e in g.edges
    requires a in s && !Crossed(g, s)
    ensures b in s
    decreases |path|
  {
    if path != [] {
      assert path[0] in g.edges && !Crosses(path[0], s);
      assert forall e :: e in path[1..] ==> e in path;
      WalkStaysInside(g, path[1..], Other(path[0], a), b, s);
    }
  }

  /** So a walk from `a` to `b` and a separating set exclude each other. */
  lemma WalkNotSeparated<V(!new)>(g: Graph<V>, path: seq<Edge<V>>, a: V, b: V)
    requires Walk(path, a, b) && forall e :: e in path ==> e in g.edges
    ensures !Separated(g, a, b)
  {
    if s :| a in s && b !in s && !Crossed(g, s) {
      WalkStaysInside(g, path, a, b, s);
    }
  }

  /** In a connected graph no two vertices are separated. */
  lemma ConnectedNotSeparated<V(!new)>(g: Graph<V>, a: V, b: V)
    requires Valid(g) && Connected(g) && a in g.adj && b in g.adj
    ensures !Separated(g, a, b)
  {
    if s :| a in s && b !in s && !Crossed(g, s) {
      var t := s * g.adj.Keys;
      assert a in t && b !in t;
      assert ProperCut(g, t);
      var e :| e in g.edges && Crosses(e, t);
      assert Crosses(e, s);
    }
  }

  /** Lines 212-223: follows the predecessors back from `end`, prepending
      each recorded edge, until the start is reached. */
  method Reconstruct<V(==,!new)>(g: Graph<V>, start: V, end: V, s: SearchState<V>, ghost order: map<V, nat>)
    returns (r: Result<seq<Edge<V>>>)
    requires Valid(g) && Final(g, start, s, order) && end in g.adj && end != start
    ensures r.Failure? <==> s.vertexToComp[end].pred.None?
    ensures r.Failure? ==> r.error == NoPathExists
    ensures r.Success? ==> Walk(r.value, start, end) && |r.value| > 0
    ensures r.Success? ==> forall e :: e in r.value ==> e in g.edges
    ensures r.Success? ==> s.vertexToComp[end].dist.Finite? && s.vertexToComp[end].dist.n == TotalWeight(r.value)
  {
    var m := s.vertexToComp;
    var endV := m[end];
    var pred := endV.pred;
    if pred.None? {
      return Failure(NoPathExists);
    }
    assert PredOk(g, s, start, end);
    var path := [endV.edge.value];
    var p := pred.value;
    assert Walk(path[1..], Other(path[0], p), end);
    while p != start
      invariant p in s.processed && p in m && Reached(s, p)
      invariant Walk(path, p, end) && |path| > 0
      invariant forall e :: e in path ==> e in g.edges
      invariant m[end].dist.Finite? && m[end].dist.n == m[p].dist.n + TotalWeight(path)
      decreases order[p]
    {
      assert PredOk(g, s, start, p);
      assert OrderAt(s, order, p);
      var predecessor := m[p];
      var e := predecessor.edge.value;
      var q := predecessor.pred.value;
      assert StepOk(g, s, q, e, p);
      var path' := [e] + path;
      assert path'[1..] == path;
      path := path';
      p := q;
    }
    r := Success(path);
  }

  /** `findShortestPathBetween(start, end)`. */
  method FindShortestPathBetween<V(==,!new)>(g: Graph<V>, start: V, end: V) returns (r: Result<seq<Edge<V>>>)
    requires Valid(g)
    ensures (r.Failure? && r.error == InvalidArgument) <==> start !in g.adj || end !in g.adj
    ensures start in g.adj && start == end ==> r == Success([])
    ensures r.Success? ==> Walk(r.value, start, end) && forall e :: e in r.value ==> e in g.edges
    ensures r.Success? && start != end ==> |r.value| > 0
    ensures r.Failure? && r.error == NoPathExists ==> start != end && Separated(g, start, end)
  {
    if start !in g.adj || end !in g.adj {
      return Failure(InvalidArgument);
    }
    if start == end {
      return Success([]);
    }
    var s, order := Search(g, start);
    r := Reconstruct(g, start, end, s, order);
    if r.Failure? {
      // The reached vertices hold the start, not the end, and no edge
      // leaves them.
      var reached := set v | v in s.vertexToComp && s.vertexToComp[v].dist.Finite?;
      assert PredOk(g, s, start, end);
      assert start in reached && end !in reached;
      assert !Crossed(g, reached) by {
        forall e | e in g.edges
          ensures !Crosses(e, reached)
        {
          assert e in g.adj[e.v1] && e in g.adj[e.v2];
          assert Other(e, e.v1) == e.v2 && Other(e, e.v2) == e.v1;
        }
      }
    }
  }
}
