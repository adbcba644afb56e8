/** The union-find as the graph sees it: a partition of the vertices, each
    vertex mapped to the representative of its set.

    `ArrayDisjointSet.Union` proves the same same-class characterisation as
    `Merge` below, on the array representation; no lemma composes the two
    representations. The graph is stated over the abstraction so that its
    algorithms do not carry the array bookkeeping.
 */
module Partition {

  /** Vertex to representative. */
  type Partition<V> = map<V, V>

  /** The set labels in use; one per class. */
  function Classes<V>(p: Partition<V>): set<V> {
    p.Values
  }

  /** One singleton class per vertex: what `makeSet` on each vertex builds. */
  function Singletons<V>(vs: set<V>): (p: Partition<V>)
    ensures p.Keys == vs
    ensures forall v :: v in vs ==> p[v] == v
    ensures Classes(p) == vs
  {
    map v | v in vs :: v
  }

  /** `union(a, b)`: every member of `a`'s class moves into `b`'s class. */
  function Merge<V>(p: Partition<V>, a: V, b: V): (p': Partition<V>)
    requires a in p && b in p
    ensures p'.Keys == p.Keys
    ensures forall x, y :: x in p && y in p ==>
      (p'[x] == p'[y] <==> p[x] == p[y] || (p[x] == p[a] && p[y] == p[b]) || (p[x] == p[b] && p[y] == p[a]))
    ensures p[a] == p[b] ==> p' == p
    ensures p[a] != p[b] ==> Classes(p') == Classes(p) - {p[a]}
  {
    map v | v in p :: if p[v] == p[a] then p[b] else p[v]
  }

  /** Merging two different classes removes exactly one class. */
  lemma MergeCount<V>(p: Partition<V>, a: V, b: V)
    requires a in p && b in p && p[a] != p[b]
    ensures |Classes(Merge(p, a, b))| + 1 == |Classes(p)|
  {
    assert p[a] in Classes(p);
  }
}
