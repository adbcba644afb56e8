/** The edge type the graph is generic over (`E extends IEdge<V>`).

    The Java graph stores caller-supplied edge objects and tells parallel
    edges apart by identity; here `id` plays that part, so two edges with the
    same endpoints and weight stay distinct set members when their ids
    differ. The weight is an `int` so that the constructor's rejection of
    negative weights can be stated.
 */
module Edges {

  datatype Edge<V> = Edge(v1: V, v2: V, weight: int, id: nat)

  /** `v` is an endpoint of `e`. */
  predicate Touches<V(==)>(e: Edge<V>, v: V) {
    e.v1 == v || e.v2 == v
  }

  /** `getOtherVertex(v)`: the endpoint of `e` that is not `v` (`v` itself for
      a self-loop). */
  function Other<V(==)>(e: Edge<V>, v: V): (u: V)
    requires Touches(e, v)
    ensures Touches(e, u)
    ensures v == e.v1 ==> u == e.v2
    ensures v == e.v2 ==> u == e.v1
  {
    if v == e.v1 then e.v2 else e.v1
  }
}
