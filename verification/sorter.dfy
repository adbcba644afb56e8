/** The edge ordering Kruskal's algorithm consumes.

    The library's `Sorter.topKSort(k, list)` is called with `k` equal to the
    number of edges, so it is a full ascending sort by weight; its
    implementation is not part of this model. `SortByWeight` is one sorter
    that meets the contract, showing that the contract can be met.
 */
module Sorter {
  import opened Edges

  /** Ascending by weight; ties in any order. */
  ghost predicate SortedByWeight<V>(s: seq<Edge<V>>) {
    forall i, j :: 0 <= i < j < |s| ==> s[i].weight <= s[j].weight
  }

  /** What `topKSort(n, xs)` with `n == |xs|` returns. */
  ghost predicate IsSortedPermutation<V>(s: seq<Edge<V>>, xs: seq<Edge<V>>) {
    multiset(s) == multiset(xs) && SortedByWeight(s)
  }

  /** Inserts `x` into an ascending sequence. */
  function Insert<V>(x: Edge<V>, s: seq<Edge<V>>): (r: seq<Edge<V>>)
    requires SortedByWeight(s)
    ensures SortedByWeight(r)
    ensures multiset(r) == multiset(s) + multiset{x}
    ensures |r| == |s| + 1
  {
    if s == [] then [x]
    else if x.weight <= s[0].weight then [x] + s
    else
      var rest := Insert(x, s[1..]);
      assert s == [s[0]] + s[1..];
      assert forall k :: 0 <= k < |rest| ==> s[0].weight <= rest[k].weight by {
        forall k | 0 <= k < |rest|
          ensures s[0].weight <= rest[k].weight
        {
          assert rest[k] in multiset(rest);
          assert rest[k] in multiset(s[1..]) + multiset{x};
          if rest[k] in multiset(s[1..]) {
            var m :| 0 <= m < |s[1..]| && s[1..][m] == rest[k];
            assert s[m + 1] == rest[k];
          }
        }
      }
      [s[0]] + rest
  }

  /** Insertion sort: an ascending permutation of its input. */
  function SortByWeight<V>(xs: seq<Edge<V>>): (r: seq<Edge<V>>)
    ensures IsSortedPermutation(r, xs)
  {
    if xs == [] then []
    else
      assert xs == [xs[0]] + xs[1..];
      Insert(xs[0], SortByWeight(xs[1..]))
  }
}
