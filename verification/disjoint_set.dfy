/** The array-backed union-find `ArrayDisjointSet<T>`.

    One integer sequence (`pointers`, the Java `int[]`) holds both parent
    pointers and ranks: a non-negative entry is the index of the parent, a
    negative entry marks a root and encodes its rank as `-(rank + 1)`. A map
    (`indices`) gives each registered item its dense index.

    The Java object mutates its fields; here every operation takes the old
    state and returns the new one. The ranks of non-root entries are not
    stored by the Java code, so they are a ghost parameter `rank` of the
    operations: the invariant "a parent's rank is strictly greater than its
    child's" is what makes the walk to the root terminate.
 */
module ArrayDisjointSet {
  import opened Wrappers

  /** Length of the backing array of a freshly constructed structure. */
  const InitialCapacity: nat := 10

  /** `|pointers|` is the length of the backing array; only the first `size`
      entries are in use. */
  datatype DisjointSet<T> = DisjointSet(pointers: seq<int>, size: nat, indices: map<T, nat>)

  /** The result of `findSet`: the representative index and the state after
      the call (which may have re-pointed one entry). */
  datatype Found<T> = Found(root: nat, ds: DisjointSet<T>)

  /** An upper bound of all ranks; used as the termination measure. */
  function MaxRank(rank: seq<nat>): (m: nat)
    ensures forall i :: 0 <= i < |rank| ==> rank[i] <= m
  {
    if rank == [] then 0
    else
      var m := MaxRank(rank[1..]);
      assert forall i :: 1 <= i < |rank| ==> rank[i] == rank[1..][i - 1];
      if rank[0] > m then rank[0] else m
  }

  /** Entry `i` is either a parent pointer to a slot of higher rank, or a
      root whose entry encodes its rank. */
  ghost predicate EntryOk(p: seq<int>, rank: seq<nat>, i: nat)
    requires i < |rank| <= |p|
  {
    if p[i] >= 0 then p[i] < |rank| && rank[i] < rank[p[i]]
    else p[i] == -(rank[i] as int + 1)
  }

  /** The first `|rank|` entries of `p` form a forest ranked by `rank`. */
  ghost predicate Ranked(p: seq<int>, rank: seq<nat>) {
    |rank| <= |p| && forall i :: 0 <= i < |rank| ==> EntryOk(p, rank, i)
  }

  /** The representation invariant of the Java object. */
  ghost predicate Valid<T>(ds: DisjointSet<T>, rank: seq<nat>) {
    && 0 < |ds.pointers|
    && |rank| == ds.size
    && Ranked(ds.pointers, rank)
    && (forall x :: x in ds.indices ==> ds.indices[x] < ds.size)
    && (forall x, y :: x in ds.indices && y in ds.indices && ds.indices[x] == ds.indices[y] ==> x == y)
  }

  /** The root reached from slot `i` by following parent pointers. */
  ghost function Root(p: seq<int>, rank: seq<nat>, i: nat): (r: nat)
    requires Ranked(p, rank) && i < |rank|
    ensures r < |rank| && p[r] < 0
    ensures rank[i] <= rank[r]
    ensures p[i] >= 0 ==> rank[i] < rank[r]
    decreases MaxRank(rank) - rank[i]
  {
    if p[i] < 0 then i
    else
      assert EntryOk(p, rank, i);
      Root(p, rank, p[i])
  }

  /** The representative of a registered item. */
  ghost function Find<T>(ds: DisjointSet<T>, rank: seq<nat>, x: T): nat
    requires Valid(ds, rank) && x in ds.indices
  {
    Root(ds.pointers, rank, ds.indices[x])
  }

  /** Two registered items are in the same set. */
  ghost predicate SameSet<T>(ds: DisjointSet<T>, rank: seq<nat>, x: T, y: T)
    requires Valid(ds, rank) && x in ds.indices && y in ds.indices
  {
    Find(ds, rank, x) == Find(ds, rank, y)
  }

  /** The state built by the constructor: ten unused slots, no items. */
  function Empty<T>(): (ds: DisjointSet<T>)
    ensures Valid(ds, [])
    ensures ds.size == 0 && ds.indices == map[] && |ds.pointers| == InitialCapacity
  {
    DisjointSet(seq(InitialCapacity, _ => 0), 0, map[])
  }

  /** The array doubling of `makeSet`: a new array of twice the length, the
      first `size` entries copied, the rest zero as Java initialises them. */
  method Grow(pointers: seq<int>, size: nat) returns (temp: seq<int>)
    requires size <= |pointers|
    ensures |temp| == 2 * size
    ensures temp[..size] == pointers[..size]
    ensures forall i :: size <= i < |temp| ==> temp[i] == 0
  {
    var a := new int[size * 2](_ => 0);
    var i := 0;
    while i < size
      invariant 0 <= i <= size
      invariant forall j :: 0 <= j < i ==> a[j] == pointers[j]
      invariant forall j :: size <= j < a.Length ==> a[j] == 0
    {
      a[i] := pointers[i];
      i := i + 1;
    }
    temp := a[..];
  }

  /** Appending a rank-0 root keeps every old slot's root. */
  lemma {:induction false} ExtendPreservesRoots(p: seq<int>, p': seq<int>, rank: seq<nat>, j: nat)
    requires Ranked(p, rank) && Ranked(p', rank + [0])
    requires forall i :: 0 <= i < |rank| ==> p'[i] == p[i]
    requires j < |rank|
    ensures Root(p', rank + [0], j) == Root(p, rank, j)
    decreases MaxRank(rank) - rank[j]
  {
    assert (rank + [0])[j] == rank[j];
    if p[j] >= 0 {
      assert EntryOk(p, rank, j);
      assert (rank + [0])[p[j]] == rank[p[j]];
      ExtendPreservesRoots(p, p', rank, p[j]);
    }
  }

  /** `makeSet`: registers a new item as a rank-0 root at index `size`,
      doubling the array first when it is full. */
  method MakeSet<T>(ds: DisjointSet<T>, ghost rank: seq<nat>, item: T) returns (r: Result<DisjointSet<T>>)
    requires Valid(ds, rank)
    ensures r.Failure? <==> item in ds.indices
    ensures r.Failure? ==> r.error == InvalidArgument
    ensures r.Success? ==>
      && r.value.size == ds.size + 1
      && r.value.indices == ds.indices[item := ds.size]
      && |r.value.pointers| == (if ds.size == |ds.pointers| then 2 * |ds.pointers| else |ds.pointers|)
      && r.value.pointers[ds.size] == -1
      && r.value.pointers[..ds.size] == ds.pointers[..ds.size]
      && Valid(r.value, rank + [0])
      && forall j :: 0 <= j < ds.size ==> Root(r.value.pointers, rank + [0], j) == Root(ds.pointers, rank, j)
  {
    if item in ds.indices {
      return Failure(InvalidArgument);
    }
    var pointers := ds.pointers;
    if ds.size == |pointers| {
      pointers := Grow(pointers, ds.size);
    }
    assert forall i :: 0 <= i < ds.size ==> pointers[i] == pointers[..ds.size][i];
    pointers := pointers[ds.size := -1];
    var rank' := rank + [0];
    assert forall i :: 0 <= i < ds.size ==> pointers[i] == ds.pointers[i];
    assert forall i :: 0 <= i < |rank'| ==> EntryOk(pointers, rank', i) by {
      forall i | 0 <= i < |rank'|
        ensures EntryOk(pointers, rank', i)
      {
        if i < ds.size {
          assert EntryOk(ds.pointers, rank, i);
          assert rank'[i] == rank[i];
          if ds.pointers[i] >= 0 {
            assert rank'[ds.pointers[i]] == rank[ds.pointers[i]];
          }
        }
      }
    }
    var ds' := DisjointSet(pointers, ds.size + 1, ds.indices[item := ds.size]);
    forall j | 0 <= j < ds.size
      ensures Root(pointers, rank', j) == Root(ds.pointers, rank, j)
    {
      ExtendPreservesRoots(ds.pointers, pointers, rank, j);
    }
    r := Success(ds');
  }

  /** Re-pointing a non-root slot directly at its root keeps the forest
      ranked. */
  lemma RepointRanked(p: seq<int>, rank: seq<nat>, i: nat)
    requires Ranked(p, rank) && i < |rank| && p[i] >= 0
    ensures Ranked(p[i := Root(p, rank, i)], rank)
  {
    var p' := p[i := Root(p, rank, i)];
    forall j | 0 <= j < |rank|
      ensures EntryOk(p', rank, j)
    {
      assert EntryOk(p, rank, j);
    }
  }

  /** Re-pointing a non-root slot directly at its root changes no slot's
      root. */
  lemma {:induction false} RepointPreservesRoots(p: seq<int>, rank: seq<nat>, i: nat, j: nat)
    requires Ranked(p, rank) && i < |rank| && p[i] >= 0 && j < |rank|
    requires Ranked(p[i := Root(p, rank, i)], rank)
    ensures Root(p[i := Root(p, rank, i)], rank, j) == Root(p, rank, j)
    decreases MaxRank(rank) - rank[j]
  {
    var root := Root(p, rank, i);
    var p' := p[i := root];
    if j == i {
      assert EntryOk(p, rank, i);
      assert p'[root] == p[root];
      assert Root(p', rank, root) == root;
    } else if p[j] >= 0 {
      assert EntryOk(p, rank, j);
      RepointPreservesRoots(p, rank, i, p[j]);
    }
  }

  /** `findSet`: walks to the root, then re-points only the queried entry at
      the root; the second loop's next index is then the root, so it stops. */
  method FindSet<T>(ds: DisjointSet<T>, ghost rank: seq<nat>, item: T) returns (r: Result<Found<T>>)
    requires Valid(ds, rank)
    ensures r.Failure? <==> item !in ds.indices
    ensures r.Failure? ==> r.error == InvalidArgument
    ensures r.Success? ==> item in ds.indices
    ensures r.Success? ==> r.value.root == Root(ds.pointers, rank, ds.indices[item])
    ensures r.Success? ==>
      var ds' := r.value.ds;
      && ds'.size == ds.size && ds'.indices == ds.indices
      && |ds'.pointers| == |ds.pointers|
      && Valid(ds', rank)
    ensures r.Success? ==>
      var i := ds.indices[item];
      && r.value.ds.pointers[i] == (if ds.pointers[i] >= 0 then r.value.root else ds.pointers[i])
      && (forall j :: 0 <= j < |ds.pointers| && j != i ==> r.value.ds.pointers[j] == ds.pointers[j])
    ensures r.Success? ==>
      forall j :: 0 <= j < ds.size ==> Root(r.value.ds.pointers, rank, j) == Root(ds.pointers, rank, j)
  {
    if item !in ds.indices {
      return Failure(InvalidArgument);
    }
    ghost var i0 := ds.indices[item];
    ghost var root := Root(ds.pointers, rank, i0);
    var index: int := ds.indices[item];
    var result := 0;
    while index >= 0
      invariant index >= 0 ==> index < ds.size && Root(ds.pointers, rank, index) == root
      invariant index < 0 ==> result < ds.size && ds.pointers[result] == index && result == root
      decreases if index >= 0 then MaxRank(rank) - rank[index] + 1 else 0
    {
      assert EntryOk(ds.pointers, rank, index);
      result := index;
      index := ds.pointers[index];
    }
    // The re-pointed sequence the second loop produces.
    ghost var target := if ds.pointers[i0] >= 0 then ds.pointers[i0 := result] else ds.pointers;
    index := ds.indices[item];
    var pointers := ds.pointers;
    while index >= 0
      invariant index >= 0 ==> (index == i0 && pointers == ds.pointers) || (index == result && pointers == target)
      invariant index < 0 ==> pointers == target
      decreases if index < 0 then 0 else if index == result then 1 else 2
    {
      if pointers[index] >= 0 {
        pointers := pointers[index := result];
      }
      index := pointers[index];
    }
    if ds.pointers[i0] >= 0 {
      RepointRanked(ds.pointers, rank, i0);
      forall j | 0 <= j < ds.size
        ensures Root(pointers, rank, j) == Root(ds.pointers, rank, j)
      {
        RepointPreservesRoots(ds.pointers, rank, i0, j);
      }
    }
    r := Success(Found(result, ds.(pointers := pointers)));
  }

  /** Linking root `c` under root `q` (with `q`'s rank possibly bumped) keeps
      the forest ranked. */
  lemma LinkRanked(p: seq<int>, rank: seq<nat>, c: nat, q: nat, p': seq<int>, rank': seq<nat>)
    requires Ranked(p, rank)
    requires c < |rank| && q < |rank| && c != q && p[c] < 0 && p[q] < 0
    requires |p'| == |p| && |rank'| == |rank|
    requires p'[c] == q && p'[q] == -(rank'[q] as int + 1)
    requires forall j :: 0 <= j < |p| && j != c && j != q ==> p'[j] == p[j]
    requires forall j :: 0 <= j < |rank| && j != q ==> rank'[j] == rank[j]
    requires rank[q] <= rank'[q] && rank[c] < rank'[q]
    ensures Ranked(p', rank')
  {
    forall j | 0 <= j < |rank'|
      ensures EntryOk(p', rank', j)
    {
      assert EntryOk(p, rank, j);
    }
  }

  /** After linking root `c` under root `q`, the slots that reached `c` reach
      `q` and every other slot keeps its root. */
  lemma {:induction false} LinkRoots(p: seq<int>, rank: seq<nat>, c: nat, q: nat, p': seq<int>, rank': seq<nat>, j: nat)
    requires Ranked(p, rank) && Ranked(p', rank')
    requires c < |rank| && q < |rank| && c != q && p[c] < 0 && p[q] < 0
    requires |p'| == |p| && |rank'| == |rank|
    requires p'[c] == q && p'[q] < 0
    requires forall j :: 0 <= j < |p| && j != c && j != q ==> p'[j] == p[j]
    requires j < |rank|
    ensures Root(p', rank', j) == (if Root(p, rank, j) == c then q else Root(p, rank, j))
    decreases MaxRank(rank) - rank[j]
  {
    if j == c {
      assert Root(p', rank', q) == q;
    } else if j != q && p[j] >= 0 {
      assert EntryOk(p, rank, j);
      LinkRoots(p, rank, c, q, p', rank', p[j]);
    }
  }

  /** If every slot's root is mapped through "`c` becomes `q`", two items
      end up together exactly when they were together or one sat under `c`
      and the other under `q`. */
  lemma MergedPartition<T>(ds: DisjointSet<T>, rank: seq<nat>, ds': DisjointSet<T>, rank': seq<nat>, c: nat, q: nat)
    requires Valid(ds, rank) && Valid(ds', rank') && ds'.indices == ds.indices && ds'.size == ds.size
    requires forall j :: 0 <= j < ds.size ==>
      Root(ds'.pointers, rank', j) == (if Root(ds.pointers, rank, j) == c then q else Root(ds.pointers, rank, j))
    ensures forall x, y :: x in ds.indices && y in ds.indices ==>
      (SameSet(ds', rank', x, y) <==>
        || SameSet(ds, rank, x, y)
        || (Find(ds, rank, x) == c && Find(ds, rank, y) == q)
        || (Find(ds, rank, x) == q && Find(ds, rank, y) == c))
  {
    forall x, y | x in ds.indices && y in ds.indices
      ensures SameSet(ds', rank', x, y) <==>
        || SameSet(ds, rank, x, y)
        || (Find(ds, rank, x) == c && Find(ds, rank, y) == q)
        || (Find(ds, rank, x) == q && Find(ds, rank, y) == c)
    {
      assert Find(ds', rank', x) == (if Find(ds, rank, x) == c then q else Find(ds, rank, x));
      assert Find(ds', rank', y) == (if Find(ds, rank, y) == c then q else Find(ds, rank, y));
    }
  }

  /** The linking step of `union` on two roots read from the array: the root
      with the larger-or-equal encoded value (smaller-or-equal rank) goes
      under the other, and on equal ranks the survivor's entry is decremented. */
  method Link<T>(ds: DisjointSet<T>, ghost rank: seq<nat>, parent1: nat, parent2: nat)
    returns (ds': DisjointSet<T>, ghost rank': seq<nat>)
    requires Valid(ds, rank)
    requires parent1 < ds.size && parent2 < ds.size
    requires ds.pointers[parent1] < 0 && ds.pointers[parent2] < 0
    ensures ds'.size == ds.size && ds'.indices == ds.indices && |ds'.pointers| == |ds.pointers|
    ensures Valid(ds', rank')
    ensures parent1 == parent2 ==> ds' == ds
    ensures parent1 != parent2 && ds.pointers[parent1] >= ds.pointers[parent2] ==>
      && ds'.pointers[parent1] == parent2
      && ds'.pointers[parent2] == (if ds.pointers[parent1] == ds.pointers[parent2] then ds.pointers[parent2] - 1 else ds.pointers[parent2])
      && ds'.pointers[parent2] < 0
    ensures parent1 != parent2 && ds.pointers[parent1] < ds.pointers[parent2] ==>
      ds'.pointers[parent2] == parent1 && ds'.pointers[parent1] == ds.pointers[parent1]
    ensures forall j :: 0 <= j < |ds.pointers| && j != parent1 && j != parent2 ==> ds'.pointers[j] == ds.pointers[j]
    ensures forall j :: 0 <= j < ds.size ==>
      Root(ds'.pointers, rank', j) ==
        if parent1 != parent2 && Root(ds.pointers, rank, j) == (if ds.pointers[parent1] >= ds.pointers[parent2] then parent1 else parent2)
        then (if ds.pointers[parent1] >= ds.pointers[parent2] then parent2 else parent1)
        else Root(ds.pointers, rank, j)
  {
    var pointers := ds.pointers;
    var rank1 := pointers[parent1];
    var rank2 := pointers[parent2];
    rank' := rank;
    assert EntryOk(pointers, rank, parent1) && EntryOk(pointers, rank, parent2);
    if parent1 != parent2 {
      ghost var c, q;
      if rank1 >= rank2 {
        pointers := pointers[parent1 := parent2];
        if rank1 == rank2 {
          pointers := pointers[parent2 := pointers[parent2] - 1];
          rank' := rank[parent2 := rank[parent2] + 1];
        }
        c, q := parent1, parent2;
      } else {
        pointers := pointers[parent2 := parent1];
        c, q := parent2, parent1;
      }
      LinkRanked(ds.pointers, rank, c, q, pointers, rank');
      forall j | 0 <= j < ds.size
        ensures Root(pointers, rank', j) == (if Root(ds.pointers, rank, j) == c then q else Root(ds.pointers, rank, j))
      {
        LinkRoots(ds.pointers, rank, c, q, pointers, rank', j);
      }
    }
    ds' := ds.(pointers := pointers);
  }

  /** `union`: finds both representatives (each call re-pointing its item),
      then links them. */
  method Union<T>(ds: DisjointSet<T>, ghost rank: seq<nat>, item1: T, item2: T)
    returns (r: Result<DisjointSet<T>>, ghost rank': seq<nat>)
    requires Valid(ds, rank)
    ensures r.Failure? <==> item1 !in ds.indices || item2 !in ds.indices
    ensures r.Failure? ==> r.error == InvalidArgument
    ensures r.Success? ==>
      && r.value.size == ds.size && r.value.indices == ds.indices
      && |r.value.pointers| == |ds.pointers|
      && Valid(r.value, rank')
    ensures r.Success? ==> SameSet(r.value, rank', item1, item2)
    ensures r.Success? ==>
      forall x, y :: x in ds.indices && y in ds.indices ==>
        (SameSet(r.value, rank', x, y) <==>
          || SameSet(ds, rank, x, y)
          || (SameSet(ds, rank, x, item1) && SameSet(ds, rank, y, item2))
          || (SameSet(ds, rank, x, item2) && SameSet(ds, rank, y, item1)))
    ensures r.Success? ==>
      var p1 := Find(ds, rank, item1);
      var p2 := Find(ds, rank, item2);
      && (p1 == p2 ==> r.value.pointers[p1] == ds.pointers[p1])
      && (p1 != p2 && ds.pointers[p1] >= ds.pointers[p2] ==>
            && r.value.pointers[p1] == p2
            && r.value.pointers[p2] == (if ds.pointers[p1] == ds.pointers[p2] then ds.pointers[p2] - 1 else ds.pointers[p2])
            && r.value.pointers[p2] < 0)
      && (p1 != p2 && ds.pointers[p1] < ds.pointers[p2] ==>
            r.value.pointers[p2] == p1 && r.value.pointers[p1] == ds.pointers[p1])
    ensures r.Success? ==>
      forall j :: 0 <= j < |ds.pointers| && j != ds.indices[item1] && j != ds.indices[item2]
                  && j != Find(ds, rank, item1) && j != Find(ds, rank, item2) ==>
        r.value.pointers[j] == ds.pointers[j]
  {
    if item1 !in ds.indices || item2 !in ds.indices {
      return Failure(InvalidArgument), rank;
    }
    var f1 := FindSet(ds, rank, item1);
    var s1 := f1.value;
    var f2 := FindSet(s1.ds, rank, item2);
    var s2 := f2.value;
    var parent1 := s1.root;
    var parent2 := s2.root;
    assert forall j :: 0 <= j < ds.size ==> Root(s2.ds.pointers, rank, j) == Root(ds.pointers, rank, j);
    assert parent1 == Find(ds, rank, item1) && parent2 == Find(ds, rank, item2);
    assert s2.ds.pointers[parent1] == ds.pointers[parent1] && s2.ds.pointers[parent2] == ds.pointers[parent2];
    var ds';
    ds', rank' := Link(s2.ds, rank, parent1, parent2);
    var c := if ds.pointers[parent1] >= ds.pointers[parent2] then parent1 else parent2;
    var q := if ds.pointers[parent1] >= ds.pointers[parent2] then parent2 else parent1;
    if parent1 == parent2 {
      c, q := parent1, parent1;
    }
    MergedPartition(ds, rank, ds', rank', c, q);
    r := Success(ds');
  }
}
