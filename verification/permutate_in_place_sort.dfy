/** include/permutate_in_place_sort.hpp: sort the index by the values it
    points at, then rearrange the values in place with no extra storage. For
    each slot i, the chain index[i], index[index[i]], ... is followed while
    it stays below i (those slots are already final, and the item that once
    sat there has been moved on); where it first reaches i or beyond is the
    item that belongs at i, and one swap puts it there. */
module PermutateInPlaceSort {
  import opened Sequences
  import opened Permutations
  import opened Ordering
  import opened IndexSort

  /** `path` is the chain `index_to_swap` runs through for slot i: it starts
      at idx[i], steps from each entry below i to the entry that entry
      labels, and never repeats a position. */
  ghost predicate Chain(idx: seq<nat>, i: nat, path: seq<nat>)
  {
    && i < |idx|
    && |path| > 0
    && path[0] == idx[i]
    && InRange(path, |idx|)
    && Distinct(path)
    && forall t :: 0 <= t < |path| - 1 ==> path[t] < i && path[t + 1] == idx[path[t]]
  }

  /** Stepping on from a chain entry below i never revisits the chain: the
      step into idx[i] came from i itself, and every other entry has its
      unique predecessor on the chain already. */
  lemma ChainStep(idx: seq<nat>, i: nat, path: seq<nat>)
    requires Chain(idx, i, path) && Distinct(idx) && InRange(idx, |idx|)
    requires path[|path| - 1] < i
    ensures idx[path[|path| - 1]] !in path
    ensures Chain(idx, i, path + [idx[path[|path| - 1]]])
  {
    var last := path[|path| - 1];
    var next := idx[last];
    forall a | 0 <= a < |path|
      ensures path[a] != next
    {
      if a == 0 {
        assert last != i;
      } else {
        assert path[a] == idx[path[a - 1]];
        assert path[a - 1] != last;
      }
    }
    var path' := path + [next];
    forall t, u | 0 <= t < u < |path'|
      ensures path'[t] != path'[u]
    {
      if u < |path| {
        assert path'[t] == path[t] && path'[u] == path[u];
      }
    }
  }

  /** The inner `while (index_to_swap < i) index_to_swap = index[index_to_swap]`.
      With a permutation it stops after visiting distinct positions below i,
      and the position it stops at lies in [i, n). */
  method Chase(idx: seq<nat>, i: nat) returns (j: nat, ghost path: seq<nat>)
    requires IsPermutation(idx) && i < |idx|
    ensures i <= j < |idx|
    ensures Chain(idx, i, path) && path[|path| - 1] == j
  {
    PermutationInRangeDistinct(idx);
    j := idx[i];
    path := [j];
    ghost var unvisited := Elements(Iota(i));
    forall y | 0 <= y < i
      ensures y in unvisited
    {
      assert Iota(i)[y] == y && Iota(i)[y] in Iota(i);
    }
    while j < i
      invariant Chain(idx, i, path) && path[|path| - 1] == j
      invariant forall y :: 0 <= y < i && y !in path[..|path| - 1] ==> y in unvisited
      decreases unvisited
    {
      assert j !in path[..|path| - 1];
      ChainStep(idx, i, path);
      unvisited := unvisited - {j};
      path := path + [idx[j]];
      j := idx[j];
    }
  }

  /** `G[y]` is the slot the chase lands on when started from y. Following
      a chain never changes it. */
  lemma {:induction false} ChainKeepsTarget(idx: seq<nat>, i: nat, path: seq<nat>, g: seq<nat>)
    requires Chain(idx, i, path) && |g| == |idx| && InRange(idx, |idx|)
    requires forall y :: 0 <= y < i ==> g[y] == g[idx[y]]
    ensures g[path[|path| - 1]] == g[idx[i]]
    decreases |path|
  {
    if |path| > 1 {
      var prefix := path[..|path| - 1];
      assert Chain(idx, i, prefix);
      ChainKeepsTarget(idx, i, prefix, g);
      assert path[|path| - 1] == idx[path[|path| - 2]];
    }
  }

  /** The working state after slots 0..i-1 are final. `src[m]` is the
      position in `values` of the item now at slot m; `g` is where the chase
      from each position would land. Every item not yet placed, idx[k] for
      k >= i, sits where the chase from its original position lands. */
  ghost predicate Placed<T>(values: seq<T>, idx: seq<nat>, i: nat, cur: seq<T>, src: seq<nat>, g: seq<nat>)
  {
    var n := |values|;
    && |idx| == n && InRange(idx, n) && Distinct(idx) && i <= n
    && |cur| == n && |src| == n && |g| == n
    && multiset(cur) == multiset(values) && Gathers(cur, values, src)
    && (forall k :: 0 <= k < i ==> src[k] == idx[k])
    && InRange(g, n)
    && (forall y :: i <= y < n ==> g[y] == y)
    && (forall y :: 0 <= y < i ==> g[y] == g[idx[y]])
    && (forall k :: i <= k < n ==> src[g[idx[k]]] == idx[k])
  }

  /** After the swap at slot i the chase targets that pointed at i point at
      j, where the displaced item went. */
  function Retarget(g: seq<nat>, i: nat, j: nat): (g': seq<nat>)
    ensures |g'| == |g|
  {
    seq(|g|, y requires 0 <= y < |g| => if g[y] == i then j else g[y])
  }

  /** `swap(values[i], values[index_to_swap])` places slot i for good. */
  lemma PlaceStep<T>(values: seq<T>, idx: seq<nat>, i: nat, cur: seq<T>, src: seq<nat>, g: seq<nat>, j: nat)
    requires Placed(values, idx, i, cur, src, g) && i <= j < |values|
    requires g[j] == g[idx[i]]
    ensures Placed(values, idx, i + 1, Swap(cur, i, j), Swap(src, i, j), Retarget(g, i, j))
  {
  }

  /** The apply loop of permutate_in_place_sort: afterwards slot k holds the
      value that sat at idx[k]. The index is only read. */
  method ApplyInPlace<T>(values: seq<T>, idx: seq<nat>) returns (values': seq<T>)
    requires |values| == |idx| && IsPermutation(idx)
    ensures Gathers(values', values, idx)
    ensures multiset(values') == multiset(values)
  {
    PermutationInRangeDistinct(idx);
    var length := |values|;
    values' := values;
    ghost var src := Iota(length);
    ghost var g := Iota(length);
    for i := 0 to length
      invariant Placed(values, idx, i, values', src, g)
    {
      var indexToSwap, path := Chase(idx, i);
      ChainKeepsTarget(idx, i, path, g);
      PlaceStep(values, idx, i, values', src, g, indexToSwap);
      values' := Swap(values', i, indexToSwap);
      src := Swap(src, i, indexToSwap);
      g := Retarget(g, i, indexToSwap);
    }
  }

  /** `permutate_in_place_sort(values, index, cmp)`. */
  method Sort<T>(values: seq<T>, index: seq<nat>, key: T -> int)
    returns (status: Status, values': seq<T>, index': seq<nat>)
    requires |values| == |index| ==> IsPermutation(index)
    ensures LengthChecked(status, values, index, values', index')
    ensures status.Ok? ==> index' == IndirectSort(index, values, key)
    ensures status.Ok? ==> IndexSortSpec(values, values', index', key)
    ensures status.Ok? ==> multiset(values') == multiset(values)
  {
    if |values| != |index| {
      return LengthMismatch(LengthMismatchMessage), values, index;
    }
    index' := IndirectSort(index, values, key);
    values' := ApplyInPlace(values, index');
    assert values' == Apply(index', values);
    status := Ok;
  }
}
