/** include/vector_pair_sort2.hpp: the variation of `vector_pair_sort` that
    copies the sorted pairs back by walking three iterators in step instead
    of indexing. */
module VectorPairSort2 {
  import opened Sequences
  import opened Permutations
  import opened Ordering
  import opened StdSort
  import opened IndexSort
  import opened VectorPairSort

  /** The iterator write-back: `vector_iter` walks the sorted pairs while
      `value_begin` and `index_begin` walk the destinations, one step each
      per iteration, until the pairs run out. Its outcome is the same as the
      indexed write-back's: slot k of each destination gets half of pair k. */
  method WriteBackSequential<T>(ps: seq<(T, nat)>, values: seq<T>, index: seq<nat>)
    returns (values': seq<T>, index': seq<nat>)
    requires |ps| == |values| == |index|
    ensures values' == Firsts(ps)
    ensures index' == Seconds(ps)
  {
    values', index' := values, index;
    var vectorIter, valueIter, indexIter := 0, 0, 0;
    while vectorIter != |ps|
      invariant vectorIter <= |ps|
      invariant valueIter == vectorIter && indexIter == vectorIter
      invariant |values'| == |ps| && |index'| == |ps|
      invariant forall k :: 0 <= k < vectorIter ==> values'[k] == ps[k].0 && index'[k] == ps[k].1
      decreases |ps| - vectorIter
    {
      values' := values'[valueIter := ps[vectorIter].0];
      index' := index'[indexIter := ps[vectorIter].1];
      vectorIter, valueIter, indexIter := vectorIter + 1, valueIter + 1, indexIter + 1;
    }
  }

  /** `vector_pair_sort2(values, index, cmp)`. */
  method Sort<T>(values: seq<T>, index: seq<nat>, key: T -> int)
    returns (status: Status, values': seq<T>, index': seq<nat>)
    ensures LengthChecked(status, values, index, values', index')
    ensures status.Ok? ==> IndexSortSpec(values, values', index', key)
    ensures status.Ok? ==> multiset(values') == multiset(values)
    ensures status.Ok? ==> values' == Firsts(SortedPairs(values, key))
    ensures status.Ok? ==> index' == Seconds(SortedPairs(values, key))
  {
    if |values| != |index| {
      return LengthMismatch(LengthMismatchMessage), values, index;
    }
    var conversion := Enumerate(values);
    conversion := SortBy(conversion, PairKey(key));
    SortedPairsSplit(values, conversion, key);
    values', index' := WriteBackSequential(conversion, values, index);
    SpecPreservesMultiset(values, values', index', key);
    status := Ok;
  }
}
