/** include/boost_index_apply_sort.hpp: sort the caller's index by the
    values it points at, then hand a copy of it to
    `boost::algorithm::apply_permutation`, which consumes the copy while
    rearranging the values. The caller's index keeps the sorted order. */
module BoostIndexApplySort {
  import opened Sequences
  import opened Permutations
  import opened Ordering
  import opened IndexSort
  import ApplyPermutation

  /** `boost_index_apply_sort(values, index, cmp)`. The index must hold a
      permutation of 0..n-1 whenever the lengths agree. */
  method Sort<T>(values: seq<T>, index: seq<nat>, key: T -> int)
    returns (status: Status, values': seq<T>, index': seq<nat>)
    requires |values| == |index| ==> IsPermutation(index)
    ensures LengthChecked(status, values, index, values', index')
    ensures status.Ok? ==> index' == IndirectSort(index, values, key)
    ensures status.Ok? ==> IndexSortSpec(values, values', index', key)
    ensures status.Ok? ==> multiset(values') == multiset(values)
  {
    if |values| != |index| {
      return LengthMismatch(LengthMismatchMessage), values, index;
    }
    index' := IndirectSort(index, values, key);
    var temp := index';
    var consumed;
    values', consumed := ApplyPermutation.Apply(values, temp);
    assert values' == Apply(index', values);
    status := Ok;
  }
}
