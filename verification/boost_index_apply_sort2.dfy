/** include/boost_index_apply_sort2.hpp: the variation of
    `boost_index_apply_sort` that sorts a private copy of the index, copies
    the sorted copy back into the caller's index, and then lets
    `boost::algorithm::apply_permutation` consume the private copy. */
module BoostIndexApplySort2 {
  import opened Sequences
  import opened Permutations
  import opened Ordering
  import opened IndexSort
  import ApplyPermutation

  /** `boost_index_apply_sort2(values, index, cmp)`. Given the same sort
      result it returns exactly what `boost_index_apply_sort` returns. */
  method Sort<T>(values: seq<T>, index: seq<nat>, key: T -> int)
    returns (status: Status, values': seq<T>, index': seq<nat>)
    requires |values| == |index| ==> IsPermutation(index)
    ensures LengthChecked(status, values, index, values', index')
    ensures status.Ok? ==> index' == IndirectSort(index, values, key)
    ensures status.Ok? ==> IndexSortSpec(values, values', index', key)
    ensures status.Ok? ==> multiset(values') == multiset(values)
  {
    if |values| != |index| {
      return LengthMismatch(LengthMismatchMessage), values, index;
    }
    var temp := index;
    temp := IndirectSort(temp, values, key);
    index' := temp;
    var consumed;
    values', consumed := ApplyPermutation.Apply(values, temp);
    assert values' == Apply(index', values);
    status := Ok;
  }
}
