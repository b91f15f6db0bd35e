/** include/double_sort.hpp: sort the index by the values it points at,
    then sort the values themselves with a second, independent `std::sort`.
    The two sorts agree on the order of inequivalent values, but nothing ties
    how each orders equivalent ones, so slot k of the values is only known to
    be equivalent to the value that sat at index[k]. */
module DoubleSort {
  import opened Sequences
  import opened Permutations
  import opened Ordering
  import opened StdSort
  import opened IndexSort

  /** What `double_sort` promises: a permutation index ordered by the
      original values, sorted values that rearrange the originals, and each
      value equivalent to the one its index label names. */
  ghost predicate DoubleSortSpec<T>(original: seq<T>, values': seq<T>, index': seq<nat>, key: T -> int)
  {
    && |values'| == |original|
    && |index'| == |original|
    && IsPermutation(index')
    && SortedIndirectly(index', original, key)
    && SortedBy(values', key)
    && multiset(values') == multiset(original)
    && forall k :: 0 <= k < |index'| ==> Equivalent(key, values'[k], original[index'[k]])
  }

  /** `double_sort(values, index, cmp)`. */
  method Sort<T>(values: seq<T>, index: seq<nat>, key: T -> int)
    returns (status: Status, values': seq<T>, index': seq<nat>)
    requires |values| == |index| ==> IsPermutation(index)
    ensures LengthChecked(status, values, index, values', index')
    ensures status.Ok? ==> index' == IndirectSort(index, values, key)
    ensures status.Ok? ==> DoubleSortSpec(values, values', index', key)
  {
    if |values| != |index| {
      return LengthMismatch(LengthMismatchMessage), values, index;
    }
    index' := IndirectSort(index, values, key);
    values' := SortBy(values, key);
    var gathered := Apply(index', values);
    ApplyPreservesMultiset(index', values, gathered);
    SortedRearrangementsHaveSameKeys(values', gathered, key);
    status := Ok;
  }

  /** When equivalence pins values down, double_sort meets the full
      contract: with pairwise-inequivalent values, or with a comparator under
      which equivalent values are equal (ints under `<`). */
  lemma ExactWhenEquivalenceDecides<T(!new)>(original: seq<T>, values': seq<T>, index': seq<nat>, key: T -> int)
    requires DoubleSortSpec(original, values', index', key)
    requires DistinctKeys(original, key) || EquivalenceIsEquality(key)
    ensures IndexSortSpec(original, values', index', key)
  {
    PermutationInRangeDistinct(index');
    forall k | 0 <= k < |index'|
      ensures values'[k] == original[index'[k]]
    {
      if !EquivalenceIsEquality(key) {
        assert values'[k] in multiset(original) by { assert values'[k] in multiset(values'); }
        var m :| 0 <= m < |original| && original[m] == values'[k];
        assert Equivalent(key, original[m], original[index'[k]]);
        assert m == index'[k];
      }
    }
  }

  /** Under equivalent values the promise is really weaker: the outcome below
      is one the two sorts may produce (each orders the pair of equivalent
      values its own way), yet slot 0 does not hold the value index[0] names. */
  lemma PairingMayDifferUnderEquivalentValues()
    ensures var key := (x: int) => x / 2;
            DoubleSortSpec([2, 3], [2, 3], [1, 0], key) && !IndexSortSpec([2, 3], [2, 3], [1, 0], key)
  {
    var key := (x: int) => x / 2;
    assert Iota(2) == [0, 1];
    assert multiset([1, 0]) == multiset([0, 1]);
    assert Apply([1, 0], [2, 3]) == [3, 2];
  }
}
