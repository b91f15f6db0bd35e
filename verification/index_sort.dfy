/** The contract shared by all six index-sort variants, the length-mismatch
    error of include/base.hpp, and the indirect sort of the index that four
    of the variants start with. */
module IndexSort {
  import opened Sequences
  import opened Permutations
  import opened Ordering
  import opened StdSort

  /** The outcome of a call: success, or `length_mismatch_error` with its
      message. */
  datatype Status = Ok | LengthMismatch(message: string)

  const LengthMismatchMessage: string := "Length of both iterables must match!"

  /** The only validated precondition: the call fails exactly when the two
      lengths differ, and then neither range has been touched. */
  ghost predicate LengthChecked<T>(status: Status, values: seq<T>, index: seq<nat>,
                                   values': seq<T>, index': seq<nat>)
  {
    && (status.LengthMismatch? <==> |values| != |index|)
    && (status.LengthMismatch? ==>
          status.message == LengthMismatchMessage && values' == values && index' == index)
  }

  /** The promise of a successful call: `index'` is a permutation of
      0..n-1, `values'[k]` is the value that sat at position `index'[k]`,
      and `values'` is sorted under the comparator. */
  ghost predicate IndexSortSpec<T>(original: seq<T>, values': seq<T>, index': seq<nat>, key: T -> int)
  {
    && |values'| == |original|
    && |index'| == |original|
    && IsPermutation(index')
    && Gathers(values', original, index')
    && SortedBy(values', key)
  }

  /** The index is ordered by the values it points at: reading `values`
      through `index` gives a sorted sequence. */
  ghost predicate SortedIndirectly<T>(index: seq<nat>, values: seq<T>, key: T -> int)
  {
    InRange(index, |values|) && SortedBy(Apply(index, values), key)
  }

  /** The comparator on index labels, `cmp(values[a], values[b])`, as a key
      on labels. Labels outside the values never occur (the index is a
      permutation); they get an arbitrary key. */
  function IndirectKey<T>(values: seq<T>, key: T -> int): nat -> int
  {
    (p: nat) => if p < |values| then key(values[p]) else 0
  }

  /** `std::sort(index_begin, index_end, [&](a, b) { return cmp(value_begin[a],
      value_begin[b]); })`: sorts the index labels by the values they point
      at, leaving the values untouched. */
  function IndirectSort<T>(index: seq<nat>, values: seq<T>, key: T -> int): (r: seq<nat>)
    requires |index| == |values| && IsPermutation(index)
    ensures |r| == |index|
    ensures multiset(r) == multiset(index)
    ensures IsPermutation(r)
    ensures SortedIndirectly(r, values, key)
  {
    var r := SortBy(index, IndirectKey(values, key));
    PermutationOfPermutation(index, r);
    PermutationInRangeDistinct(r);
    IndirectlySortedLabels(r, values, key);
    r
  }

  lemma IndirectlySortedLabels<T>(r: seq<nat>, values: seq<T>, key: T -> int)
    requires InRange(r, |values|) && SortedBy(r, IndirectKey(values, key))
    ensures SortedIndirectly(r, values, key)
  {
  }

  /** A successful outcome only rearranges the values. */
  lemma SpecPreservesMultiset<T>(original: seq<T>, values': seq<T>, index': seq<nat>, key: T -> int)
    requires IndexSortSpec(original, values', index', key)
    ensures multiset(values') == multiset(original)
  {
    ApplyPreservesMultiset(index', original, values');
  }

  /** When no two values are equivalent, the contract leaves no freedom:
      every variant that meets it returns the same two sequences. */
  lemma UniqueOutcome<T>(original: seq<T>, v1: seq<T>, i1: seq<nat>, v2: seq<T>, i2: seq<nat>,
                         key: T -> int)
    requires DistinctKeys(original, key)
    requires IndexSortSpec(original, v1, i1, key)
    requires IndexSortSpec(original, v2, i2, key)
    ensures v1 == v2 && i1 == i2
  {
    SpecPreservesMultiset(original, v1, i1, key);
    SpecPreservesMultiset(original, v2, i2, key);
    SortedRearrangementsHaveSameKeys(v1, v2, key);
    forall k | 0 <= k < |i1|
      ensures i1[k] == i2[k]
    {
      assert Equivalent(key, original[i1[k]], original[i2[k]]);
    }
  }

  /** Re-sorting values that are already sorted, starting from the identity
      index, leaves both sequences as they were. With equivalent values the
      identity is one admissible outcome; with none it is the only one. */
  lemma ResortIsIdentity<T>(values: seq<T>, values': seq<T>, index': seq<nat>, key: T -> int)
    requires SortedBy(values, key)
    ensures IndexSortSpec(values, values, Iota(|values|), key)
    ensures DistinctKeys(values, key) && IndexSortSpec(values, values', index', key) ==>
              values' == values && index' == Iota(|values|)
  {
    IdentityGathers(values);
    if DistinctKeys(values, key) && IndexSortSpec(values, values', index', key) {
      UniqueOutcome(values, values', index', values, Iota(|values|), key);
    }
  }
}
