/** The behaviours the repository's test suite checks, stated for every
    input they cover rather than for the sampled ones. */
module Scenarios {
  import opened Sequences
  import opened Permutations
  import opened Ordering
  import opened IndexSort
  import VectorPairSort
  import VectorPairSort2
  import BoostIndexApplySort
  import BoostIndexApplySort2
  import PermutateInPlaceSort
  import DoubleSort

  const Sample: seq<int> := [7, 45, 18, 33, 77, 96, 83, 80, 4, 51]
  const Ascending: seq<int> := [4, 7, 18, 33, 45, 51, 77, 80, 83, 96]
  const AscendingIndex: seq<nat> := [8, 0, 2, 3, 1, 9, 4, 7, 6, 5]
  const Descending: seq<int> := [96, 83, 80, 77, 51, 45, 33, 18, 7, 4]
  const DescendingIndex: seq<nat> := [5, 6, 7, 4, 9, 1, 3, 2, 0, 8]

  /** The descending comparator `a > b`. */
  function Neg(x: int): int
  {
    -x
  }

  function Reverse<E>(s: seq<E>): (r: seq<E>)
    ensures |r| == |s|
    ensures forall k :: 0 <= k < |s| ==> r[k] == s[|s| - 1 - k]
  {
    seq(|s|, k requires 0 <= k < |s| => s[|s| - 1 - k])
  }

  lemma DescendingIsReversed()
    ensures Descending == Reverse(Ascending)
    ensures DescendingIndex == Reverse(AscendingIndex)
  {
  }

  lemma ExpectedIndicesArePermutations()
    ensures IsPermutation(AscendingIndex) && IsPermutation(DescendingIndex)
  {
    assert InRange(AscendingIndex, 10) && Distinct(AscendingIndex);
    assert InRange(DescendingIndex, 10) && Distinct(DescendingIndex);
    InRangeDistinctIsPermutation(AscendingIndex);
    InRangeDistinctIsPermutation(DescendingIndex);
  }

  lemma ExpectedGathers()
    ensures Gathers(Ascending, Sample, AscendingIndex)
    ensures Gathers(Descending, Sample, DescendingIndex)
  {
  }

  lemma ExpectedSorted()
    ensures SortedBy(Ascending, Id) && SortedBy(Descending, Neg)
  {
  }

  lemma SampleHasNoTies()
    ensures DistinctKeys(Sample, Id) && DistinctKeys(Sample, Neg)
  {
  }

  /** test_vector_pair_sort.cpp "Test sorting": ascending, the index becomes
      [8,0,2,3,1,9,4,7,6,5]; descending, values and index come out reversed. */
  method LiteralSample() returns (ascending: seq<int>, ascendingIndex: seq<nat>,
                                  descending: seq<int>, descendingIndex: seq<nat>)
    ensures ascending == Ascending && ascendingIndex == AscendingIndex
    ensures descending == Reverse(ascending) && descendingIndex == Reverse(ascendingIndex)
  {
    var s1, s2;
    s1, ascending, ascendingIndex := VectorPairSort.Sort(Sample, Iota(10), Id);
    s2, descending, descendingIndex := VectorPairSort.Sort(Sample, Iota(10), Neg);
    SampleHasNoTies();
    ExpectedIndicesArePermutations();
    ExpectedGathers();
    ExpectedSorted();
    UniqueOutcome(Sample, ascending, ascendingIndex, Ascending, AscendingIndex, Id);
    UniqueOutcome(Sample, descending, descendingIndex, Descending, DescendingIndex, Neg);
    DescendingIsReversed();
  }

  /** "Test sorting empty containers": every variant succeeds on two empty
      ranges and leaves them empty. */
  method EmptyContainers<T>(key: T -> int) returns (statuses: seq<Status>, outputs: seq<(seq<T>, seq<nat>)>)
    ensures |statuses| == 6 && |outputs| == 6
    ensures forall k :: 0 <= k < 6 ==> statuses[k] == Ok && outputs[k] == ([], [])
  {
    var empty: seq<T>, none: seq<nat> := [], [];
    assert IsPermutation(none);
    var s1, v1, i1 := VectorPairSort.Sort(empty, none, key);
    var s2, v2, i2 := VectorPairSort2.Sort(empty, none, key);
    var s3, v3, i3 := DoubleSort.Sort(empty, none, key);
    var s4, v4, i4 := BoostIndexApplySort.Sort(empty, none, key);
    var s5, v5, i5 := BoostIndexApplySort2.Sort(empty, none, key);
    var s6, v6, i6 := PermutateInPlaceSort.Sort(empty, none, key);
    statuses := [s1, s2, s3, s4, s5, s6];
    outputs := [(v1, i1), (v2, i2), (v3, i3), (v4, i4), (v5, i5), (v6, i6)];
  }

  /** "Test invalid length": whenever the two ranges differ in length,
      whatever their contents, every variant reports the mismatch with the
      same message and leaves both ranges as they were. */
  method InvalidLength<T>(values: seq<T>, index: seq<nat>, key: T -> int)
    returns (statuses: seq<Status>, outputs: seq<(seq<T>, seq<nat>)>)
    requires |values| != |index|
    ensures |statuses| == 6 && |outputs| == 6
    ensures forall k :: 0 <= k < 6 ==>
              statuses[k] == LengthMismatch(LengthMismatchMessage) && outputs[k] == (values, index)
  {
    var s1, v1, i1 := VectorPairSort.Sort(values, index, key);
    var s2, v2, i2 := VectorPairSort2.Sort(values, index, key);
    var s3, v3, i3 := DoubleSort.Sort(values, index, key);
    var s4, v4, i4 := BoostIndexApplySort.Sort(values, index, key);
    var s5, v5, i5 := BoostIndexApplySort2.Sort(values, index, key);
    var s6, v6, i6 := PermutateInPlaceSort.Sort(values, index, key);
    statuses := [s1, s2, s3, s4, s5, s6];
    outputs := [(v1, i1), (v2, i2), (v3, i3), (v4, i4), (v5, i5), (v6, i6)];
  }

  /** The three variants that apply the indirectly sorted index
      (`boost_index_apply_sort`, `boost_index_apply_sort2`,
      `permutate_in_place_sort`) return identical results on every input
      they accept, including the length-mismatch error. */
  method IndexApplyVariantsAgree<T>(values: seq<T>, index: seq<nat>, key: T -> int)
    returns (r1: (Status, seq<T>, seq<nat>), r2: (Status, seq<T>, seq<nat>), r3: (Status, seq<T>, seq<nat>))
    requires |values| == |index| ==> IsPermutation(index)
    ensures r1 == r2 == r3
  {
    var s1, v1, i1 := BoostIndexApplySort.Sort(values, index, key);
    var s2, v2, i2 := BoostIndexApplySort2.Sort(values, index, key);
    var s3, v3, i3 := PermutateInPlaceSort.Sort(values, index, key);
    if s1.Ok? {
      PermutationInRangeDistinct(i1);
      GathersIsApply(v1, values, i1);
      GathersIsApply(v2, values, i1);
      GathersIsApply(v3, values, i1);
    }
    r1, r2, r3 := (s1, v1, i1), (s2, v2, i2), (s3, v3, i3);
  }

  /** The two `vector_pair_sort` variants differ only in how they copy the
      sorted pairs back, and return identical results on every input. */
  method PairVariantsAgree<T>(values: seq<T>, index: seq<nat>, key: T -> int)
    returns (r1: (Status, seq<T>, seq<nat>), r2: (Status, seq<T>, seq<nat>))
    ensures r1 == r2
  {
    var s1, v1, i1 := VectorPairSort.Sort(values, index, key);
    var s2, v2, i2 := VectorPairSort2.Sort(values, index, key);
    r1, r2 := (s1, v1, i1), (s2, v2, i2);
  }

  /** With no two values equivalent, `double_sort` and any variant meeting
      the full contract return the same two sequences. */
  lemma DoubleSortMatches<T(!new)>(values: seq<T>, v: seq<T>, i: seq<nat>, w: seq<T>, j: seq<nat>, key: T -> int)
    requires DistinctKeys(values, key)
    requires IndexSortSpec(values, v, i, key)
    requires DoubleSort.DoubleSortSpec(values, w, j, key)
    ensures w == v && j == i
  {
    DoubleSort.ExactWhenEquivalenceDecides(values, w, j, key);
    UniqueOutcome(values, w, j, v, i, key);
  }

  /** test_all.cpp "Test sorting": starting from the identity index, every
      variant returns what the reference `vector_pair_sort` returns whenever
      no two values are equivalent, which is when the outcome is unique. */
  method AgreeWithReference<T(!new)>(values: seq<T>, key: T -> int)
    returns (reference: (seq<T>, seq<nat>), others: seq<(seq<T>, seq<nat>)>)
    requires DistinctKeys(values, key)
    ensures |others| == 5
    ensures others[0] == reference && others[1] == reference && others[2] == reference
    ensures others[3] == reference && others[4] == reference
  {
    var index := Iota(|values|);
    IdentityGathers(values);
    var s0, v0, i0 := VectorPairSort.Sort(values, index, key);
    var s1, v1, i1 := VectorPairSort2.Sort(values, index, key);
    UniqueOutcome(values, v1, i1, v0, i0, key);
    var s2, v2, i2 := DoubleSort.Sort(values, index, key);
    DoubleSortMatches(values, v0, i0, v2, i2, key);
    var s3, v3, i3 := BoostIndexApplySort.Sort(values, index, key);
    UniqueOutcome(values, v3, i3, v0, i0, key);
    var s4, v4, i4 := BoostIndexApplySort2.Sort(values, index, key);
    UniqueOutcome(values, v4, i4, v0, i0, key);
    var s5, v5, i5 := PermutateInPlaceSort.Sort(values, index, key);
    UniqueOutcome(values, v5, i5, v0, i0, key);
    reference := (v0, i0);
    others := [(v1, i1), (v2, i2), (v3, i3), (v4, i4), (v5, i5)];
  }
}
