# indexsort in Dafny

A model of the `indexsort` header library: six interchangeable routines
that sort a range of values and leave in a parallel index range the
original position of every sorted value. The routines are
`vector_pair_sort`, `vector_pair_sort2`, `boost_index_apply_sort`,
`boost_index_apply_sort2`, `permutate_in_place_sort` and `double_sort`.
All six throw `length_mismatch_error("Length of both iterables must match!")`
when the two ranges differ in length. That check comes before anything is
written.

Each routine is a Dafny method over immutable sequences. It takes
`(values, index, key)` and returns `(status, values', index')`. `status` is
`Ok`, or `LengthMismatch(message)` in place of the exception. The comparator
`cmp(a, b)` is modelled as `key(a) < key(b)` for a key `key: T -> int`:
`std::less<int>` is the key `Id`, and `std::greater<int>` is `x => -x`. A key
comparator is always a strict weak ordering (`Ordering.LessIsStrictWeakOrdering`),
and it still allows values that are equivalent without being equal.
`double_sort` depends on that distinction.

The shared contract is `IndexSort.IndexSortSpec`. It has four parts:
- `index'` is a permutation of `0..n-1`.
- `values'[k] == values[index'[k]]` for every `k` (`Permutations.Gathers`).
- `values'` is sorted under the comparator.
- The lengths are unchanged.

From it follow multiset preservation (`IndexSort.SpecPreservesMultiset`)
and uniqueness of the outcome when no two values are equivalent
(`IndexSort.UniqueOutcome`). Agreement between the variants is proved from
that uniqueness.

The two library algorithms the routines call are written out and verified:
- `std::sort` is an insertion sort, `StdSort.SortBy`. Callers rely only on
  its contract: the result is a sorted rearrangement of the input.
- `boost::algorithm::apply_permutation` is `ApplyPermutation.Apply`, the
  cycle-following swap that Boost documents.

Modules, one per header plus shared support:

| module | contents |
|---|---|
| `Sequences` | `Map`, `Iota`, `Distinct`, `InRange`, `Swap`, multiset facts |
| `Permutations` | `IsPermutation`, `Gathers`, `Apply` and their characterisations |
| `Ordering` | the comparator, `SortedBy`, `DistinctKeys` |
| `StdSort` | `std::sort` |
| `IndexSort` | `Status`, the length check, the shared contract, the indirect index sort |
| `VectorPairSort`, `VectorPairSort2` | the two pair-based variants |
| `ApplyPermutation` | `boost::algorithm::apply_permutation` |
| `BoostIndexApplySort`, `BoostIndexApplySort2` | the two Boost-based variants |
| `PermutateInPlaceSort` | the in-place cycle-chasing variant |
| `DoubleSort` | the two-sort variant and its weaker promise |
| `Scenarios` | the behaviours the test suite checks, for all inputs |

## Model

| member | source | states |
|---|---|---|
| VectorPairSort.Sort | include/vector_pair_sort.hpp:30-63 | It fails exactly when the lengths differ, with the library's message and both ranges untouched. Otherwise, whatever the input index held, the index is a permutation, each value sits where the index says it came from, the values are sorted and are a rearrangement, and the outputs are the two halves of the sorted pair vector. |
| VectorPairSort.Enumerate | include/vector_pair_sort.hpp:44-48 | Pairing each value with a counter from 0 gives pairs whose first halves are the values and whose second halves are the identity permutation, independent of the caller's index. |
| VectorPairSort.SortedPairsSplit | include/vector_pair_sort.hpp:41-62 | Any sorted rearrangement of the enumerated pairs splits into a correct outcome: a permutation index, values gathered along it, sorted values. Equivalent pairs may come in any order. |
| VectorPairSort.WriteBackIndexed | include/vector_pair_sort.hpp:58-62 | After the indexed write-back, slot k of the values and of the index hold the two halves of pair k, for every k below n. |
| VectorPairSort2.WriteBackSequential | include/vector_pair_sort2.hpp:51-56 | The three-iterator write-back writes exactly n slots, and slot k receives the k-th sorted pair. This is the same outcome as the indexed write-back. |
| VectorPairSort2.Sort | include/vector_pair_sort2.hpp:21-57 | The same contract as `vector_pair_sort`, including the same sorted-pair outputs. |
| IndexSort.IndirectSort | include/boost_index_apply_sort.hpp:43-46 | Sorting the index labels by the values they name keeps the index a permutation, rearranges only the labels, and reads the values in sorted order through the index. |
| IndexSort.UniqueOutcome | test/test_all.cpp:23-78 | When no two values are equivalent, two outcomes that both meet the shared contract are equal. So the variants must agree with the reference. |
| IndexSort.SpecPreservesMultiset | include/vector_pair_sort.hpp:47-62 | An outcome meeting the shared contract holds the same values, counted with multiplicity, as the input. |
| IndexSort.ResortIsIdentity | include/vector_pair_sort.hpp:30-63 | Sorting already sorted values from the identity index may return them unchanged with the identity index. With no equivalent values, that is the only possible outcome. |
| ApplyPermutation.Apply | include/boost_index_apply_sort.hpp:48-51 | Applying a permutation to the items leaves at slot k the item that sat at ind[k], preserves the items' multiset, and consumes the permutation it was handed, which ends as the identity. |
| BoostIndexApplySort.Sort | include/boost_index_apply_sort.hpp:29-52 | Length mismatch as above. Otherwise the caller's index is the indirectly sorted index, not the consumed copy, and the shared contract and multiset preservation hold. |
| BoostIndexApplySort2.Sort | include/boost_index_apply_sort2.hpp:20-40 | Length mismatch as above. Otherwise the caller's index equals the sorted private copy, and applying that copy gives the shared contract. |
| PermutateInPlaceSort.Chase | include/permutate_in_place_sort.hpp:41-43 | For a permutation index, following index[] while below i terminates. It visits distinct positions, all below i except the last, and stops in [i, n). |
| PermutateInPlaceSort.ChainStep | include/permutate_in_place_sort.hpp:42-43 | Stepping on from a chain entry below i reaches a position not yet on the chain. This is why the chase terminates. |
| PermutateInPlaceSort.ApplyInPlace | include/permutate_in_place_sort.hpp:37-45 | After the swap loop, slot k holds the value that sat at idx[k], and the values' multiset is unchanged. The loop invariant says slots below i are final and every unplaced value sits where the chase from its origin lands. |
| PermutateInPlaceSort.Sort | include/permutate_in_place_sort.hpp:18-46 | Length mismatch as above. Otherwise the index is the indirectly sorted index, and the shared contract and multiset preservation hold. |
| DoubleSort.Sort | include/double_sort.hpp:17-32 | Length mismatch as above. Otherwise the index is sorted by the original values and the values are sorted and rearranged. Each value is only known to be equivalent to the original value its index label names. |
| DoubleSort.ExactWhenEquivalenceDecides | include/double_sort.hpp:27-31 | If no two values are equivalent, or if equivalence implies equality (ints under `<`), the `double_sort` outcome meets the full shared contract. |
| DoubleSort.PairingMayDifferUnderEquivalentValues | include/double_sort.hpp:27-31 | With a comparator that ties 2 and 3, values [2,3] and index [1,0] is an admissible `double_sort` outcome, yet slot 0 does not hold the value at index[0]. |
| StdSort.SortBy | include/vector_pair_sort.hpp:51-54 | The sort returns a rearrangement of its input in which no element is less than an earlier one. |
| StdSort.Insert | include/vector_pair_sort.hpp:51-54 | Inserting into a sorted sequence adds exactly that element and keeps the sequence sorted. |
| Ordering.LessIsStrictWeakOrdering | include/vector_pair_sort.hpp:18-19 | The key comparator is irreflexive, asymmetric and transitive, and its equivalence is transitive, as `std::sort` requires of `cmp`. |
| Ordering.SortedRearrangementsHaveSameKeys | include/double_sort.hpp:27-31 | Two sorted rearrangements of the same values agree position by position up to equivalence. |
| Permutations.PermutationCharacterization | include/vector_pair_sort.hpp:15-16 | A sequence holds each of 0..n-1 exactly once if and only if all its entries are below n and no entry repeats. |
| Permutations.GathersIsApply | include/boost_index_apply_sort.hpp:48-51 | For an in-range permutation, the gather relation holds of exactly one sequence, the one `Apply` computes. |
| Permutations.ApplyPreservesMultiset | include/permutate_in_place_sort.hpp:37-45 | Gathering along a permutation rearranges the elements without adding or dropping any. |
| Scenarios.LiteralSample | test/test_vector_pair_sort.cpp:8-33 | For [7,45,18,33,77,96,83,80,4,51] from the identity index, ascending gives values [4,...,96] and index [8,0,2,3,1,9,4,7,6,5]. Descending gives both reversed. |
| Scenarios.EmptyContainers | test/test_all.cpp:80-115 | Every variant succeeds on two empty ranges and leaves them empty. |
| Scenarios.InvalidLength | test/test_all.cpp:117-195 | For any ranges of different lengths, every variant reports the mismatch with the same message and leaves both ranges as they were. |
| Scenarios.IndexApplyVariantsAgree | include/boost_index_apply_sort2.hpp:12-16 | The two Boost variants and `permutate_in_place_sort` return identical results on every input they accept. |
| Scenarios.PairVariantsAgree | include/vector_pair_sort2.hpp:12-16 | The two pair-based variants return identical results on every input. |
| Scenarios.AgreeWithReference | test/test_all.cpp:23-78 | With no two values equivalent, all five variants return exactly what the reference `vector_pair_sort` returns from the identity index. |

## Left out

- Mutation through iterators is modelled as value semantics: each method returns the new contents of both ranges. The exception is a returned `Status`.
- Templates, iterator categories and type traits are not modelled. Values have an arbitrary type `T`, and index labels are `nat`.
- The overflow of `index_val_type` in the counter `n++` is not modelled, because labels are unbounded `nat`.
- The comparator is a key into the integers. A strict weak ordering that is not induced by such a key is not modelled.
- `std::sort` is replaced by a verified insertion sort, which happens to be stable. No contract relies on stability: `SortedPairsSplit` and `UniqueOutcome` are stated for any sorted rearrangement.
- The source of `boost::algorithm::apply_permutation` is not part of this model. `ApplyPermutation.Apply` is the cycle-following algorithm Boost documents, verified against the contract the variants rely on.
- BoostIndexApplySort.Sort, BoostIndexApplySort2.Sort, PermutateInPlaceSort.Sort and DoubleSort.Sort require the index to be a permutation of 0..n-1 when the lengths match. For any other index the library's behaviour is undefined, and `permutate_in_place_sort` may not terminate.
- The validation that test/test_vector_pair_sort.cpp:78-88 expects, rejecting a non-permutation index, is not modelled. The library does not perform it, and that test is marked as expected to fail.
- Scenarios.AgreeWithReference requires pairwise inequivalent values. The test draws 500 random ints and compares indices exactly. With repeated values, the unstable `std::sort` may order the tied positions differently in each variant, so agreement is not promised there.
- The randomly generated inputs, the Catch2 scaffolding and test/benchmark.cpp (timing, `double` values) are not modelled.
