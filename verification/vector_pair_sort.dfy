/** include/vector_pair_sort.hpp: copy the values into (value, position)
    pairs, sort the pairs by value, and write both halves back by position.
    The caller's index contents are never read: positions come from a
    counter, so any index of the right length is accepted. */
module VectorPairSort {
  import opened Sequences
  import opened Permutations
  import opened Ordering
  import opened StdSort
  import opened IndexSort

  /** The value halves of a pair sequence. */
  function Firsts<T>(ps: seq<(T, nat)>): seq<T>
  {
    seq(|ps|, k requires 0 <= k < |ps| => ps[k].0)
  }

  /** The position halves of a pair sequence. */
  function Seconds<T>(ps: seq<(T, nat)>): seq<nat>
  {
    seq(|ps|, k requires 0 <= k < |ps| => ps[k].1)
  }

  /** The `conversion` vector: each value paired with the counter `n++`,
      which runs 0, 1, ..., n-1. Splitting it gives back the values and the
      identity permutation. */
  function Enumerate<T>(values: seq<T>): (ps: seq<(T, nat)>)
    ensures Firsts(ps) == values
    ensures Seconds(ps) == Iota(|values|)
  {
    seq(|values|, k requires 0 <= k < |values| => (values[k], k))
  }

  /** The pair comparator `cmp(a.first, b.first)`. */
  function PairKey<T>(key: T -> int): ((T, nat)) -> int
  {
    (p: (T, nat)) => key(p.0)
  }

  /** The `conversion` vector after `std::sort` with the pair comparator. */
  function SortedPairs<T>(values: seq<T>, key: T -> int): seq<(T, nat)>
  {
    SortBy(Enumerate(values), PairKey(key))
  }

  /** Sorting the enumerated pairs by their first halves, whatever order the
      sort leaves equivalent pairs in, splits into a correct outcome. */
  lemma SortedPairsSplit<T>(values: seq<T>, ps: seq<(T, nat)>, key: T -> int)
    requires multiset(ps) == multiset(Enumerate(values))
    requires SortedBy(ps, PairKey(key))
    ensures IndexSortSpec(values, Firsts(ps), Seconds(ps), key)
  {
    var n := |values|;
    var e := Enumerate(values);
    assert |ps| == |multiset(ps)| == |multiset(e)| == n;
    var snd := (p: (T, nat)) => p.1;
    assert Seconds(ps) == Map(snd, ps);
    assert Seconds(e) == Map(snd, e);
    MapMultiset(snd, ps, e);
    assert IsPermutation(Seconds(ps));
    forall k | 0 <= k < n
      ensures ps[k].1 < n && ps[k].0 == values[ps[k].1]
    {
      assert ps[k] in multiset(e) by { assert ps[k] in multiset(ps); }
      var m :| 0 <= m < n && e[m] == ps[k];
    }
    forall i, j | 0 <= i < j < n
      ensures !Less(key, Firsts(ps)[j], Firsts(ps)[i])
    {
      assert !Less(PairKey(key), ps[j], ps[i]);
    }
  }

  /** The indexed write-back `value_begin[i] = conversion[i].first;
      index_begin[i] = conversion[i].second` for i in 0..n-1. */
  method WriteBackIndexed<T>(ps: seq<(T, nat)>, values: seq<T>, index: seq<nat>)
    returns (values': seq<T>, index': seq<nat>)
    requires |ps| == |values| == |index|
    ensures values' == Firsts(ps)
    ensures index' == Seconds(ps)
  {
    values', index' := values, index;
    for i := 0 to |ps|
      invariant |values'| == |ps| && |index'| == |ps|
      invariant forall k :: 0 <= k < i ==> values'[k] == ps[k].0 && index'[k] == ps[k].1
    {
      values' := values'[i := ps[i].0];
      index' := index'[i := ps[i].1];
    }
  }

  /** `vector_pair_sort(values, index, cmp)`. */
  method Sort<T>(values: seq<T>, index: seq<nat>, key: T -> int)
    returns (status: Status, values': seq<T>, index': seq<nat>)
    ensures LengthChecked(status, values, index, values', index')
    ensures status.Ok? ==> IndexSortSpec(values, values', index', key)
    ensures status.Ok? ==> multiset(values') == multiset(values)
    ensures status.Ok? ==> values' == Firsts(SortedPairs(values, key))
    ensures status.Ok? ==> index' == Seconds(SortedPairs(values, key))
  {
    if |values| != |index| {
      return LengthMismatch(LengthMismatchMessage), values, index;
    }
    var conversion := Enumerate(values);
    conversion := SortBy(conversion, PairKey(key));
    SortedPairsSplit(values, conversion, key);
    values', index' := WriteBackIndexed(conversion, values, index);
    SpecPreservesMultiset(values, values', index', key);
    status := Ok;
  }
}
