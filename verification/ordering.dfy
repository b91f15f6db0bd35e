/** The comparator every variant receives, modelled as a key into the
    integers: `cmp(a, b)` is `key(a) < key(b)`. Ascending `std::less<int>`
    is the key `x => x`, descending `std::greater<int>` is `x => -x`. */
module Ordering {
  import opened Sequences

  /** The comparator `cmp(a, b)`. */
  predicate Less<T>(key: T -> int, a: T, b: T)
  {
    key(a) < key(b)
  }

  /** Neither element is less than the other. */
  predicate Equivalent<T>(key: T -> int, a: T, b: T)
  {
    !Less(key, a, b) && !Less(key, b, a)
  }

  /** `std::is_sorted(s, cmp)`: no element is less than one before it. */
  ghost predicate SortedBy<T>(s: seq<T>, key: T -> int)
  {
    forall i, j :: 0 <= i < j < |s| ==> !Less(key, s[j], s[i])
  }

  /** No two positions of `s` carry equivalent elements. */
  ghost predicate DistinctKeys<T>(s: seq<T>, key: T -> int)
  {
    forall i, j :: 0 <= i < j < |s| ==> !Equivalent(key, s[i], s[j])
  }

  /** Equivalence under the comparator implies equality (ints under `<`). */
  ghost predicate EquivalenceIsEquality<T(!new)>(key: T -> int)
  {
    forall a, b :: Equivalent(key, a, b) ==> a == b
  }

  function Id(x: int): int
  {
    x
  }

  /** A key-based comparator is a strict weak ordering, as `std::sort`
      requires of `cmp`: irreflexive, transitive, and with transitive
      equivalence. */
  lemma LessIsStrictWeakOrdering<T>(key: T -> int, a: T, b: T, c: T)
    ensures !Less(key, a, a)
    ensures Less(key, a, b) ==> !Less(key, b, a)
    ensures Less(key, a, b) && Less(key, b, c) ==> Less(key, a, c)
    ensures Equivalent(key, a, b) && Equivalent(key, b, c) ==> Equivalent(key, a, c)
  {
  }

  /** Two ascending integer sequences with the same elements are equal. */
  lemma {:induction false} SortedIntsUnique(a: seq<int>, b: seq<int>)
    requires SortedBy(a, Id) && SortedBy(b, Id)
    requires multiset(a) == multiset(b)
    ensures a == b
    decreases |a|
  {
    assert |a| == |multiset(a)| == |multiset(b)| == |b|;
    if |a| > 0 {
      assert a[0] in multiset(b) by { assert a[0] in a; }
      assert b[0] in multiset(a) by { assert b[0] in b; }
      var j :| 0 <= j < |b| && b[j] == a[0];
      var i :| 0 <= i < |a| && a[i] == b[0];
      assert j > 0 ==> !Less(Id, b[j], b[0]);
      assert i > 0 ==> !Less(Id, a[i], a[0]);
      assert a[0] == b[0];
      assert a == [a[0]] + a[1..];
      assert b == [b[0]] + b[1..];
      assert multiset(a[1..]) == multiset(a) - multiset{a[0]};
      assert multiset(b[1..]) == multiset(b) - multiset{b[0]};
      assert multiset(a[1..]) == multiset(b[1..]);
      assert SortedBy(a[1..], Id) by {
        forall i', j' | 0 <= i' < j' < |a[1..]|
          ensures !Less(Id, a[1..][j'], a[1..][i'])
        {
          assert a[1..][j'] == a[j' + 1] && a[1..][i'] == a[i' + 1];
        }
      }
      assert SortedBy(b[1..], Id) by {
        forall i', j' | 0 <= i' < j' < |b[1..]|
          ensures !Less(Id, b[1..][j'], b[1..][i'])
        {
          assert b[1..][j'] == b[j' + 1] && b[1..][i'] == b[i' + 1];
        }
      }
      SortedIntsUnique(a[1..], b[1..]);
    }
  }

  /** Two sorted rearrangements of the same elements agree position by
      position up to equivalence: their keys are the same sequence. */
  lemma SortedRearrangementsHaveSameKeys<T>(a: seq<T>, b: seq<T>, key: T -> int)
    requires SortedBy(a, key) && SortedBy(b, key)
    requires multiset(a) == multiset(b)
    ensures |a| == |b|
    ensures forall k :: 0 <= k < |a| ==> Equivalent(key, a[k], b[k])
  {
    assert |a| == |multiset(a)| == |multiset(b)| == |b|;
    var ka := Map(key, a);
    var kb := Map(key, b);
    MapMultiset(key, a, b);
    assert SortedBy(ka, Id) by {
      forall i, j | 0 <= i < j < |ka|
        ensures !Less(Id, ka[j], ka[i])
      {
        assert !Less(key, a[j], a[i]);
      }
    }
    assert SortedBy(kb, Id) by {
      forall i, j | 0 <= i < j < |kb|
        ensures !Less(Id, kb[j], kb[i])
      {
        assert !Less(key, b[j], b[i]);
      }
    }
    SortedIntsUnique(ka, kb);
    forall k | 0 <= k < |a|
      ensures Equivalent(key, a[k], b[k])
    {
      assert ka[k] == kb[k];
    }
  }
}
