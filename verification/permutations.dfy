/** Permutations of the positions 0..n-1 and the gather operation
    `Apply(perm, s)[k] == s[perm[k]]` that every variant computes. */
module Permutations {
  import opened Sequences

  /** `p` holds every position 0..|p|-1 exactly once. */
  ghost predicate IsPermutation(p: seq<nat>)
  {
    multiset(p) == multiset(Iota(|p|))
  }

  /** `out` gathers from `s` along `perm`: slot k of `out` holds the element
      that sat at position perm[k] of `s`. */
  ghost predicate Gathers<T>(out: seq<T>, s: seq<T>, perm: seq<nat>)
  {
    && |out| == |perm|
    && forall k :: 0 <= k < |perm| ==> perm[k] < |s| && out[k] == s[perm[k]]
  }

  /** The gather itself, as a reference definition. */
  function Apply<T>(perm: seq<nat>, s: seq<T>): (r: seq<T>)
    requires InRange(perm, |s|)
    ensures Gathers(r, s, perm)
  {
    seq(|perm|, k requires 0 <= k < |perm| => s[perm[k]])
  }

  /** A permutation is exactly a sequence of in-range positions with no
      repetition (both directions). */
  lemma PermutationCharacterization(p: seq<nat>)
    ensures IsPermutation(p) <==> InRange(p, |p|) && Distinct(p)
  {
    if IsPermutation(p) {
      PermutationInRangeDistinct(p);
    }
    if InRange(p, |p|) && Distinct(p) {
      InRangeDistinctIsPermutation(p);
    }
  }

  lemma PermutationInRangeDistinct(p: seq<nat>)
    requires IsPermutation(p)
    ensures InRange(p, |p|) && Distinct(p)
  {
    var n := |p|;
    forall k | 0 <= k < n
      ensures p[k] < n
    {
      assert p[k] in multiset(p);
      assert p[k] in Iota(n);
    }
    assert Distinct(Iota(n));
    DistinctMultiplicity(Iota(n));
    forall i, j | 0 <= i < j < n
      ensures p[i] != p[j]
    {
      if p[i] == p[j] {
        RepeatedMultiplicity(p, i, j);
        assert false;
      }
    }
  }

  lemma InRangeDistinctIsPermutation(p: seq<nat>)
    requires InRange(p, |p|) && Distinct(p)
    ensures IsPermutation(p)
  {
    var n := |p|;
    var io := Iota(n);
    assert Distinct(io);
    DistinctCardinality(p);
    DistinctCardinality(io);
    assert Elements(p) <= Elements(io) by {
      forall x | x in Elements(p)
        ensures x in Elements(io)
      {
        var k :| 0 <= k < n && p[k] == x;
        assert io[x] == x;
      }
    }
    SubsetOfSameSize(Elements(p), Elements(io));
    SameElementsSameMultiset(p, io);
  }

  lemma SubsetOfSameSize<E>(a: set<E>, b: set<E>)
    requires a <= b && |a| == |b|
    ensures a == b
  {
    assert b == a + (b - a);
    assert a * (b - a) == {};
    assert |a + (b - a)| + |a * (b - a)| == |a| + |b - a|;
  }

  lemma SameElementsSameMultiset<E>(p: seq<E>, q: seq<E>)
    requires Distinct(p) && Distinct(q) && Elements(p) == Elements(q)
    ensures multiset(p) == multiset(q)
  {
    DistinctMultiplicity(p);
    DistinctMultiplicity(q);
    forall x
      ensures multiset(p)[x] == multiset(q)[x]
    {
      assert x in p <==> x in Elements(p);
      assert x in q <==> x in Elements(q);
    }
  }

  /** Rearranging a permutation gives a permutation. */
  lemma PermutationOfPermutation(p: seq<nat>, q: seq<nat>)
    requires IsPermutation(p) && multiset(q) == multiset(p)
    ensures IsPermutation(q)
  {
  }

  /** Gathering along a permutation only rearranges: the elements, counted
      with multiplicity, are those of `s`. */
  lemma ApplyPreservesMultiset<T>(perm: seq<nat>, s: seq<T>, out: seq<T>)
    requires IsPermutation(perm) && |perm| == |s| && Gathers(out, s, perm)
    ensures multiset(out) == multiset(s)
  {
    if |s| > 0 {
      var n := |s|;
      var f := (x: nat) => if x < n then s[x] else s[0];
      assert out == Map(f, perm);
      assert s == Map(f, Iota(n));
      MapMultiset(f, perm, Iota(n));
    }
  }

  /** `Gathers` pins its output down: it holds of exactly one sequence, the
      one `Apply` computes. */
  lemma GathersIsApply<T>(out: seq<T>, s: seq<T>, perm: seq<nat>)
    requires InRange(perm, |s|)
    ensures Gathers(out, s, perm) <==> out == Apply(perm, s)
  {
  }

  /** Gathering along the identity changes nothing. */
  lemma IdentityGathers<T>(s: seq<T>)
    ensures IsPermutation(Iota(|s|)) && Gathers(s, s, Iota(|s|))
  {
  }
}
