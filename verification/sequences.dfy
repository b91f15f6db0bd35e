/** Generic facts about sequences used by every index-sort variant:
    element-wise mapping, the position sequence 0..n-1, distinctness and
    how those interact with multisets. */
module Sequences {

  /** The sequence f(s[0]), ..., f(s[|s|-1]). */
  function Map<A, B>(f: A -> B, s: seq<A>): seq<B>
  {
    seq(|s|, k requires 0 <= k < |s| => f(s[k]))
  }

  /** The positions 0, 1, ..., n-1 in order: what a counter running from 0
      produces, and what the caller seeds the index with. */
  function Iota(n: nat): (r: seq<nat>)
    ensures |r| == n
    ensures forall k :: 0 <= k < n ==> r[k] == k
  {
    seq(n, k requires 0 <= k < n => k)
  }

  /** No value occurs at two positions. */
  ghost predicate Distinct<E>(s: seq<E>)
  {
    forall i, j :: 0 <= i < j < |s| ==> s[i] != s[j]
  }

  /** Every element is a position below n. */
  ghost predicate InRange(s: seq<nat>, n: nat)
  {
    forall k :: 0 <= k < |s| ==> s[k] < n
  }

  lemma MapConcat<A, B>(f: A -> B, u: seq<A>, v: seq<A>)
    ensures Map(f, u + v) == Map(f, u) + Map(f, v)
  {
  }

  /** Mapping respects rearrangement: two sequences holding the same multiset
      of elements map to sequences holding the same multiset of images. */
  lemma {:induction false} MapMultiset<A, B>(f: A -> B, a: seq<A>, b: seq<A>)
    requires multiset(a) == multiset(b)
    ensures multiset(Map(f, a)) == multiset(Map(f, b))
    decreases |a|
  {
    if |a| == 0 {
      assert |b| == |multiset(b)| == 0;
      assert Map(f, a) == [] == Map(f, b);
    } else {
      var x := a[0];
      assert x in multiset(b) by { assert x in a; }
      var j :| 0 <= j < |b| && b[j] == x;
      var rest := b[..j] + b[j + 1..];
      assert b == b[..j] + [x] + b[j + 1..];
      assert a == [x] + a[1..];
      assert multiset(rest) == multiset(b) - multiset{x};
      assert multiset(a[1..]) == multiset(a) - multiset{x};
      MapMultiset(f, a[1..], rest);
      MapConcat(f, [x], a[1..]);
      MapConcat(f, b[..j] + [x], b[j + 1..]);
      MapConcat(f, b[..j], [x]);
      MapConcat(f, b[..j], b[j + 1..]);
      assert Map(f, [x]) == [f(x)];
    }
  }

  /** A distinct sequence holds every value at most once. */
  lemma {:induction false} DistinctMultiplicity<E>(s: seq<E>)
    requires Distinct(s)
    ensures forall x :: multiset(s)[x] <= 1
    decreases |s|
  {
    if |s| > 0 {
      var init := s[..|s| - 1];
      var last := s[|s| - 1];
      assert s == init + [last];
      assert Distinct(init);
      DistinctMultiplicity(init);
      assert last !in init;
    }
  }

  /** A value found at two positions occurs at least twice. */
  lemma RepeatedMultiplicity<E>(s: seq<E>, i: nat, j: nat)
    requires i < j < |s| && s[i] == s[j]
    ensures multiset(s)[s[i]] >= 2
  {
    var x := s[i];
    assert s == s[..j] + [x] + s[j + 1..];
    assert x in s[..j];
  }

  /** The set of values occurring in `s`. */
  ghost function Elements<E>(s: seq<E>): set<E>
  {
    set x | x in s
  }

  /** A distinct sequence has as many elements as its set of elements. */
  lemma {:induction false} DistinctCardinality<E>(s: seq<E>)
    requires Distinct(s)
    ensures |Elements(s)| == |s|
    decreases |s|
  {
    if |s| > 0 {
      var init := s[..|s| - 1];
      var last := s[|s| - 1];
      assert s == init + [last];
      assert Distinct(init);
      DistinctCardinality(init);
      assert Elements(s) == Elements(init) + {last};
      assert last !in Elements(init);
    }
  }

  /** Exchanges the elements at positions a and b. */
  function Swap<E>(s: seq<E>, a: nat, b: nat): (r: seq<E>)
    requires a < |s| && b < |s|
    ensures |r| == |s| && r[a] == s[b] && r[b] == s[a]
    ensures forall k :: 0 <= k < |s| && k != a && k != b ==> r[k] == s[k]
    ensures multiset(r) == multiset(s)
  {
    s[a := s[b]][b := s[a]]
  }
}
