/** `std::sort(first, last, cmp)`: every variant calls it at least once.
    Only its contract matters to the callers (the result is a rearrangement
    of the input with no element less than one before it); it is realised
    here by insertion sort so that the contract is proved, not assumed. */
module StdSort {
  import opened Ordering

  /** Inserts `x` into the sorted `s` in front of the first element that is
      not less than `x`. */
  function Insert<E>(x: E, s: seq<E>, key: E -> int): (r: seq<E>)
    requires SortedBy(s, key)
    ensures multiset(r) == multiset(s) + multiset{x}
    ensures SortedBy(r, key)
    decreases |s|
  {
    if |s| == 0 then [x]
    else if !Less(key, s[0], x) then
      PrependKeepsSorted(x, s, key);
      [x] + s
    else
      var rest := Insert(x, s[1..], key);
      assert s == [s[0]] + s[1..];
      TailElementsNotLess(s, key);
      assert forall e :: e in rest ==> e in multiset(s[1..]) + multiset{x}
        by { assert forall e :: e in rest ==> e in multiset(rest); }
      PrependKeepsSorted(s[0], rest, key);
      [s[0]] + rest
  }

  /** The sort: a sorted rearrangement of `s`. */
  function SortBy<E>(s: seq<E>, key: E -> int): (r: seq<E>)
    ensures multiset(r) == multiset(s)
    ensures SortedBy(r, key)
    decreases |s|
  {
    if |s| == 0 then []
    else
      assert s == [s[0]] + s[1..];
      Insert(s[0], SortBy(s[1..], key), key)
  }

  lemma TailElementsNotLess<E>(s: seq<E>, key: E -> int)
    requires |s| > 0 && SortedBy(s, key)
    ensures SortedBy(s[1..], key)
    ensures forall e :: e in s ==> !Less(key, e, s[0])
  {
  }

  lemma PrependKeepsSorted<E>(h: E, t: seq<E>, key: E -> int)
    requires SortedBy(t, key)
    requires forall e :: e in t ==> !Less(key, e, h)
    ensures SortedBy([h] + t, key)
  {
  }
}
