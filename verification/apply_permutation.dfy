/** `boost::algorithm::apply_permutation(item_begin, item_end, ind_begin,
    ind_end)`, which both index-apply variants call on a disposable copy of
    the sorted index. Boost's source is not part of this model; this is the
    cycle-following algorithm Boost documents (after Raymond Chen's "apply a
    permutation in place"), proved against the gather `Apply`: afterwards
    `item[k]` holds the item that sat at `ind[k]`, and the permutation that
    drove it has been overwritten with the identity. */
module ApplyPermutation {
  import opened Sequences
  import opened Permutations

  /** The positions whose label is not yet reset to themselves. */
  ghost function Unsettled(ind: seq<nat>): set<nat>
  {
    set k | 0 <= k < |ind| && ind[k] != k
  }

  lemma SettlingShrinks(ind: seq<nat>, c: nat)
    requires c < |ind| && ind[c] != c
    ensures Unsettled(ind[c := c]) < Unsettled(ind)
  {
    assert c in Unsettled(ind) - Unsettled(ind[c := c]);
  }

  /** Slot k is either finished (label reset, item from `ind[k]` in place) or
      untouched (label and item as on entry). `src[k]` is the entry position
      of the item now at slot k. */
  ghost predicate Tracked(k: nat, ix: seq<nat>, src: seq<nat>, ind: seq<nat>)
    requires k < |ix| && k < |src| && k < |ind|
  {
    (ix[k] == k && src[k] == ind[k]) || (ix[k] == ind[k] && src[k] == k)
  }

  /** What holds of the working state between cycles, before position i. */
  ghost predicate Between<T>(items: seq<T>, ind: seq<nat>, i: nat, cur: seq<T>, ix: seq<nat>, src: seq<nat>)
  {
    var n := |items|;
    && |ind| == n && InRange(ind, n) && Distinct(ind) && i <= n
    && |cur| == n && |ix| == n && |src| == n
    && multiset(cur) == multiset(items) && Gathers(cur, items, src)
    && (forall k :: 0 <= k < n ==> Tracked(k, ix, src, ind))
    && (forall k :: 0 <= k < i ==> ix[k] == k)
    && (forall k :: 0 <= k < n && ix[ind[k]] == ind[k] ==> ix[k] == k)
  }

  /** What holds while following the cycle through i, standing at `current`,
      which holds the item that started at i. */
  ghost predicate Following<T>(items: seq<T>, ind: seq<nat>, i: nat, current: nat,
                               cur: seq<T>, ix: seq<nat>, src: seq<nat>)
  {
    var n := |items|;
    && |ind| == n && InRange(ind, n) && Distinct(ind) && i < n && current < n
    && |cur| == n && |ix| == n && |src| == n
    && multiset(cur) == multiset(items) && Gathers(cur, items, src)
    && (forall k :: 0 <= k < n && k != current ==> Tracked(k, ix, src, ind))
    && (|| (ix[current] == ind[current] && src[current] == i && ix[current] != current)
        || (current == i && ix[i] == i && src[i] == ind[i]))
    && (current == i && ix[i] == i ==> forall k :: 0 <= k < n && ind[k] == i ==> ix[k] == k)
    && (forall k :: 0 <= k < i ==> ix[k] == k)
    && (current != i ==> ix[i] == i)
    && (current != i ==> forall k :: 0 <= k < n && ind[k] == current ==> ix[k] == k)
    && (forall k :: 0 <= k < n && ix[ind[k]] == ind[k] && ind[k] != i ==> ix[k] == k)
  }

  lemma StartCycle<T>(items: seq<T>, ind: seq<nat>, i: nat, cur: seq<T>, ix: seq<nat>, src: seq<nat>)
    requires Between(items, ind, i, cur, ix, src) && i < |items|
    ensures Following(items, ind, i, i, cur, ix, src)
  {
    assert Tracked(i, ix, src, ind);
  }

  /** One swap along the cycle: the item that started at i moves on to
      `next`, and `current` receives its final item and is settled. */
  lemma CycleStep<T>(items: seq<T>, ind: seq<nat>, i: nat, current: nat,
                     cur: seq<T>, ix: seq<nat>, src: seq<nat>)
    requires Following(items, ind, i, current, cur, ix, src) && i != ix[current]
    ensures ix[current] < |items| && ix[current] != current
    ensures Following(items, ind, i, ix[current], Swap(cur, current, ix[current]),
                      ix[current := current], Swap(src, current, ix[current]))
    ensures Unsettled(ix[current := current]) < Unsettled(ix)
  {
    var n := |items|;
    var next := ix[current];
    assert next == ind[current] && next != current;
    assert ix[next] != next;
    assert Tracked(next, ix, src, ind);
    assert ix[next] == ind[next] && src[next] == next;
    var ix' := ix[current := current];
    var src' := Swap(src, current, next);
    var cur' := Swap(cur, current, next);
    forall k | 0 <= k < n && k != next
      ensures Tracked(k, ix', src', ind)
    {
      if k != current {
        assert Tracked(k, ix, src, ind);
      }
    }
    forall k | 0 <= k < n && ind[k] == next
      ensures ix'[k] == k
    {
      assert ind[k] == ind[current];
      assert k == current;
    }
    forall k | 0 <= k < n && ix'[ind[k]] == ind[k] && ind[k] != i
      ensures ix'[k] == k
    {
      if ind[k] == current {
        assert current != i;
      }
    }
    SettlingShrinks(ix, current);
  }

  /** The cycle closes when the label at `current` is i: the item that
      started at i belongs there. */
  lemma CloseCycle<T>(items: seq<T>, ind: seq<nat>, i: nat, current: nat,
                      cur: seq<T>, ix: seq<nat>, src: seq<nat>)
    requires Following(items, ind, i, current, cur, ix, src) && i == ix[current]
    ensures Between(items, ind, i + 1, cur, ix[current := current], src)
  {
    var n := |items|;
    var ix' := ix[current := current];
    forall k | 0 <= k < n
      ensures Tracked(k, ix', src, ind)
    {
      if k != current {
        assert Tracked(k, ix, src, ind);
      }
    }
    forall k | 0 <= k < n && ix'[ind[k]] == ind[k]
      ensures ix'[k] == k
    {
      if ind[k] == i {
        if ix[current] == ind[current] {
          assert ind[k] == ind[current];
        }
      } else if ind[k] == current {
        assert current != i;
      }
    }
  }

  /** Applies `ind` to `items` in place by swapping along each cycle and
      resetting every visited label, so the permutation is consumed. */
  method Apply<T>(items: seq<T>, ind: seq<nat>) returns (items': seq<T>, ind': seq<nat>)
    requires |items| == |ind| && IsPermutation(ind)
    ensures Gathers(items', items, ind)
    ensures multiset(items') == multiset(items)
    ensures ind' == Iota(|ind|)
  {
    PermutationInRangeDistinct(ind);
    var n := |items|;
    items', ind' := items, ind;
    ghost var src := Iota(n);
    for i := 0 to n
      invariant Between(items, ind, i, items', ind', src)
    {
      var current: nat := i;
      StartCycle(items, ind, i, items', ind', src);
      while i != ind'[current]
        invariant Following(items, ind, i, current, items', ind', src)
        decreases Unsettled(ind')
      {
        CycleStep(items, ind, i, current, items', ind', src);
        var next := ind'[current];
        items' := Swap(items', current, next);
        src := Swap(src, current, next);
        ind' := ind'[current := current];
        current := next;
      }
      CloseCycle(items, ind, i, current, items', ind', src);
      ind' := ind'[current := current];
    }
    forall k | 0 <= k < n
      ensures src[k] == ind[k]
    {
      assert Tracked(k, ind', src, ind);
    }
  }
}
