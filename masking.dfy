/** Boolean-mask selection, the meaning of numpy's `xs[mask]` and of a filtering loop or
    list comprehension: the entries of `xs` at exactly the positions where `mask` holds,
    in their original order. */
module Masking {

  /** Number of positions a mask keeps. */
  function Count(mask: seq<bool>): (n: nat)
    ensures n <= |mask|
  {
    if mask == [] then 0
    else Count(mask[..|mask| - 1]) + (if mask[|mask| - 1] then 1 else 0)
  }

  /** `xs[mask]` */
  function Select<T>(xs: seq<T>, mask: seq<bool>): (r: seq<T>)
    requires |xs| == |mask|
    ensures |r| == Count(mask)
  {
    if xs == [] then []
    else
      Select(xs[..|xs| - 1], mask[..|mask| - 1])
      + (if mask[|mask| - 1] then [xs[|xs| - 1]] else [])
  }

  /** Index of the `i`-th kept position (counting from 0). */
  function Position(mask: seq<bool>, i: nat): (k: nat)
    requires i < Count(mask)
    ensures k < |mask| && mask[k]
    ensures Count(mask[..k]) == i
  {
    var n := |mask| - 1;
    if mask[n] && i == Count(mask[..n]) then n
    else
      var k := Position(mask[..n], i);
      assert mask[..n][..k] == mask[..k];
      k
  }

  /** Extending a selection by one entry, as a filtering loop does. */
  lemma SelectSnoc<T>(xs: seq<T>, mask: seq<bool>, x: T, keep: bool)
    requires |xs| == |mask|
    ensures Select(xs + [x], mask + [keep]) == Select(xs, mask) + (if keep then [x] else [])
  {
    assert (xs + [x])[..|xs|] == xs;
    assert (mask + [keep])[..|mask|] == mask;
  }

  lemma {:induction false} CountPrefixMonotone(mask: seq<bool>, j: nat, k: nat)
    requires j <= k <= |mask|
    ensures Count(mask[..j]) <= Count(mask[..k])
    decreases k - j
  {
    if j < k {
      CountPrefixMonotone(mask, j, k - 1);
      assert mask[..k][..k - 1] == mask[..k - 1];
    }
  }

  lemma CountStep(mask: seq<bool>, k: nat)
    requires k < |mask|
    ensures Count(mask[..k + 1]) == Count(mask[..k]) + (if mask[k] then 1 else 0)
  {
    assert mask[..k + 1][..k] == mask[..k];
  }

  /** The `i`-th selected entry is the entry at the `i`-th kept position. */
  lemma {:induction false} SelectAt<T>(xs: seq<T>, mask: seq<bool>, i: nat)
    requires |xs| == |mask| && i < Count(mask)
    ensures Select(xs, mask)[i] == xs[Position(mask, i)]
  {
    var n := |mask| - 1;
    if !(mask[n] && i == Count(mask[..n])) {
      SelectAt(xs[..n], mask[..n], i);
    }
  }

  /** Kept positions come in increasing order, so the selection preserves order. */
  lemma PositionIncreasing(mask: seq<bool>, i: nat, j: nat)
    requires i < j < Count(mask)
    ensures Position(mask, i) < Position(mask, j)
  {
    var pi, pj := Position(mask, i), Position(mask, j);
    if pj <= pi {
      CountPrefixMonotone(mask, pj, pi);
      assert false;
    }
  }

  /** Every kept position is selected: it is the `Count(mask[..k])`-th one. */
  lemma PositionOfKept(mask: seq<bool>, k: nat)
    requires k < |mask| && mask[k]
    ensures Count(mask[..k]) < Count(mask)
    ensures Position(mask, Count(mask[..k])) == k
  {
    CountStep(mask, k);
    CountPrefixMonotone(mask, k + 1, |mask|);
    assert mask[..|mask|] == mask;
    var i := Count(mask[..k]);
    var p := Position(mask, i);
    if p < k {
      CountStep(mask, p);
      CountPrefixMonotone(mask, p + 1, k);
      assert false;
    } else if k < p {
      CountPrefixMonotone(mask, k + 1, p);
      assert false;
    }
  }

  /** Membership in a selection: `x` was selected exactly when it sits at a kept position. */
  lemma SelectMember<T>(xs: seq<T>, mask: seq<bool>, x: T)
    requires |xs| == |mask|
    ensures x in Select(xs, mask) <==> exists k | 0 <= k < |xs| :: mask[k] && xs[k] == x
  {
    var r := Select(xs, mask);
    if x in r {
      var i :| 0 <= i < |r| && r[i] == x;
      SelectAt(xs, mask, i);
    }
    if k :| 0 <= k < |xs| && mask[k] && xs[k] == x {
      PositionOfKept(mask, k);
      SelectAt(xs, mask, Count(mask[..k]));
    }
  }

  /** A mask that keeps nothing selects nothing. */
  lemma {:induction false} SelectNone<T>(xs: seq<T>, mask: seq<bool>)
    requires |xs| == |mask|
    requires forall k | 0 <= k < |mask| :: !mask[k]
    ensures Select(xs, mask) == []
  {
    if xs != [] {
      SelectNone(xs[..|xs| - 1], mask[..|mask| - 1]);
    }
  }
}
