/** The in-place Fisher–Yates shuffle of the display screen (`shuffle` in
    `src/components/display-board.tsx`).  `Math.random` is abstracted as an infinite stream of
    draws: the pass at position `i` takes the next draw `d` and swaps with `d % (i + 1)`, which
    ranges over exactly the indices `0..i` that `Math.floor(Math.random() * (i + 1))` can yield. */
module Shuffle {

  /** The random source: draw number `k` of a session is `draws(k)`. */
  type Draws = nat -> nat

  /** The swap partner chosen at position `i` from draw number `k`. */
  function Partner(draws: Draws, k: nat, i: nat): (j: nat)
    ensures j <= i
  {
    draws(k) % (i + 1)
  }

  function Swap<T>(a: seq<T>, i: nat, j: nat): (r: seq<T>)
    requires i < |a| && j < |a|
    ensures |r| == |a|
  {
    a[i := a[j]][j := a[i]]
  }

  /** A swap exchanges two positions, keeps every other one, and so only permutes. */
  lemma SwapPermutes<T>(a: seq<T>, i: nat, j: nat)
    requires i < |a| && j < |a|
    ensures var r := Swap(a, i, j);
      && r[i] == a[j] && r[j] == a[i]
      && (forall k :: 0 <= k < |a| && k != i && k != j ==> r[k] == a[k])
      && multiset(r) == multiset(a)
  {
  }

  /** The passes at positions `i, i-1, ..., 1`, the pass at `i` consuming draw number `k`. */
  function Passes<T>(a: seq<T>, i: nat, draws: Draws, k: nat): (r: seq<T>)
    requires i < |a|
    ensures |r| == |a|
    decreases i
  {
    if i == 0 then a
    else Passes(Swap(a, i, Partner(draws, k, i)), i - 1, draws, k + 1)
  }

  /** Every pass is a swap, so the passes together only permute. */
  lemma {:induction false} PassesPermute<T>(a: seq<T>, i: nat, draws: Draws, k: nat)
    requires i < |a|
    ensures multiset(Passes(a, i, draws, k)) == multiset(a)
    decreases i
  {
    if i > 0 {
      SwapPermutes(a, i, Partner(draws, k, i));
      PassesPermute(Swap(a, i, Partner(draws, k, i)), i - 1, draws, k + 1);
    }
  }

  /** How many draws a shuffle of `n` elements consumes: one per position from `n-1` down to 1. */
  function DrawsUsed(n: nat): nat
  {
    if n == 0 then 0 else n - 1
  }

  /** The result of shuffling `a` with the draws starting at number `k`: a permutation of `a`,
      and `a` itself when it has fewer than two elements. */
  function Shuffled<T>(a: seq<T>, draws: Draws, k: nat): (r: seq<T>)
    ensures |r| == |a| && multiset(r) == multiset(a)
    ensures |a| <= 1 ==> r == a
  {
    if |a| == 0 then a
    else
      PassesPermute(a, |a| - 1, draws, k);
      Passes(a, |a| - 1, draws, k)
  }

  /** The shuffle as the source writes it: copy the input, then walk `i` from the last index down
      to 1, swapping position `i` with a partner `j` in `0..i`.  The input, a value, is never
      changed; the copy comes back as a permutation of it. */
  method ShuffleCopy<T>(a: seq<T>, draws: Draws, k: nat) returns (r: seq<T>, next: nat)
    ensures r == Shuffled(a, draws, k)
    ensures multiset(r) == multiset(a)
    ensures next == k + DrawsUsed(|a|)
  {
    r := a;
    next := k;
    if |r| == 0 {
      return;
    }
    var i := |r| - 1;
    while i > 0
      invariant 0 <= i < |r| == |a|
      invariant next == k + (|a| - 1 - i)
      invariant Passes(r, i, draws, next) == Shuffled(a, draws, k)
    {
      var j := Partner(draws, next, i);
      assert 0 <= j <= i;
      r := Swap(r, i, j);
      i := i - 1;
      next := next + 1;
    }
  }
}
