/** Generic sequence helpers shared by the whole model: filtering and flattening. */
module Seqs {

  /** The elements of `s` that satisfy `keep`, in their original order (JavaScript's `Array.filter`). */
  function Filter<T>(keep: T -> bool, s: seq<T>): (r: seq<T>)
    ensures |r| <= |s|
  {
    if |s| == 0 then []
    else Filter(keep, s[..|s| - 1]) + (if keep(s[|s| - 1]) then [s[|s| - 1]] else [])
  }

  /** What a filter keeps: only elements of the input that pass, and every element that passes. */
  lemma {:induction false} FilterMembers<T>(keep: T -> bool, s: seq<T>)
    ensures forall i :: 0 <= i < |Filter(keep, s)| ==> keep(Filter(keep, s)[i]) && Filter(keep, s)[i] in s
    ensures forall i :: 0 <= i < |s| && keep(s[i]) ==> s[i] in Filter(keep, s)
    decreases |s|
  {
    if |s| > 0 {
      var init := s[..|s| - 1];
      FilterMembers(keep, init);
      assert s == init + [s[|s| - 1]];
      var r := Filter(keep, s);
      var ri := Filter(keep, init);
      assert r == ri + (if keep(s[|s| - 1]) then [s[|s| - 1]] else []);
      forall i | 0 <= i < |r|
        ensures keep(r[i]) && r[i] in s
      {
        if i < |ri| {
          assert r[i] == ri[i];
        }
      }
      forall i | 0 <= i < |s| && keep(s[i])
        ensures s[i] in r
      {
        if i < |init| {
          assert s[i] == init[i];
        }
      }
    }
  }

  /** A permutation has the same elements. */
  lemma PermutationMembers<T>(a: seq<T>, b: seq<T>)
    requires multiset(a) == multiset(b)
    ensures forall i :: 0 <= i < |a| ==> a[i] in b
  {
    forall i | 0 <= i < |a|
      ensures a[i] in b
    {
      assert a[i] in multiset(a);
    }
  }

  lemma FilterAppend<T>(keep: T -> bool, a: seq<T>, b: seq<T>)
    ensures Filter(keep, a + b) == Filter(keep, a) + Filter(keep, b)
    decreases |b|
  {
    if |b| == 0 {
      assert a + b == a;
    } else {
      assert (a + b)[..|a + b| - 1] == a + b[..|b| - 1];
      FilterAppend(keep, a, b[..|b| - 1]);
    }
  }

  /** Filtering keeps every copy of a kept value and no copy of a dropped one. */
  lemma {:induction false} FilterCount<T>(keep: T -> bool, s: seq<T>, x: T)
    ensures multiset(Filter(keep, s))[x] == if keep(x) then multiset(s)[x] else 0
    decreases |s|
  {
    if |s| > 0 {
      var init := s[..|s| - 1];
      assert s == init + [s[|s| - 1]];
      FilterCount(keep, init, x);
    }
  }

  /** Filtering commutes with permutation: equal multisets stay equal after filtering. */
  lemma FilterPermutation<T(!new)>(keep: T -> bool, a: seq<T>, b: seq<T>)
    requires multiset(a) == multiset(b)
    ensures multiset(Filter(keep, a)) == multiset(Filter(keep, b))
  {
    var fa, fb := multiset(Filter(keep, a)), multiset(Filter(keep, b));
    forall x
      ensures fa[x] == fb[x]
    {
      FilterCount(keep, a, x);
      FilterCount(keep, b, x);
    }
    assert fa == fb;
  }

  /** Filtering twice with the same predicate changes nothing. */
  lemma {:induction false} FilterIdempotent<T>(keep: T -> bool, s: seq<T>)
    ensures Filter(keep, Filter(keep, s)) == Filter(keep, s)
    decreases |s|
  {
    if |s| > 0 {
      var init := s[..|s| - 1];
      FilterIdempotent(keep, init);
      FilterAppend(keep, Filter(keep, init), if keep(s[|s| - 1]) then [s[|s| - 1]] else []);
      if keep(s[|s| - 1]) {
        assert Filter(keep, [s[|s| - 1]]) == Filter(keep, [])+ [s[|s| - 1]];
      } else {
        assert Filter(keep, []) == [];
      }
    }
  }

  /** A second filter whose survivors all pass the first sees through the first. */
  lemma {:induction false} FilterFilterImplied<T>(p: T -> bool, q: T -> bool, s: seq<T>)
    requires forall x :: p(x) ==> q(x)
    ensures Filter(p, Filter(q, s)) == Filter(p, s)
    decreases |s|
  {
    if |s| > 0 {
      var last := s[|s| - 1];
      FilterFilterImplied(p, q, s[..|s| - 1]);
      FilterAppend(p, Filter(q, s[..|s| - 1]), if q(last) then [last] else []);
      if q(last) {
        assert Filter(p, [last]) == Filter(p, [last][..0]) + (if p(last) then [last] else []);
      }
    }
  }

  /** A second filter that nothing passing the first survives leaves nothing. */
  lemma {:induction false} FilterFilterDisjoint<T>(p: T -> bool, q: T -> bool, s: seq<T>)
    requires forall x :: p(x) ==> !q(x)
    ensures Filter(p, Filter(q, s)) == []
  {
    var f := Filter(q, s);
    FilterMembers(q, s);
    FilterNone(p, f);
  }

  /** Concatenation of a sequence of sequences (JavaScript's `Array.flat`). */
  function Flatten<T>(ss: seq<seq<T>>): seq<T>
  {
    if |ss| == 0 then [] else ss[0] + Flatten(ss[1..])
  }

  lemma FlattenAppend<T>(a: seq<seq<T>>, b: seq<seq<T>>)
    ensures Flatten(a + b) == Flatten(a) + Flatten(b)
  {
    if |a| == 0 {
      assert a + b == b;
    } else {
      assert (a + b)[1..] == a[1..] + b;
      FlattenAppend(a[1..], b);
    }
  }

  /** The elementwise image of `s` under `f` (JavaScript's `Array.map`). */
  function Map<A, B>(f: A -> B, s: seq<A>): (r: seq<B>)
    ensures |r| == |s|
    ensures forall i :: 0 <= i < |s| ==> r[i] == f(s[i])
  {
    seq(|s|, i requires 0 <= i < |s| => f(s[i]))
  }

  /** Filtering keeps a sequence whole when every element passes. */
  lemma {:induction false} FilterAll<T>(keep: T -> bool, s: seq<T>)
    requires forall i :: 0 <= i < |s| ==> keep(s[i])
    ensures Filter(keep, s) == s
    decreases |s|
  {
    if |s| > 0 {
      var init := s[..|s| - 1];
      FilterAll(keep, init);
      assert Filter(keep, s) == init + [s[|s| - 1]];
    }
  }

  /** Filtering empties a sequence when no element passes. */
  lemma {:induction false} FilterNone<T>(keep: T -> bool, s: seq<T>)
    requires forall i :: 0 <= i < |s| ==> !keep(s[i])
    ensures Filter(keep, s) == []
    decreases |s|
  {
    if |s| > 0 {
      FilterNone(keep, s[..|s| - 1]);
    }
  }

  /** Filtering a concatenation of blocks filters each block in place. */
  lemma {:induction false} FilterFlatten<T>(keep: T -> bool, ss: seq<seq<T>>)
    ensures Filter(keep, Flatten(ss)) == Flatten(Map((s: seq<T>) => Filter(keep, s), ss))
    decreases |ss|
  {
    if |ss| > 0 {
      FilterAppend(keep, ss[0], Flatten(ss[1..]));
      FilterFlatten(keep, ss[1..]);
      assert Map((s: seq<T>) => Filter(keep, s), ss)[1..] == Map((s: seq<T>) => Filter(keep, s), ss[1..]);
    }
  }

  /** Permuting each block permutes the concatenation. */
  lemma {:induction false} FlattenPermutation<T>(a: seq<seq<T>>, b: seq<seq<T>>)
    requires |a| == |b|
    requires forall i :: 0 <= i < |a| ==> multiset(a[i]) == multiset(b[i])
    ensures multiset(Flatten(a)) == multiset(Flatten(b))
    decreases |a|
  {
    if |a| > 0 {
      FlattenPermutation(a[1..], b[1..]);
    }
  }
}
