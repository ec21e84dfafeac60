/** The photo library as an ordered map from category name to photos.  JavaScript objects keep
    string keys in insertion order; the model makes that order explicit as a sequence of entries
    with distinct keys. */
module Groups {
  import opened Wrappers
  import opened Data
  import Seqs

  function Keys(g: PhotoGroups): (ks: seq<string>)
    ensures |ks| == |g|
    ensures forall i :: 0 <= i < |g| ==> ks[i] == g[i].0
  {
    seq(|g|, i requires 0 <= i < |g| => g[i].0)
  }

  predicate HasKey(g: PhotoGroups, k: string)
  {
    k in Keys(g)
  }

  predicate DistinctKeys(g: PhotoGroups)
  {
    forall i, j :: 0 <= i < j < |g| ==> g[i].0 != g[j].0
  }

  /** The position of key `k` (the first, should keys repeat), or -1. */
  function IndexOf(g: PhotoGroups, k: string): (i: int)
    ensures -1 <= i < |g|
    ensures i == -1 <==> !HasKey(g, k)
    ensures i >= 0 ==> g[i].0 == k && forall j :: 0 <= j < i ==> g[j].0 != k
  {
    if |g| == 0 then -1
    else if g[0].0 == k then 0
    else
      var i := IndexOf(g[1..], k);
      assert Keys(g) == [g[0].0] + Keys(g[1..]);
      if i == -1 then -1 else i + 1
  }

  lemma IndexOfDistinct(g: PhotoGroups, i: int)
    requires DistinctKeys(g) && 0 <= i < |g|
    ensures IndexOf(g, g[i].0) == i
  {
  }

  /** `groups[k]`: the photos filed under `k`, if `k` is a key. */
  function Get(g: PhotoGroups, k: string): (r: Option<seq<Photo>>)
    ensures r.Some? <==> HasKey(g, k)
  {
    var i := IndexOf(g, k);
    if i == -1 then None else Some(g[i].1)
  }

  /** Every photo of the library, category after category (`Object.values(groups).flat()`). */
  function AllPhotos(g: PhotoGroups): seq<Photo>
  {
    Seqs.Flatten(Values(g))
  }

  /** The photo lists of the categories, in category order (`Object.values(groups)`). */
  function Values(g: PhotoGroups): (vs: seq<seq<Photo>>)
    ensures |vs| == |g|
    ensures forall i :: 0 <= i < |g| ==> vs[i] == g[i].1
  {
    seq(|g|, i requires 0 <= i < |g| => g[i].1)
  }

  /** The number of photos in the library. */
  function Total(g: PhotoGroups): nat
  {
    if |g| == 0 then 0 else |g[0].1| + Total(g[1..])
  }

  /** `{ ...g, [k]: [...(g[k] || []), p] }`: `p` goes at the end of category `k`; an existing
      category keeps its place, a new one is added last. */
  function AppendPhoto(g: PhotoGroups, k: string, p: Photo): (r: PhotoGroups)
    ensures |r| == if HasKey(g, k) then |g| else |g| + 1
  {
    var i := IndexOf(g, k);
    if i == -1 then g + [(k, [p])] else g[i := (k, g[i].1 + [p])]
  }

  /** Appending keeps the keys and their order, adding `k` last when it is new, and so keeps
      them distinct. */
  lemma AppendPhotoKeys(g: PhotoGroups, k: string, p: Photo)
    ensures Keys(AppendPhoto(g, k, p)) == if HasKey(g, k) then Keys(g) else Keys(g) + [k]
    ensures DistinctKeys(g) ==> DistinctKeys(AppendPhoto(g, k, p))
  {
    var r := AppendPhoto(g, k, p);
    if HasKey(g, k) {
      assert Keys(r) == Keys(g);
    } else {
      assert Keys(r) == Keys(g) + [k];
    }
  }

  /** Appending changes category `k` alone, and only by adding `p` at its end. */
  lemma AppendPhotoGet(g: PhotoGroups, k: string, p: Photo, k': string)
    requires DistinctKeys(g)
    ensures Get(AppendPhoto(g, k, p), k') ==
      if k' == k then Some(Get(g, k).GetOr([]) + [p]) else Get(g, k')
  {
    var r := AppendPhoto(g, k, p);
    AppendPhotoKeys(g, k, p);
    var i := IndexOf(g, k);
    if i == -1 {
      KeysAppend(g, [(k, [p])]);
      if k' == k {
        assert r == g + [(k, [p])];
        assert IndexOf(r, k) == |g| by {
          IndexOfAppendNew(g, k, [p]);
        }
        assert Get(g, k).GetOr([]) + [p] == [p];
        assert Get(r, k) == Some([p]);
      } else {
        IndexOfPrefix(g, [(k, [p])], k');
      }
    } else {
      IndexOfDistinct(r, i);
      if k' != k {
        IndexOfSameKeys(g, r, k');
      }
    }
  }

  lemma {:induction false} IndexOfAppendNew(g: PhotoGroups, k: string, v: seq<Photo>)
    requires !HasKey(g, k)
    ensures IndexOf(g + [(k, v)], k) == |g|
    decreases |g|
  {
    if |g| == 0 {
    } else {
      assert Keys(g) == [g[0].0] + Keys(g[1..]);
      assert (g + [(k, v)])[1..] == g[1..] + [(k, v)];
      IndexOfAppendNew(g[1..], k, v);
    }
  }

  lemma {:induction false} IndexOfPrefix(g: PhotoGroups, e: PhotoGroups, k: string)
    requires !HasKey(e, k)
    ensures IndexOf(g + e, k) == IndexOf(g, k)
    decreases |g|
  {
    if |g| == 0 {
      assert g + e == e;
    } else {
      assert (g + e)[1..] == g[1..] + e;
      IndexOfPrefix(g[1..], e, k);
    }
  }

  /** Appending adds exactly one photo to the library. */
  lemma AppendPhotoTotal(g: PhotoGroups, k: string, p: Photo)
    ensures Total(AppendPhoto(g, k, p)) == Total(g) + 1
  {
    var i := IndexOf(g, k);
    if i == -1 {
      TotalAppend(g, (k, [p]));
    } else {
      TotalUpdate(g, i, g[i].1 + [p]);
    }
  }

  /** The index of a key depends only on the sequence of keys. */
  lemma {:induction false} IndexOfSameKeys(g: PhotoGroups, h: PhotoGroups, k: string)
    requires Keys(g) == Keys(h)
    ensures IndexOf(g, k) == IndexOf(h, k)
    decreases |g|
  {
    if |g| > 0 {
      assert g[0].0 == Keys(g)[0] == Keys(h)[0] == h[0].0;
      assert Keys(g[1..]) == Keys(g)[1..] == Keys(h)[1..] == Keys(h[1..]);
      IndexOfSameKeys(g[1..], h[1..], k);
    }
  }

  lemma {:induction false} TotalAppend(g: PhotoGroups, e: (string, seq<Photo>))
    ensures Total(g + [e]) == Total(g) + |e.1|
    decreases |g|
  {
    if |g| == 0 {
      assert (g + [e])[1..] == [];
    } else {
      assert (g + [e])[1..] == g[1..] + [e];
      TotalAppend(g[1..], e);
    }
  }

  lemma {:induction false} TotalUpdate(g: PhotoGroups, i: nat, v: seq<Photo>)
    requires i < |g|
    ensures Total(g[i := (g[i].0, v)]) == Total(g) - |g[i].1| + |v|
    decreases i
  {
    if i > 0 {
      assert g[i := (g[i].0, v)][1..] == g[1..][i - 1 := (g[i].0, v)];
      TotalUpdate(g[1..], i - 1, v);
    }
  }

  /** `delete groups[k]`: the entries other than `k`, in their order. */
  function RemoveKey(g: PhotoGroups, k: string): (r: PhotoGroups)
    ensures |r| <= |g|
  {
    Seqs.Filter((e: (string, seq<Photo>)) => e.0 != k, g)
  }

  /** Removal keeps exactly the entries whose key is not `k`, photos included. */
  lemma RemoveKeyEntries(g: PhotoGroups, k: string)
    ensures var r := RemoveKey(g, k);
      && (forall i :: 0 <= i < |r| ==> r[i].0 != k && r[i] in g)
      && (forall i :: 0 <= i < |g| && g[i].0 != k ==> g[i] in r)
  {
    Seqs.FilterMembers((e: (string, seq<Photo>)) => e.0 != k, g);
  }

  lemma {:induction false} RemoveKeyKeys(g: PhotoGroups, k: string)
    ensures Keys(RemoveKey(g, k)) == Seqs.Filter((s: string) => s != k, Keys(g))
    decreases |g|
  {
    if |g| > 0 {
      var init := g[..|g| - 1];
      RemoveKeyKeys(init, k);
      assert Keys(g) == Keys(init) + [g[|g| - 1].0];
      assert Keys(g)[..|g| - 1] == Keys(init);
      KeysAppend(RemoveKey(init, k), if g[|g| - 1].0 != k then [g[|g| - 1]] else []);
    }
  }

  lemma KeysAppend(a: PhotoGroups, b: PhotoGroups)
    ensures Keys(a + b) == Keys(a) + Keys(b)
  {
  }

  /** Removing a key from a map with distinct keys leaves the keys distinct. */
  lemma {:induction false} RemoveKeyDistinct(g: PhotoGroups, k: string)
    requires DistinctKeys(g)
    ensures DistinctKeys(RemoveKey(g, k))
    decreases |g|
  {
    if |g| > 0 {
      var init := g[..|g| - 1];
      RemoveKeyDistinct(init, k);
      var last := g[|g| - 1];
      if last.0 != k {
        var r := RemoveKey(init, k);
        RemoveKeyEntries(init, k);
        forall i | 0 <= i < |r|
          ensures r[i].0 != last.0
        {
          var j :| 0 <= j < |init| && init[j] == r[i];
        }
      }
    }
  }

  /** The entry of `from` renamed to `to` in place, with the same photos; unchanged when `from`
      is not a key. */
  function RenameKey(g: PhotoGroups, from: string, to: string): (r: PhotoGroups)
    ensures |r| == |g|
    ensures HasKey(g, from) ==> Keys(r) == Keys(g)[IndexOf(g, from) := to]
    ensures forall i :: 0 <= i < |g| ==> r[i].1 == g[i].1
    ensures !HasKey(g, from) ==> r == g
  {
    var i := IndexOf(g, from);
    if i == -1 then g else g[i := (to, g[i].1)]
  }

  lemma RenameKeyDistinct(g: PhotoGroups, from: string, to: string)
    requires DistinctKeys(g)
    requires !HasKey(g, to)
    ensures DistinctKeys(RenameKey(g, from, to))
  {
  }

  /** Every category with the photos carrying `id` removed; no category is dropped. */
  function RemovePhotoId(g: PhotoGroups, id: int): (r: PhotoGroups)
    ensures Keys(r) == Keys(g)
    ensures forall i :: 0 <= i < |g| ==> r[i].1 == Seqs.Filter((p: Photo) => p.id != id, g[i].1)
  {
    seq(|g|, i requires 0 <= i < |g| => (g[i].0, Seqs.Filter((p: Photo) => p.id != id, g[i].1)))
  }

  /** Looking a category up after the removal gives its old photos without those carrying `id`. */
  lemma RemovePhotoIdGet(g: PhotoGroups, id: int, k: string)
    ensures Get(RemovePhotoId(g, id), k) ==
      if HasKey(g, k) then Some(Seqs.Filter((p: Photo) => p.id != id, Get(g, k).value)) else None
  {
    IndexOfSameKeys(g, RemovePhotoId(g, id), k);
  }

  /** The photos of `pairs` filed under `k`, in order. */
  function PhotosUnder(pairs: seq<(string, Photo)>, k: string): seq<Photo>
  {
    if |pairs| == 0 then []
    else PhotosUnder(pairs[..|pairs| - 1], k) + (if pairs[|pairs| - 1].0 == k then [pairs[|pairs| - 1].1] else [])
  }

  /** Files each photo under its key, in order: a category is created, last, on the first photo
      filed under it, and each later photo is appended to it. */
  function GroupBy(pairs: seq<(string, Photo)>): (r: PhotoGroups)
    ensures DistinctKeys(r)
  {
    if |pairs| == 0 then []
    else
      var last := pairs[|pairs| - 1];
      var g := GroupBy(pairs[..|pairs| - 1]);
      AppendPhotoKeys(g, last.0, last.1);
      AppendPhoto(g, last.0, last.1)
  }

  /** Grouping loses nothing and invents nothing: each key holds exactly the photos filed under
      it, in their original order, and a key is present exactly when some photo is filed under it. */
  lemma {:induction false} GroupByGet(pairs: seq<(string, Photo)>, k: string)
    ensures Get(GroupBy(pairs), k) == (if PhotosUnder(pairs, k) == [] then None else Some(PhotosUnder(pairs, k)))
    decreases |pairs|
  {
    if |pairs| > 0 {
      var init := pairs[..|pairs| - 1];
      var last := pairs[|pairs| - 1];
      GroupByGet(init, k);
      var g := GroupBy(init);
      AppendPhotoGet(g, last.0, last.1, k);
      assert pairs[..|pairs| - 1] == init;
      if last.0 == k {
        assert Get(g, k).GetOr([]) == PhotosUnder(init, k);
        assert PhotosUnder(pairs, k) == PhotosUnder(init, k) + [last.1];
      } else {
        assert PhotosUnder(pairs, k) == PhotosUnder(init, k);
      }
    }
  }

  /** The names of the pairs, in order. */
  function Names(pairs: seq<(string, Photo)>): (ns: seq<string>)
    ensures |ns| == |pairs|
    ensures forall i :: 0 <= i < |pairs| ==> ns[i] == pairs[i].0
  {
    seq(|pairs|, i requires 0 <= i < |pairs| => pairs[i].0)
  }

  /** The distinct names of `names` in order of first occurrence: scanning left to right, a
      name is added the first time it is met. */
  function FirstOccurrences(names: seq<string>): seq<string>
    decreases |names|
  {
    if |names| == 0 then []
    else
      var seen := FirstOccurrences(names[..|names| - 1]);
      var n := names[|names| - 1];
      if n in seen then seen else seen + [n]
  }

  /** The first occurrences are pairwise distinct and are exactly the names that occur. */
  lemma {:induction false} FirstOccurrencesSpec(names: seq<string>)
    ensures forall i, j :: 0 <= i < j < |FirstOccurrences(names)| ==>
      FirstOccurrences(names)[i] != FirstOccurrences(names)[j]
    ensures forall x :: x in FirstOccurrences(names) <==> x in names
    decreases |names|
  {
    if |names| > 0 {
      var init := names[..|names| - 1];
      var seen := FirstOccurrences(init);
      var n := names[|names| - 1];
      FirstOccurrencesSpec(init);
      assert names == init + [n];
      if n !in seen {
        var r := seen + [n];
        forall i, j | 0 <= i < j < |r|
          ensures r[i] != r[j]
        {
          assert r[i] == seen[i];
          if j < |seen| {
            assert r[j] == seen[j];
          } else {
            assert r[j] == n && seen[i] in seen;
          }
        }
      }
    }
  }

  /** Grouping creates the categories in the order their names first occur, which is the key
      order every reader of the grouped library sees. */
  lemma {:induction false} GroupByKeys(pairs: seq<(string, Photo)>)
    ensures Keys(GroupBy(pairs)) == FirstOccurrences(Names(pairs))
    decreases |pairs|
  {
    if |pairs| > 0 {
      var n := |pairs| - 1;
      var init := pairs[..n];
      var last := pairs[n];
      GroupByKeys(init);
      AppendPhotoKeys(GroupBy(init), last.0, last.1);
      assert Names(pairs)[..n] == Names(init);
    }
  }

  /** No category produced by grouping is empty. */
  lemma GroupByNonEmpty(pairs: seq<(string, Photo)>, i: int)
    requires 0 <= i < |GroupBy(pairs)|
    ensures |GroupBy(pairs)[i].1| > 0
  {
    var r := GroupBy(pairs);
    var k := r[i].0;
    IndexOfDistinct(r, i);
    GroupByGet(pairs, k);
  }

  /** The grouped library holds exactly as many photos as were filed. */
  lemma {:induction false} GroupByTotal(pairs: seq<(string, Photo)>)
    ensures Total(GroupBy(pairs)) == |pairs|
    decreases |pairs|
  {
    if |pairs| > 0 {
      var init := pairs[..|pairs| - 1];
      var last := pairs[|pairs| - 1];
      GroupByTotal(init);
      AppendPhotoTotal(GroupBy(init), last.0, last.1);
    }
  }
}
