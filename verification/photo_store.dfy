/** The browser photo store (`src/lib/photo-db.ts`): an object store keyed by photo id whose
    records carry the photo and the name of its category.  An object store hands its records
    out in ascending key order, so the store is modelled as a sequence of records ordered by
    strictly increasing id. */
module PhotoStore {
  import opened Wrappers
  import opened Data
  import Seqs
  import Groups

  /** A stored record: the photo with its category name alongside. */
  datatype StoredPhoto = StoredPhoto(photo: Photo, group: string)

  function Id(r: StoredPhoto): int
  {
    r.photo.id
  }

  type Store = seq<StoredPhoto>

  /** Records come in strictly increasing key order, so no two share an id. */
  predicate Ordered(s: Store)
  {
    forall i, j :: 0 <= i < j < |s| ==> Id(s[i]) < Id(s[j])
  }

  /** The record stored under key `x`, if any. */
  function Lookup(s: Store, x: int): (r: Option<StoredPhoto>)
    ensures r.Some? ==> r.value in s && Id(r.value) == x
    ensures r.None? <==> forall i :: 0 <= i < |s| ==> Id(s[i]) != x
    decreases |s|
  {
    if |s| == 0 then None
    else if Id(s[|s| - 1]) == x then Some(s[|s| - 1])
    else Lookup(s[..|s| - 1], x)
  }

  // ---------------------------------------------------------------- writes

  /** `store.put(rec)`: replaces the record with the same key, or inserts it in key order. */
  function Put(s: Store, rec: StoredPhoto): Store
    decreases |s|
  {
    if |s| == 0 then [rec]
    else
      var last := s[|s| - 1];
      if Id(last) < Id(rec) then s + [rec]
      else if Id(last) == Id(rec) then s[..|s| - 1] + [rec]
      else Put(s[..|s| - 1], rec) + [last]
  }

  /** Every record after a put is the new one or an old one. */
  lemma {:induction false} PutMembers(s: Store, rec: StoredPhoto)
    ensures forall i :: 0 <= i < |Put(s, rec)| ==> Put(s, rec)[i] == rec || Put(s, rec)[i] in s
    decreases |s|
  {
    if |s| > 0 && Id(s[|s| - 1]) > Id(rec) {
      var init := s[..|s| - 1];
      PutMembers(init, rec);
      var r := Put(s, rec);
      forall i | 0 <= i < |r|
        ensures r[i] == rec || r[i] in s
      {
        if i < |r| - 1 {
          assert r[i] == Put(init, rec)[i];
          assert Put(init, rec)[i] in init ==> Put(init, rec)[i] in s;
        }
      }
    }
  }

  /** A put keeps the store ordered. */
  lemma {:induction false} PutOrdered(s: Store, rec: StoredPhoto)
    requires Ordered(s)
    ensures Ordered(Put(s, rec))
    decreases |s|
  {
    if |s| > 0 && Id(s[|s| - 1]) > Id(rec) {
      var init := s[..|s| - 1];
      var r := Put(s, rec);
      var t := Put(init, rec);
      PutOrdered(init, rec);
      PutMembers(init, rec);
      assert r == t + [s[|s| - 1]];
      forall i, j | 0 <= i < j < |r|
        ensures Id(r[i]) < Id(r[j])
      {
        if j == |r| - 1 {
          assert r[i] == t[i];
          if t[i] != rec {
            var k :| 0 <= k < |init| && init[k] == t[i];
            assert init[k] == s[k];
          }
        }
      }
    }
  }

  /** A put makes `rec` the record under its key and leaves every other key as it was. */
  lemma {:induction false} PutLookup(s: Store, rec: StoredPhoto, x: int)
    requires Ordered(s)
    ensures Lookup(Put(s, rec), x) == if x == Id(rec) then Some(rec) else Lookup(s, x)
    decreases |s|
  {
    if |s| > 0 {
      var init := s[..|s| - 1];
      var last := s[|s| - 1];
      var r := Put(s, rec);
      if Id(last) < Id(rec) {
        assert r[..|r| - 1] == s;
        if x == Id(rec) {
          forall i | 0 <= i < |s|
            ensures Id(s[i]) != x
          {
            if i < |s| - 1 {
              assert Id(s[i]) < Id(last);
            }
          }
        }
      } else if Id(last) == Id(rec) {
        assert r[..|r| - 1] == init;
      } else {
        PutLookup(init, rec, x);
        assert r[..|r| - 1] == Put(init, rec);
      }
    }
  }

  /** A put grows the store exactly when the key was new. */
  lemma {:induction false} PutLength(s: Store, rec: StoredPhoto)
    requires Ordered(s)
    ensures |Put(s, rec)| == |s| + (if Lookup(s, Id(rec)).None? then 1 else 0)
    decreases |s|
  {
    if |s| > 0 {
      var init := s[..|s| - 1];
      var last := s[|s| - 1];
      if Id(last) < Id(rec) {
        PutLookup(s, rec, Id(rec));
        forall i | 0 <= i < |s|
          ensures Id(s[i]) != Id(rec)
        {
          if i < |s| - 1 {
            assert Id(s[i]) < Id(last);
          }
        }
      } else if Id(last) > Id(rec) {
        PutLength(init, rec);
      }
    }
  }

  /** A put keeps the store ordered, makes `rec` the record under its key, leaves every other key
      as it was, and grows the store exactly when the key was new. */
  lemma PutSpec(s: Store, rec: StoredPhoto, x: int)
    requires Ordered(s)
    ensures Ordered(Put(s, rec))
    ensures Lookup(Put(s, rec), x) == if x == Id(rec) then Some(rec) else Lookup(s, x)
    ensures |Put(s, rec)| == |s| + (if Lookup(s, Id(rec)).None? then 1 else 0)
  {
    PutOrdered(s, rec);
    PutLookup(s, rec, x);
    PutLength(s, rec);
  }

  /** `store.add(rec)`: fails on an existing key. */
  function Add(s: Store, rec: StoredPhoto): Option<Store>
  {
    if Lookup(s, Id(rec)).Some? then None else Some(Put(s, rec))
  }

  /** A transaction of adds: all of them, or none when one fails (the transaction aborts). */
  function AddAll(s: Store, recs: seq<StoredPhoto>): Option<Store>
    decreases |recs|
  {
    if |recs| == 0 then Some(s)
    else
      match AddAll(s, recs[..|recs| - 1])
      case None => None
      case Some(t) => Add(t, recs[|recs| - 1])
  }

  /** The new records have keys distinct from each other and from the stored ones. */
  predicate Fresh(s: Store, recs: seq<StoredPhoto>)
  {
    && (forall i :: 0 <= i < |recs| ==> Lookup(s, Id(recs[i])).None?)
    && (forall i, j :: 0 <= i < j < |recs| ==> Id(recs[i]) != Id(recs[j]))
  }

  /** A batch of adds commits exactly when its keys are fresh. */
  lemma {:induction false} AddAllCommits(s: Store, recs: seq<StoredPhoto>)
    requires Ordered(s)
    ensures AddAll(s, recs).Some? <==> Fresh(s, recs)
    decreases |recs|
  {
    if |recs| > 0 {
      var init := recs[..|recs| - 1];
      var last := recs[|recs| - 1];
      AddAllCommits(s, init);
      FreshSnoc(s, recs);
      AddAllStep(s, recs);
    }
  }

  /** One more add commits exactly when the batch so far did and the new key is in neither the
      batch nor the store. */
  lemma AddAllStep(s: Store, recs: seq<StoredPhoto>)
    requires Ordered(s) && |recs| > 0
    ensures var init := recs[..|recs| - 1];
      var key := Id(recs[|recs| - 1]);
      AddAll(s, recs).Some? <==>
        AddAll(s, init).Some? && Lookup(init, key).None? && Lookup(s, key).None?
  {
    var init := recs[..|recs| - 1];
    var last := recs[|recs| - 1];
    var o := AddAll(s, init);
    if o.Some? {
      AddAllContents(s, init, Id(last));
      assert AddAll(s, recs) == Add(o.value, last);
    }
  }

  /** A committed batch stores every new record under its key, keeps the other keys' records,
      keeps the store ordered, and grows it by the batch size. */
  lemma {:induction false} AddAllContents(s: Store, recs: seq<StoredPhoto>, x: int)
    requires Ordered(s)
    ensures AddAll(s, recs).Some? ==>
      var r := AddAll(s, recs).value;
      && Ordered(r)
      && Lookup(r, x) == (if Lookup(recs, x).Some? then Lookup(recs, x) else Lookup(s, x))
      && |r| == |s| + |recs|
    decreases |recs|
  {
    if |recs| > 0 {
      var init := recs[..|recs| - 1];
      var last := recs[|recs| - 1];
      AddAllContents(s, init, x);
      AddAllContents(s, init, Id(last));
      var o := AddAll(s, init);
      if o.Some? {
        var t := o.value;
        PutSpec(t, last, x);
        PutSpec(t, last, Id(last));
      }
    }
  }

  /** A batch of adds commits exactly when its keys are fresh; then every new record is stored
      under its key, the other keys keep their records, and the store grows by the batch size. */
  lemma AddAllSpec(s: Store, recs: seq<StoredPhoto>, x: int)
    requires Ordered(s)
    ensures AddAll(s, recs).Some? <==> Fresh(s, recs)
    ensures AddAll(s, recs).Some? ==>
      var r := AddAll(s, recs).value;
      && Ordered(r)
      && Lookup(r, x) == (if Lookup(recs, x).Some? then Lookup(recs, x) else Lookup(s, x))
      && |r| == |s| + |recs|
  {
    AddAllCommits(s, recs);
    AddAllContents(s, recs, x);
  }

  /** Freshness of a batch grown by one record. */
  lemma FreshSnoc(s: Store, recs: seq<StoredPhoto>)
    requires |recs| > 0
    ensures var init := recs[..|recs| - 1];
      var key := Id(recs[|recs| - 1]);
      Fresh(s, recs) <==> Fresh(s, init) && Lookup(s, key).None? && Lookup(init, key).None?
  {
    var init := recs[..|recs| - 1];
    var last := recs[|recs| - 1];
    if Fresh(s, init) && Lookup(s, Id(last)).None? && Lookup(init, Id(last)).None? {
      forall i, j | 0 <= i < j < |recs|
        ensures Id(recs[i]) != Id(recs[j])
      {
        if j == |init| {
          assert recs[i] == init[i];
        } else {
          assert recs[i] == init[i] && recs[j] == init[j];
        }
      }
      forall i | 0 <= i < |recs|
        ensures Lookup(s, Id(recs[i])).None?
      {
        if i < |init| {
          assert recs[i] == init[i];
        }
      }
    }
    if Fresh(s, recs) {
      forall i | 0 <= i < |init|
        ensures Id(init[i]) != Id(last)
      {
        assert recs[i] == init[i];
      }
    }
  }

  /** `addPhotos`: every photo tagged with the category, added in one transaction. */
  function Tag(photos: seq<Photo>, group: string): (recs: seq<StoredPhoto>)
    ensures |recs| == |photos|
    ensures forall i :: 0 <= i < |photos| ==> recs[i].photo == photos[i] && recs[i].group == group
  {
    Seqs.Map((p: Photo) => StoredPhoto(p, group), photos)
  }

  function AddPhotos(s: Store, photos: seq<Photo>, group: string): Option<Store>
  {
    AddAll(s, Tag(photos, group))
  }

  /** `addPhotos` commits exactly when the photos' ids are new and distinct; then each photo is
      stored under its id, tagged with the category, and the other records stay. */
  lemma AddPhotosSpec(s: Store, photos: seq<Photo>, group: string, i: nat, x: int)
    requires Ordered(s)
    ensures AddPhotos(s, photos, group).Some? <==> Fresh(s, Tag(photos, group))
    ensures AddPhotos(s, photos, group).Some? ==>
      var r := AddPhotos(s, photos, group).value;
      && Ordered(r)
      && |r| == |s| + |photos|
      && (i < |photos| ==> Lookup(r, photos[i].id) == Some(StoredPhoto(photos[i], group)))
      && ((forall j :: 0 <= j < |photos| ==> photos[j].id != x) ==> Lookup(r, x) == Lookup(s, x))
  {
    var recs := Tag(photos, group);
    AddAllSpec(s, recs, x);
    if i < |photos| {
      AddAllSpec(s, recs, photos[i].id);
      if AddAll(s, recs).Some? {
        LookupDistinct(recs, i);
      }
    }
  }

  /** In a batch with distinct keys the lookup of a record's key finds that record. */
  lemma LookupDistinct(recs: seq<StoredPhoto>, i: nat)
    requires i < |recs|
    requires forall a, b :: 0 <= a < b < |recs| ==> Id(recs[a]) != Id(recs[b])
    ensures Lookup(recs, Id(recs[i])) == Some(recs[i])
  {
    var r := Lookup(recs, Id(recs[i]));
    var j :| 0 <= j < |recs| && recs[j] == r.value;
  }

  /** `updatePhoto`: a put of the photo tagged with its new category. */
  function UpdatePhoto(s: Store, photo: Photo, group: string): Store
  {
    Put(s, StoredPhoto(photo, group))
  }

  /** After an update the photo is the one record under its id, with the new category; no other
      record changes. */
  lemma UpdatePhotoSpec(s: Store, photo: Photo, group: string, x: int)
    requires Ordered(s)
    ensures Ordered(UpdatePhoto(s, photo, group))
    ensures Lookup(UpdatePhoto(s, photo, group), x) ==
      if x == photo.id then Some(StoredPhoto(photo, group)) else Lookup(s, x)
  {
    PutSpec(s, StoredPhoto(photo, group), x);
  }

  /** Keeping the records a predicate accepts (`store.delete`, a cursor deleting as it goes)
      keeps the store ordered. */
  lemma {:induction false} FilterOrdered(keep: StoredPhoto -> bool, s: Store)
    requires Ordered(s)
    ensures Ordered(Seqs.Filter(keep, s))
    decreases |s|
  {
    if |s| > 0 {
      var init := s[..|s| - 1];
      var last := s[|s| - 1];
      FilterOrdered(keep, init);
      var f := Seqs.Filter(keep, init);
      var r := Seqs.Filter(keep, s);
      if keep(last) {
        Seqs.FilterMembers(keep, init);
        assert r == f + [last];
        forall i, j | 0 <= i < j < |r|
          ensures Id(r[i]) < Id(r[j])
        {
          if j == |r| - 1 {
            assert r[i] == f[i];
            var k :| 0 <= k < |init| && init[k] == f[i];
            assert init[k] == s[k];
          }
        }
      }
    }
  }

  /** After keeping the records a predicate accepts, a key finds its record if that passes. */
  lemma {:induction false} FilterLookup(keep: StoredPhoto -> bool, s: Store, x: int)
    requires Ordered(s)
    ensures Lookup(Seqs.Filter(keep, s), x) ==
      if Lookup(s, x).Some? && keep(Lookup(s, x).value) then Lookup(s, x) else None
    decreases |s|
  {
    if |s| > 0 {
      var init := s[..|s| - 1];
      var last := s[|s| - 1];
      FilterLookup(keep, init, x);
      var f := Seqs.Filter(keep, init);
      var r := Seqs.Filter(keep, s);
      assert Lookup(s, x) == if Id(last) == x then Some(last) else Lookup(init, x);
      if keep(last) {
        assert r == f + [last];
        assert r[..|r| - 1] == f;
        assert Lookup(r, x) == if Id(last) == x then Some(last) else Lookup(f, x);
      } else {
        assert r == f;
        if Id(last) == x {
          assert Lookup(init, x).None? by {
            forall i | 0 <= i < |init|
              ensures Id(init[i]) != x
            {
              assert init[i] == s[i];
            }
          }
        }
      }
    }
  }

  lemma FilterSpec(keep: StoredPhoto -> bool, s: Store, x: int)
    requires Ordered(s)
    ensures Ordered(Seqs.Filter(keep, s))
    ensures Lookup(Seqs.Filter(keep, s), x) ==
      if Lookup(s, x).Some? && keep(Lookup(s, x).value) then Lookup(s, x) else None
  {
    FilterOrdered(keep, s);
    FilterLookup(keep, s, x);
  }

  /** `deletePhoto`: the record under key `id` goes. */
  function DeletePhoto(s: Store, id: int): Store
  {
    Seqs.Filter((r: StoredPhoto) => Id(r) != id, s)
  }

  /** After a delete no record has the id, and every other key keeps its record. */
  lemma DeletePhotoSpec(s: Store, id: int, x: int)
    requires Ordered(s)
    ensures Ordered(DeletePhoto(s, id))
    ensures Lookup(DeletePhoto(s, id), x) == if x == id then None else Lookup(s, x)
  {
    FilterSpec((r: StoredPhoto) => Id(r) != id, s, x);
  }

  /** `deletePhotoCategory`: every record of the category goes. */
  function DeleteCategory(s: Store, name: string): Store
  {
    Seqs.Filter((r: StoredPhoto) => r.group != name, s)
  }

  /** After deleting a category exactly the records tagged with it are gone. */
  lemma DeleteCategorySpec(s: Store, name: string, x: int)
    requires Ordered(s)
    ensures Ordered(DeleteCategory(s, name))
    ensures Lookup(DeleteCategory(s, name), x) ==
      if Lookup(s, x).Some? && Lookup(s, x).value.group == name then None else Lookup(s, x)
  {
    FilterSpec((r: StoredPhoto) => r.group != name, s, x);
  }

  /** One record under `renamePhotoCategory`. */
  function Retag(r: StoredPhoto, from: string, to: string): StoredPhoto
  {
    if r.group == from then r.(group := to) else r
  }

  /** `renamePhotoCategory`: the records tagged `from` are retagged `to`, in place. */
  function RenameCategory(s: Store, from: string, to: string): (r: Store)
    ensures |r| == |s|
  {
    Seqs.Map((p: StoredPhoto) => Retag(p, from, to), s)
  }

  /** Renaming rewrites the category of exactly the records tagged `from`; ids, photos and the
      other records are untouched. */
  lemma {:induction false} RenameCategorySpec(s: Store, from: string, to: string, x: int)
    requires Ordered(s)
    ensures Ordered(RenameCategory(s, from, to))
    ensures Lookup(RenameCategory(s, from, to), x) ==
      if Lookup(s, x).Some? then Some(Retag(Lookup(s, x).value, from, to)) else None
    decreases |s|
  {
    var r := RenameCategory(s, from, to);
    if |s| > 0 {
      var init := s[..|s| - 1];
      RenameCategorySpec(init, from, to, x);
      assert r[..|r| - 1] == RenameCategory(init, from, to);
    }
  }

  // ---------------------------------------------------------------- reading

  /** The (category, photo) pairs of the store, in key order. */
  function Pairs(s: Store): (ps: seq<(string, Photo)>)
    ensures |ps| == |s|
  {
    Seqs.Map((r: StoredPhoto) => (r.group, r.photo), s)
  }

  /** The photos of the records tagged `k`, in key order. */
  function PhotosIn(s: Store, k: string): seq<Photo>
  {
    Seqs.Map((r: StoredPhoto) => r.photo, Seqs.Filter((r: StoredPhoto) => r.group == k, s))
  }

  /** `getPhotoGroups`: every record's photo filed under its category, in key order. */
  function GetPhotoGroups(s: Store): (g: PhotoGroups)
    ensures Groups.DistinctKeys(g)
  {
    Groups.GroupBy(Pairs(s))
  }

  lemma {:induction false} PhotosUnderPairs(s: Store, k: string)
    ensures Groups.PhotosUnder(Pairs(s), k) == PhotosIn(s, k)
    decreases |s|
  {
    if |s| > 0 {
      var init := s[..|s| - 1];
      var last := s[|s| - 1];
      PhotosUnderPairs(init, k);
      assert Pairs(s)[..|s| - 1] == Pairs(init);
      var keep := (r: StoredPhoto) => r.group == k;
      var fi := Seqs.Filter(keep, init);
      if last.group == k {
        assert Seqs.Map((r: StoredPhoto) => r.photo, fi + [last])
          == Seqs.Map((r: StoredPhoto) => r.photo, fi) + [last.photo];
      }
    }
  }

  /** The categories come in the order their names first occur among the records, in key
      order. */
  lemma GetPhotoGroupsKeys(s: Store)
    ensures Groups.Keys(GetPhotoGroups(s)) == Groups.FirstOccurrences(Seqs.Map((r: StoredPhoto) => r.group, s))
  {
    Groups.GroupByKeys(Pairs(s));
    assert Groups.Names(Pairs(s)) == Seqs.Map((r: StoredPhoto) => r.group, s);
  }

  /** Category `k` of the grouped library holds exactly the photos of the records tagged `k`, in
      key order; no category is empty, and there are as many photos as records. */
  lemma GetPhotoGroupsSpec(s: Store, k: string, i: nat)
    ensures Groups.Get(GetPhotoGroups(s), k) ==
      if PhotosIn(s, k) == [] then None else Some(PhotosIn(s, k))
    ensures i < |GetPhotoGroups(s)| ==> |GetPhotoGroups(s)[i].1| > 0
    ensures Groups.Total(GetPhotoGroups(s)) == |s|
  {
    Groups.GroupByGet(Pairs(s), k);
    PhotosUnderPairs(s, k);
    if i < |GetPhotoGroups(s)| {
      Groups.GroupByNonEmpty(Pairs(s), i);
    }
    Groups.GroupByTotal(Pairs(s));
  }

  /** After deleting a category the grouped library no longer has it and every other category
      reads as before. */
  lemma DeleteCategoryGroups(s: Store, name: string, k: string)
    ensures Groups.Get(GetPhotoGroups(DeleteCategory(s, name)), k) ==
      if k == name then None else Groups.Get(GetPhotoGroups(s), k)
  {
    var d := DeleteCategory(s, name);
    GetPhotoGroupsSpec(d, k, 0);
    GetPhotoGroupsSpec(s, k, 0);
    var inK := (r: StoredPhoto) => r.group == k;
    var notName := (r: StoredPhoto) => r.group != name;
    if k == name {
      Seqs.FilterFilterDisjoint(inK, notName, s);
    } else {
      Seqs.FilterFilterImplied(inK, notName, s);
    }
  }

  // ---------------------------------------------------------------- migration

  /** A category value in the old browser-storage format. */
  datatype LegacyValue = NotArray | Array(items: seq<Option<Photo>>)

  /** The old `photoGroups` entry: absent or empty text (both fail the `savedGroupsJSON ?` test and
      migrate the sample library), text that does not parse, text parsing to `null`, or an
      object. */
  datatype Legacy = Missing | Garbled | Null | Object(entries: seq<(string, LegacyValue)>)

  /** `photo && photo.id && photo.src`. */
  predicate Migratable(item: Option<Photo>)
  {
    item.Some? && item.value.id != 0 && item.value.src != ""
  }

  /** The records one category contributes: its migratable photos tagged with its name. */
  function CategoryRecords(name: string, v: LegacyValue): seq<StoredPhoto>
  {
    if v.NotArray? then [] else ItemRecords(name, v.items)
  }

  function ItemRecords(name: string, items: seq<Option<Photo>>): seq<StoredPhoto>
    decreases |items|
  {
    if |items| == 0 then []
    else
      var last := items[|items| - 1];
      ItemRecords(name, items[..|items| - 1]) + (if Migratable(last) then [StoredPhoto(last.value, name)] else [])
  }

  /** Each record of a category is a migratable photo of it, tagged with its name. */
  lemma {:induction false} ItemRecordsFrom(name: string, items: seq<Option<Photo>>, i: nat)
    requires i < |ItemRecords(name, items)|
    ensures var r := ItemRecords(name, items)[i];
      r.group == name && Some(r.photo) in items && Migratable(Some(r.photo))
    decreases |items|
  {
    var init := items[..|items| - 1];
    var rest := ItemRecords(name, init);
    if i < |rest| {
      ItemRecordsFrom(name, init, i);
      assert ItemRecords(name, items)[i] == rest[i];
      assert forall p :: p in init ==> p in items;
    }
  }

  /** The records the migration adds, category by category. */
  function MigrationRecords(entries: seq<(string, LegacyValue)>): seq<StoredPhoto>
    decreases |entries|
  {
    if |entries| == 0 then []
    else CategoryRecords(entries[0].0, entries[0].1) + MigrationRecords(entries[1..])
  }

  /** The sample library in the old format. */
  function SampleEntries(): (e: seq<(string, LegacyValue)>)
    ensures |e| == |InitialPhotoGroups|
  {
    Seqs.Map((g: (string, seq<Photo>)) => (g.0, Array(Seqs.Map((p: Photo) => Some(p), g.1))), InitialPhotoGroups)
  }

  /** How a migration run ends: the promise resolves `true` with the new store (the completion
      flag is set and the old entry removed); resolves `false`, possibly setting the flag; or
      rejects because the transaction failed. */
  datatype MigrateOutcome = Migrated(store: Store) | Skipped(setsFlag: bool) | Rejected

  /** `migrateFromLocalStorage`. */
  function Migrate(flagSet: bool, legacy: Legacy, s: Store): MigrateOutcome
  {
    if flagSet then Skipped(false)
    else if legacy.Garbled? then Skipped(false)
    else if legacy.Null? || (legacy.Object? && |legacy.entries| == 0) then Skipped(true)
    else
      var entries := if legacy.Missing? then SampleEntries() else legacy.entries;
      match AddAll(s, MigrationRecords(entries))
      case None => Rejected
      case Some(t) => Migrated(t)
  }

  /** Each migrated record is a migratable photo of some category, tagged with that category. */
  lemma {:induction false} MigrationRecordsFrom(entries: seq<(string, LegacyValue)>, i: nat)
    requires i < |MigrationRecords(entries)|
    ensures var r := MigrationRecords(entries)[i];
      exists c :: 0 <= c < |entries| && entries[c].0 == r.group && entries[c].1.Array?
        && Some(r.photo) in entries[c].1.items && Migratable(Some(r.photo))
    decreases |entries|
  {
    var here := CategoryRecords(entries[0].0, entries[0].1);
    if i < |here| {
      ItemRecordsFrom(entries[0].0, entries[0].1.items, i);
      assert MigrationRecords(entries)[i] == here[i];
    } else {
      MigrationRecordsFrom(entries[1..], i - |here|);
      var r := MigrationRecords(entries)[i];
      assert r == MigrationRecords(entries[1..])[i - |here|];
      var c :| 0 <= c < |entries[1..]| && entries[1..][c].0 == r.group && entries[1..][c].1.Array?
        && Some(r.photo) in entries[1..][c].1.items && Migratable(Some(r.photo));
      assert entries[c + 1] == entries[1..][c];
    }
  }

  /** A run with the completion flag set, over an unparsable entry, or over nothing, writes
      nothing and answers `false` (setting the flag only in the last case); a run over a library
      is rejected exactly when some id repeats or is already stored; a completed run stores the old records under their ids, each a migratable photo of its
      category tagged with that category, and keeps the records already there. */
  lemma MigrateSpec(flagSet: bool, legacy: Legacy, s: Store, i: nat, x: int)
    requires Ordered(s)
    ensures flagSet ==> Migrate(flagSet, legacy, s) == Skipped(false)
    ensures !flagSet && legacy.Garbled? ==> Migrate(flagSet, legacy, s) == Skipped(false)
    ensures !flagSet && (legacy.Null? || legacy == Object([])) ==> Migrate(flagSet, legacy, s) == Skipped(true)
    ensures !flagSet && (legacy.Missing? || (legacy.Object? && legacy.entries != [])) ==>
      var entries := if legacy.Missing? then SampleEntries() else legacy.entries;
      (Migrate(flagSet, legacy, s).Rejected? <==> !Fresh(s, MigrationRecords(entries)))
    ensures Migrate(flagSet, legacy, s).Migrated? ==>
      var entries := if legacy.Missing? then SampleEntries() else legacy.entries;
      var recs := MigrationRecords(entries);
      var t := Migrate(flagSet, legacy, s).store;
      && Ordered(t)
      && |t| == |s| + |recs|
      && Lookup(t, x) == (if Lookup(recs, x).Some? then Lookup(recs, x) else Lookup(s, x))
      && (i < |recs| ==>
            exists c :: 0 <= c < |entries| && entries[c].0 == recs[i].group && entries[c].1.Array?
              && Some(recs[i].photo) in entries[c].1.items && Migratable(Some(recs[i].photo)))
  {
    if !flagSet && !legacy.Garbled? && !legacy.Null? && !(legacy.Object? && |legacy.entries| == 0) {
      var entries := if legacy.Missing? then SampleEntries() else legacy.entries;
      AddAllSpec(s, MigrationRecords(entries), x);
      if i < |MigrationRecords(entries)| {
        MigrationRecordsFrom(entries, i);
      }
    }
  }
}
