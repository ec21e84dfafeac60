/** The photo manager of the admin area (`src/app/admin/photos/page.tsx`): the state updaters over
    the category map and the selected tab.  Each handler is a function from the page state (and
    the form input) to the next page state; a handler that shows an error toast instead leaves
    the state as it was. */
module Library {
  import opened Wrappers
  import opened Data
  import Seqs
  import Text
  import Groups

  /** The page state: the category map and the selected category tab. */
  datatype Admin = Admin(groups: PhotoGroups, active: string)

  /** A handler's effect: the next state, or an error toast with the state untouched. */
  datatype Outcome = Applied(next: Admin) | Refused

  /** The state after a handler: refused handlers change nothing. */
  function After(a: Admin, o: Outcome): (r: Admin)
    ensures o.Refused? ==> r == a
  {
    if o.Applied? then o.next else a
  }

  /** The page invariant: category names are distinct (they are object keys) and the selected
      tab is a category, or `''` when there is none. */
  predicate Synced(a: Admin)
  {
    && Groups.DistinctKeys(a.groups)
    && (|a.groups| > 0 ==> Groups.HasKey(a.groups, a.active))
    && (|a.groups| == 0 ==> a.active == "")
  }

  /** The page's own sample library: the categories, ids, captions and hints of the shared seed
      library, but every picture is the same 400x300 placeholder. */
  const AdminSampleGroups: PhotoGroups := [
    ("family", [
      Photo(1, "https://placehold.co/400x300", "Family at the beach", "family beach", None),
      Photo(2, "https://placehold.co/400x300", "Grandparents smiling", "old couple", None)]),
    ("events", [
      Photo(3, "https://placehold.co/400x300", "Birthday party", "birthday party", None)]),
    ("scenery", [
      Photo(4, "https://placehold.co/400x300", "Mountain landscape", "mountain landscape", None),
      Photo(5, "https://placehold.co/400x300", "City skyline at night", "city night", None),
      Photo(6, "https://placehold.co/400x300", "Forest path", "forest path", None)])
  ]

  /** The page's sample differs from the shared seed library in the pictures alone. */
  lemma AdminSampleMatchesSeed()
    ensures Groups.Keys(AdminSampleGroups) == Groups.Keys(InitialPhotoGroups) == ["family", "events", "scenery"]
    ensures forall k :: 0 <= k < |AdminSampleGroups| ==>
      var (ps, qs) := (AdminSampleGroups[k].1, InitialPhotoGroups[k].1);
      && |ps| == |qs|
      && forall j :: 0 <= j < |ps| ==>
           && ps[j] == qs[j].(src := "https://placehold.co/400x300")
           && ps[j].src != qs[j].src
  {
  }

  /** The saved `photoGroups` entry at mount: none, or its text together with what `JSON.parse`
      makes of it (`None` when it throws). */
  datatype Saved = NoEntry | Stored(text: string, parsed: Option<PhotoGroups>)

  /** The mount effect: a missing or empty entry, the exact text `'{}'`, or text that does not
      parse gives the page's sample library; any other text gives what it parses to, even when
      that is a map with no categories (such as `"{ }"`). */
  function LoadGroups(saved: Saved): (r: PhotoGroups)
    ensures saved.NoEntry? ==> r == AdminSampleGroups
    ensures saved.Stored? && (saved.text == "" || saved.text == "{}") ==> r == AdminSampleGroups
    ensures saved.Stored? && saved.text != "" && saved.text != "{}" ==>
      r == (if saved.parsed.Some? then saved.parsed.value else AdminSampleGroups)
    ensures r == [] <==>
      saved.Stored? && saved.text != "" && saved.text != "{}" && saved.parsed == Some([])
  {
    match saved
    case NoEntry => AdminSampleGroups
    case Stored(text, parsed) =>
      if text == "" || text == "{}" then AdminSampleGroups
      else parsed.GetOr(AdminSampleGroups)
  }

  /** The empty map written with a space is not caught by the `'{}'` test: the page starts with
      no categories. */
  lemma LoadSpacedEmptyMap()
    ensures LoadGroups(Stored("{ }", Some([]))) == []
    ensures LoadGroups(Stored("{}", Some([]))) == AdminSampleGroups
  {
  }

  /** The tab-sync effect: a missing tab falls back to the first category, or to `''` when there
      are no categories. */
  function SyncActiveTab(a: Admin): (r: Admin)
    ensures r.groups == a.groups
    ensures Groups.DistinctKeys(a.groups) ==> Synced(r)
    ensures Synced(a) ==> r == a
    ensures |a.groups| > 0 && !Groups.HasKey(a.groups, a.active) ==> r.active == a.groups[0].0
  {
    if |a.groups| > 0 && !Groups.HasKey(a.groups, a.active) then a.(active := a.groups[0].0)
    else if |a.groups| == 0 then a.(active := "")
    else a
  }

  /** Running the sync effect again changes nothing. */
  lemma SyncActiveTabIdempotent(a: Admin)
    requires Groups.DistinctKeys(a.groups)
    ensures SyncActiveTab(SyncActiveTab(a)) == SyncActiveTab(a)
  {
  }

  // ---------------------------------------------------------------- categories

  /** Add category: the trimmed name, when non-empty and new, becomes an empty last category and
      the selected tab. */
  function AddCategory(a: Admin, input: string): Outcome
  {
    var name := Text.Trim(input);
    if name == "" || Groups.HasKey(a.groups, name) then Refused
    else Applied(Admin(a.groups + [(name, [])], name))
  }

  /** Add category is refused exactly for a blank name or an existing one; otherwise the new
      empty category comes last, is selected, and every other category is untouched. */
  lemma AddCategorySpec(a: Admin, input: string, k: string)
    requires Groups.DistinctKeys(a.groups)
    ensures var o := AddCategory(a, input);
      var name := Text.Trim(input);
      && (o.Refused? <==> Text.AllSpace(input) || Groups.HasKey(a.groups, name))
      && (o.Applied? ==>
            && Groups.Keys(o.next.groups) == Groups.Keys(a.groups) + [name]
            && o.next.active == name
            && Groups.Get(o.next.groups, name) == Some([])
            && (k != name ==> Groups.Get(o.next.groups, k) == Groups.Get(a.groups, k))
            && Synced(o.next))
  {
    var name := Text.Trim(input);
    Text.TrimEmptyIffBlank(input);
    if name != "" && !Groups.HasKey(a.groups, name) {
      AppendNewKey(a.groups, name, k);
    }
  }

  /** A new key appended to a map with distinct keys: it comes last, maps to the empty list, and
      the other keys and their photos are unaffected. */
  lemma AppendNewKey(g: PhotoGroups, name: string, k: string)
    requires Groups.DistinctKeys(g) && !Groups.HasKey(g, name)
    ensures var r := g + [(name, [])];
      && Groups.Keys(r) == Groups.Keys(g) + [name]
      && Groups.DistinctKeys(r)
      && Groups.Get(r, name) == Some([])
      && (k != name ==> Groups.Get(r, k) == Groups.Get(g, k))
  {
    Groups.KeysAppend(g, [(name, [])]);
    Groups.IndexOfAppendNew(g, name, []);
    if k != name {
      Groups.IndexOfPrefix(g, [(name, [])], k);
    }
    AppendNewKeyDistinct(g, name);
  }

  lemma AppendNewKeyDistinct(g: PhotoGroups, name: string)
    requires Groups.DistinctKeys(g) && !Groups.HasKey(g, name)
    ensures Groups.DistinctKeys(g + [(name, [])])
  {
    var r := g + [(name, [])];
    forall i, j | 0 <= i < j < |r|
      ensures r[i].0 != r[j].0
    {
      if j == |g| {
        assert Groups.Keys(g)[i] == r[i].0;
      }
    }
  }

  /** Delete category: refused while at most one category exists; otherwise the category goes
      and, if it was selected, the first remaining one is selected. */
  function DeleteCategory(a: Admin, name: string): (o: Outcome)
    requires Groups.DistinctKeys(a.groups)
  {
    if |a.groups| <= 1 then Refused
    else
      var rest := Groups.RemoveKey(a.groups, name);
      RemainingCategory(a.groups, name);
      Applied(Admin(rest, if a.active == name then rest[0].0 else a.active))
  }

  /** With two distinct categories, removing one name leaves at least one. */
  lemma RemainingCategory(g: PhotoGroups, name: string)
    requires Groups.DistinctKeys(g) && |g| >= 2
    ensures |Groups.RemoveKey(g, name)| > 0
  {
    Groups.RemoveKeyEntries(g, name);
    var e := if g[0].0 != name then g[0] else g[1];
    assert e in Groups.RemoveKey(g, name);
  }

  /** Delete category is refused exactly when at most one category exists; otherwise only that
      key goes, the others keep their order and photos, and a deleted selected tab passes to the
      first remaining category. */
  lemma DeleteCategorySpec(a: Admin, name: string, k: string)
    requires Groups.DistinctKeys(a.groups)
    ensures var o := DeleteCategory(a, name);
      && (o.Refused? <==> |a.groups| <= 1)
      && (o.Applied? ==>
            && Groups.Keys(o.next.groups) == Seqs.Filter((s: string) => s != name, Groups.Keys(a.groups))
            && Groups.Get(o.next.groups, name) == None
            && (k != name ==> Groups.Get(o.next.groups, k) == Groups.Get(a.groups, k))
            && (a.active == name ==> |o.next.groups| > 0 && o.next.active == o.next.groups[0].0)
            && (a.active != name ==> o.next.active == a.active)
            && (Synced(a) ==> Synced(o.next)))
  {
    if |a.groups| > 1 {
      var rest := Groups.RemoveKey(a.groups, name);
      RemainingCategory(a.groups, name);
      Groups.RemoveKeyKeys(a.groups, name);
      Groups.RemoveKeyDistinct(a.groups, name);
      Groups.RemoveKeyEntries(a.groups, name);
      RemoveKeyGet(a.groups, name, k);
      if a.active != name && Synced(a) {
        RemoveKeyGet(a.groups, name, a.active);
      }
      assert Groups.HasKey(rest, rest[0].0) by {
        assert Groups.Keys(rest)[0] == rest[0].0;
      }
    }
  }

  /** After removing `name` a lookup of `name` fails and a lookup of any other key is unchanged. */
  lemma RemoveKeyGet(g: PhotoGroups, name: string, k: string)
    requires Groups.DistinctKeys(g)
    ensures Groups.Get(Groups.RemoveKey(g, name), k) == if k == name then None else Groups.Get(g, k)
  {
    var r := Groups.RemoveKey(g, name);
    Groups.RemoveKeyEntries(g, name);
    Groups.RemoveKeyDistinct(g, name);
    if k == name {
      assert !Groups.HasKey(r, k);
    } else if Groups.HasKey(g, k) {
      var i := Groups.IndexOf(g, k);
      assert g[i] in r;
      var j :| 0 <= j < |r| && r[j] == g[i];
      Groups.IndexOfDistinct(r, j);
    }
  }

  /** Rename category: the trimmed new name must be non-empty and not another category; the
      same name closes the dialog without change; otherwise the key is replaced in place and a
      selected tab follows the rename. */
  function RenameCategory(a: Admin, from: string, input: string): Outcome
  {
    var to := Text.Trim(input);
    if to == "" || (to != from && Groups.HasKey(a.groups, to)) then Refused
    else if to == from then Applied(a)
    else Applied(Admin(Groups.RenameKey(a.groups, from, to), if a.active == from then to else a.active))
  }

  /** Rename is refused exactly for a blank name or another category's name; renaming to the
      same name changes nothing; renaming a name that is not a category leaves the map as it is;
      otherwise the key sits at the same position with the same photos, every other category is
      untouched, a selected tab follows the rename and the page invariant is kept. */
  lemma RenameCategorySpec(a: Admin, from: string, input: string)
    requires Groups.DistinctKeys(a.groups)
    ensures var o := RenameCategory(a, from, input);
      var to := Text.Trim(input);
      && (o.Refused? <==> Text.AllSpace(input) || (to != from && Groups.HasKey(a.groups, to)))
      && (o.Applied? && to == from ==> o.next == a)
      && (o.Applied? && to != from ==>
            && (a.active == from ==> o.next.active == to)
            && (a.active != from ==> o.next.active == a.active))
      && (o.Applied? && to != from && !Groups.HasKey(a.groups, from) ==> o.next.groups == a.groups)
      && (o.Applied? && to != from && Groups.HasKey(a.groups, from) ==>
            && Groups.Keys(o.next.groups) == Groups.Keys(a.groups)[Groups.IndexOf(a.groups, from) := to]
            && Groups.Values(o.next.groups) == Groups.Values(a.groups)
            && (Synced(a) ==> Synced(o.next)))
  {
    Text.TrimEmptyIffBlank(input);
    var to := Text.Trim(input);
    var o := RenameCategory(a, from, input);
    if o.Applied? && to != from && Groups.HasKey(a.groups, from) {
      if Synced(a) {
        RenameKeepsSynced(a, from, to);
      }
    }
  }

  /** Renaming an existing category to a fresh name, with the selected tab following it, keeps
      the page invariant. */
  lemma RenameKeepsSynced(a: Admin, from: string, to: string)
    requires Synced(a) && Groups.HasKey(a.groups, from) && !Groups.HasKey(a.groups, to)
    ensures Synced(Admin(Groups.RenameKey(a.groups, from, to), if a.active == from then to else a.active))
  {
    var i := Groups.IndexOf(a.groups, from);
    var g := Groups.RenameKey(a.groups, from, to);
    Groups.RenameKeyDistinct(a.groups, from, to);
    assert Groups.Keys(g)[i] == to;
    if a.active != from {
      var j :| 0 <= j < |a.groups| && a.groups[j].0 == a.active;
      assert Groups.Keys(g)[j] == a.active;
    }
  }

  // ---------------------------------------------------------------- photos

  /** Delete photo: the photos carrying `id` leave every category; categories left empty stay. */
  function DeletePhoto(a: Admin, id: int): Admin
  {
    a.(groups := Groups.RemovePhotoId(a.groups, id))
  }

  /** After deleting, no photo carries `id`, every other photo stays where it was, the category
      names are unchanged and the page invariant holds. */
  lemma DeletePhotoSpec(a: Admin, id: int, k: string)
    ensures var r := DeletePhoto(a, id);
      && Groups.Keys(r.groups) == Groups.Keys(a.groups)
      && r.active == a.active
      && (Synced(a) ==> Synced(r))
      && (Groups.HasKey(a.groups, k) ==>
            var before := Groups.Get(a.groups, k).value;
            var after := Groups.Get(r.groups, k).value;
            && (forall i :: 0 <= i < |after| ==> after[i].id != id && after[i] in before)
            && (forall i :: 0 <= i < |before| && before[i].id != id ==> before[i] in after))
  {
    var r := DeletePhoto(a, id);
    Groups.RemovePhotoIdGet(a.groups, id, k);
    if Groups.HasKey(a.groups, k) {
      Seqs.FilterMembers((p: Photo) => p.id != id, Groups.Get(a.groups, k).value);
    }
    assert Groups.HasKey(r.groups, a.active) <==> Groups.HasKey(a.groups, a.active);
  }

  /** Update photo: the edited photo leaves every category and is appended to the end of the
      chosen one, which is created last if it does not exist. */
  function UpdatePhoto(a: Admin, edited: Photo, category: string): Admin
  {
    a.(groups := Groups.AppendPhoto(Groups.RemovePhotoId(a.groups, edited.id), category, edited))
  }

  /** After an update the chosen category ends with the edited photo and holds no other photo
      with its id, no other category holds that id, and the other photos stay where they were. */
  lemma UpdatePhotoSpec(a: Admin, edited: Photo, category: string, k: string)
    requires Groups.DistinctKeys(a.groups)
    ensures var r := UpdatePhoto(a, edited, category);
      var keep := (p: Photo) => p.id != edited.id;
      && Groups.DistinctKeys(r.groups)
      && r.active == a.active
      && Groups.Keys(r.groups) ==
           (if Groups.HasKey(a.groups, category) then Groups.Keys(a.groups) else Groups.Keys(a.groups) + [category])
      && Groups.Get(r.groups, category) ==
           Some(Seqs.Filter(keep, Groups.Get(a.groups, category).GetOr([])) + [edited])
      && (k != category ==>
            Groups.Get(r.groups, k) ==
              (if Groups.HasKey(a.groups, k) then Some(Seqs.Filter(keep, Groups.Get(a.groups, k).value)) else None))
  {
    var removed := Groups.RemovePhotoId(a.groups, edited.id);
    Groups.AppendPhotoKeys(removed, category, edited);
    Groups.AppendPhotoGet(removed, category, edited, category);
    Groups.AppendPhotoGet(removed, category, edited, k);
    Groups.RemovePhotoIdGet(a.groups, edited.id, category);
    Groups.RemovePhotoIdGet(a.groups, edited.id, k);
    if !Groups.HasKey(a.groups, category) {
      assert Seqs.Filter((p: Photo) => p.id != edited.id, []) == [];
    }
  }

  /** Upload photo: ignored without a file or with a blank description; otherwise a photo with
      the clock's id, the file's data URL, the description, and as hint the first two
      space-separated words of the lower-cased description is appended to the chosen category. */
  function UploadPhoto(a: Admin, file: Option<string>, alt: string, category: string, now: int): Option<Admin>
  {
    if file.None? || Text.Trim(alt) == "" then None
    else Some(a.(groups := Groups.AppendPhoto(a.groups, category, UploadedPhoto(file.value, alt, now))))
  }

  function UploadedPhoto(dataUrl: string, alt: string, now: int): Photo
  {
    Photo(now, dataUrl, alt, Text.FirstTwoTokens(Text.LowerAscii(alt)), None)
  }

  /** Upload is ignored exactly without a file or with a blank description; otherwise the new
      photo ends the chosen category, nothing else changes, and its hint is the first two
      space-separated tokens of the lower-cased description: all of it when it has at most one
      space, otherwise the part before its second space. */
  lemma UploadPhotoSpec(a: Admin, file: Option<string>, alt: string, category: string, now: int, k: string)
    requires Groups.DistinctKeys(a.groups)
    ensures var r := UploadPhoto(a, file, alt, category, now);
      && (r.None? <==> file.None? || Text.AllSpace(alt))
      && (r.Some? ==>
            var p := UploadedPhoto(file.value, alt, now);
            && p.id == now && p.src == file.value && p.alt == alt
            && p.aiHint <= Text.LowerAscii(alt)
            && Text.CountOf(p.aiHint, ' ') <= 1
            && (Text.CountOf(Text.LowerAscii(alt), ' ') <= 1 ==> p.aiHint == Text.LowerAscii(alt))
            && (Text.CountOf(Text.LowerAscii(alt), ' ') >= 2 ==>
                  && |p.aiHint| < |alt|
                  && Text.LowerAscii(alt)[|p.aiHint|] == ' '
                  && Text.CountOf(p.aiHint, ' ') == 1)
            && r.value.active == a.active
            && Groups.DistinctKeys(r.value.groups)
            && Groups.Get(r.value.groups, category) == Some(Groups.Get(a.groups, category).GetOr([]) + [p])
            && (k != category ==> Groups.Get(r.value.groups, k) == Groups.Get(a.groups, k)))
  {
    Text.TrimEmptyIffBlank(alt);
    if file.Some? && !Text.AllSpace(alt) {
      var p := UploadedPhoto(file.value, alt, now);
      Text.FirstTwoTokensPrefix(Text.LowerAscii(alt));
      Groups.AppendPhotoKeys(a.groups, category, p);
      Groups.AppendPhotoGet(a.groups, category, p, category);
      Groups.AppendPhotoGet(a.groups, category, p, k);
    }
  }
}
