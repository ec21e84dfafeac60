/** The server photo routes over the `photos` table: grouping the rows for the screens
    (`src/app/api/photos/route.ts`, GET), uploading files with duplicate-name skipping (POST of the
    same file), and removing rows that repeat an earlier row's file name
    (`src/app/api/photos/remove-duplicates/route.ts`). */
module PhotoApi {
  import opened Wrappers
  import opened Data
  import Seqs
  import Text
  import Groups

  /** A row of the `photos` table.  `storage_path` and `group_name` are nullable columns. */
  datatype Row = Row(
    id: int,
    src: string,
    alt: string,
    aiHint: string,
    storagePath: Option<string>,
    groupName: Option<string>,
    createdAt: int)

  /** An uploaded file: its name and its content as a data URL. */
  datatype File = File(name: string, dataUrl: string)

  // ---------------------------------------------------------------- GET

  /** `row.group_name || 'default'`. */
  function GroupOf(r: Row): (g: string)
    ensures g != ""
    ensures r.groupName.Some? && r.groupName.value != "" ==> g == r.groupName.value
    ensures r.groupName.None? || r.groupName.value == "" ==> g == "default"
  {
    if r.groupName.Some? && r.groupName.value != "" then r.groupName.value else "default"
  }

  /** The photo a row is served as. */
  function RowPhoto(r: Row): Photo
  {
    Photo(r.id, r.src, r.alt, r.aiHint, r.storagePath)
  }

  /** GET: every row's photo filed under its group, in table order. */
  function GetGroups(rows: seq<Row>): (g: PhotoGroups)
    ensures Groups.DistinctKeys(g)
  {
    Groups.GroupBy(Seqs.Map((r: Row) => (GroupOf(r), RowPhoto(r)), rows))
  }

  /** The photos of the rows served under group `k`, in table order. */
  function PhotosOf(rows: seq<Row>, k: string): seq<Photo>
  {
    Seqs.Map(RowPhoto, Seqs.Filter((r: Row) => GroupOf(r) == k, rows))
  }

  lemma {:induction false} PhotosUnderRows(rows: seq<Row>, k: string)
    ensures Groups.PhotosUnder(Seqs.Map((r: Row) => (GroupOf(r), RowPhoto(r)), rows), k) == PhotosOf(rows, k)
    decreases |rows|
  {
    if |rows| > 0 {
      var init := rows[..|rows| - 1];
      var last := rows[|rows| - 1];
      PhotosUnderRows(init, k);
      assert Seqs.Map((r: Row) => (GroupOf(r), RowPhoto(r)), rows)[..|rows| - 1]
        == Seqs.Map((r: Row) => (GroupOf(r), RowPhoto(r)), init);
      var fi := Seqs.Filter((r: Row) => GroupOf(r) == k, init);
      if GroupOf(last) == k {
        assert Seqs.Map(RowPhoto, fi + [last]) == Seqs.Map(RowPhoto, fi) + [RowPhoto(last)];
      }
    }
  }

  /** The groups come in the order their names (`'default'` for rows without one) first occur in
      the query's row order. */
  lemma GetGroupsKeys(rows: seq<Row>)
    ensures Groups.Keys(GetGroups(rows)) == Groups.FirstOccurrences(Seqs.Map(GroupOf, rows))
  {
    var pairs := Seqs.Map((r: Row) => (GroupOf(r), RowPhoto(r)), rows);
    Groups.GroupByKeys(pairs);
    assert Groups.Names(pairs) == Seqs.Map(GroupOf, rows);
  }

  /** GET serves group `k` with exactly the photos of the rows whose group is `k` (rows without
      a group name count as `'default'`), in table order; no group is empty or named `''`, and
      every row is served once. */
  lemma GetGroupsSpec(rows: seq<Row>, k: string, i: nat)
    ensures Groups.Get(GetGroups(rows), k) == if PhotosOf(rows, k) == [] then None else Some(PhotosOf(rows, k))
    ensures Groups.Get(GetGroups(rows), "") == None
    ensures i < |GetGroups(rows)| ==> |GetGroups(rows)[i].1| > 0
    ensures Groups.Total(GetGroups(rows)) == |rows|
  {
    var pairs := Seqs.Map((r: Row) => (GroupOf(r), RowPhoto(r)), rows);
    Groups.GroupByGet(pairs, k);
    Groups.GroupByGet(pairs, "");
    PhotosUnderRows(rows, k);
    PhotosUnderRows(rows, "");
    Seqs.FilterNone((r: Row) => GroupOf(r) == "", rows);
    if i < |GetGroups(rows)| {
      Groups.GroupByNonEmpty(pairs, i);
    }
    Groups.GroupByTotal(pairs);
  }

  // ---------------------------------------------------------------- POST

  /** `String(formData.get('group') || 'default')`. */
  function UploadGroup(field: Option<string>): (g: string)
    ensures g != ""
    ensures field.Some? && field.value != "" ==> g == field.value
  {
    if field.Some? && field.value != "" then field.value else "default"
  }

  /** The hint derived from a file name: the part before the last `'.'` (nothing when there is no
      dot) with every `-` and `_` turned into a space. */
  function Hint(name: string): (h: string)
  {
    var dot := Text.LastIndexOf(name, '.');
    Text.DashesToSpaces(name[..if dot < 0 then 0 else dot])
  }

  /** A name without a dot gives an empty hint; otherwise the hint is as long as the part before
      the last dot, agrees with it except that dashes and underscores become spaces, and so holds
      neither. */
  lemma HintSpec(name: string)
    ensures '.' !in name ==> Hint(name) == ""
    ensures '.' in name ==>
      var stem := name[..Text.LastIndexOf(name, '.')];
      && |Hint(name)| == |stem|
      && '.' !in name[|stem| + 1..]
      && forall i :: 0 <= i < |stem| ==>
           Hint(name)[i] == (if stem[i] == '-' || stem[i] == '_' then ' ' else stem[i])
    ensures '-' !in Hint(name) && '_' !in Hint(name)
  {
  }

  /** The photo stored for an accepted file. */
  function UploadedPhoto(f: File, id: int): Photo
  {
    var hint := Hint(f.name);
    Photo(id, f.dataUrl, hint, Text.FirstTwoTokens(hint), Some(f.name))
  }

  /** An uploaded photo's hint is the first two space-separated tokens of the hint derived from
      its file name: all of it when that has at most one space, otherwise the part before its
      second space. */
  lemma UploadedHintSpec(f: File, id: int)
    ensures var h, p := Hint(f.name), UploadedPhoto(f, id);
      && p.aiHint <= h
      && (Text.CountOf(h, ' ') <= 1 ==> p.aiHint == h)
      && (Text.CountOf(h, ' ') >= 2 ==> |p.aiHint| < |h| && h[|p.aiHint|] == ' ' && Text.CountOf(p.aiHint, ' ') == 1)
  {
    Text.FirstTwoTokensPrefix(Hint(f.name));
  }

  /** The row inserted for an accepted file. */
  function UploadedRow(f: File, id: int, group: string, now: int): Row
  {
    var p := UploadedPhoto(f, id);
    Row(p.id, p.src, p.alt, p.aiHint, p.storagePath, Some(group), now)
  }

  /** Some row of the table was stored under file name `name`. */
  predicate HasPath(table: seq<Row>, name: string)
  {
    exists r :: r in table && r.storagePath == Some(name)
  }

  /** File `i` of a batch is skipped as a duplicate exactly when its name is already a stored
      file name or the name of an earlier file of the batch (which either was stored just before
      or was itself a duplicate). */
  predicate IsDuplicate(table: seq<Row>, files: seq<File>, i: nat)
    requires i < |files|
  {
    HasPath(table, files[i].name) || exists j :: 0 <= j < i && files[j].name == files[i].name
  }

  /** The names reported as duplicates, in batch order. */
  function DuplicateNames(table: seq<Row>, files: seq<File>): seq<string>
    decreases |files|
  {
    if |files| == 0 then []
    else
      var n := |files| - 1;
      DuplicateNames(table, files[..n]) + (if IsDuplicate(table, files, n) then [files[n].name] else [])
  }

  /** The files stored, in batch order. */
  function AcceptedFiles(table: seq<Row>, files: seq<File>): seq<File>
    decreases |files|
  {
    if |files| == 0 then []
    else
      var n := |files| - 1;
      AcceptedFiles(table, files[..n]) + (if IsDuplicate(table, files, n) then [] else [files[n]])
  }

  /** Whether file `i` is a duplicate depends only on the files up to it. */
  lemma IsDuplicatePrefix(table: seq<Row>, files: seq<File>, i: nat, m: nat)
    requires i < m <= |files|
    ensures IsDuplicate(table, files[..m], i) <==> IsDuplicate(table, files, i)
  {
    if IsDuplicate(table, files, i) && !HasPath(table, files[i].name) {
      var j :| 0 <= j < i && files[j].name == files[i].name;
      assert files[..m][j] == files[j];
    }
  }

  /** Every file of the batch is either reported as a duplicate or stored. */
  lemma {:induction false} PostPartition(table: seq<Row>, files: seq<File>)
    ensures |DuplicateNames(table, files)| + |AcceptedFiles(table, files)| == |files|
    decreases |files|
  {
    if |files| > 0 {
      PostPartition(table, files[..|files| - 1]);
    }
  }

  /** Each stored file is a file of the batch whose name was not stored before. */
  lemma {:induction false} AcceptedFrom(table: seq<Row>, files: seq<File>, i: nat)
    requires i < |AcceptedFiles(table, files)|
    ensures var f := AcceptedFiles(table, files)[i];
      && !HasPath(table, f.name)
      && exists j :: 0 <= j < |files| && files[j] == f && !IsDuplicate(table, files, j)
    decreases |files|
  {
    var n := |files| - 1;
    var init := files[..n];
    var prev := AcceptedFiles(table, init);
    if i < |prev| {
      AcceptedFrom(table, init, i);
      assert AcceptedFiles(table, files)[i] == prev[i];
      var j :| 0 <= j < |init| && init[j] == prev[i] && !IsDuplicate(table, init, j);
      IsDuplicatePrefix(table, files, j, n);
      assert files[j] == init[j];
    }
  }

  /** The stored files have names distinct from each other. */
  lemma AcceptedNamesDistinct(table: seq<Row>, files: seq<File>, a: nat, b: nat)
    requires a < b < |AcceptedFiles(table, files)|
    ensures AcceptedFiles(table, files)[a].name != AcceptedFiles(table, files)[b].name
  {
    var acc := AcceptedFiles(table, files);
    AcceptedOrder(table, files, a, b);
    var ja, jb :| 0 <= ja < jb < |files| && files[ja] == acc[a] && files[jb] == acc[b]
      && !IsDuplicate(table, files, jb);
  }

  /** The stored files appear in batch order. */
  lemma {:induction false} AcceptedOrder(table: seq<Row>, files: seq<File>, a: nat, b: nat)
    requires a < b < |AcceptedFiles(table, files)|
    ensures exists ja, jb :: (0 <= ja < jb < |files|
      && files[ja] == AcceptedFiles(table, files)[a]
      && files[jb] == AcceptedFiles(table, files)[b]
      && !IsDuplicate(table, files, jb))
    decreases |files|
  {
    var n := |files| - 1;
    var init := files[..n];
    var prev := AcceptedFiles(table, init);
    var acc := AcceptedFiles(table, files);
    assert acc[a] == prev[a];
    if b < |prev| {
      AcceptedOrder(table, init, a, b);
      assert acc[b] == prev[b];
      var ja, jb :| 0 <= ja < jb < |init| && init[ja] == prev[a] && init[jb] == prev[b]
        && !IsDuplicate(table, init, jb);
      IsDuplicatePrefix(table, files, jb, n);
      assert files[ja] == init[ja] && files[jb] == init[jb];
    } else {
      AcceptedFrom(table, init, a);
      var ja :| 0 <= ja < |init| && init[ja] == prev[a] && !IsDuplicate(table, init, ja);
      assert files[ja] == init[ja];
      assert acc[b] == files[n];
    }
  }

  /** The rows inserted for the accepted files, the `k`-th taking the `k`-th id and clock draws. */
  function NewRows(acc: seq<File>, group: string, uuid: nat -> int, clock: nat -> int): (rs: seq<Row>)
    ensures |rs| == |acc|
    ensures forall k :: 0 <= k < |acc| ==> rs[k] == UploadedRow(acc[k], uuid(k), group, clock(k))
  {
    seq(|acc|, k requires 0 <= k < |acc| => UploadedRow(acc[k], uuid(k), group, clock(k)))
  }

  /** POST: each file whose name is already stored (including earlier files of the same batch)
      is reported as a duplicate; every other file is inserted with the next id and timestamp.
      Ids (`crypto.randomUUID`) and timestamps (`Date.now`) are the `k`-th values of `uuid` and
      `clock` for the `k`-th inserted file. */
  method Post(table: seq<Row>, groupField: Option<string>, files: seq<File>, uuid: nat -> int, clock: nat -> int)
    returns (after: seq<Row>, inserted: seq<Photo>, duplicates: seq<string>)
    ensures duplicates == DuplicateNames(table, files)
    ensures var acc := AcceptedFiles(table, files);
      && |inserted| == |acc|
      && (forall k :: 0 <= k < |acc| ==> inserted[k] == UploadedPhoto(acc[k], uuid(k)))
      && after == table + NewRows(acc, UploadGroup(groupField), uuid, clock)
  {
    var group := UploadGroup(groupField);
    after := table;
    inserted := [];
    duplicates := [];
    var i := 0;
    ghost var acc: seq<File> := [];
    while i < |files|
      invariant 0 <= i <= |files|
      invariant acc == AcceptedFiles(table, files[..i])
      invariant duplicates == DuplicateNames(table, files[..i])
      invariant |inserted| == |acc|
      invariant forall k :: 0 <= k < |inserted| ==> inserted[k] == UploadedPhoto(acc[k], uuid(k))
      invariant after == table + NewRows(acc, group, uuid, clock)
    {
      var f := files[i];
      PathAfterPrefix(table, files, i, group, uuid, clock);
      PostStep(table, files, i);
      NewRowsSnoc(acc, f, group, uuid, clock);
      if HasPath(after, f.name) {
        duplicates := duplicates + [f.name];
      } else {
        var k := |inserted|;
        var p := UploadedPhoto(f, uuid(k));
        after := after + [UploadedRow(f, uuid(k), group, clock(k))];
        inserted := inserted + [p];
        acc := acc + [f];
      }
      i := i + 1;
    }
    assert files[..|files|] == files;
  }

  /** Processing file `i` either reports its name or stores it. */
  lemma PostStep(table: seq<Row>, files: seq<File>, i: nat)
    requires i < |files|
    ensures IsDuplicate(table, files, i) ==>
      && DuplicateNames(table, files[..i + 1]) == DuplicateNames(table, files[..i]) + [files[i].name]
      && AcceptedFiles(table, files[..i + 1]) == AcceptedFiles(table, files[..i])
    ensures !IsDuplicate(table, files, i) ==>
      && DuplicateNames(table, files[..i + 1]) == DuplicateNames(table, files[..i])
      && AcceptedFiles(table, files[..i + 1]) == AcceptedFiles(table, files[..i]) + [files[i]]
  {
    assert files[..i + 1][..i] == files[..i];
    IsDuplicatePrefix(table, files, i, i + 1);
  }

  lemma NewRowsSnoc(acc: seq<File>, f: File, group: string, uuid: nat -> int, clock: nat -> int)
    ensures NewRows(acc + [f], group, uuid, clock)
      == NewRows(acc, group, uuid, clock) + [UploadedRow(f, uuid(|acc|), group, clock(|acc|))]
  {
  }

  /** While processing file `i` the table holds the name exactly when file `i` is a duplicate. */
  lemma PathAfterPrefix(table: seq<Row>, files: seq<File>, i: nat, group: string, uuid: nat -> int, clock: nat -> int)
    requires i < |files|
    ensures HasPath(table + NewRows(AcceptedFiles(table, files[..i]), group, uuid, clock), files[i].name)
      <==> IsDuplicate(table, files, i)
  {
    var cur := table + NewRows(AcceptedFiles(table, files[..i]), group, uuid, clock);
    if HasPath(cur, files[i].name) {
      InsertedPathEarlier(table, files, i, group, uuid, clock);
    }
    if IsDuplicate(table, files, i) {
      EarlierPathInserted(table, files, i, group, uuid, clock);
    }
  }

  /** A name the inserted rows hold belongs to an earlier file of the batch. */
  lemma InsertedPathEarlier(table: seq<Row>, files: seq<File>, i: nat, group: string, uuid: nat -> int, clock: nat -> int)
    requires i < |files|
    requires HasPath(table + NewRows(AcceptedFiles(table, files[..i]), group, uuid, clock), files[i].name)
    ensures IsDuplicate(table, files, i)
  {
    var acc := AcceptedFiles(table, files[..i]);
    var rs := NewRows(acc, group, uuid, clock);
    var name := files[i].name;
    if !HasPath(table, name) {
      HasPathAppend(table, rs, name);
      var m := InsertedRowFile(acc, group, uuid, clock, name);
      AcceptedEarlier(table, files, i, m);
    }
  }

  /** A file accepted before position `i` is one of the first `i` files. */
  lemma AcceptedEarlier(table: seq<Row>, files: seq<File>, i: nat, m: nat)
    requires i <= |files| && m < |AcceptedFiles(table, files[..i])|
    ensures exists j :: 0 <= j < i && files[j].name == AcceptedFiles(table, files[..i])[m].name
  {
    AcceptedFrom(table, files[..i], m);
    var j :| 0 <= j < i && files[..i][j] == AcceptedFiles(table, files[..i])[m];
    assert files[j] == files[..i][j];
  }

  /** An inserted row stored under `name` comes from an accepted file of that name. */
  lemma InsertedRowFile(acc: seq<File>, group: string, uuid: nat -> int, clock: nat -> int, name: string)
    returns (m: nat)
    requires HasPath(NewRows(acc, group, uuid, clock), name)
    ensures m < |acc| && acc[m].name == name
  {
    var rs := NewRows(acc, group, uuid, clock);
    var r :| r in rs && r.storagePath == Some(name);
    var k :| 0 <= k < |rs| && rs[k] == r;
    assert rs[k] == UploadedRow(acc[k], uuid(k), group, clock(k));
    m := k;
  }

  lemma HasPathAppend(a: seq<Row>, b: seq<Row>, name: string)
    ensures HasPath(a + b, name) <==> HasPath(a, name) || HasPath(b, name)
  {
    if HasPath(a + b, name) {
      var r :| r in a + b && r.storagePath == Some(name);
      assert r in a || r in b;
    }
    if HasPath(b, name) {
      var r :| r in b && r.storagePath == Some(name);
      assert r in a + b;
    }
  }

  /** A name of an earlier file of the batch is held by the table or by the inserted rows. */
  lemma EarlierPathInserted(table: seq<Row>, files: seq<File>, i: nat, group: string, uuid: nat -> int, clock: nat -> int)
    requires i < |files| && IsDuplicate(table, files, i)
    ensures HasPath(table + NewRows(AcceptedFiles(table, files[..i]), group, uuid, clock), files[i].name)
  {
    var acc := AcceptedFiles(table, files[..i]);
    var rs := NewRows(acc, group, uuid, clock);
    var name := files[i].name;
    if !HasPath(table, name) {
      var j :| 0 <= j < i && files[j].name == name;
      assert files[..i][j] == files[j];
      AcceptedCoversEarlier(table, files[..i], name);
      var k :| 0 <= k < |acc| && acc[k].name == name;
      assert (table + rs)[|table| + k] == rs[k];
    } else {
      var r :| r in table && r.storagePath == Some(name);
      assert r in table + rs;
    }
  }

  /** A name of the batch that is not stored yet was accepted for its first file. */
  lemma {:induction false} AcceptedCoversEarlier(table: seq<Row>, files: seq<File>, name: string)
    ensures (!HasPath(table, name) && exists j :: 0 <= j < |files| && files[j].name == name) ==>
      exists k :: 0 <= k < |AcceptedFiles(table, files)| && AcceptedFiles(table, files)[k].name == name
    decreases |files|
  {
    if |files| > 0 && !HasPath(table, name) && exists j :: 0 <= j < |files| && files[j].name == name {
      var n := |files| - 1;
      var init := files[..n];
      var prev := AcceptedFiles(table, init);
      var acc := AcceptedFiles(table, files);
      assert acc[..|prev|] == prev;
      if exists j :: 0 <= j < n && init[j].name == name {
        AcceptedCoversEarlier(table, init, name);
        var k :| 0 <= k < |prev| && prev[k].name == name;
        assert acc[k] == prev[k];
      } else {
        assert files[n].name == name;
        assert acc[|prev|] == files[n];
      }
    }
  }

  // ---------------------------------------------------------------- remove duplicates

  /** `row.storage_path` when it is a non-empty string. */
  function PathKey(r: Row): Option<string>
  {
    if r.storagePath.Some? && r.storagePath.value != "" then r.storagePath else None
  }

  /** The non-empty file names of the rows. */
  function PathSet(rows: seq<Row>): set<string>
    decreases |rows|
  {
    if |rows| == 0 then {}
    else
      var last := rows[|rows| - 1];
      PathSet(rows[..|rows| - 1]) + (if PathKey(last).Some? then {PathKey(last).value} else {})
  }

  /** A row is removed when its non-empty file name already belongs to an earlier row. */
  predicate Repeats(rows: seq<Row>, i: nat)
    requires i < |rows|
  {
    PathKey(rows[i]).Some? && exists j :: 0 <= j < i && PathKey(rows[j]) == PathKey(rows[i])
  }

  /** The rows removed, in scan order. */
  function Removed(rows: seq<Row>): seq<Row>
    decreases |rows|
  {
    if |rows| == 0 then []
    else
      var n := |rows| - 1;
      Removed(rows[..n]) + (if Repeats(rows, n) then [rows[n]] else [])
  }

  /** The rows kept, in scan order. */
  function Kept(rows: seq<Row>): seq<Row>
    decreases |rows|
  {
    if |rows| == 0 then []
    else
      var n := |rows| - 1;
      Kept(rows[..n]) + (if Repeats(rows, n) then [] else [rows[n]])
  }

  function Ids(rows: seq<Row>): (ids: seq<int>)
    ensures |ids| == |rows|
    ensures forall i :: 0 <= i < |rows| ==> ids[i] == rows[i].id
  {
    Seqs.Map((r: Row) => r.id, rows)
  }

  /** The set of file names seen so far is the set of the earlier rows' non-empty names. */
  lemma {:induction false} PathSetMembers(rows: seq<Row>, p: string)
    ensures p in PathSet(rows) <==> exists j :: 0 <= j < |rows| && PathKey(rows[j]) == Some(p)
    decreases |rows|
  {
    if |rows| > 0 {
      var n := |rows| - 1;
      PathSetMembers(rows[..n], p);
      if exists j :: 0 <= j < |rows| && PathKey(rows[j]) == Some(p) {
        var j :| 0 <= j < |rows| && PathKey(rows[j]) == Some(p);
        if j < n {
          assert rows[..n][j] == rows[j];
        }
      }
      if exists j :: 0 <= j < n && PathKey(rows[..n][j]) == Some(p) {
        var j :| 0 <= j < n && PathKey(rows[..n][j]) == Some(p);
        assert rows[j] == rows[..n][j];
      }
    }
  }

  /** Whether row `i` repeats an earlier one depends only on the rows up to it. */
  lemma RepeatsPrefix(rows: seq<Row>, i: nat, m: nat)
    requires i < m <= |rows|
    ensures Repeats(rows[..m], i) <==> Repeats(rows, i)
  {
    if Repeats(rows, i) {
      var j :| 0 <= j < i && PathKey(rows[j]) == PathKey(rows[i]);
      assert rows[..m][j] == rows[j];
    }
    if Repeats(rows[..m], i) {
      var j :| 0 <= j < i && PathKey(rows[..m][j]) == PathKey(rows[..m][i]);
      assert rows[..m][j] == rows[j];
    }
  }

  /** No two rows share an id (the table's `id TEXT PRIMARY KEY`). */
  predicate DistinctIds(rows: seq<Row>)
  {
    forall i, j :: 0 <= i < j < |rows| ==> rows[i].id != rows[j].id
  }

  /** The table left by `DELETE FROM photos WHERE id = ?` run for each of `ids`: the rows whose id
      is none of them, in order. */
  function AfterDelete(rows: seq<Row>, ids: seq<int>): seq<Row>
    decreases |rows|
  {
    if |rows| == 0 then []
    else
      var n := |rows| - 1;
      AfterDelete(rows[..n], ids) + (if rows[n].id in ids then [] else [rows[n]])
  }

  /** POST of the clean-up route: scans the rows in ascending creation time, keeps the first row
      of every non-empty file name and collects the ids of the later ones, deletes those ids one
      statement at a time, and answers with their number.  With distinct ids the table left is
      exactly the kept rows. */
  method RemoveDuplicates(rows: seq<Row>) returns (ids: seq<int>, removed: nat, table: seq<Row>)
    ensures ids == Ids(Removed(rows))
    ensures removed == |Removed(rows)|
    ensures table == AfterDelete(rows, ids)
    ensures DistinctIds(rows) ==> table == Kept(rows)
  {
    var seen: set<string> := {};
    ids := [];
    var i := 0;
    while i < |rows|
      invariant 0 <= i <= |rows|
      invariant seen == PathSet(rows[..i])
      invariant ids == Ids(Removed(rows[..i]))
    {
      var row := rows[i];
      RemoveStep(rows, i);
      IdsSnoc(Removed(rows[..i]), row);
      if row.storagePath.Some? && row.storagePath.value != "" && row.storagePath.value in seen {
        ids := ids + [row.id];
      } else if row.storagePath.Some? && row.storagePath.value != "" {
        seen := seen + {row.storagePath.value};
      }
      i := i + 1;
    }
    assert rows[..|rows|] == rows;
    table := rows;
    AfterDeleteNone(rows);
    var k := 0;
    while k < |ids|
      invariant 0 <= k <= |ids|
      invariant table == AfterDelete(rows, ids[..k])
    {
      AfterDeleteSnoc(rows, ids[..k], ids[k]);
      assert ids[..k + 1] == ids[..k] + [ids[k]];
      table := AfterDelete(table, [ids[k]]);
      k := k + 1;
    }
    assert ids[..|ids|] == ids;
    if DistinctIds(rows) {
      AfterDeleteKept(rows);
    }
    removed := |ids|;
  }

  /** Deleting no id leaves the table as it was. */
  lemma {:induction false} AfterDeleteNone(rows: seq<Row>)
    ensures AfterDelete(rows, []) == rows
    decreases |rows|
  {
    if |rows| > 0 {
      var n := |rows| - 1;
      AfterDeleteNone(rows[..n]);
      assert rows[..n] + [rows[n]] == rows;
    }
  }

  /** Deleting works row by row, so it distributes over concatenation. */
  lemma {:induction false} AfterDeleteAppend(a: seq<Row>, b: seq<Row>, ids: seq<int>)
    ensures AfterDelete(a + b, ids) == AfterDelete(a, ids) + AfterDelete(b, ids)
    decreases |b|
  {
    if |b| == 0 {
      assert a + b == a;
    } else {
      var m := |b| - 1;
      AfterDeleteAppend(a, b[..m], ids);
      assert (a + b)[..|a + b| - 1] == a + b[..m];
      assert (a + b)[|a + b| - 1] == b[m];
    }
  }

  /** One more `DELETE` statement removes the rows with that id from what is left. */
  lemma {:induction false} AfterDeleteSnoc(rows: seq<Row>, done: seq<int>, x: int)
    ensures AfterDelete(AfterDelete(rows, done), [x]) == AfterDelete(rows, done + [x])
    decreases |rows|
  {
    if |rows| > 0 {
      var n := |rows| - 1;
      var last := rows[n];
      var t := if last.id in done then [] else [last];
      AfterDeleteSnoc(rows[..n], done, x);
      AfterDeleteAppend(AfterDelete(rows[..n], done), t, [x]);
      if t != [] {
        assert t[..0] == [];
      }
      assert last.id in done + [x] <==> last.id in done || last.id == x;
    }
  }

  /** Adding an id that no row carries deletes nothing more. */
  lemma {:induction false} AfterDeleteUnused(rows: seq<Row>, ids: seq<int>, x: int)
    requires forall j :: 0 <= j < |rows| ==> rows[j].id != x
    ensures AfterDelete(rows, ids + [x]) == AfterDelete(rows, ids)
    decreases |rows|
  {
    if |rows| > 0 {
      var n := |rows| - 1;
      AfterDeleteUnused(rows[..n], ids, x);
      assert rows[n].id in ids + [x] <==> rows[n].id in ids;
    }
  }

  /** Each removed row is a row of the table. */
  lemma {:induction false} RemovedFrom(rows: seq<Row>, k: nat)
    requires k < |Removed(rows)|
    ensures exists j :: 0 <= j < |rows| && rows[j] == Removed(rows)[k]
    decreases |rows|
  {
    var n := |rows| - 1;
    var prev := Removed(rows[..n]);
    if k < |prev| {
      RemovedFrom(rows[..n], k);
      var j :| 0 <= j < n && rows[..n][j] == prev[k];
      assert rows[j] == rows[..n][j];
    }
  }

  /** With distinct ids, deleting the collected ids leaves exactly the kept rows: a deleted id
      belongs to no kept row. */
  lemma {:induction false} AfterDeleteKept(rows: seq<Row>)
    requires DistinctIds(rows)
    ensures AfterDelete(rows, Ids(Removed(rows))) == Kept(rows)
    decreases |rows|
  {
    if |rows| > 0 {
      var n := |rows| - 1;
      var init, last := rows[..n], rows[n];
      assert DistinctIds(init) by {
        forall i, j | 0 <= i < j < |init|
          ensures init[i].id != init[j].id
        {
          assert init[i] == rows[i] && init[j] == rows[j];
        }
      }
      AfterDeleteKept(init);
      var before := Ids(Removed(init));
      IdsSnoc(Removed(init), last);
      assert forall j :: 0 <= j < |init| ==> init[j].id != last.id by {
        forall j | 0 <= j < |init|
          ensures init[j].id != last.id
        {
          assert init[j] == rows[j];
        }
      }
      if Repeats(rows, n) {
        AfterDeleteUnused(init, before, last.id);
      } else {
        assert last.id !in before by {
          if last.id in before {
            var k :| 0 <= k < |before| && before[k] == last.id;
            RemovedFrom(init, k);
          }
        }
        assert Removed(rows) == Removed(init);
        assert AfterDelete(rows, before) == AfterDelete(init, before) + [last];
        assert Kept(rows) == Kept(init) + [last];
      }
    }
  }

  /** Scanning row `i` adds its name to the seen names and removes it exactly when the name was
      seen before. */
  lemma RemoveStep(rows: seq<Row>, i: nat)
    requires i < |rows|
    ensures PathKey(rows[i]).None? ==>
      && PathSet(rows[..i + 1]) == PathSet(rows[..i])
      && Removed(rows[..i + 1]) == Removed(rows[..i])
    ensures PathKey(rows[i]).Some? && PathKey(rows[i]).value in PathSet(rows[..i]) ==>
      && PathSet(rows[..i + 1]) == PathSet(rows[..i])
      && Removed(rows[..i + 1]) == Removed(rows[..i]) + [rows[i]]
    ensures PathKey(rows[i]).Some? && PathKey(rows[i]).value !in PathSet(rows[..i]) ==>
      && PathSet(rows[..i + 1]) == PathSet(rows[..i]) + {PathKey(rows[i]).value}
      && Removed(rows[..i + 1]) == Removed(rows[..i])
  {
    assert rows[..i + 1][..i] == rows[..i];
    RepeatsPrefix(rows, i, i + 1);
    if PathKey(rows[i]).Some? {
      var p := PathKey(rows[i]).value;
      PathSetMembers(rows[..i], p);
      if Repeats(rows, i) {
        var j :| 0 <= j < i && PathKey(rows[j]) == PathKey(rows[i]);
        assert rows[..i][j] == rows[j];
      }
      if p in PathSet(rows[..i]) {
        var j :| 0 <= j < i && PathKey(rows[..i][j]) == Some(p);
        assert rows[j] == rows[..i][j];
      }
    }
  }

  lemma IdsSnoc(rows: seq<Row>, r: Row)
    ensures Ids(rows + [r]) == Ids(rows) + [r.id]
  {
  }

  /** The rows with no file name (null or empty) are never removed. */
  lemma {:induction false} UnnamedKept(rows: seq<Row>, i: nat)
    requires i < |rows| && PathKey(rows[i]).None?
    ensures rows[i] in Kept(rows)
    decreases |rows|
  {
    var n := |rows| - 1;
    if i < n {
      UnnamedKept(rows[..n], i);
      RepeatsPrefix(rows, i, n);
    }
  }

  /** Each kept row is a row of the table that does not repeat an earlier one. */
  lemma {:induction false} KeptFrom(rows: seq<Row>, i: nat)
    requires i < |Kept(rows)|
    ensures exists j :: 0 <= j < |rows| && rows[j] == Kept(rows)[i] && !Repeats(rows, j)
    decreases |rows|
  {
    var n := |rows| - 1;
    var init := rows[..n];
    var prev := Kept(init);
    if i < |prev| {
      KeptFrom(init, i);
      assert Kept(rows)[i] == prev[i];
      var j :| 0 <= j < |init| && init[j] == prev[i] && !Repeats(init, j);
      RepeatsPrefix(rows, j, n);
      assert rows[j] == init[j];
    }
  }

  /** The kept rows appear in table order. */
  lemma {:induction false} KeptOrder(rows: seq<Row>, a: nat, b: nat)
    requires a < b < |Kept(rows)|
    ensures exists ja, jb :: (0 <= ja < jb < |rows|
      && rows[ja] == Kept(rows)[a] && rows[jb] == Kept(rows)[b] && !Repeats(rows, jb))
    decreases |rows|
  {
    var n := |rows| - 1;
    var init := rows[..n];
    var prev := Kept(init);
    var k := Kept(rows);
    assert k[a] == prev[a];
    if b < |prev| {
      KeptOrder(init, a, b);
      assert k[b] == prev[b];
      var ja, jb :| 0 <= ja < jb < |init| && init[ja] == prev[a] && init[jb] == prev[b] && !Repeats(init, jb);
      RepeatsPrefix(rows, jb, n);
      assert rows[ja] == init[ja] && rows[jb] == init[jb];
    } else {
      KeptFrom(init, a);
      var ja :| 0 <= ja < |init| && init[ja] == prev[a] && !Repeats(init, ja);
      assert rows[ja] == init[ja];
      assert k[b] == rows[n];
    }
  }

  /** No two kept rows share a non-empty file name. */
  lemma KeptUnique(rows: seq<Row>, a: nat, b: nat)
    requires a < b < |Kept(rows)| && PathKey(Kept(rows)[a]).Some?
    ensures PathKey(Kept(rows)[a]) != PathKey(Kept(rows)[b])
  {
    KeptOrder(rows, a, b);
  }

  /** Running the clean-up again on the table it left removes nothing (stated both of the kept
      rows and, for distinct ids, of the table after the deletions). */
  lemma {:induction false} SecondRunRemovesNothing(rows: seq<Row>)
    ensures Removed(Kept(rows)) == []
    ensures DistinctIds(rows) ==> Removed(AfterDelete(rows, Ids(Removed(rows)))) == []
  {
    forall a, b | 0 <= a < b < |Kept(rows)| && PathKey(Kept(rows)[a]).Some?
      ensures PathKey(Kept(rows)[a]) != PathKey(Kept(rows)[b])
    {
      KeptUnique(rows, a, b);
    }
    NoRepeatsNothingRemoved(Kept(rows));
    if DistinctIds(rows) {
      AfterDeleteKept(rows);
    }
  }

  lemma {:induction false} NoRepeatsNothingRemoved(rows: seq<Row>)
    requires forall i, j :: 0 <= i < j < |rows| && PathKey(rows[i]).Some? ==> PathKey(rows[i]) != PathKey(rows[j])
    ensures Removed(rows) == []
    decreases |rows|
  {
    if |rows| > 0 {
      var n := |rows| - 1;
      NoRepeatsNothingRemoved(rows[..n]);
    }
  }

  /** The number of rows without a (non-empty) file name. */
  function UnnamedCount(rows: seq<Row>): nat
    decreases |rows|
  {
    if |rows| == 0 then 0
    else UnnamedCount(rows[..|rows| - 1]) + (if PathKey(rows[|rows| - 1]).None? then 1 else 0)
  }

  /** Every row is either removed or kept. */
  lemma {:induction false} RemovedKeptPartition(rows: seq<Row>)
    ensures |Removed(rows)| + |Kept(rows)| == |rows|
    decreases |rows|
  {
    if |rows| > 0 {
      RemovedKeptPartition(rows[..|rows| - 1]);
    }
  }

  /** One row is kept per distinct file name, plus every unnamed row. */
  lemma {:induction false} KeptCount(rows: seq<Row>)
    ensures |Kept(rows)| == |PathSet(rows)| + UnnamedCount(rows)
    decreases |rows|
  {
    if |rows| > 0 {
      var n := |rows| - 1;
      var init := rows[..n];
      KeptCount(init);
      var last := rows[n];
      if PathKey(last).Some? {
        var p := PathKey(last).value;
        PathSetMembers(init, p);
        if p in PathSet(init) {
          assert PathSet(rows) == PathSet(init);
        }
        assert Repeats(rows, n) <==> p in PathSet(init) by {
          if Repeats(rows, n) {
            var j :| 0 <= j < n && PathKey(rows[j]) == PathKey(rows[n]);
            assert init[j] == rows[j];
          }
          if p in PathSet(init) {
            var j :| 0 <= j < n && PathKey(init[j]) == Some(p);
            assert rows[j] == init[j];
          }
        }
      }
    }
  }

  /** The reported count is the row count minus the distinct file names minus the unnamed rows;
      the kept rows are one per distinct name plus all unnamed rows. */
  lemma RemovedCount(rows: seq<Row>)
    ensures |Removed(rows)| + |Kept(rows)| == |rows|
    ensures |Kept(rows)| == |PathSet(rows)| + UnnamedCount(rows)
    ensures |Removed(rows)| == |rows| - |PathSet(rows)| - UnnamedCount(rows)
  {
    RemovedKeptPartition(rows);
    KeptCount(rows);
  }
}
