# MemBoard in Dafny

MemBoard is a digital-signage application. An administrator keeps a photo library grouped into
categories, a list of text messages and a settings record. A full-screen display board builds a
playlist from them and plays it in a loop. This project models the logic behind that, as pure
functions over immutable values, and proves properties of the model:

- the display board's playlist builder: photo selection, message selection, durations, the
  Fisher–Yates shuffle, and blank interstitials (`Queue`, `Shuffle`);
- its timer loop (`Playback`);
- the settings merge with defaults (`SettingsStore`);
- the admin photo manager's state updates (`Library`);
- the browser photo store (`PhotoStore`);
- the server photo routes: listing, upload with duplicate skipping, and duplicate clean-up
  (`PhotoApi`).

Shared pieces:

- `Data`: the record types and seed constants.
- `Groups`: a category map as an ordered sequence of `(name, photos)` entries. JavaScript
  objects keep string keys in insertion order; the screens rely on that order.
- `Text`: the JavaScript string built-ins used: `trim`, `split(/\s+/)`,
  `split(' ').slice(0, 2).join(' ')`, `toLowerCase`, `lastIndexOf`, `replace(/[-_]/g, ' ')`.
- `Seqs`: generic filter, map and flatten lemmas.
- `Wrappers`: `Option`.

Nothing outside the model is simulated. The random source, clocks and id generators are
parameters:

- `Math.random` is an infinite stream of draws, `nat -> nat`. The draw `d` taken at position
  `i` picks the partner `d % (i + 1)`. That ranges over exactly the indices `0..i` that
  `Math.floor(Math.random() * (i + 1))` can give.
- `Date.now` and `crypto.randomUUID` are functions from the index of the inserted photo to an
  `int`.

Storage is a value passed in and returned:

- The browser object store is a sequence of records in strictly increasing key order. That is
  the order `getAll` returns them in.
- The SQL `photos` table is a sequence of rows in query order.
- Browser local storage entries are given as already-parsed values. Three cases are kept apart:
  absent or empty text, unparsable, and parsed. An empty text fails the same truthiness test as
  an absent entry (`src/lib/photo-db.ts:156`), so the two share a case. The admin page's saved
  map also keeps its raw text, since the page compares that text with `'{}'`.

A message carries a `schedule` text (`src/lib/data.ts:5`). The board selects messages by
`status === 'Active'` alone (`src/components/display-board.tsx:101`) and never reads
`schedule`. `Queue.QueueMessageItems` states that no schedule is consulted.

## Model

| member | source | states |
|---|---|---|
| Data.DefaultSettingsValues | src/lib/data.ts:100-111 | the default durations (10 s photos, 3 s blanks), scroll speed 50, font size 48 and toggles; `monitorActivity` is absent and so false |
| Data.InitialMessagesOneActive | src/lib/data.ts:33-52 | of the three seed messages exactly the first (id 1) is active |
| Data.InitialPhotoGroupsShape | src/lib/data.ts:54-97 | the seed library has categories family, events, scenery with 2, 1, 3 photos, ids 1 to 6, each with an image |
| SettingsStore.SpreadCompleteDocument | src/lib/settings-db.ts:15 | a document holding every field determines the merged record whatever the base |
| SettingsStore.SpreadEmptyDocument | src/lib/settings-db.ts:15 | an empty document gives back the base |
| SettingsStore.SpreadIdempotent | src/lib/settings-db.ts:15 | merging the same document again changes nothing |
| SettingsStore.GetSettings | src/lib/settings-db.ts:11-25 | a found document is merged over the defaults and nothing is written; a missing one gives the defaults and writes them; a failed read gives the defaults |
| SettingsStore.LoadDisplaySettings | src/components/display-board.tsx:52-55 | the board's saved copy is merged over the defaults; no copy means the defaults |
| SettingsStore.DisplayAgreesWithStore | src/components/display-board.tsx:52-55 | the board's merge and the settings store's merge give the same record for the same document |
| Text.TrimEmptyIffBlank | src/app/admin/photos/page.tsx:265-266 | `name.trim()` is empty exactly when the name is all white space |
| Text.TrimIdempotent | src/app/admin/photos/page.tsx:313 | trimming twice is trimming once |
| Text.JoinWordsPieces | src/components/display-board.tsx:103 | a text of `n` words separated by single spaces splits on `/\s+/` into exactly `n` pieces |
| Text.JoinSplit | src/app/admin/photos/page.tsx:188-190 | joining the parts of `split(sep)` with `sep` gives back the text |
| Text.FirstTwoTokensPrefix | src/app/admin/photos/page.tsx:186-190 | the first two space-separated tokens are a prefix of the text: the whole text when it has at most one space, otherwise the text up to its second space, holding exactly one space |
| Text.FirstTwoTokensExample | src/app/admin/photos/page.tsx:186-190 | the first two tokens of `"a b c"` are `"a b"` |
| Text.LastIndexOf | src/app/api/photos/route.ts:42 | the result is -1 exactly when the character is absent; otherwise that position holds it and no later one does |
| Text.DashesToSpaces | src/app/api/photos/route.ts:42 | no `-` or `_` is left; a character changes only if it was one, and then into a space; text without them comes back unchanged |
| Text.DashesToSpacesIdempotent | src/app/api/photos/route.ts:42 | replacing twice gives the same text as replacing once |
| Text.LowerAscii | src/app/admin/photos/page.tsx:187 | no upper-case ASCII letter is left; a character changes only if it was one, and then into its lower-case letter; text without one comes back unchanged |
| Text.LowerAsciiIdempotent | src/app/admin/photos/page.tsx:187 | lowering twice gives the same text as lowering once |
| Shuffle.Partner | src/components/display-board.tsx:28 | the partner chosen at position `i` lies in `0..i` |
| Shuffle.SwapPermutes | src/components/display-board.tsx:29 | a swap exchanges two positions, keeps the rest and permutes the multiset |
| Shuffle.PassesPermute | src/components/display-board.tsx:27-30 | the passes from the last index down to 1 only permute |
| Shuffle.Shuffled | src/components/display-board.tsx:25-32 | the shuffle returns a permutation of its input, and the input itself when it has fewer than two elements |
| Shuffle.ShuffleCopy | src/components/display-board.tsx:25-32 | the loop over a copy computes the shuffle, permutes the input and uses one draw per position from the last down to 1 |
| Groups.GroupBy | src/lib/photo-db.ts:44-51 | grouping yields distinct category names |
| Groups.FirstOccurrencesSpec | src/lib/photo-db.ts:45-47 | the names in first-occurrence order are pairwise distinct and are exactly the names that occur |
| Groups.GroupByKeys | src/lib/photo-db.ts:44-51 | the categories are created in the order their names first occur |
| Groups.GroupByGet | src/lib/photo-db.ts:44-51 | a category holds exactly the photos filed under it, in input order; a name with none is not a category |
| Groups.GroupByNonEmpty | src/lib/photo-db.ts:46-50 | no grouped category is empty |
| Groups.GroupByTotal | src/lib/photo-db.ts:45-51 | grouping keeps every photo: the category sizes add up to the input length |
| Groups.AppendPhotoKeys | src/app/admin/photos/page.tsx:193-196 | appending to a category keeps the names and their order, adding the category last when it is new |
| Groups.AppendPhotoGet | src/app/admin/photos/page.tsx:193-196 | the category ends with the new photo after its old ones (none if new); other categories are unchanged |
| Groups.RemoveKeyKeys | src/app/admin/photos/page.tsx:299-303 | deleting a key leaves the other names in their order |
| Groups.RemoveKeyDistinct | src/app/admin/photos/page.tsx:299-303 | deleting a key keeps the names distinct |
| Groups.RenameKey | src/app/admin/photos/page.tsx:332-347 | the renamed key takes the old one's position with the same photos; nothing changes when the old name is not a key |
| Groups.RemovePhotoId | src/app/admin/photos/page.tsx:213-216 | every category is kept, with the photos carrying the id filtered out |
| Groups.RemovePhotoIdGet | src/app/admin/photos/page.tsx:213-216 | looking a category up after the removal gives its old photos without that id |
| Queue.PhotoDurationMs | src/components/display-board.tsx:94 | a zero setting falls back to ten seconds; any other setting, negative ones included, is taken in seconds; the result is positive exactly for a non-negative setting |
| Queue.MessageDurationFormula | src/components/display-board.tsx:102-107 | the integer duration equals the source's formula evaluated exactly over the reals; it is positive below scroll speed 150 and at least 11 s for speeds 0 to 100 |
| Queue.WelcomeMessageDuration | src/components/display-board.tsx:102-107 | a four-word message at the default speed shows for 28000 ms |
| Queue.GroupedPhotos | src/components/display-board.tsx:76-85 | one block per category in category order, each a permutation of its category, and the categories themselves without in-group shuffling |
| Queue.SelectPhotosContents | src/components/display-board.tsx:71-97 | the shown photos all have an image; there are none unless photos are on and a category exists; they are the library's photos with an image as a multiset, and in library order when no photo shuffle is on |
| Queue.SelectPhotosBlocks | src/components/display-board.tsx:76-88 | without whole-library shuffling the photos come category by category, each block filtered for images, so a category is never split |
| Queue.Content | src/components/display-board.tsx:117-120 | the global shuffle only permutes photos-then-messages and is skipped when `randomize` is off |
| Queue.InsertBlanks | src/components/display-board.tsx:123-131 | the playlist has `2n - 1` entries for `n >= 1` items and none for none |
| Queue.InsertBlanksAt | src/components/display-board.tsx:125-130 | item `i` sits at position `2i` and a blank at every odd position |
| Queue.RemoveBlanksAfterInsert | src/components/display-board.tsx:123-131 | dropping the blanks gives back the blank-free content |
| Queue.ContentHasNoBlank | src/components/display-board.tsx:68-120 | the content list holds no blank entries |
| Queue.QueueShape | src/components/display-board.tsx:122-131 | no content gives an empty queue; with blanks off the queue is the content; with blanks on it alternates content and `blankDuration`-second blanks, never starting or ending with a blank |
| Queue.QueuePhotoItems | src/components/display-board.tsx:70-97 | every photo entry has an image and the photo duration; there are none unless photos are on and a category exists |
| Queue.QueueMessageItems | src/components/display-board.tsx:99-115 | the message entries are the active messages with font size and text-length duration, in stored order without `randomize` and as a multiset with it |
| Queue.DeterministicWithoutShuffling | src/components/display-board.tsx:50-131 | with all three shuffles off the playlist does not depend on the random draws |
| Playback.LoadFinished | src/components/display-board.tsx:143-150 | loading ends; the built playlist is installed on success and the old one kept on failure; the index is untouched |
| Playback.LoadFromInitialValid | src/components/display-board.tsx:143-150 | loading from the mount state gives a valid board, which plays exactly when a non-empty playlist was built |
| Playback.Current | src/components/display-board.tsx:157-162 | an entry is shown exactly when loading is over and the playlist is non-empty, and it is a playlist entry |
| Playback.BlankSignal | src/components/display-board.tsx:165 | the blank signal is raised exactly when the shown entry is a blank; nothing is sent when nothing is shown |
| Playback.SignalCallAsWritten | src/components/display-board.tsx:165 | the callback is called with the blank flag whenever an entry is shown; without a callback that call throws |
| Playback.HomePageThrows | src/app/page.tsx:19 | mounted as the home page mounts it, the board throws at the first entry of any playlist |
| Playback.SignalCallGuarded | src/components/display-board.tsx:165 | with an optional call the effect never throws, and a present callback receives the blank signal |
| Playback.GuardedAgreesUnlessThrown | src/components/display-board.tsx:165 | the guarded call differs from the written one only where the written one throws, and there it makes no call |
| Playback.TimerMs | src/components/display-board.tsx:184 | the delay is always positive: the entry's duration when positive, else 5000 ms |
| Playback.Step | src/components/display-board.tsx:190 | a firing moves to the next entry and wraps from the last to the first; nothing moves when the loop is not running |
| Playback.Steps | src/components/display-board.tsx:186-191 | repeated firings keep the playlist and keep the index valid |
| Playback.StepsWithinCycle | src/components/display-board.tsx:190 | within one cycle the index after `n` firings is `index + n`, wrapped once past the end |
| Playback.FullCycle | src/components/display-board.tsx:190 | after as many firings as entries the board is back where it started |
| Playback.Periodic | src/components/display-board.tsx:190 | the board is periodic with the playlist length as period |
| Playback.EveryEntryShown | src/components/display-board.tsx:156-191 | every entry comes on screen within one cycle, after a given number of firings |
| Playback.AlternatingSignal | src/components/display-board.tsx:165 | on a playlist with blanks exactly at odd positions, the signal after `n` firings is whether `n` is odd |
| Playback.BlankSignalAlternates | src/components/display-board.tsx:123-165 | on any freshly built playlist with blanks on, the blank signal alternates, starting with content |
| Library.After | src/app/admin/photos/page.tsx:274-278 | a refused handler leaves the page state unchanged |
| Library.LoadGroups | src/app/admin/photos/page.tsx:119-132 | no entry, an empty entry, the exact text `'{}'` or unparsable text gives the page's own sample library; other text gives what it parses to; the page starts with no categories exactly when such text parses to an empty map |
| Library.AdminSampleMatchesSeed | src/app/admin/photos/page.tsx:56-99 | the page's sample has the seed library's categories and photos, except that every picture is the 400x300 placeholder |
| Library.LoadSpacedEmptyMap | src/app/admin/photos/page.tsx:122-123 | a saved `"{ }"` passes the `'{}'` test and leaves the page with no categories, while `"{}"` gives the sample library |
| Library.SyncActiveTab | src/app/admin/photos/page.tsx:142-151 | a missing tab falls back to the first category, or `''` with none; the result is synced, and a synced state is left alone |
| Library.SyncActiveTabIdempotent | src/app/admin/photos/page.tsx:142-151 | running the sync effect twice is running it once |
| Library.AddCategorySpec | src/app/admin/photos/page.tsx:263-280 | refused exactly for a blank or existing name; otherwise an empty category is added last and selected, others untouched, invariant kept |
| Library.AppendNewKey | src/app/admin/photos/page.tsx:267-270 | a new empty key goes last, keeps names distinct and leaves other lookups unchanged |
| Library.RemainingCategory | src/app/admin/photos/page.tsx:292-297 | with at least two categories one remains after deleting one |
| Library.DeleteCategorySpec | src/app/admin/photos/page.tsx:282-304 | refused exactly with at most one category; otherwise only that category goes, a deleted selected tab passes to the first remaining, and the invariant is kept |
| Library.RemoveKeyGet | src/app/admin/photos/page.tsx:299-303 | after deleting a key its lookup fails and other lookups are unchanged |
| Library.RenameCategorySpec | src/app/admin/photos/page.tsx:310-354 | refused exactly for a blank or another category's name; same name changes nothing; otherwise the key is replaced in place with its photos, the tab follows, and the invariant is kept |
| Library.DeletePhotoSpec | src/app/admin/photos/page.tsx:211-219 | no photo keeps the id, all other photos stay in their category, names and tab unchanged |
| Library.UpdatePhotoSpec | src/app/admin/photos/page.tsx:232-254 | the edited photo leaves every category and ends the chosen one, which is created last if new; other photos stay |
| Library.UploadPhotoSpec | src/app/admin/photos/page.tsx:175-209 | ignored exactly without a file or with a blank description; otherwise the new photo (clock id, data URL, description, and as hint the lower-cased description up to its second space, or all of it with at most one space) ends the chosen category and nothing else changes |
| PhotoStore.Lookup | src/lib/photo-db.ts:27 | a key finds a stored record carrying it, and finds nothing exactly when no record carries it |
| PhotoStore.PutSpec | src/lib/photo-db.ts:101 | a put keeps key order, makes the record the one under its key, leaves other keys alone, and grows the store exactly for a new key |
| PhotoStore.AddAllCommits | src/lib/photo-db.ts:71-80 | a transaction of adds commits exactly when its keys are new and distinct |
| PhotoStore.AddAllSpec | src/lib/photo-db.ts:71-80 | a committed batch stores each new record under its key and keeps the old ones |
| PhotoStore.Tag | src/lib/photo-db.ts:77-80 | each photo is stored with the category alongside |
| PhotoStore.AddPhotosSpec | src/lib/photo-db.ts:68-82 | `addPhotos` commits exactly when the ids are fresh; then each photo is stored under its id with the category |
| PhotoStore.UpdatePhotoSpec | src/lib/photo-db.ts:95-105 | after an update the photo is the record under its id with the new category; other keys are unchanged |
| PhotoStore.DeletePhotoSpec | src/lib/photo-db.ts:84-93 | after a delete no record has the id and every other key keeps its record |
| PhotoStore.DeleteCategorySpec | src/lib/photo-db.ts:128-146 | exactly the records of the category are gone |
| PhotoStore.RenameCategorySpec | src/lib/photo-db.ts:107-126 | exactly the records tagged with the old name are retagged; ids, photos and order are kept |
| PhotoStore.GetPhotoGroups | src/lib/photo-db.ts:34-55 | the grouped library has distinct category names |
| PhotoStore.GetPhotoGroupsKeys | src/lib/photo-db.ts:42-51 | the categories come in the order their names first occur among the records in key order; the board reads its photo blocks in this order |
| PhotoStore.GetPhotoGroupsSpec | src/lib/photo-db.ts:42-51 | a category holds exactly its records' photos in key order; no category is empty; every record appears once |
| PhotoStore.DeleteCategoryGroups | src/lib/photo-db.ts:128-146 | after deleting a category the grouped library lacks it and every other category is unchanged |
| PhotoStore.MigrationRecordsFrom | src/lib/photo-db.ts:167-176 | each migrated record is a photo with an id and an image from an array-valued category, tagged with that category |
| PhotoStore.MigrateSpec | src/lib/photo-db.ts:148-196 | a set flag or an unparsable entry writes nothing and answers false; an entry parsing to `null` or `{}` sets the flag and answers false; an absent or empty-text entry migrates the sample library; a run is rejected exactly on a repeated or stored id; a completed run adds exactly the migrated records |
| PhotoApi.GroupOf | src/app/api/photos/route.ts:18 | a row without a group name is served under `'default'` |
| PhotoApi.GetGroups | src/app/api/photos/route.ts:7-23 | the served map has distinct category names |
| PhotoApi.GetGroupsKeys | src/app/api/photos/route.ts:15-21 | the groups come in the order their names, with `'default'` for rows without one, first occur in row order |
| PhotoApi.GetGroupsSpec | src/app/api/photos/route.ts:7-23 | a group holds exactly its rows' photos in table order; no group is empty or named `''`; every row is served once |
| PhotoApi.UploadGroup | src/app/api/photos/route.ts:27 | a missing or empty group field means `'default'` |
| PhotoApi.HintSpec | src/app/api/photos/route.ts:42 | the hint is the name before its last dot with dashes and underscores as spaces, and empty without a dot |
| PhotoApi.UploadedHintSpec | src/app/api/photos/route.ts:42-46 | the stored `data_ai_hint` is the derived hint up to its second space, or all of it when it has at most one space |
| PhotoApi.PostPartition | src/app/api/photos/route.ts:32-48 | every file is either reported as a duplicate or stored |
| PhotoApi.AcceptedFrom | src/app/api/photos/route.ts:33-37 | each stored file is a file of the batch whose name was not stored before |
| PhotoApi.AcceptedNamesDistinct | src/app/api/photos/route.ts:33-47 | the stored files have pairwise distinct names |
| PhotoApi.PathAfterPrefix | src/app/api/photos/route.ts:33-34 | the table holds a file's name exactly when it was stored before or is an earlier file's name |
| PhotoApi.Post | src/app/api/photos/route.ts:25-51 | duplicates are reported in order; every other file is inserted, with the next id and timestamp, and returned |
| PhotoApi.RemoveDuplicates | src/app/api/photos/remove-duplicates/route.ts:4-24 | the ids collected are those of the rows repeating an earlier row's non-empty file name, and `removed` counts them; the table after the delete loop has the rows with no collected id, which with distinct ids are exactly the kept rows |
| PhotoApi.AfterDeleteSnoc | src/app/api/photos/remove-duplicates/route.ts:19-21 | one more `DELETE … WHERE id = ?` removes exactly the rows with that id from what is left |
| PhotoApi.AfterDeleteKept | src/app/api/photos/remove-duplicates/route.ts:19-21 | with distinct ids, deleting the collected ids leaves exactly the first row of each name and every unnamed row |
| PhotoApi.RemoveStep | src/app/api/photos/remove-duplicates/route.ts:11-17 | a row is removed exactly when its name is already in the seen set; new names are added |
| PhotoApi.PathSetMembers | src/app/api/photos/remove-duplicates/route.ts:8-16 | the seen set holds exactly the non-empty names of the rows scanned so far |
| PhotoApi.UnnamedKept | src/app/api/photos/remove-duplicates/route.ts:12-16 | rows with no file name are never removed |
| PhotoApi.KeptUnique | src/app/api/photos/remove-duplicates/route.ts:11-17 | no two kept rows share a non-empty file name |
| PhotoApi.SecondRunRemovesNothing | src/app/api/photos/remove-duplicates/route.ts:4-24 | running the clean-up again removes nothing, both on the kept rows and, with distinct ids, on the table the delete loop left |
| PhotoApi.RemovedCount | src/app/api/photos/remove-duplicates/route.ts:19-23 | removed plus kept is all rows; one row is kept per distinct name plus every unnamed row |

## Left out

- Rendering, animation, the status messages (`onStatusChange` strings) and the `monitorActivity`
  logging branches. They produce display text only.
- Timers as real time. `setTimeout` is one `Playback.Step` after `Playback.TimerMs`
  milliseconds. The clean-up call `onBlankScreenChange(false)` on re-run is not modelled.
- The distribution of `Math.random`. Draws are arbitrary naturals, so the properties hold for
  every outcome. Uniformity of the shuffle is not stated.
- The I/O itself: local storage, IndexedDB open and upgrade, Firestore, SQLite, `FileReader`,
  base64 encoding and HTTP. Their results are parameters: a parsed entry, a store value, a
  table, a data URL string. The save effect that writes the admin map back is not modelled.
- Text.LowerAscii: lowers ASCII letters only. JavaScript's `toLowerCase` also maps other
  Unicode letters.
- Groups.GroupBy / PhotoStore.GetPhotoGroups / PhotoApi.GetGroups: group names that a plain
  object inherits from `Object.prototype` are not modelled. Examples are `"constructor"`,
  `"toString"` and `"__proto__"`. In the source, `!groups[name]` is false for such a name, so no
  array is made and `groups[name].push(...)` throws (`src/lib/photo-db.ts:45-49`,
  `src/app/api/photos/route.ts:19-20`). The store's promise then never settles, and the GET route
  fails. The admin page's `hasOwnProperty` test (`src/app/admin/photos/page.tsx:266`) lets such
  a name in. The model files these photos like any other name.
- JavaScript's ordering of integer-like object keys (`"2024"` sorts before other keys). Category
  maps keep plain insertion order.
- Library.LoadGroups: a saved JSON value that is not an object (a number, string, array or
  `null`) is not modelled. The parse result is given as a category map or as a failure.
- PhotoStore.MigrateSpec: stored JSON that is not an object or `null` is not modelled. That
  covers numbers, strings and arrays. Truthiness of `photo.id` is modelled for integer ids
  only.
- A rejected migration promise escapes the surrounding `try` because it is returned, not
  awaited. The model reports it as `Rejected` and does not model the caller.
- Ids are integers everywhere. Server rows use UUID strings. `deletePhoto` in `src/lib/photo-db.ts`
  takes its key as a string, while stored keys are numbers. That type mismatch is not modelled:
  the key is taken as the record's id.
- The SQL query results are taken in the order the queries return them. `ORDER BY createdAt` is
  assumed done by the database.
- The admin `handleEditClick` lookup and the dialog state (open flags, form resets) are not
  modelled. They only prefill forms.
- Time-of-day message scheduling is not modelled because the code never reads `schedule`.
- Queue.MessageDurationFormula: the source computes the duration in IEEE doubles. The model
  computes it exactly. The two differ by rounding: one word at scroll speed 10 gives
  30799.999999999996 ms in doubles and 30800 ms here.
- Settings are integers. The settings form stores `Number(value)` from unbounded number inputs
  (`src/app/admin/settings/page.tsx:59`, `:142`, `:146`). Fractional settings are not modelled.
  Negative ones are, as integers.
- Playback.BlankSignalAlternates: stated for the first cycle from a fresh start. Later cycles
  follow from `Playback.Periodic`.

## Findings

| source | as written | input that shows it | evidently intended | confidence | as-written member | corrected member |
|---|---|---|---|---|---|---|
| src/app/page.tsx:19 | the home page mounts the board without `onBlankScreenChange`. The board declares that prop required and calls it unconditionally for every entry it shows (`src/components/display-board.tsx:165`) | any non-empty playlist, e.g. one photo: the first run of the timer effect calls `undefined` and throws a `TypeError` | the home page passes a callback, or the board calls it only when present (`onBlankScreenChange?.(…)`) | medium, not executed | Playback.SignalCallAsWritten, Playback.HomePageThrows | Playback.SignalCallGuarded |
