# Video catalogue write path and genre/category rule, in Dafny

This project models two parts of a Laravel video-catalogue service and proves
properties about them.

1. **The genders-cover-categories validation rule**
   (`app/Rules/GendersHasCategoriesRule.php`).
   - The constructor deduplicates the requested category ids.
   - `passes` deduplicates the submitted gender ids and rejects an empty list or a non-array value.
   - It then walks the genders. It looks up each gender's join rows among the requested categories, and stops early at a gender with none.
   - In the end it compares the number of distinct categories found with the number requested.
   - The model is the class `Rule` in module `GendersHasCategoriesRule`. `Passes` is a loop with invariants.
   - `Passes` is proved to return exactly `Covers`, a set-level predicate: every gender groups at least one requested category, and every requested category is grouped by at least one gender.
   - The `category_gender` table that `getRows` queries is a sequence of join rows, so duplicate rows are possible.

2. **The transactional write path of the `Video` model** (`app/Models/Video.php`), with the file operations it mixes in from its `UploadFiles` trait.
   - `create` and `update` extract the upload handles from the attribute map and open a transaction.
   - They write the row and sync the `categories`/`genders` associations (`handleRelations`).
   - They upload the files under the directory named by the video's id, then commit.
   - On an exception they delete this call's files and roll back.
   - A successful update that carried files then deletes the files it superseded (`oldFiles`).
   - Module `UploadFiles` holds the trait's pure parts: `extractFiles`, relative paths, dirty attributes and old files.
   - Module `VideoModel` holds the state:
     - `Db`: tables plus a stack of transaction snapshots
     - `Disk`: a set of stored paths
     - `Video`: in-memory attributes, original attributes, `exists`, `oldFiles`
   - It also holds the methods that step through them.
   - A failure is injected by naming the step that throws (`failAt`).
   - A sync also throws when an id has no row to refer to, which is the foreign-key failure the rollback tests rely on.

The source of the `UploadFiles` trait (`app/Models/Traits/UploadFiles.php`) is
not part of this model. Its operations are modelled from their tests, under
`tests/Unit/Models/Traits/` and `tests/Feature/Models/Traits/`.

Uploads happen inside the transaction, before the commit
(`app/Models/Video.php:98-99`, `:118-121`), so a failed upload is rolled back
and its files deleted.

## Model

| member | source | states |
|---|---|---|
| GendersHasCategoriesRule.Unique | app/Rules/GendersHasCategoriesRule.php:21 | array_unique keeps exactly the values of its input, each once, and never grows the list |
| GendersHasCategoriesRule.UniqueExample | tests/Unit/Rules/GendersHasCategoriesRuleTest.php:11-22 | the requested ids [1, 1, 2, 2] are held as [1, 2] |
| GendersHasCategoriesRule.UniqueIdempotent | app/Rules/GendersHasCategoriesRule.php:37 | deduplicating an already deduplicated list changes nothing |
| GendersHasCategoriesRule.Rule.constructor | app/Rules/GendersHasCategoriesRule.php:19-22 | the rule holds the requested category ids deduplicated |
| GendersHasCategoriesRule.Rule.Passes | app/Rules/GendersHasCategoriesRule.php:31-57 | holds the deduplicated gender ids; a non-array value, no genders or no categories gives false; the result is true exactly when the genders cover the categories in the sense of Covers |
| GendersHasCategoriesRule.RowsFor | app/Rules/GendersHasCategoriesRule.php:59-66 | getRows yields exactly the requested categories that have a join row with the gender, one per row |
| GendersHasCategoriesRule.Rule.GetRows | app/Rules/GendersHasCategoriesRule.php:59-66 | the rows returned name exactly the rule's requested categories that have a join row with the gender |
| GendersHasCategoriesRule.Found | app/Rules/GendersHasCategoriesRule.php:42-49 | the ids array_push accumulates over the genders are all requested categories |
| GendersHasCategoriesRule.FoundExactly | app/Rules/GendersHasCategoriesRule.php:42-49 | the accumulated categories are exactly the requested ones linked to some submitted gender |
| GendersHasCategoriesRule.CountMatchesIffCovered | app/Rules/GendersHasCategoriesRule.php:51-56 | the distinct count found equals the requested count exactly when every requested category is linked to a submitted gender |
| GendersHasCategoriesRule.CountDecidesCoverage | app/Rules/GendersHasCategoriesRule.php:38-56 | when no early exit applies, the count comparison is exactly Covers |
| GendersHasCategoriesRule.BareGenderDefeatsCoverage | app/Rules/GendersHasCategoriesRule.php:44-47 | a gender with no join rows among the requested categories rules out coverage, whatever the other genders cover |
| GendersHasCategoriesRule.DuplicateRowsIrrelevant | tests/Unit/Rules/GendersHasCategoriesRuleTest.php:72-95 | repeated join rows do not change the distinct count found |
| GendersHasCategoriesRule.OutsideLinksIrrelevant | app/Rules/GendersHasCategoriesRule.php:64 | join rows to categories outside the request do not change coverage |
| GendersHasCategoriesRule.ScenarioSingleGender | tests/Feature/Rules/GendersHasCategoriesRuleTest.php:35-43 | one gender covering the one category requested passes |
| GendersHasCategoriesRule.ScenarioTwoGenders | tests/Feature/Rules/GendersHasCategoriesRuleTest.php:45-55 | two genders each covering one of two categories pass |
| GendersHasCategoriesRule.ScenarioGenderWithSeveral | tests/Feature/Rules/GendersHasCategoriesRuleTest.php:57-68 | a gender may cover several requested categories |
| GendersHasCategoriesRule.FeatureScenariosNotValid | tests/Feature/Rules/GendersHasCategoriesRuleTest.php:71-93 | an unrelated extra gender, or a category no gender groups, fails |
| UploadFiles.RelativePath | tests/Unit/Models/Traits/UploadFilesUnitTest.php:19-22 | a file's path is its directory, a '/', then its name |
| UploadFiles.PathsDoNotCollide | app/Models/Video.php:153-156 | for directories without '/', two paths are equal exactly when both the directories and the names are |
| UploadFiles.ExtractFiles | tests/Unit/Models/Traits/UploadFilesUnitTest.php:82-114 | returns the handles of the file slots in slot order and the map with each replaced by its hashName |
| UploadFiles.UploadsIn | tests/Unit/Models/Traits/UploadFilesUnitTest.php:101-113 | the handles extractFiles returns number at most one per file slot |
| UploadFiles.Rewrite | tests/Unit/Models/Traits/UploadFilesUnitTest.php:89-112 | the attribute map extractFiles leaves has exactly the keys it was given |
| UploadFiles.UploadsInExactly | tests/Unit/Models/Traits/UploadFilesUnitTest.php:101-113 | the extracted handles are exactly the handles the file slots hold |
| UploadFiles.RewriteEntries | tests/Unit/Models/Traits/UploadFilesUnitTest.php:89-112 | the map keeps its size; no file slot holds a handle afterwards; strings and other keys are unchanged |
| UploadFiles.NothingToExtract | tests/Unit/Models/Traits/UploadFilesUnitTest.php:84-99 | a map with no handle in a file slot yields no handles |
| UploadFiles.ExtractIdempotent | tests/Unit/Models/Traits/UploadFilesUnitTest.php:89-99 | extracting from an extracted map finds nothing and changes nothing |
| UploadFiles.ExtractedFileHasSlot | tests/Unit/Models/Traits/UploadFilesUnitTest.php:101-106 | every extracted handle's name is the new value of one of the file slots |
| UploadFiles.ExtractExample | tests/Unit/Models/Traits/UploadFilesUnitTest.php:108-113 | two uploads and a plain key give both handles in order and both names in the map |
| UploadFiles.Dirty | tests/Feature/Models/Traits/UploadFilesTest.php:31-36 | the dirty keys are current keys, and a key equal to its persisted value is not dirty |
| UploadFiles.OldFiles | tests/Feature/Models/Traits/UploadFilesTest.php:20-52 | the old files recorded by an update number at most one per file slot |
| UploadFiles.OldFilesExactly | tests/Feature/Models/Traits/UploadFilesTest.php:20-52 | a name is an old file exactly when it is the truthy previous value of a changed file slot |
| UploadFiles.OldFilesExamples | tests/Feature/Models/Traits/UploadFilesTest.php:20-52 | replacing file2 records its old name; setting a slot that had no value records nothing |
| VideoModel.FileFieldsOrder | app/Models/Video.php:88 | handles come out in the order video, thumb, banner, trailer |
| VideoModel.RelationArg | app/Models/Video.php:135-139 | a key that is unset or null leaves the relation untouched; an id array or a single id is the sync target |
| VideoModel.Synced | app/Models/Video.php:136 | `sync` keeps every link of other videos and adds none for them; the video is linked to an id exactly when the id is in the target |
| VideoModel.SyncIdempotent | app/Models/Video.php:136 | syncing to the same ids a second time changes nothing |
| VideoModel.SyncedExactly | app/Models/Video.php:136 | after a sync the video is linked to exactly the target ids, and other videos keep their links |
| VideoModel.SyncAsDetachAttach | app/Models/Video.php:136 | a sync detaches the current ids missing from the target and attaches the missing target ids |
| VideoModel.SyncScenario | tests/Feature/Models/Video/VideoCrudTest.php:201-230 | syncing [c0] and then [c1, c2] links c1 and c2 and not c0 |
| VideoModel.Related | app/Models/Video.php:133-141 | handleRelations never changes the videos table; when it completes, each relation is synced by its key |
| VideoModel.RelatedSemantics | app/Models/Video.php:133-141 | when handleRelations completes, a set key links the video to exactly its ids, an unset key leaves the links alone, and other videos are untouched |
| VideoModel.NoRelationKeys | tests/Feature/Models/Video/VideoCrudTest.php:168-173 | with neither key, handleRelations completes and changes nothing |
| VideoModel.UnknownCategoryThrows | tests/Feature/Models/Video/VideoCrudTest.php:125-143 | a category id with no category row makes handleRelations throw |
| VideoModel.HandleRelations | app/Models/Video.php:133-141 | completes exactly when both syncs can run, and leaves the tables as Related says |
| VideoModel.Restrict | app/Models/Video.php:64-75 | keeps exactly the entries whose keys are in the given set |
| VideoModel.Fill | app/Models/Video.php:64-75 | fillable entries overwrite the attributes, others are ignored |
| VideoModel.SavingIgnoresGuarded | app/Models/Video.php:64-75 | keys outside $fillable make no difference to an update |
| VideoModel.Saving | app/Models/Video.php:116 | parent::update returns whether the model exists; a missing model is left alone; a failed save keeps the persisted attributes and writes nothing |
| VideoModel.SavedRowMatches | app/Models/Video.php:116 | a successful save brings the row to the new attribute values |
| VideoModel.SavingRecordsOldFiles | tests/Feature/Models/Traits/UploadFilesTest.php:31-36 | an update records as old files exactly the truthy previous names of the file slots it changes |
| VideoModel.Tables.WithChanges | app/Models/Video.php:116 | the UPDATE touches only the row of this video and only the changed columns |
| VideoModel.RemovedExactly | tests/Unit/Models/Traits/UploadFilesUnitTest.php:42-55 | deleting names from a video's directory removes exactly those names there and nothing in other directories |
| VideoModel.SlotNamesStoredFile | tests/Feature/Http/Controllers/Api/VideoControllerTest.php:420-422 | an uploaded slot's value is the handle's hashName, and that file is stored at "{id}/{hashName}" |
| VideoModel.Db.BeginTransaction | app/Models/Video.php:94 | opens a level that remembers the current tables |
| VideoModel.Db.Commit | app/Models/Video.php:99 | closes a level and keeps the tables; does nothing at level 0 |
| VideoModel.Db.RollBack | app/Models/Video.php:105 | restores the innermost level's snapshot and closes it; does nothing at level 0 |
| VideoModel.Video.UploadDir | app/Models/Video.php:153-156 | a video's files are stored under "{id}/" |
| VideoModel.Video.UploadFiles | tests/Unit/Models/Traits/UploadFilesUnitTest.php:32-40 | stores each handle at "{id}/{hashName}" in order, up to the upload that throws |
| VideoModel.Video.DeleteFiles | tests/Unit/Models/Traits/UploadFilesUnitTest.php:71-80 | removes "{id}/{name}" for each name and nothing else |
| VideoModel.Video.DeleteOldFiles | tests/Unit/Models/Traits/UploadFilesUnitTest.php:42-55 | removes exactly the recorded old files, in order, up to the deletion that throws; with none recorded storage is unchanged |
| VideoModel.Video.SaveUpdate | app/Models/Video.php:116 | the model and the row change as Saving says; the transaction level is unchanged |
| VideoModel.Video.Recover | app/Models/Video.php:126-130 | the catch block deletes every file of the call from the video's directory and rolls back one level |
| VideoModel.Video.TryUpdate | app/Models/Video.php:114-121 | the try block reaches the commit exactly when UpdateCommits holds; it then has written the row, synced the relations and stored the files when saved |
| VideoModel.Video.Update | app/Models/Video.php:110-131 | corrected update: before the commit, a failure leaves the tables as they were and none of the call's files stored; after the commit, the row and relations are committed, the new files stored and the old files removed up to any failure |
| VideoModel.Video.UpdateAsWritten | app/Models/Video.php:110-131 | update as written, including a failing deleteOldFiles that runs the catch block after the commit |
| VideoModel.Create | app/Models/Video.php:90-108 | on failure no row or association of the call survives, and its files are deleted once the row was inserted; on success the row holds the fillable attributes, the relations are synced and every file is stored |
| VideoModel.CommittedRowNamesUpload | app/Models/Video.php:113-121 | an update that gets through its commit, with an upload in a file slot, leaves the committed row naming that upload's hashName |
| VideoModel.AsWrittenDropsNewFiles | app/Models/Video.php:122-128 | for every update that commits with an upload in a file slot: the committed row names the upload, and the storage `UpdateAsWritten` leaves when deleteOldFiles throws (any stored set less the paths of the call's files) does not hold it |
| VideoModel.CorrectedKeepsNewFiles | app/Models/Video.php:113-124 | for every update that commits with an upload in a file slot: the committed row names the upload, and the storage the corrected `Update` leaves (the stored set plus the call's files, less any prefix of the old files) holds it unless its name is an old file |
| VideoModel.AsWrittenScenario | app/Models/Video.php:110-131 | replacing video_file with a failing old-file deletion leaves the committed row naming "new.mp4", which is not stored |
| VideoModel.CorrectedScenario | app/Models/Video.php:110-131 | the same call on the corrected update still throws, but "new.mp4" is stored |

## Left out

- `app/Http/Controllers/Api/VideoController.php` is not part of this model. It covers HTTP handling and framework validation strings, the `DB::transaction` it wraps around `create`, and its coercion of a non-array `categories_id` to an empty list.
- Soft deletion, including the rule's query, which does not exclude soft-deleted genders; that check lives in the controller's validation strings.
- Field validation (required, max, date formats, mime types, file sizes) and the attribute casts: framework configuration.
- Id generation (the Uuid trait): `Create` takes the new id as a parameter.
- Storage backends and file contents: storage is a set of path strings, and a handle is identified by its hashName. `getFileUrl` and the URL accessors (`app/Models/Video.php:158-176`) call into storage code that is not part of this model.
- The rule's `message()`: a translation lookup.
- `app/Models/Gender.php`, seeders and migrations: configuration and schema, with no behaviour.
- The `id` and timestamp columns of a row: a row holds the fillable attributes, keyed by id.
- Database engine behaviour: a transaction is a snapshot that rollback restores. There is no isolation and no concurrency.
- An exception thrown inside the catch block itself (a failing `deleteFiles` or `rollBack`) is not modelled.
- A sync that throws is modelled as changing nothing before it throws. Each such sync is followed by a rollback of the enclosing transaction.
- A failing `DB::commit()` is modelled as throwing before it takes effect.
- `uploadFile`/`deleteFile` for one file, and `deleteFiles` taking handles as well as names, are covered through the batch operations on names.
- UploadFiles.OldFiles: lists the old names in `$fileFields` order. The trait's tests compare the old files without regard to order, so the order is a choice of the model. Only string previous values are recorded.
- VideoModel.Saving: the old files are assumed recorded before the UPDATE query, so a failed write still records them. The trait's tests allow this but do not decide it.
- GendersHasCategoriesRule.RowsFor: the `category_gender` table is given to the rule as a sequence of rows rather than queried.
- VideoModel.Video.TryUpdate: on failure it states only the transaction level and bounds on storage, not the partly changed tables. The rollback that always follows replaces those tables.
- VideoModel.Video.UpdateAsWritten: after a failing deletion of old files the in-memory model keeps its saved state, as Eloquent does. Only the tables and storage are rolled back or cleaned.

## Findings

| source | as written | input that shows it | evidently intended | confidence | as-written member | corrected member |
|---|---|---|---|---|---|---|
| app/Models/Video.php:122-128 | `deleteOldFiles()` runs after `DB::commit()` but inside the `try`, so its exception runs the catch block: `deleteFiles($files)` and `DB::rollBack()` | `update` of a stored video replacing `video_file` ("old.mp4") with an upload "new.mp4", outside any enclosing transaction, while deleting "old.mp4" throws | a failure while deleting superseded files leaves the committed row and the files it names in place | not executed | VideoModel.Video.UpdateAsWritten | VideoModel.Video.Update |

How the as-written update goes wrong:

- The row commits naming "new.mp4".
- The catch block then deletes "v1/new.mp4".
- The rollback finds no open level, so it does nothing.

`VideoModel.AsWrittenScenario` shows this case. `VideoModel.AsWrittenDropsNewFiles` states, for every update that commits with an upload in a file slot, that the committed row names the upload and that storage less the call's paths, the form `UpdateAsWritten`'s ensures gives to its final storage when the deletion throws, does not hold it.

When `update` runs inside an enclosing transaction (the controller opens one), the stray `rollBack()` does something else: it restores the caller's snapshot and closes the caller's level. `UpdateAsWritten` states this case too.

The corrected `Update` runs the deletion of old files after the `try` block. Its error still propagates, but the committed row and the uploaded files stay. `VideoModel.CorrectedKeepsNewFiles` states, for every such update, that the row names the upload and that the storage in the form `Update`'s ensures gives keeps it unless it is itself an old file. `VideoModel.CorrectedScenario` shows the concrete case.
