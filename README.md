# Ransomware-containment agent: a Dafny model

The agent watches a mount point through fanotify. It answers every open-permission event with ALLOW or DENY. It tries to catch a process that rewrites many files in a short time, and to undo what that process wrote. The repository holds two versions of the agent, and both are modelled.

- **The in-memory agent** (`antivirus.cpp`, module `Antivirus`). An `ActionStorage` class keeps, per pid, per directory and per file name, the time of the last completed write. A pid with more than three distinct files in one directory is banned, and every later open by it is denied.
- **The database-backed agent** (`src/`), modelled by the modules below:
  - Five SQLite tables, each a class whose field is the table's contents:
    - `actions` (`Actions.ActionsTable`, rows in insertion (rowid) order, which the model fixes as the order of every query result);
    - `files` (`Files.FilesTable`, a one-to-one id/path map);
    - `files_hash` (`FilesHash.FilesHashTable`);
    - `files_content` (`FilesContent.FilesContentTable`);
    - the white and black lists (`Lists.ListTable`).
  - Every SQL statement is a pure function over those contents (`Select`, `Targets`, `GroupByDir`, `Upsert`, ...). Every table method ensures its new contents equal that function applied to its old contents.
  - The `Database` facade, `FileList`, and the `File` and `Process` handles (`Db`, `FileOps`, `Processes`).
  - The quarantine step `BanProcessAndRestoreFiles` (`Quarantine`).
  - The fanotify handlers of `main.cpp` (`Agent`).
  - The list-management command `lists.cpp` (`ListsCli`).

The host is reached through three kinds of input:
- The filesystem is the `Common.Disk` class, a map from path to bytes.
- Resolving a `/proc` link is an input. An event carries its target path and its writer's binary path, or `None` when the link could not be read.
- The steady clock is an input: one reading, `now`, per event.

An exception, or undefined behaviour such as dereferencing an empty `std::optional`, becomes an `Err` or `Failed` value. Handling of that event stops there.

Where the code departs from what it evidently intends, the model follows the code:
- **Snapshot lookup.** `FilesContentTable::GetContent` runs the `count(*)` statement instead of the `SELECT content` one. It therefore yields the text "1" or "0", never the snapshot. A restored file receives that one byte (`FilesContent.GetContentIsCountText`, `FileOps.RestoredContentIsNotSnapshot`).
- **Hash deletion.** `FilesHashTable::Delete` runs the select-by-id statement, so hash rows are never removed.
- **Reclaiming by `DeleteOld`.** It keeps an id only if the id has a recent action *as a binary* or is listed. A file that was only written recently can lose its `files` row and its snapshot (`Db.PrunedMeaning`, `Db.RecentlyWrittenTargetIsReclaimed`).
- **Burst counts.** The burst rule counts action rows per directory, not distinct files. One file rewritten three times within 100 ms is a burst (`Processes.RewritingOneFileThriceIsBurst`). The window (100 ms) and the threshold (3) are hard-coded.
- **Unhashed binaries.** A binary without a stored hash gets the CRC-32 of "0" or "1" as its hash. That hash is never 123456789, so such a binary can never open the agent's database (`Processes.UnhashedBinaryIsDeniedDb`).
- **Write handler and the database file.** The write handler does not treat the agent's own database file specially.
- **Failures and replies.** `main.cpp` catches no exception. A failure while an event is handled means no reply is written for it, and it ends the agent: the later events of the batch, and all later batches, go unhandled (`Agent.HandleEvents` stops at the first failure).
- **The binary link.** `Process::GetBinary` reads `/pid/<pid>/exe`, not `/proc/<pid>/exe`. On a standard Linux system that link does not exist, so resolution fails. The model keeps the resolved path as an input (`Process.exe`), which also covers that failure.
- **The in-memory truncation.** `TruncateTimeQueue` looks up the map under the full path of the written file, not under its directory, and edits a copy of it. It can therefore only drop an unrelated directory key that happens to equal that path (`Antivirus.TruncationAfterRecord`).

## Model

| member | source | states |
|---|---|---|
| Antivirus.ActionStorage.constructor | antivirus.cpp:17-33 | a fresh storage has no actions and no banned pid |
| Antivirus.ActionStorage.Add | antivirus.cpp:35-39 | the new map is the write recorded under (pid, parent directory, file name) at `now`, followed by the truncation for the full path; bans unchanged |
| Antivirus.Recorded | antivirus.cpp:37 | recording touches only (pid, dir, name): that entry becomes `now`, every other pid, directory and file entry is kept, and the key sets grow by exactly the new keys |
| Antivirus.ActionStorage.Check | antivirus.cpp:41-60 | the answer is "not banned and no directory with more than three files"; a banned pid changes nothing; a true answer changes nothing; a newly failing pid is banned and its actions erased (the maps are `AfterCheck` of the old ones) |
| Antivirus.CheckSettles | antivirus.cpp:41-60 | a check bans at most the checked pid, exactly when it fails, keeps every other pid's actions, and a second check gives the same answer and changes nothing |
| Antivirus.ActionStorage.TruncateTimeQueue | antivirus.cpp:62-77 | the new map drops the key `path` only when its copy has no entry within 1000 ms of `tp`, and drops the pid when it has no directory left |
| Antivirus.Fresh | antivirus.cpp:64-70 | exactly the entries not older than the checking interval are kept, with their times |
| Antivirus.TruncationAfterRecord | antivirus.cpp:35-77 | the truncation after a recorded write never removes or changes the directory just written, and changes nothing unless the full path is itself a stale directory key |
| Antivirus.FourthDistinctFileTrips | antivirus.cpp:35-60 | for a directory holding three files, a write makes the pid crowded exactly when the written name is new; rewrites never trip it |
| Antivirus.CalmSubDirs | antivirus.cpp:49-55 | dropping directories cannot make a pid crowded |
| Antivirus.HandleWrite | antivirus.cpp:79-88 | the write is recorded, then checked; the pid is reported dangerous exactly when it ends up banned; both maps are given in every case: unchanged bans and the recorded map for a trusted or already banned pid, and for a newly dangerous one the recorded map without the pid and the bans plus exactly the pid |
| Antivirus.HandleOpen | antivirus.cpp:90-95 | the reply carries the event's fd and is ALLOW exactly when the check passes, i.e. exactly when the pid is not banned afterwards; on a first DENY the pid's actions are erased and exactly the pid is banned, otherwise both maps are unchanged |
| Antivirus.PermissionEvents | antivirus.cpp:117-125 | the permission events are events of the batch that need a reply, no more of them than events |
| Antivirus.PermissionEventsMeaning | antivirus.cpp:117-125 | every event of the batch that needs a reply is a permission event, the converse of `PermissionEvents`' contract |
| Antivirus.PermissionEventsPrefix | antivirus.cpp:112-127 | the permission events of a prefix of a batch are a prefix of the batch's |
| Antivirus.SteppedBansForGood | antivirus.cpp:117-125 | one event never lifts a ban and bans at most its own pid; an already banned pid stays banned and denied; every other pid's actions are kept |
| Antivirus.HandleEvent | antivirus.cpp:79-125 | the outcome and both maps are `Stepped` of the old maps, and the replies are `Answered` (ALLOW exactly when the check passes on the maps the write left): the write is handled before the open, on the maps the write left; a close-write whose fd link does not resolve throws with nothing changed and no reply; otherwise one reply, for the event's fd, exactly when the event has an fd and a permission bit; an event without an fd changes nothing |
| Antivirus.HandleEvents | antivirus.cpp:97-129 | the outcome, the replies with their ALLOW/DENY verdicts, and both final maps are `Run` of the old maps: each event on the maps the previous one left, stopping at the first that throws; the replies go to the permission events in order, one each, for their own fds, and every one is answered when none throws |
| Antivirus.RunStep | antivirus.cpp:112-127 | one more event of a batch not yet stopped is handled on the maps the prefix left, adding its own reply |
| Antivirus.RunStopsAtFailure | antivirus.cpp:112-127 | once an event throws, later events of the batch change nothing |
| Antivirus.RunAnswersPermissionEvents | antivirus.cpp:117-125 | the replies of a batch go to its permission events in order, for their fds, all of them unless an event throws |
| Antivirus.RunBansForGood | antivirus.cpp:41-60 | a batch never lifts a ban, bans only pids of its events, and keeps the actions of every other pid |
| Common.ParentPath | antivirus.cpp:37 | the parent is the prefix before the last separator (when one follows the first character) and is never longer than the path |
| Common.FileName | antivirus.cpp:37 | the file name has no separator and is never longer than the path |
| Common.SplitPath | antivirus.cpp:37 | a path with an inner separator is exactly its parent, "/", and its file name |
| Common.Disk.Read | src/file.cpp:20-25 | reading yields the file's bytes, or nothing for a missing file |
| Common.Disk.Write | src/file.cpp:39-42 | writing replaces exactly the one file's bytes |
| Checksum.CalculateHash | src/utils.cpp:11-15 | the CRC-32 of the bytes, a 32-bit value |
| Checksum.ChecksumOfZeroText | src/utils.cpp:11-15 | the checksum of the text "0" is 0xF4DBDF21 |
| Checksum.ChecksumOfOneText | src/utils.cpp:11-15 | the checksum of the text "1" is 0x83DCEFB7 |
| Actions.Select | src/tables/actions.cpp:24-42 | a query result never has more rows than the table (which rows: SelectMembers) |
| Actions.SelectMembers | src/tables/actions.cpp:24-42 | a row is in a query result exactly when it is in the table and matches the WHERE clause |
| Actions.Targets | src/tables/actions.cpp:24-30 | the target column, one entry per row, in row order |
| Actions.SelectNarrowing | src/tables/actions.cpp:24-42 | running a narrower query over a wider query's result equals running it over the table |
| Actions.SelectEverything | src/tables/actions.cpp:24-42 | a query every row matches returns the whole table, in order |
| Actions.SelectDisjoint | src/tables/actions.cpp:24-42 | running a query over the result of a disjoint query finds nothing |
| Actions.OlderNotOlderPartition | src/tables/actions.cpp:89-97 | the rows DeleteOld returns and the rows it keeps are, together, exactly the table (as a multiset) |
| Actions.RecentRowsKept | src/tables/actions.cpp:89-97 | deleting rows older than t keeps every row stamped t or later |
| Actions.PruneKeepsRecent | src/tables/actions.cpp:89-97 | pruning before `t0` changes nothing a later lookup since `t >= t0` finds |
| Actions.PruneIdempotent | src/tables/actions.cpp:89-97 | a second prune with the same time returns nothing and keeps everything |
| Actions.DeleteByBinSelective | src/tables/actions.cpp:84-88 | after deleting a binary's rows none of them is found, and every other binary's rows are still found |
| Actions.GroupByDirIsGrouping | src/tables/actions.cpp:74-83 | the groups' keys are the directories that occur, and each group is the targets of that directory's rows, in order |
| Actions.GroupSizesTotal | src/tables/actions.cpp:74-83 | the group sizes add up to the number of rows grouped |
| Actions.InDirsSplit | src/tables/actions.cpp:74-83 | the rows of a set of directories plus a new one are the rows of both, counted separately |
| Actions.InAllDirs | src/tables/actions.cpp:74-83 | selecting every directory that occurs keeps every row |
| Actions.ActionsTable.constructor | src/tables/actions.cpp:6-19 | the table is dropped and re-created, so it starts empty |
| Actions.ActionsTable.AddAction | src/tables/actions.cpp:63-67 | exactly one row (bin, file, dir, t) is appended |
| Actions.ActionsTable.FindActions | src/tables/actions.cpp:69-73 | the targets of the binary's rows since `t`, one per row, duplicates kept |
| Actions.ActionsTable.FindActionsOnDirs | src/tables/actions.cpp:74-83 | the binary's rows since `t` grouped by directory: keys are the directories that occur, each group the targets of its rows |
| Actions.ActionsTable.DeleteActions | src/tables/actions.cpp:84-88 | the table keeps exactly the rows of other binaries |
| Actions.ActionsTable.DeleteOld | src/tables/actions.cpp:89-97 | returns the targets of the rows older than `t` and keeps exactly the rows not older |
| Files.MaxId | src/tables/files.cpp:52-57 | the largest id of a non-empty set |
| Files.NextRowId | src/tables/files.cpp:52-57 | the rowid of a new row is at least 1, absent, and larger than every present id |
| Files.InsertRoundTrip | src/tables/files.cpp:8-13 | inserting a new path keeps paths unique; the new id maps to the path and no other id does; old rows are kept |
| Files.DeleteKeepsInjective | src/tables/files.cpp:73-78 | deleting a row keeps paths unique and removes the id |
| Files.FilesTable.constructor | src/tables/files.cpp:8-13 | the persisted table is kept |
| Files.FilesTable.Insert | src/tables/files.cpp:52-57 | a known path is refused by UNIQUE and changes nothing; a new path gets the next rowid |
| Files.FilesTable.FindPath | src/tables/files.cpp:59-64 | the id's path exactly when the id has a row |
| Files.FilesTable.FindFileId | src/tables/files.cpp:66-71 | an id carrying the path exactly when the path has a row |
| Files.FilesTable.Delete | src/tables/files.cpp:73-78 | exactly that row goes; paths stay unique |
| FilesHash.SetHashRoundTrip | src/tables/files_hash.cpp:6-12 | giving an id a hash no other id carries keeps hashes unique; the id maps to it, only the id carries it, other ids keep theirs |
| FilesHash.FilesHashTable.constructor | src/tables/files_hash.cpp:6-12 | the persisted table is kept |
| FilesHash.FilesHashTable.UpdateHash | src/tables/files_hash.cpp:49-53 | no row: nothing changes; a hash another id carries: refused by UNIQUE; otherwise the id's hash is replaced |
| FilesHash.FilesHashTable.Insert | src/tables/files_hash.cpp:54-58 | refused when the id or the hash is present; otherwise exactly that row is added |
| FilesHash.FilesHashTable.GetHash | src/tables/files_hash.cpp:59-64 | the id's hash exactly when it has one |
| FilesHash.FilesHashTable.FindByHash | src/tables/files_hash.cpp:65-70 | the id carrying the hash exactly when some id does |
| FilesHash.FilesHashTable.Delete | src/tables/files_hash.cpp:71-75 | the table is left unchanged (the statement run is the select) |
| FilesContent.DecimalText | src/tables/files_content.cpp:63-68 | the decimal text of a count: at least one digit, digits only |
| FilesContent.RowCount | src/tables/files_content.cpp:20-22 | the count of rows for an id is 1 exactly when the id has a snapshot, else 0 |
| FilesContent.GetContentIsCountText | src/tables/files_content.cpp:63-68 | the lookup yields "1" or "0", never depends on the snapshot, and differs from any snapshot other than "1" |
| FilesContent.FilesContentTable.constructor | src/tables/files_content.cpp:6-11 | the persisted table is kept |
| FilesContent.FilesContentTable.UpdateContent | src/tables/files_content.cpp:48-52 | a saved id's snapshot is replaced; an unsaved id changes nothing |
| FilesContent.FilesContentTable.Insert | src/tables/files_content.cpp:53-57 | refused by the primary key for a saved id; otherwise exactly that row is added |
| FilesContent.FilesContentTable.ContentWasSaved | src/tables/files_content.cpp:58-62 | true exactly when the id has a snapshot |
| FilesContent.FilesContentTable.GetContent | src/tables/files_content.cpp:63-68 | always a value: "1" for a saved id, "0" otherwise |
| FilesContent.FilesContentTable.Delete | src/tables/files_content.cpp:69-73 | exactly the id's snapshot goes |
| Lists.MinId | src/tables/list.cpp:13-16 | the smallest id of a non-empty set |
| Lists.Ascending | src/tables/list.cpp:13-16 | the listed ids, each once, strictly ascending (rowid order), exactly the table's ids |
| Lists.ListTable.constructor | include/tables/list.hpp:29-33 | the persisted list is kept, with its tier |
| Lists.ListTable.Insert | src/tables/list.cpp:8-12 | refused by the primary key for a listed id; otherwise the id is added |
| Lists.ListTable.List | src/tables/list.cpp:13-16 | exactly the listed ids, ascending |
| Lists.ListTable.Find | src/tables/list.cpp:17-21 | true exactly when the id is listed |
| Lists.ListTable.Delete | src/tables/list.cpp:22-26 | exactly that id leaves the list |
| Db.IdOf | src/database.cpp:83-89 | the id carrying a known path (or a known hash, for the list lookups of src/process.cpp:19) |
| Db.UpsertSpec | src/database.cpp:83-89 | looking a path up keeps paths unique; the path is carried by exactly one id, the one returned; old rows are kept; a known path changes nothing; repeating the lookup returns the same id and changes nothing |
| Db.UpsertIdIsIdOf | src/database.cpp:83-89 | after the lookup the path is known and its id is the one returned |
| Db.OnlyPersistedRowIsDatabase | src/file.cpp:52-54 | a looked-up file is the agent's database only if a persisted row with id 0 already carried that path |
| Db.File.IsAntivirusDb | src/file.cpp:52-54 | the database is the file with id 0, an id no insert by the agent hands out |
| Db.AsFiles | src/database.cpp:52-60 | one file handle per id, in order |
| Db.PathsOf | src/file_list.cpp:15-23 | the paths of the ids, in order, exactly when every id has a row; otherwise the missing-path error |
| Db.DirCountsMeaning | src/database.cpp:61-69 | the counts map each written directory's path to its number of rows and nothing else; they fail exactly when a directory has no path |
| Db.FileList.constructor | src/file_list.cpp:5-6 | the list wraps the given table and `files` table |
| Db.FileList.Add | src/file_list.cpp:8-13 | the id is in the list afterwards, whether it was before or not |
| Db.FileList.Find | src/file_list.cpp:25-27 | true exactly when the file is listed |
| Db.FileList.Delete | src/file_list.cpp:29-31 | exactly that file leaves the list |
| Db.FileList.ListFiles | src/file_list.cpp:15-23 | the paths of the listed ids in ascending id order, or the missing-path error |
| Db.Database.constructor | src/database.cpp:28-35 | the persisted tables are kept, the actions table starts empty, both lists share the one `files` table |
| Db.Database.GetFileByPath | src/database.cpp:83-89 | the `files` table becomes the upsert of the path and the returned id carries the path |
| Db.Database.GetBinary | src/process.cpp:11-15 | an unreadable link fails and changes nothing; otherwise the binary's path is upserted and its id returned |
| Db.Database.AddAction | src/database.cpp:71-75 | binary first, then the target's path, then its directory is upserted; exactly one row (binary, file, directory, now) is appended; each failure leaves the actions table unchanged |
| Db.Database.FindActions | src/database.cpp:52-60 | the files of the binary's rows since `t`, one per row, in row order |
| Db.Database.CountsByPath | src/database.cpp:64-68 | the directory paths with their group sizes, or the missing-path error |
| Db.Database.FindActionsOnDirs | src/database.cpp:61-69 | the per-directory-path row counts of the binary since `t` |
| Db.Database.DeleteActions | src/database.cpp:76-78 | exactly the binary's rows go |
| Db.Database.GetFilePath | src/database.cpp:80-82 | the file's path exactly when it has a row |
| Db.Database.GetContent | src/database.cpp:91-93 | always a value: "1" for a saved file, "0" otherwise |
| Db.Database.FileWasSaved | src/database.cpp:94-96 | true exactly when the file has a snapshot |
| Db.Database.SaveFileContent | src/database.cpp:97-104 | the snapshot becomes the file's current bytes, by update or insert; a file without a path fails and changes nothing |
| Db.Database.SaveFileHash | src/database.cpp:106-113 | the stored hash becomes the checksum of the current bytes, unless another file carries it (refused); a file without a path fails |
| Db.Database.GetFileHash | src/database.cpp:114-116 | the file's hash exactly when one is stored |
| Db.Database.FindFileByHash | src/database.cpp:118-121 | the file carrying the hash exactly when one does |
| Db.Database.DeleteOld | src/database.cpp:123-134 | keeps exactly the rows not older than `t`; removes the `files` rows and snapshots of exactly the reclaimable pruned targets (no action as binary since `t`, on neither list) |
| Db.Database.ReclaimIfUnused | src/database.cpp:125-133 | an id without recent actions as a binary and on neither list loses its `files` row and snapshot; any other id keeps them |
| Db.ReadContent | src/file.cpp:20-25 | the current bytes at the file's path, or the missing-path error |
| Db.ReclaimableAppend | src/database.cpp:125-133 | reclaiming one more id adds it exactly when it is unused and unlisted |
| Db.RecentlyWrittenTargetIsReclaimed | src/database.cpp:123-134 | a file written both before and after the cutoff, that never ran as a binary, is reclaimed |
| Db.PrunedMeaning | src/database.cpp:123-134 | DeleteOld(t) reclaims exactly the targets of deleted rows that are on neither list and have no row from t on as a binary |
| FileOps.CountText | src/file.cpp:27-33 | one byte, "1" exactly when the id has a snapshot |
| FileOps.StoredOrCountHash | src/file.cpp:44-50 | the stored hash when there is one, else the checksum of the count text |
| FileOps.GetContent | src/file.cpp:27-33 | always the count text; the disk is never read |
| FileOps.GetHash | src/file.cpp:44-50 | the stored hash, else the checksum of the count text |
| FileOps.RestoreContent | src/file.cpp:39-42 | a file without a path fails and the disk is unchanged; otherwise exactly the file's path is overwritten with the count text |
| FileOps.RestoredContentIsNotSnapshot | src/file.cpp:39-42 | a restored file holds "1" when a snapshot was saved and "0" otherwise, so it equals its snapshot only when that snapshot was "1" |
| Processes.BurstVerdictMeaning | src/process.cpp:27-35 | the burst rule decides exactly when every recent directory has a path, and denies exactly when some directory holds three or more of the binary's rows since the cutoff |
| Processes.RewritingOneFileThriceIsBurst | src/process.cpp:27-35 | three rows for one file in one directory within the window deny access |
| Processes.AnyBurst | src/process.cpp:30-34 | true exactly when some directory count reaches three |
| Processes.HasWriteAccess | src/process.cpp:17-36 | an unreadable link fails and changes nothing; if the lists decide (no file carries the hash: deny; owner white: allow; owner black: deny) that is the answer and only the binary's path is upserted; otherwise rows older than now - 100 are pruned (with their reclaimable files) and the burst rule decides; the answer is `WriteAccess` of the tables it starts from |
| Processes.WriteAccessMeaning | src/process.cpp:17-36 | the verdict is the lists' when they decide; otherwise it is an error exactly when a recent directory has no path, and a denial exactly when some directory holds three or more of the binary's rows since now - 100 |
| Processes.BurstPaths | src/process.cpp:27-29 | the `files` table after pruning and the second lookup of the binary stays one-to-one and carries the binary's path |
| Processes.ListStage | src/process.cpp:18-26 | the list verdict of the binary's hash, after upserting the binary's path |
| Processes.BurstStage | src/process.cpp:27-35 | prunes before now - 100, then yields the burst verdict on the remaining rows |
| Processes.CountBurst | src/process.cpp:29-35 | records the binary in `files`, then reports an error or whether no directory holds 3 or more of its rows since the cutoff |
| Processes.HasAccessToDb | src/process.cpp:38-40 | access exactly when the binary's hash equals 123456789 |
| Processes.UnhashedBinaryIsDeniedDb | src/process.cpp:38-40 | a binary without a stored hash is never granted the database |
| Processes.Ban | src/process.cpp:42-47 | a whitelisted binary is refused and the black list is unchanged; otherwise the binary joins the black list |
| Processes.Kill | src/process.cpp:49-54 | refused for a whitelisted binary, otherwise done; no list changes |
| Quarantine.RestoreAllMeaning | src/utils.cpp:22-24 | the restore loop succeeds exactly when every collected file has a path; then each such path holds its count text and every other path is untouched; otherwise it fails with the missing-path error |
| Quarantine.BanProcessAndRestoreFiles | src/utils.cpp:17-25 | a whitelisted binary: refused, nothing changes; otherwise the binary is blacklisted, all its rows are deleted, and the files of all its rows are restored in row order |
| Quarantine.RestoreFiles | src/utils.cpp:22-24 | the loop leaves the outcome and the filesystem that RestoreAll describes: every path written in order until a file without a path stops it |
| Agent.Judge | src/main.cpp:21-24 | the answer is HasWriteAccess's verdict on the store it starts from (`WriteAccess`), except that a failing quarantine of an untrusted binary is an error; the store afterwards is the one HasWriteAccess leaves (`Assessed`), and for an untrusted binary that store after the ban, the deletion of its rows and the restore of its files (`Banished`); trusted: lists and disk untouched, recent rows kept; a snapshot is only lost to the pruning |
| Agent.Assessed | src/process.cpp:17-36 | the store HasWriteAccess leaves: the binary upserted, and when the lists do not decide the old rows pruned with the files and snapshots they reclaim; hashes, lists and disk untouched, paths still one-to-one |
| Agent.BanishedQuarantines | src/utils.cpp:17-25 | BanProcessAndRestoreFiles on a store: a whitelisted binary is refused with nothing changed; otherwise only the binary joins the black list, exactly its rows go, every other binary's rows stay, and besides that only the disk changes |
| Agent.QuarantineUntrusted | src/main.cpp:24 | the store afterwards is `Banished` of the store before: the binary blacklisted, its rows deleted, its files restored in row order; the answer is untrusted when that completes and its error otherwise |
| Agent.Recorded | src/main.cpp:16-20 | the store the writer is judged on: the target, the binary and the directory looked up, the row appended, the table still one-to-one |
| Agent.Looked | src/main.cpp:28-29 | the store after the opened file's lookup, still one-to-one |
| Agent.HandleWrite | src/main.cpp:15-25 | no target: nothing changes; no binary: only the target is upserted; otherwise the write is recorded and HasWriteAccess's verdict on the recorded store decides: an error is the outcome, trusted keeps the row with lists and disk untouched, untrusted bans the writer, deletes its rows and restores its files (`Banished` of the store HasWriteAccess leaves), the outcome being that step's |
| Agent.HandleOpen | src/main.cpp:27-46 | the opened file is looked up first; the agent's database (id 0) is answered by the hash check alone, any other file by HasWriteAccess's verdict: Allow exactly for a trusted binary (a snapshot taken when there is none), Deny for an untrusted one after the ban and restore (`Banished`); the store afterwards is given exactly in each case; an existing snapshot is kept unless the pruning reclaims it, and only the opened file can gain one |
| Agent.AnswerDatabase | src/main.cpp:34-35 | the agent's database: the binary is looked up, Allow exactly when its hash is 123456789, nothing else changes |
| Agent.AnswerFile | src/main.cpp:36-44 | any other file: the answer follows HasWriteAccess's verdict; the store afterwards is the one HasWriteAccess leaves, plus the first snapshot on Allow, or after the ban and restore (`Banished`) on Deny |
| Agent.HandleEvent | src/main.cpp:68-76 | an event with a descriptor is handled as a write first and then as an open on the store the write left (the open is not reached when the write fails); the reply is the open's answer; an event without a descriptor or bits changes nothing |
| Agent.Respond | src/main.cpp:68-76 | one event handled as `Handled` states (the write, then the open on the store the write left); the reply appended, if any, is exactly that step's answer for the event's descriptor, so a successful permission request appends exactly one reply and any other event none |
| Agent.Advance | src/main.cpp:63-78 | one iteration of the batch loop: the event's step extends the trace of stores, and the replies are exactly the answers of the trace so far |
| Agent.TracedStep | src/main.cpp:63-78 | a trace of successfully handled events extends by the next event's handled step |
| Agent.PermissionRequests | src/main.cpp:68-74 | the events that get a reply, in batch order, never more than the batch |
| Agent.PermissionRequestsMeaning | src/main.cpp:68-74 | the permission requests of a batch, in order, are exactly its events with a descriptor and a permission bit |
| Agent.HandleEvents | src/main.cpp:63-78 | the replies go to the permission requests in order, one each, with the request's descriptor; every request is answered when no event fails; the ghost trace starts at the old store and ends at the new one, each event is `Handled` on the store the previous one left (every step but the last succeeding, the last having the batch's outcome), and the replies are exactly the steps' answers, in order |
| Agent.RequestsPrefix | src/main.cpp:63-78 | the requests of a prefix of a batch are a prefix of the batch's requests |
| Agent.RequestsStep | src/main.cpp:68-74 | one more event adds itself to the requests exactly when it has a descriptor and a permission bit |
| ListsCli.SelectLists | src/lists.cpp:31-41 | "black"/"b" chooses the black list, "white"/"w" the white list, the other list becomes the opposite; any other name is unknown |
| ListsCli.UpsertAllSpec | src/lists.cpp:49-62 | looking paths up one by one keeps paths unique, makes every one known and keeps every row |
| ListsCli.IdsOfStable | src/lists.cpp:49-62 | looking one more path up does not change the ids of known paths |
| ListsCli.IdsOfStep | src/lists.cpp:49-62 | looking the next path up adds exactly its id |
| ListsCli.RunLists | src/lists.cpp:30-62 | on the opened database: unknown name: a message, no list or file changes; no add or remove: the chosen list's paths; otherwise the chosen list gains the added ids then loses the removed ids, and the opposite list loses the added ids |
| ListsCli.ApplyAdds | src/lists.cpp:49-56 | each added path is upserted; its id joins the chosen list and leaves the opposite one |
| ListsCli.ApplyRemoves | src/lists.cpp:57-62 | each removed path is upserted and its id leaves the chosen list; ids of earlier added paths are unchanged |

## Left out

- The kernel interface: fanotify initialisation and marking, `poll`, reading event buffers, the metadata version check, closing descriptors, and writing replies. Events arrive decoded and replies are returned as values.
- SQLite itself: connections, statement preparation, binding and stepping, and `CheckSqliteResult`. Each statement is modelled by its effect on the table contents. Foreign keys are not enforced, as by SQLite's default.
- The clock. `steady_clock::now()` is an input `now` in milliseconds, one reading per event. In the source, `AddAction` and `HasWriteAccess` read the clock separately. Timestamps bound as milliseconds since the epoch are modelled as `int`.
- OS lookups. `read_symlink` of the fd link and of the exe link are inputs: `Option<Path>`, with `None` for failure (for the in-memory agent, `Antivirus.Event.path`; its throw ends that agent). Each is resolved once per event, although the source re-reads the exe link on every `GetBinary` call.
- Db.Database.AddAction: C++ leaves the evaluation order of the call's arguments unspecified. The model resolves the binary first, then the target path, then the directory.
- Db.Database.constructor: the source builds the lists with `shared_from_this()` inside the constructor and never builds `files_`. `Database` derives from `enable_shared_from_this`, so that call throws `std::bad_weak_ptr`: neither the agent nor `lists.cpp` gets past opening the database. The model is of the intended wiring, with both lists sharing the one `files` table.
- The settings file (`settings.cpp`), the test program (`test.cpp`) and the startup code of `main` (argument check, opening the database at a fixed path).
- ListsCli.RunLists: the command is given the opened database. Opening it (`lists.cpp` line 29, before the list name is checked) re-creates the `actions` table empty, as the agent's start does; the model of the command leaves `actions` out.
- The output of `lists.cpp` is a value (`CliOutput`) rather than printed text. Option parsing by boost is not modelled.
- `Kill` only prints in the source. The model yields `Done` and changes nothing.
- Files.FilesTable.Insert: SQLite's fallback for a table whose largest rowid is 2^63-1 (choosing a random unused rowid) is not modelled. Ids are unbounded naturals.
- Checksum.CalculateHash: computed bit by bit, without boost's table-driven form. `size_t` is not modelled as a bounded type; CRC-32 values fit 32 bits.
- Query result order: the SELECTs of `src/tables/actions.cpp` have no ORDER BY, so SQLite leaves the order of their results unspecified. The model fixes rowid (insertion) order. Only the order of the restores before a missing-path stop depends on it (`Quarantine.RestoreFiles`).
- Antivirus.HandleWrite: the log line for a dangerous pid is the `dangerous` result. No process is signalled, as in the source.
