# Smart File Manager: a verified model of its file-handling core

This project models the decision logic of `smart_file_manager.py` in Dafny and proves properties of it. The filesystem is a value: a map from paths to regular files, each with its bytes and modification time, plus a set of directory paths. A path is a sequence of name components. The program's global filesystem is the class `Storage.FileSystem`. The calls that change the filesystem (`makedirs`, `copy2`, `move`, `remove`, `rmtree`, `open(..., 'w')`) are methods on that class, and each is specified as a function from one filesystem value to the next. The queries `os.path.exists`, `isfile` and `isdir` are methods too where a loop of the program makes them, and are read directly off the filesystem value inside the specification functions (for example `Cleanup.Doomed` reads `getmtime` and `isfile`). What `os.walk` yields and the order `os.listdir` returns are parameters, described below.

The parts modelled are:

- **Categorizer** (`categorizer.dfy`), covering `FILE_CATEGORIES` and `detect_files`.
  - The extension is found with `os.path.splitext` semantics and then lower-cased (`pathutil.dfy`).
  - A file is filed under the first category, in table order, whose list holds that extension.
  - Every category always has a bucket.
- **Backup engine** (`backup.dfy`), covering `backup_files`.
  - The backup root is `base/Backup/<today>`.
  - Any folder whose path string contains `Backup` is skipped.
  - Every other file is mirrored at its path relative to base, and a copy is made only where nothing exists yet.
  - A copy that raises is reported and the walk goes on; only a `folder_check` that raises ends the pass.
  - The copy count is the number of files the pass added, so the "No new files" message appears exactly when a pass that did not raise left the files as they were.
- **Date-window cleanup** (`cleanup.dfy`), covering `old_file_clean`. The window is open at both ends: both bounds are strict.
- **Folder operations** (`folders.dfy`), covering `list_dirs`, `delete_folder`, `get_file_exact_folder` and `delete_if_empty`. `delete_folder` and `get_file_exact_folder` look the name up case-insensitively and take the first match; `delete_if_empty` as written inherits that lookup through `delete_folder`, and its corrected form removes each empty folder by its exact name.
- **Category mover** (`mover.dfy`), covering `move_files`. Failures are isolated per file, and a list of movable files with distinct names is moved entirely.
- **File creation** (`store.dfy`), covering the `Files` record and `store_files`. The rule is never to overwrite.
- **Operation log** (`oplog.dfy`): `log_file_operation` as a read-append-rewrite of a JSON list.

Every method is proved equal to a specification function of its inputs and of the old state. The properties the program relies on are proved as lemmas about those functions. They include:

- backup idempotence
- the backup layout
- exclusion of backup folders
- exactness of the cleanup window
- tie-breaking in the categorizer
- no data loss when moving
- no overwrite when storing
- history preservation in the log

Environment inputs are parameters:

- **Clock and date parsing.** The date string `today`, the parsed window bounds as `Option<int>` (`None` when `strptime` raises), the mtime given to new files, and the log's timestamp string.
- **Directory traversal.** The sequence `os.walk` yields is a `seq<WalkEntry>`, and each `os.listdir` order is a `listing` sequence. The predicate `ListsDir` requires that sequence to hold each entry of the directory exactly once.
- **Failure sets.** Some calls can fail for reasons the filesystem state alone does not decide, such as permissions, held files or failed renames. For `shutil.copy2`, `shutil.move`, `os.path.getmtime` and `os.remove` in the cleanup, `shutil.rmtree` and `os.makedirs`, those reasons are a `failing` set of paths. For `open(..., 'w')` they are a `fails` or `writeFails` flag. `os.listdir` and `open(log_file, 'r')` have no such failure; see "Left out".

Where the code and the design description differ, the model follows the code:

- `backup_files` only checks whether the target exists, so a source file changed since an earlier pass on the same day is not copied again.
- The extension is the text of `os.path.splitext` (leading dots of a name do not count) rather than everything after the last dot.
- `old_file_clean` excludes both window bounds.
- A JSON log that is valid but not a list makes `log_file_operation` raise. It does not reset to an empty log (see Findings).

## Model

| member | source | states |
|---|---|---|
| PathUtil.LastIndexOf | smart_file_manager.py:264 | the result is -1 or an index holding the character, and the character does not occur after it (the search `splitext` starts from) |
| PathUtil.SplitExt | smart_file_manager.py:264 | root followed by extension gives back the input exactly |
| PathUtil.ExtensionShape | smart_file_manager.py:264 | the extension is empty or a dot followed by characters that are neither dot nor separator |
| PathUtil.ExtensionOfBasename | smart_file_manager.py:264 | on the final component: the extension is empty iff every dot there has only dots before it; otherwise it runs from the last dot, which has a non-dot before it |
| PathUtil.Lower | smart_file_manager.py:264 | same length, and each character is lower-cased (ASCII) |
| PathUtil.ComponentInPathString | smart_file_manager.py:110 | every component of a path occurs as a substring of the joined path string |
| PathUtil.RelPath | smart_file_manager.py:117 | for a folder below base, base joined with the relative path gives the folder back |
| PathUtil.RelPathBelowBase | smart_file_manager.py:117 | `relpath(base + rest, base)` is `rest` |
| Storage.Exists | smart_file_manager.py:59-63 | `os.path.exists` and `ensure_exists`: the path is the working directory, a regular file or a directory; its uses are specified by `FolderCheckOn`, `StoreAll` and `OldFileClean` |
| Storage.ListDir | smart_file_manager.py:67 | `os.listdir` as the set of names directly below a path; specified by `ListDirNames` and `EmptyDirHasEmptyListing` |
| Storage.ListDirNames | smart_file_manager.py:67 | a name is listed exactly when the path joined with it is a regular file or a directory |
| Storage.PrefixOfEntryIsDir | smart_file_manager.py:180 | in a well-formed tree every proper non-empty prefix of an entry is a directory, which is why `rmtree` of a folder takes everything below it |
| Storage.EmptyDirHasEmptyListing | smart_file_manager.py:222 | a directory is empty iff its `os.listdir` is empty |
| Storage.MakeDirsOn | smart_file_manager.py:286 | `os.makedirs` raises iff the path is not a directory and either the environment refuses it or some prefix is a regular file; otherwise files are unchanged, directories only grow, and a missing path gains exactly its prefixes |
| Storage.FolderCheckOn | smart_file_manager.py:53-55 | `folder_check` leaves an existing path alone; otherwise it runs `makedirs`, which can raise, and after which the path exists |
| Storage.MakeDirsKeepsWellFormed | smart_file_manager.py:286 | `makedirs` keeps the tree well formed and leaves every prefix a directory |
| Storage.RemoveTreeKeepsWellFormed | smart_file_manager.py:180 | `rmtree` keeps the tree well formed |
| Storage.MoveFileKeepsWellFormed | smart_file_manager.py:289 | a move onto a free path in an existing directory keeps the tree well formed |
| Storage.FileSystem.FolderCheck | smart_file_manager.py:53-55 | the new state is `FolderCheckOn` of the old one, or unchanged when it raises |
| Storage.FileSystem.MakeDirs | smart_file_manager.py:286 | the new state is `MakeDirsOn` of the old one, or unchanged when it raises |
| Storage.FileSystem.Copy2 | smart_file_manager.py:124 | onto a free target: succeeds iff the source is a regular file and the target's directory exists, and the target then holds the source's bytes and mtime |
| Storage.FileSystem.Move | smart_file_manager.py:289 | succeeds iff the source is a regular file and the target is free in an existing directory, and the state is then the rename |
| Storage.FileSystem.IsDir | smart_file_manager.py:67 | `os.path.isdir`: true exactly on a directory, which the model also takes as exactly when `os.listdir` does not raise (unreadable directories are left out) |
| Storage.FileSystem.Remove | smart_file_manager.py:210 | exactly the file at the path is gone |
| Storage.FileSystem.RmTree | smart_file_manager.py:180 | everything at or below the path is gone |
| Storage.FileSystem.Write | smart_file_manager.py:142-143 | a file with the given content now exists at the path |
| Categorizer.FileCategoriesHaveDistinctNames | smart_file_manager.py:31-48 | the category names of the table are distinct, as dict keys are |
| Categorizer.FirstCategoryFrom | smart_file_manager.py:265-268 | a found category lists the extension and no earlier one does; nothing is found iff no category lists it |
| Categorizer.CategoryIndexIsFirstListing | smart_file_manager.py:265-268 | a file is filed under category i iff i lists its extension and no earlier category does |
| Categorizer.BucketCounts | smart_file_manager.py:263-268 | a file occurs in bucket i as often as in the input when it is filed under i, and never otherwise |
| Categorizer.BucketMembership | smart_file_manager.py:263-268 | a file is in bucket i iff it is an input file filed under i |
| Categorizer.BucketsExclusive | smart_file_manager.py:266-268 | no file is in two buckets |
| Categorizer.UnmatchedInNoBucket | smart_file_manager.py:265-268 | a file whose extension no category lists is in no bucket |
| Categorizer.BucketConcat | smart_file_manager.py:263-267 | buckets keep input order: the bucket of a concatenation is the concatenation of the buckets |
| Categorizer.BucketStep | smart_file_manager.py:263-267 | one more input file extends only the bucket it is filed under |
| Categorizer.ShellScriptsGoToExecutables | smart_file_manager.py:37-38 | `.sh` is listed under Executables and Scripts and goes to Executables |
| Categorizer.BatchFilesGoToExecutables | smart_file_manager.py:37-38 | `.bat` is listed under Executables and Scripts and goes to Executables |
| Categorizer.JavaScriptGoesToScripts | smart_file_manager.py:38-39 | `.js` is listed under Scripts and Website_Languages and goes to Scripts |
| Categorizer.WordFilesGoToDocuments | smart_file_manager.py:32 | `.docx` is listed under Documents only, and "Report.DOCX" is filed under Documents |
| Categorizer.ReportKey | smart_file_manager.py:264 | the lookup key of "Report.DOCX" is ".docx" |
| Categorizer.FileInto | smart_file_manager.py:265-268 | the inner loop appends the file to the bucket of its first matching category and leaves every other bucket unchanged |
| Categorizer.DetectFiles | smart_file_manager.py:261-269 | there is a bucket for every category, and each bucket holds exactly the input files filed under it, in input order |
| BackupEngine.Skipped | smart_file_manager.py:110 | a folder is skipped when its path string contains `Backup`; specified by `TargetFolderIsSkipped`, `PathStringPrefix` and `SkippedFolderIsNoOp` |
| BackupEngine.TargetPath | smart_file_manager.py:116-119 | the target lies strictly below the backup root, and its folder is one the walk skips |
| BackupEngine.CopyStep | smart_file_manager.py:121-128 | one file of the walk: no existing file is changed, directories only grow, the only possible new file is the target, holding the source's bytes and mtime; `copied` grows by exactly the number of files added; the counters grow by at most one in total; a counted failure leaves the pass running; it aborts only when its `folder_check` raises; after an abort nothing happens |
| BackupEngine.BackupPass | smart_file_manager.py:100-131 | a whole pass never overwrites or removes a file and never removes a directory, and its copy count is the number of files it added |
| BackupEngine.BackupLayout | smart_file_manager.py:103-104 | the file `base/rest/name` is backed up at `base/Backup/<today>/rest/name` |
| BackupEngine.TargetsAreDistinct | smart_file_manager.py:116-119 | two files below base with the same backup target are the same file |
| BackupEngine.TargetFolderIsSkipped | smart_file_manager.py:110-111 | every backup target folder is one the walk skips |
| BackupEngine.SkippedFolderIsNoOp | smart_file_manager.py:110-111 | the files of a skipped folder change nothing |
| BackupEngine.SkippedVisitsAreNoOps | smart_file_manager.py:110-111 | files that are all in skipped folders change nothing |
| BackupEngine.PathStringPrefix | smart_file_manager.py:110 | when the base path contains `Backup`, so does every path below it |
| BackupEngine.BackupBaseCopiesNothing | smart_file_manager.py:110-111 | under a base whose path contains `Backup`, a pass copies nothing and changes no file |
| BackupEngine.AbortedIsFinal | smart_file_manager.py:105 | once `folder_check` has raised, the rest of the pass changes nothing |
| BackupEngine.PassPreserves | smart_file_manager.py:121-128 | no file is removed or overwritten, directories only grow, the counters only grow, and an abort is never undone |
| BackupEngine.NewFilesAreBackups | smart_file_manager.py:113-126 | every new file is the backup target of a visited file outside the skipped folders, holds that file's bytes and mtime, and lies in a skipped folder |
| BackupEngine.CompletePassLeavesTargets | smart_file_manager.py:121-128 | after a pass without abort or failure, every visited file outside the skipped folders has something at its target |
| BackupEngine.PresentTargetsAreNoOps | smart_file_manager.py:121 | when every target already exists, the pass changes nothing and copies nothing |
| BackupEngine.SecondPassCopiesNothing | smart_file_manager.py:121-131 | after a complete pass, a second pass the same day over files that were all visited then copies nothing, changes nothing, and ends in the "All files already backed up" case |
| BackupEngine.BackupIsIdempotent | smart_file_manager.py:100-131 | when both walks list exactly the regular files below base, a complete pass followed by a second pass the same day: the second copies nothing, changes nothing and reports that everything is backed up |
| BackupEngine.NewDirsAreTargetFolders | smart_file_manager.py:105-122 | every directory a pass creates is a target folder of one of its visits or a prefix of one |
| BackupEngine.TargetIsNoFolderPrefix | smart_file_manager.py:116-122 | in a well-formed tree, no file's target is a folder that `folder_check` makes for another file |
| BackupEngine.SourceIsNoFolderOf | smart_file_manager.py:113-114 | in a well-formed tree, a regular file is never a folder on the path of another file |
| BackupEngine.CompletePassMirrorsFiles | smart_file_manager.py:113-126 | after a complete pass over a walk that lists exactly the regular files of a well-formed tree below base, every visited file whose target was free now has a regular file at its target holding the source's bytes and mtime |
| BackupEngine.MirrorFrom | smart_file_manager.py:113-126 | the same mirroring, for any run of visits of regular files below base from any well-formed starting state |
| BackupEngine.PassFromConcat | smart_file_manager.py:108-128 | a pass over two runs of visits is the pass over the second run started from where the first ended |
| BackupEngine.BackupFiles | smart_file_manager.py:100-131 | the new filesystem and the counts are those of `BackupPass` on the old filesystem; the copy count is the number of files added, and when nothing raised, "All files already backed up" is reported iff the files are unchanged |
| BackupEngine.PassCountsCopies | smart_file_manager.py:121-126 | over any run of visits, `copied` grows by exactly the number of files the run adds |
| BackupEngine.OnlyFolderCheckAborts | smart_file_manager.py:121-128 | a run that started without an abort and ends aborted contains a visit whose `folder_check` raised on the state reached before it; failed copies never abort |
| BackupEngine.AllBackedUpIffUnchanged | smart_file_manager.py:126-131 | for a pass that did not raise, "All files already backed up" is reported iff the files are exactly as before |
| BackupEngine.BackupAbortsOnlyInFolderCheck | smart_file_manager.py:105-128 | once the backup root is made, a pass ends early only at a visit whose target folder's `folder_check` raised |
| BackupEngine.TargetReached | smart_file_manager.py:121-128 | in a run that does not abort, a file whose own copy cannot raise has something at its target afterwards, whatever other copies failed |
| BackupEngine.LastTargetReached | smart_file_manager.py:121-126 | one step for a file whose source exists and is not refused, and whose target folder is no regular file, leaves something at its target unless it aborts |
| BackupEngine.FolderIsNoNewFile | smart_file_manager.py:116-124 | a pass never creates a regular file where another file's target folder belongs |
| BackupEngine.MirrorDespiteFailures | smart_file_manager.py:121-128 | failure isolation: in a run that does not abort, a file whose copy cannot raise and whose target was free holds a copy of its source at its target, however many other copies failed |
| BackupEngine.BackupMirrorsDespiteFailures | smart_file_manager.py:100-128 | the same for `backup_files` over the walk of a well-formed tree: the file is copied to its free target even when copies of other files fail |
| BackupEngine.BackupFolder | smart_file_manager.py:113-128 | the inner loop over one folder's files equals the pass over that folder's visits |
| BackupEngine.BackupOne | smart_file_manager.py:114-128 | one iteration of the inner loop equals `CopyStep` on the old state |
| Cleanup.CleanRemovesExactlyWindowFiles | smart_file_manager.py:204-213 | a file disappears iff it is directly in the folder, its mtime is strictly inside the window, and its calls do not raise; survivors keep their data; directories are untouched |
| Cleanup.CleanCount | smart_file_manager.py:201-216 | the count reported is the number of files that disappeared |
| Cleanup.CleanIsIdempotent | smart_file_manager.py:204-213 | cleaning again with the same window deletes nothing more |
| Cleanup.EmptyWindowDeletesNothing | smart_file_manager.py:209 | a window with no whole second strictly inside it deletes nothing |
| Cleanup.CleanKeepsWellFormed | smart_file_manager.py:210 | the tree stays well formed |
| Cleanup.OldFileClean | smart_file_manager.py:189-216 | an invalid date, a missing folder, or a regular file where the folder should be leaves everything unchanged, each with its own outcome; for a directory, exactly the window files go and their number is reported |
| Cleanup.DeleteWindowFiles | smart_file_manager.py:201-214 | the loop, in any listing order, deletes exactly the window files and counts them |
| Cleanup.PendingDecision | smart_file_manager.py:204-209 | while a name is still to be visited its file has not been deleted, and the loop's test on it holds exactly when the file is one of the window files |
| Cleanup.SettledStep | smart_file_manager.py:204-213 | visiting one more name keeps "exactly the visited window files are deleted" |
| FolderOps.ListDirs | smart_file_manager.py:66-67 | a name is listed iff it is in the listing and names a subdirectory |
| FolderOps.ListDirsOrder | smart_file_manager.py:66-67 | `list_dirs` keeps the listing's order: subdirectories listed earlier come earlier |
| FolderOps.ListDirsDistinct | smart_file_manager.py:66-67 | `list_dirs` names each subdirectory once |
| FolderOps.FirstMatchFrom | smart_file_manager.py:176-177 | a match equals the name up to case and no earlier entry does; there is no match iff no entry equals it up to case |
| FolderOps.FirstMatchIsFirst | smart_file_manager.py:176-177 | the first entry equal up to case is the one found |
| FolderOps.FindFolder | smart_file_manager.py:176-177 | the loop finds the first entry equal up to case |
| FolderOps.DeleteFolderDeletesFirstMatch | smart_file_manager.py:175-186 | what is deleted is a subdirectory equal up to case, with no such subdirectory before it in the listing, and it is removed with everything below it; a failed deletion is reported only for a subdirectory equal up to case whose removal raises, and changes nothing |
| FolderOps.DeleteFolderFindsMatch | smart_file_manager.py:176-185 | when a subdirectory equals the name up to case, the outcome is a deletion or a failed deletion, and it is a deletion iff removing the first match does not raise; the deletion removes that tree |
| FolderOps.DeleteFolderNotFound | smart_file_manager.py:176-186 | "not found" iff no subdirectory equals the name up to case |
| FolderOps.DeleteFolder | smart_file_manager.py:175-186 | the new state and the outcome are those of `DeleteFolderOn` |
| FolderOps.GetFileExactFolder | smart_file_manager.py:166-172 | the entries of the first subdirectory equal up to case; "not found" when there is none; raises when the path is not a directory |
| FolderOps.RemoveEmptyTree | smart_file_manager.py:222-223 | removing an empty directory's tree removes only that directory |
| FolderOps.DeleteIfEmptyAsWritten | smart_file_manager.py:219-223 | `delete_if_empty` as written; specified by `AsWrittenDeletesNonEmptyFolder` and `AsWrittenAgreesOnDistinctNames` |
| FolderOps.AsWrittenAgreesOnDistinctNames | smart_file_manager.py:219-223 | on a well-formed tree with no two subdirectory names equal up to case, the code as written does exactly what the corrected cleanup does |
| FolderOps.AsWrittenPrefixIsCorrected | smart_file_manager.py:220-223 | under the same condition, after any prefix of the loop the code as written has removed exactly the empty subdirectories visited so far |
| FolderOps.AsWrittenStepIsCorrected | smart_file_manager.py:221-223 | under the same condition, one iteration of the code as written removes the visited subdirectory exactly when it was empty |
| FolderOps.AsWrittenDeletesNonEmptyFolder | smart_file_manager.py:219-223 | a concrete tree on which `delete_if_empty` as written removes a non-empty folder |
| FolderOps.ExampleDeleteFolder | smart_file_manager.py:176-181 | in that tree, `delete_folder(path, "A")` removes `a` and its file |
| FolderOps.RemoveEmptyDirsKeepsContent | smart_file_manager.py:219-223 | the corrected cleanup keeps every file and every non-empty directory, removes only empty subdirectories, and keeps the tree well formed |
| FolderOps.EmptySubdirRemovalKeepsWellFormed | smart_file_manager.py:219-223 | removing any set of empty subdirectories keeps the tree well formed |
| FolderOps.RemoveEmptyDirsIsIdempotent | smart_file_manager.py:219-223 | running the corrected cleanup twice is the same as running it once |
| FolderOps.SiblingRemovalKeepsListing | smart_file_manager.py:220-222 | removing sibling subdirectories leaves another subdirectory's listing and emptiness as they were |
| FolderOps.CorrectedStepDecision | smart_file_manager.py:221-222 | during the loop, a subdirectory is found empty iff it was empty at the start |
| FolderOps.RemovedAmongAllDirs | smart_file_manager.py:220 | the loop over `list_dirs` reaches every empty subdirectory |
| FolderOps.DeleteIfEmpty | smart_file_manager.py:219-223 | the corrected cleanup succeeds iff the path is a directory, and then it removes exactly the empty subdirectories |
| FolderOps.CorrectedKeepsNonEmptyFolder | smart_file_manager.py:219-223 | on the counterexample tree the corrected cleanup removes only the empty `A` |
| Mover.MoveStepConserves | smart_file_manager.py:289 | one successful move keeps the conservation invariant |
| Mover.MoveAllConserves | smart_file_manager.py:287-291 | after the loop, directories are unchanged; no file is overwritten; a file gone from its path was listed and sits with the same data at its destination in the target folder, where nothing was before; new files lie only in the target folder; the number of files is unchanged |
| Mover.MovedFileWasOriginal | smart_file_manager.py:289 | a file that moves was there from the start, was not in the target folder, and no earlier moved file sits at its destination |
| Mover.ReportedFailures | smart_file_manager.py:287-291 | every reported file was listed, and a listed file never reported was on the disk and has left its path |
| Mover.FailingFileIsIsolated | smart_file_manager.py:287-291 | a file the environment refuses (in `failing`), wherever and however often it is listed, changes nothing: dropping it from the list gives the same filesystem, and the report only loses it |
| Mover.FailedMoveIsIsolated | smart_file_manager.py:287-291 | any single move that raises, whatever the reason, changes nothing: the filesystem is that of the list without it, and the report is the same with that one file added |
| Mover.MoveAllConcat | smart_file_manager.py:287-291 | the loop over two lists is the loop over the second started where the first ended, with the reports concatenated |
| Mover.SecondMoveChangesNothing | smart_file_manager.py:289 | moving files that are no longer there changes nothing and reports every one |
| Mover.MoveFilesConserves | smart_file_manager.py:284-291 | if `makedirs` raises, nothing changes; otherwise the conservation invariant holds from the state after `makedirs` |
| Mover.MoveFiles | smart_file_manager.py:284-291 | the new state and the outcome are those of `MoveFilesOn`; when `makedirs` did not raise and the listed files are movable with distinct names, nothing is reported and every file sits in the category folder with its data |
| Mover.MovableStep | smart_file_manager.py:289 | one more file that is on the disk, not refused, with a free destination no earlier file took, moves, and every file so far sits at its destination |
| Mover.MovableFilesAreMoved | smart_file_manager.py:287-291 | when every listed file is on the disk, is not refused, has a free destination, and no two share a last component, nothing is reported, every file has left its path for its destination with the same data, and the only new files are those destinations |
| Mover.MoveFilesMovesMovable | smart_file_manager.py:284-291 | once `makedirs` succeeds, such a list is moved entirely into the category folder and nothing is reported |
| Store.StoreNeverOverwrites | smart_file_manager.py:136-144 | existing files and directories are untouched; each new file is empty, has the given mtime, and is the full path of some record; there is one new file per "stored" result; `Raised` can only be the last result |
| Store.StoredPathsExist | smart_file_manager.py:137-144 | after a pass that did not raise, every record's path exists |
| Store.StoreOfExistingPathsIsNoOp | smart_file_manager.py:139-140 | when every path exists, every record is reported as existing and nothing changes |
| Store.StoreIsIdempotent | smart_file_manager.py:136-144 | storing the same records again creates nothing |
| Store.StoreKeepsWellFormed | smart_file_manager.py:142-143 | the tree stays well formed |
| Store.StoreFiles | smart_file_manager.py:136-144 | the new state and the results are those of `StoreAll` |
| Store.StoreOne | smart_file_manager.py:138-144 | one record: "already exists" when the path exists, otherwise an empty file is created when `open` can, and otherwise it raises with the filesystem unchanged |
| Store.StoreAllFrom | smart_file_manager.py:137-144 | the pass from record k on is one step for record k followed by the pass from k + 1 |
| OperationLog.Logged | smart_file_manager.py:233-242 | the log becomes the previous history plus exactly one record at the end, with earlier entries unchanged; a missing or corrupt store counts as empty |
| OperationLog.LoggedAllAppends | smart_file_manager.py:227-242 | after any number of calls, the log is the starting history followed by one record per call, in call order |
| OperationLog.LoggedAsWritten | smart_file_manager.py:233-240 | the code as written raises exactly on a store that holds valid JSON other than a list |
| OperationLog.AsWrittenRaisesOnObject | smart_file_manager.py:236-240 | a store holding `{}` makes the code as written raise, while the corrected version starts a fresh list |
| OperationLog.AsWrittenAgreesOnListsAndMissingFiles | smart_file_manager.py:233-242 | away from non-list stores, the code as written and the corrected version agree |
| OperationLog.LogFile.LogFileOperation | smart_file_manager.py:227-242 | raises exactly when `open(log_file, 'w')` does, leaving the store unchanged; otherwise the store becomes `Logged` of the old store |
| OperationLog.LogFile.LogFileOperationAsWritten | smart_file_manager.py:227-242 | raises exactly on a non-list store or when `open(log_file, 'w')` raises, leaving the store unchanged; otherwise appends the record |

## Left out

- The watchdog observer, `on_created` and the keep-alive thread (smart_file_manager.py:71-98) are event callbacks and concurrency. `on_created` only filters events before it calls `backup_files`, and that call is what is modelled.
- `get_file_hash` is SHA-256 through `hashlib`, a foreign library, so it is not modelled.
- `date.today()`, `datetime.now()` and `strptime(...).timestamp()` are clock reads and local-time conversion. The model takes their results as parameters. Times are whole seconds rather than floats.
- JSON encoding and decoding are not modelled. The log file is seen through what `json.load` returns, as the `LogStore` value, and it is held in its own `LogFile` object rather than as a file of the `Disk`.
- Printed messages are not modelled. The interactive menu, `input`, argv handling, `preview_files`, `get_file` and `get_folder` (smart_file_manager.py:147-163 and 244-248, 306 onwards) are the user interface around the modelled operations.
- `setup.py` is packaging metadata with no logic.
- `analysis_file_from_folder` and `move_file_alternate_destination` (smart_file_manager.py:272-303) only compose a directory listing, `DetectFiles` and `MoveFiles`, so they are not modelled as members of their own.
- Lower-casing covers ASCII letters only, so Unicode case mapping is not modelled.
- `shutil.copy2` carries content and mtime. Permission bits and other metadata are not modelled.
- `shutil.move` is modelled for regular-file sources only. A directory source would move its whole tree; the callers only pass regular files.
- `shutil.rmtree` either fails as a whole (the path is in `failing`) or succeeds. Partial deletion before an error is not modelled.
- An absolute `directory` argument to `os.path.join` is not modelled, nor is a file name that contains a separator. Every argument is one or more path components below the given path.
- `os.path.relpath` returns "." for the base itself. In the model that is the empty path, which gives the same joined target.
- Python's `exists` following symlinks, and the case-insensitive filesystems of some platforms, are not modelled.
- Mover.ReportedFailures: states only that every unreported file moved. That a movable file is not reported is `MovableFilesAreMoved`, which also needs the listed files to have distinct last components, because a second file with the same name finds its destination taken.
- Mover.MovableFilesAreMoved: does not say which files of a list with repeated names are reported; `FailedMoveIsIsolated` covers each such failure one at a time.
- BackupEngine.CompletePassMirrorsFiles, BackupEngine.BackupMirrorsDespiteFailures and BackupEngine.BackupIsIdempotent take as a premise that the walk lists exactly the regular files below base (`WalksTree`), and BackupEngine.MirrorFrom and BackupEngine.MirrorDespiteFailures that every visit is a regular file below base; that `os.walk` behaves so is not derived from a model of `os.walk`.
- BackupEngine.MirrorDespiteFailures: also requires that the file's target folder is not a regular file at the start, because otherwise its copy fails without ending the pass.
- Cleanup.OldFileClean, FolderOps.GetFileExactFolder, FolderOps.DeleteIfEmpty, Storage.FileSystem.IsDir: `os.listdir` is assumed to succeed on every directory (smart_file_manager.py:67, 169, 204, 222), so it raises only on a path that is not a directory. A directory that exists but cannot be read, where the source raises outside every `try` and deletes nothing, is not modelled. `delete_folder`, `get_file_exact_folder` and `delete_if_empty` reach that call through `list_dirs` (176, 167, 220).
- OperationLog.Logged, OperationLog.LogFile.LogFileOperation, OperationLog.LogFile.LogFileOperationAsWritten: `open(log_file, 'r')` (smart_file_manager.py:235) is assumed to succeed on an existing log file. A log file that exists but cannot be read, where the source raises before writing, is not modelled.
- OperationLog.LogFile.LogFileOperation: this is the corrected behaviour. The code as written is `LogFileOperationAsWritten` (see Findings).
- FolderOps.DeleteIfEmpty: this is the corrected behaviour. The code as written is `DeleteIfEmptyAsWritten` (see Findings).

## Findings

| source | as written | input that shows it | evidently intended | confidence | as-written member | corrected member |
|---|---|---|---|---|---|---|
| smart_file_manager.py:219-223 | `delete_if_empty` removes an empty folder by calling `delete_folder(path, d)`, which looks the name up again case-insensitively and removes the first folder matching without regard to case | a folder `a` holding a file `x`, an empty folder `A`, and `os.listdir` listing `a` before `A`: `a` is removed with its file and `A` stays | remove exactly the empty subdirectories found, by their own exact names | high, not executed | FolderOps.AsWrittenDeletesNonEmptyFolder | FolderOps.DeleteIfEmpty |
| smart_file_manager.py:236-240 | the bare `except` only covers `json.load`; when the file holds valid JSON that is not a list, `logs.append` raises AttributeError | a log file whose content is `{}` | a store that is not a list counts as corrupt, and the log starts from the empty list | high, not executed | OperationLog.AsWrittenRaisesOnObject | OperationLog.Logged |
