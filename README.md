# cloud-archiver: staleness analysis and archive layout, in Dafny

This project models the core of cloud-archiver, a tool that finds the files
and directories under a root that nobody has accessed for a number of days,
moves them into a local staging directory `.archive` partitioned by the year
and month of last access, and lists that staging directory again so it can
be uploaded. The model covers:

- the refactored scan in `analyze_directory.py`: staleness of a file and of a
  directory, and the catalogue of root entries and sub-entries;
- the monolithic `cloud_archiver.py`:
  - the `ArchivePath` flags and its own `traverse`, `_paths_in` and
    `_days_since_last_access`;
  - the `YYYY/MM` partition key;
  - `transfer_to_archive`, which moves files into the staging directory;
  - `get_items_in_archive`, which walks the staging directory and rebuilds
    `(key, path)` pairs.

The filesystem is a class `Disk.FileSystem`. It holds a map from absolute
locations to nodes and a working directory. A location is a sequence of
entry names, and a node is a file (access time in seconds, access year and
month) or a directory. Path strings stay strings. `Paths` models the string
operations the code uses:

- `str.split("/")` and `"/".join`;
- `os.path.join` and `os.path.dirname`;
- `Resolve`, which turns a string into a location lexically, as
  `os.path.normpath` would: empty and `.` components stay, `..` drops the
  last name whatever that name is, and an absolute string starts at the root.

Where the filesystem decides the outcome, the operating system's own lookup
is modelled. `Listings.Lookup` follows the components one at a time through
the tree. Each component is looked up in the directory reached so far, so a
`..` after a missing name fails with not-found, and a name after a file fails
with not-a-directory. `os.listdir` and `os.path.exists` use this lookup.
`Disk.VisitedBy` is the set of locations a string passes through, one per
component. `os.makedirs` creates every one of them that is missing, including
a directory that a later `..` steps back out of. Where a lookup succeeds, it
lands where `Resolve` does (`Listings.Lookup`, `Listings.LookupJoin`).

`os.listdir`, `os.walk`, `os.makedirs` and `shutil.move` are methods over
that class. Listing order is arbitrary (chosen with `:|`), so every contract
holds for all listing orders. The current time, each file's access time and
its local calendar year and month are inputs.

Each operation is specified by a reference function, and then proved
against it:

- Scans. `Staleness.DirectoryDays` is the minimum over the files below a
  directory. `AnalyzeDirectory.Catalogue` and `CloudArchiver.Traversed`
  give the expected catalogue. The loops that fill the dictionary are proved
  to build exactly that.
- Transfer. `ArchiveTransfer.Plan` says where each eligible file must go and
  which record it yields. `Moves.MovedSoFar` describes the filesystem part
  way through the loop, for every order of the catalogue.
- Listing. `ArchiveManifest.Manifest` is the set of records for the files in
  the staging directory.
- Round trip. `ArchiveRoundTrip.ListingIsPlanned` ties the last two
  together: a transfer followed by a listing gives back the transfer's
  records.

Three behaviours of the code that the model keeps:

- `analyze_directory` ignores only the names its caller passes. It does not
  add the two reserved names itself.
- Staleness is an integer. It is negative when an access time lies in the
  future.
- `shutil.move` replaces a file already at the destination. No collision is
  reported.

## Model

| member | source | states |
|---|---|---|
| Staleness.SecondsToDays | src/cloud_archiver/analyze_directory.py:83-84 | the day count is the floor of seconds over 86400: `days*86400 <= seconds < (days+1)*86400` |
| Staleness.SecondsToDaysUnique | src/cloud_archiver/analyze_directory.py:83-84 | the floor is the only integer bracketing the seconds that way |
| Staleness.SecondsToDaysEdges | src/cloud_archiver/cloud_archiver.py:163-164 | 86399 s is 0 days, 86400 s is 1 day, -1 s is -1 day |
| Staleness.DirectoryDaysIsMinimum | src/cloud_archiver/analyze_directory.py:73-80 | a directory's staleness is at most every file's below it at any depth, equals one of them, and is 0 with no file |
| Staleness.DirectoryDaysCharacterized | src/cloud_archiver/analyze_directory.py:73-80 | conversely, any number with those three properties is the directory's staleness |
| Staleness.FreshFileKeepsDirectoryFresh | src/cloud_archiver/analyze_directory.py:73-80 | one file below the threshold keeps the whole directory below it |
| AnalyzeDirectory.DaysStaleOfFile | src/cloud_archiver/analyze_directory.py:65-70 | whole days since the file's access time, floored |
| AnalyzeDirectory.DaysStaleOfDirectory | src/cloud_archiver/analyze_directory.py:73-80 | the running minimum over the walked files equals the directory's staleness (0 for no file, and for the empty path) |
| AnalyzeDirectory.MinimumOverKeys | src/cloud_archiver/analyze_directory.py:73-80 | the least day count over a list holding exactly the file keys below a path is the directory's staleness |
| AnalyzeDirectory.DaysStale | src/cloud_archiver/analyze_directory.py:49-53 | a file's own days, otherwise the directory rule |
| AnalyzeDirectory.AddSubEntries | src/cloud_archiver/analyze_directory.py:35-44 | every listed file gets a non-root, non-directory, not-ignored, to-archive entry with the given days; other keys keep their entries |
| AnalyzeDirectory.Analyze | src/cloud_archiver/analyze_directory.py:10-46 | raises exactly when `os.listdir` of the root raises (`Listings.ListError`: the lookup fails, or the root is missing or a file), and otherwise returns exactly the catalogue of the root's children, for every listing order |
| AnalyzeDirectory.ChildRootEntry | src/cloud_archiver/analyze_directory.py:17-32 | every child has a root entry keyed `root/child`, with its staleness, archivable iff days >= threshold and not ignored, ignored iff its name is in the list, `is_dir` iff a directory |
| AnalyzeDirectory.RootEntriesAreChildren | src/cloud_archiver/analyze_directory.py:17-32 | every root entry is the entry of a child, keyed `root/child` |
| AnalyzeDirectory.ChildKeysDistinct | src/cloud_archiver/analyze_directory.py:19 | different children get different keys |
| AnalyzeDirectory.ArchivableChildExpands | src/cloud_archiver/analyze_directory.py:35-44 | each file below an archivable child, at any depth, has an entry keyed by its walked path: not root, not a directory, not ignored, to archive, with the child's days |
| AnalyzeDirectory.NothingBelowUnlessArchivable | src/cloud_archiver/analyze_directory.py:35-44 | an entry below a child exists only if the child is archivable and a directory, and is then a file's sub-entry |
| AnalyzeDirectory.FreshFileBlocksArchive | src/cloud_archiver/analyze_directory.py:20-22 | one fresh file below a child makes its root entry not archivable and leaves nothing below it in the catalogue |
| Listings.ListDirAt | src/cloud_archiver/analyze_directory.py:17 | `os.listdir` fails with not-found for `""`, for a `..` or a name looked up in a missing directory, and for a missing path; with not-a-directory for a name looked up in a file and for a file; and otherwise lists each child once |
| Listings.Lookup | src/cloud_archiver/analyze_directory.py:17 | a lookup that succeeds lands where lexical resolution does |
| Listings.LookupSucceeds | src/cloud_archiver/analyze_directory.py:17 | the lookup succeeds if and only if every location it passes through before the last component is an existing directory |
| Listings.LookupJoin | src/cloud_archiver/cloud_archiver.py:56 | once a string looks up to a directory, `os.path.join` of it and a child's name looks up that child |
| Listings.UpFromMissingFails | src/cloud_archiver/analyze_directory.py:17 | `os.listdir("m/..")` with `m` missing fails with not-found, although `m/..` resolves lexically to the working directory |
| Listings.ThroughFileFails | src/cloud_archiver/analyze_directory.py:17 | `os.listdir("f/x")` with `f` a file fails with not-a-directory |
| Listings.OpenPathExists | src/cloud_archiver/cloud_archiver.py:201 | a path string whose every location is a directory exists for `os.path.exists`, and its lookup lands where it resolves |
| Listings.AllFilesInDir | src/cloud_archiver/analyze_directory.py:56-62 | the keys collected over the walk are exactly the path strings of the files below the path (none for a file or a missing path) |
| Listings.AppendJoined | src/cloud_archiver/analyze_directory.py:59-61 | the inner loop appends `os.path.join(r, f)` for each file name, in order |
| Listings.KeysNameFiles | src/cloud_archiver/analyze_directory.py:56-62 | each collected key resolves to a file below the path, and each such file is named by a key |
| Disk.ListDir | src/cloud_archiver/cloud_archiver.py:78 | a directory's listing holds each child name once and nothing else |
| Disk.Walk | src/cloud_archiver/cloud_archiver.py:205 | `os.walk` yields nothing for `""` or a non-directory, and otherwise one step per directory at or below the top, with its path string and exactly its files |
| Disk.FileSystem.MakeDirs | src/cloud_archiver/cloud_archiver.py:169 | `os.makedirs(exist_ok=True)` adds exactly the missing locations the string passes through, as directories (one a later `..` leaves included), keeps the tree well formed, and makes the resolved location a directory |
| Disk.VisitedWellFormed | src/cloud_archiver/cloud_archiver.py:169 | when no location a string passes through is a file, creating the missing ones keeps the tree well formed |
| Disk.VisitedMadeIsWay | src/cloud_archiver/cloud_archiver.py:182-183 | when every missing location a string passes through lies on the way to where it ends, `os.makedirs` creates exactly the missing directories on that way |
| Disk.FileSystem.Move | src/cloud_archiver/cloud_archiver.py:186 | `shutil.move` removes the source and puts its node at the destination, replacing a file already there |
| Disk.NothingInsideFile | src/cloud_archiver/analyze_directory.py:56-62 | a file has nothing below it, so walking it finds no file |
| ArchivePaths.NewArchivePath | src/cloud_archiver/cloud_archiver.py:25-32 | ignored iff the path ends in `.archive` or `.archive_config.json` as a last component; to archive iff requested and not ignored |
| ArchivePaths.LastComponentIsSuffix | src/cloud_archiver/cloud_archiver.py:30-31 | `path.split("/")[-1] == name` iff the path is `name` or ends with `/name` |
| CloudArchiver.DaysSinceLastAccess | src/cloud_archiver/cloud_archiver.py:140-161 | a file's floored days; a directory's days are the minimum over the files below it capped at 0 |
| CloudArchiver.MinOverChildren | src/cloud_archiver/cloud_archiver.py:142-155 | the running minimum seeded with 0 is at most 0 and every visited child's days, and is 0 or some file's days |
| CloudArchiver.DirectoryNeverQualifies | src/cloud_archiver/cloud_archiver.py:142-155 | a directory's days are at most 0, so none reaches a threshold of 1 or more |
| CloudArchiver.LegacyHidesStaleDirectory | src/cloud_archiver/cloud_archiver.py:143 | a directory whose only file is 5 days stale reports 0, while the minimum over its files is 5 |
| CloudArchiver.PathsIn | src/cloud_archiver/cloud_archiver.py:74-83 | for a directory, exactly the path strings of the files below it; for anything else, `[path]` |
| CloudArchiver.PathsInIsAllFiles | src/cloud_archiver/cloud_archiver.py:74-83 | `_paths_in` and `_all_files_in_dir` find the same files in a directory |
| CloudArchiver.FoundBelowChild | src/cloud_archiver/cloud_archiver.py:63-64 | dropping the child's own path from what `_paths_in` finds leaves exactly the files below it (none for a file) |
| CloudArchiver.AddTraversedSubs | src/cloud_archiver/cloud_archiver.py:63-66 | every path found except the child's own gets a non-root sub-entry; other keys keep theirs |
| CloudArchiver.Traverse | src/cloud_archiver/cloud_archiver.py:49-72 | raises exactly when `os.listdir` of the root raises (`Listings.ListError`), and otherwise returns exactly the traversal catalogue, the root entry written after the sub-entries |
| CloudArchiver.TraversedRootEntry | src/cloud_archiver/cloud_archiver.py:55-70 | every child has a root entry keyed `root/child`, with its legacy days, ignored iff reserved, to archive iff old enough and not reserved |
| CloudArchiver.TraversedRootsAreChildren | src/cloud_archiver/cloud_archiver.py:55-70 | every root entry belongs to a child |
| CloudArchiver.TraversedExpands | src/cloud_archiver/cloud_archiver.py:61-66 | each file below an expanding child has a non-root, non-directory entry with the child's days, ignored iff its key ends in a reserved name and to archive otherwise |
| CloudArchiver.TraversedNothingBelowUnlessExpands | src/cloud_archiver/cloud_archiver.py:61-66 | an entry below a child exists only when the child expands and is a directory |
| CloudArchiver.TraversalArchivesOnlyFileRoots | src/cloud_archiver/cloud_archiver.py:57-70 | with a threshold of at least 1 the traversal holds root entries only, and only files among them are to be archived |
| ArchiveKeys.DecimalRoundTrip | src/cloud_archiver/cloud_archiver.py:221 | reading `str(n)` back as decimal gives `n` |
| ArchiveKeys.ZFill | src/cloud_archiver/cloud_archiver.py:221 | `zfill` keeps the string as its suffix, pads with zeros only, and reaches the width |
| ArchiveKeys.ZFillValue | src/cloud_archiver/cloud_archiver.py:221 | zero padding keeps the digits' value |
| ArchiveKeys.PartitionKeyNames | src/cloud_archiver/cloud_archiver.py:221 | the partition is two valid names, the month exactly two digits, joined by one separator |
| ArchiveKeys.PartitionKeyParses | src/cloud_archiver/cloud_archiver.py:221 | the partition splits into two digit strings reading back as the year and the month |
| ArchiveKeys.PartitionKeyInjective | src/cloud_archiver/cloud_archiver.py:216-222 | different access months never share a partition |
| ArchiveKeys.PartitionKeyMarch2024 | src/cloud_archiver/cloud_archiver.py:221 | year 2024, month 3 gives `2024/03` |
| ArchiveKeys.PartitionKeyNovember2023 | src/cloud_archiver/cloud_archiver.py:221 | year 2023, month 11 gives `2023/11` |
| ArchiveKeys.CreateArchiveKey | src/cloud_archiver/cloud_archiver.py:216-222 | the file's partition splits into its access year and zero-padded month |
| ArchiveTransfer.StagingPathShape | src/cloud_archiver/cloud_archiver.py:168 | `archive_dir/.archive` is non-empty, ends with a name, and resolves to `.archive` inside `archive_dir` |
| ArchiveTransfer.SourceAndDest | src/cloud_archiver/cloud_archiver.py:179-180 | an eligible file goes to the staging directory, then its partition, then its key's components |
| ArchiveTransfer.DestsApart | src/cloud_archiver/cloud_archiver.py:179-186 | two eligible entries never share a destination, and neither lands inside the other's |
| ArchiveTransfer.PlanIndependent | src/cloud_archiver/cloud_archiver.py:174-188 | a catalogue meeting the preconditions gives a batch of moves that cannot spoil one another |
| ArchiveTransfer.PlannedItemLands | src/cloud_archiver/cloud_archiver.py:179-187 | each record's key is `partition/key`, a plain path leading from the staging directory to the file's destination, and its path is `archive_path/key` |
| ArchiveTransfer.PlannedItemsApart | src/cloud_archiver/cloud_archiver.py:179-187 | different entries report different keys |
| ArchiveTransfer.ArchiveTarget | src/cloud_archiver/cloud_archiver.py:179-182 | the built file path resolves to the destination, and its `dirname` is non-empty and resolves to the destination's parent |
| ArchiveTransfer.ArchiveOne | src/cloud_archiver/cloud_archiver.py:178-187 | one file: the partition is named, the way is created, the file is moved, and `(partition/key, archive_path/partition/key)` is reported |
| ArchiveTransfer.PlaceFile | src/cloud_archiver/cloud_archiver.py:182-186 | `makedirs(dirname)` and then `move` give exactly the filesystem after the move |
| ArchiveTransfer.HandleEntry | src/cloud_archiver/cloud_archiver.py:174-188 | an ineligible entry (not to archive, or a directory) changes nothing and reports nothing; an eligible one is moved and its record appended |
| ArchiveTransfer.MoveAll | src/cloud_archiver/cloud_archiver.py:174-189 | after the loop, every entry is handled, the items are exactly the records, once each, and `n` is their count |
| ArchiveTransfer.TransferToArchive | src/cloud_archiver/cloud_archiver.py:166-191 | the records returned are exactly the planned ones, once each, `n == len(items)`, and the filesystem is the transferred one |
| ArchiveTransfer.StagingReachable | src/cloud_archiver/cloud_archiver.py:168-169 | when `os.makedirs` of the staging path can succeed, no file stands on the way to the staging directory |
| ArchiveTransfer.StagingExistsAfter | src/cloud_archiver/cloud_archiver.py:169 | after the transfer every location the staging path passes through is a directory, so `os.path.exists` holds for it |
| ArchiveTransfer.FileDirSplit | src/cloud_archiver/cloud_archiver.py:179-182 | the `dirname` of a file's archive path is the staging path followed by the partition's names and the key's names but the last |
| ArchiveTransfer.FileDirWay | src/cloud_archiver/cloud_archiver.py:182-183 | with the staging path open, each location `file_dir` passes through is a directory, or is missing and on the way to the destination's parent |
| ArchiveTransfer.EligibleMoved | src/cloud_archiver/cloud_archiver.py:182-186 | after the transfer, each eligible file is gone from its source and lies unchanged at its destination, where its record's path leads |
| ArchiveTransfer.IneligibleStays | src/cloud_archiver/cloud_archiver.py:175-176 | an entry that is skipped, named by a plain relative key and lying outside the staging directory, keeps its file where it was |
| ArchiveTransfer.RecordsInjective | src/cloud_archiver/cloud_archiver.py:187 | different eligible entries report different records |
| Moves.Begin | src/cloud_archiver/cloud_archiver.py:168-169 | after creating the staging directory, every move is still to come and its way is clear |
| Moves.Skip | src/cloud_archiver/cloud_archiver.py:175-176 | handling a key with no move changes nothing |
| Moves.Step | src/cloud_archiver/cloud_archiver.py:182-186 | making one more move keeps the description of the filesystem, with that key done |
| Moves.WayStaysOpen | src/cloud_archiver/cloud_archiver.py:174-188 | an old directory, or a location on the way to the staging directory, stays a directory at every point of the batch |
| Moves.StagedAreMoved | src/cloud_archiver/cloud_archiver.py:174-188 | once all moves are made into a staging directory that held no file, its files are exactly the destinations |
| ArchiveManifest.ManifestItemNamesFile | src/cloud_archiver/cloud_archiver.py:210-211 | a record's key splits back into the names below the staging directory, and its path resolves to the file |
| ArchiveManifest.ManifestItemInjective | src/cloud_archiver/cloud_archiver.py:210 | different files give different records |
| ArchiveManifest.ManifestItemOfKey | src/cloud_archiver/cloud_archiver.py:210-211 | the record of the file under a plain key is `(key, archive_path/key)` |
| ArchiveManifest.WalkedItem | src/cloud_archiver/cloud_archiver.py:206-211 | cutting `len(archive_path) + 1` characters off a walked directory path and joining a file name gives the file's relative key |
| ArchiveManifest.AppendStepItems | src/cloud_archiver/cloud_archiver.py:209-212 | the inner loop appends `(join(root_head, f), join(walk_root, f))` for each file, in order |
| ArchiveManifest.StepItemsAreRecords | src/cloud_archiver/cloud_archiver.py:205-212 | the pairs built for a walked directory are the records of its files |
| ArchiveManifest.WalkRelsDistinct | src/cloud_archiver/cloud_archiver.py:205-209 | the walk visits each file once |
| ArchiveManifest.WalkedManifest | src/cloud_archiver/cloud_archiver.py:205-212 | the records of the whole walk are exactly one per file in the staging directory, none repeated |
| ArchiveManifest.NoFilesOutsideDirectory | src/cloud_archiver/cloud_archiver.py:201-202 | with no staging directory there is no file to list |
| ArchiveManifest.GetItemsInArchive | src/cloud_archiver/cloud_archiver.py:193-214 | `[]` when `os.path.exists` fails for the staging path (by the lookup, so `m/../.archive` with `m` missing gives `[]`); otherwise exactly one `(relative key, path)` record per file inside it; never a repeat |
| ArchiveRoundTrip.RecordIsListed | src/cloud_archiver/cloud_archiver.py:179-187 | the record the transfer reports for an entry is the record the listing makes for the file at its destination |
| ArchiveRoundTrip.ListingIsPlanned | tests/test_cloud_archiver.py:72-87 | after a transfer into a staging directory without files, the listing is exactly the transfer's records |
| ArchiveRoundTrip.SameElementsSameLength | tests/test_cloud_archiver.py:80-81 | two lists without repeats holding the same records have the same length |
| ArchiveRoundTrip.ArchiveThenList | tests/test_cloud_archiver.py:72-87 | transfer then list: the same pairs, and as many as the transfer's count |
| ArchiveRoundTrip.DotKeyResolves | src/cloud_archiver/analyze_directory.py:19 | a key `./x`, as a scan of `.` writes it, is not a plain path but resolves to the same file as `x` |
| ArchiveRoundTrip.DotKeyReported | src/cloud_archiver/cloud_archiver.py:179 | the transfer reports a key `./x` as `partition/./x` |
| ArchiveRoundTrip.FileKeyListed | src/cloud_archiver/cloud_archiver.py:210 | the listing names the file `x` of a partition `partition/x` |
| ArchiveRoundTrip.DotKeyBreaksRoundTrip | src/cloud_archiver/cloud_archiver.py:179 | a key `./x` names the file `x`, but the key the transfer reports differs from the key the listing rebuilds for that file |
| Paths.SplitJoinAll | src/cloud_archiver/cloud_archiver.py:30 | `"/".join` of names without separators splits back into them |
| Paths.ResolveJoin | src/cloud_archiver/cloud_archiver.py:56 | `os.path.join(root, child)` resolves to the child of the root's location |
| Paths.DirnameOfJoined | src/cloud_archiver/cloud_archiver.py:181-182 | the `dirname` of `os.path.join(a, j/x)` is `a/j` when `x` has no separator |
| Paths.DirnameResolve | src/cloud_archiver/cloud_archiver.py:182 | `os.path.dirname` resolves to the parent of the location the path resolves to |
| Paths.ResolveJoinCanonical | src/cloud_archiver/cloud_archiver.py:180 | joining a plain relative key goes down from the first path by the key's names |
| Paths.JoinCanonical | src/cloud_archiver/cloud_archiver.py:179 | two plain relative paths joined give a plain path with the names of both |

## Findings

| source | as written | input that shows it | evidently intended | confidence | as-written member | corrected member |
|---|---|---|---|---|---|---|
| src/cloud_archiver/cloud_archiver.py:143 | the running minimum over a directory's children starts at `latest_date = 0`, so a directory's days are `min(0, …)` and the `latest_date is None` test is dead | a directory `d` holding one file last read 5 days ago reports 0 days, so with threshold 1 it is never archived | start from no value and return 0 only when there is no file, as the comment at :154 says and `_days_stale_of_directory` (analyze_directory.py:73-80) does | high, not executed | CloudArchiver.LegacyHidesStaleDirectory | AnalyzeDirectory.DaysStaleOfDirectory |

`CloudArchiver.DaysSinceLastAccess` and `CloudArchiver.Traverse` model the
code as written. The refactored scan `AnalyzeDirectory.Analyze` uses the
corrected staleness. `Staleness.DirectoryDaysIsMinimum` proves the intended
property of it.

## Left out

- Terminal output (`display_paths`, `with_color`, `section`, `print`, the `rich` console messages inside `transfer_to_archive`): presentation only.
- `human_readable_bytes`: floating-point formatting.
- `upload` and `get_s3_client`: calls into boto3.
- `load_config`, `configure`, `main`: configuration file input and output, interactive prompts, deletion of uploaded files.
- `time.time()`, `os.stat` and `datetime.fromtimestamp`:
  - they are inputs: the current time `now` in whole seconds, each file's access time in whole seconds, and its access year and month;
  - fractional seconds and the local time zone are not modelled.
- `src/cloud_archiver/archive_path.py` is not part of this model. The `ArchivePath` that `analyze_directory` builds is taken to store the arguments it is given, `is_ignored` included.
- ArchiveTransfer.TransferToArchive requires keys that are plain relative paths naming files outside the staging directory. It also requires that no file blocks the way to a destination and that no destination is a directory. Without these the source raises part way through, or reports a key that does not round-trip (see `ArchiveRoundTrip.DotKeyBreaksRoundTrip`), and the model does not describe those runs.
- ArchiveTransfer.TransferToArchive does not cover the call `main` makes (cloud_archiver.py:320). `main` scans `"."` (:295, :309), so every key has the form `./name`, which is not a plain relative path. `ArchiveRoundTrip.DotKeyResolves` and `ArchiveRoundTrip.DotKeyBreaksRoundTrip` show what such a key does: it names the same file, but the record reported for it is not the one the listing rebuilds.
- ArchiveTransfer.TransferToArchive also requires (`ArchiveTransfer.StagingWay`) that every location `archive_dir/.archive` passes through that is missing lies on the way to the staging directory. An `archive_dir` such as `m/../x` with `m` missing makes `os.makedirs` create `m` as well. `Disk.FileSystem.MakeDirs` models that, but the description of the transfer's final state allows no directories besides those on the way to the staging directory and the destinations.
- Disk.Walk, Listings.AllFilesInDir, CloudArchiver.PathsIn and the `os.stat` and `os.path.isdir` tests still resolve strings lexically. They are called only on paths built by joining names onto a root that was listed or found to exist, where the lookup succeeds and lands on the same location (`Listings.LookupJoin`, `Listings.OpenPathExists`). Called directly on a string such as `m/..`, they would treat it as its lexical resolution.
- ArchiveTransfer.TransferToArchive returns the count `n` that the source only prints.
- ArchiveRoundTrip.ArchiveThenList requires that the staging directory held no file before the transfer. Files staged earlier would also be listed.
- CloudArchiver.DaysSinceLastAccess requires the path to exist. `os.stat` on a missing path raises, which is not modelled.
- Order of `os.listdir` and `os.walk`: the model picks any order. Contracts on catalogues and listings are stated as maps and sets, and hold for every order.
- Symbolic links, permissions, concurrent changes to the filesystem, and the copy-and-delete fallback of `shutil.move` across volumes.
- A catalogue is a Dafny `map`. Python's insertion order of dictionary keys is not modelled. The transfer is proved for every order in which it visits the entries.
