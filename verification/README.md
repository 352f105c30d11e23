# Verification of the box's storage, protocols and accounting

This project models the self-contained pieces of BoxFox that carry real invariants and proves what they keep. Code
that works step by step is modelled by classes and loops, each proved equal to a function; what the sources promise is
then proved about those functions, over all inputs and over whole runs.

* **Archive writer** (`desktop/src/zip.ts`): `Bytes`, `Crc32`, `ZipFormat` (a reader written from PKWARE APPNOTE.TXT,
  sections 4.3.7, 4.3.12, 4.3.16 and 4.4.6, which reads every field), `ZipWriter`, `ZipRoundTrip`.
* **Workspace tree** (`deploy/docker/workspace_files.py`): `Tree`, `WorkspaceOps` (each operation as a function on
  trees whose nodes keep an inode number), `Workspace` (the code), `WorkspaceLaws`, `WorkspaceFindings`,
  `WorkspaceResults` and `UnpackResults` (when each request succeeds, and what it leaves where).
* **Plan store** (`deploy/docker/plan_files.py`): `PlanGrammar`, `PlanHeader`, `PlanHeaderReads`, `PlanNames`,
  `PlanTree` (the scanners), `PlanWatermark`, `PlanAgreement`, `PlanDeepReviews`, `PlanManifest`, `PlanManifestLaws`,
  `PlanFinds` and `ReviewFinds` (what is found, said of the tree), `PlanStore` (the code and the cache over runs).
* **Plan migration** (`deploy/docker/migrate_plans.py`): `MigrationPlan`, `MigrationSafety`, `MigrationApply`,
  `MigrationHeaders`, `MigrationLaws`, `MigrationAccepts` (which renames are planned and when they are accepted),
  `MigrationWrites` (which headers are written), `MigrationIdempotence`, `MigrationRepeats`, `MigrationExamples`.
* **Upload numbers** (`deploy/docker/upload_files.py`, `deploy/docker/workspace_files.py`): `Uploads`, `UploadLaws`,
  `UploadNumbering` (sequential runs with prunes, and interleaved calls).
* **Session directories and captures** (`deploy/docker/session_files.py`, `deploy/docker/capture.py`): `Sessions`,
  `Captures`, `CaptureLaws`, `CaptureListing`, `CaptureDedup`.
* **WebSocket client** (`deploy/docker/browser_capture.py`): `Frames` (RFC 6455, sections 5.2, 5.3 and 5.7),
  `WebSocket`, `WebSocketLaws`.
* **Supervisor, hit test, turns, ranks** (`desktop/src/supervisor.ts`, `deploy/docker/inspect_element.py`,
  `backend/tools/turn_latency.py`, `scripts/eval/grading.py`): `Supervisor`, `SupervisorRestarts`, `HitTest`,
  `Turns`, `TurnPairs`, `Ranking`, `Spearman`.

`Wrappers`, `Strings`, `Sorting` and `Totals` hold what the others share.

## Where the code does less than it says

The model follows the code. Each of these is proved, with the exact condition under which the promise holds.

* The DOS stamp is refused by `writeUInt32LE` exactly when bit 6 of the year offset is set, for example in 2044
  (`ZipWriter.StampIsWritable`); a stamp that is written says another date exactly for years before 1980 and from 2108
  on (`ZipWriter.StampDecodesIff`).
* A plan that gets a header keeps its text exactly when it has no carriage return, because it is read in text mode,
  although contents are said never to be edited (`MigrationHeaders.TextKeptIff`). A merge target that is no slug turns
  plans into files that are no longer read (`MigrationLaws.FinalNameReadsIff`). An accepted run stops half way exactly
  when a new name has a slash or stands on a file that is no plan (`MigrationLaws.RunMigrates`); when a merge source is
  given more than once, also when an earlier rename has that name or has not yet freed it
  (`MigrationRepeats.RunCompletesIff`).
* The manifest watermark goes one level less deep below `.reviews` than the reader: a review sixteen levels down can
  change unseen, and no other can (`PlanDeepReviews.ReviewsAreWatchedIff`). The collision handling of `scan_plans` can
  never be needed on a directory tree (`PlanManifestLaws.TreesHaveNoCollisions`).
* `rename_entry` and `move_entry` check only the source, so a free protected name is taken by a rename of an unprotected
  entry at the top to it, and by a move to the top of an entry of that name, and by no other
  (`WorkspaceFindings.RenameTakesProtectedIff`, `WorkspaceFindings.MoveTakesProtectedIff`). `validate_rel_path` rejects
  its own result exactly when the first segment looks like a drive (`WorkspaceFindings.ParseOnceIsStableIff`). Unpacking
  overwrites a file when a member's name without white space at its ends is that file's
  (`WorkspaceLaws.ExtractMemberKeepsIff`), and runs conserve everything step by step exactly when no member does
  (`WorkspaceLaws.RunKeeps`).
* Upload numbers, which nobody is to reuse, are given out twice in some interleaving exactly when two calls upload files
  with different extensions (`UploadNumbering.NumbersAreDistinctIff`).
* A session whose directory holds an unreadable `session.json` is told that all is well but does not own the directory
  (`Sessions.OwnedIff`, `Sessions.BrokenFileIsShared`).
* A capture that cannot be unlinked is reported neither as removed nor as kept (`CaptureLaws.ReportAddsUpIff`). The
  "LRU" of content hashes is first in, first out: a hit does not refresh an entry (`CaptureDedup.KeptAgainIff`).
  A capture that finds all its names taken goes over an earlier one (`CaptureDedup.EarlierStayIff`).
* `call` ignores continuation frames: a message is read as it was sent exactly when it comes in one frame and no
  beginning of a fragmented message has left text before it (`WebSocketLaws.WholeTextIsReadIff`), so a response in
  fragments is lost (`WebSocketLaws.ResponseIsReturnedIff`).
* A `start()` that takes effect while a `stop()` still waits is forgotten by the supervisor, and the next start puts a
  second process beside the first; a start can lead there at no other moment (`Supervisor.StartCanDoubleIff`).
* A tool start whose id is already open is counted nowhere (`Turns.UnmatchedIsCompleteIff`).

## Model

| member | source | states |
|---|---|---|
| Bytes.LittleEndianRoundTrip | desktop/src/zip.ts:70-79 | a number that fits a little-endian field of any width is read back from it |
| Bytes.BigEndianRoundTrip | deploy/docker/browser_capture.py:46-51 | a length that fits a network-order field is read back from it |
| Crc32.MakeTable | desktop/src/zip.ts:31-39 | the table filled in place holds, for each byte, eight bit-serial steps on that byte |
| Crc32.ComputeCrc | desktop/src/zip.ts:41-47 | the table-driven loop yields the bit-at-a-time reflected CRC-32 of every byte string |
| Crc32.StepsAreLinear | desktop/src/zip.ts:35 | any number of shift-and-fold steps is linear over exclusive or |
| Crc32.TableIdentity | desktop/src/zip.ts:44 | clocking in a whole byte bit by bit equals one lookup on the low byte and one shift |
| Crc32.BurstChangesCrc | desktop/src/zip.ts:41-47 | every change confined to four consecutive bytes changes the checksum |
| Crc32.KnownValues | desktop/src/zip.ts:41-47 | the checksum of nothing is 0 and that of "a" is 0xE8B7BE43 |
| ZipWriter.StampIsWritable | desktop/src/zip.ts:50-55 | the stamp fits an unsigned 32-bit field exactly when the year offset modulo 128 is below 64 |
| ZipWriter.StampDecodes | desktop/src/zip.ts:50-55 | from every writable stamp a standard reader gets the date with its year folded to the seven bits of the field and the seconds rounded down to even |
| ZipWriter.StampDecodesIff | desktop/src/zip.ts:50-55 | so the date itself comes back exactly for the years 1980 to 2043 |
| ZipWriter.StampsThatFail | desktop/src/zip.ts:50-55 | the first day of 2044 is refused, and the last day of 1979 reads as 1980 |
| ZipWriter.WriteUInt | desktop/src/zip.ts:70-79 | appends the little-endian field exactly when the value fits, and fails otherwise |
| ZipWriter.WriteLocal | desktop/src/zip.ts:69-79 | emits the thirty bytes of the standard's local header, or fails exactly when a field does not fit |
| ZipWriter.WriteCentral | desktop/src/zip.ts:81-99 | emits the standard's central entry fields with the given offset, or fails exactly when one does not fit |
| ZipWriter.WriteEnd | desktop/src/zip.ts:102-111 | emits the end record with both counts, size and offset, or fails exactly when one does not fit |
| ZipWriter.LocalLayout | desktop/src/zip.ts:69-79 | each local header field lies where section 4.3.7 puts it |
| ZipWriter.CentralLayout | desktop/src/zip.ts:81-98 | each central entry field lies where section 4.3.12 puts it |
| ZipWriter.EndLayout | desktop/src/zip.ts:103-111 | each end record field lies where section 4.3.16 puts it |
| ZipWriter.BuildZip | desktop/src/zip.ts:57-113 | succeeds exactly on the encodable inputs, with local parts, central parts and end record at running offsets |
| ZipRoundTrip.ArchiveReads | desktop/src/zip.ts:57-113 | the standard's reader finds each central entry pointing at a local header that states the same facts, and the directory exactly delimited |
| ZipRoundTrip.ZipRoundTrip | desktop/src/zip.ts:57-113 | whatever the writer accepts, the reader recovers in order: names with slashes, data, the folded date with even seconds from both headers of each entry, method 8 exactly when `compress` is set, and mode 0100644 |
| ZipRoundTrip.NamesHaveSlashes | desktop/src/zip.ts:64 | a recovered name has a slash for each backslash and every other byte of the name |
| ZipRoundTrip.AcceptedIff | desktop/src/zip.ts:57-113 | the writer accepts exactly fewer than 65536 entries with names, data and totals that fit their fields and, unless there is none, a date before 1980 or with a year offset below 64 modulo 128 |
| Tree.RelocateIsWellFormed | deploy/docker/workspace_files.py:907-926 | moving a subtree to a free place outside itself leaves a well-formed tree |
| Tree.RelocateConserves | deploy/docker/workspace_files.py:907-926 | every node of the moved subtree keeps inode and bytes at the matching new path, all others stay |
| Tree.RelocateUndoes | deploy/docker/workspace_files.py:907-926 | moving back restores the whole tree |
| WorkspaceFiles.Workspace.OpenDirectory | deploy/docker/workspace_files.py:272-309 | the segment-by-segment walk succeeds exactly when the path is a directory |
| WorkspaceFiles.Workspace.EnsureDirectories | deploy/docker/workspace_files.py:1295-1327 | the loop creates exactly the missing directories of the chain, stopping at a file in the way |
| WorkspaceFiles.Workspace.MakeDirectoryAt | deploy/docker/workspace_files.py:929-978 | result and new tree are those of the specified mkdir, with every refusal |
| WorkspaceFiles.Workspace.TouchAt | deploy/docker/workspace_files.py:981-1030 | result and new tree are those of the specified exclusive create |
| WorkspaceFiles.Workspace.RenameEntry | deploy/docker/workspace_files.py:1033-1052 | result and new tree are those of the specified rename |
| WorkspaceFiles.Workspace.MoveEntry | deploy/docker/workspace_files.py:1055-1079 | result and new tree are those of the specified move |
| WorkspaceFiles.Workspace.UniqueTrashName | deploy/docker/workspace_files.py:1122-1133 | the search loop finds the first free name in the bin |
| WorkspaceFiles.Workspace.DeleteEntry | deploy/docker/workspace_files.py:1136-1162 | result and new tree are those of the specified relocation into the bin |
| WorkspaceFiles.Workspace.UnpackMember | deploy/docker/workspace_files.py:1353-1419 | one member of the archive changes the tree as specified, within the byte limit |
| WorkspaceFiles.Workspace.ExtractZip | deploy/docker/workspace_files.py:1353-1419 | result and new tree are those of the specified unpacking of all members |
| WorkspaceLaws.MakeDirectoryExtends | deploy/docker/workspace_files.py:929-978 | mkdir changes nothing that was there, and adds no file |
| WorkspaceLaws.TouchExtends | deploy/docker/workspace_files.py:981-1030 | touch changes nothing that was there; on success the new path holds the content |
| WorkspaceLaws.RenameKeeps | deploy/docker/workspace_files.py:1033-1052 | rename keeps the tree well formed, conserves every node and leaves protected entries in place |
| WorkspaceLaws.MoveKeeps | deploy/docker/workspace_files.py:1055-1079 | move does so too, and never puts a directory into itself |
| WorkspaceLaws.DeleteKeeps | deploy/docker/workspace_files.py:1136-1162 | delete loses nothing: the entry is in the bin under the reported, previously free name |
| WorkspaceLaws.TrimmedNeverClobbers | deploy/docker/workspace_files.py:1353-1419 | a member whose file name has no white space at its ends never meets another file in its place |
| WorkspaceLaws.ExtractMemberKeepsIff | deploy/docker/workspace_files.py:1353-1419 | unpacking a member conserves every node exactly when it does not overwrite another file under its stripped name |
| WorkspaceLaws.ExtractKeeps | deploy/docker/workspace_files.py:1353-1419 | unpacking keeps everything when no member overwrites another file at its turn, and each of its steps conserves every node exactly then |
| WorkspaceLaws.RunKeeps | deploy/docker/workspace_files.py:929-1162 | over every run of requests in which no unpacked member overwrites another file: a well-formed tree, every entry of the start with inode and bytes, protected entries in place; these are exactly the runs whose every step conserves every node |
| WorkspaceLaws.TrimmedRunsClobberNothing | deploy/docker/workspace_files.py:1353-1419 | runs with archives whose member names have no white space at their ends are such runs |
| WorkspaceLaws.EntryIsAtOnePath | deploy/docker/workspace_files.py:929-1162 | after any run in which no member overwrites another file an entry of the start is at exactly one path |
| WorkspaceFindings.ParseIsStable | deploy/docker/workspace_files.py:193-218 | a path that parsed parses again, joined, to the same segments |
| WorkspaceFindings.ParseOnceIsStableIff | deploy/docker/workspace_files.py:193-211 | `validate_rel_path` takes its own result for the same path exactly when the first segment does not look like a drive |
| WorkspaceFindings.ParseOnceIsNotStable | deploy/docker/workspace_files.py:193-211 | it accepts "./C:" and rejects its own result |
| WorkspaceFindings.RenameIsUndoneIff | deploy/docker/workspace_files.py:1033-1052 | renaming back restores the tree exactly when the old name can be given and the new path is addressable and not protected |
| WorkspaceFindings.RenameTakesProtectedIff | deploy/docker/workspace_files.py:1033-1052 | a free protected name is taken by exactly the renames of an existing unprotected entry at the top to that name |
| WorkspaceFindings.MoveTakesProtectedIff | deploy/docker/workspace_files.py:1055-1079 | and by exactly the moves to the top of an existing entry further down that has the name |
| WorkspaceFindings.RenameTakesTheBin | deploy/docker/workspace_files.py:1033-1052 | an ordinary directory can be renamed to ".trash" |
| WorkspaceFindings.MoveTakesTheBin | deploy/docker/workspace_files.py:1055-1079 | the directory "d/.trash" can be moved to the top |
| WorkspaceFindings.UnpackingClobbers | deploy/docker/workspace_files.py:1353-1419 | the member " b" replaces the bytes of an existing file "b" |
| WorkspaceResults.EnsureDirsPassIff | deploy/docker/workspace_files.py:1295-1327 | the directories of a path are made exactly when no file is in the way |
| WorkspaceResults.MakeDirectoryIff | deploy/docker/workspace_files.py:929-978 | mkdir succeeds exactly when the path names something, no file is in the way, and nothing is there, or a directory that may be; the answer is the path with its name trimmed, and a directory is there |
| WorkspaceResults.TouchIff | deploy/docker/workspace_files.py:981-1030 | touch succeeds exactly when the content is at most 1 MiB, the path names something, no file is in the way and nothing is there; the answer is that path, which holds the content |
| WorkspaceResults.RenameIff | deploy/docker/workspace_files.py:1033-1052 | rename succeeds exactly when the path is an unprotected entry and the new name is one and free in its directory; then exactly the entry and all below it are there instead |
| WorkspaceResults.MoveIff | deploy/docker/workspace_files.py:1055-1079 | move succeeds exactly when the path is an unprotected entry, the destination an unprotected directory outside it, and the name free there; then exactly the entry and all below it are there instead |
| WorkspaceResults.DeleteIff | deploy/docker/workspace_files.py:1136-1162 | delete succeeds exactly when the path is an unprotected entry, no file is where the bin should be and one of the 1001 names tried is free; then the entry and all below it are in the bin under the first of them |
| UnpackResults.ExtractMemberDoes | deploy/docker/workspace_files.py:1376-1418 | a member is unpacked exactly when that can be done; then its folders are there and it is under its trimmed name with its data, reported as extracted, unless something was under its own name, and then it is reported as skipped and nothing changes |
| UnpackResults.UnpackedSoFar | deploy/docker/workspace_files.py:1353-1419 | after any number of members the files and directories are exactly those of the start and those the members make, each place holds the last member written to it, all else is as it was, and both counts and the bytes are those of the members |
| UnpackResults.ExtractIff | deploy/docker/workspace_files.py:1353-1419 | unpacking succeeds exactly when the path is an archive's, it has at most 2000 members and each fits when its turn comes, said of the tree at the start and the list of members alone; then tree and report are as above |
| UnpackResults.MembersAreThere | deploy/docker/workspace_files.py:1353-1419 | with no white space at the ends of names every member that names a file is at its path after success: with its data when it was new, as it was when the tree had it |
| UnpackResults.MemberNameIff | deploy/docker/workspace_files.py:1270-1288 | a member name is accepted exactly when it is names joined by slashes, none empty or "..", with or without a slash behind them, without NUL and backslash and not like a drive |
| UnpackResults.DirectoryOkIff | deploy/docker/workspace_files.py:193-211 | a directory path of proper names is accepted exactly when it is at most sixteen deep, holds no NUL and does not start like a drive |
| PlanGrammar.VersionPrints | deploy/docker/plan_files.py:74 | printed positive numbers below ten to the tenth match the version pattern |
| PlanGrammar.VersionReads | deploy/docker/plan_files.py:74 | what matches the version pattern is the printed form of its value |
| PlanHeader.LocateOpening | deploy/docker/plan_files.py:373-380 | finds the first opening line among the first twelve |
| PlanHeader.ReadBlock | deploy/docker/plan_files.py:382-448 | the loop over the block's lines computes the specified header |
| PlanHeader.ParseHeader | deploy/docker/plan_files.py:355-448 | the whole parser equals its specification on every text |
| PlanHeader.BlockIsOk | deploy/docker/plan_files.py:355-448 | a block closed in time with each required key once and `Slug` at most once is `ok` with the values its lines carry |
| PlanHeader.OkHasBlock | deploy/docker/plan_files.py:355-448 | `ok` implies such a block |
| PlanHeader.HeaderRoundTrip | deploy/docker/migrate_plans.py:83-87 | whatever text follows a printed block, the parser returns its four fields and the line just past it |
| PlanHeaderReads.ClassifyIff | deploy/docker/plan_files.py:95-100 | a line says a version, an identity, a parent or a slug exactly when it is the key, white space or none, and the value; it is blank exactly when it is all white space |
| PlanHeaderReads.OpeningIff | deploy/docker/plan_files.py:95 | a line opens a block exactly when it is "<!--", white space, "boxfox-plan" and white space |
| PlanHeaderReads.LinesAreRead | deploy/docker/plan_files.py:372 | a text is cut at every line break, a carriage return with its line feed being one |
| PlanHeaderReads.AbsentIff | deploy/docker/plan_files.py:373-380 | a header is missing exactly when none of the first twelve lines opens a block |
| PlanHeaderReads.HeaderIs | deploy/docker/plan_files.py:382-448 | of any block, closed or not, each field says what the first line of its kind says; it is `ok` exactly when it is closed in time and its lines are correct, and the body starts behind it |
| PlanNames.PlanNameIsInjective | deploy/docker/migrate_plans.py:143 | a plan file name determines version and slug |
| PlanNames.ParseOfPlanName | deploy/docker/plan_files.py:76 | the name pattern reads back what was printed |
| PlanNames.PlanNameOfParse | deploy/docker/plan_files.py:76 | a name that matches the pattern is the printed name of what it parses to |
| PlanWatermark.PathTextIsInjective | deploy/docker/plan_files.py:733-768 | the text of a relative path says which path it is |
| PlanWatermark.WatermarkIsMarks | deploy/docker/plan_files.py:684-772 | a watermark is the parts of the tree, and every part describes the node at the path spelt out in it |
| PlanAgreement.PlansForced | deploy/docker/plan_files.py:733-768 | if all parts of one tree come from another, both look the same to the plan scanner |
| PlanAgreement.ReviewsForced | deploy/docker/plan_files.py:705-731 | if the review parts of two trees come from each other, both look the same to the review reader, down to fifteen levels |
| PlanAgreement.WalksAgree | deploy/docker/plan_files.py:545-662 | equal watermarks force equal plan scans, warnings and counts included |
| PlanAgreement.ReviewsAgree | deploy/docker/plan_files.py:1096-1167 | equal watermarks force equal reviews when none is read sixteen levels down |
| PlanDeepReviews.DeepReviewsAreMissed | deploy/docker/plan_files.py:747 | a review sixteen levels down, replaced with its file's time changed, leaves the watermark as it was |
| PlanDeepReviews.ReviewsAreWatchedIff | deploy/docker/plan_files.py:684-772 | equal watermarks guarantee equal reviews exactly for trees with no readable review folder sixteen levels down |
| PlanManifestLaws.WalkedKeysAreDistinct | deploy/docker/plan_files.py:545-662 | no two candidates of a walk share identity and version |
| PlanManifestLaws.TreesHaveNoCollisions | deploy/docker/plan_files.py:796-810 | on a directory tree the collision set is empty and the ignored count is the walk's |
| PlanManifestLaws.ManifestFinds | deploy/docker/plan_files.py:226-232 | every candidate is found under its identity and version with its own data, a draft exactly when it is the newest of several |
| PlanManifestLaws.ManifestFindsOnly | deploy/docker/plan_files.py:226-232 | whatever is found is a candidate of the walk |
| PlanFinds.WalkFindsIff | deploy/docker/plan_files.py:551-656 | in a tree of at most 2000 entries the walk finds exactly the plan files of the tree, at most sixteen folders down, none of them a link; in any other it stops, and finds nothing else |
| PlanFinds.ManifestFindsPlan | deploy/docker/plan_files.py:775-859 | in such a tree every plan file is found under its identity and version with directory, name, size, time and what its header says, a draft exactly when the tree has an older version and none newer |
| PlanFinds.ManifestFindsOnlyPlans | deploy/docker/plan_files.py:775-859 | whatever the manifest finds is a plan file of the tree with that identity and version |
| ReviewFinds.ReviewsFoundIff | deploy/docker/plan_files.py:1096-1141 | a review is found for an identity exactly when the tree has its file below `.reviews`, at most sixteen folders down, small enough and readable |
| PlanStore.Walker.Walk | deploy/docker/plan_files.py:551-656 | the recursive loop with its nonlocal counters computes the specified walk, entry limit included |
| PlanStore.Marker.Fold | deploy/docker/plan_files.py:705-731 | appends exactly the parts of a review folder |
| PlanStore.Marker.Walk | deploy/docker/plan_files.py:733-768 | appends exactly the parts of a plan folder, or fails exactly when the specification does |
| PlanStore.ComputeWatermark | deploy/docker/plan_files.py:684-772 | the watermark as specified, none when the walk fails |
| PlanStore.Collect | deploy/docker/plan_files.py:1096-1141 | the recursive loop adds exactly the specified reviews |
| PlanStore.PlanStore.ScanPlans | deploy/docker/plan_files.py:775-859 | serves the cached manifest exactly on an equal watermark, else builds, stores or forgets as specified |
| PlanStore.ServedIsFresh | deploy/docker/plan_files.py:684-859 | over every run of tree changes and scans, each manifest served is the one a fresh scan would build |
| MigrationPlan.RenameChangesLoop | deploy/docker/migrate_plans.py:121-171 | the loops over merges and groups compute the specified plan or error |
| MigrationSafety.ScanIsScanned | deploy/docker/migrate_plans.py:99-111 | the scan lists each plan file once with the version and slug its name parses to |
| MigrationSafety.AcceptedPlanIsSafe | deploy/docker/migrate_plans.py:121-171 | with distinct sources each accepted change renames an unrenamed plan to a name that is free by then |
| MigrationAccepts.AcceptedIff | deploy/docker/migrate_plans.py:121-171 | for distinct sources the renames are accepted exactly when every merge finds its source or its target group and each new name wanted is given once and free when its turn comes; then they are exactly those wanted: merges in order, groups by version, then lone plans by identity to version 1 |
| MigrationApply.PlansDirectory.WriteHeader | deploy/docker/migrate_plans.py:201-207 | block and text replace the file, through a temporary file beside it |
| MigrationApply.PlansDirectory.RenameFile | deploy/docker/migrate_plans.py:210-217 | renames onto a free name or fails and changes nothing |
| MigrationApply.PlansDirectory.ApplyChanges | deploy/docker/migrate_plans.py:446-456 | carries out the changes in order up to the first that is refused |
| MigrationApply.PlansDirectory.WriteHeaders | deploy/docker/migrate_plans.py:458-466 | adds the planned headers to the files that were not renamed and have none |
| MigrationApply.PlansDirectory.Migrate | deploy/docker/migrate_plans.py:414-475 | directory and report are those of the specified run |
| MigrationHeaders.PredecessorIsParent | deploy/docker/migrate_plans.py:187-198 | in version order the entry before is the greatest smaller version of the group |
| MigrationHeaders.HeaderForEntry | deploy/docker/migrate_plans.py:187-198 | a final entry gets a header exactly when it has none, naming its version, its group and the greatest smaller version |
| MigrationHeaders.NewlinesKeptIff | deploy/docker/migrate_plans.py:202 | text mode leaves a text alone exactly when it has no carriage return |
| MigrationHeaders.TextKeptIff | deploy/docker/migrate_plans.py:201-207 | the file's text follows the block unchanged exactly when it has no carriage return |
| MigrationHeaders.CarriageReturnIsLost | deploy/docker/migrate_plans.py:202 | the carriage return of "a", carriage return, line feed is lost |
| MigrationHeaders.WrittenParses | deploy/docker/migrate_plans.py:201-207 | a written header parses `ok` with exactly the planned fields |
| MigrationHeaders.WrittenHasHeader | deploy/docker/migrate_plans.py:90-96 | whatever the identity and the text, a written header is recognised, so a file never gets a second one |
| MigrationLaws.FinalNamesAreDistinct | deploy/docker/migrate_plans.py:174-184 | renaming is a bijection from the plans onto the final names |
| MigrationLaws.RenamesReflect | deploy/docker/migrate_plans.py:446-456 | after any number of renames every plan is under its name so far with its text and all other files are untouched |
| MigrationLaws.RunMigrates | deploy/docker/migrate_plans.py:414-475 | an accepted run is complete exactly when no new name is refused or stands on a file that is no plan, and then every plan is under its final name with its text |
| MigrationLaws.StoppedRunLosesNothing | deploy/docker/migrate_plans.py:414-475 | an incomplete run is exactly where the carried out changes leave it |
| MigrationLaws.FinalNameReadsIff | deploy/docker/migrate_plans.py:73 | a final name is still a plan name exactly when the final identity is a slug |
| MigrationLaws.WrittenHeaderAgrees | deploy/docker/plan_files.py:511-542 | every header a run writes for a slug parses `ok`, agrees with the final file name and names the greatest smaller version as parent |
| MigrationWrites.NewlinesAreRead | deploy/docker/migrate_plans.py:90-92 | text mode reads a carriage return, with its line feed if it has one, as one line feed, and nothing else differently |
| MigrationWrites.HasHeaderIff | deploy/docker/migrate_plans.py:90-96 | a text has a header exactly when its first 8192 characters have a line of "<!--", white space, "boxfox-plan" and white space |
| MigrationWrites.NoWordNoHeader | deploy/docker/migrate_plans.py:95-96 | a text without the word "boxfox-plan" has none |
| MigrationWrites.BlockText | deploy/docker/migrate_plans.py:83-87 | the characters of the block |
| MigrationWrites.RunWritesHeaders | deploy/docker/migrate_plans.py:414-475 | after every complete run each plan is under its final name: as it was if it opens a header, and else behind the block with its final version and identity and the greatest smaller version of its group |
| MigrationWrites.PlainPlansGetHeaders | deploy/docker/migrate_plans.py:414-475 | so every plan without the word "boxfox-plan" gets such a block |
| MigrationIdempotence.FinalIdentity | deploy/docker/migrate_plans.py:174-184 | a merged plan ends in the target group under its version, any other stays in its group |
| MigrationIdempotence.SecondScan | deploy/docker/migrate_plans.py:99-111 | a second scan sees exactly the final entries whose identity is a slug, each with a header |
| MigrationIdempotence.MergesAreSkippedIff | deploy/docker/migrate_plans.py:131-141 | with all source groups gone the merges are skipped exactly when every target group is there |
| MigrationIdempotence.SecondRunIsIdleIff | deploy/docker/migrate_plans.py:414-475 | the same arguments again find nothing to do exactly when every target is a slug and no plan left alone has a version other than 1 under `--renumber-lone` |
| MigrationIdempotence.SecondRunIsIdle | deploy/docker/migrate_plans.py:414-475 | without mixing the options, exactly when every target is a slug |
| MigrationRepeats.RenamesAreDoneIff | deploy/docker/migrate_plans.py:446-456 | the renames of a map by path are all carried out exactly when each new name has no slash, no earlier rename has it, and a file that has it is renamed before |
| MigrationRepeats.RunCompletesIff | deploy/docker/migrate_plans.py:414-475 | whatever the merges, sources given twice included, an accepted run carries out all its renames exactly then |
| MigrationRepeats.SourceGivenTwiceStops | deploy/docker/migrate_plans.py:446-456 | for example, with one source given twice an accepted plan stops at its first rename |
| MigrationExamples.MergeOntoAFile | deploy/docker/migrate_plans.py:414-475 | the merge of "a" into "B" is accepted, and the run stops, when a file has the new name |
| MigrationExamples.MergeIntoAnUnreadName | deploy/docker/migrate_plans.py:414-475 | without that file the plan ends up alone under a name that is no plan name, and the same arguments are refused |
| Uploads.NumberOfName | deploy/docker/workspace_files.py:782-800 | a numbered name, with any extension, is read back as its number |
| Uploads.NumberOfIff | deploy/docker/workspace_files.py:782-800 | a name has a number exactly when it is digits, alone or before its last dot |
| Uploads.HighestUploadNumber | deploy/docker/workspace_files.py:782-800 | the loop over a listing returns its greatest number, 0 when there is none |
| Uploads.Retention | deploy/docker/upload_files.py:121-163 | the loops with running totals plan the specified removals |
| Uploads.UploadStore.WriteUpload | deploy/docker/workspace_files.py:839-865 | reserves the first free of 200 names above the number of the listing, however old it is, or changes nothing |
| Uploads.UploadStore.Prune | deploy/docker/upload_files.py:177-221 | unlinks exactly the planned files that can be unlinked and lists the others as failed |
| UploadLaws.PlanIsPrefix | deploy/docker/upload_files.py:134-145 | the plan is the shortest oldest-first prefix of the removable files that meets both limits, or all of them |
| UploadLaws.OldestGoFirst | deploy/docker/upload_files.py:138 | no removable file that stays has an earlier time than one that goes, nor the same time and a name before it |
| UploadLaws.NothingRemovedInVain | deploy/docker/upload_files.py:134-145 | before each removal there are more than 200 files or more than 500 MiB |
| UploadLaws.KeptAndRemoved | deploy/docker/upload_files.py:147-163 | kept and removed files partition the listing, in files and in bytes |
| UploadLaws.RetentionMeetsLimits | deploy/docker/upload_files.py:121-163 | protected files and anchors stay, and when more than 200 files or 500 MiB are kept nothing else is kept |
| UploadLaws.AnchorHasHighest | deploy/docker/upload_files.py:100-118 | every number of a directory is at most that of its anchor |
| UploadLaws.AnchorIsTop | deploy/docker/upload_files.py:100-118 | besides protected files exactly one file of each directory is never removed, and no other outranks it: the highest number, the latest time, without numbers the latest time and name |
| UploadLaws.PruneKeepsHighest | deploy/docker/upload_files.py:177-221 | pruning never changes the highest number of a directory, whichever unlinks fail |
| UploadNumbering.FirstTrySucceeds | deploy/docker/workspace_files.py:839-865 | a call alone in its directory gets the greatest number plus one at its first try |
| UploadNumbering.NumbersIncrease | deploy/docker/workspace_files.py:803-865 | whatever uploads, prunes and new files lie between two numbered uploads to a directory, the later number is greater |
| UploadNumbering.RunIsSafe | deploy/docker/workspace_files.py:839-865 | in every interleaving names given out are distinct, no file that was there is opened, and each number exceeds all numbers its call saw |
| UploadNumbering.NumbersAreDistinctIff | deploy/docker/workspace_files.py:839-865 | numbers are distinct in every interleaving exactly when all calls upload files with the same extension |
| UploadNumbering.NumbersMayBeShared | deploy/docker/workspace_files.py:839-865 | for example, an upload with ".md" and one with ".txt" that read before either tries get the same number |
| Sessions.SessionHistory.FindDirectory | deploy/docker/session_files.py:164-183 | the loop over the seven widths returns the specified prefix or refusal |
| Sessions.SessionHistory.Ensure | deploy/docker/session_files.py:287-324 | writes the session file exactly when there is none |
| Sessions.SessionHistory.StartSession | deploy/docker/session_files.py:287-324 | directory and files are those of the specified start |
| Sessions.RefusedIff | deploy/docker/session_files.py:164-183 | a session is refused exactly when its id is malformed or every prefix belongs to another session |
| Sessions.StartKeepsFiles | deploy/docker/session_files.py:287-324 | no start changes a session file that is there |
| Sessions.OwnedIff | deploy/docker/session_files.py:287-324 | the directory handed out is owned exactly when it held no unreadable or nameless session file |
| Sessions.DirectoryIsStable | deploy/docker/session_files.py:164-183 | whatever sessions start later, a session is given the same directory again |
| Sessions.DirectoryIsSharedIff | deploy/docker/session_files.py:164-183 | different sessions, whatever starts between, are given the same directory exactly when it held a file that names no session before the first started, and all shorter prefixes of the second belong to others |
| Sessions.DirectoriesAreDistinct | deploy/docker/session_files.py:287-324 | so different sessions never get the same directory unless it held such a file |
| Sessions.BrokenFileIsShared | deploy/docker/session_files.py:287-324 | an unreadable session file makes sessions with its prefix share its directory |
| Captures.Cleaner.LimitFiles | deploy/docker/session_files.py:862-876 | marks the oldest files of a bucket above a count |
| Captures.Cleaner.LimitBytes | deploy/docker/session_files.py:878-896 | marks the oldest files of a bucket until its bytes fit |
| Captures.Cleaner.Mark | deploy/docker/session_files.py:862-896 | the four phases mark what the specified rules mark, in order |
| Captures.Cleaner.Unlink | deploy/docker/session_files.py:898-907 | removes every marked file that can be unlinked and reports exactly those |
| Captures.Cleaner.Retention | deploy/docker/session_files.py:837-915 | the report is the specified one |
| CaptureListing.CaptureEntries | deploy/docker/session_files.py:946-987 | the nested loops compute the specified listing and the number of protected files skipped |
| CaptureListing.EntriesAre | deploy/docker/session_files.py:946-987 | the listing holds exactly the unprotected files in folders of sessions, or of the session asked for |
| CaptureListing.ListedOnce | deploy/docker/session_files.py:946-987 | no path is listed twice |
| CaptureListing.ProtectedIsNeverMarked | deploy/docker/session_files.py:918-987 | a file whose path, name or resolved path is a form of a protected text, or whose folder is not asked for, is never marked |
| CaptureListing.ListingsMeetLimits | deploy/docker/session_files.py:837-987 | all four limits hold at once of what is kept of any listing |
| CaptureLaws.RuleMarksLeast | deploy/docker/session_files.py:862-896 | at each mark of a rule its bucket does not fit yet, and no unmarked file of it has an earlier time, or the same time and a path before it |
| CaptureLaws.LaterRulesKeep | deploy/docker/session_files.py:862-896 | a later rule never breaks a limit that holds |
| CaptureLaws.AllLimitsHold | deploy/docker/session_files.py:837-915 | all four limits hold at once of what is kept, for every kind and session |
| CaptureLaws.NoMoreIsKept | deploy/docker/session_files.py:837-915 | of one session at most 200 files of a kind, 40 records and 512 MiB are kept, said of any kept files |
| CaptureLaws.AllKeptFit | deploy/docker/session_files.py:837-915 | all kept files together have at most 4 GiB |
| CaptureLaws.NothingMarkedInVain | deploy/docker/session_files.py:862-896 | at each mark one of these limits is exceeded by unmarked files, and the file marked is the oldest of them |
| CaptureLaws.MarkedAndKept | deploy/docker/session_files.py:898-915 | marked and kept files partition the listing, in files and in bytes |
| CaptureLaws.ReportAddsUpIff | deploy/docker/session_files.py:898-915 | the report accounts for every file exactly when it is a dry run or every marked file could be unlinked |
| CaptureLaws.StuckFileIsNotReported | deploy/docker/session_files.py:885-912 | a capture too large for the box that cannot be unlinked is in no number of the report |
| CaptureDedup.CaptureStore.FreePath | deploy/docker/capture.py:208-232 | the search loop returns the specified candidate |
| CaptureDedup.CaptureStore.DedupRemember | deploy/docker/capture.py:293-301 | the hash moves to the end and the oldest beyond 256 go |
| CaptureDedup.CaptureStore.TakeShot | deploy/docker/capture.py:362-394 | answer, files and remembered hashes are the specified ones |
| CaptureDedup.NewPathIsFreeIff | deploy/docker/capture.py:208-232 | no earlier capture is overwritten exactly when one of the 999 candidates or the time-stamped name is free |
| CaptureDedup.TakenNamesAreOverwritten | deploy/docker/capture.py:208-232 | with all thousand names taken a capture goes over an earlier one |
| CaptureDedup.TakeIs | deploy/docker/capture.py:362-394 | the path returned holds the reported content, and it is a duplicate exactly when that content is among the newest 256 kept under its key |
| CaptureDedup.EarlierStayIff | deploy/docker/capture.py:362-394 | a capture leaves every earlier file as it is exactly when its name is free, or the file of that name has the same content and no other file is remembered for it |
| CaptureDedup.RunKeepsEarlierIff | deploy/docker/capture.py:362-394 | the runs of which every capture keeps the earlier files are exactly those in which each finds such room, and they leave at most 256 entries in a bucket, each of a file with the content remembered |
| CaptureDedup.RunKeepsCaptures | deploy/docker/capture.py:362-394 | over every run of captures that find free names each bucket is the newest 256 captures with content of its key |
| CaptureDedup.KeptAgainIff | deploy/docker/capture.py:285-301 | content is kept a second time exactly when at least 256 captures of its key were kept since |
| CaptureDedup.HitDoesNotRefresh | deploy/docker/capture.py:285-301 | the oldest content remembered is hit, other content is kept, and then the content just hit is kept again |
| CaptureDedup.HitIsKeptAgain | deploy/docker/capture.py:285-301 | so it is with "0" to "255" remembered |
| Frames.MaskIsInvolution | deploy/docker/browser_capture.py:37-38 | masking twice restores the data |
| Frames.LengthFieldReads | deploy/docker/browser_capture.py:44-51 | each of the three length forms is read back with mask bit and length |
| Frames.FrameRoundTrip | deploy/docker/browser_capture.py:41-56 | a printed frame, masked or not, is parsed back as a final frame with its opcode and payload, leaving exactly what follows |
| Frames.PrintedHeaderIsMinimal | deploy/docker/browser_capture.py:44-51 | any frame that carries the same payload has a header at least as long as the printed one |
| Frames.ParseIsLocal | deploy/docker/browser_capture.py:126-141 | parsing does not look past the frame |
| Frames.HelloFrames | deploy/docker/browser_capture.py:41-56 | the masked and the unmasked "Hello" frame of section 5.7 of RFC 6455 |
| WebSocket.Client.ReadExact | deploy/docker/browser_capture.py:110-124 | returns exactly the next bytes of the stream however they are split, or fails exactly when too few come |
| WebSocket.Client.ReadFrame | deploy/docker/browser_capture.py:126-141 | returns exactly the first frame of the stream however it arrives and leaves the rest, or fails exactly when it is incomplete |
| WebSocket.Client.Send | deploy/docker/browser_capture.py:143-149 | what has been sent is, to a parser, the frames sent before and this one |
| WebSocket.Client.Call | deploy/docker/browser_capture.py:161-206 | one request frame, then the specified answer over the stream and one pong per ping met on the way |
| WebSocketLaws.WholeTextIsReadIff | deploy/docker/browser_capture.py:180-206 | at a message's last frame its whole text is looked at exactly when it came in one frame and nothing is carried into it |
| WebSocketLaws.FirstEndDecides | deploy/docker/browser_capture.py:161-206 | on every stream the first CLOSE, or final data frame whose accumulated text is no object or the response, decides the outcome, and every ping before it was answered in order |
| WebSocketLaws.NoEndFails | deploy/docker/browser_capture.py:161-206 | when no frame of a stream ends the call it fails once the stream runs out |
| WebSocketLaws.NothingCarriedIff | deploy/docker/browser_capture.py:180-196 | no text is carried into a frame exactly when all data frames since the last final one decode to nothing |
| WebSocketLaws.FirstResponseIsReturned | deploy/docker/browser_capture.py:161-206 | a response in one frame, a text that loads as an object with the id of the call, is given to the caller, as an error when it is one, if nothing ends the call before it and no text is pending |
| WebSocketLaws.AnswersAreOwn | deploy/docker/browser_capture.py:197-206 | whatever a call returns on any stream is an object some text loads as, with the id of that call and no error |
| WebSocketLaws.ResponseIsReturnedIff | deploy/docker/browser_capture.py:161-206 | where nothing else ends the call and no text is pending, the response is returned exactly when it came in one frame; behind pending text it must also mean the same, and in fragments it is lost |
| WebSocketLaws.FragmentedResponseIsLost | deploy/docker/browser_capture.py:205-206 | the six bytes of a response in two fragments, which the call does not return |
| Supervisor.Supervising.DoScheduleRestart | desktop/src/supervisor.ts:448-465 | sets the timer, the count and the delay, or does nothing, as specified |
| Supervisor.Supervising.DoStartService | desktop/src/supervisor.ts:408-446 | a spawn that runs, throws or never lives changes the service as specified |
| Supervisor.Supervising.DoStart | desktop/src/supervisor.ts:480-486 | starts both services unless already started |
| Supervisor.Supervising.DoStop | desktop/src/supervisor.ts:509-526 | clears timers, expects exits and waits for exactly the running children |
| Supervisor.Supervising.DoResumeStop | desktop/src/supervisor.ts:526-534 | forgets the children and the started flag once the wait is over |
| Supervisor.Supervising.OnExit | desktop/src/supervisor.ts:439-445 | an unexpected exit schedules a restart |
| Supervisor.Supervising.OnTimer | desktop/src/supervisor.ts:459-463 | the timer's callback starts the service |
| Supervisor.StepKeeps | desktop/src/supervisor.ts:408-535 | every event keeps the invariant, as long as no start takes effect while a stop waits |
| Supervisor.SupervisionIsSafe | desktop/src/supervisor.ts:408-535 | over every such run: at most one live process per service, never beside a pending restart, restarts and spawns bounded, delays as computed |
| Supervisor.DelaysGrow | desktop/src/supervisor.ts:284-287 | delays never shrink and never exceed the limit |
| Supervisor.NothingSpawnedWhileStopping | desktop/src/supervisor.ts:408-535 | once a stop has begun nothing but a new start spawns |
| Supervisor.HastyStartForgetsAChild | desktop/src/supervisor.ts:480-534 | a start that takes effect while a stop waits can be followed by an orderly run to two live processes of one service |
| Supervisor.StartCanDoubleIff | desktop/src/supervisor.ts:408-535 | a start can be followed by such a run exactly when a stop waits and nothing is started |
| Supervisor.StopBeforeStart | desktop/src/supervisor.ts:509-526 | such a moment is reached by stopping before the first start |
| SupervisorRestarts.ExitRestartsIff | desktop/src/supervisor.ts:439-465 | an exit sets the timer, with one restart more and the next delay, exactly when it is not expected, no stop has begun and restarts are left |
| SupervisorRestarts.TimerSpawns | desktop/src/supervisor.ts:459-463 | a timer that fires spawns; a process that runs is the child from then on, and a spawn that throws sets the timer again exactly when restarts are left |
| SupervisorRestarts.StartSpawnsBoth | desktop/src/supervisor.ts:480-486 | a start that takes effect leaves both services with a process |
| SupervisorRestarts.NeverGivenUp | desktop/src/supervisor.ts:408-535 | over every orderly run in which spawned processes run or throw: while the services are to run, one without a process has its restart pending or has spent all, and after a stop none has a process or a restart pending |
| SupervisorRestarts.CrashesAreMended | desktop/src/supervisor.ts:408-465 | a service that keeps crashing is up again after each crash as long as restarts are left |
| SupervisorRestarts.LastCrash | desktop/src/supervisor.ts:451-455 | with its restarts spent one more crash leaves it down |
| HitTest.WindowAtPoint | deploy/docker/inspect_element.py:194-243 | the scan loop with its early exits returns the specified answer |
| HitTest.ScanIff | deploy/docker/inspect_element.py:194-243 | the answer is the topmost listed, hittable window with the point in its client area, in its frame as read, or within 64 and 16 pixels when the extents are unknown, and says which, unless time runs out above it |
| HitTest.ReadIsExact | deploy/docker/inspect_element.py:194-243 | when all extents are read in time, the answer is exactly the topmost window truly hit, with the client area told from the frame |
| HitTest.ProbeCoversIff | deploy/docker/inspect_element.py:155-164 | the probe zone covers a window's frame exactly when its decorations are within 64 and 16 pixels |
| HitTest.ScanIsSafe | deploy/docker/inspect_element.py:194-243 | whatever extents cannot be read, nothing above the answer is truly hit, and a known zone is a true hit |
| HitTest.TopmostIsNeverMissed | deploy/docker/inspect_element.py:194-243 | the answer is never below the topmost window truly hit, and is that window unless its extents are unknown |
| HitTest.TallDecorationFallsThrough | deploy/docker/inspect_element.py:155-164 | under a taller title bar with unreadable extents the scan falls through |
| Turns.BuildTurns | backend/tools/turn_latency.py:142-175 | the loop over the rows builds exactly the specified turns, in order |
| Turns.RowsArePartitioned | backend/tools/turn_latency.py:142-175 | every row lands in exactly one turn or is dropped |
| Turns.DroppedIff | backend/tools/turn_latency.py:161-165 | a row is dropped exactly when it has no turn number and no turn of its session has been opened |
| TurnPairs.TurnsAre | backend/tools/turn_latency.py:142-175 | each row is in the turn of its own number, or of the number of its session's turns opened so far; turns come in the order of their first rows and hold exactly their rows in order, and the first row that opens a turn |
| Turns.StepPairs | backend/tools/turn_latency.py:211-228 | the search loops pair starts and ends as specified |
| Turns.StepStartsAreConserved | backend/tools/turn_latency.py:211-228 | every step start is used by one pair or still open, so pairs and unclosed add up |
| TurnPairs.StepPairsAre | backend/tools/turn_latency.py:211-228 | the pairs are, in order, the ends that meet a start that no end has taken: the last of the same step, or else the last; the open starts are those never taken |
| Turns.ToolPairs | backend/tools/turn_latency.py:192-208 | the loop pairs tool calls by id as specified |
| Turns.ToolCallsAreConserved | backend/tools/turn_latency.py:192-208 | ends are paired or unmatched; starts are paired, open or forgotten |
| TurnPairs.ToolPairsAre | backend/tools/turn_latency.py:192-208 | the pairs are, in order, the ends that meet a start: the first start of their id since the last end of it; the open starts are those that wait at the end |
| TurnPairs.OneOpenTool | backend/tools/turn_latency.py:192-208 | of one id at most one start waits |
| Turns.UnmatchedIsCompleteIff | backend/tools/turn_latency.py:192-208 | the reported number of unmatched calls is complete exactly when an end lies between any two starts with one id |
| Turns.RepeatedStartIsForgotten | backend/tools/turn_latency.py:192-208 | two starts with one id are reported as one unmatched call |
| Turns.SplitTime | backend/tools/turn_latency.py:270-283 | the nested loops compute model time, tool time and the tool time inside the windows |
| Turns.TimeIsConserved | backend/tools/turn_latency.py:270-283 | when windows are disjoint and every call starts in one, model and tool time add up to the windows |
| Turns.TimeIsSplitIff | backend/tools/turn_latency.py:270-283 | with disjoint windows and no call that ends before it starts they do exactly when every call that takes time starts in some window |
| Ranking.FillBlock | scripts/eval/grading.py:229-237 | one block of equal values gets its average rank |
| Ranking.ComputeRanks | scripts/eval/grading.py:225-238 | every value gets the number of smaller values plus half of one more than the number of equal ones |
| Ranking.BlockCounts | scripts/eval/grading.py:229-235 | in sorted order a block's bounds count the smaller and the equal values |
| Ranking.RanksKeepOrder | scripts/eval/grading.py:225-238 | ranks keep the order strictly, and equal values share theirs |
| Ranking.SameOrderSameRanks | scripts/eval/grading.py:225-238 | values in the same order have the same ranks |
| Ranking.RanksSum | scripts/eval/grading.py:225-238 | the ranks of n values sum to n(n+1)/2 |
| Spearman.ComputeSpearman | scripts/eval/grading.py:241-255 | covariance and variances of the ranks, none when undefined |
| Spearman.CauchySchwarz | scripts/eval/grading.py:250-255 | the squared sum of products is at most the product of the sums of squares |
| Spearman.CorrelationIsInRange | scripts/eval/grading.py:241-255 | the coefficient lies between -1 and 1 |
| Spearman.UndefinedIff | scripts/eval/grading.py:241-255 | there is none exactly for fewer than two pairs or a constant side |
| Spearman.SameOrderIsOne | scripts/eval/grading.py:241-255 | it is 1 when both sides are in the same order |
| Spearman.OppositeOrderIsMinusOne | scripts/eval/grading.py:241-255 | it is -1 when they are in opposite order |
| Spearman.OnlyOrderCounts | scripts/eval/grading.py:241-255 | increasing maps of either side change nothing |
| Spearman.CorrelationIsSymmetric | scripts/eval/grading.py:241-255 | exchanging the sides exchanges the variances and keeps the covariance |

## Left out

- Symbolic links in the workspace tree, and a plan root that is itself a link.
- Permissions, ownership, name length limits and all other operating-system errors; a failing unlink is a parameter.
- Compression, character encodings, JSON, content hashes, clocks and random bytes are parameters or opaque values; deflate comes with its inverse.
- ZIP64, and entry names as anything but their UTF-8 bytes.
- The ZIP reader inside `extract_zip`: the members of an archive are given by a parameter, a member that is only partly written is not modelled.
- Digits and letters beyond ASCII in numbers, identities and session ids.
- Backups, `--delete-orphan`, dry runs and warning texts of the migration; plan files that are not UTF-8.
- PlanStore.ComputeWatermark: models the sorted tuple of parts as the multiset of its parts, which determines it; times stay numbers.
- PlanStore.ServedIsFresh: trusts that modification time and count fix a folder's listing and modification time and size fix a file's content.
- MigrationIdempotence.SecondRunIsIdleIff: requires that no merge target is also a source; merges that feed each other run differently each time.
- UploadNumbering.RunIsSafe: has no prune inside the interleaving, where files only appear.
- Sessions.DirectoriesAreDistinct: takes each start as one step; two starts that interleave are not modelled.
- CaptureDedup.RunKeepsCaptures: has no clean-up inside the run, and each capture finds a free name; `CaptureDedup.RunKeepsEarlierIff` has the other runs.
- PlanManifest.FirstPart: cuts a text at 4096 characters where the code reads 4096 bytes of its encoding.
- CaptureListing.CaptureEntries: takes the folders as already listed and sorted; a file whose times cannot be read is not modelled, and the path library is a parameter.
- WebSocket.Client.Call: the handshake and time-outs are not modelled; a stream that stops is a closed connection.
- Supervisor.SupervisionIsSafe: health checks, log files and the watchdog are not modelled.
- Spearman.ComputeSpearman: stops before the square root and the rounding to four digits.
- Turns.SplitTime: stops before rounding; labels, notes and the other marks of a turn are left out.
- Uploads made without a number, which truncate by design, and user deletions inside the upload directory.
- Checkpoints and the journal of a session, proxies, the tray, the user interface, X11 and browser calls: plumbing without invariants of its own.
