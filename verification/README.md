# A verified model of the Wings server filesystem and its small protocols

Wings runs game servers. Each server has a sandboxed file tree and one `int64` usage counter that
stands in for walking that tree. Every operation that changes the tree adjusts the counter by hand:
whole-file writes, copies, renames, a batched recursive delete, and SFTP handles that reserve space,
write short, refund and settle on close. This project models that machinery and proves that the
counter is the truth: for every run of operations, for every interleaving of handles and deletes, and
for a whole archive-and-extract transfer. Where the code does not keep its promise, a lemma gives the
input and the exact condition under which it does.

Beside the filesystem there are three smaller cores: the SFTP activity reconciliation (a batch
protocol with at-least-once delivery), the limiting and locking primitives with their users (rate
limiter and console throttle, power lock, sink pool), and the downloader's pair of maps.

## How the model is laid out

| file | what it holds |
|---|---|
| `Int64.dfy`, `Sums.dfy`, `Collections.dfy` | 64-bit arithmetic (a newtype whose operations are proved not to overflow, explicit wrap-around, the saturating clamp); sums over finite maps; optional values and sequences without repetition |
| `PathText.dfy` | path text: splitting, cleaning, the sandbox test, `splitPath`, `endsWithDot` |
| `FileTree.dfy` | the tree: a map from component paths to directories and files with inode, link count and bytes |
| `Ufs.dfy` | class `Quota`: the tree with its system calls and the usage counter |
| `RemoveAll.dfy` | the recursive delete |
| `CopyNames.dfy`, `Filesystem.dfy` | the server operations `Write`, `Copy`, `mkdirAll`, `TruncateRootDirectory` |
| `DirectorySize.dfy` | the walk the counter stands in for |
| `HandleLedger.dfy`, `QuotaFile.dfy` | the arithmetic of reserving and refunding over whole sequences of calls; class `QuotaFile`, the handles that do it |
| `LedgerSteps.dfy`, `LedgerRuns.dfy` | what each operation does to tree and counter, as a relation between two moments, and what that means for the ledger; the methods that do it, and whole sequential runs |
| `AddRace.dfy`, `LedgerRace.dfy` | transition systems: threads inside the compare-and-swap loop; handles and deletes interleaved |
| `WalkTree.dfy`, `Archive.dfy`, `Transfer.dfy`, `RoundTrip.dfy` | the pruned walk, the archive, the space check and extraction, the round trip |
| `SftpCron.dfy` | the activity reconciliation |
| `Locker.dfy`, `RateLimit.dfy`, `PowerLock.dfy`, `SinkPool.dfy`, `Downloader.dfy` | the small protocols |

What the operating system decides is a parameter. `Kernel` is the stable set of refusals (entries that
refuse to be unlinked, removed or created; directories that cannot be opened or listed); `Faults`,
`DiskWrite`, `Reader` and `Env` are the answers of one call (short counts, failing opens, failing
ownership changes, failing queries). They are universally quantified: every contract holds for all of
them unless it says otherwise. Objects that the source updates in place are classes. Concurrency is
modelled by step functions over explicit program counters, and the theorems speak of the state after
any sequence of steps.

`Quota.accounted` is a ghost map from paths with an open handle to the size that handle has accounted.
`Balanced()` says that the counter is the total size of the tree, with those files counting at their
accounted size; with no open handle it is the plain size of the tree.

## What was found

- `removeContentsFrom` (internal/ufs/removeall_unix.go:115-181) remembers the first error in
  `recurseErr` and then returns nil. `RemoveContents` is documented to return the first error; it
  reports an unlistable directory and nothing else (`RemoveAll.SilentContents`); its success is the
  truth exactly in the cases of `RemoveAll.ContentsGone` and `RemoveAll.SilentExactly`.
- `Quota.unlinkat` charges a file before the unlink. A delete is exact if and only if no non-empty file
  that it reaches refuses to go (`RemoveAll.Delete`, `RemoveAll.DriftingDelete`).
- On a server without a limit a reservation can saturate the counter, and the refund then takes more
  than was added. A positional write of ten bytes just below the largest offset, which the disk refuses,
  leaves a counter of 1000 at 0 (`HandleLedger.SaturatedSession`). After a session with a final stat the
  ledger is exact if and only if no reservation saturated (`HandleLedger.ExactIffFits`,
  `HandleLedger.NothingLostIff`, `LedgerSteps.SessionAccounts`); with a limit none does.
- When the 51 numbered copy names are all taken, `Copy` opens the time-stamped name without truncation
  or exclusive creation. If that file exists with content, the counter grows by more than the tree
  (`LedgerSteps.CopyExactness`, `LedgerSteps.DriftingCopy`). The comment on `findCopySuffix` promises "copy 2" as the second name;
  the code starts at "copy 1".
- A file list given to an archive prunes directories by the same test as files, so a nested entry is
  archived only if its top-level directory is listed as well (`Archives.ListedFiles`,
  `Archives.NestedListingIsEmpty`).
- `Stream` takes the text of the server path off a listed file, even in the middle of a name
  (`Archives.ListedCutInsideName`). A listed file is taken as it is meant if and only if the text of the
  server path, where the file begins with it, ends at the end of a name (`Archives.TrimmedAsMeant`).
- `unsafePath` trims the base as text, even in the middle of a name (`PathText.BaseTextCutInsideName`);
  a rooted path leads to itself if and only if it does not begin with the text of the base
  (`PathText.RootedInPlace`). The round trip therefore has this as its precondition, and it cannot be
  dropped (`RoundTrip.OnlyClearPathsArriveInPlace`).
- `SpaceAvailableForDecompression` accepts every archive on a server whose limit is below zero. Limits
  are megabytes times 1024 * 1024 (server/configuration.go:74), so a configured -1 arrives as -1048576.
  The check of a write then refuses exactly the files that would grow, and with limit -1 every file
  (`Transfers.DeniedExactly`): an archive with a file larger than what is at its place does not pass, and
  the first such file that nothing else stops ends the extraction for lack of space
  (`Transfers.StreamDenies`, `Transfers.StreamDeniedAt`, `Transfers.Decompress`).
- A truncation of the root that fails leaves a smaller tree under the old counter: the counter is too high
  until the next recount, never too low (`LedgerSteps.EmptyAccounts`).
- What can let the counter fall below the tree, and so let a server pass its limit, is only a delete that
  charges a file which stays; with a limit, and where nothing refuses to be unlinked, the counter covers
  the tree after every run, whatever else fails or collides (`LedgerRuns.Run`,
  `LedgerSteps.NothingUndercuts`).
- The documentation of `UnixFS.Rename` says that an existing file is replaced; the code refuses.
- A body that ends before the announced size is written short without an error (`Filesystem.Write`).
- A handle whose final stat fails leaves the counter off by exactly the difference between accounted
  and real size (`QuotaFile.Close`, `QuotaFiles.DriftingClose`, `LedgerRace.ExactAtRest`).
- With the largest limit, 2^64-1, the sum in `Rate.Try` wraps and a full window denies nothing
  (`RateLimit.LargestLimitNeverDenies`).
- The comment on `Push` says that messages are lost only when a channel is full. A timeout that fires while
  there is room, before the send is tried, costs a message too: the oldest one, or at an empty channel the new
  one (`SinkPools.MessageGivenUp`, `SinkPools.EarlyTimeoutLoses`). Each such timeout costs exactly one, and
  nothing else does while the channel is not full (`SinkPools.LastMessagesKept`).
- With two pushers the order of messages in a sink can change (`SinkPools.TwoPushersReorder`,
  `SinkPools.PushesReorder`).

## Model

| member | source | states |
|---|---|---|
| Ufs.NextUsage | internal/ufs/fs_quota.go:75-92 | the `switch` of `Add`, in 64-bit operations none of which overflows (including `MinInt64`), is the true sum clamped to [0, MaxInt64] |
| Ufs.Quota.CompareAndSwap | internal/ufs/fs_quota.go:94-96 | swaps exactly when the counter still has the value seen |
| Ufs.Quota.Add | internal/ufs/fs_quota.go:70-98 | the retry loop, run alone, terminates, sets the counter to the clamped true sum and returns it |
| Ufs.Fits | internal/ufs/fs_quota.go:102-130 | `CanFit` is: limit not -1, and no limit, or unknown usage, or nothing to add, or the true sum is within the limit |
| Ufs.Quota.Remove | internal/ufs/fs_quota.go:135-151 | what `Remove` answers, that exactly the entry goes, and that the counter falls by the size of a regular file only when it went |
| Ufs.RemoveOutcome | internal/ufs/fs_unix.go:307-329 | a `RemoveStat` that succeeds found the entry and its unlink or rmdir was not refused |
| Ufs.Quota.Unlinkat | internal/ufs/fs_quota.go:182-190 | the size of a regular file is taken off before the call, and stays off when the call fails |
| Ufs.Quota.UnixUnlinkat | internal/ufs/fs_unix.go:424-428 | the bare call removes exactly the entry, or nothing |
| Ufs.Quota.MkdirAll | internal/ufs/mkdir_unix.go:18-68 | creates and returns exactly the missing prefixes of the path, shallowest first, and changes nothing else; on error the list is exactly what was created, and something really is in the way; terminates on the path |
| Ufs.ScanParent | internal/ufs/mkdir_unix.go:37-45 | the two backward scans stop after the last element and at the slash before it |
| Ufs.ScannedNames | internal/ufs/mkdir_unix.go:37-50 | on a normal-form path the recursion goes to exactly the parent path |
| FileTree.WithDirsMeaning | internal/ufs/mkdir_unix.go:18-68 | the specification of `mkdirAll`: the path is a directory afterwards, everything that was there is unchanged, everything new is a prefix of the path and a directory |
| Ufs.Quota.Rename | internal/ufs/fs_unix.go:437-511 | on success the whole subtree is at the new path and the missing parents of it were made; an existing target is refused; a rename whose two paths nothing obstructs or refuses never fails, whatever the rest of the tree refuses; the total size never changes |
| Ufs.Quota.RenameTo | internal/ufs/fs_unix.go:463-510 | the second half: parents of the target, the check of the target, the move |
| FileTree.MoveMeaning | internal/ufs/fs_unix.go:507-510 | a move to a free place keeps every node with its content, and no two nodes meet |
| FileTree.MoveWellFormed | internal/ufs/fs_unix.go:507-510 | moving a subtree under an existing directory outside itself leaves a tree |
| FileTree.MoveKeepsSizes | internal/ufs/fs_unix.go:507-510 | a move keeps the total size |
| Ufs.RenamedMeaning | internal/ufs/fs_unix.go:437-511 | what a successful rename means: whatever was at or below the old path is at the same place below the new one, with its content; nothing is left at the old path; everything else is where it was, and what is new above the target is a directory |
| Ufs.NothingRefused | internal/ufs/fs_unix.go:437-511 | where the environment refuses nothing, a path can be written, and a rename succeeds, under conditions that a caller can see in the tree |
| Ufs.Quota.EnsureParent | internal/ufs/fs_unix.go:612-636 | the parents of a touched or renamed target: nothing but missing directories is added, and it succeeds when nothing is in the way |
| Ufs.Quota.Touch | internal/ufs/fs_unix.go:596-606 | the file is there afterwards with its parents; its content is kept unless truncation was asked for, and empty when truncated or new; every other entry is as before; it succeeds when nothing stands in the way; on failure nothing but directories was added |
| Ufs.Quota.OpenFileat | internal/ufs/fs_unix.go:263-272 | the final open with creation: a new file is empty, an existing one keeps its content unless truncation was asked for, nothing else changes; or nothing changes at all |
| Ufs.TouchOpens | internal/ufs/fs_unix.go:590-606 | the specification of an open with creation: content kept without truncation, empty when truncated or new, everything else unchanged, new entries only directories above it |
| Ufs.Quota.LocatedNamesAreValid | internal/ufs/fs_unix.go:851-881 | every path the operations work on consists of plain names |
| PathText.UnsafePathMeaning | internal/ufs/fs_unix.go:851-881 | `unsafePath` accepts exactly the paths whose cleaned components have the base's components as a prefix, and answers the remaining components |
| PathText.NameThenUp | internal/ufs/fs_unix.go:859 | for every base and every list of components: a name followed by ".." leads where the path without the two leads, or is refused where that is |
| PathText.DotsVanish | internal/ufs/fs_unix.go:859 | an empty component or "." changes nothing |
| PathText.UpsAndNames | internal/ufs/fs_unix.go:859-877 | `k` times ".." and then names: accepted if and only if it comes back into the base, with exactly the rest as the answer; above the root ".." stays |
| PathText.BaseIsTrimmed | internal/ufs/fs_unix.go:859 | a path that begins with the text of the base leads where the rest of it leads |
| PathText.JoinTwoNames | server/filesystem/compress.go:300-327 | joining a directory and a relative path is the list of names of both, rooted or not |
| PathText.EndsWithDotOf | internal/ufs/path_unix.go:36-44 | the "." test fires exactly on "." and on what ends in "/." |
| PathText.PrefixText | internal/ufs/fs_unix.go:889-894 | the textual prefix test with slashes added is the component prefix test |
| PathText.UnsafePathNormalForm | internal/ufs/fs_unix.go:851-881 | an accepted result has no empty, "." or ".." component (or is "."), and rejoins to the cleaned path |
| PathText.UnsafePathIdempotent | internal/ufs/fs_unix.go:851-881 | an accepted result is a fixed point |
| PathText.UnsafePathOfNames | internal/ufs/fs_unix.go:851-881 | a relative list of plain names is accepted as it is |
| PathText.RootedInPlace | internal/ufs/fs_unix.go:859 | a rooted path leads to itself if and only if it does not begin with the text of the base |
| PathText.BaseTextCutInsideName | internal/ufs/fs_unix.go:859 | the trimming cuts inside a name: base "/a", path "/ab" |
| PathText.SplitPath | internal/ufs/path_unix.go:47-80 | the loops of `splitPath` compute the parent and last element after stripping duplicate leading and all trailing slashes |
| PathText.CutNames | internal/ufs/path_unix.go:47-80 | on what `RemoveAll` hands over, the split is between the last name and the rest |
| PathText.NamesDoNotEndWithDot | internal/ufs/path_unix.go:36-44 | the "." test of `removeAll` never fires on a confined path |
| PathText.DirOfRooted | server/filesystem/filesystem.go:176 | `filepath.Dir` of a rooted list of names is the rooted parent list |
| RemoveAll.RemoveBatch | internal/ufs/removeall_unix.go:146-158 | one batch: the names in it are dealt with; if fewer entries refused than were in the batch, something is gone |
| RemoveAll.ReadPass | internal/ufs/removeall_unix.go:133-165 | one open directory: a full last batch means that something was removed, a short one that everything listed was dealt with |
| RemoveAll.RemoveContentsFrom | internal/ufs/removeall_unix.go:115-181 | terminates for every batch size above 0 and every listing order because each re-open follows a removal; leaves below the directory exactly the stuck entries and their ancestors; reports only an unlistable directory; charges at least what went, and exactly that if and only if no reached non-empty file refused |
| RemoveAll.RemoveAllFrom | internal/ufs/removeall_unix.go:183-235 | leaves at and below the target exactly the stuck entries and their ancestors and changes nothing else; succeeds only if the target is gone |
| RemoveAll.RemoveDirectory | internal/ufs/removeall_unix.go:218-234 | the directory case: contents first, then the directory; succeeds if and only if it is gone |
| RemoveAll.RemoveAllPath | internal/ufs/removeall_unix.go:31-74 | the simple attempt, then the recursion from the parent; success if and only if the target is gone, for a target that was there; a target that is not there is no error and changes nothing; what was charged is what went unless a reached non-empty file refused |
| RemoveAll.Delete | internal/ufs/fs_quota.go:160-176 | the whole `RemoveAll`: refuses the base and paths outside it untouched; the tree afterwards; success only if the target is gone, and always for one that was not there; the counter falls by exactly what went when nothing drifts; an exact ledger stays exact if and only if no reached non-empty file refused to go |
| RemoveAll.DeleteDir | internal/ufs/removeall_unix.go:218-234 | what survives of a directory is what survives of its contents, and the directory itself if any is left or it refuses |
| RemoveAll.SurvivesStable | internal/ufs/removeall_unix.go:160-177 | what survives does not depend on how much is already gone, so re-reading a directory and trying entries again changes nothing |
| RemoveAll.DriftIsListed | internal/ufs/removeall_unix.go:146-158 | a file that was charged and stayed is still there at the end, so its branch was tried |
| RemoveAll.AfterWellFormed | internal/ufs/removeall_unix.go:183-235 | the delete never leaves an entry without its parent |
| RemoveAll.SimpleRemoveIsDelete | internal/ufs/removeall_unix.go:44-48 | when the first simple attempt succeeds, it leaves the tree the recursion would leave |
| RemoveAll.DeletesEverything | internal/ufs/removeall_unix.go:183-235 | nothing of the target is left if and only if nothing at or below it is stuck |
| RemoveAll.FailureFreeDelete | internal/ufs/fs_quota.go:135-190 | a delete nothing refuses removes exactly the target's subtree, and what goes weighs exactly the subtree's file sizes, with no double charge |
| RemoveAll.ExactnessOfDelete | internal/ufs/fs_quota.go:182-190 | exact if and only if no reached non-empty file refuses |
| RemoveAll.DriftingDelete | internal/ufs/fs_quota.go:182-190 | a concrete delete that charges a file which stays |
| RemoveAll.SilentContents | internal/ufs/removeall_unix.go:115-181 | a concrete directory whose contents refuse and stay although no listing fails |
| RemoveAll.ContentsGone | internal/ufs/removeall_unix.go:115-181 | nothing is left below the directory if and only if nothing was there, or it opens and nothing below it is stuck |
| RemoveAll.SilentExactly | internal/ufs/removeall_unix.go:115-181 | success is reported over contents that stay if and only if the directory cannot be opened, or can be listed with something stuck below it |
| RemoveAll.SubtreeTotal | internal/ufs/fs_quota.go:135-190 | the tree weighs its subtree plus the rest |
| CopyNames.FindCopySuffix | server/filesystem/filesystem.go:309-334 | fails if and only if a candidate cannot be looked up before a free one is found; otherwise the name is the first of 51 numbered candidates that is free, or, when all are taken, the time-stamped one |
| CopyNames.StemWhole | server/filesystem/filesystem.go:365-375 | stem and extension, with ".tar" counted to the extension, make up the name |
| CopyNames.StemOf | server/filesystem/filesystem.go:365-375 | for every stem and every extension without a dot: "s.e" is cut before the dot, "s.tar.e" before ".tar", and a name without a dot has no extension |
| CopyNames.ItoaIsDecimal | server/filesystem/filesystem.go:309-334 | the number in a candidate name is the decimal numeral of its number |
| CopyNames.CandidatesDiffer | server/filesystem/filesystem.go:309-334 | no two numbers give the same candidate name |
| CopyNames.LowestIsChosen | server/filesystem/filesystem.go:309-334 | the candidate with the lowest number that is free is taken |
| CopyNames.ChosenNameIsValid | server/filesystem/filesystem.go:365-381 | whatever is chosen is a single plain name |
| Filesystems.Filesystem.MkdirAll | server/filesystem/filesystem.go:236-247 | exactly the missing directories are added; it succeeds when nothing is in the way and the ownership change works; never a disk-space error |
| Filesystems.Filesystem.Write | server/filesystem/filesystem.go:152-207 | for every body, short or failing, and every fault: either nothing but directories changed, or the file holds exactly the bytes copied, up to the announced size, the end of the body or the room on the disk, everything else is as before, and the counter moved by copied minus previous size; success if and only if the announced size was copied, or all of a body that does not fail, and the ownership change worked; a disk-space error only when the check fails |
| Filesystems.CopyStops | server/filesystem/filesystem.go:192-207 | how much a copy from a limited body takes and when it is an error: a body that fails before the announced size is one, a body that merely ends is not |
| Filesystems.WrittenWhole | server/filesystem/filesystem.go:152-207 | a completed write: the file holds exactly the data, every other entry is as before, and what is new are directories |
| Filesystems.SpaceForMeaning | server/filesystem/filesystem.go:165-170 | the space check on the difference of sizes is the comparison of true sums, with the special cases of `CanFit` |
| Filesystems.Filesystem.CheckWrite | server/filesystem/filesystem.go:153-170 | the stat and the space check on the difference of sizes |
| Filesystems.Filesystem.OpenForWrite | server/filesystem/filesystem.go:172-187 | parents, then an open that truncates; succeeds when unhindered |
| Filesystems.Filesystem.Fill | server/filesystem/filesystem.go:189-207 | the file ends up with exactly the copied bytes and the ledger is settled even when copying fails |
| Filesystems.Filesystem.Copy | server/filesystem/filesystem.go:338-399 | either nothing changed, or one file beside the source, named as `CopyLands` says, received the copied bytes and the counter grew by them; success if and only if everything was copied and owned; a file that can be found, looked up under its candidate names and opened is copied |
| Filesystems.Filesystem.CopyFile | server/filesystem/filesystem.go:365-399 | the target is opened without truncation: its old tail stays |
| Filesystems.CopyLands | server/filesystem/filesystem.go:309-381 | where a copy lands: of "s.e" at "s copy.e", or at "s copy 1.e" when that is taken; of "s.tar.e" at "s copy.tar.e"; of a name without a dot at the name with the suffix after it |
| Filesystems.CopyContent | server/filesystem/filesystem.go:381-399 | what a copy holds: the bytes copied, then the tail of what was there; every other entry is as before |
| Filesystems.NothingKeepsFromCopying | server/filesystem/filesystem.go:338-399 | where the environment refuses nothing, a copy is made if and only if there is space and no directory has the name of last resort |
| Filesystems.Filesystem.TruncateRootDirectory | server/filesystem/filesystem.go:403-423 | succeeds if and only if everything could be removed and the base directory made and opened again: an empty tree with a zero counter and the old limit; after a failure the entries that refused and everything above them are left, or nothing, with the counter as before |
| Filesystems.RemainsIsSound | server/filesystem/filesystem.go:404-406 | what a failed removal leaves is a tree |
| DirectorySize.Visit | server/filesystem/disk_space.go:172-200 | the callback adds a regular file unless its inode was counted under another name; it keeps "the sum is over the distinct inodes seen so far" |
| DirectorySize.WalkDir | internal/ufs/walk_unix.go:37-90 | the recursive walk visits every entry below its root exactly once, in any listing order, and fails if and only if a directory cannot be listed |
| DirectorySize.Measure | server/filesystem/disk_space.go:162-202 | for any tree, hard-linked or not: `DirectorySize("/")` is the sum of sizes over the distinct inodes of the regular files, whatever the order; without hard links it is the total size; an error if and only if some directory cannot be read |
| DirectorySize.HardLinkCountedOnce | server/filesystem/disk_space.go:187-198 | a concrete tree with two names of one inode: three bytes by the walk, six by the plain sum |
| DirectorySize.NoLinksPlainSum | server/filesystem/disk_space.go:187-198 | without hard links the distinct-inode sum is the plain sum |
| DirectorySize.UpdateCachedDiskUsage | server/filesystem/disk_space.go:132-159 | the counter becomes the measured size, even after an error, hard links or not; on a sound tree without an error it is exact unless a handle is open on a different size |
| QuotaFiles.ReserveDisk | server/filesystem/disk_space.go:211-224 | check and add: the counter grows by the reservation exactly when it fits |
| QuotaFiles.AdjustDisk | server/filesystem/disk_space.go:226-235 | moves the counter by the clamped sum |
| QuotaFiles.QuotaWriteEnd | server/filesystem/quota_file.go:88-93 | the end offset exactly when it is an `int64` |
| QuotaFiles.QuotaFile.WriteAtLocked | server/filesystem/quota_file.go:54-86 | refused writes change nothing; otherwise the bytes that the disk took are in place and the accounted size is the largest end written; the counter moved by its growth if and only if the reservation did not saturate; the new state is `AfterWrite` on every limit |
| QuotaFiles.QuotaFile.WriteReserved | server/filesystem/quota_file.go:66-85 | after the reservation: write, account, refund exactly what was not written |
| QuotaFiles.QuotaFile.Refund | server/filesystem/quota_file.go:75-83 | the part of the reservation beyond the real growth goes back |
| QuotaFiles.QuotaFile.Guarded | server/filesystem/quota_file.go:54-86 | the state is `AfterWrite`, and the accounted total moves by the growth of the accounted size |
| QuotaFiles.QuotaFile.Write | server/filesystem/quota_file.go:23-39 | a write at the file position takes the handle to `AfterCall` on every limit; the position advances by what was written |
| QuotaFiles.QuotaFile.WriteAt | server/filesystem/quota_file.go:41-52 | the same at any offset; a negative one is refused |
| QuotaFiles.QuotaFile.Close | server/filesystem/quota_file.go:99-112 | fails if the stat or the closing fails; the counter moves by real minus accounted size whenever the stat worked; the ledger is exact afterwards if and only if the stat worked or the sizes agree |
| QuotaFiles.Touch | server/filesystem/filesystem.go:95-109 | a handle accounts the size of the file before truncation; the content stays unless truncation was asked for; the ledger does not move; it fails only when something is in the way |
| QuotaFiles.DriftingClose | server/filesystem/quota_file.go:99-112 | any file with content, truncated by `Touch` and closed without a stat, leaves its old size on the counter |
| QuotaFiles.Patch | server/filesystem/quota_file.go:50-52 | what a positional write does to the content: the chunk in place, the rest kept, zero bytes between the old end and the offset |
| QuotaFiles.ContentWithin | server/filesystem/quota_file.go:54-86 | over any sequence of calls the accounted size covers the content |
| QuotaFiles.UploadedWhole | server/filesystem/quota_file.go:23-86 | writes at the position, one after the other, into an empty file leave exactly the concatenated chunks if and only if there is room for all of them, whatever the sizes of the chunks |
| QuotaFiles.ServedCovers | server/filesystem/quota_file.go:23-86 | between the calls of a session in which nothing was lost, the counter covers the real size of the tree, and a positive limit the counter, with the handle still open |
| HandleLedger.WriteConserves | server/filesystem/quota_file.go:54-86 | one write keeps counter and accounted size in range and a positive limit; the counter never grows by more than the accounted size, and goes on covering it |
| HandleLedger.ExactIffFits | server/filesystem/quota_file.go:62-83 | a reserved write moves the counter by the growth of the accounted size if and only if the reservation does not saturate; with a limit it never does |
| HandleLedger.CallsConserve | server/filesystem/quota_file.go:23-86 | over any sequence of calls on any limit the counter has moved by the growth of the accounted size, less what saturated reservations lost; nothing is lost unless the limit is 0 |
| HandleLedger.NothingLostIff | server/filesystem/quota_file.go:23-86 | nothing is lost if and only if no call saturates in the state it finds |
| HandleLedger.NothingLostWithinReach | server/filesystem/quota_file.go:23-86 | nothing is lost when no call can reach an offset for which the counter has no room |
| HandleLedger.SaturatedSession | server/filesystem/disk_space.go:211-224 | a concrete refused write that takes 1000 bytes off the counter of an unlimited server |
| LedgerSteps.WriteAccounts | server/filesystem/filesystem.go:152-207 | a write keeps an exact ledger exact unless it overflows the counter of an unlimited server, and keeps the counter covering the tree and within a positive limit |
| LedgerSteps.CopyExactness | server/filesystem/filesystem.go:338-399 | a copy is accounted exactly if and only if not (all 51 numbered names and the stamped name are taken, the latter by a non-empty file, and something was copied) |
| LedgerSteps.DriftingCopy | server/filesystem/filesystem.go:309-399 | a concrete sound tree with all 52 names taken on which one byte is charged and the tree does not grow |
| LedgerSteps.CopyAccounts | server/filesystem/filesystem.go:338-399 | a copy keeps an exact ledger exact unless it collides in that way, and then it does not; colliding or not, it keeps the counter covering the tree and within a positive limit |
| LedgerSteps.MoveAccounts | server/filesystem/filesystem.go:215-217 | a rename, done or refused, leaves the ledger as exact as it was |
| LedgerSteps.DeleteAccounts | server/filesystem/filesystem.go:427-429 | on any kernel a delete keeps an exact ledger exact if and only if it does not drift, and without drift keeps the counter covering the tree |
| LedgerSteps.EmptyAccounts | server/filesystem/filesystem.go:403-423 | a truncation, complete or not, keeps the counter covering the tree; an exact ledger stays exact if and only if it succeeds or nothing that weighs something went |
| LedgerSteps.SessionTotals | server/filesystem/quota_file.go:23-112 | from Touch to Close the counter moves by the change of the tree, less what saturated reservations lost, plus what is unsettled for want of a stat; all of it a function of the request and the state before |
| LedgerSteps.SessionAccounts | server/filesystem/quota_file.go:23-112 | a session keeps an exact ledger exact if and only if what was lost equals what was not settled, and keeps the counter covering the tree unless more was lost |
| LedgerSteps.UploadSession | server/filesystem/quota_file.go:23-112 | a file uploaded through a session, over whatever was at its place, holds the chunks one after the other if and only if the limit has room for them in place of the old content |
| LedgerSteps.IdleSession | server/filesystem/filesystem.go:95-109 | a session without truncation and calls leaves every file as it was |
| LedgerSteps.StepAccounts | server/filesystem/filesystem.go:95-429 | for each of the seven operations: an exact ledger stays exact if nothing that `Disturbs` names, all of it told from the request and the state before, happens, and does not if it does (unless the operation was refused, or the counter is at its largest value); a covering counter goes on covering |
| LedgerSteps.NothingUndercuts | server/filesystem/filesystem.go:95-429 | with a limit, and where nothing refuses to be unlinked, no request can let the counter fall below the tree |
| LedgerSteps.SessionsWithinReach | server/filesystem/disk_space.go:211-224 | a session with a final stat that stays within reach of the counter disturbs nothing, on an unlimited server too |
| LedgerSteps.ExactThroughout | server/filesystem/filesystem.go:95-429 | a run that starts exact and that nothing disturbs: the counter equals the tree size at every moment, with and without a limit |
| LedgerSteps.CoveredThroughout | server/filesystem/filesystem.go:95-429 | a run that nothing undercuts: the tree is covered by the counter, and the counter by a positive limit, at every moment |
| LedgerRuns.RunWrite | server/filesystem/filesystem.go:152-207 | tree and counter after a write are what `PerformsWrite` says: refused, which only happens when something hinders it or there is no room, or written with exactly the copied bytes charged |
| LedgerRuns.RunCopy | server/filesystem/filesystem.go:338-399 | the same for a copy, which does nothing only when it cannot be made |
| LedgerRuns.RunRename | server/filesystem/filesystem.go:215-217 | the same for a rename |
| LedgerRuns.RunCreateDirectory | server/filesystem/filesystem.go:211-213 | the same for creating directories |
| LedgerRuns.RunDelete | server/filesystem/filesystem.go:427-429 | the same for a delete, on any kernel |
| LedgerRuns.RunEmptyRoot | server/filesystem/filesystem.go:403-423 | the same for a truncation of the root, successful or not |
| LedgerRuns.RunSession | server/filesystem/quota_file.go:23-112 | Touch, any calls at any offsets with any short counts, Close with or without a stat: the file holds exactly the patches of the calls and the counter is that of `AfterCalls`, settled by the stat; without truncation and calls every file is as before |
| LedgerRuns.PerformAll | server/filesystem/quota_file.go:23-86 | over any sequence of calls the handle is in the state `AfterCalls`, the file holds `ContentAfter`, and nothing else changed |
| LedgerRuns.Recount | server/filesystem/disk_space.go:132-159 | a recount makes the ledger exact from any drift |
| LedgerRuns.Execute | server/filesystem/filesystem.go:95-429 | one operation of a run does what `Performed` says; with a limit, and where nothing refuses to be unlinked, it keeps the counter covering the tree and within the limit, whatever else fails |
| LedgerRuns.Run | server/filesystem/filesystem.go:95-429 | over every run of writes, copies, renames, deletes, truncations and handle sessions: each moment is what its operation makes of the one before; undisturbed runs end exact; and with a limit, where nothing refuses to be unlinked, the counter covers the tree and the limit the counter at the end as at the start |
| AddRace.AddIsLinearizable | internal/ufs/fs_quota.go:70-98 | any number of threads, any interleaving of loads and swaps: the counter is the fold of clamped additions in the order of the successful swaps, every call takes effect exactly once between call and return and returns what its own swap produced, and the range [0, MaxInt64] is kept |
| AddRace.FailedSwapWasOvertaken | internal/ufs/fs_quota.go:94-96 | a failed swap means another thread's addition took effect since the load |
| AddRace.StepLinearized | internal/ufs/fs_quota.go:70-98 | every atomic step keeps the linearization |
| AddRace.LoneAdd | internal/ufs/fs_quota.go:70-98 | a call with nobody else in between takes effect and returns the clamped sum |
| LedgerRace.StepIsSafe | server/filesystem/quota_file.go:54-112 | every atomic step of handles and deletes keeps: within the limit, conservation, mutual exclusion, one handle per file, and each phase's local facts |
| LedgerRace.EveryStateIsSafe | server/filesystem/quota_file.go:54-112 | these hold in every reachable state |
| LedgerRace.NeverOverTheLimit | server/filesystem/disk_space.go:211-235 | for every interleaving of any number of handles and lock-free deletes, the counter never passes a positive limit, and the bytes on disk of all files not being deleted never exceed the counter |
| LedgerRace.ExactAtRest | server/filesystem/quota_file.go:99-112 | when all handles are closed and all deletes done, the counter is the total size plus exactly what closes without a stat left, and is exact if there were none |
| LedgerRace.PendingFits | server/filesystem/disk_space.go:216-223 | a pending addition always lands in [0, limit]: only decreases can fall between the check and the add |
| LedgerRace.AddedIsSafe | internal/ufs/fs_quota.go:94-96 | one process's swap keeps everybody else's facts |
| LedgerRace.HolderCanMove | server/filesystem/disk_space.go:216-235 | whoever holds the filesystem lock can always take a step |
| LedgerRace.LoneWrite | server/filesystem/quota_file.go:54-86 | the atomic steps of one write with nobody else in between do exactly what the sequential `HandleLedger.AfterWrite` says, refusals and short writes included, and change nothing else: the interleaved model refines to the sequential one |
| LedgerRace.UncheckedAddsOvershoot | server/filesystem/disk_space.go:211-224 | one interleaving of two handles, step by step: with the lock it stays within a limit of 100, without it the counter ends at 120 |
| WalkTree.PreorderCovers | internal/ufs/walk.go:78-124 | the flat preorder listing has exactly the paths below the root, each once |
| WalkTree.PrunedWalk | internal/ufs/walk.go:78-124 | a walk whose callback only skips directories visits exactly the flat listing filtered by "every ancestor passed", in the same order; skipping a directory does not cut off its siblings |
| Archives.Archive.AddToArchive | server/filesystem/archive.go:240-316 | writes one entry with the relative name and the whole content; passes over a file that is gone, before its header or after it; stops when the header or the content fails, after what was written of it; never more than one entry, never other content |
| Archives.Archive.Callback | server/filesystem/archive.go:191-237 | skips excluded directories, passes over excluded files, writes included ones |
| Archives.Archive.WalkDir | internal/ufs/walk.go:92-124 | the imperative walk with the archive callback writes exactly what the pure walk visits |
| Archives.Archive.Stream | server/filesystem/archive.go:113-188 | the stream holds exactly the entries of the offered paths in preorder, for the listed files without the path of the server, and fails only on an error; when nothing goes wrong but that files vanish, it passes and holds what `ArchivedFiles` says |
| Archives.OfferedFiles | server/filesystem/archive.go:167-236 | offered are exactly the files below the base directory all of whose ancestor directories pass the include test, each once |
| Archives.ArchivedFiles | server/filesystem/archive.go:167-236 | the whole archive: it has the entry of a file, with its whole content, if and only if the file is still there and it and every directory on the way are included; no other entry, no name twice |
| Archives.IgnoredLeftOut | server/filesystem/archive.go:195-200 | with an ignore matcher and no file list, a file has an entry if and only if the matcher ignores neither the file nor a directory on the way to it, from the base directory on |
| Archives.CoversMeaning | server/filesystem/archive.go:203-211 | on clean paths the textual test of a listed file is "is it, or lies inside it" |
| Archives.ListedFiles | server/filesystem/archive.go:191-237 | with a file list, whatever the ignore matcher, a file has an entry if and only if its top-level name is listed |
| Archives.NestedListingIsEmpty | server/filesystem/archive.go:191-237 | listing only "a/b" skips the directory "a" |
| Archives.Archive.TrimFiles | server/filesystem/archive.go:123-133 | the path of the server is taken off every listed file that begins with its text; the others and their order stay |
| Archives.ListedBothWays | server/filesystem/archive.go:123-133 | a file is listed with or without the path of the server before it, with the same result |
| Archives.TrimmedAsMeant | server/filesystem/archive.go:126-130 | the trimming gives what was meant if and only if the text of the server path ends at the end of a name |
| Archives.ListedCutInsideName | server/filesystem/archive.go:126-130 | the trimming cuts inside a name: server "/a", listed "/ab/c" |
| Transfers.SpaceAvailableForDecompression | server/filesystem/compress.go:115-162 | with a positive limit it accepts if and only if the true sum of the positive entry sizes fits; no 64-bit overflow |
| Transfers.PositiveSumMeaning | server/filesystem/compress.go:136-160 | the sum in question is that of the positive sizes, each entry counted once |
| Transfers.DeniedExactly | server/filesystem/filesystem.go:165-170 | with a limit below zero there is room for a file if and only if the limit is not -1 and the file does not grow |
| Transfers.EnoughForNext | server/filesystem/filesystem.go:165-170 | the promise of the check covers the next write, even over an existing file |
| Transfers.ExtractEntry | server/filesystem/compress.go:300-327 | one entry: an ignored one changes nothing; a directory is made when nothing is in the way; a file is written as any write |
| Transfers.ExtractFile | server/filesystem/compress.go:313-326 | a file entry does what a write does; without room it fails and changes no file, for lack of space when nothing else hinders it; with room it never fails for lack of space, and when nothing hinders it fails only if the copy, the owner or the times fail |
| Transfers.ExtractStream | server/filesystem/compress.go:299-328 | the final state is reached from the first by extracting the entries in order, up to the first that fails |
| Transfers.StreamAccounts | server/filesystem/compress.go:299-328 | the counter grows by at most the sizes of the entries; an exact ledger stays exact with a limit, and without one as long as the counter can hold the sizes; the counter goes on covering the tree, and a positive limit the counter; with a limit below zero neither total nor counter grows |
| Transfers.StreamFits | server/filesystem/compress.go:299-328 | after an accepted check no write of the extraction fails for space, even over existing files |
| Transfers.StreamDenies | server/filesystem/compress.go:299-328 | with a limit below zero no file grows, and an extraction that passes met no file larger than what was at its place at the start |
| Transfers.StreamDeniedAt | server/filesystem/compress.go:299-328 | the first file that is too large, and that nothing before it or in its way stops, ends the extraction for lack of space |
| Transfers.StreamRebuilds | server/filesystem/compress.go:299-328 | a transfer into an empty directory passes and rebuilds exactly the sent files with an exact ledger |
| Transfers.Decompress | server/filesystem/compress.go:115-191 | check, then extraction: with a limit of zero or more, what was accepted never runs out of space; with a limit below zero everything is accepted, no file grows, an archive with a file larger than what is at its place does not pass, and the first such file that nothing else stops fails for lack of space; an exact ledger stays exact with any limit but 0 |
| Transfers.NextFileRebuilt | server/filesystem/compress.go:300-327 | after one more file, exactly the files sent so far and the directories above them are there |
| RoundTrip.AllFilesListed | server/filesystem/archive.go:167-187 | with nothing excluded, every file of the tree is archived once |
| RoundTrip.Transfer | server/filesystem/compress.go:196-220 | archive and extract, for sources with and without hard links and any inodes the destination gives out: exactly the regular files with their contents, exactly the directories above a file, and a ledger equal to the total size |
| RoundTrip.RebuiltIsSame | server/filesystem/compress.go:300-327 | only directories without a file below them are dropped |
| RoundTrip.ListTotal | server/filesystem/compress.go:136-160 | the entry sizes of an archive add up to the total size of its files |
| RoundTrip.OnlyClearPathsArriveInPlace | internal/ufs/fs_unix.go:859 | an entry arrives at its own place if and only if its rooted path does not begin with the text of the base |
| SftpCron.EventMap.Push | internal/cron/sftp_cron.go:130-158 | after any sequence of pushes the map is the declarative merge of the rows taken, and `ids` names exactly those rows in order |
| SftpCron.EventMap.ForActivity | internal/cron/sftp_cron.go:170-195 | a record for the key, created when there is room; none only when the map is full and the key is new |
| SftpCron.EventMap.Elements | internal/cron/sftp_cron.go:161-166 | every merged record once, in some order |
| SftpCron.RecordsKeepTheirKey | internal/cron/sftp_cron.go:139-143 | each record carries the earliest timestamp of its group, which stays in the same minute, so the record still has its own key |
| SftpCron.OneRecordForEach | internal/cron/sftp_cron.go:130-195 | two rows of a batch are in the same record if and only if user, server, address and event are the same and both times are in one minute from 60m to 60m + 60; every row is in exactly one record, every record has a row, carries its user, server, address and event, the earliest time, and the files of its rows in order |
| SftpCron.TakenMeaning | internal/cron/sftp_cron.go:179-186 | `Fair`: at most `max` keys; a row is skipped if and only if its key is not among them, and then the batch is full; a key is taken with all its rows or none |
| SftpCron.MergeAppend | internal/cron/sftp_cron.go:130-158 | pushing a row is one more row in the merge: minimum of timestamps, files appended in order |
| SftpCron.MergeKeepsFiles | internal/cron/sftp_cron.go:144-157 | every file is in the merged records as often as in the rows |
| SftpCron.FilesDelivered | internal/cron/sftp_cron.go:84-86 | the multiset of files sent is the multiset of files of the rows taken |
| SftpCron.Page | internal/cron/sftp_cron.go:115-126 | a page continues where the last ended; it has `max` rows or all that are left |
| SftpCron.Reconciler.Collect | internal/cron/sftp_cron.go:47-79 | what was pushed is a prefix of the table, at least the whole first page, and ends with a page that is empty or adds no row; terminates; fails only if a query fails |
| SftpCron.Reconciler.DeleteInChunks | internal/cron/sftp_cron.go:91-105 | no query names more than 32000 ids, and the queries together name the ids exactly once, in order; after a failure exactly a prefix of them is deleted |
| SftpCron.Reconciler.SendAndDelete | internal/cron/sftp_cron.go:81-107 | nothing is deleted unless the batch was taken; only rows of that batch are deleted |
| SftpCron.Reconciler.Run | internal/cron/sftp_cron.go:41-108 | at most one batch of at most `max` events; a row leaves the table only if a batch made from it was taken; without an error all of them leave, at least `max` or all; there is an error only if a query or the panel fails |
| SftpCron.RunAll | internal/cron/sftp_cron.go:41-108 | over any number of runs with any failures every row is still there or was delivered; successful runs drain the table |
| SftpCron.ShortListsAreTaken | internal/cron/sftp_cron.go:179-186 | a page of at most `max` rows is always taken whole |
| SftpCron.DeletedWereTaken | internal/cron/sftp_cron.go:94-105 | deleting ids of taken rows deletes those rows and no others |
| RateLimit.Rate.Try | system/rate.go:27-42 | one call, with the 64-bit sum: a window opens when more than the duration has passed since the last one did; the first call of a window is admitted unless the limit is zero, and another while fewer than the limit were |
| RateLimit.Rate.Reset | system/rate.go:45-50 | count zero, window from now |
| RateLimit.WindowAdmitsFirst | system/rate.go:27-41 | over any run, each window admits exactly its first `limit` calls (limit below 2^64-1) |
| RateLimit.LargestLimitNeverDenies | system/rate.go:36 | a full window admits a call if and only if the limit is 2^64-1, where the sum wraps |
| RateLimit.AtMostTwice | system/rate.go:27-41 | with a monotone clock, any stretch of calls within `duration` admits at most twice the limit |
| RateLimit.OneBeginning | system/rate.go:32-35 | two windows begin more than `duration` apart |
| RateLimit.TwiceIsReached | system/rate.go:27-41 | the bound is reached |
| RateLimit.ConsoleThrottle.Allow | server/console.go:66-77 | strikes exactly at the first denied call after an allowed one; so far one strike for each maximal run of denied calls |
| RateLimit.ConsoleThrottle.Reset | server/console.go:80-82 | resets the limiter and leaves the run of denied calls as it is |
| Lockers.Locker.Acquire | system/locker.go:34-43 | succeeds exactly on a free slot, which is then full |
| Lockers.Locker.TryAcquire | system/locker.go:47-59 | the wait ends with the lock if and only if the slot was free or was freed, and the deadline did not come first |
| Lockers.Locker.Release | system/locker.go:64-71 | the slot is free; a no-op on a free one |
| PowerLock.AlwaysDisciplined | server/power.go:85-121 | in every reachable state the slot is full if and only if exactly one call owns it, and only a terminate is inside without owning it |
| PowerLock.AtMostOneInside | server/power.go:85-121 | at most one start, stop or restart is past the lock, and none while a terminate holds it |
| PowerLock.OnlyOwnTokenIsFreed | server/power.go:69-72 | the drain at the end of a call removes the token that call put in, and no other |
| PowerLock.ArrivalAnswers | server/power.go:56-121 | what a call meets when it arrives, in any state: refused at a busy server; let in with its own token by a free slot; at a full one refused, or waiting until it expires, or, for a terminate, let in without a token |
| PowerLock.TerminateIsNeverRefused | server/power.go:108-121 | a terminate gets through whoever holds the lock |
| PowerLock.QuietMeansFree | server/power.go:85-121 | with nobody inside the slot is free |
| PowerLock.HandlePowerAction | server/power.go:56-167 | one call, waiting or not: no token of its own is left and no other is taken; turned-away calls do nothing, and a call is turned away by a lock exactly when the wait ends without it, or at once on a full slot; a process is started only when offline or waited for, and after the pre-boot steps; success if and only if the environment does what the action asks for, and then all of it was done, in order |
| SinkPools.SinkPool.On | system/sink_pool.go:32-36 | appends the channel |
| SinkPools.SinkPool.Off | system/sink_pool.go:40-65 | removes the channel, keeps the order of the others, closes it; a no-op when absent |
| SinkPools.SinkPool.Destroy | system/sink_pool.go:69-78 | closes every channel once and empties the pool |
| SinkPools.NeverPanics | system/sink_pool.go:32-127 | with each channel registered once, no interleaving of any number of pushes with On, Off and Destroy sends on a closed channel or closes one twice |
| SinkPools.AtMostThreeSteps | system/sink_pool.go:96-127 | every effective step of a push's goroutine uses up one of at most three; no other step gives any back |
| SinkPools.GoroutinesMoveOn | system/sink_pool.go:96-127 | a goroutine always has a step that moves it on, whether or not anybody receives |
| SinkPools.NeverBlocked | system/sink_pool.go:32-127 | from every reachable state the pushes under way can finish by their own steps alone, within a stated number of them, so On, Off and Destroy are never blocked for good |
| SinkPools.ReceivedInOrder | system/sink_pool.go:96-127 | with one pusher, what was received followed by what is buffered is an in-order subsequence of what was pushed, without repetition |
| SinkPools.NothingDropped | system/sink_pool.go:96-127 | with one pusher and no timeout on a channel, every message is received or buffered once its push has ended, in order |
| SinkPools.LastMessagesKept | system/sink_pool.go:103-123 | with one pusher and no reader, after any run whose pushes have ended, a channel of capacity c holds the last min(c, n - h) of n messages, where h timeouts found room; so it holds the last min(c, n) if and only if h is 0 or n is at least c + h |
| SinkPools.MessageGivenUp | system/sink_pool.go:105-123 | a timeout at an empty channel with room gives the message up |
| SinkPools.EarlyTimeoutLoses | system/sink_pool.go:105-123 | a concrete run: the first message of a channel for two is lost |
| SinkPools.TwoPushersReorder | system/sink_pool.go:96-127 | with two pushes under way on a channel with room for both, the later can get in first |
| SinkPools.TwoPushersMeet | system/sink_pool.go:96-127 | that state is reached from the empty pool |
| SinkPools.PushesReorder | system/sink_pool.go:96-127 | a concrete interleaving after which a channel holds 20 before 10, pushed the other way round |
| Downloaders.Downloader.Track | router/downloader/downloader.go:289-300 | a new identifier is appended to its server's list; a known one changes nothing; the maps agree |
| Downloaders.Downloader.Find | router/downloader/downloader.go:303-310 | the tracked download or none |
| Downloaders.Downloader.Remove | router/downloader/downloader.go:314-331 | the identifier leaves both maps; the maps agree; what `DroppedAt` says of the order of the others |
| Downloaders.Downloader.ByServer | router/downloader/downloader.go:145-157 | exactly the tracked downloads of the server, each once, in tracking order |
| Downloaders.RemoveAgrees | router/downloader/downloader.go:314-331 | a server's list names exactly its downloads, each once, after a removal too |
| Downloaders.DroppedAt | router/downloader/downloader.go:318-327 | the list without the identifier: the others in their order |

## Left out

- Symbolic links, devices and other special files, `openat2`, `/proc` checks and symlink races: the tree holds directories and regular files only.
- File modes, timestamps and owners: an ownership change only succeeds or fails; `Chmod`, `Chown`, `Chtimes` and `ListDirectory` are not modelled.
- Texts and paths inside error values: errors are the sentinel or errno only, and one errno (`EIO`) stands for all that the code does not single out.
- `UnixFS.RemoveAll` and `UnixFS.Remove` without the ledger (internal/ufs/fs_unix.go:334-422): the model has the `Quota` versions that servers use.
- `RemoveContents` as an entry point: only the recursion `removeContentsFrom` that it shares with the delete.
- `Writefile` (deprecated), `CompressFiles` and the decompression of a single compressed file: they charge the ledger on another footing.
- Concurrent `Filesystem.Write` and `Copy` calls, a recount during writes, a limit that changes while handles are open, `Truncate` on a handle, two handles on one file, a handle open across a delete or rename of its file: exactness is not promised there.
- Deletes whose unlink fails, in the interleaved model: `LedgerRace` has deletes that succeed; the sequential `RemoveAll.Delete` has the exact condition.
- `quotaFile.ReadFrom` and append mode: the copy loop calls `Write`, and the position is the one the model keeps.
- LedgerRace.NeverOverTheLimit: is stated for a fixed positive limit; with limit 0 the counter may saturate, and with -1 nothing is reserved.
- LedgerRuns.Run: on an unlimited server a counter that would pass its largest value ends the exactness; `Overflows` and `SessionLoss` say when, from the request and the state before. How often a drifting delete charges a file is not fixed: each time its directory is read again.
- Filesystems.Filesystem.TruncateRootDirectory: after a failing `os.Mkdir` the server goes on with a base directory that is unlinked, in which nothing can be created; the model has an empty one. The test-only limit reset is left out.
- Archives.Archive.Stream: base directories that are not clean.
- Archive and compression formats (tar, gzip, zip), format detection, cancellation of a context, progress reporting, the gitignore matcher (an arbitrary predicate), negative entry sizes.
- Transfers.ExtractStream: entries arrive in the order given by the archive, one after the other.
- Directory listings: an arbitrary order of exactly the entries; the byte buffer of `readDir` and partially returned listings are not modelled.
- The database of the activity cron: a table of rows in a fixed query order; rows of other events, the `WHERE` text and rows added during a run are not modelled. A timestamp is a UTC second.
- `time.After` and the wait group of a push: a timeout can happen at any moment, and the end of a push waits for all its goroutines. Nil channels are not registered.
- `Locker.Destroy`, and releases of the power lock by other callers.
- An unknown power action; server states, crash detection, Docker, HTTP routes, websockets, the panel client, SSH, configuration and its parsers: plumbing over libraries that are not part of this model.
- The network part of the downloader.
