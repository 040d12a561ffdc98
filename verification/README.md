# efsw: a verified model of its watch logic

efsw tells a listener what changes below a directory. This project models the parts of it that decide
*what* is told and *which* directories are watched, and proves what they promise. The operating system is
an oracle: what it answers is a parameter, and everything is proved for all answers.

Six parts, each a group of modules:

- **Inotify** (`InotifyEvents`, `InotifyWatch`, `InotifyWalk`, `MovedOut`, `InotifyReplay`, `WatchTrees`,
  `WatchTreeSteps`, `InotifyTable`, `Ownership`, `PathTracking`, `TrackedBatches`). `InotifyTable` holds the watch table as a
  class over mutable watch objects; its methods register directories recursively, remove them, handle one
  event and replay one read batch. What they do is stated on the table as a value: `InotifyWatch` has the
  table and what entering and removing make of it, `InotifyWalk` the requests, entries and reports of a
  recursive registration, `MovedOut` the directory that leaves a watched tree, and `InotifyReplay` the steps
  of a batch, each of which leads from one table to the next, and the account of every rename half.
  `WatchTrees` and `WatchTreeSteps` prove that registering gives a table whose recursive registrations are
  closed under parent directories and apart from one another, and that every orderly event keeps it so.
  `PathTracking` has the kernel's directory tree with inode numbers and says when the paths in the table are
  those of the inodes they watch, over any sequence of renames; `TrackedBatches` extends this to whole
  batches with arrivals, departures and deletions. `Ownership` says why the conflict check gives
  every directory one explicit owner.
- **Polling** (`Files`, `SnapshotDiff`, `Snapshot`, `MirrorTree`, `PollLevel`, `PollMirror`, `PollSteady`,
  `DirWatcher`, `Coalescing`). `SnapshotDiff` accounts for the difference of two listings with multiplicities and replays
  it. `Snapshot` is the in-place class around it, with binary lookups. `MirrorTree` has the watcher tree and
  one poll as values, `PollLevel` and `PollMirror` prove what a poll leaves, `PollSteady` says from
  the old and the new directory alone when that is the mirror, and `DirWatcher` is the heap of
  watchers with parent references and disjoint subtrees, whose methods do to the heap what the values say.
  `Coalescing` is the second pass that turns Add/Delete pairs into moves.
- **Windows lifetime** (`Win32Lifetime`, `Win32WatchSets`). A step-based protocol over active, retired and
  destroyed watches and their completion packets, an invariant over every interleaving, and a class whose
  critical sections are steps of it.
- **Windows pending moves** (`Win32PendingMoves`, `Win32Watcher`). Deferred removals and old names, what
  becomes of each of them, and the timer.
- **Agent** (`AgentCodec`, `AgentFrames`, `AgentBatches`, `AgentOrder`, `AgentQueue`, `AgentClient`). The wire
  format and its incremental parser, the splitting of event batches, the output queue under every interleaving
  of listeners, command thread and writer, and a client that reads the output back.
- **UTF** (`Utf`, `UtfWide`). UTF-8 and 16-bit wide transcoding on machine words, against RFC 3629 section 3
  and RFC 2781 sections 2.1 and 2.2.

`Paths` and `Collections` are helpers: path strings with `/` as the separator, optional values and the
iteration over unordered containers.

Where the code does not keep what one would expect, the exact condition is proved instead:

- The paths in the inotify table stay right exactly as long as every rename of a directory with a watch in
  it is handled by a recursive watch and the directory is still found at its new path then
  (`PathTracking.RunTracked`). A directory renamed twice within one batch is not found
  (`PathTracking.RenamedTwiceIsNotSeen`), and one whose parent's watch is not recursive is not followed
  (`PathTracking.NotRecursiveExample`).
- A source that has no destination in its batch is reported as deleted exactly when nothing below it is
  watched or it is watched itself (`MovedOut.SourceReported`). A watch that is not recursive, above a
  registration two levels down, reports nothing (`MovedOut.UnreportedExample`).
- A polled tree mirrors the file system after a poll exactly when no path that stayed has changed between
  file and directory (`PollMirror.PollMirrors`, `PollSteady.KindChangedExample`).
- Coalescing keeps the effect of the events exactly when no Add or Delete is swallowed merely because it
  lies inside a moved directory (`Coalescing.EffectKept`, `Coalescing.SwallowedExample`).
- The UTF-8 encoder leaves out 0xD800 to 0xDBFF only, so 0xDC00 to 0xDFFF pass, against RFC 3629; a string
  round-trips exactly when it holds nothing above 0x10FFFF and nothing from 0xD800 to 0xDBFF
  (`Utf.Utf8RoundTrip`, `Utf.EncodableIs`).

## Model

| member | source | states |
|---|---|---|
| `Paths.ChildParts` | src/efsw/FileSystem.cpp:43-81 | a child's path splits into its directory and its name, with or without a final slash |
| `Paths.SplitChild` | src/efsw/String.cpp:9-30 | splitting a child's path adds one component, with or without a final slash |
| `Paths.SplitJoin` | src/efsw/String.cpp:9-30 | splitting a path built from names below a directory gives the directory's components and those names |
| `Paths.JoinPrefix` | src/efsw/String.cpp:55-71 | between slash-terminated paths, a string prefix is a component prefix and the other way round |
| `Paths.LessMeans` | src/efsw/FileWatcherInotify.cpp:362-365 | the order of paths is by the first character that differs, and a proper prefix comes first |
| `Ownership.ConflictIffShared` | src/efsw/FileWatcherInotify.cpp:619-675 | two registrations pass the conflict check exactly when no directory is covered by both |
| `Ownership.VerdictMeans` | src/efsw/FileWatcherInotify.cpp:619-672 | which verdict a conflict gets: repeated for equal directories, overlapping for one inside the other when the outer one is recursive |
| `Ownership.SingleOwnerIffDisjoint` | src/efsw/FileWatcherInotify.cpp:652-675 | no two registrations conflict exactly when the directory sets they cover are disjoint |
| `Ownership.AddKeepsSingleOwner` | src/efsw/FileWatcherInotify.cpp:125-134 | a registration checked against every existing one keeps that, in whatever order they come |
| `Ownership.CheckSymmetric` | src/efsw/FileWatcherInotify.cpp:659-672 | the check answers the same whichever of the two is registered first |
| `PathTracking.RenameLookup` | src/efsw/FileWatcherInotify.cpp:557-576 | what a directory rename in the tree makes of every path, there before or not: below the destination what was below the source, below the source nothing, elsewhere what was there |
| `PathTracking.InodeMoves` | src/efsw/FileWatcherInotify.cpp:557-576 | where every surviving inode is after the rename |
| `PathTracking.ReprefixMeans` | src/efsw/FileWatcherInotify.cpp:567-575 | the rewriting loop replaces the source's components by the destination's, keeps the suffix, and touches no other path |
| `PathTracking.RenameTracked` | src/efsw/FileWatcherInotify.cpp:557-576 | rewriting after a rename onto an unwatched destination leaves every entry at the true path of its inode, and distinct entries distinct |
| `PathTracking.RewrittenDistinct` | src/efsw/FileWatcherInotify.cpp:567-575 | two different directories are rewritten to different ones |
| `PathTracking.UnrewrittenTracks` | src/efsw/FileWatcherInotify.cpp:557 | without the rewriting an entry is still right exactly when it was not below the source |
| `PathTracking.RunTracked` | src/efsw/FileWatcherInotify.cpp:557-576 | over any sequence of coalesced renames the table is right throughout exactly when each rename of a directory with a watch in it was handled by a recursive watch and the directory still found at its new path |
| `PathTracking.RenamedTwiceIsNotSeen` | src/efsw/FileWatcherInotify.cpp:557 | a directory renamed twice in a batch is not found at its first new path, and a watch in it keeps a wrong path |
| `PathTracking.RenamedTwiceExample` | src/efsw/FileWatcherInotify.cpp:557 | a concrete table that keeps the path /a/ of a directory that is now /c/ |
| `PathTracking.NotRecursiveExample` | src/efsw/FileWatcherInotify.cpp:557 | a concrete table that keeps the path /a/ of a directory that is now /b/ and is found there, since the watch above is not recursive |
| `InotifyWatch.EnteredFresh` | src/efsw/FileWatcherInotify.cpp:149-170 | watches entered under different and free descriptors are exactly what the table gains |
| `InotifyWalk.WalkComplete` | src/efsw/FileWatcherInotify.cpp:185-207 | a recursive registration asks the kernel for exactly the directories that chains of readable local directories lead to, through directories that got a descriptor; one that is not recursive asks for its own directory alone |
| `InotifyWalk.EnteredComplete` | src/efsw/FileWatcherInotify.cpp:155-207 | the watches entered are those of exactly the directories so reached that got a descriptor, each under its path |
| `InotifyWalk.ReportsComplete` | src/efsw/FileWatcherInotify.cpp:188-196 | the synthetic reports are the Adds of exactly the files and directories in the directories so reached that got a descriptor |
| `InotifyWalk.ArrivalMeans` | src/efsw/FileWatcherInotify.cpp:483-509 | a readable local directory that appears below a recursive watch and is not watched is registered with everything it holds and, with the option on, reported with it; for anything else nothing is entered and nothing reported |
| `MovedOut.InsertSortedKeeps` | src/efsw/FileWatcherInotify.cpp:362-365 | sorting by directory keeps the watches, each once, and their order |
| `MovedOut.DeletesOrder` | src/efsw/FileWatcherInotify.cpp:370-376 | one Delete for each directory, the last sorted one first |
| `MovedOut.ChildrenBeforeParents` | src/efsw/FileWatcherInotify.cpp:362-376 | in that order every directory comes after all directories inside it |
| `MovedOut.SweptExactly` | src/efsw/FileWatcherInotify.cpp:370-376 | when every inner watch hangs on a recursive one and no recursive watch is above an explicit one, the deletion loop removes exactly the inner watches and reports every directory that lies in a watched one, in descending order |
| `MovedOut.MovedDirectoryFirst` | src/efsw/FileWatcherInotify.cpp:347-378 | in a tree closed under parent directories, the moved directory itself is watched and sorts first whenever anything below it is watched |
| `MovedOut.TidyReports` | src/efsw/FileWatcherInotify.cpp:347-369 | there the collected directories are exactly the watched ones at or below the moved one, and the loop can remove all of them |
| `MovedOut.TidyLeaves` | src/efsw/FileWatcherInotify.cpp:347-378 | there exactly the watches at or below the moved entry go, with one Delete for each of their directories, children before parents, or one for the entry itself |
| `MovedOut.TidyTold` | src/efsw/FileWatcherInotify.cpp:347-378 | there the calls are, in descending order of the directories at or below the moved one, one Delete each, of the directory's name in the directory above |
| `MovedOut.SweptTold` | src/efsw/FileWatcherInotify.cpp:370-376 | on any table on which the loop is exact, the calls are the Deletes of exactly the collected directories that lie in a watched one, to its watch |
| `MovedOut.LeavesTold` | src/efsw/FileWatcherInotify.cpp:347-378 | the same for the whole departure, also where no watch is recursive: which watches go, and which Deletes are made, in terms of the table alone |
| `MovedOut.SourceReported` | src/efsw/FileWatcherInotify.cpp:347-378 | in any table of proper paths in which the watch is not in a recursive registration whose root lies below the entry, the moved entry is reported as deleted exactly when nothing below it is watched or it is watched itself |
| `MovedOut.UnreportedExample` | src/efsw/FileWatcherInotify.cpp:367-377 | two watches that are not recursive and a move that nothing is told about |
| `WatchTrees.EmptyNeat` | src/efsw/FileWatcherInotify.cpp:26-35 | the empty table is in shape |
| `WatchTrees.NeatTidy` | src/efsw/FileWatcherInotify.cpp:347-369 | in a table in shape every recursive watch is the top of a tree closed under parent directories |
| `WatchTrees.NeatLeaves` | src/efsw/FileWatcherInotify.cpp:347-378 | in such a table, whatever source is reported away, exactly the inner watches below it go |
| `WatchTrees.LeavesNeat` | src/efsw/FileWatcherInotify.cpp:347-378 | and the table stays in shape |
| `WatchTrees.DeletedNeat` | src/efsw/FileWatcherInotify.cpp:585-600 | so it does when an empty directory is deleted |
| `WatchTrees.WalkShape` | src/efsw/FileWatcherInotify.cpp:198-206 | the directories a recursive registration gets descriptors for are different, lie below its own, and each hangs on another of them |
| `WatchTrees.ReportedOnce` | src/efsw/FileWatcherInotify.cpp:188-196 | the synthetic reports of a recursive registration are all different |
| `WatchTreeSteps.GrownNeat` | src/efsw/FileWatcherInotify.cpp:149-206 | a tree of new watches that hangs together keeps the table in shape |
| `WatchTreeSteps.OwnedApart` | src/efsw/FileWatcherInotify.cpp:652-675 | a root that conflicts with no other one has no watch of another registration in its way |
| `WatchTreeSteps.ExplicitNeat` | src/efsw/FileWatcherInotify.cpp:125-206 | an explicit registration that is admitted keeps the table in shape |
| `WatchTreeSteps.ArrivedNeat` | src/efsw/FileWatcherInotify.cpp:483-509 | so does the registration of a directory that appears below a watch |
| `WatchTreeSteps.RemovalNeat` | src/efsw/FileWatcherInotify.cpp:212-255 | so does the removal of an explicit registration |
| `WatchTreeSteps.RenamedNeat` | src/efsw/FileWatcherInotify.cpp:557-576 | so does following a moved directory to a place that is not watched |
| `WatchTreeSteps.StepNeat` | src/efsw/FileWatcherInotify.cpp:408-465 | so does every orderly event of a batch, and the explicit registrations stay where they are |
| `WatchTreeSteps.BatchNeat` | src/efsw/FileWatcherInotify.cpp:387-466 | a batch of orderly events keeps the table in shape, and every source that a recursive watch reports as moved away takes with it exactly the watches at or below it, one Delete each |
| `TrackedBatches.GoneTracked` | src/efsw/FileWatcherInotify.cpp:585-600 | when a directory has gone from the kernel's tree, a table that has only lost watches is right exactly when nothing at or below it is watched any more |
| `TrackedBatches.RenamedTracked` | src/efsw/FileWatcherInotify.cpp:557-576 | a table that has followed a rename, or has nothing left of the source, is right after it |
| `TrackedBatches.WalkShown` | src/efsw/FileWatcherInotify.cpp:198-206 | every descriptor the walk gets is that of the inode at its path |
| `TrackedBatches.ArrivedTracked` | src/efsw/FileWatcherInotify.cpp:483-509 | a directory that comes and is registered with all it holds leaves a right table |
| `TrackedBatches.StepTracked` | src/efsw/FileWatcherInotify.cpp:408-465 | every orderly event that tells what has happened to the kernel's tree keeps the paths in the table those of the inodes they watch |
| `TrackedBatches.BatchTracked` | src/efsw/FileWatcherInotify.cpp:387-466 | so does a whole batch: renames, departures, arrivals, directories made and deleted, in any order |
| `InotifyReplay.AccountedStep` | src/efsw/FileWatcherInotify.cpp:408-465 | each replayed event keeps the account: every source so far is reported away, waits under its cookie as its watch is by now, or is paired with one later destination |
| `InotifyReplay.NothingPending` | src/efsw/FileWatcherInotify.cpp:403-465 | at the end of a batch nothing is pending and everything is settled |
| `InotifyReplay.PairsUnique` | src/efsw/FileWatcherInotify.cpp:441-461 | no rename is ended twice and no end is shared |
| `InotifyReplay.DeferrableByPairs` | src/efsw/FileWatcherInotify.cpp:397-433 | the cookie map decides deferral exactly as the batch does: on the same watch, or on one of the same registration with the option on |
| `InotifyReplay.RenameTold` | src/efsw/FileWatcherInotify.cpp:442-461 | a coalesced rename is one Moved of the destination's name in the directory of its watch, with the bare old name when both halves came from one watch and the full source path otherwise |
| `InotifyReplay.RenamesTold` | src/efsw/FileWatcherInotify.cpp:403-461 | that for all renames of a batch; and a source is deferred exactly when its batch holds its destination on the same watch or on one of the same registration that reports such moves |
| `InotifyReplay.EventTold` | src/efsw/FileWatcherInotify.cpp:523-602 | what is told about every other event: missed events for an overflow, Modified for a write, Delete for a removal, and at the end Add for a new entry and Add and Modified for one that arrived |
| `InotifyReplay.ArrivalKept` | src/efsw/FileWatcherInotify.cpp:537-582 | a directory that appears below a recursive watch and is not watched is entered and reported with everything in it; any other new entry leaves the table alone |
| `InotifyReplay.RemovalKept` | src/efsw/FileWatcherInotify.cpp:585-601 | a deleted directory below a recursive watch is watched no more, no other watch has changed, and nothing goes when it was not watched |
| `InotifyReplay.TableStays` | src/efsw/FileWatcherInotify.cpp:523-602 | no other kind of event changes the table |
| `InotifyTable.FileWatcherInotify.constructor` | src/efsw/FileWatcherInotify.cpp:26-35 | an empty table |
| `InotifyTable.FileWatcherInotify.OwnedMeansDisjoint` | src/efsw/FileWatcherInotify.cpp:652-675 | the registration invariant is single ownership: no directory belongs to two explicit registrations |
| `InotifyTable.FileWatcherInotify.PathInWatches` | src/efsw/FileWatcherInotify.cpp:677-690 | finds an explicit registration with exactly this path |
| `InotifyTable.FileWatcherInotify.GetWatchConflict` | src/efsw/FileWatcherInotify.cpp:652-675 | answers no conflict exactly when the root conflicts with no existing one, and otherwise a verdict some existing root gives |
| `InotifyTable.FileWatcherInotify.Admit` | src/efsw/FileWatcherInotify.cpp:86-134 | which registrations pass the checks before the kernel is asked, and the error code of each failed check |
| `InotifyTable.FileWatcherInotify.AddRootWatch` | src/efsw/FileWatcherInotify.cpp:66-78 | an explicit registration: an admitted one keeps single ownership, and in a table in shape it gains exactly a watch for every directory the walk gets a free descriptor for and leaves the table in shape; the result is the descriptor, or the error code of the check that failed |
| `InotifyTable.FileWatcherInotify.AddWatch` | src/efsw/FileWatcherInotify.cpp:75-210 | registers the directory and, recursively, every readable local one below it: asks the kernel for exactly those paths, parents first, and enters exactly the watches that got a descriptor, each over whatever was there; with synthetic events reports exactly what the new directories hold; keeps single ownership; an error leaves the table as it was; below a watch, every readable local directory that is not an explicit registration gets the kernel's answer |
| `InotifyTable.FileWatcherInotify.Register` | src/efsw/FileWatcherInotify.cpp:149-183 | the table without what was under the descriptor, with the new watch there; keeps single ownership |
| `InotifyTable.FileWatcherInotify.AddChildren` | src/efsw/FileWatcherInotify.cpp:198-206 | the recursive walk over the entries: the watches entered, all in the tree of the directory, the requests and the reports |
| `InotifyTable.FileWatcherInotify.ReportEntries` | src/efsw/FileWatcherInotify.cpp:188-196 | one Add for each file and directory in the new directory, in order |
| `InotifyTable.FileWatcherInotify.InParentTree` | src/efsw/WatcherInotify.cpp:7-19 | whether a watch is on another's chain of parents |
| `InotifyTable.FileWatcherInotify.RemoveWatchLocked` | src/efsw/FileWatcherInotify.cpp:212-255 | removes the watch and, for a recursive root, exactly its tree |
| `InotifyTable.FileWatcherInotify.RemoveWatch` | src/efsw/FileWatcherInotify.cpp:274-280 | the same by identifier; single ownership is kept, and a table in shape stays so |
| `InotifyTable.FileWatcherInotify.RemoveDirectory` | src/efsw/FileWatcherInotify.cpp:257-272 | the same by directory, nothing for an unknown one; as long as the map of directories finds every watch by its path, that is the watch of this directory |
| `InotifyTable.FileWatcherInotify.CheckForNewWatcher` | src/efsw/FileWatcherInotify.cpp:483-509 | a readable local directory below a recursive watch, unless it is watched already, is registered with every directory that chains of such directories in it lead to; otherwise the table stays as it is |
| `InotifyTable.FileWatcherInotify.RewritePaths` | src/efsw/FileWatcherInotify.cpp:565-575 | every watch in the table is re-prefixed exactly once, all others stay |
| `InotifyTable.FileWatcherInotify.HandleAction` | src/efsw/FileWatcherInotify.cpp:523-602 | for every kind of event the listener calls, the old name it leaves, and the table it leaves |
| `InotifyTable.FileWatcherInotify.HandleMovedTo` | src/efsw/FileWatcherInotify.cpp:537-578 | one Moved and all paths re-prefixed when the source is known, otherwise the directory registered and, behind its reports, Add and Modified |
| `InotifyTable.FileWatcherInotify.HandleRemove` | src/efsw/FileWatcherInotify.cpp:585-601 | one Delete, and a watched directory of that name, if the watch is recursive, is removed with its tree |
| `InotifyTable.FileWatcherInotify.EmitCrossDirectoryMove` | src/efsw/FileWatcherInotify.cpp:511-521 | one Moved with the full source path, and the destination watch's old name is put back |
| `InotifyTable.FileWatcherInotify.WatcherContainsDirectory` | src/efsw/FileWatcherInotify.cpp:289-302 | the watch of the directory above, if there is one |
| `InotifyTable.FileWatcherInotify.CollectBelow` | src/efsw/FileWatcherInotify.cpp:350-365 | exactly the other watches at or below a prefix, each once, sorted by directory |
| `InotifyTable.FileWatcherInotify.RemoveBelow` | src/efsw/FileWatcherInotify.cpp:370-376 | on any table: directory by directory from the last one, the watch of the directory above, if there is one, is told and removes it when it is recursive |
| `InotifyTable.FileWatcherInotify.EmitMovedOutside` | src/efsw/FileWatcherInotify.cpp:347-378 | on any table the collected directories and the deletion loop over them, or one Delete when there are none; in a tree closed under parents, every watch at or below the entry goes and no other, with exactly one Delete per directory, children before parents |
| `InotifyTable.FileWatcherInotify.MovePairs` | src/efsw/FileWatcherInotify.cpp:392-401 | every cookie with a destination is mapped to a destination of it |
| `InotifyTable.FileWatcherInotify.ReplayFrom` | src/efsw/FileWatcherInotify.cpp:417-440 | a source is dropped, deferred exactly when its pair will be one Moved, or reported as moved away from the directory of its watch; the waiting sources stay as their watches are |
| `InotifyTable.FileWatcherInotify.ReplayTo` | src/efsw/FileWatcherInotify.cpp:442-461 | the pending source is ended once: by one Moved that names it, with the table re-prefixed, or as moved away when the destination watch is gone |
| `InotifyTable.FileWatcherInotify.ReplayBatch` | src/efsw/FileWatcherInotify.cpp:387-477 | the steps lead from the table before the batch to the table after it, each does what the code does with its event, and the calls come event by event in kernel order; every FROM on a live watch ends as exactly one Moved or moved-away report about its own watch and name; no old name and no source is left over; orderly events keep the table in shape and single ownership; the old name of every coalesced rename, and when a source is deferred, are stated on the events, the table and the calls |
| `InotifyTable.FileWatcherInotify.CompleteRename` | src/efsw/FileWatcherInotify.cpp:455-461 | a coalesced rename does to all paths in the table what the rewriting function says, for local and cross-directory sources |
| `InotifyTable.FileWatcherInotify.CompleteTrackedRename` | src/efsw/FileWatcherInotify.cpp:537-578 | after a coalesced rename the table tracks the kernel's tree exactly when the watch is recursive and the directory found, or nothing in it was watched |
| `Files.Find` | src/efsw/DirectorySnapshot.cpp:23-31 | the linear search that the binary lookups are compared with |
| `Files.LowerBound` | src/efsw/DirectorySnapshot.cpp:9-21 | the first entry not before a path in a sorted list |
| `Files.FindFile` | src/efsw/DirectorySnapshot.cpp:23-31 | binary lookup finds exactly what linear search finds |
| `Files.SupportedSorted` | src/efsw/DirectorySnapshot.cpp:33-39 | dropping unsupported entries keeps the order |
| `Files.KindByMode` | src/efsw/FileInfo.cpp:217-223 | a mode is that of a directory or of a regular file by its type bits |
| `SnapshotDiff.DiffAccounts` | src/efsw/DirectorySnapshot.cpp:113-160 | each vanished path is exactly one Deleted or one Moved source, each new entry exactly one Created or one Moved destination, and each kept entry is Modified exactly once when anything but its link count differs from the old entry of its path, and otherwise not |
| `SnapshotDiff.MovesComplete` | src/efsw/DirectorySnapshot.cpp:129-180 | a moved entry is an old one with an inode, gone under its old path, of which nothing but path and link count has changed; no such pair is left as a deletion and a creation; files and directories are in their own lists |
| `SnapshotDiff.DiffReplays` | src/efsw/DirectorySnapshot.cpp:86-166 | applying the diff to the old listing gives the paths of the new one, and under each the new entry up to its link count |
| `SnapshotDiff.DiffInOrder` | src/efsw/DirectorySnapshot.cpp:102-158 | every list of the diff is in path order, moved entries by their new paths |
| `SnapshotDiff.ScanBalanced` | src/efsw/DirectorySnapshot.cpp:113-149 | the books of the scan balance after every current entry |
| `SnapshotDiff.DeletesBalanced` | src/efsw/DirectorySnapshot.cpp:152-160 | the deletion loop reports exactly what is left over and gone, by kind |
| `Snapshot.RebasedKeeps` | src/efsw/DirectorySnapshot.cpp:72-79 | re-prefixing all entries keeps names, contents and order, and can be undone |
| `Snapshot.DirectorySnapshot.SetDirectoryInfo` | src/efsw/DirectorySnapshot.cpp:72-79 | every entry is re-prefixed |
| `Snapshot.DirectorySnapshot.Scan` | src/efsw/DirectorySnapshot.cpp:86-166 | the new listing becomes the snapshot and the diff is that of the two listings; order is kept |
| `Snapshot.DirectorySnapshot.DiffCurrent` | src/efsw/DirectorySnapshot.cpp:113-149 | the in-place loop over current entries computes the scan |
| `Snapshot.DirectorySnapshot.DiffDeleted` | src/efsw/DirectorySnapshot.cpp:152-160 | the loop over the entries left over |
| `Snapshot.DirectorySnapshot.DeleteAll` | src/efsw/DirectorySnapshot.cpp:60-70 | a vanished directory's diff is that against an empty listing |
| `Snapshot.DirectorySnapshot.NodeIn` | src/efsw/DirectorySnapshot.cpp:168-180 | the first old entry that is gone under its path and is the same file |
| `Snapshot.DirectorySnapshot.AddFile` | src/efsw/DirectorySnapshot.cpp:182-189 | puts or replaces exactly one entry and keeps the order |
| `Snapshot.DirectorySnapshot.RemoveFile` | src/efsw/DirectorySnapshot.cpp:191-197 | takes out exactly the entry with the path and keeps the order |
| `Snapshot.DirectorySnapshot.MoveFile` | src/efsw/DirectorySnapshot.cpp:199-202 | both |
| `MirrorTree.ResolveChild` | src/efsw/DirWatcherGeneric.cpp:275-281 | a child's path leads to its directory's entry of that name |
| `PollLevel.ListedDirs` | src/efsw/DirectorySnapshot.cpp:81-84 | a name is that of a directory in a snapshot exactly when it is one in the file system |
| `PollLevel.KidsAfterAt` | src/efsw/DirWatcherGeneric.cpp:172-190 | for every name, which child a node has under it after its own diff: the old one where the path stayed, a new or a moved one where it is new, none otherwise |
| `PollMirror.MirrorConsistent` | src/efsw/DirWatcherGeneric.cpp:93-139 | a fresh tree meets the path invariant: paths are parent path, key and slash, keys are the directories of the snapshot |
| `PollMirror.RebaseConsistent` | src/efsw/DirWatcherGeneric.cpp:59-85 | so does a tree whose root has got another path |
| `PollMirror.KidsConsistent` | src/efsw/DirWatcherGeneric.cpp:193-197 | and so does every child that a poll goes on to, at its new path |
| `PollMirror.KeysRight` | src/efsw/DirWatcherGeneric.cpp:172-190 | after its diff a node has children for exactly the directories of its listing if and only if no path that stayed changed its kind |
| `PollMirror.PollMirrors` | src/efsw/DirWatcherGeneric.cpp:141-198 | after a poll the tree is the mirror of the file system exactly when no path that stayed changed its kind anywhere the poll reached |
| `PollMirror.MirrorStays` | src/efsw/DirWatcherGeneric.cpp:315-319 | polling a mirror of an unchanged directory changes nothing |
| `PollMirror.MirrorShows` | src/efsw/DirWatcherGeneric.cpp:79-125 | a mirror has a watcher by exactly the names that lead through directories to a directory, under its path, with a snapshot of exactly the files and directories in it |
| `PollMirror.PollRun` | src/efsw/DirWatcherGeneric.cpp:141-198 | over any sequence of polls the tree mirrors every state it saw exactly when kinds are kept from each to the next |
| `PollSteady.SteadyKept` | src/efsw/DirWatcherGeneric.cpp:141-198 | no kind changes anywhere the poll comes when, in the old and the new directory, no name that stayed changes its kind, nor inside one that stayed or may have been moved |
| `PollSteady.SteadyPoll` | src/efsw/DirWatcherGeneric.cpp:141-198 | then the poll of the old directory's mirror gives the mirror of the new one |
| `PollSteady.KindChangedExample` | src/efsw/DirWatcherGeneric.cpp:172-190 | a directory replaced by a file of its name keeps its watcher |
| `DirWatcher.DirWatcherGeneric.constructor` | src/efsw/DirWatcherGeneric.cpp:8-27 | a watcher at the path its name or directory stands for, with its first scan and no children |
| `DirWatcher.DirWatcherGeneric.ScanDirectory` | src/efsw/DirWatcherGeneric.cpp:142 | one scan of the watcher's own snapshot |
| `DirWatcher.DirWatcherGeneric.ResetDirectory` | src/efsw/DirWatcherGeneric.cpp:59-85 | the heap below the watcher holds the same tree under the new path |
| `DirWatcher.DirWatcherGeneric.AddChildren` | src/efsw/DirWatcherGeneric.cpp:93-139 | afterwards the heap holds the mirror of the directory |
| `DirWatcher.DirWatcherGeneric.CreateDirectory` | src/efsw/DirWatcherGeneric.cpp:268-326 | a child with the mirror of the new directory, if it is one; all other children stay |
| `DirWatcher.DirWatcherGeneric.RemoveDirectory` | src/efsw/DirWatcherGeneric.cpp:328-352 | exactly the child of that name goes |
| `DirWatcher.DirWatcherGeneric.MoveDirectory` | src/efsw/DirWatcherGeneric.cpp:354-377 | exactly that child is entered under its new name with all paths below it reset |
| `DirWatcher.DirWatcherGeneric.ApplyDirs` | src/efsw/DirWatcherGeneric.cpp:172-190 | the three loops over the directory lists of a diff |
| `DirWatcher.DirWatcherGeneric.WatchChildren` | src/efsw/DirWatcherGeneric.cpp:193-197 | every child is polled |
| `DirWatcher.DirWatcherGeneric.Watch` | src/efsw/DirWatcherGeneric.cpp:141-198 | one poll of the heap of watchers leaves the tree that a poll of the tree value gives; subtrees stay disjoint |
| `DirWatcher.DirWatcherGeneric.PollAll` | src/efsw/WatcherGeneric.cpp:25-32 | after a poll of the whole watch the heap mirrors the file system exactly when no path that stayed changed its kind |
| `DirWatcher.DirWatcherGeneric.HeapShows` | src/efsw/DirWatcherGeneric.cpp:127-199 | so a heap that mirrors a directory has a watcher for exactly the directories in it, and the snapshot of each holds what is there |
| `DirWatcher.DirWatcherGeneric.FindDirWatcherFast` | src/efsw/DirWatcherGeneric.cpp:210-248 | for every normalized path under the root, the watcher its names lead to, or none |
| `DirWatcher.DirWatcherGeneric.FindDirWatcher` | src/efsw/DirWatcherGeneric.cpp:250-266 | the depth-first search finds the same watcher, or none, for all those paths, and none for any other |
| `Coalescing.FileActionBatch.AddEvent` | src/efsw/FileActionBatch.cpp:21-25 | appends the event |
| `Coalescing.FileActionBatch.CollectCandidates` | src/efsw/FileActionBatch.cpp:64-76 | for every file identity the indices of its Adds and of its Deletes |
| `Coalescing.FileActionBatch.MatchMoves` | src/efsw/FileActionBatch.cpp:78-108 | the moves are exactly the unique metadata-equal cross-directory pairs, and suppressed are exactly their ends and what lies inside a moved directory |
| `Coalescing.FileActionBatch.Dispatch` | src/efsw/FileActionBatch.cpp:43-126 | the calls are, in order, one for every event that no move covers: the Add of a relocated file as its one Moved and any other event as it is; covered are the Delete a move starts with and what lies inside a moved directory; without detection every event is told as it is; nothing without a listener |
| `Coalescing.MovesAre` | src/efsw/FileActionBatch.cpp:27-92 | a move is a Delete and an Add in two directories, alone with their file identity, of which nothing but path and link count differs, with one link each when regular |
| `Coalescing.OutcomesTell` | src/efsw/FileActionBatch.cpp:78-123 | the rule's calls are those that Dispatch states, in terms of the events alone |
| `Coalescing.OneMoveEach` | src/efsw/FileActionBatch.cpp:80-96 | every event is an end of at most one move, and of one kind only |
| `Coalescing.EffectKept` | src/efsw/FileActionBatch.cpp:78-123 | when no path is changed twice, following the dispatched calls and following the events give the same paths from every start exactly when nothing was swallowed by a moved directory |
| `Coalescing.SwallowedExample` | src/efsw/FileActionBatch.cpp:98-107 | a new file in a moved directory that the listener is not told of |
| `Coalescing.NoDirectoryMoved` | src/efsw/FileActionBatch.cpp:98-107 | without a coalesced directory nothing is swallowed |
| `Win32Lifetime.StepInv` | src/efsw/FileWatcherWin32.cpp:116-218 | every step keeps the lifetime invariant |
| `Win32Lifetime.LifetimeSafe` | src/efsw/FileWatcherWin32.cpp:116-218 | in every interleaving a live watch has exactly one packet that refers to it iff its operation is pending, active and retired watches are disjoint, nothing refers to a destroyed watch, steps touch live watches only, and each watch is destroyed at most once and only if not live |
| `Win32Lifetime.BeginInv` | src/efsw/FileWatcherWin32.cpp:198-208 | a dequeued packet's watch is active or retired, so its storage is there, and the critical section keeps the invariant |
| `Win32Lifetime.ReleaseInv` | src/efsw/FileWatcherWin32.cpp:144-153 | releasing keeps the invariant and leaves only retired watches whose operation is pending |
| `Win32Lifetime.RearmInv` | src/efsw/WatcherWin32.cpp:306-343 | arming a watch again keeps the invariant, whether the kernel takes it or not |
| `Win32Lifetime.DrainNeverStuck` | src/efsw/FileWatcherWin32.cpp:155-172 | the drain loop waits only while a packet of a retired watch is still to come |
| `Win32Lifetime.DrainEmpties` | src/efsw/FileWatcherWin32.cpp:155-172 | once every packet has been delivered no watch is left and each has been destroyed exactly once |
| `Win32WatchSets.FileWatcherWin32.AddWatch` | src/efsw/FileWatcherWin32.cpp:33-84 | one Add step with a fresh identifier, after which the watch is there with its operation pending and a packet to come, or an error and no step |
| `Win32WatchSets.FileWatcherWin32.RemoveWatch` | src/efsw/FileWatcherWin32.cpp:102-122 | the active watch with the identifier, and no other, is retired |
| `Win32WatchSets.FileWatcherWin32.RemoveAllWatches` | src/efsw/FileWatcherWin32.cpp:131-142 | every active watch is stopped and retired |
| `Win32WatchSets.FileWatcherWin32.ReleaseRetiredWatches` | src/efsw/FileWatcherWin32.cpp:144-153 | destroys exactly the retired watches whose operation is not pending |
| `Win32WatchSets.FileWatcherWin32.TakeOver` | src/efsw/FileWatcherWin32.cpp:198-208 | the packet is consumed; a retired watch leaves its set and is destroyed, an active one goes on to its callback |
| `Win32WatchSets.FileWatcherWin32.Refresh` | src/efsw/WatcherWin32.cpp:306-343 | the operation is pending, and one more packet to come, exactly when the kernel has taken it |
| `Win32WatchSets.FileWatcherWin32.CallBack` | src/efsw/WatcherWin32.cpp:271-304 | whatever the listener adds and removes meanwhile, the watch is armed again unless it was stopped, and its storage outlives the flush |
| `Win32WatchSets.FileWatcherWin32.RunOnce` | src/efsw/FileWatcherWin32.cpp:174-218 | one round of the watcher thread is a run of the protocol, for any packet, any calls of other threads before the lock is taken and any calls of the listener: it releases the idle retired watches, dequeues the packet that was delivered, and arms its watch again unless it is no longer active; a retired watch that was idle or whose packet it is has gone for good |
| `Win32WatchSets.FileWatcherWin32.ShutDown` | src/efsw/FileWatcherWin32.cpp:18-31 | the destructor, with the watcher thread waiting: afterwards both sets are empty and every watch there ever was has been destroyed exactly once |
| `Win32WatchSets.FileWatcherWin32.DrainRetiredWatches` | src/efsw/FileWatcherWin32.cpp:155-172 | the loop ends with both sets empty and every watch destroyed exactly once |
| `Win32PendingMoves.PendingConserved` | src/efsw/WatcherWin32.cpp:129-290 | over any notifications, flushes and overflows, every deferred entry still waits or has left exactly once: as the source of a move, as a removal, or in an overflow |
| `Win32PendingMoves.LeavingIsTold` | src/efsw/FileWatcherWin32.cpp:220-294 | with the option on, leaving is told as one Moved with that source, one Delete, or one report of missed events |
| `Win32PendingMoves.RunTold` | src/efsw/WatcherWin32.cpp:129-290 | over any inputs, every notification is deferred, or repeats the last modification, or is unknown and tells nothing, or tells one call about its own name: Modified, Delete, Add, or the Moved of a pair, which is a Delete and an Add where such moves are not wanted; a flush tells exactly the expired entries as Deletes in order, an overflow one report of missed events |
| `Win32PendingMoves.ArriveTold` | src/efsw/WatcherWin32.cpp:144-185 | an addition that a single deferred removal confirms is one Moved; otherwise the Deletes of the removals of that file come first, in order, and then its Add |
| `Win32PendingMoves.NameSplits` | src/efsw/FileWatcherWin32.cpp:281-293 | the directory and the file of a call make up the path of its name, and the file has no separator |
| `Win32PendingMoves.ArriveDecides` | src/efsw/WatcherWin32.cpp:144-185 | an addition is a move exactly when a single deferred removal has its identity and the file at the new name confirms it; otherwise all removals of the file are reported, and no other one is touched |
| `Win32PendingMoves.ArriveBooked` | src/efsw/WatcherWin32.cpp:144-185 | either way no deferred removal is lost or told twice |
| `Win32PendingMoves.ExpiresInTime` | src/efsw/WatcherWin32.cpp:232-246 | on a running 64-bit clock an entry has expired when its remaining time has passed, and not before |
| `Win32PendingMoves.WaitThenFlush` | src/efsw/WatcherWin32.cpp:232-269 | waiting the computed time and flushing makes a non-empty pending set strictly smaller |
| `Win32Watcher.WatcherWin32.HandleAction` | src/efsw/FileWatcherWin32.cpp:220-294 | the calls of one action: a rename is one Moved, or Delete and Add between directories with the option off, or an Add without a source |
| `Win32Watcher.WatcherWin32.WatchCallbackEx` | src/efsw/WatcherWin32.cpp:102-230 | the notifications of one completion have the effect of the value-level run, and the log is what that run tells |
| `Win32Watcher.WatcherWin32.MatchRemovals` | src/efsw/WatcherWin32.cpp:144-185 | the counting, pairing and erasing loops compute what an addition does to the deferred removals |
| `Win32Watcher.WatcherWin32.PairRename` | src/efsw/WatcherWin32.cpp:205-224 | the second half of a rename takes the first old name of its file |
| `Win32Watcher.WatcherWin32.PendingMoveWaitTimeout` | src/efsw/WatcherWin32.cpp:232-251 | the least remaining time of all pending entries, and infinite when there is none |
| `Win32Watcher.WatcherWin32.FlushPendingMoves` | src/efsw/WatcherWin32.cpp:253-269 | exactly the expired entries of both lists are reported and erased, in order |
| `Win32Watcher.WatcherWin32.OnOverflow` | src/efsw/WatcherWin32.cpp:280-290 | both lists are cleared and missed events reported once |
| `AgentCodec.U32RoundTrip` | include/efsw/agent_protocol.hpp:111-117 | four bytes, the most significant first, give the value back |
| `AgentCodec.BytesOfValueU32` | include/efsw/agent_protocol.hpp:178-187 | and any four bytes are those of their value |
| `AgentCodec.I32RoundTrip` | include/efsw/agent_protocol.hpp:119-189 | signed values survive the unsigned encoding |
| `AgentCodec.ReadStr` | include/efsw/agent_protocol.hpp:121-198 | a string written is the string read, wherever it stands |
| `AgentCodec.Writer.U32` | include/efsw/agent_protocol.hpp:111-117 | appends the four bytes |
| `AgentCodec.Writer.Str` | include/efsw/agent_protocol.hpp:121-125 | appends the length, cut to 32 bits, and the bytes |
| `AgentCodec.Writer.ToFrame` | include/efsw/agent_protocol.hpp:131-146 | header and payload |
| `AgentCodec.Reader.Need` | include/efsw/agent_protocol.hpp:201-207 | asking for more than is left fails the reader for good |
| `AgentCodec.Reader.U32` | include/efsw/agent_protocol.hpp:178-187 | reads four bytes or fails with 0 for good |
| `AgentCodec.Reader.Str` | include/efsw/agent_protocol.hpp:191-198 | reads a string or fails with an empty one |
| `AgentFrames.FrameParser.Feed` | include/efsw/agent_protocol.hpp:220-223 | adds to what is held |
| `AgentFrames.FrameParser.Next` | include/efsw/agent_protocol.hpp:228-251 | 1 and the first frame, 0 and nothing consumed, or -1, as the front of the held bytes says; compaction changes nothing |
| `AgentFrames.FrameParser.Buffered` | include/efsw/agent_protocol.hpp:253 | how much is held |
| `AgentFrames.GotIsEncoded` | include/efsw/agent_protocol.hpp:228-251 | whatever is parsed is the encoding of the frame got |
| `AgentFrames.EncodedIsGot` | include/efsw/agent_protocol.hpp:132-251 | every encoded frame of at most 16 MiB is got back, whatever follows it |
| `AgentFrames.NothingLost` | include/efsw/agent_protocol.hpp:216-265 | however feeding and taking alternate, what was fed is the encoding of what was produced and what is held |
| `AgentFrames.ChunkingInvariance` | include/efsw/agent_protocol.hpp:216-265 | for any split and any interleaving the frames produced are the first of the frames sent, no error is reported, and next returns 0 exactly when all complete ones have been produced |
| `AgentFrames.OversizedIsMalformed` | include/efsw/agent_protocol.hpp:235-241 | a stream is malformed exactly when the size at its front exceeds 16 MiB |
| `AgentFrames.MalformedForever` | include/efsw/agent_protocol.hpp:235-241 | then every later next returns -1 and nothing more is produced, whatever is fed |
| `AgentBatches.BatchRoundTrip` | src/agent/efsw-agent.cpp:431-437 | a batch reads back as it was, with the reader in order and at its end |
| `AgentBatches.SplittingLossless` | src/agent/efsw-agent.cpp:427-439 | the batches of one flush hold 1 to 4096 records each, are as few as that allows, and read back, in order, to the whole pending list |
| `AgentBatches.BoundExact` | src/agent/efsw-agent.cpp:429-436 | 4086 string bytes a record keep every payload within the frame limit, and no larger number does |
| `AgentBatches.WriteEvents` | src/agent/efsw-agent.cpp:427-439 | the loop writes exactly the frames of those batches |
| `AgentOrder.StepInv` | src/agent/efsw-agent.cpp:164-199 | every step of listeners, commands and writer keeps order and account |
| `AgentOrder.WriterOrder` | src/agent/efsw-agent.cpp:164-442 | in every interleaving what is written about a watch is in order and without repetition, an event is missing only after a later marker or UNWATCH, and control frames are first in, first out |
| `AgentOrder.NothingRemains` | src/agent/efsw-agent.cpp:401-414 | when the writer loop returns, all control frames and markers are written and every event is written or superseded |
| `AgentOrder.HistoryKept` | src/agent/efsw-agent.cpp:164-265 | everything a step asks for is in the history, in the order of the steps |
| `AgentOrder.SilentAfterUnwatch` | src/agent/efsw-agent.cpp:376-440 | in every interleaving, once a reply made after an UNWATCH has been written, no event is written any more that was made before that UNWATCH |
| `AgentQueue.Agent.Lookup` | src/agent/efsw-agent.cpp:248-257 | the first critical section of both: the identifier of a registered watch |
| `AgentQueue.Agent.PushEvent` | src/agent/efsw-agent.cpp:180-183 | the second one, also in the middle of a round of the writer and after an UNWATCH: one step |
| `AgentQueue.Agent.PushMissed` | src/agent/efsw-agent.cpp:192-197 | the same for a marker, which supersedes the pending events of the watch |
| `AgentQueue.Agent.OnEvent` | src/agent/efsw-agent.cpp:164-185 | both without an interruption: an event of a registered watch is one step, any other is dropped |
| `AgentQueue.Agent.OnMissed` | src/agent/efsw-agent.cpp:187-199 | both without an interruption, for a marker |
| `AgentQueue.Agent.Send` | src/agent/efsw-agent.cpp:259-265 | one control step with the frame of the given type and payload |
| `AgentQueue.Agent.Unregister` | src/agent/efsw-agent.cpp:360-369 | the first critical section of UNWATCH: the registration goes, in both maps |
| `AgentQueue.Agent.ForgetPending` | src/agent/efsw-agent.cpp:376-379 | the second one: the pending events are forgotten |
| `AgentQueue.Agent.Unwatch` | src/agent/efsw-agent.cpp:352-384 | both without an interruption, and the UNWATCH_OK frame goes out behind |
| `AgentQueue.Agent.WriteReplies` | src/agent/efsw-agent.cpp:418-420 | the swapped-out replies are written in order |
| `AgentQueue.Agent.WriteMarkers` | src/agent/efsw-agent.cpp:421-426 | then the markers, one frame each |
| `AgentQueue.Agent.WriteBatches` | src/agent/efsw-agent.cpp:427-440 | then the batches of every watch, in the order of the map |
| `AgentQueue.Agent.WriterRound` | src/agent/efsw-agent.cpp:401-442 | one round is a run of the protocol, what is on the output means exactly what has been written, and the loop ends exactly when it was stopped with nothing pending |
| `AgentClient.FrameLayout` | include/efsw/agent_protocol.hpp:131-146 | byte by byte: the payload size, the version and the type in network order, and then the payload |
| `AgentClient.StrLayout` | include/efsw/agent_protocol.hpp:121-125 | a string is its length in network order and its bytes |
| `AgentClient.RecordLayout` | src/agent/efsw-agent.cpp:435-436 | a record is its action, its path and its old path |
| `AgentClient.BatchLayout` | src/agent/efsw-agent.cpp:433-436 | a batch is the watch, the number of records, and the records in order |
| `AgentClient.FrameRead` | src/agent/efsw-agent.cpp:418-439 | every frame the writer makes reads back by its type: 9 as missed events of the watch, 8 as the events of the watch in order, and a reply as its own bytes |
| `AgentClient.ClientReads` | src/agent/efsw-agent.cpp:401-442 | however the output is split on the way, what a client's parser and reader make of it are the first of the messages written, in order, and all of them once everything has arrived |
| `Utf.EncodesByRfc` | src/efsw/Utf.inl:56-110 | for every scalar value the encoder writes the octets of RFC 3629 section 3 |
| `Utf.EncodableIs` | src/efsw/Utf.inl:61-64 | what the encoder takes: the scalar values and the low surrogates |
| `Utf.OneRoundTrip` | src/efsw/Utf.inl:8-110 | every encodable character is decoded from its bytes, wherever they stand |
| `Utf.DecodingAdvances` | src/efsw/Utf.inl:23-54 | decoding arbitrary bytes always gets on and stays within them |
| `Utf.DecodesBytes` | src/efsw/Utf.inl:8-54 | whatever the bytes are: the decoder takes as many as the ones at the front of the first byte announce, gives up at the end when they are not there, and proper continuation bytes give the bits they hold |
| `Utf.Utf8RoundTrip` | src/efsw/Utf.inl:209-217 | decoding an encoded string gives it without what cannot be encoded, and the string itself exactly when all of it can |
| `Utf.Decode` | src/efsw/Utf.inl:8-54 | the fall-through switch accumulates the bytes and subtracts the offset modulo 2^32 |
| `Utf.Encode` | src/efsw/Utf.inl:56-110 | the byte array filled from its end |
| `Utf.ToUtf8` | src/efsw/Utf.inl:450-455 | the loop encodes every character |
| `Utf.ToUtf32` | src/efsw/Utf.inl:209-217 | the loop decodes to the end and terminates |
| `UtfWide.EncodesByRfc` | src/efsw/Utf.inl:606-656 | for every scalar value the units of RFC 2781 section 2.1 |
| `UtfWide.EncodesScalarsOnly` | src/efsw/Utf.inl:618-642 | nothing but scalar values is encoded |
| `UtfWide.JoinedByRfc` | src/efsw/Utf.inl:538-543 | a pair decodes to the value of RFC 2781 section 2.2, and that value encodes to the pair |
| `UtfWide.DecodesScalars` | src/efsw/Utf.inl:520-553 | decoding any units gets on and gives scalar values only |
| `UtfWide.WideRoundTrip` | src/efsw/Utf.inl:520-656 | decoding an encoded string gives it without what is no scalar value, and the string itself exactly when it is one of scalar values |
| `UtfWide.UnitsRoundTrip` | src/efsw/Utf.inl:520-656 | encoding decoded units gives them back exactly when every surrogate stands in a pair |
| `UtfWide.RepairsUnits` | src/efsw/Utf.inl:520-656 | decoding any units gives the scalar values that the units encode when U+FFFD stands in the place of every unpaired surrogate |
| `UtfWide.DecodeWide` | src/efsw/Utf.inl:520-553 | one step, with the replacement for unpaired surrogates |
| `UtfWide.EncodeWide` | src/efsw/Utf.inl:606-642 | one character, with the caller's replacement |
| `UtfWide.FromWide` | src/efsw/Utf.inl:404-410 | the loop decodes to the end and terminates |
| `UtfWide.ToWide` | src/efsw/Utf.inl:429-436 | the loop encodes every code |

## Left out

- InotifyTable.FileWatcherInotify.AddWatch: does not model symbolic links and their scope rules, the locks, or `DirInfo`; a failed inotify_add_watch is one error code, without telling ENOENT apart.
- InotifyTable.FileWatcherInotify.HandleAction: takes one kind per event, and a listener that does not call back into the watcher while it is told.
- InotifyTable.FileWatcherInotify.RewritePaths: `mWatchesRef` is not rewritten by the code, so after a rename it no longer finds the moved watches by their path, and removal by directory is stated for what the map holds.
- InotifyTable.FileWatcherInotify.CheckForNewWatcher: when an explicit registration lies below the new directory, which single ownership excludes, only the head of the tree and the kind of the reports are stated.
- InotifyTable.FileWatcherInotify.WatcherContainsDirectory: which of several watches of one directory comes first is left open, as the hash map leaves it.
- InotifyTable.FileWatcherInotify.ReplayBatch: the memory of removed watches is freed by the runtime; that it is freed only after the batch is the clearing of one list. A moved name is not empty, as in every kernel event for a directory entry.
- Snapshot.DirectorySnapshot.Scan: the listing is sorted by path, as filesInfoFromPath returns it.
- DirWatcher.DirWatcherGeneric.Watch: does not model the listener calls of a poll (each entry of the diff lists, whose account is SnapshotDiff.DiffAccounts, is handed to the batch once), the destructor's reports for a deleted directory, symbolic links, remote and unreadable directories, or watches other than this recursive one.
- DirWatcher.DirWatcherGeneric.PollAll: the batch that a poll hands to the listener is not modelled as its result; Coalescing.FileActionBatch.Dispatch is stated for any batch.
- DirWatcher.DirWatcherGeneric.ApplyDirs: the reports between the three loops are left out.
- DirWatcher.DirWatcherGeneric.AddChildren: the optional reports and the test by bare name, which no absolute path meets, are left out.
- DirWatcher.DirWatcherGeneric.CreateDirectory: its Add is left out; the test whether the new path is watched already is left out; in a tree that meets the path invariant, with one watch, it is not.
- DirWatcher.DirWatcherGeneric.RemoveDirectory: the removed watchers are left to the runtime instead of being deleted, without the destructor's reports.
- Coalescing.FileActionBatch.Dispatch: canonicalSourcePath is a given function.
- Coalescing.EffectKept: a move's source is known by its canonical path, which is taken to be directory and file name of its Delete.
- Win32WatchSets.FileWatcherWin32.RunOnce: the flush after a timeout is one sequence of listener calls; that a listener may remove a watch while the set is iterated is not modelled.
- Win32Lifetime.LifetimeSafe: no watch is added once the destructor has retired all of them.
- Win32Watcher.WatcherWin32.WatchCallbackEx: the buffer's entries are given as a list of those with a name; WatchCallbackOld is left out.
- AgentOrder.WriterOrder: nothing is put in after the writer has been told to stop, since the destructor stops the watchers first; a failed write ends the process and is not modelled.
- AgentQueue.Agent.OnEvent: the path relative to the root is computed by the caller, and WATCH is its final registration only.
- AgentQueue.Agent.WriterRound: other threads' critical sections between two writes of a round are steps of AgentOrder.WriterOrder; in the class a round is one call.
- AgentClient.ClientReads: is about outputs whose frames keep to the limit of 16 MiB, which AgentBatches.BoundExact bounds and AgentFrames.OversizedIsMalformed says is needed, and whose replies are frames of other types than 8 and 9, as all that the agent sends are.
- Win32PendingMoves.NameSplits: is about names with backslashes, as the system gives them; what is told about any other name is in Folder and BaseName.
- Utf.DecodesBytes: the value after a first byte with improper continuation bytes, or with four or more bytes to follow, is stated by Utf.Decode only.
- Utf.Decode: the table of 256 trailing counts is given by its ranges.
- FSEvents, kqueue, the C wrapper, logging, options and threads as such.
- `Utf<16>`, ANSI and locale conversion, and the String class that forwards to them.
- The platform's list of remote file systems and the inode support test.
