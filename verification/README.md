# BlockForge in Dafny

This project models the core of BlockForge, an in-memory filesystem with a portable image format, and
proves what its layers promise together: a file is a byte sequence, a directory tree has one parent and
one name per directory, every allocated block has one owner, an image mounts back to the state it was
made from, and the consistency checker is exact.

The model has two sides. Each operation is a function on values (`FsModel`, `FileData`, `Directories`,
`Paths`, `Journals`, `Images`, `Checkers`, `Walks`); the lemmas are about these functions. Beside them
stand the objects of the source with their fields and loops (`Devices.BlockDevice`,
`Allocators.BlockAllocator`, `InodeTables.InodeTable`, `Directories.DirectoryTable`, `Journals.Journal`,
`Bytes.CheckedReader`, `Filesystems.Filesystem`), and every method is proved to compute the function's
new state and result. A pointer into the inode table that the source writes through is a copy that is
put back, also after a failure.

How the layers build on each other:

- `Base`, `Bytes`, `Crc`: machine words, limits, little-endian words, the checksum.
- `Devices`, `Allocators`, `Extents`, `Inodes`, `InodeTables`, `Directories`, `Paths`, `Journals`: one
  module for each component of the source. `PathTheorems`, `PathStability`, `PathMeaning` and `PathTraces`
  hold what resolution means, `CrcRemainder` what the checksum is.
- `FileData` is growing, shrinking, reading and writing one inode. `FileBytes`, `FileGrowth`,
  `FileWrites` and `FileRelease` prove the data layer, including the invariant the source never states:
  bytes between the end of a file and the end of its last block are zero.
- `Trees` and `TreeOps` define the directory tree with link counts, and what each change does to it.
- `FsModel` is the filesystem and its operations. `FsInvariant` is the invariant; `FsCreate`, `FsNodes`,
  `FsRemove`, `FsRemovePath`, `FsRemoveFrame` and `FsRename` prove it operation by operation together with
  what each leaves alone, `FsRuns` run by run. `FsTheorems`, `FsFits`, `FsOutcomes`, `FsAccepts`,
  `FsTransactions`, `FsRooted`, `TreeCycles` and `FsRemoval` draw the conclusions: what a call leaves behind,
  and exactly when it succeeds. `ExampleRuns` and `RemovalRuns` show what the code gets wrong.
- `InodeCodecs`, `DirectoryCodecs`, `JournalCodecs`, `Images`, `Layouts`, `Validity` and `ImageTheorems`
  are the image format; `Checkers`, `CheckerTheorems`, `CheckerWarnings` and `UncleanRuns` the consistency
  checker; `Walks` and `WalkTheorems` the listing.
- `Filesystems` is the filesystem object.

Where the code asks for care, the model follows the code:

- A growth that would need more extents than the limit is refused only after its blocks were taken and
  listed. The file keeps its size and stays readable and writable, but no longer validates. The invariant
  of a file therefore says "in normal form, or over the extent limit". `FileWrites.GrowEffect` says exactly
  when this happens, and `CheckerTheorems.RunIsCleanIff` with `Validity.WholeFits` that under roomy limits
  it is the only way a file gets a run a report that is not clean.
- A path that ends in ".." resolves with the parent equal to the inode itself. Removing by such a path
  removes the children and then fails (`FsRemovePath.RemovePathEffect`). Renaming by it looks the
  directory's own name up inside the directory: it moves a child of that name, if there is one, and reports
  the directory (`FsOutcomes.RenameOutcome`).
- A recursive removal reaches every child by a path of its own. A path that passes through what it removes,
  by a name that is not the last in its directory, stops resolving half way, and the removal fails with part
  of the tree gone (`RemovalRuns.RoundTripRefused`). `FsRemoval.RemovePathIff` is the exact condition.
- A mount that asks for a replay of an image with an open transaction, without allowing a dirty one, fails
  after it has replaced everything (`ImageTheorems.FailedMount`).
- A rename may move a directory below itself (`ExampleRuns.CutOffRun`). The tree then has a part that the
  root does not reach, though parent pointers, names, links and ownership still hold. This is the only way:
  `FsRooted.StepRootedIff` says that every other call, and every other rename, keeps all directories
  hanging from the root, and `FsRooted.ReachedInRuns` what that means for runs.
- The link count of a directory stays 2 whatever it holds. Link counts are claimed for files and symbolic
  links. The checker counts the ".." of subdirectories too, so it warns about every directory below the root
  that has one (`CheckerWarnings.RunWarnings`).
- Every accepted entry leaves all tables together within the entry limit (`Directories.AddTotal`); only the
  two dot entries that a format gives the root are never tested against it.
- A creation or write whose journal record is refused reports an error after the change was made.
  `FsOutcomes.CreateOutcome` and `FsOutcomes.WriteOutcome` say exactly when.
- The path expansion limit is a 32-bit product. It decides no resolution where it does not wrap or happens
  to suffice (`PathTheorems.ExpansionLimitUnreachable`) and some resolution everywhere else
  (`PathTheorems.ExpansionLimitDecides`); where it wraps to zero, nothing resolves
  (`PathTheorems.WrappedLimitRefuses`).
- Clearing the journal at a format keeps its counters, so a later reload may start counting anew
  (`Journals.LogReloads`), and only a run with very many formats could make them wrap
  (`FsRuns.CountersLast`). Files, names, links and blocks do not depend on them (`FsRuns.Safe`).

`Base.Limits` are the limits of the source under the condition that a block is not empty and that counters
which run one past a limit do not wrap (`Base.CountersFit`). The image modules ask in addition that every
count fits the image field that stores it (`Base.ImageLimits`). The default limits of the source satisfy
both.

## Model

| member | source | states |
|---|---|---|
| `FsRuns.RunsAreSafe` | src/filesystem.cc:90-122 | Safety over whole runs: after an accepted first format, any list of creations, links, writes, removals, renames, transaction calls and further formats, each succeeding or failing, ends in a state with files, names, links, blocks and geometry in order, now and in what a rollback would restore; journal and snapshot are in order too as long as the journal's 64-bit counters last |
| `FsRuns.StepKeepsSafe` | src/filesystem.cc:370-1025 | One call of any operation, accepted or refused at any point, keeps files, names, links and blocks in order; unless it is an accepted format it also keeps the journal in order, takes no record back and lets its numbers go on |
| `FsRuns.StepKeepsTracked` | src/journal.cc:7-131 | Journal and snapshot stay in order through any call, a format included, as long as the counters, which a format does not reset, leave room |
| `FsRuns.FewFormatsLast` | src/journal.cc:128-131 | Under limits that fit the image fields the counters last for every run with fewer than 2^32 - 1 formats |
| `FsRuns.FormatEstablishes` | src/filesystem.cc:90-122 | An accepted format of any object, used before or not, puts files and names in order, and the journal too if its counters, which go on, leave room for another journal |
| `FsTheorems.OwnershipInRuns` | src/filesystem.cc:416-749 | At the end of every run the allocated blocks are exactly block 0 and the blocks of all inodes' extents, every one inside the device, with one owner and listed once: nothing leaked, nothing shared, also after a write that failed once it had allocated |
| `FsTheorems.LinkCountsInRuns` | src/filesystem.cc:477-749 | At the end of every run the link count of a file or symbolic link is the number of active entries naming it, and at least one |
| `FsTheorems.CanonicalInRuns` | src/path.cc:68-169 | At the end of every run a path that resolves has a canonical form whose components, looked up one by one through directories from the root, lead to the same inode |
| `FsTheorems.JournalInRuns` | src/journal.cc:84-126 | As long as the counters last, a snapshot exists exactly when a transaction is open at the end of a run, and loading the journal's records gives records and open transaction back, with the counters the records show; in a run without a second format that is the very same journal |
| `FsTheorems.WriteRefines` | src/filesystem.cc:555-650 | A successful write by path is a write to the file's byte sequence: size the larger of the old one and the end of the data, data in place, old bytes kept, a gap of zeros; every other inode and its bytes unchanged; and a later read of any range through any path to the file returns the slice of the new bytes |
| `FsTheorems.ReadRefines` | src/filesystem.cc:586-673 | A read by path of a regular file returns exactly the slice of its byte sequence that was asked for, and does not fail |
| `FsTheorems.RemoveFrees` | src/filesystem.cc:675-749 | After a removal, recursive or not, finished or broken off: a file is still there exactly when some name of it is, then with its bytes and as many links as names; only names below the resolved place, and the resolved name once it is done, can have gone; and the blocks in use are block 0 and those of the inodes still there |
| `FsOutcomes.CreateOutcome` | src/filesystem.cc:370-436 | A creation whose path, name, inode and content fit makes the node with its one name, every other name and file as before, also when it then reports an error, which is exactly when the journal refuses the record (an open transaction and a full journal or too long a payload); one that does not fit leaves every file, name and block as it was |
| `FsOutcomes.WriteOutcome` | src/filesystem.cc:619-650 | A write by path that fits is in the file's bytes, also when it then reports an error, which is exactly when the journal refuses the record; one that does not fit leaves the bytes of every file |
| `FsOutcomes.LinkOutcome` | src/filesystem.cc:455-488 | A hard link by path adds one name and one to the link count; refused, it changes nothing at all |
| `FsAccepts.LinkIff` | src/filesystem.cc:455-488 | In a state in order a hard link is accepted if and only if the first path leads to an inode that is no directory with fewer links than the limit, and the second gives a valid new name, not taken, in a directory, with room in the tables |
| `FsOutcomes.RenameOutcome` | src/filesystem.cc:751-776 | A rename by path moves one entry in the map from names to entries, the one that leads to what the source path resolves to unless that path ends in "..", and redirects ".." of a directory that changes its parent; refused, it changes nothing at all |
| `FsAccepts.RenameIff` | src/filesystem.cc:751-776 | In a state in order a rename is accepted if and only if the source leads to something other than the root whose name finds an entry, and the target gives a valid new name, not taken, in a directory, with room in the tables |
| `FsOutcomes.RemoveOutcome` | src/filesystem.cc:689-749 | A removal by path, whole or broken off, leaves every name not below the resolved place finding what it found, but for the resolved name once it is done; without recursion every name of every other directory |
| `FsRemoval.RemovePathIff` | src/filesystem.cc:689-749 | A recursive removal succeeds if and only if the filesystem can be written to, the path leads by a name to something other than the root, every path below is within the path limits, and in the directories to be removed the path looks up no name but the one that comes last there, because each child goes by a path that starts like this one; stated for every path, with ".." and links |
| `FsRemoval.RemoveSingleIff` | src/filesystem.cc:689-713 | A removal without recursion succeeds if and only if the filesystem can be written to, the path leads by a name to something other than the root, and that is no directory with an active entry besides the dots |
| `FsRemoval.PlainRemovalIff` | src/filesystem.cc:714-729 | By a path of names alone, past no link, a directory other than the root goes with everything below it if and only if the filesystem can be written to and every path below is within the limits |
| `FsRemoval.RemovedAll` | src/filesystem.cc:714-748 | After a successful removal no directory below the removed one is left, and every inode left, but for the root, has a name that was there before, in a directory that was not below, and that is not the removed one |
| `PathTraces.TraceIntact` | src/path.cc:84-156 | A path that resolved resolves after names were removed exactly if every lookup it made still finds something, and then it makes the same lookups and ends at the same place |
| `RemovalRuns.RoundTripRefused` | src/filesystem.cc:719-729 | A run where the same condition without the last clause is not enough: format, make /f, /f/f and /f/g; the path /f/f/../../f leads to /f by a name and all paths below fit, but the recursive removal by it fails |
| `FsFits.MakeNodeIff` | src/filesystem.cc:384-424 | A node with its content can be made if and only if an inode is left, the name is valid and free, the entry limit admits it together with the dot entries of a directory, a link target has an allowed length, and blocks and extents suffice for the content |
| `FsRooted.StepRootedIff` | src/filesystem.cc:370-1025 | Every directory hangs from the root by ".." after a call, now and in what a rollback would restore, if and only if the call is not an accepted rename that moves a directory below itself |
| `FsRooted.RenameRootedIff` | src/directory.cc:123-167 | A rename keeps every directory hanging from the root if and only if what moves is no directory, or stays in its directory, or the target directory is not below it |
| `FsRooted.MovedRooted` | src/directory.cc:157-166 | Giving a directory another parent keeps the tree hanging from the root exactly when the new parent is not below it; otherwise nothing below it does any more |
| `FsRooted.RootedIffReached` | src/path.cc:68-169 | Every directory hangs from the root if and only if every inode is reached by looking names up one by one from the root |
| `FsRooted.ReachedInRuns` | src/filesystem.cc:751-776 | In a run every directory hangs from the root throughout if and only if no rename of it moves a directory below itself; then every inode is reached by names at its end |
| `ExampleRuns.CutOffRun` | src/directory.cc:123-167 | A run where it fails: format, make /f and /f/f, rename /f to /f/f/f, and an inode is not reached from the root any more |
| `ExampleRuns.RefusedRecordStays` | src/filesystem.cc:425-431 | A run with an error reported after the change: with room for one journal record, begin a transaction and create a file; the call fails and the file is there |
| `FsTheorems.FailedRenameChangesNothing` | src/filesystem.cc:751-776 | A rename that is refused, for whatever reason, leaves the whole filesystem as it was |
| `FsTheorems.RollbackRestores` | src/filesystem.cc:965-1012 | A successful rollback, whatever ran since the begin without ending the transaction, restores superblock, device, bitmap with its hint, inodes, directories and dirty flag, while the journal keeps every record written meanwhile |
| `FsTransactions.CommitSeals` | src/filesystem.cc:965-996 | A transaction from begin to commit, whatever is called in between without ending it: the commit succeeds exactly if the journal has room for one more record; it keeps every file, name and block as they are, counts them anew, gives up the snapshot, and the journal is the one before the begin with a begin record, the record of each creation and write that succeeded in order, and a commit record, all of the one transaction number |
| `FsTransactions.RollbackSeals` | src/filesystem.cc:965-1012 | The same up to a rollback: files, names and blocks are those of the begin, and the journal ends with a rollback record of the transaction |
| `FsTransactions.BeginOutcome` | src/filesystem.cc:965-983 | Begin is accepted exactly if no transaction is open and the journal has room; it saves the core and the dirty flag and writes a begin record with the next transaction number |
| `FsTransactions.CommitOutcome` | src/filesystem.cc:985-996 | Commit is accepted exactly if a transaction is open and the journal has room; it writes a commit record of that transaction, drops the snapshot, sets dirty, keeps files, names and blocks and counts them anew; refused, it changes nothing |
| `FsTransactions.RollbackOutcome` | src/filesystem.cc:998-1012 | Rollback is accepted under the same condition, puts back what begin saved and writes a rollback record of the open transaction; refused, it changes nothing |
| `FsTransactions.CheckpointOutcome` | src/filesystem.cc:1014-1026 | Checkpoint is accepted exactly if no transaction is open and the journal has room; it writes a checkpoint record, keeps its number in the superblock and clears the dirty flag; refused, it changes nothing |
| `FsTransactions.StepRecords` | src/filesystem.cc:425-431 | A call inside a transaction adds to the journal exactly the record of the creation or write that succeeded, field by field, and nothing if it reports an error |
| `FsTheorems.SameResolve` | src/path.cc:68-169 | Resolution depends on tables, types and link targets only, so a change of file contents changes no resolution |
| `FileWrites.WriteEffect` | src/filesystem.cc:490-584 | A write to one inode of a shared store succeeds exactly when its end fits the file limit, the free blocks and the extent limit. Whatever its outcome, the file invariant holds again (well-formed, physically disjoint extents, every block below the end of file stored, zeros behind the end of file), the bitmap changes by exactly the blocks gained, no byte of another allocated block changes, a success lays the data over the old bytes with a zero gap, and a failure keeps the bytes |
| `FileWrites.GrowEffect` | src/filesystem.cc:496-513 | Growing takes exactly the missing blocks, which were free, and zeroes them, or nothing for want of space; once taken it is refused exactly when the extents with one per new block exceed the limit, and then keeps the blocks in the list |
| `FileWrites.ResizeUpEffect` | src/filesystem.cc:490-553 | A resize to a larger size succeeds exactly when it fits: always in the blocks there are, otherwise with enough free blocks and extents, so not for a file already over the extent limit. Then every old block maps where it did, the new ones to blocks that were free and are the only ones the bitmap gains, a file that covered exactly its blocks does so again, and the byte count is block size times physical blocks |
| `FileRelease.ResizeDownEffect` | src/filesystem.cc:514-553 | A resize to a smaller size covers exactly the first blocks of the new size, keeps their mapping, gives back exactly the blocks lost and keeps the byte count right |
| `FileRelease.ReleaseExtentsEffect` | src/filesystem.cc:675-687 | Dropping a file gives back exactly the blocks it owned and does not fail |
| `FileBytes.WriteChunksCorrect` | src/filesystem.cc:564-583 | The chunked write loop puts every byte of the data at its position and changes nothing else on the device |
| `FileBytes.ReadChunksCorrect` | src/filesystem.cc:598-616 | The chunked read loop returns the bytes of the range, zeros for holes |
| `FileBytes.ReadIsSlice` | src/filesystem.cc:586-617 | Reading an inode is slicing its byte sequence, for any offset and length |
| `FsInvariant.WriteInodeKeepsInv` | src/filesystem.cc:555-584 | A write to a file of the table keeps the invariant of the whole core, and every other inode with its bytes |
| `FsNodes.MakeNodeEffect` | src/filesystem.cc:384-424 | A creation makes an unused inode with the given content or target, found under its name, a directory with its dot entries, while every other name finds what it found and every other file is as it was; a failure leaves the same inodes, the same allocated blocks and every name finding what it found |
| `FsNodes.UsedDetermined` | src/filesystem.cc:416-424 | The ownership invariant leaves no choice for the bitmap: two states with the same inodes have the same blocks allocated |
| `FsCreate.AddNodeEffect` | src/filesystem.cc:384-415 | Adding a node keeps the invariant; on failure nothing but the cursor of the inode table may have changed, on success the state is the old one with that inode, its table and one entry |
| `FsRename.LinkNodeEffect` | src/filesystem.cc:455-487 | A hard link adds one name to the map from names to entries, every other name finding what it found, and one to the link count, and the invariant holds again |
| `FsRename.RenameEffect` | src/directory.cc:123-167 | A rename, refused or not: the tables are as before, or the map from names to entries is the old one with the entry under its new name and not under the old one, and with a new ".." in a directory that changed its parent; the tree is in order either way (parent pointers, unique names, link counts) |
| `FsRename.ReparentTree` | src/directory.cc:157-166 | Pointing the ".." of a directory that nothing names at another directory keeps the tree in order |
| `FsRemovePath.RemovePathEffect` | src/filesystem.cc:689-749 | Removing by path, recursive or not, to the end or broken off half way: the invariant holds, the tree only loses names and inodes, the device is untouched, and a success has taken the resolved name away; what it leaves alone is stated by `FsRemoveFrame.RemovePathFrame` |
| `FsRemovePath.RemoveChildrenEffect` | src/filesystem.cc:714-729 | Removing the children of a directory one by one by path: if none fails, no name is left in the directory |
| `FsRemovePath.ResolveChild` | src/filesystem.cc:719-725 | The path of a child, if it resolves, resolves by one lookup of the child's name in the directory |
| `FsRemovePath.DropNameEffect` | src/filesystem.cc:731-748 | Dropping a name finds none and changes nothing, or the tables are the old ones with exactly that entry a tombstone and without the table of the directory it led to; the inode it was resolved to is still in the table then |
| `FsRemoveFrame.RemovePathFrame` | src/filesystem.cc:689-749 | A removal, whole or broken off half way, changes no table but those below the resolved place (by ".." upwards) and, once done, the resolved name in its parent's; a path that does not resolve changes nothing |
| `FsRemoveFrame.RemoveSingle` | src/filesystem.cc:689-713 | A removal without recursion takes exactly the resolved name and an empty directory's table, and refused it changes nothing at all |
| `FsRemove.DropOneInv` | src/filesystem.cc:733-735 | One of several names less: the link count falls by one and the inode stays |
| `FsRemove.DropLastInv` | src/filesystem.cc:733-744 | With the last name the inode goes and its blocks, and no others, are free again |
| `FsRemove.DropDirectoryInv` | src/filesystem.cc:731-744 | An empty directory goes with its table and its one name |
| `PathStability.ShrunkResolve` | src/path.cc:68-169 | What still resolves after names have been removed resolves to the same place as before |
| `Directories.BuryThenUndelete` | src/directory.cc:143-156 | Scanning tombstones from the back revives the very entry just removed |
| `Directories.FailedRenameRestores` | src/directory.cc:123-167 | A rename of table entries that fails leaves every table exactly as it was |
| `Directories.BuryKeepsOrder` | src/directory.cc:98-121 | Removing keeps names unique and every active entry behind all tombstones of its lower-cased name |
| `Directories.AppendKeepsOrder` | src/directory.cc:71-96 | Adding keeps names unique and every active entry behind all tombstones of its lower-cased name |
| `Directories.FindUnique` | src/directory.cc:169-182 | Whichever active entry carries a lower-cased name is the one a search finds |
| `Directories.AppendFinds` | src/directory.cc:71-96 | Adding maps one more lower-cased name of one directory to its entry |
| `Directories.BuryFinds` | src/directory.cc:98-121 | Removing takes one lower-cased name of one directory out of the map |
| `Directories.ReparentFinds` | src/directory.cc:157-166 | Redirecting ".." changes what it finds in that directory and nothing else |
| `Directories.AddTotal` | src/directory.cc:86-95 | Whatever was accepted leaves all tables together within the entry limit, the dot entries of a directory just created included |
| `Directories.RenameTotal` | src/directory.cc:123-167 | An accepted rename grows the tables by one entry, within the limit |
| `Directories.FindIndex` | src/directory.cc:169-182 | The first active entry of that lower-cased name, or none if there is none |
| `Directories.LastTombstone` | src/directory.cc:145-154 | The last tombstone of that lower-cased name, or none if there is none |
| `Directories.DirectoryTable.AddEntry` | src/directory.cc:71-96 | Appends a validated entry that no active name clashes with, below the entry limit over all tables; refused without change otherwise |
| `Directories.DirectoryTable.EntryLimitReached` | src/directory.cc:86-91 | The table-by-table count trips exactly when all tables together hold as many entries as the limit |
| `Directories.DirectoryTable.RemoveEntry` | src/directory.cc:98-121 | Turns the entry into a tombstone and hands it back, or changes nothing |
| `Directories.DirectoryTable.RenameEntry` | src/directory.cc:123-167 | The whole rename with its undo, as the function the theorems are about |
| `Directories.DirectoryTable.UndoRemoval` | src/directory.cc:145-154 | Revives the last tombstone of that lower-cased name |
| `Directories.DirectoryTable.CreateTable` | src/directory.cc:38-55 | A new table holds exactly the two dot entries |
| `Directories.DirectoryTable.EraseTable` | src/directory.cc:57-69 | A table goes only when nothing but dots and tombstones is left in it |
| `Directories.DirectoryTable.LoadTable` | src/directory.cc:21-36 | Loads a table whose entries all validate, or changes nothing |
| `Directories.DirectoryTable.Verify` | src/directory.cc:201-247 | The loops over tables and entries find the first error, or none |
| `Directories.VerifyDirectoriesMeans` | src/directory.cc:201-247 | There is none exactly for tables of directories with right dot entries, valid entries, unique active names and targets of the right type, within the entry limit and with a root |
| `Trees.TreeParentsAgree` | src/directory.cc:38-55 | A tree in order has the parent pointers path resolution relies on: ".." of every directory is the directory that holds its entry, and of the root the root |
| `TreeOps.BuryTree` | src/directory.cc:98-121 | Removing a name keeps the tree in order |
| `TreeOps.AppendTree` | src/directory.cc:71-96 | Adding a name that says the truth about its inode keeps the tree in order |
| `TreeOps.EraseDirectoryTree` | src/filesystem.cc:739-741 | Erasing an empty directory that has lost its name keeps the tree in order: nobody's ".." points to it |
| `Paths.SplitGood` | src/path.cc:7-41 | Components are nonempty, hold no slash and no zero byte, and stay within the limits |
| `Paths.SplitPath` | src/path.cc:7-41 | The scanning loop computes the split |
| `Paths.NormalizePathText` | src/path.cc:43-66 | The loop over components computes the lexical normal form |
| `Paths.ResolvePath` | src/path.cc:68-169 | The resolution loop computes the resolution, ending by the measure of links left, then components pending |
| `Paths.ResolveParentPath` | src/path.cc:171-209 | Parent directory and last component of a path that something can be created at |
| `Paths.AdvanceProgress` | src/path.cc:85-156 | A turn of the loop takes a component for good or uses up one of the links left: the measure that ends the expansion |
| `PathTheorems.ExpansionLimitUnreachable` | src/path.cc:86-92 | Where the 32-bit limit admits as many components as a path and the allowed links can have, or is the largest number, the expansion limit never decides a resolution: no path is refused for it |
| `PathTheorems.UnwrappedSuffices` | src/path.cc:86-92 | That is so wherever the product does not wrap |
| `PathTheorems.ExpansionLimitDecides` | src/path.cc:86-92 | Everywhere else it decides the resolution of some path, which loops through a link and is reported to have too many components |
| `PathTheorems.WrappedLimitRefuses` | src/path.cc:86-92 | Where it wraps to zero, the limit refuses every path that has a component: the case the theorem above has to exclude |
| `PathTheorems.CanonicalLeadsThere` | src/path.cc:68-169 | With consistent parent pointers, looking up the canonical components one by one through directories from the root reaches the resolved inode, and a last step by name has the stated parent |
| `PathTheorems.NamesResolve` | src/path.cc:68-169 | The other way round: a path of names that lead somewhere by lookups, past no symbolic link, resolves there and is its own canonical form |
| `PathTheorems.CanonicalIsNormalized` | src/path.cc:43-66 | When no link was followed the canonical path is the lexically normalised one |
| `PathMeaning.ResolvesExactly` | src/path.cc:68-169 | Where the expansion limit never decides, a path resolves to an inode if and only if it leads there past no more links than the limit, and it reports their number; leading there is a relation over single lookups: a name is looked up, "." and "" stay, ".." goes to the parent, a link that is followed leads first where its own target leads, from the root or from the directory it is named in, and then the rest of the path goes on from there; a link at the end is followed if asked for |
| `PathMeaning.ResolvedLeads` | src/path.cc:84-169 | Under any limits the inode a path resolves to is one it leads to, past exactly as many links as reported |
| `PathMeaning.ParentResolvesExactly` | src/path.cc:171-206 | Where the expansion limit never decides, a path gives a parent directory and a new name if and only if its last component besides "." is that name and what comes before leads, all links followed, to that directory |
| `PathMeaning.SplitRender` | src/path.cc:8-42 | Splitting the absolute path rendered from good components within the limits gives the components back |
| `PathMeaning.FindsSameName` | src/directory.cc:101-121 | A name finds an active entry exactly if their spellings are the same but for the case of ASCII letters |
| `Allocators.FreeIsLowestFirst` | src/block.cc:142-161 | The list of free blocks is complete and lowest first, so allocation takes the lowest free block |
| `Allocators.AllocateManyFailsWhenFull` | src/block.cc:163-184 | A request fails exactly when it asks for more blocks than are free |
| `Allocators.AllocateManyValid` | src/block.cc:163-184 | Allocating takes only free blocks and keeps everything below the hint allocated |
| `Allocators.ReleaseValid` | src/block.cc:199-212 | Releasing keeps everything below the hint allocated |
| `Allocators.LoadBitmap` | src/block.cc:122-140 | Loading the bitmap an allocator writes gives the same blocks back |
| `Allocators.TailClearMeans` | src/block.cc:133-138 | The tail test accepts exactly bitmaps without a bit beyond the last block |
| `Allocators.BlockAllocator.Allocate` | src/block.cc:142-161 | The circular bit search from the hint returns the lowest free block and marks it, or fails when none is free |
| `Allocators.BlockAllocator.AllocateMany` | src/block.cc:163-184 | Returns the lowest free blocks in increasing order, or changes nothing |
| `Allocators.BlockAllocator.Release` | src/block.cc:199-212 | Clears the bit of an allocated block and lowers the hint to it, or changes nothing |
| `Allocators.BlockAllocator.Initialize` | src/block.cc:102-120 | Just the reserved blocks are allocated |
| `Allocators.BlockAllocator.Load` | src/block.cc:122-140 | Takes over a bitmap of the right length without tail bits |
| `Allocators.BlockAllocator.FreeCount` | src/block.cc:220-229 | Counts the free blocks |
| `Allocators.BlockAllocator.Bitmap` | src/block.cc:231-231 | The bytes whose bits are the allocated blocks |
| `Devices.WriteThenByte` | src/block.cc:63-73 | A block write shows up exactly at its bytes and nowhere else |
| `Devices.BlockDevice.Create` | src/block.cc:7-32 | A zeroed device of the requested geometry, or no change |
| `Devices.BlockDevice.Open` | src/block.cc:34-49 | A device over the given bytes when the geometry fits, or no change |
| `Devices.BlockDevice.Read` | src/block.cc:51-61 | The bytes of one block from an offset on, within the block |
| `Devices.BlockDevice.Write` | src/block.cc:63-73 | Replaces bytes of one block in the buffer, within the block, or changes nothing |
| `InodeTables.AllocateIsSmallest` | src/inode.cc:14-43 | Allocation returns the smallest unused identifier and fails only when none is left, and keeps the table's invariant |
| `InodeTables.EraseValid` | src/inode.cc:61-71 | Erasing keeps every identifier below the cursor in use |
| `InodeTables.InodeTable.Allocate` | src/inode.cc:14-43 | The search loop grants the first unused identifier from the cursor on |
| `InodeTables.InodeTable.Insert` | src/inode.cc:45-59 | Inserts under a free identifier within the limits, or changes nothing |
| `InodeTables.InodeTable.Verify` | src/inode.cc:91-104 | The loop finds the first error, or none, exactly when every inode sits under its own identifier and validates |
| `InodeTables.VerifyTable` | src/inode.cc:91-104 | No error exactly for tables within the limit whose inodes sit under their own identifier and validate |
| `Extents.NormalizeSucceedsIff` | src/inode.cc:141-201 | Normalising succeeds exactly for lists within the count limit that are well formed and have pairwise disjoint logical ranges |
| `Extents.NormalizeKeepsLayout` | src/inode.cc:141-201 | The normal form is ordered with disjoint ranges, maps every logical block to the same physical block or hole, covers the same blocks and keeps the physical count |
| `Extents.NormalizeIdempotent` | src/inode.cc:141-201 | Normalising twice is normalising once, also where a merge is refused because the joined count exceeds 32 bits |
| `Extents.NormalFormIsFixed` | src/inode.cc:141-201 | A list in normal form is its own normal form |
| `Extents.NormalizeExtents` | src/inode.cc:141-201 | The merge loop computes the normal form and what a failure leaves in the list |
| `Extents.MapIsLookup` | src/inode.cc:108-139 | On a well-formed list the mapping is the first covering extent's answer, and never fails |
| `Extents.MapBlock` | src/inode.cc:108-139 | The mapping loop computes the mapping |
| `Inodes.CheckExtents` | src/inode.cc:203-235 | The checks of an inode's extents, in the order of the source |
| `Inodes.CollectPhysicalBlocks` | src/inode.cc:237-257 | The set of physical blocks of a verified inode, refused exactly when one block is taken twice |
| `Inodes.ValidateInode` | src/base.cc:166-210 | All the checks of one inode, in the order of the source |
| `Inodes.CheckAttributes` | src/base.cc:194-207 | Names distinct and within limits, sizes within the budget |
| `Inodes.LookupInjective` | src/inode.cc:108-139 | Two logical blocks of a physically disjoint file never share a physical block |
| `Journals.JournalRunReloads` | src/journal.cc:7-126 | From a fresh journal every run of begin, append, commit, rollback and checkpoint, refused calls changing nothing, keeps sequences strictly increasing and transactions bracketed, and loading its records rebuilds the very same journal |
| `Journals.LogReloads` | src/journal.cc:84-131 | Loading gives back records and open transaction always, and the counters exactly when the records show them: a journal that was cleared may start counting anew |
| `Journals.AttemptKeepsLogOk` | src/journal.cc:7-82 | Each accepted journal call keeps that invariant, only appends, and lets the numbers go on |
| `Journals.AttemptWrites` | src/journal.cc:7-82 | Each journal call, written out: exactly when it is accepted, the one record it appends with every field, and counters and open transaction after it |
| `Journals.Journal.LoadRecords` | src/journal.cc:84-126 | The loading loop computes counters and open transaction, or changes nothing |
| `Journals.LoadsExactly` | src/journal.cc:84-126 | Any list of records loads if and only if there are not too many, their numbers increase, every begin comes where no transaction is open, every commit or rollback closes the one open, and any other record but a checkpoint belongs to it; the counters go on after the last and the largest number, inside the transaction left open |
| `Journals.Journal.Begin` | src/journal.cc:7-20 | Opens a transaction with a fresh number and record, or changes nothing |
| `Journals.Journal.Append` | src/journal.cc:22-40 | Appends a record to the open transaction, or changes nothing |
| `Journals.Journal.Commit` | src/journal.cc:42-54 | Ends the open transaction, or changes nothing |
| `Journals.Journal.Rollback` | src/journal.cc:56-68 | Ends the open transaction, or changes nothing |
| `Journals.Journal.Checkpoint` | src/journal.cc:70-82 | A checkpoint record between transactions, or no change |
| `Crc.BurstDetected` | src/base.cc:22-34 | A change confined to four consecutive bytes of data of equal length always changes the checksum of section 8 of RFC 1952 |
| `CrcRemainder.ChecksumIsRemainder` | src/base.cc:22-33 | The complement of the checksum, read lowest bit first, is the one polynomial of degree below 32 over the two-element field that is congruent, modulo x^32+x^26+x^23+x^22+x^16+x^12+x^11+x^10+x^8+x^7+x^5+x^4+x^2+x+1, to the data, lowest bit of the first byte at the highest power, times x^32 and with its first 32 coefficients complemented |
| `CrcRemainder.RegisterMultiplies` | src/base.cc:24-31 | From any start the register after some data is congruent to the start times x to the number of bits, plus the data times x^32 |
| `CrcRemainder.RemainderUnique` | src/base.cc:22-33 | Two polynomials of degree below 32 that are congruent modulo the generator are equal |
| `CrcRemainder.CheckValue` | src/base.cc:22-33 | The checksum of the nine characters 123456789 is 0xCBF43926 |
| `Crc.RegisterInjective` | src/base.cc:22-34 | Data of any length maps different checksum registers to different ones |
| `Crc.BitStepInjective` | src/base.cc:26-30 | The step for one bit is a bijection on 32-bit states |
| `Crc.ComputeCrc32` | src/base.cc:22-34 | The byte and bit loops compute the checksum |
| `Bytes.WordRoundTrip` | src/internal.h:21-51 | Reading back the little-endian bytes of a word gives the word |
| `Bytes.BytesRoundTrip` | src/internal.h:21-51 | Writing the word that bytes stand for gives the bytes |
| `Bytes.AppendWord` | src/internal.h:38-51 | The shifting loop appends the little-endian bytes of a word |
| `Bytes.CheckedReader.ReadWord` | src/base.cc:253-286 | Takes a word off the input, or fails without moving |
| `Bytes.CheckedReader.ReadBytes` | src/base.cc:288-296 | Takes a run of bytes off the input, or fails without moving |
| `Bytes.CheckedReader.ReadText` | src/base.cc:298-309 | Takes a length-prefixed string within a bound off the input |
| `InodeCodecs.InodeRoundTrip` | src/codec.cc:32-168 | Decoding an encoded inode gives it back, for every inode that validates and whose record the decoder does not find too long |
| `Layouts.InodeLayout` | src/codec.cc:43-81 | The bytes of an inode record: its first four, fifteen fields at their places from 4 to 84, the link target behind its length, extents of twenty-one bytes each, and at the end the checksum of all before |
| `InodeCodecs.WriteInodeRecord` | src/codec.cc:32-82 | The appending encoder computes the record or refuses it |
| `InodeCodecs.ReadInodeRecord` | src/codec.cc:84-168 | The reading decoder computes the inode or refuses the record |
| `DirectoryCodecs.DirectoryRoundTrip` | src/codec.cc:172-274 | Decoding an encoded entry list gives it back, for every list the encoder accepts; a record length of zero comes back as the least that fits |
| `Layouts.EntryLayout` | src/codec.cc:184-203 | The bytes of a directory entry: record length at 0, inode at 4, type number at 12, tombstone flag at 13, name length at 14, name from 16 on, zeros to the record length |
| `DirectoryCodecs.WriteDirectoryRecord` | src/codec.cc:172-207 | The appending, padding encoder computes the record or refuses it |
| `DirectoryCodecs.ReadDirectoryRecord` | src/codec.cc:209-274 | The reading decoder computes the entries or refuses the record |
| `JournalCodecs.JournalRoundTrip` | src/codec.cc:278-396 | Decoding an encoded journal gives it back with its checksums filled in, for every journal with increasing sequences and legal types |
| `Layouts.RecordLayout` | src/codec.cc:298-313 | The bytes of a journal record: length at 0, type number at 4, flags at 6, sequence at 8, transaction at 16, target at 24, generation at 32, payload length at 40, payload from 44 on, and a checksum of all but the length; low bytes first |
| `JournalCodecs.WriteJournal` | src/codec.cc:278-317 | The appending encoder computes the section or refuses it |
| `JournalCodecs.ReadJournal` | src/codec.cc:319-396 | The decoder advancing by record lengths computes the records or refuses the section |
| `ImageTheorems.ImageRoundTrip` | src/filesystem.cc:124-348 | Mounting what was serialized in any state of a run, under any options, is refused outright exactly when it is dirty and the options neither allow that nor ask for a replay; otherwise it rebuilds device, bitmap, inodes, next identifier, directories, dirty flag, geometry, root, generation and journal (with checksums filled in, and the counters its records show), the invariant holds again, and the call succeeds unless a replay was asked for inside a transaction; given that every inode and every record fits the limits |
| `Layouts.HeaderLayout` | src/filesystem.cc:156-180 | The bytes of an image: eight first bytes, fourteen fields at their places from 8 to 104, eight zero bytes, and from 112 on bitmap, inodes, directories, journal and device one after the other, their sizes and checksum in the header |
| `Layouts.HeaderAccepted` | src/filesystem.cc:186-226 | A header is accepted if and only if length, first bytes, version, flags, inode count, bitmap size, device size and, if asked for, the checksum are right, and the image is not dirty unless that is allowed or a replay is asked for; read off at the byte places |
| `ImageTheorems.FailedMount` | src/filesystem.cc:183-348 | A mount fails exactly when the image does not load or ends in a transaction that the options forbid; it leaves the filesystem as it was in the first case, and has replaced everything in the second |
| `ImageTheorems.ReplayReplaces` | src/filesystem.cc:335-345 | Such a mount exists: an image made inside a transaction, mounted for a replay without allowing a dirty image, fails after replacing everything |
| `ImageTheorems.ReloadIsSafe` | src/filesystem.cc:124-348 | Any run may go on from a reloaded image: files, names, links and blocks stay in order, and journal and snapshot too exactly when the image was not made inside a transaction; if it was, the transaction stays open without a snapshot through every run without a format |
| `FsTheorems.StepKeepsStuck` | src/filesystem.cc:965-1025 | While a transaction is open without a snapshot, every begin, commit, rollback and checkpoint is refused and changes nothing, and every call but a format leaves it so |
| `ImageTheorems.DamageIsRejected` | src/filesystem.cc:216-220 | A mount with checksums refuses any image with its body changed within four consecutive bytes, and leaves the filesystem alone |
| `ImageTheorems.DamagedImageRejected` | src/filesystem.cc:124-220 | The same for a serialized image: its checksum is right, so its damage is found |
| `ImageTheorems.PartsLoad` | src/filesystem.cc:239-328 | Each section of a serialized state loads to the part it was made from, and the parts pass the checks against each other |
| `ImageTheorems.LoadsJournal` | src/filesystem.cc:321-324 | A reloaded journal has the same open transaction, the same records with their checksums filled in, and the counters those records show |
| `Validity.InodeValidates` | src/base.cc:166-210 | An inode of a run validates if and only if its link count, extent count, byte count and link target fit the limits |
| `Validity.WholeFits` | src/base.cc:166-210 | With room for the two links of a directory and for whole blocks, that leaves the extent limit, which a refused growth may exceed, and the length of a link target |
| `Validity.TablesVerify` | src/directory.cc:201-245 | The tables of a run verify as long as the entry limit lets the root have its two dot entries |
| `CheckerTheorems.CleanIffSound` | src/checker.cc:51-240 | A report is clean if and only if the superblock validates, every active entry is valid, unique by lower-cased name and leads to an inode of its type, every inode validates, every referenced block is marked and has one owner, and the journal is in order |
| `CheckerTheorems.UnreferencedExactly` | src/checker.cc:195-204 | Beside a clean report the unreferenced-block warning is given for exactly the allocated blocks other than block 0 that no inode owns; without it the bitmap and the extents agree |
| `CheckerWarnings.WarningsExactly` | src/checker.cc:172-203 | Over any state with a sound superblock: the link-count warning names exactly the inodes other than the root whose link count is not the number of active entries leading to them (two at least for a directory), the orphan warning those that no entry but a dot leads to, the link warning the symbolic links whose target is no path |
| `CheckerWarnings.RunWarnings` | src/checker.cc:172-203 | In a run nothing is reported as orphaned, and the link-count warning is given for exactly the directories, other than the root, that another directory has as its parent, because the checker counts ".." entries and the operations do not |
| `CheckerTheorems.RunIsCleanIff` | src/checker.cc:61-240 | In a run the report is clean if and only if the limits admit the dot entries and every inode fits them, which leaves link targets and files over the extent limit where the limits are roomy |
| `CheckerTheorems.RefusedGrowthIsReported` | src/filesystem.cc:498-513 | A way there from any state in order: with room for one extent, writing two blocks into an empty file fails after both were taken, and the report on what is left is not clean |
| `UncleanRuns.UncleanRun` | src/filesystem.cc:498-513 | The same as a whole run: format, create a file, write two blocks into it with room for one extent, and the report at the end is not clean |
| `Checkers.CheckFilesystem` | src/checker.cc:61-240 | The scanning loops with their tallies compute the report, issue by issue |
| `Walks.WalkListsEverything` | src/filesystem.cc:823-889 | A walk over verified tables that succeeds lists the levels below its start one after the other down to the first empty one: every path of active entries exactly once, shallower ones first, no directory entered twice |
| `WalkTheorems.WalkFinds` | src/filesystem.cc:823-889 | In a state in order a walk lists exactly what there is: its start under its canonical path, and for every directory it lists, every active entry but the dots, one level deeper, under that path and name, with each field of its inode; nothing else, nothing twice, shallower items first, no directory under two paths. It succeeds if and only if the path resolves and the items are no more and no deeper than the limits |
| `Walks.WalkPath` | src/filesystem.cc:823-889 | The queue loop computes the walk and ends on any tables, cyclic ones included: its measure is directories not entered, then the queue |
| `Filesystems.Filesystem.Format` | src/filesystem.cc:90-122 | Refused as a whole, or a fresh filesystem: the new state and result are those of the function the run theorems are about |
| `Filesystems.Filesystem.CreateNode` | src/filesystem.cc:370-436 | New state and result of a creation, with everything taken back on failure |
| `Filesystems.Filesystem.CreateHardLink` | src/filesystem.cc:455-488 | New state and result of a hard link |
| `Filesystems.Filesystem.ResizeInode` | src/filesystem.cc:490-553 | New device, bitmap, inode and result of a resize in either direction, with the loops that attach and release blocks |
| `Filesystems.Filesystem.WriteInodeData` | src/filesystem.cc:555-584 | New state and result of a write through the inode pointer |
| `Filesystems.Filesystem.ReadInodeData` | src/filesystem.cc:586-617 | The bytes read |
| `Filesystems.Filesystem.Write` | src/filesystem.cc:619-650 | New state and result of a write by path |
| `Filesystems.Filesystem.Read` | src/filesystem.cc:652-673 | The result of a read by path |
| `Filesystems.Filesystem.ReleaseInodeBlocks` | src/filesystem.cc:675-687 | New bitmap and inode once the blocks are given back |
| `Filesystems.Filesystem.Remove` | src/filesystem.cc:689-749 | New state and result of a removal, with the loop over children |
| `Filesystems.Filesystem.Rename` | src/filesystem.cc:751-776 | New state and result of a rename |
| `Filesystems.Filesystem.Walk` | src/filesystem.cc:823-889 | The listing of everything below a path |
| `Filesystems.Filesystem.Begin` | src/filesystem.cc:965-983 | New state and result of a begin, with the snapshot taken |
| `Filesystems.Filesystem.Commit` | src/filesystem.cc:985-996 | New state and result of a commit |
| `Filesystems.Filesystem.Rollback` | src/filesystem.cc:998-1012 | New state and result of a rollback |
| `Filesystems.Filesystem.Checkpoint` | src/filesystem.cc:1014-1025 | New state and result of a checkpoint |
| `Filesystems.Filesystem.SerializeImage` | src/filesystem.cc:124-181 | The image bytes, section loops included |
| `Filesystems.Filesystem.Mount` | src/filesystem.cc:183-348 | New state and result of a mount, error codes included: everything replaced by what the image holds, everything left alone, or, for an open transaction that the options forbid, everything replaced and an error reported |
| `Base.CheckedMultiply` | src/base.cc:15-20 | The product exactly when it fits 64 bits |
| `Base.CheckedAdd` | src/base.cc:8-13 | The sum exactly when it fits 64 bits |
| `Base.CeilDivide` | src/internal.h:80-82 | The least number of pieces that hold the bytes |
| `Base.AlignedDirectoryLength` | src/internal.h:84-87 | A multiple of eight that holds header and name with less than eight bytes to spare |

## Left out

- Extended attributes in runs: setting one bounds a single value and not the inode's total, so a run may leave an inode that does not validate. Attributes are payload of the inode codec and of validation only.
- Timestamps, owner, group and mode changes, the label, and texts and offsets of errors; an error is its code.
- `stat`, `list`, `invariant_hash` and `hash64`: reading off a state that is modelled as a whole.
- The image analysis, the text and JSON renderers, the repair planner, the tools and the fuzz targets: reporting, or outside the core.
- Replay of the journal at mount (the source performs none) and the inode capacity of the format options (it is not enforced).
- Failures of memory allocation.
- Images under limits that allow counts beyond the image fields: the truncated length fields they would produce are not modelled.
- The journal after 2^64 record or transaction numbers: the claims about journal and snapshot end where the counters wrap (`FsRuns.CountersLast`).
- Mounting an arbitrary image as a step of a run: mounting does not check block ownership, so the invariant does not follow from a successful mount. Mounting an image of one's own is covered (`ImageTheorems.ReloadIsSafe`).
- Moving objects: a snapshot is a saved value that is copied back, and a mount copies loaded values into the objects, where the source moves them.
- The order in which `std::sort` leaves extents with the same logical start: modelled by a stable insertion; such lists overlap and are refused either way.
- ImageTheorems.ImageRoundTrip: asks that every inode fits the limits (`Validity.InodeFits`, `Validity.WholeFits`) and that records fit theirs, because the reader refuses images that exceed them; the search hint comes back as zero.
- PathMeaning.ResolvesExactly: asks that the expansion limit never decides; where it does (`PathTheorems.ExpansionLimitDecides`) what resolves is still what the path leads to (`PathMeaning.ResolvedLeads`), but which paths are refused is not characterised.
- FsRemoval.RemovePathIff: asks the same, since the path of a child makes one lookup more than that of its directory.
- Which of several possible errors a refused call reports: the functions follow the order of the source, and the theorems say only when a call is refused.
