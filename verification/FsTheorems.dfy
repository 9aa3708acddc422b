/** What the invariant means to a caller, operation by operation and run by run. */
module FsTheorems {
  import opened Base
  import opened Bytes
  import opened Devices
  import opened Allocators
  import opened Extents
  import opened Inodes
  import opened InodeTables
  import opened Directories
  import opened Paths
  import opened PathTheorems
  import opened Trees
  import opened TreeOps
  import opened PathStability
  import Journals
  import opened FileData
  import opened FileBytes
  import opened FileWrites
  import opened FsModel
  import opened FsInvariant
  import opened FsCreate
  import opened FsRemove
  import opened FsRemovePath
  import opened FsRemoveFrame
  import opened FsNodes
  import opened FsRename
  import opened FsRuns

  // ----- Resolution does not look at file contents -----

  /** The same tables, and inodes that differ in nothing a path can see. */
  ghost predicate SamePaths(a: Namespace, b: Namespace) {
    && a.dirs == b.dirs && a.root == b.root && a.inodes.Keys == b.inodes.Keys
    && forall id :: id in a.inodes ==> SameToPaths(a.inodes[id], b.inodes[id])
  }

  predicate SameToPaths(a: Inode, b: Inode) {
    a.inodeType == b.inodeType && (a.inodeType == SymbolicLink ==> a.symlinkTarget == b.symlinkTarget)
  }

  lemma SameAdvance(a: Namespace, b: Namespace, c: Cursor, follow: bool, limits: Limits, budget: nat)
    requires SamePaths(a, b) && c.pending != []
    ensures Advance(a, c, follow, limits, budget) == Advance(b, c, follow, limits, budget)
  {
    hide Split, Directories.Find;
    var id := c.current;
    assert a.IsDirectory(id) == b.IsDirectory(id);
    var found := a.Find(c.current, c.pending[0]);
    assert found == b.Find(c.current, c.pending[0]);
    assert found.Some? && found.value.inode in a.inodes ==> SameToPaths(a.inodes[found.value.inode], b.inodes[found.value.inode]);
  }

  lemma {:induction false} SameResolveFrom(a: Namespace, b: Namespace, c: Cursor, follow: bool, limits: Limits, budget: nat)
    requires Bounded(c, limits) && (limits.maxSymlinkDepth == TWO32 - 1 ==> budget == 0)
    requires SamePaths(a, b)
    ensures ResolveFrom(a, c, follow, limits, budget) == ResolveFrom(b, c, follow, limits, budget)
    decreases limits.maxSymlinkDepth - c.followed, |c.pending|
  {
    hide Advance, Bounded, SamePaths;
    if c.pending != [] {
      SameAdvance(a, b, c, follow, limits, budget);
      var next := Advance(a, c, follow, limits, budget);
      if next.Ok? {
        AdvanceProgress(a, c, follow, limits, budget);
        SameResolveFrom(a, b, next.value, follow, limits, budget);
      }
    }
  }

  lemma SameResolve(a: Namespace, b: Namespace, path: text, follow: bool, limits: Limits)
    requires SamePaths(a, b)
    ensures Resolve(a, path, a.root, follow, limits) == Resolve(b, path, b.root, follow, limits)
  {
    if Split(path, limits).Ok? {
      var c := Start(a, path, a.root, Split(path, limits).value);
      hide Split, ResolveFrom, SamePaths;
      SameRoots(a, b);
      SameResolveFrom(a, b, c, follow, limits, ExpansionLimit(limits));
    }
  }

  lemma SameRoots(a: Namespace, b: Namespace)
    requires SamePaths(a, b)
    ensures a.root == b.root
  {
  }

  // ----- Reading -----

  /** The file a path leads to through links, if it is a regular one. */
  ghost predicate LeadsToFile(fs: Fs, path: text, id: u64, limits: Limits) {
    var names := fs.core.Names();
    var at := Resolve(names, path, names.root, true, limits);
    at.Ok? && at.value.inode == id && id in names.inodes && names.inodes[id].inodeType == Regular
  }

  /** A read returns exactly the asked-for slice of the file's bytes, and never fails. */
  lemma ReadRefines(fs: Fs, path: text, id: u64, offset: u64, count: nat, limits: Limits)
    requires Safe(fs, limits) && LeadsToFile(fs, path, id, limits)
    ensures fs.core.superblock.blockSize > 0 && fs.core.device.blockSize > 0
    ensures Read(fs, path, offset, count, limits) ==
            Ok(Slice(Content(fs.core.device, fs.core.table.inodes[id]), offset, count))
  {
    SafePositive(fs, limits);
    FileFits(fs.core, id, limits) by { hide CoreInv; }
    hide Safe, Resolve, ReadData, Fits, Content;
    ReadIsSlice(fs.core.device, fs.core.table.inodes[id], offset, count, fs.core.superblock);
  }

  lemma FileFits(core: Core, id: u64, limits: Limits)
    requires CoreInv(core, limits) && id in core.table.inodes
    ensures Fits(core.device, core.table.inodes[id].extents, core.superblock)
  {
    ExtentsSound(core, id, limits);
    hide TreeOk, LinksOk, OwnershipOk, InodeOk, WellFormed, Allocation.Valid, Table.Valid;
  }

  // ----- Writing -----

  /** The effect of a write on the files of a filesystem. */
  ghost predicate WroteOver(core: Core, next: Core, id: u64, offset: nat, data: seq<byte>)
    requires core.device.blockSize > 0 && next.device.blockSize > 0
    requires id in core.table.inodes && id in next.table.inodes
  {
    && next.dirs == core.dirs && next.table.inodes.Keys == core.table.inodes.Keys
    && Content(next.device, next.table.inodes[id]) == Overlay(Content(core.device, core.table.inodes[id]), offset, data)
    && (forall x :: x in core.table.inodes && x != id ==>
          next.table.inodes[x] == core.table.inodes[x]
          && Content(next.device, next.table.inodes[x]) == Content(core.device, core.table.inodes[x]))
  }

  lemma WriteFileRefines(fs: Fs, id: u64, offset: u64, data: seq<byte>, limits: Limits)
    requires Safe(fs, limits) && fs.core.superblock.blockSize > 0 && fs.core.device.blockSize > 0
    requires id in fs.core.table.inodes && fs.core.table.inodes[id].inodeType == Regular
    requires WriteFile(fs, id, offset, data, limits).1.Ok?
    ensures var next := WriteFile(fs, id, offset, data, limits).0;
            && next.core.device.blockSize > 0 && id in next.core.table.inodes
            && WroteOver(fs.core, next.core, id, offset, data)
            && SamePaths(fs.core.Names(), next.core.Names())
  {
    hide CoreInv, Safe, WriteInode, Content, Overlay, LittleEndian, FileOk;
    SafeParts(fs, limits);
    WriteInodeKeepsInv(fs.core, id, offset, data, limits);
    var (core, r) := WriteInode(fs.core, id, offset, data, limits);
    var payload := LittleEndian(offset, 8) + LittleEndian(Wrap64(|data|), 8);
    WriteFileEnds(fs, id, offset, data, limits);
  }

  /** A successful write leaves the core the data went to, but for the superblock's counters. */
  lemma WriteFileEnds(fs: Fs, id: u64, offset: u64, data: seq<byte>, limits: Limits)
    requires id in fs.core.table.inodes && fs.core.superblock.blockSize > 0
    requires WriteFile(fs, id, offset, data, limits).1.Ok?
    ensures var next := WriteFile(fs, id, offset, data, limits).0;
            var (core, r) := WriteInode(fs.core, id, offset, data, limits);
            && r.Ok? && next.core.device == core.device && next.core.table == core.table && next.core.dirs == core.dirs
            && next.core.superblock.rootInode == core.superblock.rootInode
  {
    hide WriteInode, LittleEndian, Allocation.Free;
  }

  /** A successful write is a write to the byte sequence of the file: the size is the larger of the
      old one and the end of the data, a gap reads as zeros, every other file keeps its bytes, and a
      later read through any path to the file returns the slice of the new bytes. */
  lemma WriteRefines(fs: Fs, path: text, offset: u64, data: seq<byte>, limits: Limits)
    requires Safe(fs, limits) && fs.core.superblock.blockSize > 0 && fs.core.device.blockSize > 0
    requires Write(fs, path, offset, data, limits).1.Ok?
    ensures var (next, r) := Write(fs, path, offset, data, limits);
            && LeadsToFile(fs, path, r.value, limits)
            && Upheld(fs, next, limits) && Safe(next, limits) && next.core.device.blockSize > 0 && next.core.superblock.blockSize > 0
            && r.value in next.core.table.inodes
            && WroteOver(fs.core, next.core, r.value, offset, data)
            && forall other, from: u64, count: nat :: LeadsToFile(fs, other, r.value, limits) ==>
                 Read(next, other, from, count, limits) ==
                 Ok(Slice(Overlay(Content(fs.core.device, fs.core.table.inodes[r.value]), offset, data), from, count))
  {
    hide CoreInv, Safe, Upheld, WriteFile, Content, Overlay, Resolve, WroteOver, Slice, Read, SamePaths;
    var (next, r) := Write(fs, path, offset, data, limits);
    var id := r.value;
    WritePath(fs, path, offset, data, limits);
    WriteFileRefines(fs, id, offset, data, limits);
    WriteFileStep(fs, id, offset, data, limits);
    UpheldSafe(fs, next, limits);
    SafePositive(next, limits);
    WroteBytes(fs.core, next.core, id, offset, data);
    forall other, from: u64, count: nat | LeadsToFile(fs, other, id, limits)
      ensures Read(next, other, from, count, limits) ==
              Ok(Slice(Overlay(Content(fs.core.device, fs.core.table.inodes[id]), offset, data), from, count))
    {
      StillLeads(fs, next, other, id, limits);
      ReadRefines(next, other, id, from, count, limits);
    }
  }

  lemma WroteBytes(core: Core, next: Core, id: u64, offset: nat, data: seq<byte>)
    requires core.device.blockSize > 0 && next.device.blockSize > 0
    requires id in core.table.inodes && id in next.table.inodes && WroteOver(core, next, id, offset, data)
    ensures Content(next.device, next.table.inodes[id]) == Overlay(Content(core.device, core.table.inodes[id]), offset, data)
  {
  }

  lemma WritePath(fs: Fs, path: text, offset: u64, data: seq<byte>, limits: Limits)
    requires Safe(fs, limits) && fs.core.superblock.blockSize > 0
    requires Write(fs, path, offset, data, limits).1.Ok?
    ensures var r := Write(fs, path, offset, data, limits).1;
            && LeadsToFile(fs, path, r.value, limits)
            && Write(fs, path, offset, data, limits) == WriteFile(fs, r.value, offset, data, limits)
  {
    hide Resolve, Safe;
    WriteFileValue(fs, path, offset, data, limits);
  }

  lemma WriteFileValue(fs: Fs, path: text, offset: u64, data: seq<byte>, limits: Limits)
    requires fs.core.superblock.blockSize > 0
    ensures forall id :: id in fs.core.table.inodes && WriteFile(fs, id, offset, data, limits).1.Ok? ==>
              WriteFile(fs, id, offset, data, limits).1.value == id
  {
    hide WriteInode, Journaled, LittleEndian;
  }

  lemma StillLeads(fs: Fs, next: Fs, path: text, id: u64, limits: Limits)
    requires LeadsToFile(fs, path, id, limits) && SamePaths(fs.core.Names(), next.core.Names())
    ensures LeadsToFile(next, path, id, limits)
  {
    SameResolve(fs.core.Names(), next.core.Names(), path, true, limits);
    hide Resolve;
    assert SameToPaths(fs.core.table.inodes[id], next.core.table.inodes[id]);
  }

  // ----- Removing -----

  /** The name at place `i` of directory `d` is not one a removal may take: it is not below the resolved
      place, and it is not the resolved name, which goes once the removal is done. */
  ghost predicate Spared(fs: Fs, path: text, done: bool, d: u64, i: int, limits: Limits)
    requires d in fs.core.dirs && 0 <= i < |fs.core.dirs[d]|
  {
    var place := Resolve(fs.core.Names(), path, fs.core.superblock.rootInode, false, limits);
    place.Ok? ==>
      && !Below(fs.core.dirs, place.value.inode, d)
      && !(done && d == place.value.parent && fs.core.dirs[d][i].Named(NormalizeName(place.value.name)))
  }

  /** Removal, recursive or not, whole or broken off: a file is still there exactly when some name of
      it is, then with the bytes it had and as many links as names; only names below the resolved
      place, and the resolved name, can go; and the blocks in use are block 0 and those of the inodes
      still there. */
  lemma RemoveFrees(fs: Fs, path: text, recursive: bool, id: u64, limits: Limits)
    requires Safe(fs, limits) && fs.core.device.blockSize > 0
    requires id in fs.core.table.inodes && fs.core.table.inodes[id].inodeType != Directory
    ensures var (next, r) := RemovePath(fs, path, recursive, limits);
            && next.core.device.blockSize > 0
            && (id in next.core.table.inodes <==> Links(next.core.dirs, id) != {})
            && (id in next.core.table.inodes ==>
                  && next.core.table.inodes[id].linkCount == |Links(next.core.dirs, id)|
                  && Content(next.core.device, next.core.table.inodes[id]) == Content(fs.core.device, fs.core.table.inodes[id]))
            && Links(next.core.dirs, id) <= Links(fs.core.dirs, id)
            && (forall d: u64, i: int :: (d, i) in Links(fs.core.dirs, id) && Spared(fs, path, r.Ok?, d, i, limits) ==>
                  (d, i) in Links(next.core.dirs, id))
            && (forall b: u64 :: b in next.core.allocation.used <==> b == 0 || HasOwner(b, next.core.table.inodes))
  {
    hide CoreInv, Safe, RemovePath, Content, TakenAway, Shrunk, TreeOk, LinksOk, OwnershipOk, StillOk, EntriesOk, Allocation.Valid, Table.Valid, Links, Spared, OnlyBelow, Resolve;
    SafeParts(fs, limits);
    RemovePathEffect(fs, path, recursive, limits);
    RemovePathFrame(fs, path, recursive, limits);
    var (next, r) := RemovePath(fs, path, recursive, limits);
    assert Shrunk(fs.core.Names(), next.core.Names());
    InvPieces(next.core, limits);
    UsedMeans(next.core.allocation.used, next.core.table.inodes);
    LinksShrunk(fs.core.Names(), next.core.Names(), id);
    LinksIn(fs.core.dirs, id);
    forall d: u64, i: int | (d, i) in Links(fs.core.dirs, id) && Spared(fs, path, r.Ok?, d, i, limits)
      ensures (d, i) in Links(next.core.dirs, id)
    {
      SparedStays(fs, next, path, r.Ok?, d, i, id, limits);
    }
    if id in next.core.table.inodes {
      StillThere(fs.core, next.core, id);
      OneName(next.core.Names(), id, limits);
      AtLeastOneLink(next.core.Names(), id, limits);
    } else {
      NoLinksToMissing(next.core.Names(), id, limits);
    }
  }

  lemma LinksIn(dirs: Dirs, id: u64)
    ensures forall d: u64, i: int :: (d, i) in Links(dirs, id) ==> d in dirs && 2 <= i < |dirs[d]|
  {
  }

  lemma LinksShrunk(before: Namespace, after: Namespace, id: u64)
    requires Shrunk(before, after)
    ensures Links(after.dirs, id) <= Links(before.dirs, id)
  {
    forall d: u64, i: int | (d, i) in Links(after.dirs, id) ensures (d, i) in Links(before.dirs, id) {
      assert Thinned(before.dirs[d], after.dirs[d]);
      assert after.dirs[d][i] == before.dirs[d][i];
    }
  }

  lemma SparedStays(fs: Fs, next: Fs, path: text, done: bool, d: u64, i: int, id: u64, limits: Limits)
    requires d in fs.core.dirs && 0 <= i < |fs.core.dirs[d]| && Spared(fs, path, done, d, i, limits)
    requires (d, i) in Links(fs.core.dirs, id)
    requires var place := Resolve(fs.core.Names(), path, fs.core.superblock.rootInode, false, limits);
             && (place.Err? ==> next == fs)
             && (place.Ok? ==> OnlyBelow(fs.core.dirs, next.core.dirs, place.value, done))
    ensures (d, i) in Links(next.core.dirs, id)
  {
    hide Resolve, Below;
    LinkMeans(fs.core.dirs, id, d, i);
    LinkMeans(next.core.dirs, id, d, i);
  }

  lemma UsedMeans(used: set<u64>, inodes: map<u64, Inode>)
    requires OwnershipOk(used, inodes)
    ensures forall b: u64 :: b in used <==> b == 0 || HasOwner(b, inodes)
  {
    hide Owned;
    forall b: u64 | HasOwner(b, inodes) ensures b in used {
      var x :| x in inodes && b in Owned(inodes[x].extents);
      assert OwnedIn(inodes[x].extents, used);
    }
  }

  lemma StillThere(core: Core, next: Core, id: u64)
    requires Shrunk(core.Names(), next.Names()) && next.device == core.device && core.device.blockSize > 0
    requires id in next.table.inodes
    ensures id in core.table.inodes && next.table.inodes[id].inodeType == core.table.inodes[id].inodeType
    ensures Content(next.device, next.table.inodes[id]) == Content(core.device, core.table.inodes[id])
  {
    assert SameFile(core.table.inodes[id], next.table.inodes[id]);
    hide ByteAt;
  }

  // ----- Renaming -----

  /** A refused rename leaves the whole filesystem as it was. */
  lemma FailedRenameChangesNothing(fs: Fs, source: text, target: text, limits: Limits)
    requires Safe(fs, limits) && RenamePath(fs, source, target, limits).1.Err?
    ensures RenamePath(fs, source, target, limits).0 == fs
  {
    hide CoreInv, Safe, Resolve, ResolveParent, RenameEntries, TreeOk, LinksOk, OwnershipOk, StillOk, Allocation.Valid, Table.Valid;
    SafeParts(fs, limits);
    InvPieces(fs.core, limits);
    var names := fs.core.Names();
    var from := Resolve(names, source, names.root, false, limits);
    var place := ResolveParent(names, target, names.root, limits);
    if from.Ok? && place.Ok? {
      ParentInTree(names, target, limits);
      FailedEntries(fs, from.value, place.value.0, place.value.1, limits);
    }
  }

  lemma FailedEntries(fs: Fs, from: ResolvedPath, parent: u64, name: text, limits: Limits)
    requires CoreInv(fs.core, limits) && parent in fs.core.dirs
    ensures RenameEntries(fs, from, parent, name, limits).1.Err? ==> RenameEntries(fs, from, parent, name, limits).0 == fs
  {
    hide CoreInv, Rename, TreeOk, LinksOk, OwnershipOk, StillOk, Allocation.Valid, Table.Valid, NameMoved;
    InvPieces(fs.core, limits);
    RenameEffect(fs.core.Names(), from.parent, from.name, parent, name, limits);
  }

  // ----- Transactions -----

  /** The operation ends the open transaction, or starts the filesystem anew. */
  predicate Closes(fs: Fs, op: Op, limits: Limits) {
    && fs.core.superblock.blockSize > 0 && (op.CommitTransaction? || op.RollbackTransaction? || op.Reformat?)
    && Step(fs, op, limits).1.Ok?
  }

  predicate StaysOpen(fs: Fs, ops: seq<Op>, limits: Limits)
    decreases |ops|
  {
    ops == [] || fs.core.superblock.blockSize == 0
    || (!Closes(fs, ops[0], limits) && StaysOpen(Step(fs, ops[0], limits).0, ops[1..], limits))
  }

  lemma StepKeepsSnapshot(fs: Fs, op: Op, limits: Limits)
    requires FsInv(fs, limits) && fs.core.superblock.blockSize > 0
    requires fs.snapshot.Some? && !Closes(fs, op, limits)
    ensures Step(fs, op, limits).0.snapshot == fs.snapshot
  {
    hide CoreInv, FsInv, MakeNode, WriteInode, LinkNode, RemovePath, Rename, Resolve, ResolveParent, Finished, Journals.LogOk, Directories.Find, LittleEndian;
    match op
    case CreateFile(path, content, mode) => CreateSnapshot(fs, path, Regular, mode, content, [], limits);
    case CreateDirectory(path, mode) => CreateSnapshot(fs, path, Directory, mode, [], [], limits);
    case CreateSymlink(target, path) => CreateSnapshot(fs, path, SymbolicLink, 511, [], target, limits);
    case HardLink(existing, path) => LinkSnapshot(fs, existing, path, limits);
    case WriteTo(path, offset, data) => WriteSnapshot(fs, path, offset, data, limits);
    case RemoveAt(path, recursive) =>
      MountedInv(fs, limits);
      RemovePathEffect(fs, path, recursive, limits);
    case RenameAt(source, target) => RenameSnapshot(fs, source, target, limits);
    case BeginTransaction =>
    case CommitTransaction =>
    case RollbackTransaction =>
    case CheckpointJournal =>
    case Reformat(options) =>
  }

  lemma JournaledSnapshot(fs: Fs, t: Journals.JournalType, target: u64, payload: seq<byte>, limits: Limits)
    ensures var next := Journaled(fs, t, target, payload, limits).0;
            next.snapshot == fs.snapshot && Finished(next, limits).snapshot == fs.snapshot
  {
    hide Core.Refreshed;
  }

  lemma CreateSnapshot(fs: Fs, path: text, inodeType: InodeType, mode: u16, content: seq<byte>, symlink: text, limits: Limits)
    requires fs.core.superblock.blockSize > 0
    ensures CreateNode(fs, path, inodeType, mode, content, symlink, limits).0.snapshot == fs.snapshot
  {
    hide MakeNode, ResolveParent, Directories.Find, Journaled, Finished;
    var names := fs.core.Names();
    var place := ResolveParent(names, path, names.root, limits);
    if place.Ok? {
      var (core, r) := MakeNode(fs.core, place.value.0, place.value.1, inodeType, mode, content, symlink, limits);
      if r.Ok? {
        JournaledSnapshot(fs.(core := core), Journals.AllocateInode, r.value, place.value.1, limits);
      }
    }
  }

  lemma WriteSnapshot(fs: Fs, path: text, offset: u64, data: seq<byte>, limits: Limits)
    requires fs.core.superblock.blockSize > 0
    ensures Write(fs, path, offset, data, limits).0.snapshot == fs.snapshot
  {
    hide WriteInode, Resolve, Journaled, Finished, LittleEndian;
    var names := fs.core.Names();
    var at := Resolve(names, path, names.root, true, limits);
    if at.Ok? && at.value.inode in names.inodes {
      var (core, r) := WriteInode(fs.core, at.value.inode, offset, data, limits);
      JournaledSnapshot(fs.(core := core), Journals.WriteData, at.value.inode,
                        LittleEndian(offset, 8) + LittleEndian(Wrap64(|data|), 8), limits);
    }
  }

  lemma LinkSnapshot(fs: Fs, existing: text, path: text, limits: Limits)
    ensures CreateHardLink(fs, existing, path, limits).0.snapshot == fs.snapshot
  {
    hide LinkNode, Resolve, ResolveParent, Core.Touched;
  }

  lemma RenameSnapshot(fs: Fs, source: text, target: text, limits: Limits)
    ensures RenamePath(fs, source, target, limits).0.snapshot == fs.snapshot
  {
    hide Rename, Resolve, ResolveParent, Core.Touched;
  }

  lemma OpenStep(fs: Fs, op: Op, limits: Limits)
    requires FsInv(fs, limits) && fs.core.superblock.blockSize > 0 && !Closes(fs, op, limits)
    ensures FsInv(Step(fs, op, limits).0, limits) && Grown(fs, Step(fs, op, limits).0)
  {
    hide Safe, Tracked, Upheld, Grown, CreateNode, Write, CreateHardLink, RemovePath, RenamePath, Begin, Commit, Rollback, Checkpoint, FormattedCore;
    assert !Clears(fs, op, limits);
    StepKeepsSafe(fs, op, limits);
    UpheldInv(fs, Step(fs, op, limits).0, limits);
  }

  lemma {:induction false} RunKeepsSnapshot(fs: Fs, ops: seq<Op>, limits: Limits)
    requires FsInv(fs, limits) && fs.snapshot.Some? && StaysOpen(fs, ops, limits)
    ensures Run(fs, ops, limits).snapshot == fs.snapshot
    ensures FsInv(Run(fs, ops, limits), limits) && Grown(fs, Run(fs, ops, limits))
    decreases |ops|
  {
    hide FsInv, Step, Grown, Closes;
    if ops != [] {
      InvPositive(fs, limits);
      var next := Step(fs, ops[0], limits).0;
      OpenStep(fs, ops[0], limits);
      StepKeepsSnapshot(fs, ops[0], limits);
      RunKeepsSnapshot(next, ops[1..], limits);
      GrownTransitive(fs, next, Run(next, ops[1..], limits));
    } else {
      GrownReflexive(fs);
    }
  }

  lemma GrownReflexive(fs: Fs)
    ensures Grown(fs, fs)
  {
    Journals.ExtendsReflexive(fs.journal);
  }

  /** A successful rollback, whatever ran since the begin without ending the transaction, restores
      superblock, device, bitmap, inodes, directories and dirty flag as they were before it, while the
      journal keeps every record written meanwhile. */
  lemma RollbackRestores(fs: Fs, ops: seq<Op>, limits: Limits)
    requires FsInv(fs, limits) && Begin(fs, limits).1.Ok?
    requires StaysOpen(Begin(fs, limits).0, ops, limits)
    requires Rollback(Run(Begin(fs, limits).0, ops, limits), limits).1.Ok?
    ensures var end := Run(Begin(fs, limits).0, ops, limits);
            var after := Rollback(end, limits).0;
            && after.core == fs.core && after.dirty == fs.dirty && after.snapshot.None? && after.mounted && !after.readOnly
            && Grown(fs, after) && Grown(end, after) && after.journal.active == 0
  {
    hide FsInv, Safe, Tracked, Upheld, Journals.LogOk, Step, Run, StaysOpen, Grown, Begin, Rollback;
    var begun := Begin(fs, limits).0;
    MountedInv(fs, limits);
    BeginStep(fs, limits);
    UpheldInv(fs, begun, limits);
    BegunSnapshot(fs, limits);
    RunKeepsSnapshot(begun, ops, limits);
    var end := Run(begun, ops, limits);
    MountedInv(end, limits);
    RollbackStep(end, limits);
    var after := Rollback(end, limits).0;
    UpheldInv(end, after, limits);
    RolledBack(end, limits);
    MountedInv(after, limits);
    GrownTransitive(fs, begun, end);
    GrownTransitive(fs, end, after);
  }

  lemma RolledBack(fs: Fs, limits: Limits)
    requires fs.snapshot.Some? && Rollback(fs, limits).1.Ok?
    ensures var after := Rollback(fs, limits).0;
            && after.core == fs.snapshot.value.core && after.dirty == fs.snapshot.value.dirty
            && after.snapshot.None? && after.journal.active == 0
  {
  }

  lemma BegunSnapshot(fs: Fs, limits: Limits)
    requires Begin(fs, limits).1.Ok?
    ensures Begin(fs, limits).0.snapshot == Some(Saved(fs.core, fs.dirty))
  {
  }

  // ----- An open transaction without a snapshot -----

  /** The journal has an open transaction that nothing can end: what mounting an image made inside a
      transaction leads to. */
  predicate Stuck(fs: Fs) {
    fs.snapshot.None? && fs.journal.active != 0
  }

  /** Then every begin, commit, rollback and checkpoint is refused and changes nothing, and it stays so
      through every call but a format. */
  lemma StepKeepsStuck(fs: Fs, op: Op, limits: Limits)
    requires Safe(fs, limits) && Stuck(fs) && fs.core.superblock.blockSize > 0
    ensures op.BeginTransaction? || op.CommitTransaction? || op.RollbackTransaction? || op.CheckpointJournal? ==>
              Step(fs, op, limits).1.Err? && Step(fs, op, limits).0 == fs
    ensures !op.Reformat? ==> Stuck(Step(fs, op, limits).0)
  {
    hide CoreInv, Safe, MakeNode, WriteInode, LinkNode, RemovePath, Rename, Resolve, ResolveParent, Finished, Directories.Find, LittleEndian;
    match op
    case CreateFile(path, content, mode) => CreateStuck(fs, path, Regular, mode, content, [], limits);
    case CreateDirectory(path, mode) => CreateStuck(fs, path, Directory, mode, [], [], limits);
    case CreateSymlink(target, path) => CreateStuck(fs, path, SymbolicLink, 511, [], target, limits);
    case HardLink(existing, path) =>
    case WriteTo(path, offset, data) => WriteStuck(fs, path, offset, data, limits);
    case RemoveAt(path, recursive) =>
      SafeParts(fs, limits);
      RemovePathEffect(fs, path, recursive, limits);
    case RenameAt(source, target) =>
    case BeginTransaction =>
    case CommitTransaction =>
    case RollbackTransaction =>
    case CheckpointJournal =>
    case Reformat(options) =>
  }

  lemma JournaledStuck(fs: Fs, t: Journals.JournalType, target: u64, payload: seq<byte>, limits: Limits)
    requires Stuck(fs)
    ensures Stuck(Journaled(fs, t, target, payload, limits).0) && Stuck(Finished(Journaled(fs, t, target, payload, limits).0, limits))
  {
    hide Core.Refreshed;
  }

  lemma CreateStuck(fs: Fs, path: text, inodeType: InodeType, mode: u16, content: seq<byte>, symlink: text, limits: Limits)
    requires Stuck(fs) && fs.core.superblock.blockSize > 0
    ensures Stuck(CreateNode(fs, path, inodeType, mode, content, symlink, limits).0)
  {
    hide MakeNode, ResolveParent, Directories.Find, Journaled, Finished;
    var names := fs.core.Names();
    var place := ResolveParent(names, path, names.root, limits);
    if place.Ok? {
      var (core, r) := MakeNode(fs.core, place.value.0, place.value.1, inodeType, mode, content, symlink, limits);
      if r.Ok? {
        JournaledStuck(fs.(core := core), Journals.AllocateInode, r.value, place.value.1, limits);
      }
    }
  }

  lemma WriteStuck(fs: Fs, path: text, offset: u64, data: seq<byte>, limits: Limits)
    requires Stuck(fs) && fs.core.superblock.blockSize > 0
    ensures Stuck(Write(fs, path, offset, data, limits).0)
  {
    hide WriteInode, Resolve, Journaled, Finished, LittleEndian;
    var names := fs.core.Names();
    var at := Resolve(names, path, names.root, true, limits);
    if at.Ok? && at.value.inode in names.inodes {
      var (core, r) := WriteInode(fs.core, at.value.inode, offset, data, limits);
      JournaledStuck(fs.(core := core), Journals.WriteData, at.value.inode,
                     LittleEndian(offset, 8) + LittleEndian(Wrap64(|data|), 8), limits);
    }
  }

  lemma {:induction false} RunKeepsStuck(fs: Fs, ops: seq<Op>, limits: Limits)
    requires Safe(fs, limits) && Stuck(fs) && Formats(ops) == 0
    ensures Stuck(Run(fs, ops, limits))
    decreases |ops|
  {
    hide Safe, Step, Stuck, Upheld;
    if ops != [] {
      StepKeepsSafe(fs, ops[0], limits);
      StepKeepsStuck(fs, ops[0], limits);
      RunKeepsStuck(Step(fs, ops[0], limits).0, ops[1..], limits);
    }
  }

  // ----- What holds at the end of every run -----

  /** Nothing is leaked or owned twice: the allocated blocks are block 0 and, each with exactly one
      owner, the blocks of the inodes' extents. */
  lemma OwnershipInRuns(options: FormatOptions, ops: seq<Op>, limits: Limits)
    requires Format(UNFORMATTED, options, limits).1.Ok?
    ensures var core := FromFormat(options, ops, limits).core;
            var inodes := core.table.inodes;
            && (forall b: u64 :: b in core.allocation.used <==> b == 0 || HasOwner(b, inodes))
            && (forall id, b: int :: id in inodes && b in Owned(inodes[id].extents) ==> 0 < b < core.superblock.blockCount)
            && (forall a, b :: a in inodes && b in inodes && a != b ==> Owned(inodes[a].extents) !! Owned(inodes[b].extents))
            && (forall id :: id in inodes ==> PhysicallyDisjoint(inodes[id].extents))
  {
    hide CoreInv, Safe, FsInv, FromFormat, TreeOk, LinksOk, OwnershipOk, StillOk, Allocation.Valid, Table.Valid, Owned, PhysicallyDisjoint;
    RunsAreSafe(options, ops, limits);
    var core := FromFormat(options, ops, limits).core;
    SafeParts(FromFormat(options, ops, limits), limits);
    InvPieces(core, limits);
    UsedMeans(core.allocation.used, core.table.inodes);
    OwnersDisjoint(core.allocation.used, core.table.inodes);
    forall id | id in core.table.inodes
      ensures PhysicallyDisjoint(core.table.inodes[id].extents)
      ensures forall b: int :: b in Owned(core.table.inodes[id].extents) ==> 0 < b < core.superblock.blockCount
    {
      ExtentsSound(core, id, limits);
      FileFits(core, id, limits);
      forall b: int | b in Owned(core.table.inodes[id].extents) ensures b < core.superblock.blockCount && 0 <= b {
        OwnedInRange(core.table.inodes[id].extents, core.superblock.blockCount, b);
      }
      NeverBlockZero(core.allocation.used, core.table.inodes, id);
    }
  }

  lemma OwnersDisjoint(used: set<u64>, inodes: map<u64, Inode>)
    requires OwnershipOk(used, inodes)
    ensures forall a, b :: a in inodes && b in inodes && a != b ==> Owned(inodes[a].extents) !! Owned(inodes[b].extents)
  {
    hide Owned;
  }

  lemma NeverBlockZero(used: set<u64>, inodes: map<u64, Inode>, id: u64)
    requires OwnershipOk(used, inodes) && id in inodes
    ensures 0 !in Owned(inodes[id].extents)
  {
    hide Owned;
  }

  /** A regular file or symbolic link counts exactly the names that lead to it, at least one. */
  lemma LinkCountsInRuns(options: FormatOptions, ops: seq<Op>, id: u64, limits: Limits)
    requires Format(UNFORMATTED, options, limits).1.Ok?
    requires id in FromFormat(options, ops, limits).core.table.inodes
    requires FromFormat(options, ops, limits).core.table.inodes[id].inodeType != Directory
    ensures var core := FromFormat(options, ops, limits).core;
            core.table.inodes[id].linkCount == |Links(core.dirs, id)| >= 1
  {
    hide CoreInv, Safe, FsInv, FromFormat, TreeOk, LinksOk, OwnershipOk, StillOk, Allocation.Valid, Table.Valid, Links;
    RunsAreSafe(options, ops, limits);
    var core := FromFormat(options, ops, limits).core;
    SafeParts(FromFormat(options, ops, limits), limits);
    InvPieces(core, limits);
    OneName(core.Names(), id, limits);
    AtLeastOneLink(core.Names(), id, limits);
  }

  /** In every run a resolved path has a canonical form that leads to the same inode by lookups. */
  lemma CanonicalInRuns(options: FormatOptions, ops: seq<Op>, path: text, follow: bool, limits: Limits)
    requires Format(UNFORMATTED, options, limits).1.Ok?
    requires var names := FromFormat(options, ops, limits).core.Names();
             ResolveCursor(names, path, names.root, follow, limits).Ok?
    ensures var names := FromFormat(options, ops, limits).core.Names();
            OnPath(names, ResolveCursor(names, path, names.root, follow, limits).value)
  {
    hide CoreInv, Safe, FsInv, FromFormat, TreeOk, LinksOk, OwnershipOk, StillOk, Allocation.Valid, Table.Valid, ResolveCursor, OnPath, ParentsAgree;
    RunsAreSafe(options, ops, limits);
    var core := FromFormat(options, ops, limits).core;
    SafeParts(FromFormat(options, ops, limits), limits);
    InvPieces(core, limits);
    TreeParentsAgree(core.Names(), limits);
    CanonicalLeadsThere(core.Names(), path, follow, limits);
  }

  /** As long as the journal's counters last, a snapshot exists exactly while a journal transaction is
      open, and the journal reloads: records and open transaction always, and its counters as well in a
      run without another format. */
  lemma JournalInRuns(options: FormatOptions, ops: seq<Op>, limits: Limits)
    requires Format(UNFORMATTED, options, limits).1.Ok? && CountersLast(ops, limits)
    ensures var fs := FromFormat(options, ops, limits);
            && (fs.snapshot.Some? <==> fs.journal.active != 0)
            && Journals.Load(fs.journal.records, limits) == Ok(Journals.Reloaded(fs.journal))
            && (Formats(ops) == 0 ==> Journals.Reloaded(fs.journal) == fs.journal)
  {
    hide CoreInv, Safe, FromFormat, Journals.LogOk, Journals.Load, LegalTypes, Journals.Reloaded, Formats, Journals.Extends, CountersLast, Format;
    RunsAreSafe(options, ops, limits);
    var fs := FromFormat(options, ops, limits);
    Journals.LogReloads(fs.journal, limits);
    Journals.ReloadedLogOk(fs.journal, limits);
    if Formats(ops) == 0 {
      FreshStart(options, limits);
      RunKeepsNumbers(Format(UNFORMATTED, options, limits).0, ops, limits);
      RunIs(options, ops, limits);
    }
  }

  lemma RunIs(options: FormatOptions, ops: seq<Op>, limits: Limits)
    ensures FromFormat(options, ops, limits) == Run(Format(UNFORMATTED, options, limits).0, ops, limits)
  {
    hide Run, Format;
  }

  lemma {:induction false} RunKeepsNumbers(fs: Fs, ops: seq<Op>, limits: Limits)
    requires FsInv(fs, limits) && Formats(ops) == 0
    ensures Journals.FirstSequence(Run(fs, ops, limits).journal) == Journals.FirstSequence(fs.journal)
    ensures Journals.FirstTransaction(Run(fs, ops, limits).journal) == Journals.FirstTransaction(fs.journal)
    decreases |ops|
  {
    hide FsInv, Safe, Tracked, Upheld, Step, Journals.Extends, Journals.FirstSequence, Journals.FirstTransaction;
    if ops != [] {
      InvPositive(fs, limits);
      MountedInv(fs, limits);
      var next := Step(fs, ops[0], limits).0;
      StepKeepsSafe(fs, ops[0], limits);
      UpheldInv(fs, next, limits);
      Journals.ExtendsFirsts(fs.journal, next.journal);
      RunKeepsNumbers(next, ops[1..], limits);
    }
  }
}
