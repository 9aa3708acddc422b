/** Every run from a format, each call succeeding or failing, keeps the invariant. */
module FsRuns {
  import opened Base
  import opened Bytes
  import opened Devices
  import opened Allocators
  import opened Inodes
  import opened InodeTables
  import opened Directories
  import opened Paths
  import opened PathTheorems
  import opened Trees
  import opened TreeOps
  import opened PathStability
  import Journals
  import opened FileData
  import opened FileBytes
  import opened FileWrites
  import opened FsModel
  import opened FsInvariant
  import opened FsCreate
  import opened FsRemove
  import opened FsRemovePath
  import opened FsNodes
  import opened FsRename

  // ----- Operations and runs -----

  datatype Op =
    | CreateFile(path: text, content: seq<byte>, mode: u16)
    | CreateDirectory(path: text, mode: u16)
    | CreateSymlink(target: text, path: text)
    | HardLink(existing: text, path: text)
    | WriteTo(path: text, offset: u64, data: seq<byte>)
    | RemoveAt(path: text, recursive: bool)
    | RenameAt(source: text, target: text)
    | BeginTransaction
    | CommitTransaction
    | RollbackTransaction
    | CheckpointJournal
    | Reformat(options: FormatOptions)

  function Unit(r: (Fs, Result<()>)): (Fs, Result<u64>) {
    (r.0, if r.1.Ok? then Ok(0) else Err(r.1.code))
  }

  function Step(fs: Fs, op: Op, limits: Limits): (Fs, Result<u64>)
    requires fs.core.superblock.blockSize > 0
  {
    match op
    case CreateFile(path, content, mode) => CreateNode(fs, path, Regular, mode, content, [], limits)
    case CreateDirectory(path, mode) => CreateNode(fs, path, Directory, mode, [], [], limits)
    case CreateSymlink(target, path) => CreateNode(fs, path, SymbolicLink, 511, [], target, limits)
    case HardLink(existing, path) => CreateHardLink(fs, existing, path, limits)
    case WriteTo(path, offset, data) => Write(fs, path, offset, data, limits)
    case RemoveAt(path, recursive) => RemovePath(fs, path, recursive, limits)
    case RenameAt(source, target) => RenamePath(fs, source, target, limits)
    case BeginTransaction => Unit(Begin(fs, limits))
    case CommitTransaction => Unit(Commit(fs, limits))
    case RollbackTransaction => Unit(Rollback(fs, limits))
    case CheckpointJournal => Unit(Checkpoint(fs, limits))
    case Reformat(options) => Unit(Format(fs, options, limits))
  }

  // ----- The invariant of a mounted filesystem -----

  /** Files, names, blocks and links are in order, now and in the state a rollback would restore. */
  ghost predicate Safe(fs: Fs, limits: Limits) {
    && CoreInv(fs.core, limits)
    && fs.mounted && !fs.readOnly
    && (fs.snapshot.Some? ==> CoreInv(fs.snapshot.value.core, limits))
  }

  /** The journal is in order, and there is a snapshot exactly while a transaction is open. */
  ghost predicate Tracked(fs: Fs, limits: Limits) {
    && Journals.LogOk(fs.journal, limits) && LegalTypes(fs.journal)
    && (fs.snapshot.Some? <==> fs.journal.active != 0)
  }

  ghost predicate FsInv(fs: Fs, limits: Limits) {
    Safe(fs, limits) && Tracked(fs, limits)
  }

  /** Only the record types the source names. */
  predicate LegalTypes(log: Journals.Log) {
    forall i :: 0 <= i < |log.records| ==> !log.records[i].recordType.OtherRecord?
  }

  lemma SafePositive(fs: Fs, limits: Limits)
    requires Safe(fs, limits)
    ensures fs.core.superblock.blockSize > 0 && fs.core.device.blockSize == fs.core.superblock.blockSize
  {
    BlockSizePositive(fs.core, limits);
  }

  lemma InvPositive(fs: Fs, limits: Limits)
    requires FsInv(fs, limits)
    ensures fs.core.superblock.blockSize > 0 && fs.core.device.blockSize == fs.core.superblock.blockSize
  {
    hide Safe;
    SafePositive(fs, limits);
  }

  lemma SafeParts(fs: Fs, limits: Limits)
    requires Safe(fs, limits)
    ensures CoreInv(fs.core, limits) && fs.mounted && !fs.readOnly
  {
  }

  lemma MountedInv(fs: Fs, limits: Limits)
    requires FsInv(fs, limits)
    ensures CoreInv(fs.core, limits) && fs.mounted && !fs.readOnly && Safe(fs, limits) && Tracked(fs, limits)
  {
  }

  /** What a call keeps: the files are in order in any case, and the journal, if it was, only grew. */
  ghost predicate Upheld(fs: Fs, next: Fs, limits: Limits) {
    Safe(next, limits) && (Tracked(fs, limits) ==> Tracked(next, limits) && Grown(fs, next))
  }

  /** Journal records are never taken back, and its numbers go on. */
  ghost predicate Grown(fs: Fs, next: Fs) {
    Journals.Extends(fs.journal, next.journal)
  }

  lemma GrownTransitive(a: Fs, b: Fs, c: Fs)
    requires Grown(a, b) && Grown(b, c)
    ensures Grown(a, c)
  {
    hide Journals.Extends;
    Journals.ExtendsTransitive(a.journal, b.journal, c.journal);
  }

  lemma UpheldTransitive(a: Fs, b: Fs, c: Fs, limits: Limits)
    requires Upheld(a, b, limits) && Upheld(b, c, limits)
    ensures Upheld(a, c, limits)
  {
    hide Safe, Tracked, Grown;
    if Tracked(a, limits) {
      GrownTransitive(a, b, c);
    }
  }

  lemma UpheldReflexive(fs: Fs, limits: Limits)
    requires Safe(fs, limits)
    ensures Upheld(fs, fs, limits)
  {
    hide Safe, Tracked, Journals.Extends;
    Journals.ExtendsReflexive(fs.journal);
  }

  lemma UpheldInv(fs: Fs, next: Fs, limits: Limits)
    requires FsInv(fs, limits) && Upheld(fs, next, limits)
    ensures FsInv(next, limits) && Grown(fs, next)
  {
    hide Safe, Tracked, Grown;
  }

  /** A change to the core alone. */
  lemma CoreStep(fs: Fs, core: Core, dirty: bool, limits: Limits)
    requires Safe(fs, limits) && CoreInv(core, limits)
    ensures Upheld(fs, fs.(core := core, dirty := dirty), limits)
  {
    hide CoreInv, Journals.LogOk, Journals.Extends;
    Journals.ExtendsReflexive(fs.journal);
  }

  lemma FinishedStep(fs: Fs, limits: Limits)
    requires Safe(fs, limits)
    ensures Upheld(fs, Finished(fs, limits), limits)
  {
    FinishedLeft(fs, limits);
    hide CoreInv, Shrunk, Journals.LogOk, Journals.Extends, Finished;
    CoreStep(fs, Finished(fs, limits).core, Finished(fs, limits).dirty, limits);
  }

  lemma TouchedInv(core: Core, limits: Limits)
    requires CoreInv(core, limits)
    ensures CoreInv(core.Touched(), limits)
  {
    hide CoreInv;
    CountersOf(core, limits);
    SuperblockChange(core, core.Touched().superblock, limits);
  }

  /** Writing to the journal while a transaction is open. */
  lemma JournaledStep(fs: Fs, t: Journals.JournalType, target: u64, payload: seq<byte>, limits: Limits)
    requires Safe(fs, limits) && !t.OtherRecord?
    ensures var (next, j) := Journaled(fs, t, target, payload, limits);
            Upheld(fs, next, limits) && next == fs.(journal := next.journal)
  {
    hide CoreInv, Journals.LogOk, Journals.Extends;
    UpheldReflexive(fs, limits);
    if Tracked(fs, limits) && fs.journal.active != 0 && fs.journal.Append(limits, t, target, payload).Ok? {
      Journals.AttemptKeepsLogOk(fs.journal, Journals.OpAppend(t, target, payload), limits);
    }
  }

  // ----- format -----

  lemma RootAlone(limits: Limits)
    requires limits.maxInodes >= 1
    ensures var ns := Namespace(map[1 := FreshInode(1, Directory, 493)], map[1 := Dots(1, 1)], 1);
            TreeOk(ns, limits) && LinksOk(ns)
  {
    DotsTable(1, 1, limits);
    hide TableOk;
    var ns := Namespace(map[1 := FreshInode(1, Directory, 493)], map[1 := Dots(1, 1)], 1);
    forall d: u64, i ensures (d, i) !in Links(ns.dirs, 1) {
      LinkMeans(ns.dirs, 1, d, i);
    }
    assert Links(ns.dirs, 1) == {};
  }

  lemma FormattedStore(options: FormatOptions, limits: Limits)
    requires FormatAccepted(options, limits) && Geometry(limits, options.blockSize)
    requires options.blockSize * options.blockCount <= limits.maxImageBytes
    ensures StoreOk(FormattedCore(options).Files(), FormattedCore(options).superblock)
  {
    hide PowerOfTwo, Allocation.Free, Device.BlockCount, Dots;
    MulMonotone(options.blockSize, 0, options.blockCount);
    var device := FormattedCore(options).device;
    assert |device.bytes| == options.blockCount * options.blockSize;
    BlockCountIs(device, options.blockCount);
  }

  lemma BlockCountIs(device: Device, count: nat)
    requires device.blockSize > 0 && |device.bytes| == count * device.blockSize
    ensures device.BlockCount() == count
  {
    DivModUnique(count, 0, device.blockSize);
  }

  lemma FormattedInv(options: FormatOptions, limits: Limits)
    requires FormatAccepted(options, limits) && Geometry(limits, options.blockSize)
    requires options.blockSize * options.blockCount <= limits.maxImageBytes
    ensures CoreInv(FormattedCore(options), limits)
  {
    var core := FormattedCore(options);
    FormattedStore(options, limits);
    FormattedCounters(options, limits);
    RootAlone(limits);
    assert core.Names() == Namespace(map[1 := FreshInode(1, Directory, 493)], map[1 := Dots(1, 1)], 1);
    RootOwnership(options.blockCount, limits);
    hide TreeOk, LinksOk, StoreOk, Allocation.Free, OwnershipOk, Table.Valid, Owned, CountersOk;
  }

  lemma FormattedCounters(options: FormatOptions, limits: Limits)
    requires FormatAccepted(options, limits)
    ensures CountersOk(FormattedCore(options).superblock, limits)
  {
    hide Allocation.Free, Geometry, Dots, Zeros;
    FormattedFree(options.blockCount);
  }

  lemma FormattedFree(blockCount: u64)
    ensures |Allocation(blockCount, {0}, 0).Free()| <= blockCount
  {
    hide Allocation.FreeFrom, UsedFrom;
    FreeCount(Allocation(blockCount, {0}, 0), 0);
  }

  lemma RootOwnership(blockCount: u64, limits: Limits)
    requires limits.maxInodes >= 1
    ensures OwnershipOk({0}, map[1 := FreshInode(1, Directory, 493)])
    ensures Table(map[1 := FreshInode(1, Directory, 493)], 2).Valid(limits)
  {
    assert Owned([]) == {};
  }

  /** An accepted format makes files and names safe, whatever the object held before; and the journal
      is in order if its counters, which go on, leave room for another journal. */
  lemma FormatEstablishes(fs: Fs, options: FormatOptions, limits: Limits)
    requires Format(fs, options, limits).1.Ok?
    ensures Safe(Format(fs, options, limits).0, limits)
    ensures Journals.CanStart(fs.journal, limits) ==> FsInv(Format(fs, options, limits).0, limits)
  {
    FormattedInv(options, limits);
    hide CoreInv, Journals.LogOk;
    if Journals.CanStart(fs.journal, limits) {
      Journals.ClearedLogOk(fs.journal, limits);
    }
  }

  // ----- One step -----

  lemma ParentInTree(ns: Namespace, path: text, limits: Limits)
    requires TreeOk(ns, limits) && ResolveParent(ns, path, ns.root, limits).Ok?
    ensures ResolveParent(ns, path, ns.root, limits).value.0 in ns.dirs
  {
    hide Resolve;
    TreeRoot(ns, limits);
    hide TreeOk;
  }

  /** Journal entry and bookkeeping after a change to the core. */
  lemma JournaledEnd(fs: Fs, core: Core, t: Journals.JournalType, target: u64, payload: seq<byte>, limits: Limits)
    requires Safe(fs, limits) && CoreInv(core, limits) && !t.OtherRecord?
    ensures var (next, j) := Journaled(fs.(core := core), t, target, payload, limits);
            Upheld(fs, next, limits) && Upheld(fs, Finished(next, limits), limits)
  {
    hide CoreInv, Safe, Upheld, Journaled, Finished;
    var start := fs.(core := core);
    CoreStep(fs, core, fs.dirty, limits);
    UpheldSafe(fs, start, limits);
    JournaledStep(start, t, target, payload, limits);
    var (next, j) := Journaled(start, t, target, payload, limits);
    UpheldTransitive(fs, start, next, limits);
    UpheldSafe(start, next, limits);
    FinishedStep(next, limits);
    UpheldTransitive(fs, next, Finished(next, limits), limits);
  }

  lemma UpheldSafe(fs: Fs, next: Fs, limits: Limits)
    requires Upheld(fs, next, limits)
    ensures Safe(next, limits)
  {
  }

  lemma CreateAtStep(fs: Fs, parent: u64, name: text, inodeType: InodeType, mode: u16, content: seq<byte>, symlink: text, limits: Limits)
    requires Safe(fs, limits) && inodeType.Usable() && parent in fs.core.dirs && fs.core.superblock.blockSize > 0
    ensures Upheld(fs, CreateAt(fs, parent, name, inodeType, mode, content, symlink, limits).0, limits)
  {
    hide CoreInv, Safe, Upheld, MakeNode, Journaled, Finished, Made, FilesKept, SameNames;
    SafeParts(fs, limits);
    MakeNodeEffect(fs.core, parent, name, inodeType, mode, content, symlink, limits);
    var (core, r) := MakeNode(fs.core, parent, name, inodeType, mode, content, symlink, limits);
    CoreStep(fs, core, fs.dirty, limits);
    if r.Ok? {
      JournaledEnd(fs, core, Journals.AllocateInode, r.value, name, limits);
    }
  }

  lemma CreateStep(fs: Fs, path: text, inodeType: InodeType, mode: u16, content: seq<byte>, symlink: text, limits: Limits)
    requires Safe(fs, limits) && inodeType.Usable()
    ensures fs.core.superblock.blockSize > 0
    ensures Upheld(fs, CreateNode(fs, path, inodeType, mode, content, symlink, limits).0, limits)
  {
    hide CoreInv, TreeOk, LinksOk, OwnershipOk, StillOk, EntriesOk, Allocation.Valid, Table.Valid, ResolveParent, Safe, Upheld, CreateAt, Directories.Find;
    SafePositive(fs, limits);
    SafeParts(fs, limits);
    UpheldReflexive(fs, limits);
    InvPieces(fs.core, limits);
    var names := fs.core.Names();
    var place := ResolveParent(names, path, names.root, limits);
    if place.Ok? {
      ParentInTree(names, path, limits);
      CreateAtStep(fs, place.value.0, place.value.1, inodeType, mode, content, symlink, limits);
    }
  }

  lemma WriteFileStep(fs: Fs, id: u64, offset: u64, data: seq<byte>, limits: Limits)
    requires Safe(fs, limits) && fs.core.superblock.blockSize > 0
    requires id in fs.core.table.inodes && fs.core.table.inodes[id].inodeType == Regular
    ensures Upheld(fs, WriteFile(fs, id, offset, data, limits).0, limits)
  {
    hide CoreInv, Safe, Upheld, WriteInode, Journaled, Finished, Content, SameTypes, LittleEndian;
    SafeParts(fs, limits);
    WriteInodeKeepsInv(fs.core, id, offset, data, limits);
    var (core, r) := WriteInode(fs.core, id, offset, data, limits);
    CoreStep(fs, core, fs.dirty, limits);
    JournaledEnd(fs, core, Journals.WriteData, id, LittleEndian(offset, 8) + LittleEndian(Wrap64(|data|), 8), limits);
  }

  lemma WriteStep(fs: Fs, path: text, offset: u64, data: seq<byte>, limits: Limits)
    requires Safe(fs, limits)
    ensures fs.core.superblock.blockSize > 0
    ensures Upheld(fs, Write(fs, path, offset, data, limits).0, limits)
  {
    hide CoreInv, Resolve, Safe, Upheld, WriteFile;
    SafePositive(fs, limits);
    UpheldReflexive(fs, limits);
    var names := fs.core.Names();
    var place := Resolve(names, path, names.root, true, limits);
    if place.Ok? && place.value.inode in names.inodes && names.inodes[place.value.inode].inodeType == Regular {
      WriteFileStep(fs, place.value.inode, offset, data, limits);
    }
  }

  lemma LinkStep(fs: Fs, existing: text, path: text, limits: Limits)
    requires Safe(fs, limits)
    ensures Upheld(fs, CreateHardLink(fs, existing, path, limits).0, limits)
  {
    hide CoreInv, NameAdded, Resolve, ResolveParent, LinkNode, Safe, Upheld, Directories.Find, Core.Touched, NewEntry;
    SafeParts(fs, limits);
    UpheldReflexive(fs, limits);
    var names := fs.core.Names();
    var source := Resolve(names, existing, names.root, false, limits);
    var place := ResolveParent(names, path, names.root, limits);
    if source.Ok? && source.value.inode in names.inodes && place.Ok? {
      var id := source.value.inode;
      if names.inodes[id].inodeType != Directory && names.inodes[id].linkCount < limits.maxHardLinks {
        var (parent, name) := place.value;
        LinkNodeEffect(fs.core, id, parent, name, limits);
        var r := LinkNode(fs.core, id, parent, name, limits);
        if r.Ok? {
          TouchedInv(r.value, limits);
          CoreStep(fs, r.value.Touched(), true, limits);
        }
      }
    }
  }

  lemma RemoveStep(fs: Fs, path: text, recursive: bool, limits: Limits)
    requires Safe(fs, limits)
    ensures Upheld(fs, RemovePath(fs, path, recursive, limits).0, limits)
  {
    hide CoreInv, RemovePath, Safe, Upheld, TakenAway, Shrunk;
    SafeParts(fs, limits);
    RemovePathEffect(fs, path, recursive, limits);
    var next := RemovePath(fs, path, recursive, limits).0;
    CoreStep(fs, next.core, next.dirty, limits);
  }

  lemma RenameCore(core: Core, source: u64, sourceName: text, target: u64, targetName: text, limits: Limits)
    requires CoreInv(core, limits) && target in core.dirs
    ensures CoreInv(core.(dirs := Rename(core.dirs, source, sourceName, target, targetName, limits).0), limits)
  {
    hide CoreInv, EntriesOk, Rename, TreeOk, LinksOk, OwnershipOk, StillOk, Allocation.Valid, Table.Valid, NameMoved;
    InvPieces(core, limits);
    RenameEffect(core.Names(), source, sourceName, target, targetName, limits);
    var next := core.(dirs := Rename(core.dirs, source, sourceName, target, targetName, limits).0);
    assert next.Names() == core.Names().(dirs := next.dirs);
    InvAfterDrop(core, next, limits);
  }

  lemma RenameEntriesStep(fs: Fs, from: ResolvedPath, parent: u64, name: text, limits: Limits)
    requires Safe(fs, limits) && parent in fs.core.dirs
    ensures Upheld(fs, RenameEntries(fs, from, parent, name, limits).0, limits)
  {
    hide CoreInv, Safe, Upheld, Rename, Core.Touched;
    SafeParts(fs, limits);
    RenameCore(fs.core, from.parent, from.name, parent, name, limits);
    var core := fs.core.(dirs := Rename(fs.core.dirs, from.parent, from.name, parent, name, limits).0);
    CoreStep(fs, core, fs.dirty, limits);
    TouchedInv(core, limits);
    CoreStep(fs, core.Touched(), true, limits);
  }

  lemma RenameStep(fs: Fs, source: text, target: text, limits: Limits)
    requires Safe(fs, limits)
    ensures Upheld(fs, RenamePath(fs, source, target, limits).0, limits)
  {
    hide CoreInv, Resolve, ResolveParent, Safe, Upheld, RenameEntries, TreeOk, LinksOk, OwnershipOk, StillOk, EntriesOk, Allocation.Valid, Table.Valid;
    SafeParts(fs, limits);
    UpheldReflexive(fs, limits);
    InvPieces(fs.core, limits);
    var names := fs.core.Names();
    var from := Resolve(names, source, names.root, false, limits);
    var place := ResolveParent(names, target, names.root, limits);
    if from.Ok? && place.Ok? {
      ParentInTree(names, target, limits);
      RenameEntriesStep(fs, from.value, place.value.0, place.value.1, limits);
    }
  }

  lemma BeginStep(fs: Fs, limits: Limits)
    requires Safe(fs, limits)
    ensures Upheld(fs, Begin(fs, limits).0, limits)
  {
    hide CoreInv, Journals.LogOk, Journals.Extends;
    UpheldReflexive(fs, limits);
    if Tracked(fs, limits) && fs.journal.Begin(limits).Ok? {
      NextTransaction(fs.journal, limits);
      Journals.AttemptKeepsLogOk(fs.journal, Journals.OpBegin, limits);
    }
  }

  lemma NextTransaction(log: Journals.Log, limits: Limits)
    requires Journals.LogOk(log, limits)
    ensures log.nextTransaction >= 1
  {
    hide Journals.Bracketed, Journals.LoadFrom;
  }

  lemma CommitStep(fs: Fs, limits: Limits)
    requires Safe(fs, limits)
    ensures Upheld(fs, Commit(fs, limits).0, limits)
  {
    hide CoreInv, Journals.LogOk, Journals.Extends, Finished;
    UpheldReflexive(fs, limits);
    if fs.journal.Commit(limits).Ok? {
      var closed := fs.(journal := fs.journal.Commit(limits).value, snapshot := None);
      if Tracked(fs, limits) {
        Journals.AttemptKeepsLogOk(fs.journal, Journals.OpCommit, limits);
      }
      assert Upheld(fs, closed, limits);
      hide Safe, Tracked, Grown;
      UpheldSafe(fs, closed, limits);
      FinishedStep(closed, limits);
      UpheldTransitive(fs, closed, Finished(closed, limits), limits);
    }
  }

  lemma RollbackStep(fs: Fs, limits: Limits)
    requires Safe(fs, limits)
    ensures Upheld(fs, Rollback(fs, limits).0, limits)
  {
    hide CoreInv, Journals.LogOk, Journals.Extends;
    UpheldReflexive(fs, limits);
    if Tracked(fs, limits) && fs.journal.Rollback(limits).Ok? {
      Journals.AttemptKeepsLogOk(fs.journal, Journals.OpRollback, limits);
    }
  }

  lemma CheckpointStep(fs: Fs, limits: Limits)
    requires Safe(fs, limits)
    ensures Upheld(fs, Checkpoint(fs, limits).0, limits)
  {
    hide CoreInv, Journals.LogOk, Journals.Extends;
    UpheldReflexive(fs, limits);
    if fs.journal.Checkpoint(limits).Ok? {
      if Tracked(fs, limits) {
        Journals.AttemptKeepsLogOk(fs.journal, Journals.OpCheckpoint, limits);
      }
      CountersOf(fs.core, limits);
      SuperblockChange(fs.core, fs.core.superblock.(journalSequence := Wrap64(fs.journal.Checkpoint(limits).value.nextSequence - 1)), limits);
    }
  }

  /** The call starts a new journal. */
  predicate Clears(fs: Fs, op: Op, limits: Limits) {
    op.Reformat? && Format(fs, op.options, limits).1.Ok?
  }

  /** Every call, successful or refused, keeps files and names safe. But for a format it keeps the
      journal in order and takes no record back. */
  lemma StepKeepsSafe(fs: Fs, op: Op, limits: Limits)
    requires Safe(fs, limits)
    ensures fs.core.superblock.blockSize > 0
    ensures Safe(Step(fs, op, limits).0, limits)
    ensures !Clears(fs, op, limits) ==> Upheld(fs, Step(fs, op, limits).0, limits)
  {
    hide Safe, Upheld, CreateNode, Write, CreateHardLink, RemovePath, RenamePath, Begin, Commit, Rollback, Checkpoint, FormattedCore, Geometry;
    SafePositive(fs, limits);
    if op.Reformat? {
      FormatStep(fs, op.options, limits);
    } else {
      NamedStep(fs, op, limits);
      UpheldSafe(fs, Step(fs, op, limits).0, limits);
    }
  }

  lemma FormatStep(fs: Fs, options: FormatOptions, limits: Limits)
    requires Safe(fs, limits)
    ensures Safe(Format(fs, options, limits).0, limits)
    ensures Format(fs, options, limits).1.Err? ==> Upheld(fs, Format(fs, options, limits).0, limits)
  {
    UpheldReflexive(fs, limits);
    hide Safe, Upheld;
    if Format(fs, options, limits).1.Ok? {
      FormatEstablishes(fs, options, limits);
    }
  }

  lemma NamedStep(fs: Fs, op: Op, limits: Limits)
    requires Safe(fs, limits) && !op.Reformat? && fs.core.superblock.blockSize > 0
    ensures Upheld(fs, Step(fs, op, limits).0, limits)
  {
    hide Safe, Upheld, CreateNode, Write, CreateHardLink, RemovePath, RenamePath, Begin, Commit, Rollback, Checkpoint;
    match op
    case CreateFile(path, content, mode) => CreateStep(fs, path, Regular, mode, content, [], limits);
    case CreateDirectory(path, mode) => CreateStep(fs, path, Directory, mode, [], [], limits);
    case CreateSymlink(target, path) => CreateStep(fs, path, SymbolicLink, 511, [], target, limits);
    case HardLink(existing, path) => LinkStep(fs, existing, path, limits);
    case WriteTo(path, offset, data) => WriteStep(fs, path, offset, data, limits);
    case RemoveAt(path, recursive) => RemoveStep(fs, path, recursive, limits);
    case RenameAt(source, target) => RenameStep(fs, source, target, limits);
    case BeginTransaction => BeginStep(fs, limits);
    case CommitTransaction => CommitStep(fs, limits);
    case RollbackTransaction => RollbackStep(fs, limits);
    case CheckpointJournal => CheckpointStep(fs, limits);
  }

  // ----- Whole runs -----

  /** The state after a list of operations. An operation on a state without blocks is left out: no
      reachable state is one. */
  function Run(fs: Fs, ops: seq<Op>, limits: Limits): Fs
    decreases |ops|
  {
    if ops == [] || fs.core.superblock.blockSize == 0 then fs else Run(Step(fs, ops[0], limits).0, ops[1..], limits)
  }

  lemma {:induction false} RunKeepsSafe(fs: Fs, ops: seq<Op>, limits: Limits)
    requires Safe(fs, limits)
    ensures Safe(Run(fs, ops, limits), limits)
    decreases |ops|
  {
    hide Safe, Step, Upheld;
    if ops != [] {
      StepKeepsSafe(fs, ops[0], limits);
      RunKeepsSafe(Step(fs, ops[0], limits).0, ops[1..], limits);
    }
  }

  function Formats(ops: seq<Op>): nat
    decreases |ops|
  {
    if ops == [] then 0 else Formats(ops[1..]) + (if ops[0].Reformat? then 1 else 0)
  }

  lemma StepKeepsTracked(fs: Fs, op: Op, clears: nat, limits: Limits)
    requires FsInv(fs, limits) && Journals.Room(fs.journal, clears, limits) && (op.Reformat? ==> clears > 0)
    requires fs.core.superblock.blockSize > 0
    ensures FsInv(Step(fs, op, limits).0, limits)
    ensures Journals.Room(Step(fs, op, limits).0.journal, if op.Reformat? then clears - 1 else clears, limits)
  {
    hide Safe, Step, Upheld, Journals.LogOk;
    StepKeepsSafe(fs, op, limits);
    var next := Step(fs, op, limits).0;
    if Clears(fs, op, limits) {
      Journals.ClearedRoom(fs.journal, clears, limits);
      FormatEstablishes(fs, op.options, limits);
      FormatJournal(fs, op, limits);
    } else {
      UpheldInv(fs, next, limits);
      if op.Reformat? {
        LessRoom(next.journal, clears, limits);
      }
    }
  }

  lemma FormatJournal(fs: Fs, op: Op, limits: Limits)
    requires Clears(fs, op, limits) && fs.core.superblock.blockSize > 0
    ensures Step(fs, op, limits).0 == Format(fs, op.options, limits).0
    ensures Step(fs, op, limits).0.journal == fs.journal.Cleared()
  {
    hide FormattedCore;
  }

  lemma LessRoom(log: Journals.Log, clears: nat, limits: Limits)
    requires Journals.Room(log, clears, limits) && clears > 0
    ensures Journals.Room(log, clears - 1, limits)
  {
    MulMonotone(limits.maxJournalRecords, clears, clears + 1);
  }

  lemma {:induction false} RunKeepsTracked(fs: Fs, ops: seq<Op>, limits: Limits)
    requires FsInv(fs, limits) && Journals.Room(fs.journal, Formats(ops), limits)
    ensures FsInv(Run(fs, ops, limits), limits)
    decreases |ops|
  {
    hide FsInv, Step, Journals.Room;
    if ops != [] {
      InvPositive(fs, limits);
      StepKeepsTracked(fs, ops[0], Formats(ops), limits);
      RunKeepsTracked(Step(fs, ops[0], limits).0, ops[1..], limits);
    }
  }

  /** The state a run from a first format ends in. */
  function FromFormat(options: FormatOptions, ops: seq<Op>, limits: Limits): Fs {
    Run(Format(UNFORMATTED, options, limits).0, ops, limits)
  }

  /** The run formats so rarely that the journal's 64-bit counters cannot wrap; without another format
      they never do. */
  predicate CountersLast(ops: seq<Op>, limits: Limits) {
    1 + (Formats(ops) + 1) * limits.maxJournalRecords < TWO64
  }

  /** Safety over whole runs: whatever is called after an accepted format, further formats included, and
      whatever is refused on the way, files, names, links and blocks are in order at the end; and so are
      journal and snapshot as long as the journal's counters last. */
  lemma RunsAreSafe(options: FormatOptions, ops: seq<Op>, limits: Limits)
    requires Format(UNFORMATTED, options, limits).1.Ok?
    ensures Safe(FromFormat(options, ops, limits), limits)
    ensures CountersLast(ops, limits) ==> FsInv(FromFormat(options, ops, limits), limits)
  {
    hide FsInv, Format, Run, Safe, Journals.LogOk, Formats;
    FreshStart(options, limits);
    var start := Format(UNFORMATTED, options, limits).0;
    RunKeepsSafe(start, ops, limits);
    if CountersLast(ops, limits) {
      RunKeepsTracked(start, ops, limits);
    }
  }

  lemma FreshStart(options: FormatOptions, limits: Limits)
    requires Format(UNFORMATTED, options, limits).1.Ok?
    ensures var fs := Format(UNFORMATTED, options, limits).0;
            && Safe(fs, limits) && FsInv(fs, limits)
            && Journals.FirstSequence(fs.journal) == 1 && Journals.FirstTransaction(fs.journal) == 1
  {
    hide FsInv, Safe, Format, Journals.LogOk, Journals.FirstSequence, Journals.FirstTransaction;
    FormatEstablishes(UNFORMATTED, options, limits);
    FreshJournal(options, limits);
    Journals.FreshFirsts(limits);
  }

  lemma FreshJournal(options: FormatOptions, limits: Limits)
    requires Format(UNFORMATTED, options, limits).1.Ok?
    ensures Format(UNFORMATTED, options, limits).0.journal == Journals.FRESH_LOG
    ensures Journals.CanStart(UNFORMATTED.journal, limits)
  {
    hide FormattedCore, Geometry;
  }

  lemma FewFormatsLast(ops: seq<Op>, limits: Limits)
    requires Formats(ops) + 1 < TWO32 && FitsFields(limits)
    ensures CountersLast(ops, limits)
  {
    MulMonotone(Formats(ops) + 1, limits.maxJournalRecords, TWO32 - 1);
    MulMonotone(TWO32 - 1, Formats(ops) + 1, TWO32 - 1);
  }
}
