/** The filesystem as a value, and every public operation as a function of it. */
module FsModel {
  import opened Base
  import opened Bytes
  import opened Devices
  import opened Allocators
  import opened Inodes
  import opened InodeTables
  import opened Directories
  import opened Paths
  import opened Journals
  import opened FileData

  /** What a snapshot copies, but for the dirty flag. */
  datatype Core = Core(superblock: Superblock, device: Device, allocation: Allocation, table: Table, dirs: Dirs) {
    function Names(): Namespace {
      Namespace(table.inodes, dirs, superblock.rootInode)
    }

    function Files(): Store {
      Store(device, allocation)
    }

    function WithFiles(store: Store): Core {
      this.(device := store.device, allocation := store.allocation)
    }

    /** `++superblock_.generation` and, for most operations, `refresh_counts`. */
    function Touched(): Core {
      this.(superblock := superblock.(generation := Wrap64(superblock.generation + 1)))
    }

    function Refreshed(limits: Limits): Core {
      var count := |table.inodes|;
      this.(superblock := superblock.(
        inodeCount := Wrap64(count),
        freeBlockCount := Wrap64(|allocation.Free()|),
        freeInodeCount := if limits.maxInodes > count then limits.maxInodes - count else 0))
    }
  }

  datatype Saved = Saved(core: Core, dirty: bool)

  datatype Fs = Fs(core: Core, journal: Log, mounted: bool, readOnly: bool, dirty: bool, snapshot: Option<Saved>)

  function EnsureWritable(fs: Fs): Result<()> {
    if !fs.mounted then Err(InternalError) else if fs.readOnly then Err(PermissionDenied) else Ok(())
  }

  // ----- format -----

  datatype FormatOptions = FormatOptions(blockSize: u32, blockCount: u64, inodeCapacity: u64, journalBlocks: u64)

  predicate FormatAccepted(options: FormatOptions, limits: Limits) {
    && 8 <= options.blockCount <= limits.maxBlocks
    && 0 < options.inodeCapacity <= limits.maxInodes
    && options.journalBlocks < options.blockCount
  }

  function FormattedCore(options: FormatOptions): Core
    requires options.blockCount >= 1 && options.inodeCapacity >= 1
  {
    var allocation := Allocation(options.blockCount, {0}, 0);
    Core(
      Superblock(1, options.blockSize, options.blockCount, 1, Wrap64(|allocation.Free()|), options.inodeCapacity - 1, 1, 1, 0),
      Device(options.blockSize, Zeros(options.blockSize * options.blockCount)),
      allocation,
      Table(map[1 := FreshInode(1, Directory, 493)], 2),
      map[1 := Dots(1, 1)])
  }

  function Format(fs: Fs, options: FormatOptions, limits: Limits): (Fs, Result<()>) {
    if !FormatAccepted(options, limits) then (fs, Err(ResourceLimit))
    else if !Geometry(limits, options.blockSize) then (fs, Err(InvalidBlock))
    else if options.blockSize * options.blockCount > limits.maxImageBytes then (fs, Err(Overflow))
    else (Fs(FormattedCore(options), fs.journal.Cleared(), true, false, false, None), Ok(()))
  }

  /** A filesystem object before its first format. */
  const UNFORMATTED := Fs(
    Core(Superblock(1, 4096, 0, 0, 0, 0, 1, 1, 0), Device(0, []), Allocation(0, {}, 0), Table(map[], 1), map[]),
    FRESH_LOG, false, false, false, None)

  // ----- Journalling and bookkeeping at the end of an operation -----

  function Journaled(fs: Fs, t: JournalType, target: u64, payload: seq<byte>, limits: Limits): (Fs, Result<()>) {
    if fs.journal.active == 0 then (fs, Ok(()))
    else
      match fs.journal.Append(limits, t, target, payload)
      case Err(code) => (fs, Err(code))
      case Ok(journal) => (fs.(journal := journal), Ok(()))
  }

  function Finished(fs: Fs, limits: Limits): Fs {
    fs.(core := fs.core.Touched().Refreshed(limits), dirty := true)
  }

  // ----- write and read -----

  /** `write_inode_data` on an inode of the table. */
  function WriteInode(core: Core, id: u64, offset: u64, data: seq<byte>, limits: Limits): (r: (Core, Result<()>))
    requires id in core.table.inodes && core.superblock.blockSize > 0
    ensures id in r.0.table.inodes
  {
    var (store, inode, r) := FileData.WriteData(core.Files(), core.table.inodes[id], offset, data, core.superblock, limits);
    (core.WithFiles(store).(table := core.table.Put(id, inode)), r)
  }

  function Write(fs: Fs, path: text, offset: u64, data: seq<byte>, limits: Limits): (Fs, Result<u64>)
    requires fs.core.superblock.blockSize > 0
  {
    match EnsureWritable(fs)
    case Err(code) => (fs, Err(code))
    case Ok(_) =>
      var names := fs.core.Names();
      match Resolve(names, path, names.root, true, limits)
      case Err(code) => (fs, Err(code))
      case Ok(at) =>
        if at.inode !in names.inodes || names.inodes[at.inode].inodeType != Regular then
          (fs, Err(if names.IsDirectory(at.inode) then IsDirectory else InvalidInode))
        else
          WriteFile(fs, at.inode, offset, data, limits)
  }

  function WriteFile(fs: Fs, id: u64, offset: u64, data: seq<byte>, limits: Limits): (Fs, Result<u64>)
    requires id in fs.core.table.inodes && fs.core.superblock.blockSize > 0
  {
    var (core, r) := WriteInode(fs.core, id, offset, data, limits);
    if r.Err? then (fs.(core := core), Err(r.code))
    else
      var payload := LittleEndian(offset, 8) + LittleEndian(Wrap64(|data|), 8);
      var (next, j) := Journaled(fs.(core := core), JournalType.WriteData, id, payload, limits);
      if j.Err? then (next, Err(j.code)) else (Finished(next, limits), Ok(id))
  }

  function Read(fs: Fs, path: text, offset: u64, count: nat, limits: Limits): Result<seq<byte>>
    requires fs.core.superblock.blockSize > 0
  {
    var names := fs.core.Names();
    var at :- Resolve(names, path, names.root, true, limits);
    if at.inode !in names.inodes || names.inodes[at.inode].inodeType != Regular then
      Err(if names.IsDirectory(at.inode) then IsDirectory else InvalidInode)
    else
      ReadData(fs.core.device, names.inodes[at.inode], offset, count, fs.core.superblock)
  }

  // ----- create -----

  function NewEntry(id: u64, inodeType: InodeType, name: text): DirectoryEntry {
    DirectoryEntry(id, inodeType, name, AlignedDirectoryLength(|name|), false)
  }

  /** The inode and its first name, before any content: nothing changes on failure but the cursor of
      the inode table. */
  function AddNode(core: Core, parent: u64, name: text, inodeType: InodeType, mode: u16, symlink: text, limits: Limits)
    : (r: (Core, Result<u64>))
    ensures r.1.Ok? ==> r.1.value in r.0.table.inodes
    ensures r.0.superblock == core.superblock
  {
    var (table, granted) := core.table.Allocate(limits, inodeType, mode);
    if granted.Err? then (core.(table := table), granted)
    else
      var (next, r) := NameNode(core, table, granted.value, parent, name, inodeType, symlink, limits);
      if r.Err? then (next, Err(r.code)) else (next, granted)
  }

  /** Fills in a symbolic link, makes a directory's table, and adds the name; a failure takes the
      inode back. */
  function NameNode(core: Core, table: Table, id: u64, parent: u64, name: text, inodeType: InodeType, symlink: text, limits: Limits)
    : (r: (Core, Result<()>))
    requires id in table.inodes
    ensures r.1.Ok? ==> id in r.0.table.inodes
    ensures r.0.superblock == core.superblock
  {
    var undone := core.(table := table.Erase(id).value);
    if inodeType == SymbolicLink && (symlink == [] || |symlink| > limits.maxPathBytes) then
      (undone, Err(InvalidPath))
    else
      var filled :=
        if inodeType == SymbolicLink
        then table.Put(id, table.inodes[id].(symlinkTarget := symlink, size := Wrap64(|symlink|)))
        else table;
      var made := if inodeType == Directory then Create(core.dirs, id, parent) else Ok(core.dirs);
      if made.Err? then (undone, Err(made.code))
      else
        match Add(made.value, parent, NewEntry(id, inodeType, name), limits)
        case Err(code) =>
          var erased := if inodeType == Directory then EraseDirectory(made.value, id) else made;
          (undone.(dirs := if erased.Ok? then erased.value else made.value), Err(code))
        case Ok(named) => (core.(table := filled, dirs := named), Ok(()))
  }

  /** Undoes a new file whose content could not be written. */
  function DropNode(core: Core, parent: u64, name: text, id: u64): Core
    requires id in core.table.inodes
  {
    var removed := Remove(core.dirs, parent, name);
    var (allocation, inode, _) := ReleaseInode(core.allocation, core.table.inodes[id]);
    core.(dirs := if removed.Ok? then removed.value.0 else core.dirs,
          allocation := allocation,
          table := core.table.Put(id, inode).Erase(id).value)
  }

  /** The node with its content, or with everything taken back. */
  function MakeNode(core: Core, parent: u64, name: text, inodeType: InodeType, mode: u16, content: seq<byte>, symlink: text, limits: Limits)
    : (Core, Result<u64>)
    requires core.superblock.blockSize > 0
  {
    var (added, r) := AddNode(core, parent, name, inodeType, mode, symlink, limits);
    if r.Err? || inodeType != Regular || content == [] then (added, r)
    else
      var (written, w) := WriteInode(added, r.value, 0, content, limits);
      if w.Err? then (DropNode(written, parent, name, r.value), Err(w.code)) else (written, r)
  }

  function CreateNode(fs: Fs, path: text, inodeType: InodeType, mode: u16, content: seq<byte>, symlink: text, limits: Limits)
    : (Fs, Result<u64>)
    requires fs.core.superblock.blockSize > 0
  {
    match EnsureWritable(fs)
    case Err(code) => (fs, Err(code))
    case Ok(_) =>
      var names := fs.core.Names();
      match ResolveParent(names, path, names.root, limits)
      case Err(code) => (fs, Err(code))
      case Ok((parent, name)) =>
        if names.Find(parent, name).Some? then (fs, Err(AlreadyExists))
        else
          CreateAt(fs, parent, name, inodeType, mode, content, symlink, limits)
  }

  function CreateAt(fs: Fs, parent: u64, name: text, inodeType: InodeType, mode: u16, content: seq<byte>, symlink: text, limits: Limits)
    : (Fs, Result<u64>)
    requires fs.core.superblock.blockSize > 0
  {
    var (core, r) := MakeNode(fs.core, parent, name, inodeType, mode, content, symlink, limits);
    if r.Err? then (fs.(core := core), r)
    else
      var (next, j) := Journaled(fs.(core := core), JournalType.AllocateInode, r.value, name, limits);
      if j.Err? then (next, Err(j.code)) else (Finished(next, limits), r)
  }

  function CreateHardLink(fs: Fs, existing: text, path: text, limits: Limits): (Fs, Result<u64>) {
    match EnsureWritable(fs)
    case Err(code) => (fs, Err(code))
    case Ok(_) =>
      var names := fs.core.Names();
      match Resolve(names, existing, names.root, false, limits)
      case Err(code) => (fs, Err(code))
      case Ok(source) =>
        var id := source.inode;
        if id !in names.inodes || names.inodes[id].inodeType == Directory then (fs, Err(PermissionDenied))
        else if names.inodes[id].linkCount >= limits.maxHardLinks then (fs, Err(ResourceLimit))
        else
          match ResolveParent(names, path, names.root, limits)
          case Err(code) => (fs, Err(code))
          case Ok((parent, name)) =>
            match LinkNode(fs.core, id, parent, name, limits)
            case Err(code) => (fs, Err(code))
            case Ok(core) => (fs.(core := core.Touched(), dirty := true), Ok(id))
  }

  /** One more name for an inode. */
  function LinkNode(core: Core, id: u64, parent: u64, name: text, limits: Limits): Result<Core>
    requires id in core.table.inodes
  {
    var inode := core.table.inodes[id];
    var dirs :- Add(core.dirs, parent, NewEntry(inode.identifier, inode.inodeType, name), limits);
    var linked := inode.(linkCount := Wrap32(inode.linkCount + 1), generation := Wrap64(inode.generation + 1));
    Ok(core.(dirs := dirs, table := core.table.Put(id, linked)))
  }

  // ----- remove -----

  function ChildNames(entries: Entries): seq<text> {
    if entries == [] then []
    else (if entries[0].deleted || entries[0].IsDot() then [] else [entries[0].name]) + ChildNames(entries[1..])
  }

  function ChildPath(path: text, name: text): text {
    (if path != [] && path[|path| - 1] != SLASH then path + [SLASH] else path) + name
  }

  /** How much longer a path may get: the bound on nested removals. */
  function Headroom(path: text, limits: Limits): nat {
    if |path| <= limits.maxPathBytes then limits.maxPathBytes - |path| + 1 else 0
  }

  /** Drops one name, and the inode with its blocks when it was the last, or a directory's. An inode
      no longer in the table is one the source would reach through a dangling pointer; a run never
      gets there (`FsRemovePath.DropNameEffect`). */
  function DropName(core: Core, at: ResolvedPath): (Core, Result<u64>) {
    match Remove(core.dirs, at.parent, at.name)
    case Err(code) => (core, Err(code))
    case Ok((dirs, removed)) =>
      var unnamed := core.(dirs := dirs);
      if at.inode !in core.table.inodes then (unnamed, Err(InternalError))
      else
        var inode := core.table.inodes[at.inode];
        var fewer := inode.(linkCount := if inode.linkCount > 0 then inode.linkCount - 1 else 0);
        if fewer.linkCount != 0 && fewer.inodeType != Directory then
          (unnamed.(table := core.table.Put(at.inode, fewer)), Ok(removed.inode))
        else
          DropInode(unnamed.(table := core.table.Put(at.inode, fewer)), at.inode, removed.inode)
  }

  function DropInode(core: Core, id: u64, reported: u64): (Core, Result<u64>)
    requires id in core.table.inodes
  {
    var (allocation, inode, r) := ReleaseInode(core.allocation, core.table.inodes[id]);
    var released := core.(allocation := allocation, table := core.table.Put(id, inode));
    if r.Err? then (released, Err(r.code))
    else
      match if inode.inodeType == Directory then EraseDirectory(released.dirs, inode.identifier) else Ok(released.dirs)
      case Err(code) => (released, Err(code))
      case Ok(dirs) =>
        var closed := released.(dirs := dirs);
        match released.table.Erase(inode.identifier)
        case Err(code) => (closed, Err(code))
        case Ok(table) => (closed.(table := table), Ok(reported))
  }

  function RemovePath(fs: Fs, path: text, recursive: bool, limits: Limits): (Fs, Result<u64>)
    decreases Headroom(path, limits), 1, 0
  {
    match EnsureWritable(fs)
    case Err(code) => (fs, Err(code))
    case Ok(_) =>
      var names := fs.core.Names();
      match Resolve(names, path, names.root, false, limits)
      case Err(code) => (fs, Err(code))
      case Ok(at) =>
        if at.inode == names.root then (fs, Err(PermissionDenied))
        else if at.inode !in names.inodes then (fs, Err(InvalidInode))
        else
          var children :=
            if names.IsDirectory(at.inode) && at.inode in names.dirs then ChildNames(names.dirs[at.inode]) else [];
          if children != [] && !recursive then (fs, Err(DirectoryNotEmpty))
          else
            var (emptied, r) := RemoveChildren(fs, path, children, limits);
            if r.Err? then (emptied, Err(r.code))
            else
              var (core, d) := DropName(emptied.core, at);
              if d.Err? then (emptied.(core := core), d) else (Finished(emptied.(core := core), limits), d)
  }

  /** Removes the children by path, one after the other, stopping at the first failure. Entries with
      an empty name are refused by every table, so the first case does not arise. */
  function RemoveChildren(fs: Fs, path: text, names: seq<text>, limits: Limits): (Fs, Result<()>)
    requires |path| <= limits.maxPathBytes
    decreases Headroom(path, limits), 0, |names|
  {
    if names == [] then (fs, Ok(()))
    else if names[0] == [] then (fs, Err(InternalError))
    else
      var (next, r) := RemovePath(fs, ChildPath(path, names[0]), true, limits);
      if r.Err? then (next, Err(r.code)) else RemoveChildren(next, path, names[1..], limits)
  }

  // ----- rename -----

  function RenamePath(fs: Fs, source: text, target: text, limits: Limits): (Fs, Result<u64>) {
    match EnsureWritable(fs)
    case Err(code) => (fs, Err(code))
    case Ok(_) =>
      var names := fs.core.Names();
      match Resolve(names, source, names.root, false, limits)
      case Err(code) => (fs, Err(code))
      case Ok(from) =>
        if from.inode == names.root then (fs, Err(PermissionDenied))
        else
          match ResolveParent(names, target, names.root, limits)
          case Err(code) => (fs, Err(code))
          case Ok((parent, name)) =>
            RenameEntries(fs, from, parent, name, limits)
  }

  function RenameEntries(fs: Fs, from: ResolvedPath, parent: u64, name: text, limits: Limits): (Fs, Result<u64>) {
    var (dirs, r) := Rename(fs.core.dirs, from.parent, from.name, parent, name, limits);
    var core := fs.core.(dirs := dirs);
    if r.Err? then (fs.(core := core), Err(r.code))
    else (fs.(core := core.Touched(), dirty := true), Ok(from.inode))
  }

  // ----- transactions -----

  function Begin(fs: Fs, limits: Limits): (Fs, Result<()>) {
    match EnsureWritable(fs)
    case Err(code) => (fs, Err(code))
    case Ok(_) =>
      if fs.snapshot.Some? then (fs, Err(TransactionError))
      else
        match fs.journal.Begin(limits)
        case Err(code) => (fs, Err(code))
        case Ok(journal) => (fs.(journal := journal, snapshot := Some(Saved(fs.core, fs.dirty)), dirty := true), Ok(()))
  }

  function Commit(fs: Fs, limits: Limits): (Fs, Result<()>) {
    if fs.snapshot.None? then (fs, Err(TransactionError))
    else
      match fs.journal.Commit(limits)
      case Err(code) => (fs, Err(code))
      case Ok(journal) => (Finished(fs.(journal := journal, snapshot := None), limits), Ok(()))
  }

  function Rollback(fs: Fs, limits: Limits): (Fs, Result<()>) {
    if fs.snapshot.None? then (fs, Err(TransactionError))
    else
      match fs.journal.Rollback(limits)
      case Err(code) => (fs, Err(code))
      case Ok(journal) =>
        var saved := fs.snapshot.value;
        (fs.(journal := journal, core := saved.core, dirty := saved.dirty, snapshot := None), Ok(()))
  }

  function Checkpoint(fs: Fs, limits: Limits): (Fs, Result<()>) {
    match EnsureWritable(fs)
    case Err(code) => (fs, Err(code))
    case Ok(_) =>
      if fs.snapshot.Some? then (fs, Err(TransactionError))
      else
        match fs.journal.Checkpoint(limits)
        case Err(code) => (fs, Err(code))
        case Ok(journal) =>
          var superblock := fs.core.superblock.(journalSequence := Wrap64(journal.nextSequence - 1));
          (fs.(journal := journal, core := fs.core.(superblock := superblock), dirty := false), Ok(()))
  }
}
