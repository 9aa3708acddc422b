/** When a creation goes through, in terms of the state it starts from. */
module FsFits {
  import opened Base
  import opened Devices
  import opened Allocators
  import opened Extents
  import opened Inodes
  import opened InodeTables
  import opened Directories
  import opened Paths
  import opened Trees
  import opened FileData
  import opened FileGrowth
  import opened FileWrites
  import opened FsModel
  import opened FsInvariant
  import opened FsCreate
  import opened FsRemove
  import opened FsNodes

  /** A name the tables take for something new, with room for its entry. */
  predicate NameIsFree(dirs: Dirs, parent: u64, name: text, added: nat, limits: Limits) {
    && name != DOT && name != DOTDOT && NameFits(name, limits) && 0 !in name
    && Directories.Find(dirs, parent, name).None?
    && Total(dirs) + added < limits.maxDirectoryEntries
  }

  /** An inode is left, the name is free, and a link target has an allowed length. The dot entries of a
      new directory are counted before its name is. */
  predicate NodeFits(core: Core, parent: u64, name: text, inodeType: InodeType, symlink: text, limits: Limits) {
    && |core.table.inodes| < limits.maxInodes
    && NameIsFree(core.dirs, parent, name, if inodeType == Directory then 2 else 0, limits)
    && (inodeType == SymbolicLink ==> 0 < |symlink| <= limits.maxPathBytes)
  }

  /** Blocks are free for the content, and a new file may have that many extents. */
  predicate ContentFits(core: Core, length: nat, limits: Limits)
    requires core.superblock.blockSize > 0
  {
    var blocks := CeilDivide(length, core.superblock.blockSize);
    && length <= limits.maxFileBytes
    && |core.allocation.used| + blocks <= core.allocation.count && blocks <= limits.maxExtents
  }

  lemma AllocateIff(table: Table, limits: Limits, inodeType: InodeType, mode: u16)
    requires table.Valid(limits) && inodeType.Usable()
    ensures table.Allocate(limits, inodeType, mode).1.Ok? <==> |table.inodes| < limits.maxInodes
  {
    AllocateIsSmallest(table, limits, inodeType, mode);
    if table.Allocate(limits, inodeType, mode).1.Err? && |table.inodes| < limits.maxInodes {
      assert Identifiers(limits.maxInodes) <= table.inodes.Keys;
      SubsetSize(Identifiers(limits.maxInodes), table.inodes.Keys);
    }
  }

  lemma AddIff(dirs: Dirs, parent: u64, id: u64, inodeType: InodeType, name: text, limits: Limits)
    requires parent in dirs && id != 0 && inodeType.Usable()
    ensures Add(dirs, parent, NewEntry(id, inodeType, name), limits).Ok? <==> NameIsFree(dirs, parent, name, 0, limits)
  {
    hide Total, Directories.Find;
  }

  lemma NameNodeIff(core: Core, table: Table, id: u64, parent: u64, name: text, inodeType: InodeType, symlink: text, limits: Limits)
    requires id in table.inodes && id != 0 && id !in core.dirs && parent in core.dirs && parent != 0 && inodeType.Usable()
    ensures NameNode(core, table, id, parent, name, inodeType, symlink, limits).1.Ok? <==>
            && NameIsFree(core.dirs, parent, name, if inodeType == Directory then 2 else 0, limits)
            && (inodeType == SymbolicLink ==> 0 < |symlink| <= limits.maxPathBytes)
  {
    hide Table.Erase, Add, EraseDirectory, NameIsFree, FreshInode;
    if inodeType == Directory {
      var dirs := core.dirs[id := Dots(id, parent)];
      assert Create(core.dirs, id, parent) == Ok(dirs);
      AddIff(dirs, parent, id, inodeType, name, limits);
      WithDots(core.dirs, id, parent, name, limits);
    } else {
      AddIff(core.dirs, parent, id, inodeType, name, limits);
    }
  }

  lemma WithDots(dirs: Dirs, id: u64, parent: u64, name: text, limits: Limits)
    requires id !in dirs && parent in dirs
    ensures NameIsFree(dirs[id := Dots(id, parent)], parent, name, 0, limits) <==> NameIsFree(dirs, parent, name, 2, limits)
  {
    hide Total;
    TotalPut(dirs, id, Dots(id, parent));
  }

  lemma AddNodeIff(core: Core, parent: u64, name: text, inodeType: InodeType, mode: u16, symlink: text, limits: Limits)
    requires CoreInv(core, limits) && parent in core.dirs && inodeType.Usable()
    ensures AddNode(core, parent, name, inodeType, mode, symlink, limits).1.Ok? <==>
            NodeFits(core, parent, name, inodeType, symlink, limits)
  {
    hide CoreInv, Table.Allocate, Table.Valid, NameNode, NameIsFree, TreeOk, LinksOk, OwnershipOk, StillOk, EntriesOk, Allocation.Valid, FreshInode;
    InvPieces(core, limits);
    TableKeysApart(core, limits);
    DirectoryExists(core, parent, limits);
    NotZero(core.table, parent, limits);
    AllocateIff(core.table, limits, inodeType, mode);
    AllocateIsSmallest(core.table, limits, inodeType, mode);
    var (table, granted) := core.table.Allocate(limits, inodeType, mode);
    if granted.Ok? {
      NameNodeIff(core, table, granted.value, parent, name, inodeType, symlink, limits);
    }
  }

  lemma NotZero(table: Table, id: u64, limits: Limits)
    requires table.Valid(limits) && id in table.inodes
    ensures id != 0
  {
  }

  /** A creation goes through exactly when node and content fit. */
  lemma MakeNodeIff(core: Core, parent: u64, name: text, inodeType: InodeType, mode: u16, content: seq<byte>, symlink: text, limits: Limits)
    requires CoreInv(core, limits) && parent in core.dirs && inodeType.Usable()
    ensures core.superblock.blockSize > 0
    ensures MakeNode(core, parent, name, inodeType, mode, content, symlink, limits).1.Ok? <==>
            && NodeFits(core, parent, name, inodeType, symlink, limits)
            && (inodeType == Regular ==> ContentFits(core, |content|, limits))
  {
    hide CoreInv, AddNode, NodeFits, DropNode, WriteInode, Content, WriteFits;
    BlockSizePositive(core, limits);
    AddNodeIff(core, parent, name, inodeType, mode, symlink, limits);
    if inodeType == Regular {
      EmptyFits(core, limits);
      if AddNode(core, parent, name, inodeType, mode, symlink, limits).1.Ok? && content != [] {
        AddNodeEffect(core, parent, name, inodeType, mode, symlink, limits);
        var (added, r) := AddNode(core, parent, name, inodeType, mode, symlink, limits);
        TableKeysApart(core, limits);
        DirectoryExists(core, parent, limits);
        AddedLast(core, added.table, r.value, parent, name, inodeType, mode, symlink);
        WriteInodeKeepsInv(added, r.value, 0, content, limits);
        FreshWriteFits(core, added, r.value, mode, |content|, limits);
      }
    }
  }

  lemma EmptyFits(core: Core, limits: Limits)
    requires CoreInv(core, limits)
    ensures core.superblock.blockSize > 0 && ContentFits(core, 0, limits)
  {
    hide TreeOk, LinksOk, OwnershipOk, InodesOk, EntriesOk, Table.Valid;
    FreeCount(core.allocation, 0);
    assert CeilDivide(0, core.superblock.blockSize) == 0;
    UsedWithinCount(core.allocation);
  }

  lemma UsedWithinCount(a: Allocation)
    requires a.Valid()
    ensures |a.used| <= a.count
  {
    AllocateManyFailsWhenFull(a, 0);
    assert a.AllocateMany(0).Ok?;
  }

  lemma FreshWriteFits(core: Core, added: Core, id: u64, mode: u16, length: nat, limits: Limits)
    requires core.superblock.blockSize > 0 && added.Files() == core.Files() && added.superblock == core.superblock && length > 0
    requires id in added.table.inodes && added.table.inodes[id] == FreshInode(id, Regular, mode)
    ensures WriteFits(added.Files(), added.table.inodes[id], 0, length, added.superblock, limits) <==>
            ContentFits(core, length, limits)
  {
    assert CeilDivide(0, core.superblock.blockSize) == 0;
  }
}
