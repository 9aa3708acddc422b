/** Creating files, directories, symbolic links and hard links keeps the invariant. */
module FsCreate {
  import opened Base
  import opened Devices
  import opened Allocators
  import opened Extents
  import opened Inodes
  import opened InodeTables
  import opened Directories
  import opened Paths
  import opened PathTheorems
  import opened Trees
  import opened TreeOps
  import opened FileData
  import opened FileBytes
  import opened FileGrowth
  import opened FileWrites
  import opened FsModel
  import opened FsInvariant

  // ----- The tree with one more name -----

  predicate Nameable(ns: Namespace, parent: u64, e: DirectoryEntry, limits: Limits) {
    && parent in ns.dirs
    && !e.deleted && !e.IsDot() && e.Validate(limits).Ok? && e.recordLength != 0
    && FindIndex(ns.dirs[parent], e.Key()).None?
  }

  lemma RootExists(ns: Namespace, limits: Limits)
    requires TreeOk(ns, limits)
    ensures ns.root in ns.inodes && ns.root in ns.dirs && |ns.dirs[ns.root]| >= 2
    ensures forall d :: d in ns.dirs ==> d in ns.inodes && |ns.dirs[d]| >= 2
  {
    TablesLong(ns, limits);
    TreeRoot(ns, limits);
  }

  lemma NewFileTree(ns: Namespace, parent: u64, e: DirectoryEntry, inode: Inode, limits: Limits)
    requires TreeOk(ns, limits) && LinksOk(ns) && Nameable(ns, parent, e, limits)
    requires e.inode !in ns.inodes && inode.inodeType == e.entryType && e.entryType != Directory && inode.linkCount == 1
    ensures var after := Namespace(ns.inodes[e.inode := inode], ns.dirs[parent := ns.dirs[parent] + [e]], ns.root);
            TreeOk(after, limits) && LinksOk(after)
  {
    hide Links, TableOk;
    var id := e.inode;
    RootExists(ns, limits);
    var grown := ns.(inodes := ns.inodes[id := inode]);
    FreshTree(ns, id, inode, limits);
    NoLinksToMissing(ns, id, limits);
    assert LinksOkBut(grown, id) by {
      forall x | x in grown.inodes && x != id ensures LinkCountOk(grown, x) {
        assert LinkCountOk(ns, x);
      }
    }
    assert id !in ns.dirs;
    assert NameOk(grown, parent, e);
    AppendTree(grown, parent, e, limits);
    AppendLinks(grown, parent, e);
    var after := grown.(dirs := ns.dirs[parent := ns.dirs[parent] + [e]]);
    assert LinkCountOk(after, id);
  }

  lemma NewDirectoryTree(ns: Namespace, parent: u64, e: DirectoryEntry, inode: Inode, limits: Limits)
    requires TreeOk(ns, limits) && LinksOk(ns) && Nameable(ns, parent, e, limits)
    requires e.inode !in ns.inodes && inode.inodeType == e.entryType == Directory && inode.linkCount == 2
    ensures var id := e.inode;
            var dirs := ns.dirs[id := Dots(id, parent)];
            parent in dirs &&
            var after := Namespace(ns.inodes[id := inode], dirs[parent := dirs[parent] + [e]], ns.root);
            TreeOk(after, limits) && LinksOk(after)
  {
    hide Links, TableOk;
    var id := e.inode;
    RootExists(ns, limits);
    var grown := ns.(inodes := ns.inodes[id := inode], dirs := ns.dirs[id := Dots(id, parent)]);
    FreshDirectoryTree(ns, id, inode, parent, limits);
    NoLinksToMissing(ns, id, limits);
    assert id !in ns.dirs;
    LinksAfterCreate(ns.dirs, id, parent, id);
    assert LinksOkBut(grown, id) by {
      forall x | x in grown.inodes && x != id ensures LinkCountOk(grown, x) {
        assert LinkCountOk(ns, x);
        LinksAfterCreate(ns.dirs, id, parent, x);
      }
    }
    assert NameOk(grown, parent, e);
    assert grown.dirs[parent] == ns.dirs[parent];
    AppendTree(grown, parent, e, limits);
    AppendLinks(grown, parent, e);
    var after := grown.(dirs := grown.dirs[parent := grown.dirs[parent] + [e]]);
    assert LinkCountOk(after, id);
  }

  /** The map from names to entries with one name more. */
  ghost predicate NameAdded(dirs: Dirs, next: Dirs, parent: u64, e: DirectoryEntry) {
    && Directories.Find(dirs, parent, e.name).None?
    && forall d: u64, name: text :: d in dirs ==>
         Directories.Find(next, d, name) == if SameSpot(d, name, parent, e.name) then Some(e) else Directories.Find(dirs, d, name)
  }

  /** No name finds anything else than before. */
  ghost predicate SameNames(dirs: Dirs, next: Dirs) {
    next.Keys == dirs.Keys && forall d: u64, name: text :: Directories.Find(next, d, name) == Directories.Find(dirs, d, name)
  }

  lemma AppendNames(dirs: Dirs, before: Dirs, parent: u64, e: DirectoryEntry)
    requires parent in dirs && !e.deleted && FindIndex(dirs[parent], e.Key()).None?
    requires forall d :: d in before ==> d in dirs && dirs[d] == before[d]
    requires parent in before
    ensures NameAdded(before, dirs[parent := dirs[parent] + [e]], parent, e)
  {
    forall d: u64, name: text | d in before
      ensures Directories.Find(dirs[parent := dirs[parent] + [e]], d, name) ==
              if SameSpot(d, name, parent, e.name) then Some(e) else Directories.Find(before, d, name)
    {
      AppendFinds(dirs, parent, e, d, name);
    }
  }

  // ----- A new inode -----

  lemma AddBlankOwner(used: set<u64>, inodes: map<u64, Inode>, id: u64, inode: Inode)
    requires OwnershipOk(used, inodes) && id !in inodes && inode.extents == []
    ensures OwnershipOk(used, inodes[id := inode])
  {
    var after := inodes[id := inode];
    assert Owned(inode.extents) == {};
    hide Owned;
    forall x | x in after ensures OwnedIn(after[x].extents, used) && 0 !in Owned(after[x].extents) {
    }
    forall a, b | a in after && b in after && a != b ensures Owned(after[a].extents) !! Owned(after[b].extents) {
      if a != id && b != id {
        assert Owned(inodes[a].extents) !! Owned(inodes[b].extents);
      }
    }
    forall block: int | block in used && block != 0 ensures HasOwner(block, after) {
      assert HasOwner(block, inodes);
      var x :| x in inodes && block in Owned(inodes[x].extents);
      assert block in Owned(after[x].extents);
    }
  }

  lemma EmptyFileOk(device: Device, inode: Inode, superblock: Superblock, limits: Limits)
    requires device.blockSize == superblock.blockSize > 0
    requires inode.extents == [] && inode.size == 0 && inode.allocatedBytes == 0
    ensures FileOk(device, inode, superblock, limits)
  {
    assert CeilDivide(0, superblock.blockSize) == 0;
    assert ExactCover(inode.extents, 0);
  }

  function NewInode(id: u64, inodeType: InodeType, mode: u16, symlink: text): Inode {
    if inodeType == SymbolicLink
    then FreshInode(id, inodeType, mode).(symlinkTarget := symlink, size := Wrap64(|symlink|))
    else FreshInode(id, inodeType, mode)
  }

  lemma NewInodeOk(device: Device, id: u64, inodeType: InodeType, mode: u16, symlink: text, superblock: Superblock, limits: Limits)
    requires device.blockSize == superblock.blockSize > 0 && inodeType.Usable()
    requires inodeType == SymbolicLink ==> 0 < |symlink| <= limits.maxPathBytes
    ensures InodeOk(device, NewInode(id, inodeType, mode, symlink), superblock, limits)
  {
    if inodeType == Regular {
      EmptyFileOk(device, NewInode(id, inodeType, mode, symlink), superblock, limits);
    }
  }

  /** What a successful `AddNode` leaves. */
  function Added(core: Core, table: Table, id: u64, parent: u64, name: text, inodeType: InodeType, mode: u16, symlink: text): Core
    requires parent in core.dirs
  {
    var dirs := if inodeType == Directory then core.dirs[id := Dots(id, parent)] else core.dirs;
    core.(table := Table(core.table.inodes[id := NewInode(id, inodeType, mode, symlink)], table.next),
          dirs := dirs[parent := dirs[parent] + [NewEntry(id, inodeType, name)]])
  }

  lemma AddedInv(core: Core, table: Table, id: u64, parent: u64, name: text, inodeType: InodeType, mode: u16, symlink: text, limits: Limits)
    requires CoreInv(core, limits) && inodeType.Usable() && id !in core.table.inodes
    requires Nameable(core.Names(), parent, NewEntry(id, inodeType, name), limits)
    requires table.Valid(limits) && table.inodes == core.table.inodes[id := FreshInode(id, inodeType, mode)]
    requires inodeType == SymbolicLink ==> 0 < |symlink| <= limits.maxPathBytes
    requires EntriesOk(Added(core, table, id, parent, name, inodeType, mode, symlink).dirs, limits)
    ensures CoreInv(Added(core, table, id, parent, name, inodeType, mode, symlink), limits)
  {
    hide OwnershipOk, EntriesOk, TreeOk, LinksOk, StoreOk, InodeOk, Dots;
    var after := Added(core, table, id, parent, name, inodeType, mode, symlink);
    var inode := NewInode(id, inodeType, mode, symlink);
    StoreGeometry(core.Files(), core.superblock);
    assert after.Files() == core.Files();
    AddBlankOwner(core.allocation.used, core.table.inodes, id, inode);
    NewInodeOk(core.device, id, inodeType, mode, symlink, core.superblock, limits);
    assert core.Names().inodes == core.table.inodes && core.Names().dirs == core.dirs;
    if inodeType == Directory {
      NewDirectoryTree(core.Names(), parent, NewEntry(id, inodeType, name), inode, limits);
    } else {
      NewFileTree(core.Names(), parent, NewEntry(id, inodeType, name), inode, limits);
    }
    SameCursorValid(table, after.table, limits);
  }

  lemma SameCursorValid(table: Table, after: Table, limits: Limits)
    requires table.Valid(limits) && after.next == table.next && after.inodes.Keys == table.inodes.Keys
    requires forall id :: id in after.inodes ==> after.inodes[id].identifier == table.inodes[id].identifier
    ensures after.Valid(limits)
  {
  }

  /** The new node is there with its one name, or nothing changed but the table's cursor. */
  lemma AddNodeEffect(core: Core, parent: u64, name: text, inodeType: InodeType, mode: u16, symlink: text, limits: Limits)
    requires CoreInv(core, limits) && parent in core.dirs && inodeType.Usable()
    ensures var (next, r) := AddNode(core, parent, name, inodeType, mode, symlink, limits);
            && CoreInv(next, limits)
            && (r.Err? ==> next == core.(table := next.table) && next.table.inodes == core.table.inodes)
            && (r.Ok? ==> r.value !in core.table.inodes && next.dirs.Keys >= core.dirs.Keys
                          && next == Added(core, next.table, r.value, parent, name, inodeType, mode, symlink)
                          && Nameable(core.Names(), parent, NewEntry(r.value, inodeType, name), limits))
  {
    assert core.table.Valid(limits);
    GrantedByTable(core, inodeType, mode, limits);
    TableKeysApart(core, limits);
    hide CoreInv, EntriesOk, Added, NewInode, Dots, Table.Allocate, Table.Valid, NameNode, Nameable;
    var (table, granted) := core.table.Allocate(limits, inodeType, mode);
    if granted.Ok? {
      var id := granted.value;
      NameNodeCases(core, table, id, parent, name, inodeType, mode, symlink, limits);
      if NameNode(core, table, id, parent, name, inodeType, symlink, limits).1.Ok? {
        AddedInv(core, table, id, parent, name, inodeType, mode, symlink, limits);
        AddedKeys(core, table, id, parent, name, inodeType, mode, symlink);
      } else {
        CursorChange(core, table.Erase(id).value, limits);
      }
    }
  }

  lemma TableKeysApart(core: Core, limits: Limits)
    requires CoreInv(core, limits)
    ensures forall id :: id !in core.table.inodes ==> id !in core.dirs
  {
    RootExists(core.Names(), limits);
  }

  lemma AddedKeys(core: Core, table: Table, id: u64, parent: u64, name: text, inodeType: InodeType, mode: u16, symlink: text)
    requires parent in core.dirs
    ensures Added(core, table, id, parent, name, inodeType, mode, symlink).dirs.Keys >= core.dirs.Keys
    ensures Added(core, Added(core, table, id, parent, name, inodeType, mode, symlink).table, id, parent, name, inodeType, mode, symlink)
            == Added(core, table, id, parent, name, inodeType, mode, symlink)
  {
  }

  lemma GrantedByTable(core: Core, inodeType: InodeType, mode: u16, limits: Limits)
    requires core.table.Valid(limits) && inodeType.Usable()
    ensures var (table, r) := core.table.Allocate(limits, inodeType, mode);
            && table.Valid(limits)
            && (r.Err? ==> table == core.table)
            && (r.Ok? ==> Granted(core, table, r.value, inodeType, mode, limits))
  {
    AllocateIsSmallest(core.table, limits, inodeType, mode);
    var (table, r) := core.table.Allocate(limits, inodeType, mode);
    if r.Ok? {
      EraseValid(table, limits, r.value);
    }
  }

  /** Granted an identifier nobody uses: a table that is still valid, and taken back as it was. */
  ghost predicate Granted(core: Core, table: Table, id: u64, inodeType: InodeType, mode: u16, limits: Limits) {
    && id !in core.table.inodes && id != 0
    && table.Valid(limits) && table.inodes == core.table.inodes[id := FreshInode(id, inodeType, mode)]
    && table.Erase(id).Ok?
    && table.Erase(id).value.inodes == core.table.inodes && table.Erase(id).value.Valid(limits)
  }

  lemma NameDirectoryCases(core: Core, table: Table, id: u64, parent: u64, name: text, inodeType: InodeType, mode: u16, symlink: text, limits: Limits)
    requires parent in core.dirs && parent != id && id !in core.dirs
    requires Granted(core, table, id, inodeType, mode, limits)
    requires inodeType == Directory
    ensures var (next, r) := NameNode(core, table, id, parent, name, inodeType, symlink, limits);
            && (r.Err? ==> next == core.(table := next.table) && next.table == table.Erase(id).value)
            && (r.Ok? ==>
                  && next == Added(core, table, id, parent, name, inodeType, mode, symlink)
                  && Nameable(core.Names(), parent, NewEntry(id, inodeType, name), limits)
                  && (inodeType == SymbolicLink ==> 0 < |symlink| <= limits.maxPathBytes)
                  && EntriesOk(next.dirs, limits))
  {
    hide Table.Erase, EntriesOk, Table.Valid, Dots, FreshInode;
    var made := core.dirs[id := Dots(id, parent)];
    assert made[parent] == core.dirs[parent];
    AddIsAppend(made, parent, NewEntry(id, inodeType, name), limits);
    EraseDots(core.dirs, id, parent);
    hide Add, EraseDirectory, FindIndex, DirectoryEntry.Validate;
  }

  lemma NamePlainCases(core: Core, table: Table, id: u64, parent: u64, name: text, inodeType: InodeType, mode: u16, symlink: text, limits: Limits)
    requires parent in core.dirs && parent != id && id !in core.dirs
    requires Granted(core, table, id, inodeType, mode, limits)
    requires inodeType != Directory
    ensures var (next, r) := NameNode(core, table, id, parent, name, inodeType, symlink, limits);
            && (r.Err? ==> next == core.(table := next.table) && next.table == table.Erase(id).value)
            && (r.Ok? ==>
                  && next == Added(core, table, id, parent, name, inodeType, mode, symlink)
                  && Nameable(core.Names(), parent, NewEntry(id, inodeType, name), limits)
                  && (inodeType == SymbolicLink ==> 0 < |symlink| <= limits.maxPathBytes)
                  && EntriesOk(next.dirs, limits))
  {
    hide Table.Erase, EntriesOk, Table.Valid, Dots;
    AddIsAppend(core.dirs, parent, NewEntry(id, inodeType, name), limits);
    var inode := NewInode(id, inodeType, mode, symlink);
    PutTwice(core.table.inodes, id, FreshInode(id, inodeType, mode), inode);
    assert table.inodes[id] == FreshInode(id, inodeType, mode);
    hide Add, EraseDirectory, FindIndex, DirectoryEntry.Validate, Create, FreshInode;
  }

  lemma PutTwice(inodes: map<u64, Inode>, id: u64, first: Inode, second: Inode)
    ensures inodes[id := first][id := second] == inodes[id := second]
  {
  }

  lemma NameNodeCases(core: Core, table: Table, id: u64, parent: u64, name: text, inodeType: InodeType, mode: u16, symlink: text, limits: Limits)
    requires parent in core.dirs && parent != id && id !in core.dirs
    requires Granted(core, table, id, inodeType, mode, limits)
    ensures var (next, r) := NameNode(core, table, id, parent, name, inodeType, symlink, limits);
            && (r.Err? ==> next == core.(table := next.table) && next.table == table.Erase(id).value)
            && (r.Ok? ==>
                  && next == Added(core, table, id, parent, name, inodeType, mode, symlink)
                  && Nameable(core.Names(), parent, NewEntry(id, inodeType, name), limits)
                  && (inodeType == SymbolicLink ==> 0 < |symlink| <= limits.maxPathBytes)
                  && EntriesOk(next.dirs, limits))
  {
    if inodeType == Directory {
      NameDirectoryCases(core, table, id, parent, name, inodeType, mode, symlink, limits);
    } else {
      NamePlainCases(core, table, id, parent, name, inodeType, mode, symlink, limits);
    }
  }

  lemma AddIsAppend(dirs: Dirs, directory: u64, e: DirectoryEntry, limits: Limits)
    requires directory in dirs && !e.deleted && e.recordLength == AlignedDirectoryLength(|e.name|)
    ensures Add(dirs, directory, e, limits).Ok? ==>
              && Add(dirs, directory, e, limits).value == dirs[directory := dirs[directory] + [e]]
              && !e.IsDot() && e.Validate(limits).Ok? && e.recordLength != 0 && FindIndex(dirs[directory], e.Key()).None?
              && EntriesOk(Add(dirs, directory, e, limits).value, limits)
  {
    hide Total;
    if Add(dirs, directory, e, limits).Ok? {
      AddTotal(dirs, directory, e, limits);
    }
  }

  lemma EraseDots(dirs: Dirs, id: u64, parent: u64)
    requires id !in dirs
    ensures EraseDirectory(dirs[id := Dots(id, parent)], id) == Ok(dirs)
  {
    assert dirs[id := Dots(id, parent)] - {id} == dirs;
  }
}
