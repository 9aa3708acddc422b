/** Whole operations that add names: creating with content, taking a failed creation back, linking. */
module FsNodes {
  import opened Base
  import opened Devices
  import opened Allocators
  import opened Inodes
  import opened InodeTables
  import opened Directories
  import opened Paths
  import opened Trees
  import opened TreeOps
  import opened PathStability
  import opened FileData
  import opened FileWrites
  import opened FsModel
  import opened FsInvariant
  import opened FsCreate
  import opened FsRemove
  import opened FsRemovePath

  // ----- Other files -----

  /** Every file that was there is there, as it was. */
  ghost predicate FilesKept(core: Core, next: Core)
    requires core.device.blockSize > 0 && next.device.blockSize > 0
  {
    forall x :: x in core.table.inodes ==>
      && x in next.table.inodes && next.table.inodes[x] == core.table.inodes[x]
      && Content(next.device, next.table.inodes[x]) == Content(core.device, core.table.inodes[x])
  }

  /** The ownership invariant leaves no choice for the bitmap. */
  lemma UsedDetermined(a: set<u64>, b: set<u64>, inodes: map<u64, Inode>)
    requires OwnershipOk(a, inodes) && OwnershipOk(b, inodes)
    ensures a == b
  {
    UsedWithin(a, b, inodes);
    UsedWithin(b, a, inodes);
  }

  lemma UsedWithin(a: set<u64>, b: set<u64>, inodes: map<u64, Inode>)
    requires OwnershipOk(a, inodes) && OwnershipOk(b, inodes)
    ensures a <= b
  {
    hide Owned;
    forall block: u64 | block in a ensures block in b {
      if block != 0 {
        assert HasOwner(block, inodes);
        var x :| x in inodes && block in Owned(inodes[x].extents);
        assert OwnedIn(inodes[x].extents, b);
      }
    }
  }

  // ----- Taking a failed creation back -----

  lemma AddedFound(dirs: Dirs, parent: u64, e: DirectoryEntry)
    requires parent in dirs && dirs[parent] != [] && !e.deleted
    requires FindIndex(dirs[parent][..|dirs[parent]| - 1], e.Key()).None? && dirs[parent][|dirs[parent]| - 1] == e
    ensures FindIndex(dirs[parent], e.Key()) == Some(|dirs[parent]| - 1)
  {
    var entries := dirs[parent];
    var last := |entries| - 1;
    forall i | 0 <= i < last ensures !entries[i].Named(e.Key()) {
      assert entries[i] == entries[..last][i];
    }
    assert entries[last].Named(e.Key());
  }

  lemma DropNodeIs(core: Core, parent: u64, name: text, id: u64, k: nat)
    requires NameAt(core.Names(), parent, k, id) && name != DOT && name != DOTDOT
    requires FindIndex(core.dirs[parent], NormalizeName(name)) == Some(k)
    requires ReleaseExtents(core.allocation, core.table.inodes[id].extents).1 == Ok(())
    ensures DropNode(core, parent, name, id) == DropLast(core, parent, k, id)
  {
    hide Bury, ReleaseExtents, FindIndex;
    var inode := core.table.inodes[id];
    assert core.table.inodes[id := inode.(extents := [], allocatedBytes := 0)] - {id} == core.table.inodes - {id};
  }

  /** Undoing a creation takes back the inode and every block its content took. */
  lemma DropNodeEffect(core: Core, parent: u64, name: text, id: u64, limits: Limits)
    requires CoreInv(core, limits) && id in core.table.inodes && parent in core.dirs && core.dirs[parent] != []
    requires core.table.inodes[id].inodeType != Directory && core.table.inodes[id].linkCount == 1
    requires var entries := core.dirs[parent];
             var last := |entries| - 1;
             && !entries[last].deleted && entries[last].inode == id && entries[last].name == name
             && name != DOT && name != DOTDOT
             && FindIndex(entries[..last], NormalizeName(name)).None?
    ensures var next := DropNode(core, parent, name, id);
            && CoreInv(next, limits) && next.table.inodes == core.table.inodes - {id}
            && next.superblock == core.superblock && next.device == core.device
            && Shrunk(core.Names(), next.Names())
            && next.dirs == core.dirs[parent := Bury(core.dirs[parent], |core.dirs[parent]| - 1)]
  {
    var entries := core.dirs[parent];
    var last := |entries| - 1;
    AddedFound(core.dirs, parent, entries[last]);
    AppendedPlace(core, parent, last, id, limits);
    assert NameAt(core.Names(), parent, last, id);
    hide CoreInv, Shrunk, NameAt, ReleaseExtents, FindIndex, Bury;
    DropLastInv(core, parent, last, id, limits);
    DropNodeIs(core, parent, name, id, last);
  }

  lemma AppendedPlace(core: Core, parent: u64, k: nat, id: u64, limits: Limits)
    requires CoreInv(core, limits) && parent in core.dirs && k < |core.dirs[parent]|
    requires core.dirs[parent][k].name != DOT && core.dirs[parent][k].name != DOTDOT
    ensures 2 <= k
  {
    hide CoreInv, LinksOk, OwnershipOk, StillOk, EntriesOk, Table.Valid, Allocation.Valid;
    InvPieces(core, limits);
    assert TableOk(parent, core.Names().dirs[parent], limits);
  }

  // ----- Creating -----

  lemma AddedLast(core: Core, table: Table, id: u64, parent: u64, name: text, inodeType: InodeType, mode: u16, symlink: text)
    requires parent in core.dirs && id !in core.dirs && id != parent
    ensures var next := Added(core, table, id, parent, name, inodeType, mode, symlink);
            && parent in next.dirs && next.dirs[parent] == core.dirs[parent] + [NewEntry(id, inodeType, name)]
            && id in next.table.inodes && next.table.inodes[id] == NewInode(id, inodeType, mode, symlink)
            && next.table.inodes.Keys == core.table.inodes.Keys + {id}
            && next.device == core.device && next.superblock == core.superblock
            && (forall x :: x in core.table.inodes && x != id ==> next.table.inodes[x] == core.table.inodes[x])
            && next.dirs.Keys == core.dirs.Keys + (if inodeType == Directory then {id} else {})
            && (inodeType == Directory ==> next.dirs[id] == Dots(id, parent))
  {
    hide Dots;
  }

  lemma AddedNames(core: Core, table: Table, id: u64, parent: u64, name: text, inodeType: InodeType, mode: u16, symlink: text, limits: Limits)
    requires id !in core.dirs && id != parent && Nameable(core.Names(), parent, NewEntry(id, inodeType, name), limits)
    ensures NameAdded(core.dirs, Added(core, table, id, parent, name, inodeType, mode, symlink).dirs, parent, NewEntry(id, inodeType, name))
  {
    hide NameAdded, Dots;
    var dirs := if inodeType == Directory then core.dirs[id := Dots(id, parent)] else core.dirs;
    AppendNames(dirs, core.dirs, parent, NewEntry(id, inodeType, name));
  }

  /** What a successful creation leaves besides the invariant: a node that was not there, found under
      its name, and every other name finding what it found. */
  ghost predicate Made(core: Core, next: Core, id: u64, parent: u64, name: text, inodeType: InodeType, content: seq<byte>, symlink: text)
    requires core.device.blockSize > 0 && next.device.blockSize > 0
  {
    && id !in core.table.inodes && next.table.inodes.Keys == core.table.inodes.Keys + {id}
    && next.table.inodes[id].inodeType == inodeType
    && (inodeType == Regular ==> Content(next.device, next.table.inodes[id]) == content)
    && (inodeType == SymbolicLink ==> next.table.inodes[id].symlinkTarget == symlink)
    && NameAdded(core.dirs, next.dirs, parent, NewEntry(id, inodeType, name))
    && next.dirs.Keys == core.dirs.Keys + (if inodeType == Directory then {id} else {})
    && (inodeType == Directory ==> next.dirs[id] == Dots(id, parent))
  }

  lemma AddNodeMade(core: Core, parent: u64, name: text, inodeType: InodeType, mode: u16, symlink: text, limits: Limits)
    requires CoreInv(core, limits) && parent in core.dirs && inodeType.Usable()
    requires AddNode(core, parent, name, inodeType, mode, symlink, limits).1.Ok?
    ensures core.device.blockSize > 0
    ensures var (next, r) := AddNode(core, parent, name, inodeType, mode, symlink, limits);
            && CoreInv(next, limits)
            && next.device == core.device
            && FilesKept(core, next) && Made(core, next, r.value, parent, name, inodeType, [], symlink)
            && next.table.inodes[r.value].linkCount == (if inodeType == Directory then 2 else 1)
            && parent in next.dirs && next.dirs[parent] != []
            && var last := |next.dirs[parent]| - 1;
               && next.dirs[parent][last] == NewEntry(r.value, inodeType, name)
               && FindIndex(next.dirs[parent][..last], NormalizeName(name)).None?
               && name != DOT && name != DOTDOT
  {
    hide AddNode, CoreInv, Content, NameAdded, Dots, FindIndex, DirectoryEntry.Validate;
    AddNodeEffect(core, parent, name, inodeType, mode, symlink, limits);
    var (next, r) := AddNode(core, parent, name, inodeType, mode, symlink, limits);
    BlockSizePositive(core, limits);
    TableKeysApart(core, limits);
    DirectoryExists(core, parent, limits);
    hide Added;
    AddedLast(core, next.table, r.value, parent, name, inodeType, mode, symlink);
    AddedNames(core, next.table, r.value, parent, name, inodeType, mode, symlink, limits);
    var e := NewEntry(r.value, inodeType, name);
    assert next.dirs[parent][..|next.dirs[parent]| - 1] == core.dirs[parent];
    AddedFound(next.dirs, parent, e);
    EmptyContent(next.device, next.table.inodes[r.value]);
  }

  lemma EmptyContent(device: Device, inode: Inode)
    requires device.blockSize > 0
    ensures inode.size == 0 ==> Content(device, inode) == []
  {
  }

  lemma BlockSizePositive(core: Core, limits: Limits)
    requires CoreInv(core, limits)
    ensures core.device.blockSize == core.superblock.blockSize > 0
  {
  }

  lemma DirectoryExists(core: Core, d: u64, limits: Limits)
    requires CoreInv(core, limits) && d in core.dirs
    ensures d in core.table.inodes
  {
    RootExists(core.Names(), limits);
  }

  /** The node with its content and nothing else changed, or no node and no block taken. */
  lemma MakeNodeEffect(core: Core, parent: u64, name: text, inodeType: InodeType, mode: u16, content: seq<byte>, symlink: text, limits: Limits)
    requires CoreInv(core, limits) && parent in core.dirs && inodeType.Usable()
    ensures core.device.blockSize > 0 && core.superblock.blockSize > 0
    ensures var (next, r) := MakeNode(core, parent, name, inodeType, mode, content, symlink, limits);
            && CoreInv(next, limits) && next.device.blockSize > 0
            && FilesKept(core, next)
            && (r.Ok? ==> Made(core, next, r.value, parent, name, inodeType, content, symlink))
            && (r.Err? ==> next.table.inodes == core.table.inodes && next.allocation.used == core.allocation.used
                           && SameNames(core.dirs, next.dirs))
  {
    hide SameNames, CoreInv, AddNode, Content, DropNode, Made, FilesKept;
    BlockSizePositive(core, limits);
    AddNodeEffect(core, parent, name, inodeType, mode, symlink, limits);
    var (added, r) := AddNode(core, parent, name, inodeType, mode, symlink, limits);
    if r.Err? {
      SameFilesKept(core, added);
      SameNamesReflexive(core.dirs);
    } else {
      AddNodeMade(core, parent, name, inodeType, mode, symlink, limits);
      if inodeType == Regular {
        MadeEmpty(core, added, parent, name, r.value, symlink);
        if content != [] {
          WriteMade(core, added, parent, name, r.value, content, symlink, limits);
        }
      } else {
        MadeWithoutContent(core, added, r.value, parent, name, inodeType, content, symlink);
      }
    }
  }

  lemma SameNamesReflexive(dirs: Dirs)
    ensures SameNames(dirs, dirs)
  {
  }

  lemma SameFilesKept(core: Core, next: Core)
    requires core.device.blockSize > 0 && next.device == core.device && next.table.inodes == core.table.inodes
    ensures FilesKept(core, next)
  {
    hide Content;
  }

  lemma MadeWithoutContent(core: Core, next: Core, id: u64, parent: u64, name: text, inodeType: InodeType, content: seq<byte>, symlink: text)
    requires core.device.blockSize > 0 && next.device.blockSize > 0 && inodeType != Regular
    requires Made(core, next, id, parent, name, inodeType, [], symlink)
    ensures Made(core, next, id, parent, name, inodeType, content, symlink)
  {
  }

  lemma OverlayEmpty(data: seq<byte>)
    ensures Overlay([], 0, data) == data
  {
  }

  lemma WriteMade(core: Core, added: Core, parent: u64, name: text, id: u64, content: seq<byte>, symlink: text, limits: Limits)
    requires CoreInv(core, limits) && CoreInv(added, limits) && id in added.table.inodes
    requires core.device.blockSize > 0 && added.device.blockSize > 0 && added.superblock.blockSize > 0
    requires FilesKept(core, added) && Made(core, added, id, parent, name, Regular, [], symlink)
    requires added.table.inodes[id].linkCount == 1 && Content(added.device, added.table.inodes[id]) == []
    requires parent in added.dirs && added.dirs[parent] != []
    requires var last := |added.dirs[parent]| - 1;
             && added.dirs[parent][last] == NewEntry(id, Regular, name)
             && FindIndex(added.dirs[parent][..last], NormalizeName(name)).None?
             && name != DOT && name != DOTDOT
    ensures var (written, w) := WriteInode(added, id, 0, content, limits);
            && CoreInv(written, limits) && written.device.blockSize > 0
            && (w.Ok? ==> FilesKept(core, written) && Made(core, written, id, parent, name, Regular, content, symlink))
            && (w.Err? ==>
                  && var next := DropNode(written, parent, name, id);
                  && CoreInv(next, limits) && next.device.blockSize > 0 && FilesKept(core, next)
                  && next.table.inodes == core.table.inodes && next.allocation.used == core.allocation.used
                  && SameNames(core.dirs, next.dirs))
  {
    hide CoreInv, SameNames, NameAdded, Content, FindIndex, DropNode, WriteInode, Made, FilesKept, OneWritten, NewEntry;
    MadeTyped(core, added, parent, name, id, symlink);
    WrittenFacts(added, id, content, limits);
    var (written, w) := WriteInode(added, id, 0, content, limits);
    if w.Ok? {
      MadeWritten(core, added, written, parent, name, id, content, symlink);
    } else {
      MadeNamed(core, added, parent, name, id, symlink);
      MadeUndone(core, added, written, parent, name, id, limits);
    }
  }

  lemma MadeEmpty(core: Core, added: Core, parent: u64, name: text, id: u64, symlink: text)
    requires core.device.blockSize > 0 && added.device.blockSize > 0
    requires Made(core, added, id, parent, name, Regular, [], symlink)
    ensures id in added.table.inodes && Content(added.device, added.table.inodes[id]) == []
  {
  }

  lemma MadeTyped(core: Core, added: Core, parent: u64, name: text, id: u64, symlink: text)
    requires core.device.blockSize > 0 && added.device.blockSize > 0
    requires Made(core, added, id, parent, name, Regular, [], symlink)
    ensures id !in core.table.inodes && added.table.inodes.Keys == core.table.inodes.Keys + {id}
    ensures added.table.inodes[id].inodeType == Regular
  {
  }

  lemma MadeNamed(core: Core, added: Core, parent: u64, name: text, id: u64, symlink: text)
    requires core.device.blockSize > 0 && added.device.blockSize > 0
    requires Made(core, added, id, parent, name, Regular, [], symlink)
    ensures NameAdded(core.dirs, added.dirs, parent, NewEntry(id, Regular, name)) && added.dirs.Keys == core.dirs.Keys
  {
    hide NameAdded, Content;
  }

  /** A write to one inode leaves names, geometry and every other file alone. */
  ghost predicate OneWritten(core: Core, next: Core, id: u64)
    requires core.device.blockSize > 0 && next.device.blockSize > 0
  {
    && next.superblock == core.superblock && next.dirs == core.dirs
    && next.table.inodes.Keys == core.table.inodes.Keys
    && SameTypes(core.table.inodes, next.table.inodes)
    && (id in core.table.inodes ==> next.table.inodes[id].linkCount == core.table.inodes[id].linkCount)
    && (forall x :: x in core.table.inodes && x != id ==>
          && next.table.inodes[x] == core.table.inodes[x]
          && Content(next.device, next.table.inodes[x]) == Content(core.device, core.table.inodes[x]))
  }

  lemma WrittenFacts(added: Core, id: u64, content: seq<byte>, limits: Limits)
    requires CoreInv(added, limits) && id in added.table.inodes && added.table.inodes[id].inodeType == Regular
    requires added.device.blockSize > 0 && Content(added.device, added.table.inodes[id]) == []
    ensures added.superblock.blockSize > 0
    ensures var (written, w) := WriteInode(added, id, 0, content, limits);
            && CoreInv(written, limits) && written.device.blockSize > 0
            && id in written.table.inodes && OneWritten(added, written, id)
            && (w.Ok? ==> Content(written.device, written.table.inodes[id]) == content)
  {
    hide CoreInv, Content, WriteInode, Overlay;
    WriteInodeKeepsInv(added, id, 0, content, limits);
    OverlayEmpty(content);
  }

  lemma MadeWritten(core: Core, added: Core, written: Core, parent: u64, name: text, id: u64, content: seq<byte>, symlink: text)
    requires core.device.blockSize > 0 && added.device.blockSize > 0 && written.device.blockSize > 0
    requires FilesKept(core, added) && Made(core, added, id, parent, name, Regular, [], symlink)
    requires OneWritten(added, written, id) && id in written.table.inodes
    requires Content(written.device, written.table.inodes[id]) == content
    ensures FilesKept(core, written) && Made(core, written, id, parent, name, Regular, content, symlink)
  {
    hide Content, Directories.Find;
  }

  lemma MadeUndone(core: Core, added: Core, written: Core, parent: u64, name: text, id: u64, limits: Limits)
    requires CoreInv(core, limits) && CoreInv(written, limits) && id in written.table.inodes
    requires core.device.blockSize > 0 && added.device.blockSize > 0 && written.device.blockSize > 0
    requires id !in core.table.inodes && added.table.inodes.Keys == core.table.inodes.Keys + {id}
    requires FilesKept(core, added) && OneWritten(added, written, id)
    requires added.table.inodes[id].inodeType == Regular && added.table.inodes[id].linkCount == 1
    requires parent in added.dirs && added.dirs[parent] != []
    requires var last := |added.dirs[parent]| - 1;
             && added.dirs[parent][last] == NewEntry(id, Regular, name)
             && FindIndex(added.dirs[parent][..last], NormalizeName(name)).None?
             && name != DOT && name != DOTDOT
    requires NameAdded(core.dirs, added.dirs, parent, NewEntry(id, Regular, name)) && added.dirs.Keys == core.dirs.Keys
    ensures var next := DropNode(written, parent, name, id);
            && CoreInv(next, limits) && next.device.blockSize > 0 && FilesKept(core, next)
            && next.table.inodes == core.table.inodes && next.allocation.used == core.allocation.used
            && SameNames(core.dirs, next.dirs)
  {
    hide NameAdded, SameNames, Bury, CoreInv, Content, FindIndex, DropNode, Shrunk, OneWritten, FilesKept, OwnershipOk, TreeOk, LinksOk, StillOk, Table.Valid, Allocation.Valid, NewEntry;
    WrittenNames(added, written, id);
    NewEntryFacts(id, name);
    DropNodeEffect(written, parent, name, id, limits);
    var next := DropNode(written, parent, name, id);
    UndoneNames(core.dirs, written, parent, NewEntry(id, Regular, name), limits);
    UndoneInodes(core, added, written, id);
    BlockSizePositive(next, limits);
    SameInodesKept(core, added, written, next, id);
    InvPieces(next, limits);
    InvPieces(core, limits);
    UsedDetermined(next.allocation.used, core.allocation.used, core.table.inodes);
  }

  /** The name of a file made and taken back finds nothing again, and every other name what it found. */
  lemma UndoneNames(dirs: Dirs, written: Core, parent: u64, e: DirectoryEntry, limits: Limits)
    requires CoreInv(written, limits) && NameAdded(dirs, written.dirs, parent, e) && written.dirs.Keys == dirs.Keys
    requires parent in written.dirs && written.dirs[parent] != [] && written.dirs[parent][|written.dirs[parent]| - 1] == e && !e.deleted
    ensures SameNames(dirs, written.dirs[parent := Bury(written.dirs[parent], |written.dirs[parent]| - 1)])
  {
    hide CoreInv, Bury, FindIndex, TreeOk, LinksOk, OwnershipOk, StillOk, Table.Valid, Allocation.Valid, EntriesOk;
    InvPieces(written, limits);
    UniqueIn(written.Names(), parent, limits);
    var k := |written.dirs[parent]| - 1;
    var next := written.dirs[parent := Bury(written.dirs[parent], k)];
    forall d: u64, name: text ensures Directories.Find(next, d, name) == Directories.Find(dirs, d, name) {
      BuryFinds(written.dirs, parent, k, d, name);
    }
  }

  lemma UniqueIn(ns: Namespace, d: u64, limits: Limits)
    requires TreeOk(ns, limits) && d in ns.dirs
    ensures UniqueNames(ns.dirs[d])
  {
    assert TableOk(d, ns.dirs[d], limits);
  }

  lemma NewEntryFacts(id: u64, name: text)
    ensures var e := NewEntry(id, Regular, name); !e.deleted && e.inode == id && e.name == name
  {
  }

  lemma WrittenNames(added: Core, written: Core, id: u64)
    requires added.device.blockSize > 0 && written.device.blockSize > 0
    requires OneWritten(added, written, id) && id in added.table.inodes
    ensures written.dirs == added.dirs && id in written.table.inodes
    ensures written.table.inodes[id].inodeType == added.table.inodes[id].inodeType
    ensures written.table.inodes[id].linkCount == added.table.inodes[id].linkCount
  {
  }

  lemma UndoneInodes(core: Core, added: Core, written: Core, id: u64)
    requires core.device.blockSize > 0 && added.device.blockSize > 0 && written.device.blockSize > 0
    requires id !in core.table.inodes && added.table.inodes.Keys == core.table.inodes.Keys + {id}
    requires FilesKept(core, added) && OneWritten(added, written, id)
    ensures written.table.inodes - {id} == core.table.inodes
  {
    hide Content;
    var left := written.table.inodes - {id};
    assert left.Keys == core.table.inodes.Keys;
  }

  lemma SameInodesKept(core: Core, added: Core, written: Core, next: Core, id: u64)
    requires core.device.blockSize > 0 && added.device.blockSize > 0 && next.device == written.device && written.device.blockSize > 0
    requires id !in core.table.inodes && next.table.inodes == core.table.inodes
    requires FilesKept(core, added) && OneWritten(added, written, id)
    ensures FilesKept(core, next)
  {
    hide Content;
  }
}
