/** What every run keeps: block ownership, file contents, the directory tree and the link counts. */
module FsInvariant {
  import opened Base
  import opened Devices
  import opened Allocators
  import opened Extents
  import opened Inodes
  import opened InodeTables
  import opened Directories
  import opened Paths
  import opened Trees
  import opened TreeOps
  import opened FileData
  import opened FileBytes
  import opened FileGrowth
  import opened FileWrites
  import opened FileRelease
  import opened FsModel

  // ----- The invariant -----

  /** The allocated blocks are block 0 and, disjointly, the blocks of all inodes' extents. */
  ghost predicate OwnershipOk(used: set<u64>, inodes: map<u64, Inode>) {
    && 0 in used
    && (forall id :: id in inodes ==> OwnedIn(inodes[id].extents, used) && 0 !in Owned(inodes[id].extents))
    && (forall a, b :: a in inodes && b in inodes && a != b ==> Owned(inodes[a].extents) !! Owned(inodes[b].extents))
    && (forall block: int :: block in used ==> block == 0 || HasOwner(block, inodes))
  }

  ghost predicate HasOwner(block: int, inodes: map<u64, Inode>) {
    exists id :: id in inodes && block in Owned(inodes[id].extents)
  }

  ghost predicate InodeOk(device: Device, inode: Inode, superblock: Superblock, limits: Limits)
    requires device.blockSize == superblock.blockSize > 0
  {
    && inode.linkCount <= Max(2, limits.maxHardLinks)
    && inode.attributes == []
    && match inode.inodeType
       case Regular => FileOk(device, inode, superblock, limits) && inode.symlinkTarget == []
       case Directory => Blank(inode) && inode.size == 0 && inode.symlinkTarget == []
       case SymbolicLink =>
         Blank(inode) && 0 < |inode.symlinkTarget| <= limits.maxPathBytes && inode.size == |inode.symlinkTarget|
       case _ => false
  }

  predicate Blank(inode: Inode) {
    inode.extents == [] && inode.allocatedBytes == 0
  }

  predicate GeometryOk(core: Core, limits: Limits) {
    && Geometry(limits, core.superblock.blockSize)
    && 0 < core.superblock.blockCount <= limits.maxBlocks
    && |core.device.bytes| <= limits.maxImageBytes
    && core.superblock.version == 1
    && CountersOk(core.superblock, limits)
  }

  /** The counters may be stale after a failure or a rename, but they never claim too much. */
  predicate CountersOk(superblock: Superblock, limits: Limits) {
    superblock.inodeCount + superblock.freeInodeCount <= limits.maxInodes && superblock.freeBlockCount <= superblock.blockCount
  }

  ghost predicate InodesOk(core: Core, limits: Limits)
    requires core.device.blockSize == core.superblock.blockSize > 0
  {
    forall id {:trigger InodeOk(core.device, core.table.inodes[id], core.superblock, limits)} :: id in core.table.inodes ==> InodeOk(core.device, core.table.inodes[id], core.superblock, limits)
  }

  /** All tables together stay within the limit; the two dot entries of the root are not asked about. */
  predicate EntriesOk(dirs: Dirs, limits: Limits) {
    Total(dirs) <= Max(2, limits.maxDirectoryEntries)
  }

  ghost predicate CoreInv(core: Core, limits: Limits) {
    && GeometryOk(core, limits)
    && StoreOk(core.Files(), core.superblock)
    && OwnershipOk(core.allocation.used, core.table.inodes)
    && core.table.Valid(limits)
    && InodesOk(core, limits)
    && TreeOk(core.Names(), limits)
    && LinksOk(core.Names())
    && EntriesOk(core.dirs, limits)
  }

  // ----- Geometry and counters do not matter to it -----

  lemma SuperblockChange(core: Core, superblock: Superblock, limits: Limits)
    requires CoreInv(core, limits)
    requires superblock.version == core.superblock.version && superblock.blockSize == core.superblock.blockSize
    requires superblock.blockCount == core.superblock.blockCount && superblock.rootInode == core.superblock.rootInode
    requires CountersOk(superblock, limits)
    ensures CoreInv(core.(superblock := superblock), limits)
  {
    hide OwnershipOk, TreeOk, LinksOk, Table.Valid;
    assert core.(superblock := superblock).Names() == core.Names();
    forall id | id in core.table.inodes ensures InodeOk(core.device, core.table.inodes[id], superblock, limits) {
      assert InodeOk(core.device, core.table.inodes[id], core.superblock, limits);
    }
  }

  lemma CursorChange(core: Core, table: Table, limits: Limits)
    requires CoreInv(core, limits) && table.inodes == core.table.inodes && table.Valid(limits)
    ensures CoreInv(core.(table := table), limits)
  {
    assert core.(table := table).Names() == core.Names();
    hide OwnershipOk, TreeOk, LinksOk, Table.Valid, StoreOk;
  }

  lemma CountersOf(core: Core, limits: Limits)
    requires CoreInv(core, limits)
    ensures CountersOk(core.superblock, limits)
  {
    hide OwnershipOk, TreeOk, LinksOk, Table.Valid, StoreOk, InodesOk;
  }

  /** Refreshing the counters makes them right. */
  lemma RefreshedCounters(core: Core, limits: Limits)
    requires CoreInv(core, limits)
    ensures CountersOk(core.Touched().Refreshed(limits).superblock, limits)
    ensures core.Touched().Refreshed(limits).superblock.inodeCount == |core.table.inodes|
    ensures core.Touched().Refreshed(limits).superblock.freeBlockCount == |core.allocation.Free()|
  {
    hide CoreInv, Allocation.Free, Table.Valid;
    CountedParts(core, limits);
    TableCount(core.table, limits);
    FreeWithin(core.allocation);
  }

  lemma CountedParts(core: Core, limits: Limits)
    requires CoreInv(core, limits)
    ensures core.table.Valid(limits) && core.allocation.count == core.superblock.blockCount
  {
    hide OwnershipOk, TreeOk, LinksOk, Table.Valid, InodesOk, Allocation.Valid;
  }

  lemma FreeWithin(a: Allocation)
    ensures |a.Free()| <= a.count
  {
    FreeCount(a, 0);
  }

  // ----- Writing one file leaves the others alone -----

  lemma OtherBytes(store: Store, inode: Inode, after: Store, changed: Inode, other: Inode, superblock: Superblock, limits: Limits, p: nat)
    requires Effect(store, inode, after, changed, superblock, limits)
    requires store.device.blockSize == superblock.blockSize > 0
    requires OwnedIn(other.extents, store.allocation.used) && Owned(other.extents) !! Owned(inode.extents)
    ensures after.device.blockSize == superblock.blockSize
    ensures ByteAt(after.device, other.extents, p) == ByteAt(store.device, other.extents, p)
  {
    hide At, Lookup, Owned, FileOk;
    var block := Lookup(other.extents, BlockOf(p, superblock.blockSize));
    if block.Some? {
      LookupOwned(other.extents, BlockOf(p, superblock.blockSize));
    }
  }

  lemma OtherInode(store: Store, inode: Inode, after: Store, changed: Inode, other: Inode, superblock: Superblock, limits: Limits)
    requires Effect(store, inode, after, changed, superblock, limits)
    requires store.device.blockSize == superblock.blockSize > 0
    requires OwnedIn(other.extents, store.allocation.used) && Owned(other.extents) !! Owned(inode.extents)
    requires InodeOk(store.device, other, superblock, limits)
    ensures after.device.blockSize == superblock.blockSize
    ensures InodeOk(after.device, other, superblock, limits)
    ensures Content(after.device, other) == Content(store.device, other)
  {
    hide ByteAt, Owned, Effect, Lookup, WellFormed, PhysicallyDisjoint, Tidy;
    EffectMeans(store, inode, after, changed, superblock, limits);
    forall p: nat ensures ByteAt(after.device, other.extents, p) == ByteAt(store.device, other.extents, p) {
      OtherBytes(store, inode, after, changed, other, superblock, limits, p);
    }
  }

  /** Sets that grow only by what was free, one of them at a time, stay apart. */
  lemma StillApart(a: set<int>, a': set<int>, b: set<int>, b': set<int>, used: set<u64>)
    requires a !! b && (forall x: int :: x in a ==> x in used) && (forall x: int :: x in b ==> x in used)
    requires a' == a || b' == b
    requires forall x: int :: x in a' && x !in a ==> x !in used
    requires forall x: int :: x in b' && x !in b ==> x !in used
    ensures a' !! b'
  {
    forall x: int | x in a' ensures x !in b' {
      if x in a {
        assert x in used;
      } else {
        assert x !in used;
      }
    }
  }

  lemma EffectOwnership(core: Core, id: u64, after: Store, changed: Inode, limits: Limits)
    requires id in core.table.inodes && OwnershipOk(core.allocation.used, core.table.inodes)
    requires Effect(core.Files(), core.table.inodes[id], after, changed, core.superblock, limits)
    ensures OwnershipOk(after.allocation.used, core.table.inodes[id := changed])
  {
    hide Owned, FileOk, StoreOk, At;
    var inodes, used := core.table.inodes, core.allocation.used;
    var inodes' := inodes[id := changed];
    forall x | x in inodes' ensures OwnedIn(inodes'[x].extents, after.allocation.used) && 0 !in Owned(inodes'[x].extents) {
      assert OwnedIn(inodes[x].extents, used);
    }
    forall a, b | a in inodes' && b in inodes' && a != b ensures Owned(inodes'[a].extents) !! Owned(inodes'[b].extents) {
      assert OwnedIn(inodes[a].extents, used) && OwnedIn(inodes[b].extents, used);
      StillApart(Owned(inodes[a].extents), Owned(inodes'[a].extents), Owned(inodes[b].extents), Owned(inodes'[b].extents), used);
    }
    forall block: int | block in after.allocation.used && block != 0 ensures HasOwner(block, inodes') {
      if block in Owned(changed.extents) {
        assert inodes'[id] == changed;
      } else {
        var x :| x in inodes && block in Owned(inodes[x].extents);
        assert block in Owned(inodes'[x].extents);
      }
    }
  }

  /** Everything about the tree depends on types and link counts only. */
  lemma SameNamesTree(ns: Namespace, inodes: map<u64, Inode>, limits: Limits)
    requires TreeOk(ns, limits) && LinksOk(ns) && SameTypes(ns.inodes, inodes)
    requires forall id :: id in inodes ==> inodes[id].linkCount == ns.inodes[id].linkCount
    ensures TreeOk(ns.(inodes := inodes), limits) && LinksOk(ns.(inodes := inodes))
  {
    SameTypesTree(ns, inodes, limits);
    hide Links;
    forall id | id in inodes ensures LinkCountOk(ns.(inodes := inodes), id) {
      assert LinkCountOk(ns, id);
    }
  }

  /** Replacing one inode and the store under it by what a write to it leaves. */
  lemma EffectKeepsInv(core: Core, id: u64, after: Store, changed: Inode, limits: Limits)
    requires CoreInv(core, limits) && id in core.table.inodes && core.table.inodes[id].inodeType == Regular
    requires Effect(core.Files(), core.table.inodes[id], after, changed, core.superblock, limits)
    ensures after.device.blockSize == core.superblock.blockSize
    ensures var next := core.WithFiles(after).(table := core.table.Put(id, changed));
            && CoreInv(next, limits)
            && forall x :: x in core.table.inodes && x != id ==>
                 Content(after.device, core.table.inodes[x]) == Content(core.device, core.table.inodes[x])
  {
    hide OwnershipOk, TreeOk, LinksOk, StoreOk, FileOk, Content, At, Owned;
    var next := core.WithFiles(after).(table := core.table.Put(id, changed));
    EffectMeans(core.Files(), core.table.inodes[id], after, changed, core.superblock, limits);
    EffectOwnership(core, id, after, changed, limits);
    assert next.Files() == after;
    assert |after.device.bytes| == |core.device.bytes| by {
      StoreBytes(core.Files(), core.superblock);
      StoreBytes(after, core.superblock);
    }
    StoreGeometry(core.Files(), core.superblock);
    assert InodeOk(core.device, core.table.inodes[id], core.superblock, limits);
    assert InodeOk(after.device, changed, core.superblock, limits);
    forall x | x in core.table.inodes && x != id
      ensures InodeOk(after.device, core.table.inodes[x], core.superblock, limits)
      ensures Content(after.device, core.table.inodes[x]) == Content(core.device, core.table.inodes[x])
    {
      assert InodeOk(core.device, core.table.inodes[x], core.superblock, limits);
      OwnersApart(core, x, id);
      OtherInode(core.Files(), core.table.inodes[id], after, changed, core.table.inodes[x], core.superblock, limits);
    }
    SameNamesTree(core.Names(), core.table.inodes[id := changed], limits);
    assert next.Names() == core.Names().(inodes := core.table.inodes[id := changed]);
  }

  lemma StoreBytes(store: Store, superblock: Superblock)
    requires StoreOk(store, superblock)
    ensures |store.device.bytes| == superblock.blockCount * superblock.blockSize
  {
  }

  lemma OwnersApart(core: Core, a: u64, b: u64)
    requires OwnershipOk(core.allocation.used, core.table.inodes)
    requires a in core.table.inodes && b in core.table.inodes && a != b
    ensures OwnedIn(core.table.inodes[a].extents, core.allocation.used)
    ensures Owned(core.table.inodes[a].extents) !! Owned(core.table.inodes[b].extents)
  {
  }

  /** A write to a file of the table: the invariant holds again, a success lays the data over the
      old bytes, a failure keeps them, and every other file keeps its bytes. */
  lemma WriteInodeKeepsInv(core: Core, id: u64, offset: u64, data: seq<byte>, limits: Limits)
    requires CoreInv(core, limits) && id in core.table.inodes && core.table.inodes[id].inodeType == Regular
    ensures core.superblock.blockSize > 0
    ensures var (next, r) := WriteInode(core, id, offset, data, limits);
            && CoreInv(next, limits)
            && next.superblock == core.superblock && next.dirs == core.dirs
            && next.device.blockSize == core.superblock.blockSize
            && next.table.inodes.Keys == core.table.inodes.Keys
            && (r.Ok? <==> WriteFits(core.Files(), core.table.inodes[id], offset, |data|, core.superblock, limits))
            && (r.Ok? ==> Content(next.device, next.table.inodes[id]) ==
                          Overlay(Content(core.device, core.table.inodes[id]), offset, data))
            && (r.Err? ==> Content(next.device, next.table.inodes[id]) == Content(core.device, core.table.inodes[id]))
            && (forall x :: x in core.table.inodes && x != id ==>
                  next.table.inodes[x] == core.table.inodes[x]
                  && Content(next.device, next.table.inodes[x]) == Content(core.device, core.table.inodes[x]))
            && SameTypes(core.table.inodes, next.table.inodes)
            && next.table.inodes[id].linkCount == core.table.inodes[id].linkCount
  {
    hide WriteFits, OwnershipOk, TreeOk, LinksOk, Content, Owned, At, FileData.WriteData;
    var inode := core.table.inodes[id];
    OwnedByTable(core, id);
    assert InodeOk(core.device, inode, core.superblock, limits);
    WriteEffect(core.Files(), inode, offset, data, core.superblock, limits);
    var (store, changed, r) := FileData.WriteData(core.Files(), inode, offset, data, core.superblock, limits);
    EffectKeepsInv(core, id, store, changed, limits);
  }

  lemma OwnedByTable(core: Core, id: u64)
    requires OwnershipOk(core.allocation.used, core.table.inodes) && id in core.table.inodes
    ensures OwnedIn(core.table.inodes[id].extents, core.allocation.used)
  {
  }
}
