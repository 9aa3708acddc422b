/** Dropping one name: the inode goes with its blocks exactly when no name is left. */
module FsRemove {
  import opened Base
  import opened Devices
  import opened Allocators
  import opened Extents
  import opened Inodes
  import opened InodeTables
  import opened Directories
  import opened Paths
  import opened Trees
  import opened TreeOps
  import opened PathStability
  import opened FileData
  import opened FileBytes
  import opened FileGrowth
  import opened FileWrites
  import opened FileRelease
  import opened FsModel
  import opened FsInvariant

  // ----- The tree without one name -----

  /** An active name of an inode, at place `k` of directory `d`. */
  predicate NameAt(ns: Namespace, d: u64, k: nat, id: u64) {
    d in ns.dirs && 2 <= k < |ns.dirs[d]| && LinkAt(ns.dirs[d], k, id) && id in ns.inodes
  }

  /** The tree after the name is buried and the inode's link count is `links`. */
  function Unnamed(ns: Namespace, d: u64, k: nat, id: u64, inode: Inode): Namespace
    requires NameAt(ns, d, k, id)
  {
    Namespace(ns.inodes[id := inode], ns.dirs[d := Bury(ns.dirs[d], k)], ns.root)
  }

  lemma UnnamedTree(ns: Namespace, d: u64, k: nat, id: u64, inode: Inode, limits: Limits)
    requires TreeOk(ns, limits) && LinksOk(ns) && NameAt(ns, d, k, id) && inode.inodeType == ns.inodes[id].inodeType
    ensures var after := Unnamed(ns, d, k, id, inode);
            && TreeOk(after, limits) && LinksOkBut(after, id)
            && |Links(ns.dirs, id)| == |Links(after.dirs, id)| + 1
  {
    hide Links, TableOk;
    var changed := ns.(inodes := ns.inodes[id := inode]);
    assert LinksOkBut(changed, id) by {
      forall x | x in changed.inodes && x != id ensures LinkCountOk(changed, x) {
        assert LinkCountOk(ns, x);
      }
    }
    SameTypesTree(ns, changed.inodes, limits);
    BuryTree(changed, d, k, limits);
    BuryLinks(changed, d, k);
  }

  lemma UnnamedShrunk(ns: Namespace, d: u64, k: nat, id: u64, inode: Inode, after: Namespace)
    requires NameAt(ns, d, k, id) && SameFile(ns.inodes[id], inode) && after.root == ns.root
    requires forall x :: x in after.inodes ==> x in ns.inodes && after.inodes[x] == Unnamed(ns, d, k, id, inode).inodes[x]
    requires forall x :: x in after.dirs ==> x in ns.dirs && after.dirs[x] == Unnamed(ns, d, k, id, inode).dirs[x]
    ensures Shrunk(ns, after)
  {
  }

  // ----- One name less, others left -----

  lemma SameExtentsOwnership(used: set<u64>, inodes: map<u64, Inode>, id: u64, inode: Inode)
    requires OwnershipOk(used, inodes) && id in inodes && inode.extents == inodes[id].extents
    ensures OwnershipOk(used, inodes[id := inode])
  {
    hide Owned;
    var after := inodes[id := inode];
    assert forall x :: x in after ==> x in inodes && after[x].extents == inodes[x].extents;
    forall a, b | a in after && b in after && a != b ensures Owned(after[a].extents) !! Owned(after[b].extents) {
      assert Owned(inodes[a].extents) !! Owned(inodes[b].extents);
    }
    forall block: int | block in used && block != 0 ensures HasOwner(block, after) {
      assert HasOwner(block, inodes);
      var x :| x in inodes && block in Owned(inodes[x].extents);
      assert block in Owned(after[x].extents);
    }
  }

  lemma LinkCountInode(device: Device, inode: Inode, links: u32, generation: u64, superblock: Superblock, limits: Limits)
    requires device.blockSize == superblock.blockSize > 0
    requires InodeOk(device, inode, superblock, limits) && links <= Max(2, limits.maxHardLinks)
    ensures InodeOk(device, inode.(linkCount := links, generation := generation), superblock, limits)
  {
    hide ExactCover, Irreducible, WellFormed, PhysicallyDisjoint, Stored, ByteAt;
    var after := inode.(linkCount := links, generation := generation);
    if inode.inodeType == Regular {
      assert Blocks(after, superblock) == Blocks(inode, superblock);
      assert TailZero(device, inode) ==> TailZero(device, after);
    }
  }

  /** Dropping names touches neither the device nor the geometry, only inodes, tables and bitmap. */
  lemma InvAfterDrop(core: Core, after: Core, limits: Limits)
    requires CoreInv(core, limits)
    requires after.device == core.device && after.superblock == core.superblock
    requires after.allocation.Valid() && after.allocation.count == core.allocation.count
    requires OwnershipOk(after.allocation.used, after.table.inodes) && after.table.Valid(limits)
    requires StillOk(core, after.table.inodes, limits)
    requires TreeOk(after.Names(), limits) && LinksOk(after.Names()) && EntriesOk(after.dirs, limits)
    ensures CoreInv(after, limits)
  {
    hide OwnershipOk, EntriesOk, TreeOk, LinksOk, InodeOk, Table.Valid, Allocation.Valid;
  }

  ghost predicate StillOk(core: Core, inodes: map<u64, Inode>, limits: Limits) {
    core.device.blockSize == core.superblock.blockSize > 0 &&
    forall id :: id in inodes ==> InodeOk(core.device, inodes[id], core.superblock, limits)
  }

  lemma InvPieces(core: Core, limits: Limits)
    requires CoreInv(core, limits)
    ensures core.allocation.Valid() && OwnershipOk(core.allocation.used, core.table.inodes)
    ensures core.table.Valid(limits) && TreeOk(core.Names(), limits) && LinksOk(core.Names())
    ensures StillOk(core, core.table.inodes, limits) && EntriesOk(core.dirs, limits)
  {
    hide OwnershipOk, EntriesOk, TreeOk, LinksOk, InodeOk, Table.Valid, Allocation.Valid;
  }

  lemma StillOkPut(core: Core, id: u64, inode: Inode, limits: Limits)
    requires StillOk(core, core.table.inodes, limits)
    requires core.device.blockSize == core.superblock.blockSize > 0 && InodeOk(core.device, inode, core.superblock, limits)
    ensures StillOk(core, core.table.inodes[id := inode], limits)
  {
    hide InodeOk;
  }

  lemma StillOkLess(core: Core, id: u64, limits: Limits)
    requires StillOk(core, core.table.inodes, limits)
    ensures StillOk(core, core.table.inodes - {id}, limits)
  {
    hide InodeOk;
  }

  lemma FewerOk(core: Core, id: u64, limits: Limits)
    requires StillOk(core, core.table.inodes, limits) && id in core.table.inodes
    ensures StillOk(core, core.table.inodes[id := Fewer(core.table.inodes[id])], limits)
  {
    var inode := core.table.inodes[id];
    assert InodeOk(core.device, inode, core.superblock, limits);
    LinkCountInode(core.device, inode, Fewer(inode).linkCount, inode.generation, core.superblock, limits) by {
      hide FileOk;
    }
    hide InodeOk;
    StillOkPut(core, id, Fewer(inode), limits);
  }

  function Fewer(inode: Inode): Inode {
    inode.(linkCount := if inode.linkCount > 0 then inode.linkCount - 1 else 0)
  }

  lemma FewerFacts(inode: Inode)
    ensures SameFile(inode, Fewer(inode)) && Fewer(inode).inodeType == inode.inodeType
    ensures Fewer(inode).extents == inode.extents && Fewer(inode).identifier == inode.identifier
  {
  }

  lemma BuryEntriesOk(dirs: Dirs, d: u64, k: nat, limits: Limits)
    requires EntriesOk(dirs, limits) && d in dirs && k < |dirs[d]|
    ensures EntriesOk(dirs[d := Bury(dirs[d], k)], limits)
  {
    hide Total;
    TotalPut(dirs, d, Bury(dirs[d], k));
  }

  lemma EraseEntriesOk(dirs: Dirs, id: u64, limits: Limits)
    requires EntriesOk(dirs, limits)
    ensures EntriesOk(dirs - {id}, limits)
  {
    hide Total;
    TotalErase(dirs, id);
  }

  function DropOne(core: Core, d: u64, k: nat, id: u64): Core
    requires NameAt(core.Names(), d, k, id)
  {
    core.(dirs := core.dirs[d := Bury(core.dirs[d], k)], table := core.table.Put(id, Fewer(core.table.inodes[id])))
  }

  lemma DropOneInv(core: Core, d: u64, k: nat, id: u64, limits: Limits)
    requires CoreInv(core, limits) && NameAt(core.Names(), d, k, id)
    requires core.table.inodes[id].inodeType != Directory && core.table.inodes[id].linkCount >= 2
    ensures CoreInv(DropOne(core, d, k, id), limits)
    ensures Shrunk(core.Names(), DropOne(core, d, k, id).Names())
  {
    hide CoreInv, EntriesOk, Bury, StillOk, OwnershipOk, TreeOk, LinksOk, Table.Valid, Allocation.Valid, LinkAt, InodeOk, Fewer, Links, Owned;
    InvPieces(core, limits);
    var inode, after := core.table.inodes[id], DropOne(core, d, k, id);
    FewerFacts(inode);
    assert after.Names() == Unnamed(core.Names(), d, k, id, Fewer(inode));
    assert after.table == core.table.Put(id, Fewer(inode));
    hide Unnamed, NameAt;
    OneLinkLess(core.Names(), d, k, id, limits);
    SameExtentsOwnership(core.allocation.used, core.table.inodes, id, Fewer(inode));
    FewerOk(core, id, limits);
    PutValid(core.table, id, Fewer(inode), limits);
    BuryEntriesOk(core.dirs, d, k, limits);
    InvAfterDrop(core, after, limits);
    UnnamedShrunk(core.Names(), d, k, id, Fewer(inode), after.Names());
  }

  lemma OneLinkLess(ns: Namespace, d: u64, k: nat, id: u64, limits: Limits)
    requires TreeOk(ns, limits) && LinksOk(ns) && NameAt(ns, d, k, id)
    requires ns.inodes[id].inodeType != Directory && ns.inodes[id].linkCount >= 2
    ensures TreeOk(Unnamed(ns, d, k, id, Fewer(ns.inodes[id])), limits)
    ensures LinksOk(Unnamed(ns, d, k, id, Fewer(ns.inodes[id])))
  {
    hide TreeOk, LinksOk, LinksOkBut, LinkCountOk, Links, Fewer;
    var fewer := Fewer(ns.inodes[id]);
    var after := Unnamed(ns, d, k, id, fewer);
    assert after.inodes == ns.inodes[id := fewer] && after.root == ns.root;
    hide Unnamed, NameAt;
    FewerFacts(ns.inodes[id]);
    UnnamedTree(ns, d, k, id, fewer, limits);
    OneName(ns, id, limits);
    FileCountIs(after, id) by {
      hide Bury;
      assert fewer == Fewer(ns.inodes[id]) && fewer.linkCount == ns.inodes[id].linkCount - 1 by {
        FewerCount(ns.inodes[id]);
      }
    }
    LinksOkJoin(after, id);
  }

  lemma FewerCount(inode: Inode)
    requires inode.linkCount > 0
    ensures Fewer(inode).linkCount == inode.linkCount - 1
  {
  }

  lemma FileCountIs(ns: Namespace, id: u64)
    requires id in ns.inodes && id != ns.root && ns.inodes[id].inodeType != Directory
    requires |Links(ns.dirs, id)| == ns.inodes[id].linkCount >= 1
    ensures LinkCountOk(ns, id)
  {
  }

  lemma LinksOkJoin(ns: Namespace, id: u64)
    requires LinksOkBut(ns, id) && (id in ns.inodes ==> LinkCountOk(ns, id))
    ensures LinksOk(ns)
  {
    hide LinkCountOk;
  }

  lemma PutValid(table: Table, id: u64, inode: Inode, limits: Limits)
    requires table.Valid(limits) && id in table.inodes && inode.identifier == table.inodes[id].identifier
    ensures table.Put(id, inode).Valid(limits)
  {
  }

  // ----- The last name of a file -----

  /** An inode gone with the blocks it owned. */
  lemma ErasedOwnership(used: set<u64>, inodes: map<u64, Inode>, id: u64, after: set<u64>)
    requires OwnershipOk(used, inodes) && id in inodes
    requires forall b: int :: b in after <==> b in used && b !in Owned(inodes[id].extents)
    ensures OwnershipOk(after, inodes - {id})
  {
    hide Owned;
    var rest := inodes - {id};
    forall x | x in rest ensures OwnedIn(rest[x].extents, after) && 0 !in Owned(rest[x].extents) {
      assert OwnedIn(inodes[x].extents, used);
      assert Owned(inodes[x].extents) !! Owned(inodes[id].extents);
    }
    forall a, b | a in rest && b in rest && a != b ensures Owned(rest[a].extents) !! Owned(rest[b].extents) {
      assert Owned(inodes[a].extents) !! Owned(inodes[b].extents);
    }
    forall block: int | block in after && block != 0 ensures HasOwner(block, rest) {
      assert HasOwner(block, inodes);
      var x :| x in inodes && block in Owned(inodes[x].extents);
      assert x in rest && block in Owned(rest[x].extents);
    }
  }

  function DropLast(core: Core, d: u64, k: nat, id: u64): Core
    requires NameAt(core.Names(), d, k, id)
  {
    core.(dirs := core.dirs[d := Bury(core.dirs[d], k)],
          allocation := ReleaseExtents(core.allocation, core.table.inodes[id].extents).0,
          table := Table(core.table.inodes - {id}, if id < core.table.next then id else core.table.next))
  }

  lemma LastLinkGone(ns: Namespace, d: u64, k: nat, id: u64, limits: Limits)
    requires TreeOk(ns, limits) && LinksOk(ns) && NameAt(ns, d, k, id)
    requires ns.inodes[id].inodeType != Directory && ns.inodes[id].linkCount == 1
    ensures TreeOk(Removed(ns, d, k, id), limits) && LinksOk(Removed(ns, d, k, id))
  {
    hide TreeOk, LinksOk, LinksOkBut, Links, Unnamed, Removed, NameAt, LinkCountOk;
    UnnamedFacts(ns, d, k, id);
    var inode, unnamed := ns.inodes[id], Unnamed(ns, d, k, id, ns.inodes[id]);
    OneName(ns, id, limits);
    UnnamedTree(ns, d, k, id, inode, limits);
    assert |Links(unnamed.dirs, id)| == 0;
    EraseTree(unnamed, id, limits);
    forall x | x in unnamed.inodes && x != id ensures LinkCountOk(unnamed.(inodes := unnamed.inodes - {id}), x) {
      OtherCount(unnamed, x, id);
    }
    LinksOkIs(unnamed.(inodes := unnamed.inodes - {id}));
  }

  lemma UnnamedFacts(ns: Namespace, d: u64, k: nat, id: u64)
    requires NameAt(ns, d, k, id)
    ensures id in ns.inodes && d in ns.dirs && k < |ns.dirs[d]|
    ensures var unnamed := Unnamed(ns, d, k, id, ns.inodes[id]);
            && unnamed.inodes == ns.inodes && unnamed.root == ns.root
            && unnamed.dirs == ns.dirs[d := Bury(ns.dirs[d], k)]
            && Removed(ns, d, k, id) == unnamed.(inodes := unnamed.inodes - {id})
            && RemovedDirectory(ns, d, k, id) == unnamed.(inodes := unnamed.inodes - {id}, dirs := unnamed.dirs - {id})
  {
  }

  function Removed(ns: Namespace, d: u64, k: nat, id: u64): Namespace
    requires NameAt(ns, d, k, id)
  {
    Namespace(ns.inodes - {id}, ns.dirs[d := Bury(ns.dirs[d], k)], ns.root)
  }

  lemma LinksOkIs(ns: Namespace)
    requires forall id :: id in ns.inodes ==> LinkCountOk(ns, id)
    ensures LinksOk(ns)
  {
  }

  lemma OtherCount(ns: Namespace, x: u64, id: u64)
    requires LinksOkBut(ns, id) && x in ns.inodes && x != id
    ensures LinkCountOk(ns.(inodes := ns.inodes - {id}), x)
  {
    hide Links;
    assert LinkCountOk(ns, x);
  }

  /** What the link count says about a file, and about a directory that is not the root. */
  lemma OneName(ns: Namespace, id: u64, limits: Limits)
    requires TreeOk(ns, limits) && LinksOk(ns) && id in ns.inodes
    ensures ns.inodes[id].inodeType != Directory ==> id != ns.root && |Links(ns.dirs, id)| == ns.inodes[id].linkCount
    ensures ns.inodes[id].inodeType == Directory && id != ns.root ==> |Links(ns.dirs, id)| == 1
  {
    TreeRoot(ns, limits);
    assert LinkCountOk(ns, id);
  }

  /** What an inode's extents satisfy, file or not. */
  lemma ExtentsSound(core: Core, id: u64, limits: Limits)
    requires CoreInv(core, limits) && id in core.table.inodes
    ensures WellFormed(core.table.inodes[id].extents, core.allocation.count)
    ensures PhysicallyDisjoint(core.table.inodes[id].extents)
    ensures OwnedIn(core.table.inodes[id].extents, core.allocation.used)
    ensures core.allocation.Valid()
  {
    hide TreeOk, LinksOk, Table.Valid, Stored, TailZero, Tidy;
    OwnedByTable(core, id);
    assert InodeOk(core.device, core.table.inodes[id], core.superblock, limits);
  }

  lemma DropLastInv(core: Core, d: u64, k: nat, id: u64, limits: Limits)
    requires CoreInv(core, limits) && NameAt(core.Names(), d, k, id)
    requires core.table.inodes[id].inodeType != Directory && core.table.inodes[id].linkCount == 1
    ensures ReleaseExtents(core.allocation, core.table.inodes[id].extents).1 == Ok(())
    ensures CoreInv(DropLast(core, d, k, id), limits)
    ensures Shrunk(core.Names(), DropLast(core, d, k, id).Names())
  {
    var inode, after := core.table.inodes[id], DropLast(core, d, k, id);
    ExtentsSound(core, id, limits);
    InvPieces(core, limits);
    assert after.Names() == Removed(core.Names(), d, k, id);
    assert core.table.Erase(id) == Ok(after.table);
    assert Unnamed(core.Names(), d, k, id, inode).inodes[id] == inode;
    hide CoreInv, EntriesOk, Bury, StillOk, OwnershipOk, TreeOk, LinksOk, Table.Valid, Allocation.Valid, NameAt, LinkAt;
    hide ReleaseExtents, Owned, WellFormed, PhysicallyDisjoint, OwnedIn;
    ReleaseExtentsEffect(core.allocation, inode.extents);
    LastLinkGone(core.Names(), d, k, id, limits);
    ErasedOwnership(core.allocation.used, core.table.inodes, id, after.allocation.used);
    StillOkLess(core, id, limits);
    EraseValid(core.table, limits, id);
    BuryEntriesOk(core.dirs, d, k, limits);
    InvAfterDrop(core, after, limits);
    UnnamedShrunk(core.Names(), d, k, id, inode, after.Names());
  }

  // ----- The name of an empty directory -----

  function DropDirectory(core: Core, d: u64, k: nat, id: u64): Core
    requires NameAt(core.Names(), d, k, id)
  {
    core.(dirs := core.dirs[d := Bury(core.dirs[d], k)] - {id},
          table := Table(core.table.inodes - {id}, if id < core.table.next then id else core.table.next))
  }

  lemma DirectoryGone(ns: Namespace, d: u64, k: nat, id: u64, limits: Limits)
    requires TreeOk(ns, limits) && LinksOk(ns) && NameAt(ns, d, k, id)
    requires id in ns.dirs && id != ns.root && Vacant(ns.dirs[id])
    ensures d != id
    ensures TreeOk(RemovedDirectory(ns, d, k, id), limits) && LinksOk(RemovedDirectory(ns, d, k, id))
  {
    hide TreeOk, LinksOk, LinksOkBut, Links, Unnamed, NameAt, Vacant, RemovedDirectory;
    UnnamedFacts(ns, d, k, id);
    var inode, unnamed := ns.inodes[id], Unnamed(ns, d, k, id, ns.inodes[id]);
    DirectoryTyped(ns, id, limits);
    NamedElsewhere(ns, d, k, id, limits);
    OneName(ns, id, limits);
    UnnamedTree(ns, d, k, id, inode, limits);
    assert id in unnamed.dirs && Vacant(unnamed.dirs[id]);
    assert |Links(unnamed.dirs, id)| == 0;
    EraseDirectoryTree(unnamed, id, limits);
    EraseDirectoryLinks(unnamed, id, limits);
  }

  lemma NamedElsewhere(ns: Namespace, d: u64, k: nat, id: u64, limits: Limits)
    requires TreeOk(ns, limits) && NameAt(ns, d, k, id) && id in ns.dirs && Vacant(ns.dirs[id])
    ensures d != id
  {
    if d == id {
      NoNamesInVacant(ns, d, k, limits);
    }
  }

  function RemovedDirectory(ns: Namespace, d: u64, k: nat, id: u64): Namespace
    requires NameAt(ns, d, k, id)
  {
    Namespace(ns.inodes - {id}, ns.dirs[d := Bury(ns.dirs[d], k)] - {id}, ns.root)
  }

  lemma DropDirectoryInv(core: Core, d: u64, k: nat, id: u64, limits: Limits)
    requires CoreInv(core, limits) && NameAt(core.Names(), d, k, id)
    requires id in core.dirs && id != core.superblock.rootInode && Vacant(core.dirs[id])
    ensures core.table.inodes[id].inodeType == Directory && core.table.inodes[id].extents == [] && d != id
    ensures CoreInv(DropDirectory(core, d, k, id), limits)
    ensures Shrunk(core.Names(), DropDirectory(core, d, k, id).Names())
  {
    var inode, after := core.table.inodes[id], DropDirectory(core, d, k, id);
    InvPieces(core, limits);
    DirectoryTyped(core.Names(), id, limits);
    BlankDirectory(core, id, limits);
    assert after.Names() == RemovedDirectory(core.Names(), d, k, id);
    assert core.table.Erase(id) == Ok(after.table);
    hide CoreInv, EntriesOk, Bury, StillOk, OwnershipOk, TreeOk, LinksOk, Table.Valid, Allocation.Valid, NameAt, LinkAt, Vacant;
    assert Owned(inode.extents) == {};
    hide Owned;
    DirectoryGone(core.Names(), d, k, id, limits);
    ErasedOwnership(core.allocation.used, core.table.inodes, id, core.allocation.used);
    StillOkLess(core, id, limits);
    EraseValid(core.table, limits, id);
    BuryEntriesOk(core.dirs, d, k, limits);
    EraseEntriesOk(core.dirs[d := Bury(core.dirs[d], k)], id, limits);
    InvAfterDrop(core, after, limits);
    UnnamedShrunk(core.Names(), d, k, id, inode, after.Names());
  }

  lemma BlankDirectory(core: Core, id: u64, limits: Limits)
    requires CoreInv(core, limits) && id in core.table.inodes && core.table.inodes[id].inodeType == Directory
    ensures core.table.inodes[id].extents == [] && core.table.inodes[id].allocatedBytes == 0
  {
    hide OwnershipOk, TreeOk, LinksOk, Table.Valid, Allocation.Valid;
    assert InodeOk(core.device, core.table.inodes[id], core.superblock, limits);
  }

  lemma DirectoryTyped(ns: Namespace, id: u64, limits: Limits)
    requires TreeOk(ns, limits) && id in ns.dirs
    ensures ns.IsDirectory(id)
  {
  }
}
