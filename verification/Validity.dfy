/** Every inode and every table a run can reach passes the checks made on loaded ones. */
module Validity {
  import opened Base
  import opened Devices
  import opened Extents
  import opened Inodes
  import opened InodeTables
  import opened Directories
  import opened Paths
  import opened Trees
  import opened FileData
  import opened FileGrowth
  import opened FileWrites
  import opened FsModel
  import opened FsInvariant
  import opened FsCreate
  import opened FsRemove
  import opened FsRemovePath
  import opened FsNodes

  // ----- Inodes -----

  /** The limits leave room for the two links of a directory and for a whole number of blocks. */
  predicate WholeLimits(superblock: Superblock, limits: Limits)
    requires superblock.blockSize > 0
  {
    limits.maxHardLinks >= 2 && limits.maxFileBytes % superblock.blockSize == 0
  }

  /** Ordered extents between two logical blocks store at most what lies between. */
  lemma {:induction false} OrderedCount(extents: seq<Extent>, low: int, high: int)
    requires Ordered(extents) && low <= high
    requires forall i :: 0 <= i < |extents| ==> low <= extents[i].logical && extents[i].logical + extents[i].blockCount <= high
    ensures PhysicalCount(extents) <= high - low
    decreases |extents|
  {
    if extents != [] {
      var e, rest := extents[0], extents[1..];
      assert forall i :: 0 <= i < |rest| ==> rest[i] == extents[i + 1];
      OrderedCount(rest, e.logical + e.blockCount, high);
    }
  }

  lemma CoverEnds(extents: seq<Extent>, n: nat, deviceBlocks: u64, i: nat)
    requires ExactCover(extents, n) && WellFormed(extents, deviceBlocks) && i < |extents|
    ensures extents[i].logical + extents[i].blockCount <= n
  {
    assert Sound(extents[i], deviceBlocks);
    var last := extents[i].logical + extents[i].blockCount - 1;
    assert extents[i].CoversLogical(last);
    assert Covered(extents, last) by {
      CoveredBy(extents, i, last);
    }
  }

  lemma {:induction false} CoveredBy(extents: seq<Extent>, i: nat, block: int)
    requires i < |extents| && extents[i].CoversLogical(block)
    ensures Covered(extents, block)
  {
  }

  lemma BlocksBound(size: nat, blockSize: nat, total: nat)
    requires blockSize > 0 && size <= total && total % blockSize == 0
    ensures CeilDivide(size, blockSize) * blockSize <= total
  {
    var n, m := CeilDivide(size, blockSize), Quotient(total, blockSize);
    DivModUnique(m, total - m * blockSize, blockSize);
    assert total == m * blockSize;
    if n > m {
      MulMonotone(blockSize, m, n - 1);
    }
  }

  lemma TidyVerifies(device: Device, inode: Inode, superblock: Superblock, limits: Limits)
    requires device.blockSize == superblock.blockSize > 0
    requires FileOk(device, inode, superblock, limits) && |inode.extents| <= limits.maxExtents
    ensures VerifyExtents(inode.extents, inode.size, inode.allocatedBytes, superblock, limits) == Ok(())
    ensures PhysicalCount(inode.extents) <= CeilDivide(inode.size, superblock.blockSize)
    ensures inode.allocatedBytes == PhysicalCount(inode.extents) * superblock.blockSize
  {
    hide Normalize, Lookup, Covered, ByteAt, Irreducible, PhysicallyDisjoint, Stored, TailZero;
    var n := CeilDivide(inode.size, superblock.blockSize);
    NormalFormIsFixed(limits, inode.extents, superblock.blockCount);
    forall i | 0 <= i < |inode.extents| ensures inode.extents[i].logical + inode.extents[i].blockCount <= n {
      CoverEnds(inode.extents, n, superblock.blockCount, i);
    }
    OrderedCount(inode.extents, 0, n);
    MulMonotone(PhysicalCount(inode.extents), 1, superblock.blockSize);
    hide PhysicalCount;
  }

  lemma FileBytesBound(device: Device, inode: Inode, superblock: Superblock, limits: Limits)
    requires device.blockSize == superblock.blockSize > 0 && WholeLimits(superblock, limits)
    requires FileOk(device, inode, superblock, limits) && |inode.extents| <= limits.maxExtents
    ensures inode.allocatedBytes <= limits.maxFileBytes && inode.size <= limits.maxFileBytes
  {
    assert inode.size <= limits.maxFileBytes && limits.maxFileBytes % superblock.blockSize == 0;
    hide PhysicalCount, FileOk, VerifyExtents, WholeLimits;
    TidyVerifies(device, inode, superblock, limits);
    BlocksBound(inode.size, superblock.blockSize, limits.maxFileBytes);
    BytesBound(PhysicalCount(inode.extents), CeilDivide(inode.size, superblock.blockSize), superblock.blockSize, limits.maxFileBytes);
  }

  lemma BytesBound(count: nat, blocks: nat, blockSize: nat, total: nat)
    requires count <= blocks && blocks * blockSize <= total
    ensures count * blockSize <= total
  {
    MulMonotone(blockSize, count, blocks);
  }

  lemma NoExtentsVerify(size: u64, superblock: Superblock, limits: Limits)
    requires superblock.blockSize > 0
    ensures VerifyExtents([], size, 0, superblock, limits) == Ok(())
  {
    NormalFormIsFixed(limits, [], superblock.blockCount);
  }

  /** What the checks of a loaded inode ask beyond what every run keeps. */
  predicate InodeFits(inode: Inode, limits: Limits) {
    && inode.linkCount <= limits.maxHardLinks && |inode.extents| <= limits.maxExtents
    && inode.allocatedBytes <= limits.maxFileBytes && |inode.symlinkTarget| <= limits.maxFileBytes
  }

  /** An inode of a run validates exactly when it fits: its link count and its extents, which a refused
      growth may have pushed over the limit, its byte count, and a link target as the size it has. */
  lemma InodeValidates(core: Core, id: u64, limits: Limits)
    requires CoreInv(core, limits) && id in core.table.inodes
    ensures core.superblock.blockSize > 0
    ensures core.table.inodes[id].Validate(core.superblock, limits).Ok? <==> InodeFits(core.table.inodes[id], limits)
  {
    hide CoreInv, OwnershipOk, TreeOk, LinksOk, StillOk, EntriesOk, Table.Valid, VerifyExtents, FileOk, InodeOk, Inode.Validate;
    BlockSizePositive(core, limits);
    InvPieces(core, limits);
    AtLeastOneLink(core.Names(), id, limits);
    IdentifierInRange(core.table, id, limits);
    InodeIsOk(core, id, limits);
    var inode := core.table.inodes[id];
    KindFacts(core.device, inode, core.superblock, limits);
    if InodeFits(inode, limits) {
      if inode.inodeType == Regular {
        TidyVerifies(core.device, inode, core.superblock, limits);
        SizeBound(core.device, inode, core.superblock, limits);
      } else {
        NoExtentsVerify(inode.size, core.superblock, limits);
      }
      ValidatePieces(inode, core.superblock, limits);
    } else if inode.Validate(core.superblock, limits).Ok? {
      ValidFits(inode, core.superblock, limits);
    }
  }

  lemma SizeBound(device: Device, inode: Inode, superblock: Superblock, limits: Limits)
    requires device.blockSize == superblock.blockSize > 0 && FileOk(device, inode, superblock, limits)
    ensures inode.size <= limits.maxFileBytes
  {
  }

  lemma ValidFits(inode: Inode, superblock: Superblock, limits: Limits)
    requires superblock.blockSize > 0 && inode.Validate(superblock, limits).Ok?
    requires inode.inodeType == SymbolicLink ==> inode.size == |inode.symlinkTarget|
    ensures InodeFits(inode, limits)
  {
    hide VerifyExtents;
  }

  /** With room for the two links of a directory and for a whole number of blocks, only the extent limit
      and the length of a link target are left to ask about. */
  lemma WholeFits(core: Core, id: u64, limits: Limits)
    requires CoreInv(core, limits) && id in core.table.inodes
    requires core.superblock.blockSize > 0 && WholeLimits(core.superblock, limits)
    ensures InodeFits(core.table.inodes[id], limits) <==>
            |core.table.inodes[id].extents| <= limits.maxExtents && |core.table.inodes[id].symlinkTarget| <= limits.maxFileBytes
  {
    hide CoreInv, OwnershipOk, TreeOk, LinksOk, StillOk, EntriesOk, Table.Valid, FileOk, InodeOk;
    BlockSizePositive(core, limits);
    InvPieces(core, limits);
    InodeIsOk(core, id, limits);
    var inode := core.table.inodes[id];
    KindFacts(core.device, inode, core.superblock, limits);
    if inode.inodeType == Regular && |inode.extents| <= limits.maxExtents {
      FileBytesBound(core.device, inode, core.superblock, limits);
    }
  }

  lemma InodeIsOk(core: Core, id: u64, limits: Limits)
    requires StillOk(core, core.table.inodes, limits) && id in core.table.inodes
    requires core.device.blockSize == core.superblock.blockSize > 0
    ensures InodeOk(core.device, core.table.inodes[id], core.superblock, limits)
  {
    hide InodeOk;
  }

  lemma KindFacts(device: Device, inode: Inode, superblock: Superblock, limits: Limits)
    requires device.blockSize == superblock.blockSize > 0 && InodeOk(device, inode, superblock, limits)
    ensures inode.inodeType.Usable() && inode.attributes == [] && inode.linkCount <= Max(2, limits.maxHardLinks)
    ensures inode.inodeType == Regular ==> FileOk(device, inode, superblock, limits) && inode.symlinkTarget == []
    ensures inode.inodeType != Regular ==> inode.extents == [] && inode.allocatedBytes == 0
    ensures inode.inodeType == Directory ==> inode.size == 0 && inode.symlinkTarget == []
    ensures inode.inodeType == SymbolicLink ==> 0 < |inode.symlinkTarget| <= limits.maxPathBytes && inode.size == |inode.symlinkTarget|
  {
    hide FileOk;
  }

  lemma ValidatePieces(inode: Inode, superblock: Superblock, limits: Limits)
    requires superblock.blockSize > 0 && 1 <= inode.identifier <= limits.maxInodes && inode.inodeType.Usable()
    requires 1 <= inode.linkCount <= limits.maxHardLinks && |inode.extents| <= limits.maxExtents && inode.attributes == []
    requires inode.size <= limits.maxFileBytes && inode.allocatedBytes <= limits.maxFileBytes
    requires if inode.inodeType == SymbolicLink then 0 < |inode.symlinkTarget| <= limits.maxPathBytes else inode.symlinkTarget == []
    requires VerifyExtents(inode.extents, inode.size, inode.allocatedBytes, superblock, limits) == Ok(())
    ensures inode.Validate(superblock, limits).Ok?
  {
    hide VerifyExtents;
  }

  lemma IdentifierInRange(table: Table, id: u64, limits: Limits)
    requires table.Valid(limits) && id in table.inodes
    ensures 1 <= id <= limits.maxInodes && table.inodes[id].identifier == id
  {
  }

  // ----- Tables -----

  lemma DotsFound(ns: Namespace, d: u64, limits: Limits)
    requires TreeOk(ns, limits) && d in ns.dirs
    ensures Directories.Find(ns.dirs, d, DOT).Some? && Directories.Find(ns.dirs, d, DOT).value.inode == d
    ensures Directories.Find(ns.dirs, d, DOTDOT).Some? && Directories.Find(ns.dirs, d, DOTDOT).value.inode in ns.inodes
  {
    assert TableOk(d, ns.dirs[d], limits) && Up(ns.dirs, d) in ns.dirs;
    FindUnique(ns.dirs[d], 0);
    ParentFound(ns.dirs, d, limits);
    TreeRoot(ns, limits);
    assert ns.IsDirectory(Up(ns.dirs, d));
  }

  lemma EntryLeads(ns: Namespace, d: u64, i: nat, limits: Limits)
    requires TreeOk(ns, limits) && d in ns.dirs && i < |ns.dirs[d]| && !ns.dirs[d][i].deleted
    ensures ns.dirs[d][i].inode in ns.inodes && ns.inodes[ns.dirs[d][i].inode].inodeType == ns.dirs[d][i].entryType
  {
    if i >= 2 {
      assert NameOk(ns, d, ns.dirs[d][i]);
    } else {
      assert TableOk(d, ns.dirs[d], limits) && Up(ns.dirs, d) in ns.dirs;
      assert ns.IsDirectory(d) && ns.IsDirectory(Up(ns.dirs, d));
    }
  }

  lemma TableVerifies(ns: Namespace, d: u64, limits: Limits)
    requires TreeOk(ns, limits) && d in ns.dirs
    requires forall i :: 0 <= i < |ns.dirs[d]| ==> ns.dirs[d][i].Validate(limits).Ok?
    ensures VerifiedDirectory(ns.dirs, d, ns.inodes, limits)
  {
    DotsFound(ns, d, limits);
    DirectoryTyped(ns, d, limits);
    assert TableOk(d, ns.dirs[d], limits);
    hide Directories.Find, DirectoryEntry.Validate, TreeOk, TombstonesFirst;
    forall i | 0 <= i < |ns.dirs[d]| && !ns.dirs[d][i].deleted
      ensures ns.dirs[d][i].inode in ns.inodes && ns.inodes[ns.dirs[d][i].inode].inodeType == ns.dirs[d][i].entryType
    {
      EntryLeads(ns, d, i, limits);
    }
  }

  /** The tables of a run verify, as long as the limit lets the root have its dot entries. */
  lemma TablesVerify(ns: Namespace, limits: Limits)
    requires TreeOk(ns, limits) && EntriesOk(ns.dirs, limits) && limits.maxDirectoryEntries >= 2
    requires forall d, i :: d in ns.dirs && 0 <= i < |ns.dirs[d]| ==> ns.dirs[d][i].Validate(limits).Ok?
    ensures VerifiedTables(ns.dirs, ns.inodes, ns.root, limits)
  {
    TreeRoot(ns, limits);
    hide TreeOk, VerifiedDirectory, DirectoryEntry.Validate, Total;
    forall d | d in ns.dirs ensures VerifiedDirectory(ns.dirs, d, ns.inodes, limits) {
      TableVerifies(ns, d, limits);
    }
  }
}
