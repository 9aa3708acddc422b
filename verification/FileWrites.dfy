/** The invariant of one file in a shared store, and what growing and writing do to it. */
module FileWrites {
  import opened Base
  import opened Devices
  import opened Allocators
  import opened Extents
  import opened Inodes
  import opened FileData
  import opened FileBytes
  import opened FileGrowth

  /** Device, bitmap and superblock agree on the geometry. */
  ghost predicate StoreOk(store: Store, superblock: Superblock) {
    && store.device.blockSize == superblock.blockSize > 0
    && store.device.BlockCount() == superblock.blockCount
    && |store.device.bytes| == superblock.blockCount * superblock.blockSize < TWO64
    && store.allocation.Valid() && store.allocation.count == superblock.blockCount
  }

  function Blocks(inode: Inode, superblock: Superblock): nat
    requires superblock.blockSize > 0
  {
    CeilDivide(inode.size, superblock.blockSize)
  }

  /** Every logical block of the file is stored, so a read or write inside the size always maps. */
  ghost predicate Stored(extents: seq<Extent>, blocks: nat) {
    forall block: int :: 0 <= block < blocks ==> Lookup(extents, block).Some?
  }

  /** Bytes between the end of the file and the end of its last block are zero. */
  ghost predicate TailZero(device: Device, inode: Inode)
    requires device.blockSize > 0
  {
    forall p: nat :: inode.size <= p && BlockOf(p, device.blockSize) < CeilDivide(inode.size, device.blockSize) ==>
      ByteAt(device, inode.extents, p) == 0
  }

  /** In normal form, covering exactly the file's blocks, with the byte count they make. */
  ghost predicate Tidy(inode: Inode, superblock: Superblock)
    requires superblock.blockSize > 0
  {
    && ExactCover(inode.extents, Blocks(inode, superblock))
    && Irreducible(inode.extents)
    && inode.allocatedBytes == PhysicalCount(inode.extents) * superblock.blockSize
  }

  /** The invariant of a regular file. A growth refused for its extent count leaves the file readable
      and writable at its old size, but over the extent limit: then it is no longer tidy. */
  ghost predicate FileOk(device: Device, inode: Inode, superblock: Superblock, limits: Limits)
    requires device.blockSize == superblock.blockSize > 0
  {
    && inode.size <= limits.maxFileBytes
    && WellFormed(inode.extents, superblock.blockCount)
    && PhysicallyDisjoint(inode.extents)
    && Stored(inode.extents, Blocks(inode, superblock))
    && TailZero(device, inode)
    && (|inode.extents| > limits.maxExtents || Tidy(inode, superblock))
  }

  ghost predicate OwnedIn(extents: seq<Extent>, used: set<u64>) {
    forall b: int :: b in Owned(extents) ==> b in used
  }

  /** `blocks` were free, are now allocated and zeroed; nothing else changed. */
  ghost predicate Taken(store: Store, after: Store, blocks: seq<u64>, superblock: Superblock) {
    && StoreOk(after, superblock)
    && Distinct(blocks)
    && (forall i :: 0 <= i < |blocks| ==> blocks[i] < superblock.blockCount && blocks[i] !in store.allocation.used)
    && after.allocation.used == store.allocation.used + Members(blocks)
    && (forall b, i: nat :: At(after.device, b, i) == if b in blocks then 0 else At(store.device, b, i))
  }

  lemma AllocatedBlocks(a: Allocation, n: nat)
    requires a.Valid() && a.AllocateMany(n).Ok?
    ensures var (after, blocks) := a.AllocateMany(n).value;
            && |blocks| == n && Distinct(blocks) && after.Valid() && after.count == a.count
            && after.used == a.used + Members(blocks)
            && forall i :: 0 <= i < n ==> blocks[i] < a.count && blocks[i] !in a.used
  {
    AllocateManyValid(a, n);
    assert forall i :: 0 <= i < n ==> a.AllocateMany(n).value.1[i] == a.Free()[i];
  }

  /** Growing either changes nothing for want of space, or takes exactly the missing blocks; it is
      then refused exactly when the extents with one per new block exceed the limit. */
  lemma GrowEffect(store: Store, inode: Inode, newBlocks: u64, superblock: Superblock, limits: Limits)
    requires StoreOk(store, superblock) && FileOk(store.device, inode, superblock, limits)
    requires OwnedIn(inode.extents, store.allocation.used)
    requires Blocks(inode, superblock) < newBlocks < TWO64 - 1
    ensures var oldBlocks := Blocks(inode, superblock);
            var (after, grown, r) := Grow(store, inode, oldBlocks, newBlocks, superblock, limits);
            if store.allocation.AllocateMany(newBlocks - oldBlocks).Err? then
              after == store && grown == inode && r.Err?
            else
              var blocks := store.allocation.AllocateMany(newBlocks - oldBlocks).value.1;
              && |blocks| == newBlocks - oldBlocks
              && Taken(store, after, blocks, superblock)
              && grown == inode.(extents := grown.extents)
              && (r.Ok? <==> |inode.extents| + |blocks| <= limits.maxExtents)
              && (r.Ok? ==> Extended(grown.extents, inode.extents, blocks, oldBlocks, superblock.blockCount))
              && (r.Err? ==> grown.extents == inode.extents + Singles(blocks, oldBlocks))
  {
    hide At, Lookup, Owned, Normalize, Stored, TailZero, Device.BlockCount, Extended, Allocation.AllocateMany;
    var oldBlocks := Blocks(inode, superblock);
    if store.allocation.AllocateMany(newBlocks - oldBlocks).Ok? {
      var (allocation, blocks) := store.allocation.AllocateMany(newBlocks - oldBlocks).value;
      AllocatedBlocks(store.allocation, newBlocks - oldBlocks);
      AttachEffect(store.device, inode.extents, blocks, oldBlocks);
      TakenShape(store.device, Attach(store.device, inode.extents, blocks, oldBlocks).0, superblock);
      if |inode.extents| + |blocks| <= limits.maxExtents {
        assert Appendable(inode.extents, blocks, oldBlocks, superblock.blockCount);
        GrowNormalized(limits, inode.extents, blocks, oldBlocks, superblock.blockCount);
        NormalizeAfter(limits, inode.extents + Singles(blocks, oldBlocks), superblock.blockCount);
      } else {
        NormalizeTooMany(limits, inode.extents + Singles(blocks, oldBlocks), superblock.blockCount);
      }
    }
  }

  lemma TakenShape(before: Device, after: Device, superblock: Superblock)
    requires SameShape(before, after) && before.BlockCount() == superblock.blockCount
    ensures after.BlockCount() == superblock.blockCount
  {
  }

  lemma NormalizeAfter(limits: Limits, extents: seq<Extent>, deviceBlocks: u64)
    requires Normalize(limits, extents, deviceBlocks).Ok?
    ensures AfterNormalize(limits, extents, deviceBlocks) == Normalize(limits, extents, deviceBlocks).value
  {
  }

  lemma NormalizeTooMany(limits: Limits, extents: seq<Extent>, deviceBlocks: u64)
    requires |extents| > limits.maxExtents
    ensures Normalize(limits, extents, deviceBlocks).Err?
    ensures AfterNormalize(limits, extents, deviceBlocks) == extents
  {
  }

  // ----- What one call does to one file in the store -----

  /** The file keeps its blocks and may gain free ones; nobody else's block changes. */
  ghost predicate Effect(store: Store, inode: Inode, after: Store, changed: Inode, superblock: Superblock, limits: Limits) {
    && StoreOk(after, superblock)
    && FileOk(after.device, changed, superblock, limits)
    && (forall b: int :: b in Owned(inode.extents) ==> b in Owned(changed.extents))
    && (forall b: int :: b in after.allocation.used <==> b in store.allocation.used || b in Owned(changed.extents))
    && (forall b: int :: b in Owned(changed.extents) && b !in Owned(inode.extents) ==> b !in store.allocation.used)
    && (forall b: int, i: nat :: b in store.allocation.used && b !in Owned(inode.extents) ==>
          At(after.device, b, i) == At(store.device, b, i))
    && changed == inode.(extents := changed.extents, size := changed.size, allocatedBytes := changed.allocatedBytes,
                         generation := changed.generation)
  }

  /** Bytes below `limit` blocks: the old ones inside the old size, zeros beyond it. */
  ghost predicate ZeroExtended(before: Device, inode: Inode, after: Device, extents: seq<Extent>, blocks: nat)
    requires before.blockSize > 0 && after.blockSize == before.blockSize
  {
    forall p: nat :: BlockOf(p, before.blockSize) < blocks ==>
      ByteAt(after, extents, p) == if p < inode.size then ByteAt(before, inode.extents, p) else 0
  }

  lemma OldByte(store: Store, inode: Inode, after: Store, extents: seq<Extent>, blocks: seq<u64>, superblock: Superblock, p: nat)
    requires store.device.blockSize > 0 && Taken(store, after, blocks, superblock)
    requires after.device.blockSize == store.device.blockSize
    requires OwnedIn(inode.extents, store.allocation.used)
    requires var block := BlockOf(p, store.device.blockSize);
             Lookup(extents, block) == Lookup(inode.extents, block)
    ensures ByteAt(after.device, extents, p) == ByteAt(store.device, inode.extents, p)
  {
    hide At, Lookup, Owned, StoreOk, BlockOf;
    var block := Lookup(inode.extents, BlockOf(p, store.device.blockSize));
    if block.Some? {
      LookupOwned(inode.extents, BlockOf(p, store.device.blockSize));
      assert block.value !in blocks;
    }
  }

  lemma NewByte(store: Store, after: Store, extents: seq<Extent>, blocks: seq<u64>, next: u64, superblock: Superblock, p: nat)
    requires store.device.blockSize > 0 && Taken(store, after, blocks, superblock)
    requires after.device.blockSize == store.device.blockSize
    requires next <= BlockOf(p, store.device.blockSize) < next + |blocks|
    requires Lookup(extents, BlockOf(p, store.device.blockSize)) == Some(blocks[BlockOf(p, store.device.blockSize) - next] as int)
    ensures ByteAt(after.device, extents, p) == 0
  {
    hide At, Lookup, StoreOk, BlockOf;
  }

  lemma RefusedGrowEffect(store: Store, inode: Inode, after: Store, blocks: seq<u64>, superblock: Superblock, limits: Limits)
    requires StoreOk(store, superblock) && FileOk(store.device, inode, superblock, limits)
    requires OwnedIn(inode.extents, store.allocation.used)
    requires Taken(store, after, blocks, superblock)
    requires Blocks(inode, superblock) + |blocks| < TWO64 - 1 && |inode.extents| + |blocks| > limits.maxExtents
    ensures Effect(store, inode, after, inode.(extents := inode.extents + Singles(blocks, Blocks(inode, superblock))),
                   superblock, limits)
    ensures after.device.blockSize > 0
    ensures Content(after.device, inode.(extents := inode.extents + Singles(blocks, Blocks(inode, superblock))))
         == Content(store.device, inode)
  {
    hide At, Lookup, Owned, Tidy, Device.BlockCount, ByteAt, BlockOf;
    var next := Blocks(inode, superblock);
    var extents := inode.extents + Singles(blocks, next);
    assert Appendable(inode.extents, blocks, next, superblock.blockCount);
    AppendWellFormed(inode.extents, blocks, next, superblock.blockCount);
    AppendSinglesOwned(inode.extents, blocks, next);
    forall block: int | 0 <= block < next ensures Lookup(extents, block) == Lookup(inode.extents, block) {
      AppendLookup(inode.extents, blocks, next, block);
      LookupUncovered(inode.extents, block);
    }
    forall p: nat | inode.size <= p && BlockOf(p, store.device.blockSize) < next
      ensures ByteAt(after.device, extents, p) == 0
    {
      OldByte(store, inode, after, extents, blocks, superblock, p);
    }
    forall p: nat | p < inode.size
      ensures ByteAt(after.device, extents, p) == ByteAt(store.device, inode.extents, p)
    {
      InsideBlocks(inode.size, store.device.blockSize, p);
      OldByte(store, inode, after, extents, blocks, superblock, p);
    }
  }

  /** Blocks taken and attached: ready for the new size, with zeros beyond the old one. */
  lemma GrownBytes(store: Store, inode: Inode, after: Store, extents: seq<Extent>, blocks: seq<u64>, superblock: Superblock, limits: Limits)
    requires StoreOk(store, superblock) && FileOk(store.device, inode, superblock, limits)
    requires OwnedIn(inode.extents, store.allocation.used)
    requires Taken(store, after, blocks, superblock)
    requires Blocks(inode, superblock) + |blocks| < TWO64 - 1
    requires Extended(extents, inode.extents, blocks, Blocks(inode, superblock), superblock.blockCount)
    ensures ZeroExtended(store.device, inode, after.device, extents, Blocks(inode, superblock) + |blocks|)
  {
    hide At, Lookup, Owned, Tidy, Device.BlockCount, ByteAt, BlockOf, WellFormed, PhysicallyDisjoint, Irreducible, ExactCover;
    var size, next := store.device.blockSize, Blocks(inode, superblock);
    forall p: nat | BlockOf(p, size) < next + |blocks|
      ensures ByteAt(after.device, extents, p) == if p < inode.size then ByteAt(store.device, inode.extents, p) else 0
    {
      if BlockOf(p, size) < next {
        OldByte(store, inode, after, extents, blocks, superblock, p);
      } else {
        NewByte(store, after, extents, blocks, next, superblock, p);
        InsideBlocks(inode.size, size, p);
      }
    }
  }

  /** A position inside the size is inside the blocks of that size. */
  lemma InsideBlocks(size: nat, blockSize: nat, p: nat)
    requires blockSize > 0
    ensures p < size ==> BlockOf(p, blockSize) < CeilDivide(size, blockSize)
  {
    CeilDivideCovers(size, blockSize, p);
  }

  /** Without new blocks the zero tail is what the file grows into. */
  lemma SameBlocksBytes(device: Device, inode: Inode)
    requires device.blockSize > 0 && TailZero(device, inode)
    ensures ZeroExtended(device, inode, device, inode.extents, CeilDivide(inode.size, device.blockSize))
  {
  }

  lemma SettleGrown(inode: Inode, size: u64, superblock: Superblock)
    requires superblock.blockSize > 0 && superblock.blockCount * superblock.blockSize < TWO64
    requires WellFormed(inode.extents, superblock.blockCount) && PhysicallyDisjoint(inode.extents)
    ensures var (settled, r) := Settle(inode, size, superblock);
            && r == Ok(())
            && settled == inode.(size := size, allocatedBytes := settled.allocatedBytes, generation := settled.generation)
            && settled.allocatedBytes == PhysicalCount(inode.extents) * superblock.blockSize
  {
    hide WellFormed, PhysicallyDisjoint;
    PhysicalCountBound(inode.extents, superblock.blockCount);
    MulMonotone(superblock.blockSize, PhysicalCount(inode.extents), superblock.blockCount);
  }

  ghost predicate GrownTo(store: Store, inode: Inode, after: Store, grown: Inode, size: u64, superblock: Superblock)
    requires superblock.blockSize > 0 && store.device.blockSize > 0 && after.device.blockSize == store.device.blockSize
  {
    && grown.size == size
    && ZeroExtended(store.device, inode, after.device, grown.extents, CeilDivide(size, superblock.blockSize))
  }

  lemma ExtendedOwnership(store: Store, inode: Inode, after: Store, extents: seq<Extent>, blocks: seq<u64>, next: u64, superblock: Superblock)
    requires Taken(store, after, blocks, superblock) && OwnedIn(inode.extents, store.allocation.used)
    requires forall b: int :: b in Owned(extents) <==> b in Owned(inode.extents) || b in blocks
    ensures forall b: int :: b in after.allocation.used <==> b in store.allocation.used || b in Owned(extents)
    ensures forall b: int :: b in Owned(extents) && b !in Owned(inode.extents) ==> b !in store.allocation.used
    ensures forall b: int, i: nat :: b in store.allocation.used && b !in Owned(inode.extents) ==>
              At(after.device, b, i) == At(store.device, b, i)
  {
    hide At, Owned, StoreOk;
  }

  lemma GrownFileOk(store: Store, inode: Inode, after: Store, grown: Inode, blocks: seq<u64>, size: u64, superblock: Superblock, limits: Limits)
    requires StoreOk(store, superblock) && FileOk(store.device, inode, superblock, limits)
    requires OwnedIn(inode.extents, store.allocation.used)
    requires Taken(store, after, blocks, superblock)
    requires Blocks(inode, superblock) + |blocks| < TWO64 - 1
    requires Extended(grown.extents, inode.extents, blocks, Blocks(inode, superblock), superblock.blockCount)
    requires inode.size <= size <= limits.maxFileBytes && grown.size == size
    requires Blocks(inode, superblock) + |blocks| == CeilDivide(size, superblock.blockSize)
    requires grown.allocatedBytes == PhysicalCount(grown.extents) * superblock.blockSize
    ensures FileOk(after.device, grown, superblock, limits)
    ensures ZeroExtended(store.device, inode, after.device, grown.extents, CeilDivide(size, superblock.blockSize))
  {
    hide At, Lookup, Owned, Device.BlockCount, ByteAt, BlockOf, PhysicalCount;
    GrownBytes(store, inode, after, grown.extents, blocks, superblock, limits);
  }

  /** A file in the middle of `resize_inode` that grew by blocks, up to the settled inode. */
  lemma GrowThenSettle(store: Store, inode: Inode, size: u64, superblock: Superblock, limits: Limits)
    requires StoreOk(store, superblock) && FileOk(store.device, inode, superblock, limits)
    requires OwnedIn(inode.extents, store.allocation.used)
    requires inode.size < size <= limits.maxFileBytes
    requires Blocks(inode, superblock) < CeilDivide(size, superblock.blockSize)
    ensures var (after, changed, r) := Resize(store, inode, size, superblock, limits);
            && Effect(store, inode, after, changed, superblock, limits)
            && (r.Ok? ==> GrownTo(store, inode, after, changed, size, superblock))
            && (r.Err? ==> changed.size == inode.size && Content(after.device, changed) == Content(store.device, inode))
  {
    hide Content, At, Lookup, Owned, Device.BlockCount, ByteAt, BlockOf, PhysicalCount, Grow, Settle, Extended, FileOk, Singles, ZeroExtended;
    hide Allocation.AllocateMany;
    var next, newBlocks := Blocks(inode, superblock), CeilDivide(size, superblock.blockSize);
    GrowEffect(store, inode, newBlocks, superblock, limits) by {
      assert newBlocks <= size;
    }
    var (after, grown, r) := Grow(store, inode, next, newBlocks, superblock, limits);
    if store.allocation.AllocateMany(newBlocks - next).Err? {
      UnchangedEffect(store, inode, superblock, limits);
    } else {
      var blocks := store.allocation.AllocateMany(newBlocks - next).value.1;
      if r.Err? {
        RefusedGrowEffect(store, inode, after, blocks, superblock, limits);
      } else {
        assert WellFormed(grown.extents, superblock.blockCount) && PhysicallyDisjoint(grown.extents)
          && forall b: int :: b in Owned(grown.extents) <==> b in Owned(inode.extents) || b in blocks by {
          ExtendedMeans(grown.extents, inode.extents, blocks, next, superblock.blockCount);
        }
        assert StoreOk(store, superblock);
        SettleGrown(grown, size, superblock);
        var (settled, _) := Settle(grown, size, superblock);
        GrownFileOk(store, inode, after, settled, blocks, size, superblock, limits);
        ExtendedOwnership(store, inode, after, settled.extents, blocks, next, superblock);
      }
    }
  }

  lemma ExtendedMeans(after: seq<Extent>, extents: seq<Extent>, blocks: seq<u64>, next: u64, deviceBlocks: u64)
    requires Extended(after, extents, blocks, next, deviceBlocks)
    ensures WellFormed(after, deviceBlocks) && PhysicallyDisjoint(after)
    ensures forall b: int :: b in Owned(after) <==> b in Owned(extents) || b in blocks
  {
  }

  lemma UnchangedEffect(store: Store, inode: Inode, superblock: Superblock, limits: Limits)
    requires StoreOk(store, superblock) && FileOk(store.device, inode, superblock, limits)
    requires OwnedIn(inode.extents, store.allocation.used)
    ensures Effect(store, inode, store, inode, superblock, limits)
  {
    hide At, Owned, FileOk, StoreOk;
  }

  lemma SettleInPlace(store: Store, inode: Inode, size: u64, superblock: Superblock, limits: Limits)
    requires StoreOk(store, superblock) && FileOk(store.device, inode, superblock, limits)
    requires OwnedIn(inode.extents, store.allocation.used)
    requires inode.size <= size <= limits.maxFileBytes
    requires Blocks(inode, superblock) == CeilDivide(size, superblock.blockSize)
    ensures var (after, changed, r) := Resize(store, inode, size, superblock, limits);
            && r == Ok(())
            && Effect(store, inode, after, changed, superblock, limits)
            && GrownTo(store, inode, after, changed, size, superblock)
  {
    hide At, Lookup, Owned, ByteAt, BlockOf, PhysicalCount, Settle;
    SettleGrown(inode, size, superblock);
    SameBlocksBytes(store.device, inode);
  }

  /** A growth goes through: within the file limit, and either in the blocks there are or with enough
      free blocks and extents. A file over the extent limit can only grow in the blocks it has. */
  predicate GrowthFits(store: Store, inode: Inode, size: u64, superblock: Superblock, limits: Limits)
    requires superblock.blockSize > 0
  {
    var missing := CeilDivide(size, superblock.blockSize) - Blocks(inode, superblock);
    && size <= limits.maxFileBytes
    && (missing > 0 ==>
          |store.allocation.used| + missing <= store.allocation.count && |inode.extents| + missing <= limits.maxExtents)
  }

  /** The layout after a growth: the old blocks stay where they are, and `blocks`, which were free, come
      behind them. */
  ghost predicate LaidOut(store: Store, inode: Inode, after: Store, grown: Inode, blocks: seq<u64>, superblock: Superblock)
    requires superblock.blockSize > 0
  {
    var old' := Blocks(inode, superblock);
    && after.allocation.used == store.allocation.used + Members(blocks)
    && Distinct(blocks) && (forall b :: b in blocks ==> b !in store.allocation.used)
    && (forall b: int :: b in Owned(grown.extents) <==> b in Owned(inode.extents) || b in blocks)
    && (forall block: int :: Lookup(grown.extents, block) ==
          if old' <= block < old' + |blocks| then Some(blocks[block - old'] as int) else Lookup(inode.extents, block))
    && (ExactCover(inode.extents, old') ==> ExactCover(grown.extents, old' + |blocks|))
    && grown.allocatedBytes == PhysicalCount(grown.extents) * superblock.blockSize
  }

  /** The blocks a growth takes: the lowest free ones. */
  function NewBlocks(store: Store, inode: Inode, size: u64, superblock: Superblock): seq<u64>
    requires superblock.blockSize > 0
  {
    var missing := CeilDivide(size, superblock.blockSize) - Blocks(inode, superblock);
    if missing <= 0 then []
    else
      var taken := store.allocation.AllocateMany(missing);
      if taken.Err? then [] else taken.value.1
  }

  lemma GrownLayout(store: Store, inode: Inode, size: u64, superblock: Superblock, limits: Limits)
    requires StoreOk(store, superblock) && FileOk(store.device, inode, superblock, limits)
    requires OwnedIn(inode.extents, store.allocation.used)
    requires inode.size < size <= limits.maxFileBytes
    requires Blocks(inode, superblock) < CeilDivide(size, superblock.blockSize)
    ensures var (after, changed, r) := Resize(store, inode, size, superblock, limits);
            var blocks := NewBlocks(store, inode, size, superblock);
            && (r.Ok? <==> GrowthFits(store, inode, size, superblock, limits))
            && (r.Ok? ==> |blocks| == CeilDivide(size, superblock.blockSize) - Blocks(inode, superblock)
                          && LaidOut(store, inode, after, changed, blocks, superblock))
  {
    hide At, Lookup, Owned, Device.BlockCount, ByteAt, BlockOf, PhysicalCount, Grow, Settle, Extended, FileOk, Singles, Distinct;
    hide Allocation.AllocateMany, Allocation.Valid, ExactCover, WellFormed, PhysicallyDisjoint;
    var next, newBlocks := Blocks(inode, superblock), CeilDivide(size, superblock.blockSize);
    GrowEffect(store, inode, newBlocks, superblock, limits) by {
      assert newBlocks <= size;
    }
    AllocateManyFailsWhenFull(store.allocation, newBlocks - next);
    var (after, grown, r) := Grow(store, inode, next, newBlocks, superblock, limits);
    if store.allocation.AllocateMany(newBlocks - next).Ok? && r.Ok? {
      var blocks := store.allocation.AllocateMany(newBlocks - next).value.1;
      ExtendedMeans(grown.extents, inode.extents, blocks, next, superblock.blockCount);
      ExtendedLayout(grown.extents, inode.extents, blocks, next, superblock.blockCount);
      SettleGrown(grown, size, superblock);
      assert forall b :: b in blocks ==> b !in store.allocation.used;
    }
  }

  lemma ExtendedLayout(after: seq<Extent>, extents: seq<Extent>, blocks: seq<u64>, next: u64, deviceBlocks: u64)
    requires Extended(after, extents, blocks, next, deviceBlocks)
    ensures ExactCover(after, next + |blocks|)
    ensures forall block: int :: Lookup(after, block) ==
              if next <= block < next + |blocks| then Some(blocks[block - next] as int) else Lookup(extents, block)
  {
    hide Lookup, ExactCover, WellFormed, PhysicallyDisjoint, Irreducible, PhysicalCount;
  }

  lemma SettledLayout(store: Store, inode: Inode, size: u64, superblock: Superblock, limits: Limits)
    requires StoreOk(store, superblock) && FileOk(store.device, inode, superblock, limits)
    requires inode.size <= size <= limits.maxFileBytes
    requires Blocks(inode, superblock) == CeilDivide(size, superblock.blockSize)
    ensures var (after, changed, r) := Resize(store, inode, size, superblock, limits);
            && r == Ok(()) && GrowthFits(store, inode, size, superblock, limits)
            && after == store && changed.extents == inode.extents
            && LaidOut(store, inode, after, changed, [], superblock)
  {
    hide At, Lookup, Owned, ByteAt, BlockOf, PhysicalCount, Settle, ExactCover;
    SettleGrown(inode, size, superblock);
    assert Members([]) == {};
  }

  /** Growing a file, whatever comes of it: it succeeds exactly when it fits, then covers exactly the
      blocks of its new size if it covered those of the old one, with every old block in its place. */
  lemma ResizeUpEffect(store: Store, inode: Inode, size: u64, superblock: Superblock, limits: Limits)
    requires StoreOk(store, superblock) && FileOk(store.device, inode, superblock, limits)
    requires OwnedIn(inode.extents, store.allocation.used)
    requires inode.size < size
    ensures var (after, changed, r) := Resize(store, inode, size, superblock, limits);
            var blocks := NewBlocks(store, inode, size, superblock);
            && Effect(store, inode, after, changed, superblock, limits)
            && (r.Ok? <==> GrowthFits(store, inode, size, superblock, limits))
            && (r.Ok? ==> GrownTo(store, inode, after, changed, size, superblock)
                          && |blocks| == CeilDivide(size, superblock.blockSize) - Blocks(inode, superblock)
                          && LaidOut(store, inode, after, changed, blocks, superblock))
            && (r.Err? ==> changed.size == inode.size && Content(after.device, changed) == Content(store.device, inode))
  {
    hide LaidOut, GrownTo, Effect, Content, FileOk, NewBlocks;
    NewBlocksNone(store, inode, size, superblock);
    if size > limits.maxFileBytes {
      UnchangedEffect(store, inode, superblock, limits);
    } else {
      CeilDivideMonotone(inode.size, size, superblock.blockSize);
      if Blocks(inode, superblock) < CeilDivide(size, superblock.blockSize) {
        GrowThenSettle(store, inode, size, superblock, limits);
        GrownLayout(store, inode, size, superblock, limits);
      } else {
        SettleInPlace(store, inode, size, superblock, limits);
        SettledLayout(store, inode, size, superblock, limits);
      }
    }
  }

  lemma NewBlocksNone(store: Store, inode: Inode, size: u64, superblock: Superblock)
    requires superblock.blockSize > 0
    ensures CeilDivide(size, superblock.blockSize) <= Blocks(inode, superblock) ==> NewBlocks(store, inode, size, superblock) == []
  {
  }

  // ----- Writing inside the size -----

  lemma ChunksEffect(store: Store, inode: Inode, offset: nat, data: seq<byte>, superblock: Superblock, limits: Limits)
    requires StoreOk(store, superblock) && FileOk(store.device, inode, superblock, limits)
    requires OwnedIn(inode.extents, store.allocation.used)
    requires offset + |data| <= inode.size || data == []
    ensures var (device, r) := WriteChunks(store.device, inode.extents, offset, data, superblock);
            && r == Ok(())
            && Effect(store, inode, store.(device := device), inode, superblock, limits)
            && forall p: nat :: ByteAt(device, inode.extents, p) ==
                 if offset <= p < offset + |data| then data[p - offset] else ByteAt(store.device, inode.extents, p)
  {
    if data == [] {
      UnchangedEffect(store, inode, superblock, limits);
    } else {
      hide At, Lookup, Owned, ByteAt, BlockOf, Tidy;
      forall p | offset <= p < offset + |data| ensures Lookup(inode.extents, BlockOf(p, superblock.blockSize)).Some? {
        InsideBlocks(inode.size, superblock.blockSize, p);
      }
      WriteChunksCorrect(store.device, inode.extents, offset, data, superblock);
      var device := WriteChunks(store.device, inode.extents, offset, data, superblock).0;
      ShapeKeepsStore(store, device, superblock);
    }
  }

  lemma ShapeKeepsStore(store: Store, device: Device, superblock: Superblock)
    requires StoreOk(store, superblock) && SameShape(store.device, device)
    ensures StoreOk(store.(device := device), superblock)
  {
  }

  lemma EffectsCompose(store: Store, inode: Inode, middle: Store, changed: Inode, after: Store, last: Inode, superblock: Superblock, limits: Limits)
    requires Effect(store, inode, middle, changed, superblock, limits)
    requires Effect(middle, changed, after, last, superblock, limits)
    ensures Effect(store, inode, after, last, superblock, limits)
  {
    hide At, Owned, FileOk, StoreOk;
  }

  lemma OverlayBytes(before: Device, inode: Inode, after: Device, changed: Inode, offset: nat, data: seq<byte>)
    requires before.blockSize > 0 && after.blockSize == before.blockSize
    requires changed.size == Max(inode.size, offset + |data|)
    requires forall p: nat | p < changed.size ::
               ByteAt(after, changed.extents, p) ==
               if offset <= p < offset + |data| then data[p - offset]
               else if p < inode.size then ByteAt(before, inode.extents, p) else 0
    ensures Content(after, changed) == Overlay(Content(before, inode), offset, data)
  {
    hide ByteAt;
  }

  /** The exact condition for a write to go through. */
  predicate WriteFits(store: Store, inode: Inode, offset: u64, length: nat, superblock: Superblock, limits: Limits)
    requires superblock.blockSize > 0
  {
    && offset + length <= limits.maxFileBytes
    && (offset + length > inode.size ==> GrowthFits(store, inode, offset + length, superblock, limits))
  }

  /** The data layer in one statement: a write that fits succeeds and the file is the old byte sequence
      with the data laid over it, any other fails and keeps the bytes; either way the file stays in order,
      takes only blocks that were free, and no block of anybody else changes. */
  lemma WriteEffect(store: Store, inode: Inode, offset: u64, data: seq<byte>, superblock: Superblock, limits: Limits)
    requires StoreOk(store, superblock) && FileOk(store.device, inode, superblock, limits)
    requires OwnedIn(inode.extents, store.allocation.used)
    ensures var (after, changed, r) := WriteData(store, inode, offset, data, superblock, limits);
            && Effect(store, inode, after, changed, superblock, limits)
            && (r.Ok? <==> WriteFits(store, inode, offset, |data|, superblock, limits))
            && (r.Ok? ==> Content(after.device, changed) == Overlay(Content(store.device, inode), offset, data))
            && (r.Err? ==> changed.size == inode.size && Content(after.device, changed) == Content(store.device, inode))
  {
    hide LaidOut, GrowthFits, NewBlocks, At, Lookup, Owned, FileOk, StoreOk, Resize, WriteChunks, ByteAt, Effect, BlockOf;
    assert store.device.blockSize == superblock.blockSize > 0 by { StoreGeometry(store, superblock); }
    if offset + |data| > limits.maxFileBytes {
      UnchangedEffect(store, inode, superblock, limits);
    } else if offset + |data| > inode.size {
      var end: u64 := offset + |data|;
      ResizeUpEffect(store, inode, end, superblock, limits);
      var (middle, grown, r) := Resize(store, inode, end, superblock, limits);
      if r.Ok? {
        EffectMeans(store, inode, middle, grown, superblock, limits);
        ChunksEffect(middle, grown, offset, data, superblock, limits);
        var device := WriteChunks(middle.device, grown.extents, offset, data, superblock).0;
        EffectMeans(middle, grown, middle.(device := device), grown, superblock, limits);
        EffectsCompose(store, inode, middle, grown, middle.(device := device), grown, superblock, limits);
        forall p: nat | p < grown.size ensures BlockOf(p, superblock.blockSize) < CeilDivide(end, superblock.blockSize) {
          InsideBlocks(end, superblock.blockSize, p);
        }
        OverlayBytes(store.device, inode, device, grown, offset, data);
      }
    } else {
      ChunksEffect(store, inode, offset, data, superblock, limits);
      var device := WriteChunks(store.device, inode.extents, offset, data, superblock).0;
      EffectMeans(store, inode, store.(device := device), inode, superblock, limits);
      OverlayBytes(store.device, inode, device, inode, offset, data);
    }
  }

  lemma StoreGeometry(store: Store, superblock: Superblock)
    requires StoreOk(store, superblock)
    ensures store.device.blockSize == superblock.blockSize > 0
  {
  }

  lemma EffectMeans(store: Store, inode: Inode, after: Store, changed: Inode, superblock: Superblock, limits: Limits)
    requires Effect(store, inode, after, changed, superblock, limits)
    ensures StoreOk(after, superblock) && FileOk(after.device, changed, superblock, limits)
    ensures OwnedIn(changed.extents, after.allocation.used)
    ensures after.device.blockSize == superblock.blockSize > 0
  {
  }
}
